/** Rotations, cleanups, maintenance passes, start-ups and identity resets of one key store. */
module KeyRuns {
  import opened KeyStores

  /** The three clock readings of one store during a maintenance pass. */
  datatype Readings = Readings(check: nat, stamp: nat, sweep: nat)

  ghost predicate InOrder(t: Readings) {
    t.check <= t.stamp <= t.sweep && GRACE_PERIOD_MS <= t.sweep
  }

  ghost function Ticked(keys: Keys, t: Readings): (r: Keys)
    requires NotFromFuture(keys, t.check)
    ensures r != map[]
  {
    if NeedsRotation(keys, t.check) then Rotated(keys, t.stamp) else keys
  }

  /** One store's share of a maintenance pass: rotate if due, then clean up. */
  ghost function Tended(b: Backend, keys: Keys, t: Readings, scan: seq<nat>): Keys
    requires InOrder(t) && NotFromFuture(keys, t.check)
    requires IsScan(b, Ticked(keys, t), t.sweep - GRACE_PERIOD_MS, scan)
  {
    Survivors(Ticked(keys, t), scan)
  }

  datatype Action =
    | Rotate(now: nat)
    | Cleanup(now: nat, scan: seq<nat>)
    | Maintain(readings: Readings, scan: seq<nat>)
    | Startup(now: nat)
    | Reset(now: nat)

  /** `issued` collects the ids given out since the last identity reset; `clock` is the last reading. */
  datatype Store = Store(keys: Keys, clock: nat, issued: set<nat>)

  const EMPTY_STORE := Store(map[], 0, {})

  /** The clock does not run backwards, scans are what the back end returns, and ids fit a u32. */
  ghost predicate Legal(b: Backend, s: Store, a: Action)
    requires NotFromFuture(s.keys, s.clock)
  {
    match a
    case Rotate(now) => s.clock <= now && NextId(s.keys) < U32_LIMIT
    case Cleanup(now, scan) =>
      s.clock <= now && GRACE_PERIOD_MS <= now && IsScan(b, s.keys, now - GRACE_PERIOD_MS, scan)
    case Maintain(t, scan) =>
      && s.clock <= t.check && InOrder(t) && NextId(s.keys) < U32_LIMIT
      && IsScan(b, Ticked(s.keys, t), t.sweep - GRACE_PERIOD_MS, scan)
    case Startup(now) => s.clock <= now
    case Reset(now) => s.clock <= now
  }

  ghost function Perform(b: Backend, s: Store, a: Action): Store
    requires NotFromFuture(s.keys, s.clock) && Legal(b, s, a)
  {
    match a
    case Rotate(now) => Store(Rotated(s.keys, now), now, s.issued + {NextId(s.keys)})
    case Cleanup(now, scan) =>
      Store(Survivors(s.keys, scan), now, s.issued)
    case Maintain(t, scan) =>
      Store(Tended(b, s.keys, t, scan), t.sweep,
            s.issued + if NeedsRotation(s.keys, t.check) then {NextId(s.keys)} else {})
    case Startup(now) =>
      if s.keys == map[] then Store(map[1 := now], now, s.issued + {1}) else s.(clock := now)
    case Reset(now) => Store(map[1 := now], now, {1})
  }

  /** The id that an action gives out, if it gives one out. */
  ghost function NewIds(s: Store, a: Action): set<nat>
    requires NotFromFuture(s.keys, s.clock) && (a.Maintain? ==> s.clock <= a.readings.check)
  {
    match a
    case Rotate(_) => {NextId(s.keys)}
    case Cleanup(_, _) => {}
    case Maintain(t, _) => if NeedsRotation(s.keys, t.check) then {NextId(s.keys)} else {}
    case Startup(_) => if s.keys == map[] then {1} else {}
    case Reset(_) => {1}
  }

  // ---------------------------------------------------------------- the newest key survives

  ghost predicate WellKept(s: Store) {
    && NotFromFuture(s.keys, s.clock)
    && Monotone(s.keys)
    && s.keys.Keys <= s.issued
    && (s.issued != {} ==> MaxOf(s.issued) in s.keys)
  }

  lemma {:induction false} NewestIsLastIssued(s: Store)
    requires WellKept(s) && s.keys != map[]
    ensures s.issued != {} && MaxOf(s.issued) == Newest(s.keys)
  {
    assert Newest(s.keys) in s.issued;
  }

  /**
   * From s to t without a reset: the newest key is kept or superseded by a newer one, and every id
   * given out exceeds all ids given out before.
   */
  ghost predicate Progress(s: Store, newIds: set<nat>, t: Store) {
    && t.issued == s.issued + newIds
    && (forall id, n :: id in s.issued && n in newIds ==> id < n)
    && (s.keys != map[] ==>
          && t.keys != map[] && Newest(s.keys) <= Newest(t.keys)
          && (newIds == {} ==> Newest(t.keys) == Newest(s.keys)
                               && t.keys[Newest(t.keys)] == s.keys[Newest(s.keys)]))
  }

  lemma {:induction false} RotationProgresses(s: Store, now: nat)
    requires WellKept(s) && s.clock <= now
    ensures var t := Store(Rotated(s.keys, now), now, s.issued + {NextId(s.keys)});
            WellKept(t) && Progress(s, {NextId(s.keys)}, t)
  {
    if s.keys != map[] {
      NewestIsLastIssued(s);
    }
    assert NextId(s.keys) in s.issued + {NextId(s.keys)};
  }

  lemma {:induction false} SweepProgresses(s: Store, now: nat, scan: seq<nat>)
    requires WellKept(s) && s.clock <= now && GRACE_PERIOD_MS <= now
    requires IsScan(Sqlite, s.keys, now - GRACE_PERIOD_MS, scan)
    ensures var t := Store(Survivors(s.keys, scan), now, s.issued);
            WellKept(t) && Progress(s, {}, t)
  {
    SweepMeaning(s.keys, scan);
    if s.keys != map[] {
      NewestIsLastIssued(s);
      AscendingScanKeepsNewest(s.keys, now - GRACE_PERIOD_MS, scan);
    }
  }

  lemma {:induction false} PassProgresses(s: Store, t: Readings, scan: seq<nat>)
    requires WellKept(s) && Legal(Sqlite, s, Maintain(t, scan))
    ensures var after := Perform(Sqlite, s, Maintain(t, scan));
            WellKept(after) && Progress(s, NewIds(s, Maintain(t, scan)), after)
  {
    var mid := Store(Ticked(s.keys, t), t.stamp, s.issued + NewIds(s, Maintain(t, scan)));
    if NeedsRotation(s.keys, t.check) {
      RotationProgresses(s, t.stamp);
    }
    SweepProgresses(mid, t.sweep, scan);
  }

  /** Every legal action on a well-kept SQLite store leaves it well kept and makes progress. */
  lemma {:induction false} ActionProgresses(s: Store, a: Action)
    requires WellKept(s) && Legal(Sqlite, s, a)
    ensures WellKept(Perform(Sqlite, s, a))
    ensures !a.Reset? ==> Progress(s, NewIds(s, a), Perform(Sqlite, s, a))
  {
    match a
    case Rotate(now) => RotationProgresses(s, now);
    case Cleanup(now, scan) => SweepProgresses(s, now, scan);
    case Maintain(t, scan) => PassProgresses(s, t, scan);
    case Startup(now) =>
    case Reset(now) =>
  }

  lemma {:induction false} NothingFromFuture(b: Backend, s: Store, a: Action)
    requires NotFromFuture(s.keys, s.clock) && Legal(b, s, a)
    ensures NotFromFuture(Perform(b, s, a).keys, Perform(b, s, a).clock)
  {
    match a
    case Rotate(now) =>
    case Cleanup(now, scan) => SweepMeaning(s.keys, scan);
    case Maintain(t, scan) => SweepMeaning(Ticked(s.keys, t), scan);
    case Startup(now) =>
    case Reset(now) =>
  }

  ghost predicate LegalRun(b: Backend, actions: seq<Action>)
    decreases |actions|, 0
  {
    actions == [] ||
    var init := actions[..|actions| - 1];
    LegalRun(b, init) && Legal(b, StoreAfter(b, init), actions[|actions| - 1])
  }

  ghost function StoreAfter(b: Backend, actions: seq<Action>): (s: Store)
    requires LegalRun(b, actions)
    ensures NotFromFuture(s.keys, s.clock)
    decreases |actions|, 1
  {
    if actions == [] then EMPTY_STORE
    else
      var s := StoreAfter(b, actions[..|actions| - 1]);
      var a := actions[|actions| - 1];
      NothingFromFuture(b, s, a);
      Perform(b, s, a)
  }

  /** In every SQLite run times stay monotone in id and the last id issued is still in the store. */
  lemma {:induction false} EveryRunIsWellKept(actions: seq<Action>)
    requires LegalRun(Sqlite, actions)
    ensures WellKept(StoreAfter(Sqlite, actions))
  {
    if actions != [] {
      var init := actions[..|actions| - 1];
      EveryRunIsWellKept(init);
      ActionProgresses(StoreAfter(Sqlite, init), actions[|actions| - 1]);
    } else {
      assert EMPTY_STORE.keys == map[];
    }
  }

  /**
   * In every SQLite run, every action but a reset keeps or supersedes the newest key, and each id it
   * issues exceeds all ids issued since the last reset.
   */
  lemma {:induction false} EveryIssueIsNew(actions: seq<Action>)
    requires LegalRun(Sqlite, actions) && actions != [] && !actions[|actions| - 1].Reset?
    ensures var s, a := StoreAfter(Sqlite, actions[..|actions| - 1]), actions[|actions| - 1];
            Progress(s, NewIds(s, a), StoreAfter(Sqlite, actions))
  {
    var init := actions[..|actions| - 1];
    EveryRunIsWellKept(init);
    ActionProgresses(StoreAfter(Sqlite, init), actions[|actions| - 1]);
  }

  // ---------------------------------------------------------------- one live key at rest

  ghost predicate OnlyStartupsAndPasses(actions: seq<Action>) {
    forall i :: 0 <= i < |actions| ==> actions[i].Startup? || actions[i].Maintain? || actions[i].Reset?
  }

  /** The cleanup does not come more than the grace period after the rotation; needed in memory only. */
  ghost predicate Prompt(b: Backend, t: Readings) { b.Sqlite? || t.sweep - GRACE_PERIOD_MS <= t.stamp }

  /**
   * A pass over a store of at most one key leaves exactly one: the same if no rotation is due, and
   * otherwise the new one.  The grace period grants nothing, because it equals the rotation interval: the
   * pass that rotates also deletes the superseded key.
   */
  lemma {:induction false} PassLeavesOneKey(b: Backend, keys: Keys, t: Readings, scan: seq<nat>)
    requires |keys| <= 1 && NotFromFuture(keys, t.check) && InOrder(t)
    requires IsScan(b, Ticked(keys, t), t.sweep - GRACE_PERIOD_MS, scan)
    ensures |Tended(b, keys, t, scan)| == 1
    ensures !NeedsRotation(keys, t.check) ==> Tended(b, keys, t, scan) == keys
    ensures NeedsRotation(keys, t.check) && Prompt(b, t) ==> Tended(b, keys, t, scan).Keys == {NextId(keys)}
  {
    if NeedsRotation(keys, t.check) && keys != map[] {
      RotatedIsSwept(b, keys, t, scan);
    } else {
      OneKeyIsKept(Ticked(keys, t), scan);
    }
  }

  lemma {:induction false} RotatedIsSwept(b: Backend, keys: Keys, t: Readings, scan: seq<nat>)
    requires |keys| == 1 && NotFromFuture(keys, t.check) && InOrder(t) && NeedsRotation(keys, t.check)
    requires IsScan(b, Rotated(keys, t.stamp), t.sweep - GRACE_PERIOD_MS, scan)
    ensures |Survivors(Rotated(keys, t.stamp), scan)| == 1
    ensures Prompt(b, t) ==> Survivors(Rotated(keys, t.stamp), scan).Keys == {NextId(keys)}
  {
    var was := Newest(keys);
    RotatedPair(keys, t.stamp);
    RotationImpliesExpiry(b, keys[was], t.check, t.sweep);
    TwoKeysSwept(b, Rotated(keys, t.stamp), was, NextId(keys), t.sweep - GRACE_PERIOD_MS, scan);
  }

  lemma {:induction false} RotatedPair(keys: Keys, stamp: nat)
    requires |keys| == 1
    ensures var was, r := Newest(keys), Rotated(keys, stamp);
            && r.Keys == {was, NextId(keys)} && NextId(keys) == was + 1
            && r[was] == keys[was] && r[NextId(keys)] == stamp
  {
    Singleton(keys, Newest(keys));
  }

  /** On a due store of one key the pass replaces it, whatever the scan, exactly if the cleanup is prompt. */
  lemma {:induction false} RotatingPassReplacesExactly(b: Backend, keys: Keys, t: Readings)
    requires |keys| == 1 && NotFromFuture(keys, t.check) && InOrder(t) && NeedsRotation(keys, t.check)
    ensures (forall scan :: IsScan(b, Ticked(keys, t), t.sweep - GRACE_PERIOD_MS, scan) ==>
               Tended(b, keys, t, scan).Keys == {NextId(keys)})
            <==> Prompt(b, t)
  {
    if Prompt(b, t) {
      forall scan | IsScan(b, Ticked(keys, t), t.sweep - GRACE_PERIOD_MS, scan)
        ensures Tended(b, keys, t, scan).Keys == {NextId(keys)}
      {
        PassLeavesOneKey(b, keys, t, scan);
      }
    } else {
      var was, mid, cutoff := Newest(keys), Ticked(keys, t), t.sweep - GRACE_PERIOD_MS;
      RotatedPair(keys, t.stamp);
      RotationImpliesExpiry(b, keys[was], t.check, t.sweep);
      assert mid.Keys == {was, NextId(keys)} && Expired(Memory, mid, cutoff) == mid.Keys;
      var scan := LastInScan(mid, cutoff, was);
      LastIsLeft(mid, cutoff, scan);
      assert was in Tended(b, keys, t, scan);
    }
  }

  lemma {:induction false} TwoKeysSwept(b: Backend, keys: Keys, was: nat, newer: nat, cutoff: nat, scan: seq<nat>)
    requires keys.Keys == {was, newer} && was < newer && IsOlder(b, keys[was], cutoff)
    requires IsScan(b, keys, cutoff, scan)
    ensures |Survivors(keys, scan)| == 1
    ensures b.Sqlite? || !IsOlder(b, keys[newer], cutoff) ==> Survivors(keys, scan).Keys == {newer}
  {
    assert was in Expired(b, keys, cutoff);
    TwoKeysBecomeOne(keys, was, newer, scan);
    if b.Sqlite? || !IsOlder(b, keys[newer], cutoff) {
      SupersededIsDeleted(b, keys, was, newer, cutoff, scan);
    }
  }

  lemma {:induction false} TwoKeysBecomeOne(keys: Keys, expired: nat, other: nat, scan: seq<nat>)
    requires keys.Keys == {expired, other} && expired != other
    requires Distinct(scan) && Elems(scan) <= keys.Keys && expired in Elems(scan)
    ensures |Survivors(keys, scan)| == 1
  {
    ScanFits(keys, scan);
    DistinctSize(scan);
    assert |keys.Keys| == 2;
  }

  lemma {:induction false} SupersededIsDeleted(b: Backend, keys: Keys, was: nat, newer: nat, cutoff: nat, scan: seq<nat>)
    requires keys.Keys == {was, newer} && was < newer && IsOlder(b, keys[was], cutoff)
    requires IsScan(b, keys, cutoff, scan) && (b.Sqlite? || !IsOlder(b, keys[newer], cutoff))
    ensures Survivors(keys, scan).Keys == {newer}
  {
    SweepMeaning(keys, scan);
    assert was in Expired(b, keys, cutoff);
    if newer in Expired(b, keys, cutoff) {
      assert Elems(scan) == keys.Keys;
      assert Newest(keys) == newer;
      LastOfAscending(keys, scan);
    }
  }

  /**
   * Single live key at rest, on either back end and for any scan order: after every start-up and
   * every pass of a run that only starts up, maintains and resets, exactly one key is stored.
   */
  lemma {:induction false} SingleKeyAtRest(b: Backend, actions: seq<Action>)
    requires LegalRun(b, actions) && OnlyStartupsAndPasses(actions)
    ensures |StoreAfter(b, actions).keys| == if actions == [] then 0 else 1
  {
    if actions != [] {
      var init, a := actions[..|actions| - 1], actions[|actions| - 1];
      SingleKeyAtRest(b, init);
      if a.Maintain? {
        PassLeavesOneKey(b, StoreAfter(b, init).keys, a.readings, a.scan);
      }
    }
  }

  // ---------------------------------------------------------------- cleaning up twice

  /** Cleanup at a fixed cutoff is idempotent, whatever the two scan orders. */
  lemma {:induction false} SweepTwice(b: Backend, keys: Keys, cutoff: nat, scan: seq<nat>, again: seq<nat>)
    requires keys != map[] && IsScan(b, keys, cutoff, scan)
    requires IsScan(b, Survivors(keys, scan), cutoff, again)
    ensures Survivors(Survivors(keys, scan), again) == Survivors(keys, scan)
  {
    SweepMeaning(keys, scan);
    var left := Survivors(keys, scan);
    if Elems(scan) == keys.Keys {
      OneKeyIsKept(left, again);
    } else {
      assert Expired(b, left, cutoff) == {};
      DistinctSize(again);
    }
  }

  /** Does the scan order leave the newest key alone? Always on SQLite if times are monotone. */
  ghost predicate NewestIsSafe(b: Backend, keys: Keys, cutoff: nat)
    requires keys != map[]
  {
    b.Sqlite? || !IsOlder(b, keys[Newest(keys)], cutoff)
  }

  lemma {:induction false} TickIsDone(keys: Keys, now: nat)
    requires Monotone(keys) && NotFromFuture(keys, now)
    ensures var mid := Ticked(keys, Readings(now, now, now));
            Monotone(mid) && NotFromFuture(mid, now) && !NeedsRotation(mid, now)
  {
    var mid := Ticked(keys, Readings(now, now, now));
    if NeedsRotation(keys, now) {
      assert mid[Newest(mid)] == now;
    }
  }

  /** Cleaning up at the same clock value leaves a store whose newest key is not due for rotation. */
  lemma {:induction false} SweepLeavesRecentKey(b: Backend, mid: Keys, now: nat, scan: seq<nat>)
    requires mid != map[] && Monotone(mid) && NotFromFuture(mid, now) && !NeedsRotation(mid, now)
    requires GRACE_PERIOD_MS <= now && IsScan(b, mid, now - GRACE_PERIOD_MS, scan)
    requires NewestIsSafe(b, mid, now - GRACE_PERIOD_MS)
    ensures var left := Survivors(mid, scan);
            && left != map[] && NotFromFuture(left, now)
            && Newest(left) == Newest(mid) && !NeedsRotation(left, now)
  {
    SweepMeaning(mid, scan);
    assert Newest(mid) in Survivors(mid, scan) by {
      if b.Sqlite? {
        AscendingScanKeepsNewest(mid, now - GRACE_PERIOD_MS, scan);
      }
    }
  }

  // ---------------------------------------------------------------- when a cleaned store is settled

  ghost predicate Settled(keys: Keys, now: nat) {
    keys != map[] && NotFromFuture(keys, now) && !NeedsRotation(keys, now)
  }

  ghost predicate WithinInterval(created: nat, now: nat) {
    created <= now && (now - created) / 1000 <= ROTATION_INTERVAL_SECS
  }

  /**
   * Always on SQLite.  In memory: the newest key is within the grace period, or every key is within the
   * rotation interval.  The two limits differ by less than a second.
   */
  ghost predicate SweepSettles(b: Backend, keys: Keys, now: nat)
    requires keys != map[] && GRACE_PERIOD_MS <= now
  {
    || b.Sqlite?
    || !IsOlder(b, keys[Newest(keys)], now - GRACE_PERIOD_MS)
    || forall id :: id in keys ==> WithinInterval(keys[id], now)
  }

  /** An order of the expired keys in which a given one comes last. */
  lemma {:induction false} LastInScan(keys: Keys, cutoff: nat, id: nat) returns (scan: seq<nat>)
    requires id in keys && IsOlder(Memory, keys[id], cutoff)
    ensures IsScan(Memory, keys, cutoff, scan) && scan != [] && scan[|scan| - 1] == id
  {
    var others := Listing(Expired(Memory, keys, cutoff) - {id});
    scan := others + [id];
    forall i | 0 <= i < |others| ensures others[i] != id {
      assert others[i] in Elems(others);
    }
    assert forall k :: k in scan <==> k in others || k == id;
    assert forall k :: k in Elems(scan) <==> k in Elems(others) || k == id;
    assert Elems(scan) == Expired(Memory, keys, cutoff);
  }

  /** If all keys are expired, cleanup leaves the one scanned last. */
  lemma {:induction false} LastIsLeft(keys: Keys, cutoff: nat, scan: seq<nat>)
    requires keys != map[] && IsScan(Memory, keys, cutoff, scan) && Expired(Memory, keys, cutoff) == keys.Keys
    ensures scan != [] && scan[|scan| - 1] in keys
    ensures Survivors(keys, scan).Keys == {scan[|scan| - 1]}
    ensures Newest(Survivors(keys, scan)) == scan[|scan| - 1]
    ensures Survivors(keys, scan)[scan[|scan| - 1]] == keys[scan[|scan| - 1]]
  {
    SweepMeaning(keys, scan);
    var last := scan[|scan| - 1];
    assert last in Survivors(keys, scan);
  }

  /** Cleaning up a store that is not due for rotation leaves one that is not due, if that is settled. */
  lemma {:induction false} SweepKeepsSettled(b: Backend, keys: Keys, now: nat, scan: seq<nat>)
    requires GRACE_PERIOD_MS <= now && Settled(keys, now) && Monotone(keys) && SweepSettles(b, keys, now)
    requires IsScan(b, keys, now - GRACE_PERIOD_MS, scan)
    ensures Settled(Survivors(keys, scan), now)
  {
    if NewestIsSafe(b, keys, now - GRACE_PERIOD_MS) {
      SweepLeavesRecentKey(b, keys, now, scan);
    } else {
      SweepMeaning(keys, scan);
      var left := Survivors(keys, scan);
      assert Newest(left) in left && WithinInterval(keys[Newest(left)], now);
    }
  }

  /** With memory's arbitrary scan order it does so in every order exactly then. */
  lemma {:induction false} MemorySweepSettlesExactly(keys: Keys, now: nat)
    requires GRACE_PERIOD_MS <= now && Settled(keys, now) && Monotone(keys)
    ensures (forall scan :: IsScan(Memory, keys, now - GRACE_PERIOD_MS, scan) ==> Settled(Survivors(keys, scan), now))
            <==> SweepSettles(Memory, keys, now)
  {
    var cutoff := now - GRACE_PERIOD_MS;
    if SweepSettles(Memory, keys, now) {
      forall scan | IsScan(Memory, keys, cutoff, scan) ensures Settled(Survivors(keys, scan), now) {
        SweepKeepsSettled(Memory, keys, now, scan);
      }
    } else {
      NewestExpiresLast(Memory, keys, cutoff);
      var id :| id in keys && !WithinInterval(keys[id], now);
      var scan := LastInScan(keys, cutoff, id);
      LastIsLeft(keys, cutoff, scan);
    }
  }

  // ---------------------------------------------------------------- a second pass does nothing

  /**
   * At a fixed clock value, from any store monotone in id that cleanup settles: after one pass the
   * newest key is not due for rotation, so its whole-second age is within the interval, and a second
   * pass changes nothing.
   */
  lemma {:induction false} SecondPassIsIdle(b: Backend, keys: Keys, now: nat, scan: seq<nat>, first: Keys)
    requires Monotone(keys) && NotFromFuture(keys, now) && GRACE_PERIOD_MS <= now
    requires SweepSettles(b, Ticked(keys, Readings(now, now, now)), now)
    requires IsScan(b, Ticked(keys, Readings(now, now, now)), now - GRACE_PERIOD_MS, scan)
    requires first == Tended(b, keys, Readings(now, now, now), scan)
    ensures Settled(first, now)
    ensures forall again :: IsScan(b, first, now - GRACE_PERIOD_MS, again) ==> Survivors(first, again) == first
  {
    TickIsDone(keys, now);
    SweepIsIdle(b, Ticked(keys, Readings(now, now, now)), now, scan);
  }

  lemma {:induction false} SweepIsIdle(b: Backend, mid: Keys, now: nat, scan: seq<nat>)
    requires GRACE_PERIOD_MS <= now && Settled(mid, now) && Monotone(mid) && SweepSettles(b, mid, now)
    requires IsScan(b, mid, now - GRACE_PERIOD_MS, scan)
    ensures var first := Survivors(mid, scan);
            && Settled(first, now)
            && forall again :: IsScan(b, first, now - GRACE_PERIOD_MS, again) ==> Survivors(first, again) == first
  {
    var first := Survivors(mid, scan);
    SweepKeepsSettled(b, mid, now, scan);
    forall again | IsScan(b, first, now - GRACE_PERIOD_MS, again) ensures Survivors(first, again) == first {
      SweepTwice(b, mid, now - GRACE_PERIOD_MS, scan, again);
    }
  }

  // ---------------------------------------------------------------- reachable memory stores

  lemma {:induction false} RunGoesOn(b: Backend, actions: seq<Action>, a: Action)
    requires LegalRun(b, actions) && Legal(b, StoreAfter(b, actions), a)
    ensures LegalRun(b, actions + [a]) && StoreAfter(b, actions + [a]) == Perform(b, StoreAfter(b, actions), a)
  {
    assert (actions + [a])[..|actions|] == actions;
  }

  lemma {:induction false} NewestOfTwo(keys: Keys)
    requires keys.Keys == {1, 2}
    ensures Newest(keys) == 2 && NextId(keys) == 3
  {
  }

  /** Two rotations, at the times s and t. */
  ghost function TwoRotations(s: nat, t: nat): seq<Action> { [] + [Action.Rotate(s)] + [Action.Rotate(t)] }

  lemma {:induction false} AfterTwoRotations(s: nat, t: nat)
    requires s <= t
    ensures LegalRun(Memory, TwoRotations(s, t))
    ensures StoreAfter(Memory, TwoRotations(s, t)) == Store(map[1 := s, 2 := t], t, {1, 2})
  {
    assert StoreAfter(Memory, []) == EMPTY_STORE;
    RunGoesOn(Memory, [], Action.Rotate(s));
    var first := StoreAfter(Memory, [] + [Action.Rotate(s)]);
    assert first == Store(map[1 := s], s, {1});
    assert NextId(first.keys) == 2;
    RunGoesOn(Memory, [] + [Action.Rotate(s)], Action.Rotate(t));
  }

  /** Both keys are expired and the newer one is scanned first. */
  lemma {:induction false} NewerScannedFirst(s: nat, t: nat, cutoff: nat)
    requires s < cutoff && t < cutoff
    ensures var keys: Keys := map[1 := s, 2 := t];
            IsScan(Memory, keys, cutoff, [2, 1]) && Survivors(keys, [2, 1]) == map[1 := s]
  {
    var keys: Keys := map[1 := s, 2 := t];
    assert Elems([2, 1]) == {1, 2};
    assert Expired(Memory, keys, cutoff) == {1, 2};
    SweepMeaning(keys, [2, 1]);
  }

  /** In memory there is a run at the end of which the newest key has been deleted, and not the older one. */
  lemma {:induction false} NewestCanBeLost(now: nat)
    requires GRACE_PERIOD_MS < now
    ensures var actions := TwoRotations(0, 0) + [Cleanup(now, [2, 1])];
            LegalRun(Memory, actions) && StoreAfter(Memory, actions) == Store(map[1 := 0], now, {1, 2})
  {
    AfterTwoRotations(0, 0);
    NewerScannedFirst(0, 0, now - GRACE_PERIOD_MS);
    RunGoesOn(Memory, TwoRotations(0, 0), Cleanup(now, [2, 1]));
  }

  const WEEK_AND_SECOND := GRACE_PERIOD_MS + 1000

  /** One pass at the time one second after the grace period. */
  ghost function PassThen(scan: seq<nat>): Action {
    Maintain(Readings(WEEK_AND_SECOND, WEEK_AND_SECOND, WEEK_AND_SECOND), scan)
  }

  /**
   * In memory there is a run in which a pass that rotates nothing is followed, at the same clock value,
   * by a pass that rotates, and the id it issues was issued before.
   */
  lemma {:induction false} SecondPassCanRotate()
    ensures var first := TwoRotations(0, 500) + [PassThen([2, 1])];
            && LegalRun(Memory, first) && LegalRun(Memory, first + [PassThen([1])])
            && !NeedsRotation(StoreAfter(Memory, TwoRotations(0, 500)).keys, WEEK_AND_SECOND)
            && NewIds(StoreAfter(Memory, first), PassThen([1])) == {2}
            && 2 in StoreAfter(Memory, first).issued
            && StoreAfter(Memory, first + [PassThen([1])]).keys == map[2 := WEEK_AND_SECOND]
  {
    var now := WEEK_AND_SECOND;
    var two := TwoRotations(0, 500);
    var first := two + [PassThen([2, 1])];
    AfterTwoRotations(0, 500);
    NewestOfTwo(StoreAfter(Memory, two).keys);
    NewerScannedFirst(0, 500, now - GRACE_PERIOD_MS);
    RunGoesOn(Memory, two, PassThen([2, 1]));
    var left := StoreAfter(Memory, first);
    assert left == Store(map[1 := 0], now, {1, 2});
    RotatesAfterWeek(left.keys, now);
    RunGoesOn(Memory, first, PassThen([1]));
  }

  lemma {:induction false} RotatesAfterWeek(keys: Keys, now: nat)
    requires keys == map[1 := 0] && now == WEEK_AND_SECOND
    ensures NextId(keys) == 2 && NeedsRotation(keys, now)
    ensures var mid := Ticked(keys, Readings(now, now, now));
            && IsScan(Memory, mid, now - GRACE_PERIOD_MS, [1])
            && Survivors(mid, [1]) == map[2 := now]
  {
    assert 1 in keys;
    assert Newest(keys) == 1;
    var mid := Ticked(keys, Readings(now, now, now));
    assert mid == map[1 := 0, 2 := now];
    assert Elems([1]) == {1};
    assert Expired(Memory, mid, now - GRACE_PERIOD_MS) == {1};
    SweepMeaning(mid, [1]);
  }
}
