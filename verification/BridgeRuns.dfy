/** Whole runs of the bridge: restarts, resets, maintenance passes, consumption and removal of one-time keys. */
module BridgeRuns {
  import opened KeyStores
  import opened KeyRuns
  import opened PreKeyPool
  import opened KeyMaintenance

  datatype BridgeAction =
    | Restart(now: nat, registration: nat)
    | ResetAll(now: nat, registration: nat)
    | Pass(clock: PassClock)
    | UseKey(id: nat)
    | DropKey(id: nat)

  /** Material that no live one-time key has. */
  ghost predicate Unused(pool: Pool, material: nat) { forall id :: id in pool ==> pool[id] < material }

  ghost predicate InTime(a: BridgeAction, clock: nat) {
    match a
    case Restart(now, _) => clock <= now
    case ResetAll(now, _) => clock <= now
    case Pass(c) => ClockInOrder(c) && clock <= c.signed.check
    case _ => true
  }

  function ClockAfter(a: BridgeAction, clock: nat): nat {
    match a
    case Restart(now, _) => now
    case ResetAll(now, _) => now
    case Pass(c) => c.kyber.sweep
    case _ => clock
  }

  /** The clock does not run backwards over the whole run. */
  ghost predicate Timely(start: nat, actions: seq<BridgeAction>) {
    actions == [] ||
    var init, last := actions[..|actions| - 1], actions[|actions| - 1];
    Timely(start, init) && InTime(last, LastClock(start, init))
  }

  function LastClock(start: nat, actions: seq<BridgeAction>): nat {
    if actions == [] then start
    else ClockAfter(actions[|actions| - 1], LastClock(start, actions[..|actions| - 1]))
  }

  /** What one action may do, whatever order the scans come in and whatever fresh material is drawn. */
  ghost predicate IsStep(b: Backend, v: Vault, a: BridgeAction, material: nat, w: Vault) {
    match a
    case Restart(now, _) => w == Restarted(v, now, material)
    case ResetAll(now, _) => w == NewVault(now, material)
    case Pass(c) => ClockInOrder(c) && TimesPast(v, c) && exists r :: IsPass(b, v, c, material, w, r)
    case UseKey(id) => w == v.(pool := Consumed(v.pool, id, material))
    case DropKey(id) => w == v.(pool := v.pool - {id})
  }

  ghost predicate MayLead(b: Backend, v: Vault, a: BridgeAction, w: Vault) {
    exists material :: Unused(v.pool, material) && IsStep(b, v, a, material, w)
  }

  /** `trace` lists the contents of the stores from the first start on. */
  ghost predicate IsRun(b: Backend, start: nat, actions: seq<BridgeAction>, trace: seq<Vault>) {
    && |trace| == |actions| + 1
    && if actions == [] then trace[0] == NewVault(start, 0)
       else
         var n := |actions| - 1;
         IsRun(b, start, actions[..n], trace[..n + 1]) && MayLead(b, trace[n], actions[n], trace[n + 1])
  }

  /** One signed and one Kyber key, from no later than the clock, with ids that n actions can have reached. */
  ghost predicate AtRest(v: Vault, clock: nat, n: nat) {
    && |v.signed| == 1 && NotFromFuture(v.signed, clock) && NextId(v.signed) <= n + 2
    && |v.kyber| == 1 && NotFromFuture(v.kyber, clock) && NextId(v.kyber) <= n + 2
    && |v.pool| <= 149
  }

  lemma {:induction false} StorePassRests(b: Backend, keys: Keys, t: Readings, after: Keys, rotated: bool, n: nat)
    requires InOrder(t) && |keys| == 1 && NotFromFuture(keys, t.check) && NextId(keys) <= n + 2
    requires StorePass(b, keys, t, after, rotated)
    ensures |after| == 1 && NotFromFuture(after, t.sweep) && NextId(after) <= n + 3
  {
    var scan :| IsScan(b, Ticked(keys, t), t.sweep - GRACE_PERIOD_MS, scan) && after == Tended(b, keys, t, scan);
    PassLeavesOneKey(b, keys, t, scan);
    SweepMeaning(Ticked(keys, t), scan);
    assert Newest(after) in Ticked(keys, t);
  }

  lemma {:induction false} NewVaultRests(start: nat, material: nat)
    ensures AtRest(NewVault(start, material), start, 0)
  {
    BatchGrowth(map[], 1, material);
    var keys: Keys := map[1 := start];
    assert keys.Keys == {1};
    assert NextId(keys) == 2;
  }

  lemma {:induction false} StepRests(b: Backend, v: Vault, a: BridgeAction, material: nat, w: Vault, clock: nat, n: nat)
    requires AtRest(v, clock, n) && InTime(a, clock) && IsStep(b, v, a, material, w)
    ensures AtRest(w, ClockAfter(a, clock), n + 1)
    ensures a.Pass? ==> 50 <= |w.pool| && BundleIds(w).Some?
  {
    match a
    case Restart(now, _) => PoolStepSize(PoolState(v.pool, material), PoolAction.Startup);
    case ResetAll(now, _) => NewVaultRests(now, material);
    case Pass(c) =>
      var r :| IsPass(b, v, c, material, w, r);
      StorePassRests(b, v.signed, c.signed, w.signed, r.signedRotated, n);
      StorePassRests(b, v.kyber, c.kyber, w.kyber, r.kyberRotated, n);
      PoolStepSize(PoolState(v.pool, material), PoolAction.Maintain);
    case UseKey(id) => PoolStepSize(PoolState(v.pool, material), Consume(id));
    case DropKey(id) => PoolStepSize(PoolState(v.pool, material), Remove(id));
  }

  /**
   * Single live keys at rest, for the whole bridge: in every run under a clock that does not run
   * backwards, on either back end and for any scan orders, exactly one signed and one Kyber key are
   * stored after every action, the pool holds at most 149 keys, and after every pass at least 50, so
   * that a bundle can be generated.
   */
  lemma {:induction false} OneKeyEachAtRest(b: Backend, start: nat, actions: seq<BridgeAction>, trace: seq<Vault>)
    requires IsRun(b, start, actions, trace) && Timely(start, actions)
    ensures AtRest(trace[|actions|], LastClock(start, actions), |actions|)
    ensures actions != [] && actions[|actions| - 1].Pass? ==>
              50 <= |trace[|actions|].pool| && BundleIds(trace[|actions|]).Some?
  {
    if actions == [] {
      NewVaultRests(start, 0);
    } else {
      var n := |actions| - 1;
      OneKeyEachAtRest(b, start, actions[..n], trace[..n + 1]);
      var material :| Unused(trace[n].pool, material) && IsStep(b, trace[n], actions[n], material, trace[n + 1]);
      StepRests(b, trace[n], actions[n], material, trace[n + 1], LastClock(start, actions[..n]), n);
    }
  }

  lemma {:induction false} RunGoesOn(b: Backend, start: nat, actions: seq<BridgeAction>, i: nat, trace: seq<Vault>,
                                     w: Vault)
    requires i < |actions| && |trace| == i + 1
    ensures IsRun(b, start, actions[..i], trace) && MayLead(b, trace[i], actions[i], w) ==>
              IsRun(b, start, actions[..i + 1], trace + [w])
  {
    assert actions[..i + 1][..i] == actions[..i] && (trace + [w])[..i + 1] == trace;
  }

  lemma {:induction false} TimelyPrefix(start: nat, actions: seq<BridgeAction>, i: nat)
    requires Timely(start, actions) && i < |actions|
    ensures Timely(start, actions[..i]) && InTime(actions[i], LastClock(start, actions[..i]))
  {
    if i < |actions| - 1 {
      assert actions[..|actions| - 1][..i] == actions[..i];
      TimelyPrefix(start, actions[..|actions| - 1], i);
    }
  }

  lemma {:induction false} ReadyFor(b: Backend, start: nat, actions: seq<BridgeAction>, i: nat, trace: seq<Vault>)
    requires Timely(start, actions) && i < |actions| && IsRun(b, start, actions[..i], trace)
    ensures AtRest(trace[i], LastClock(start, actions[..i]), i) && InTime(actions[i], LastClock(start, actions[..i]))
  {
    TimelyPrefix(start, actions, i);
    OneKeyEachAtRest(b, start, actions[..i], trace);
  }

  // ---------------------------------------------------------------- maintenance is idempotent in every run

  lemma {:induction false} OneKeySettles(b: Backend, keys: Keys, now: nat)
    requires GRACE_PERIOD_MS <= now && |keys| == 1 && NotFromFuture(keys, now)
    ensures Monotone(keys) && SweepSettles(b, Ticked(keys, Readings(now, now, now)), now)
  {
    var only := Newest(keys);
    Singleton(keys, only);
    var mid := Ticked(keys, Readings(now, now, now));
    if NeedsRotation(keys, now) {
      assert mid[Newest(mid)] == now;
    } else {
      assert WithinInterval(keys[only], now);
    }
  }

  /**
   * In every run of the bridge, on either back end: every pass at a clock value leaves nothing to do for
   * further passes at that value, and a bundle can be generated with keys that are young enough.
   */
  lemma {:induction false} EveryPassIsIdempotent(b: Backend, start: nat, actions: seq<BridgeAction>, trace: seq<Vault>,
                                                 now: nat, m: nat, w: Vault, r: MaintenanceResult)
    requires Timely(start, actions) && LastClock(start, actions) <= now && GRACE_PERIOD_MS <= now
    ensures IsRun(b, start, actions, trace) ==>
              && TimesPast(trace[|actions|], Frozen(now))
              && (IsPass(b, trace[|actions|], Frozen(now), m, w, r) ==> IdleFromNow(b, w, now) && Publishable(w, now))
  {
    if IsRun(b, start, actions, trace) {
      var v := trace[|actions|];
      OneKeyEachAtRest(b, start, actions, trace);
      OneKeySettles(b, v.signed, now);
      OneKeySettles(b, v.kyber, now);
      if IsPass(b, v, Frozen(now), m, w, r) {
        MaintenanceIsIdempotent(b, v, now, m, w, r);
      }
    }
  }

  // ---------------------------------------------------------------- which key is live

  function StoreOf(v: Vault, kyber: bool): Keys { if kyber then v.kyber else v.signed }

  function ReadingsOf(c: PassClock, kyber: bool): Readings { if kyber then c.kyber else c.signed }

  /** The pass rotates this store. */
  ghost predicate Due(v: Vault, c: PassClock, kyber: bool) {
    var keys, check := StoreOf(v, kyber), ReadingsOf(c, kyber).check;
    NotFromFuture(keys, check) && NeedsRotation(keys, check)
  }

  ghost function RotationsNext(before: nat, v: Vault, a: BridgeAction, kyber: bool): nat {
    match a
    case ResetAll(_, _) => 0
    case Pass(c) => if Due(v, c, kyber) then before + 1 else before
    case _ => before
  }

  /** How many passes have rotated the store since the first start or the last reset. */
  ghost function Rotations(actions: seq<BridgeAction>, trace: seq<Vault>, kyber: bool): nat
    requires |trace| == |actions| + 1
  {
    if actions == [] then 0
    else
      var n := |actions| - 1;
      RotationsNext(Rotations(actions[..n], trace[..n + 1], kyber), trace[n], actions[n], kyber)
  }

  ghost predicate PromptPass(b: Backend, a: BridgeAction) {
    a.Pass? ==> Prompt(b, a.clock.signed) && Prompt(b, a.clock.kyber)
  }

  /** The id that bundles publish; 0 for an empty store. */
  ghost function LiveId(keys: Keys): nat { if keys == map[] then 0 else Newest(keys) }

  lemma {:induction false} OnlyKey(keys: Keys, id: nat)
    requires keys.Keys == {id}
    ensures LiveId(keys) == id
  {
    assert id in keys;
  }

  lemma {:induction false} StorePassMoves(b: Backend, keys: Keys, t: Readings, after: Keys, rotated: bool)
    requires InOrder(t) && |keys| == 1 && NotFromFuture(keys, t.check) && Prompt(b, t)
    requires StorePass(b, keys, t, after, rotated)
    ensures LiveId(after) == LiveId(keys) + if NeedsRotation(keys, t.check) then 1 else 0
  {
    var scan :| IsScan(b, Ticked(keys, t), t.sweep - GRACE_PERIOD_MS, scan) && after == Tended(b, keys, t, scan);
    PassLeavesOneKey(b, keys, t, scan);
    if NeedsRotation(keys, t.check) {
      OnlyKey(after, NextId(keys));
    }
  }

  lemma {:induction false} PassMoves(b: Backend, v: Vault, c: PassClock, material: nat, w: Vault, clock: nat, n: nat,
                                     kyber: bool)
    requires AtRest(v, clock, n) && InTime(Pass(c), clock) && PromptPass(b, Pass(c))
    ensures IsStep(b, v, Pass(c), material, w) ==>
              LiveId(StoreOf(w, kyber)) == LiveId(StoreOf(v, kyber)) + if Due(v, c, kyber) then 1 else 0
  {
    if IsStep(b, v, Pass(c), material, w) {
      var r :| IsPass(b, v, c, material, w, r);
      if kyber {
        StorePassMoves(b, v.kyber, c.kyber, w.kyber, r.kyberRotated);
      } else {
        StorePassMoves(b, v.signed, c.signed, w.signed, r.signedRotated);
      }
    }
  }

  lemma {:induction false} KeyNext(b: Backend, v: Vault, a: BridgeAction, w: Vault, clock: nat, n: nat, kyber: bool, k: nat)
    requires AtRest(v, clock, n) && InTime(a, clock) && MayLead(b, v, a, w) && PromptPass(b, a)
    requires LiveId(StoreOf(v, kyber)) == 1 + k
    ensures LiveId(StoreOf(w, kyber)) == 1 + RotationsNext(k, v, a, kyber)
  {
    var material :| Unused(v.pool, material) && IsStep(b, v, a, material, w);
    if a.Pass? {
      PassMoves(b, v, a.clock, material, w, clock, n, kyber);
    } else if a.ResetAll? {
      OnlyKey(StoreOf(w, kyber), 1);
    }
  }

  lemma {:induction false} LiveIdIsCounted(b: Backend, start: nat, actions: seq<BridgeAction>, trace: seq<Vault>,
                                           kyber: bool)
    requires IsRun(b, start, actions, trace) && Timely(start, actions)
    requires forall i :: 0 <= i < |actions| ==> PromptPass(b, actions[i])
    ensures LiveId(StoreOf(trace[|actions|], kyber)) == 1 + Rotations(actions, trace, kyber)
  {
    if actions == [] {
      OnlyKey(StoreOf(trace[0], kyber), 1);
    } else {
      var n := |actions| - 1;
      var init, sofar := actions[..n], trace[..n + 1];
      LiveIdIsCounted(b, start, init, sofar, kyber);
      OneKeyEachAtRest(b, start, init, sofar);
      KeyNext(b, trace[n], actions[n], trace[n + 1], LastClock(start, init), n, kyber, Rotations(init, sofar, kyber));
    }
  }

  lemma {:induction false} OneKeyIsLive(keys: Keys)
    requires |keys| == 1
    ensures keys.Keys == {LiveId(keys)}
  {
    Singleton(keys, Newest(keys));
  }

  /**
   * Which key is live, in every run whose passes are prompt: the only key of each store has the id one
   * above the number of passes that have rotated it since the first start or the last reset.  So a
   * published key is live exactly until the next rotating pass, and the grace period grants nothing.
   */
  lemma {:induction false} LiveKeyIsCounted(b: Backend, start: nat, actions: seq<BridgeAction>, trace: seq<Vault>,
                                            kyber: bool)
    requires IsRun(b, start, actions, trace) && Timely(start, actions)
    requires forall i :: 0 <= i < |actions| ==> PromptPass(b, actions[i])
    ensures StoreOf(trace[|actions|], kyber).Keys == {1 + Rotations(actions, trace, kyber)}
  {
    OneKeyEachAtRest(b, start, actions, trace);
    LiveIdIsCounted(b, start, actions, trace, kyber);
    OneKeyIsLive(StoreOf(trace[|actions|], kyber));
  }

  // ---------------------------------------------------------------- how old the live key is

  /** When the live key was created; 0 for an empty store. */
  ghost function LiveTime(keys: Keys): nat { if keys == map[] then 0 else keys[Newest(keys)] }

  ghost function SinceNext(before: nat, v: Vault, a: BridgeAction, kyber: bool): nat {
    match a
    case ResetAll(now, _) => now
    case Pass(c) => if Due(v, c, kyber) then ReadingsOf(c, kyber).stamp else before
    case _ => before
  }

  /** The stamp of the last pass that rotated the store, or the time of the first start or last reset. */
  ghost function LiveSince(start: nat, actions: seq<BridgeAction>, trace: seq<Vault>, kyber: bool): nat
    requires |trace| == |actions| + 1
  {
    if actions == [] then start
    else
      var n := |actions| - 1;
      SinceNext(LiveSince(start, actions[..n], trace[..n + 1], kyber), trace[n], actions[n], kyber)
  }

  lemma {:induction false} OnlyTime(keys: Keys, id: nat, time: nat)
    requires keys == map[id := time]
    ensures LiveTime(keys) == time
  {
    assert id in keys;
  }

  lemma {:induction false} StorePassStamps(b: Backend, keys: Keys, t: Readings, after: Keys, rotated: bool)
    requires InOrder(t) && |keys| == 1 && NotFromFuture(keys, t.check) && Prompt(b, t)
    requires StorePass(b, keys, t, after, rotated)
    ensures LiveTime(after) == if NeedsRotation(keys, t.check) then t.stamp else LiveTime(keys)
  {
    var scan :| IsScan(b, Ticked(keys, t), t.sweep - GRACE_PERIOD_MS, scan) && after == Tended(b, keys, t, scan);
    PassLeavesOneKey(b, keys, t, scan);
    if NeedsRotation(keys, t.check) {
      SweepMeaning(Ticked(keys, t), scan);
      assert NextId(keys) in after && after[NextId(keys)] == t.stamp;
    }
  }

  lemma {:induction false} PassStamps(b: Backend, v: Vault, c: PassClock, material: nat, w: Vault, clock: nat, n: nat,
                                      kyber: bool)
    requires AtRest(v, clock, n) && InTime(Pass(c), clock) && PromptPass(b, Pass(c))
    ensures IsStep(b, v, Pass(c), material, w) ==>
              LiveTime(StoreOf(w, kyber)) ==
              if Due(v, c, kyber) then ReadingsOf(c, kyber).stamp else LiveTime(StoreOf(v, kyber))
  {
    if IsStep(b, v, Pass(c), material, w) {
      var r :| IsPass(b, v, c, material, w, r);
      if kyber {
        StorePassStamps(b, v.kyber, c.kyber, w.kyber, r.kyberRotated);
      } else {
        StorePassStamps(b, v.signed, c.signed, w.signed, r.signedRotated);
      }
    }
  }

  lemma {:induction false} TimeNext(b: Backend, v: Vault, a: BridgeAction, w: Vault, clock: nat, n: nat, kyber: bool)
    requires AtRest(v, clock, n) && InTime(a, clock) && MayLead(b, v, a, w) && PromptPass(b, a)
    ensures LiveTime(StoreOf(w, kyber)) == SinceNext(LiveTime(StoreOf(v, kyber)), v, a, kyber)
  {
    var material :| Unused(v.pool, material) && IsStep(b, v, a, material, w);
    if a.Pass? {
      PassStamps(b, v, a.clock, material, w, clock, n, kyber);
    } else if a.ResetAll? {
      OnlyTime(StoreOf(w, kyber), 1, a.now);
    }
  }

  /** In every run whose passes are prompt, the live key was created exactly then. */
  lemma {:induction false} LiveKeyIsStamped(b: Backend, start: nat, actions: seq<BridgeAction>, trace: seq<Vault>,
                                            kyber: bool)
    requires IsRun(b, start, actions, trace) && Timely(start, actions)
    requires forall i :: 0 <= i < |actions| ==> PromptPass(b, actions[i])
    ensures LiveTime(StoreOf(trace[|actions|], kyber)) == LiveSince(start, actions, trace, kyber)
  {
    if actions == [] {
      OnlyTime(StoreOf(trace[0], kyber), 1, start);
    } else {
      var n := |actions| - 1;
      var init, sofar := actions[..n], trace[..n + 1];
      LiveKeyIsStamped(b, start, init, sofar, kyber);
      OneKeyEachAtRest(b, start, init, sofar);
      TimeNext(b, trace[n], actions[n], trace[n + 1], LastClock(start, init), n, kyber);
    }
  }

  /**
   * So after every such run a pass rotates a store exactly if more than 604800 whole seconds, seven days,
   * have gone by since its last rotation, its first start or the last reset.
   */
  lemma {:induction false} RotatesExactlyWhenOld(b: Backend, start: nat, actions: seq<BridgeAction>, trace: seq<Vault>,
                                                 c: PassClock, kyber: bool)
    requires IsRun(b, start, actions, trace) && Timely(start, actions)
    requires forall i :: 0 <= i < |actions| ==> PromptPass(b, actions[i])
    requires InTime(Pass(c), LastClock(start, actions))
    ensures var since, check := LiveSince(start, actions, trace, kyber), ReadingsOf(c, kyber).check;
            && since <= check
            && (Due(trace[|actions|], c, kyber) <==> (check - since) / 1000 > 604800)
  {
    LiveKeyIsStamped(b, start, actions, trace, kyber);
    OneKeyEachAtRest(b, start, actions, trace);
    var keys := StoreOf(trace[|actions|], kyber);
    assert Newest(keys) in keys;
  }

  /** The flags of a prompt pass tell which stores have changed. */
  lemma {:induction false} FlagsTellWhatChanged(b: Backend, v: Vault, c: PassClock, material: nat, w: Vault, clock: nat,
                                                n: nat, r: MaintenanceResult)
    requires AtRest(v, clock, n) && InTime(Pass(c), clock) && PromptPass(b, Pass(c)) && TimesPast(v, c)
    ensures IsPass(b, v, c, material, w, r) ==>
              && (r.signedRotated <==> w.signed.Keys != v.signed.Keys)
              && (r.kyberRotated <==> w.kyber.Keys != v.kyber.Keys)
              && (r.replenished <==> w.pool != v.pool)
  {
    if IsPass(b, v, c, material, w, r) {
      StoreFlag(b, v.signed, c.signed, w.signed, r.signedRotated);
      StoreFlag(b, v.kyber, c.kyber, w.kyber, r.kyberRotated);
      BatchGrowth(v.pool, NextId(v.pool), material);
    }
  }

  lemma {:induction false} StoreFlag(b: Backend, keys: Keys, t: Readings, after: Keys, rotated: bool)
    requires InOrder(t) && |keys| == 1 && NotFromFuture(keys, t.check) && Prompt(b, t)
    requires StorePass(b, keys, t, after, rotated)
    ensures rotated <==> after.Keys != keys.Keys
  {
    var scan :| IsScan(b, Ticked(keys, t), t.sweep - GRACE_PERIOD_MS, scan) && after == Tended(b, keys, t, scan);
    PassLeavesOneKey(b, keys, t, scan);
    assert NextId(keys) !in keys && NextId(keys) in {NextId(keys)};
  }

  // ---------------------------------------------------------------- until when a key is live

  /** A key that was live before a prompt pass is live after it exactly if the pass does not rotate. */
  lemma {:induction false} KeyLivesUntilRotation(b: Backend, v: Vault, c: PassClock, material: nat, w: Vault, clock: nat,
                                                 n: nat, kyber: bool, id: nat)
    requires AtRest(v, clock, n) && InTime(Pass(c), clock) && PromptPass(b, Pass(c)) && id in StoreOf(v, kyber)
    ensures IsStep(b, v, Pass(c), material, w) ==> (id in StoreOf(w, kyber) <==> !Due(v, c, kyber))
  {
    if IsStep(b, v, Pass(c), material, w) {
      PassMoves(b, v, c, material, w, clock, n, kyber);
      StepRests(b, v, Pass(c), material, w, clock, n);
      OneKeyIsLive(StoreOf(v, kyber));
      OneKeyIsLive(StoreOf(w, kyber));
    }
  }

  // ---------------------------------------------------------------- the object

  /** One action on the object; a pass needs a free id for each store. */
  method Perform(bridge: SignalBridge, a: BridgeAction, ghost clock: nat, ghost n: nat)
    requires bridge.Valid() && AtRest(bridge.Contents(), clock, n) && InTime(a, clock) && n + 2 < U32_LIMIT
    modifies bridge, bridge.signed, bridge.kyber
    ensures bridge.Valid()
    ensures MayLead(bridge.signed.backend, old(bridge.Contents()), a, bridge.Contents())
  {
    ghost var before, material := bridge.Contents(), bridge.material;
    match a {
      case Restart(now, registration) => bridge.EnsureKeysExist(now, registration);
      case ResetAll(now, registration) => bridge.ResetIdentity(now, registration);
      case Pass(c) => var r := bridge.PerformKeyMaintenance(c);
      case UseKey(id) => bridge.ConsumePreKey(id);
      case DropKey(id) => bridge.RemovePreKey(id);
    }
    assert Unused(before.pool, material);
    assert IsStep(bridge.signed.backend, before, a, material, bridge.Contents());
  }

  /** Every schedule of fewer than 2^32 - 2 actions drives the bridge through a run of the theorem. */
  method Drive(backend: Backend, start: nat, registration: nat, actions: seq<BridgeAction>)
    returns (bridge: SignalBridge, ghost trace: seq<Vault>)
    requires Timely(start, actions) && |actions| + 2 < U32_LIMIT
    ensures fresh(bridge) && bridge.Valid()
    ensures IsRun(backend, start, actions, trace) && bridge.Contents() == trace[|actions|]
  {
    bridge := new SignalBridge(backend, start, registration);
    trace := [bridge.Contents()];
    for i := 0 to |actions|
      invariant fresh(bridge) && fresh(bridge.signed) && fresh(bridge.kyber)
      invariant bridge.Valid() && bridge.signed.backend == backend
      invariant IsRun(backend, start, actions[..i], trace) && bridge.Contents() == trace[i]
    {
      ReadyFor(backend, start, actions, i, trace);
      Perform(bridge, actions[i], LastClock(start, actions[..i]), i);
      RunGoesOn(backend, start, actions, i, trace, bridge.Contents());
      trace := trace + [bridge.Contents()];
    }
    assert actions[..|actions|] == actions;
  }
}
