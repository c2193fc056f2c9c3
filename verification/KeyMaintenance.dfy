/**
 * `perform_key_maintenance`, `ensure_keys_exist`, `reset_identity` and bundle generation: the signed
 * store, the Kyber store and the one-time pool together.
 */
module KeyMaintenance {
  import opened Options
  import opened KeyStores
  import opened KeyRuns
  import opened PreKeyPool

  datatype Vault = Vault(signed: Keys, kyber: Keys, pool: Pool)

  datatype MaintenanceResult = MaintenanceResult(signedRotated: bool, kyberRotated: bool, replenished: bool)

  /** The readings of a whole pass, in the order in which they are taken. */
  datatype PassClock = PassClock(signed: Readings, kyber: Readings)

  ghost predicate ClockInOrder(c: PassClock) {
    && InOrder(c.signed) && InOrder(c.kyber)
    && c.signed.stamp <= c.kyber.check && c.kyber.stamp <= c.signed.sweep <= c.kyber.sweep
  }

  function Frozen(now: nat): PassClock { PassClock(Readings(now, now, now), Readings(now, now, now)) }

  ghost predicate TimesPast(v: Vault, c: PassClock) {
    NotFromFuture(v.signed, c.signed.check) && NotFromFuture(v.kyber, c.kyber.check)
  }

  ghost predicate StorePass(b: Backend, before: Keys, t: Readings, after: Keys, rotated: bool)
    requires InOrder(t) && NotFromFuture(before, t.check)
  {
    && rotated == NeedsRotation(before, t.check)
    && exists scan :: IsScan(b, Ticked(before, t), t.sweep - GRACE_PERIOD_MS, scan)
                      && after == Tended(b, before, t, scan)
  }

  /** One maintenance pass, whatever order the back end's scans come in. */
  ghost predicate IsPass(b: Backend, v: Vault, c: PassClock, material: nat, w: Vault, r: MaintenanceResult)
    requires ClockInOrder(c) && TimesPast(v, c)
  {
    && StorePass(b, v.signed, c.signed, w.signed, r.signedRotated)
    && StorePass(b, v.kyber, c.kyber, w.kyber, r.kyberRotated)
    && w.pool == Maintained(v.pool, material)
    && r.replenished == (|v.pool| < MIN_PRE_KEY_COUNT)
  }

  /** The ids a bundle publishes: the highest of each store, or an error if a store is empty. */
  ghost function BundleIds(v: Vault): Option<(nat, nat, nat)> {
    if v.pool == map[] || v.signed == map[] || v.kyber == map[] then None
    else Some((Newest(v.pool), Newest(v.signed), Newest(v.kyber)))
  }

  /** `ensure_keys_exist`. */
  function Restarted(v: Vault, now: nat, material: nat): Vault {
    Vault(if v.signed == map[] then map[1 := now] else v.signed,
          if v.kyber == map[] then map[1 := now] else v.kyber,
          Started(v.pool, material))
  }

  function NewVault(now: nat, material: nat): Vault { Restarted(Vault(map[], map[], map[]), now, material) }

  ghost predicate AgeWithinInterval(keys: Keys, id: nat, now: nat) {
    id in keys && keys[id] <= now && (now - keys[id]) / 1000 <= ROTATION_INTERVAL_SECS
  }

  /** A bundle names a key of each store that no other key of that store is newer than. */
  lemma {:induction false} BundleNamesNewest(v: Vault)
    ensures BundleIds(v).None? <==> v.pool == map[] || v.signed == map[] || v.kyber == map[]
    ensures BundleIds(v).Some? ==>
              var (pre, signed, kyber) := BundleIds(v).value;
              && pre in v.pool && (forall id :: id in v.pool ==> id <= pre)
              && signed in v.signed && (forall id :: id in v.signed ==> id <= signed)
              && kyber in v.kyber && (forall id :: id in v.kyber ==> id <= kyber)
  {
  }

  /** A pass over a store that needs no rotation and that no cleanup changes does nothing. */
  lemma {:induction false} IdlePass(b: Backend, keys: Keys, now: nat, again: Keys, rotated: bool)
    requires GRACE_PERIOD_MS <= now && Settled(keys, now)
    requires forall scan :: IsScan(b, keys, now - GRACE_PERIOD_MS, scan) ==> Survivors(keys, scan) == keys
    requires StorePass(b, keys, Readings(now, now, now), again, rotated)
    ensures again == keys && !rotated
  {
    var t := Readings(now, now, now);
    var scan :| IsScan(b, Ticked(keys, t), t.sweep - GRACE_PERIOD_MS, scan)
                && again == Tended(b, keys, t, scan);
  }

  lemma {:induction false} StorePassTwice(b: Backend, keys: Keys, now: nat, after: Keys, rotated: bool)
    requires GRACE_PERIOD_MS <= now && Monotone(keys) && NotFromFuture(keys, now)
    requires SweepSettles(b, Ticked(keys, Readings(now, now, now)), now)
    requires StorePass(b, keys, Readings(now, now, now), after, rotated)
    ensures Settled(after, now) && AgeWithinInterval(after, Newest(after), now)
    ensures forall again, rotatedAgain ::
              StorePass(b, after, Readings(now, now, now), again, rotatedAgain) ==> again == after && !rotatedAgain
  {
    var t := Readings(now, now, now);
    var scan :| IsScan(b, Ticked(keys, t), t.sweep - GRACE_PERIOD_MS, scan)
                && after == Tended(b, keys, t, scan);
    SecondPassIsIdle(b, keys, now, scan, after);
    forall again, rotatedAgain | StorePass(b, after, t, again, rotatedAgain)
      ensures again == after && !rotatedAgain
    {
      IdlePass(b, after, now, again, rotatedAgain);
    }
  }

  /** Every pass at this clock value would change nothing and report nothing. */
  ghost predicate IdleFromNow(b: Backend, w: Vault, now: nat)
    requires GRACE_PERIOD_MS <= now
  {
    && TimesPast(w, Frozen(now))
    && forall m, x, r :: IsPass(b, w, Frozen(now), m, x, r) ==> x == w && r == MaintenanceResult(false, false, false)
  }

  /** A bundle can be generated, with signed and Kyber keys no older than the rotation interval. */
  ghost predicate Publishable(w: Vault, now: nat) {
    && BundleIds(w).Some?
    && AgeWithinInterval(w.signed, BundleIds(w).value.1, now)
    && AgeWithinInterval(w.kyber, BundleIds(w).value.2, now)
  }

  ghost predicate BothSettle(b: Backend, v: Vault, now: nat)
    requires GRACE_PERIOD_MS <= now && TimesPast(v, Frozen(now))
  {
    && SweepSettles(b, Ticked(v.signed, Readings(now, now, now)), now)
    && SweepSettles(b, Ticked(v.kyber, Readings(now, now, now)), now)
  }

  /**
   * Maintenance is idempotent at a fixed clock value: from any stores whose times are monotone in
   * id, a second pass changes no store and reports all flags false, and after the first pass a
   * bundle can be generated, with signed and Kyber keys no older than the rotation interval.  On
   * SQLite the last precondition always holds.
   */
  lemma {:induction false} MaintenanceIsIdempotent(b: Backend, v: Vault, now: nat, m: nat, w: Vault,
                                                   r: MaintenanceResult)
    requires GRACE_PERIOD_MS <= now && TimesPast(v, Frozen(now)) && Monotone(v.signed) && Monotone(v.kyber)
    requires IsPass(b, v, Frozen(now), m, w, r) && BothSettle(b, v, now)
    ensures IdleFromNow(b, w, now) && Publishable(w, now)
  {
    StorePassTwice(b, v.signed, now, w.signed, r.signedRotated);
    StorePassTwice(b, v.kyber, now, w.kyber, r.kyberRotated);
    if |v.pool| < MIN_PRE_KEY_COUNT {
      BatchGrowth(v.pool, NextId(v.pool), m);
    }
  }

  /** In memory a pass from any state exists, with a chosen scan of the signed store and of the Kyber store. */
  lemma {:induction false} PassExists(v: Vault, now: nat, m: nat, signedScan: seq<nat>, kyberScan: seq<nat>)
    returns (w: Vault, r: MaintenanceResult)
    requires GRACE_PERIOD_MS <= now && TimesPast(v, Frozen(now))
    requires IsScan(Memory, Ticked(v.signed, Readings(now, now, now)), now - GRACE_PERIOD_MS, signedScan)
    requires IsScan(Memory, Ticked(v.kyber, Readings(now, now, now)), now - GRACE_PERIOD_MS, kyberScan)
    ensures IsPass(Memory, v, Frozen(now), m, w, r)
    ensures w.signed == Survivors(Ticked(v.signed, Readings(now, now, now)), signedScan)
    ensures w.kyber == Survivors(Ticked(v.kyber, Readings(now, now, now)), kyberScan)
    ensures r.signedRotated == NeedsRotation(v.signed, now) && r.kyberRotated == NeedsRotation(v.kyber, now)
  {
    var t := Readings(now, now, now);
    StorePassDone(Memory, v.signed, t, signedScan);
    StorePassDone(Memory, v.kyber, t, kyberScan);
    w := Vault(Survivors(Ticked(v.signed, t), signedScan), Survivors(Ticked(v.kyber, t), kyberScan),
               Maintained(v.pool, m));
    r := MaintenanceResult(NeedsRotation(v.signed, now), NeedsRotation(v.kyber, now), |v.pool| < MIN_PRE_KEY_COUNT);
  }

  /** The scan of one store that leaves it due for rotation, if there is one; otherwise any scan. */
  lemma {:induction false} WorstScan(keys: Keys, now: nat) returns (scan: seq<nat>)
    requires GRACE_PERIOD_MS <= now && Monotone(keys) && NotFromFuture(keys, now)
    ensures var mid := Ticked(keys, Readings(now, now, now));
            && IsScan(Memory, mid, now - GRACE_PERIOD_MS, scan)
            && NotFromFuture(Survivors(mid, scan), now)
            && (!SweepSettles(Memory, mid, now) ==> NeedsRotation(Survivors(mid, scan), now))
  {
    var mid := Ticked(keys, Readings(now, now, now));
    TickIsDone(keys, now);
    MemorySweepSettlesExactly(mid, now);
    if SweepSettles(Memory, mid, now) {
      scan := Listing(Expired(Memory, mid, now - GRACE_PERIOD_MS));
    } else {
      scan :| IsScan(Memory, mid, now - GRACE_PERIOD_MS, scan) && !Settled(Survivors(mid, scan), now);
    }
    SweepMeaning(mid, scan);
  }

  /** Whatever scans the two back ends return: idempotent from here if and only if both stores settle. */
  lemma {:induction false} MaintenanceIsIdempotentExactly(b: Backend, v: Vault, now: nat, m: nat)
    requires GRACE_PERIOD_MS <= now && TimesPast(v, Frozen(now)) && Monotone(v.signed) && Monotone(v.kyber)
    ensures (forall w, r :: IsPass(b, v, Frozen(now), m, w, r) ==> IdleFromNow(b, w, now))
            <==> BothSettle(b, v, now)
  {
    if BothSettle(b, v, now) {
      forall w, r | IsPass(b, v, Frozen(now), m, w, r) ensures IdleFromNow(b, w, now) {
        MaintenanceIsIdempotent(b, v, now, m, w, r);
      }
    } else {
      var signedScan := WorstScan(v.signed, now);
      var kyberScan := WorstScan(v.kyber, now);
      var w, r := PassExists(v, now, m, signedScan, kyberScan);
      SecondPassRotates(w, now);
    }
  }

  lemma {:induction false} SecondPassRotates(w: Vault, now: nat)
    requires GRACE_PERIOD_MS <= now && TimesPast(w, Frozen(now))
    requires NeedsRotation(w.signed, now) || NeedsRotation(w.kyber, now)
    ensures !IdleFromNow(Memory, w, now)
  {
    var t := Readings(now, now, now);
    var signedScan := Listing(Expired(Memory, Ticked(w.signed, t), now - GRACE_PERIOD_MS));
    var kyberScan := Listing(Expired(Memory, Ticked(w.kyber, t), now - GRACE_PERIOD_MS));
    var x, r := PassExists(w, now, 0, signedScan, kyberScan);
  }

  // ---------------------------------------------------------------- the stores, in place

  class KeyStore {
    const backend: Backend
    var keys: Keys

    constructor (backend: Backend)
      ensures this.backend == backend && keys == map[]
    {
      this.backend, keys := backend, map[];
    }

    method MaxId() returns (id: Option<nat>)
      ensures keys == map[] ==> id == None
      ensures keys != map[] ==> id == Some(Newest(keys))
    {
      id := None;
      var todo := keys.Keys;
      while todo != {}
        invariant todo <= keys.Keys
        invariant id.None? ==> todo == keys.Keys
        invariant id.Some? ==> id.value in keys && forall k :: k in keys && k !in todo ==> k <= id.value
        decreases todo
      {
        var k :| k in todo;
        if id.None? || k > id.value {
          id := Some(k);
        }
        todo := todo - {k};
      }
      assert keys != map[] ==> Newest(keys) in keys;
    }

    method DueForRotation(now: nat) returns (due: bool)
      requires NotFromFuture(keys, now)
      ensures due == NeedsRotation(keys, now)
    {
      var id := MaxId();
      if id.None? {
        return true;
      }
      var ageSecs := (now - keys[id.value]) / 1000;
      due := ageSecs > ROTATION_INTERVAL_SECS;
    }

    method Rotate(now: nat)
      requires NextId(keys) < U32_LIMIT
      modifies this
      ensures keys == Rotated(old(keys), now)
    {
      var id := MaxId();
      var current := if id.Some? then id.value else 0;
      keys := keys[current + 1 := now];
    }

    /** The smallest element: the order in which SQLite walks a primary key. */
    method FirstOf(todo: set<nat>) returns (id: nat)
      requires todo != {}
      ensures id in todo && forall k :: k in todo ==> id <= k
    {
      id :| id in todo;
      var rest := todo - {id};
      while rest != {}
        invariant id in todo && rest <= todo && forall k :: k in todo && k !in rest ==> id <= k
        decreases rest
      {
        var k :| k in rest;
        if k < id {
          id := k;
        }
        rest := rest - {k};
      }
    }

    method OlderThan(cutoff: nat) returns (scan: seq<nat>)
      ensures IsScan(backend, keys, cutoff, scan)
    {
      scan := [];
      var todo := keys.Keys;
      while todo != {}
        invariant todo <= keys.Keys && Distinct(scan)
        invariant Elems(scan) == Expired(backend, keys, cutoff) - todo
        invariant backend.Sqlite? ==> Ascending(scan) && forall i, k :: 0 <= i < |scan| && k in todo ==> scan[i] < k
        decreases todo
      {
        var id: nat;
        if backend.Sqlite? {
          id := FirstOf(todo);
        } else {
          id :| id in todo;
        }
        todo := todo - {id};
        if IsOlder(backend, keys[id], cutoff) {
          AppendDistinct(scan, id);
          scan := scan + [id];
        }
      }
    }

    /** The older-than query followed by the delete loop guarded by the live count. */
    method CleanupExpired(now: nat) returns (ghost scan: seq<nat>)
      requires GRACE_PERIOD_MS <= now
      modifies this
      ensures IsScan(backend, old(keys), now - GRACE_PERIOD_MS, scan)
      ensures keys == Survivors(old(keys), scan)
    {
      var expired := OlderThan(now - GRACE_PERIOD_MS);
      scan := expired;
      if |keys| <= 1 {
        FewKeysAreKept(keys, scan);
        return;
      }
      ghost var before := keys;
      for i := 0 to |expired|
        invariant Elems(expired[..i]) <= before.Keys
        invariant keys == Survivors(before, expired[..i])
      {
        SweepTurn(before, expired, i);
        if |keys| > 1 {
          keys := keys - {expired[i]};
        }
      }
      assert expired[..|expired|] == expired;
    }
  }

  lemma {:induction false} StorePassDone(b: Backend, before: Keys, t: Readings, scan: seq<nat>)
    requires InOrder(t) && NotFromFuture(before, t.check)
    requires IsScan(b, Ticked(before, t), t.sweep - GRACE_PERIOD_MS, scan)
    ensures StorePass(b, before, t, Survivors(Ticked(before, t), scan), NeedsRotation(before, t.check))
  {
    assert Tended(b, before, t, scan) == Survivors(Ticked(before, t), scan);
  }

  lemma {:induction false} AppendDistinct(scan: seq<nat>, id: nat)
    requires Distinct(scan) && id !in Elems(scan)
    ensures Distinct(scan + [id]) && Elems(scan + [id]) == Elems(scan) + {id}
  {
    forall i | 0 <= i < |scan| ensures scan[i] != id {
      assert scan[i] in Elems(scan);
    }
    assert forall k :: k in scan + [id] <==> k in scan || k == id;
  }

  lemma {:induction false} PrefixOfScan(scan: seq<nat>, i: nat)
    requires Distinct(scan) && i < |scan|
    ensures scan[..i + 1] == scan[..i] + [scan[i]]
    ensures Distinct(scan[..i] + [scan[i]]) && Elems(scan[..i] + [scan[i]]) <= Elems(scan)
  {
    assert scan[..i + 1] == scan[..i] + [scan[i]];
    forall k | k in scan[..i] + [scan[i]] ensures k in scan {
    }
  }

  lemma {:induction false} FewKeysAreKept(keys: Keys, scan: seq<nat>)
    requires Distinct(scan) && Elems(scan) <= keys.Keys && |keys| <= 1
    ensures Survivors(keys, scan) == keys
  {
    if |keys| == 1 {
      OneKeyIsKept(keys, scan);
    } else {
      ScanFits(keys, scan);
    }
  }

  lemma {:induction false} SweepTurn(keys: Keys, scan: seq<nat>, i: nat)
    requires Distinct(scan) && Elems(scan) <= keys.Keys && i < |scan|
    ensures Elems(scan[..i]) <= keys.Keys && Elems(scan[..i + 1]) <= keys.Keys
    ensures var k := Survivors(keys, scan[..i]);
            Survivors(keys, scan[..i + 1]) == if |k| > 1 then k - {scan[i]} else k
  {
    PrefixOfScan(scan, i);
    SurvivorsStep(keys, scan[..i], scan[i]);
  }

  /** A key pair, as a token that is never drawn twice, and the random registration id that goes with it. */
  datatype Identity = Identity(key: nat, registration: nat)

  /** What a bundle carries: the identity, and of each store the highest id with its key. */
  datatype PreKeyBundle = PreKeyBundle(identity: Identity, preKey: (nat, nat), signed: (nat, nat), kyber: (nat, nat))

  /** `identities` counts the key pairs made; `peers` are those with a session and a stored identity. */
  class SignalBridge {
    const signed: KeyStore
    const kyber: KeyStore
    var pool: Pool
    var material: nat
    var identity: Option<Identity>
    var identities: nat
    var peers: set<string>

    ghost predicate Valid()
      reads this, signed, kyber
    {
      && signed != kyber && signed.backend == kyber.backend
      && (forall id :: id in pool ==> pool[id] < material)
      && (identity.Some? ==> identity.value.key < identities)
    }

    ghost function Contents(): Vault
      reads this, signed, kyber
    {
      Vault(signed.keys, kyber.keys, pool)
    }

    constructor (backend: Backend, now: nat, registration: nat)
      ensures Valid() && fresh(signed) && fresh(kyber) && signed.backend == backend
      ensures Contents() == NewVault(now, 0)
      ensures identity == Some(Identity(0, registration)) && peers == {}
    {
      signed := new KeyStore(backend);
      kyber := new KeyStore(backend);
      pool, material := map[], 0;
      identity, identities, peers := None, 0, {};
      new;
      EnsureKeysExist(now, registration);
    }

    /** Store n keys under consecutive u32 ids. */
    method StoreBatch(start: nat, n: nat)
      modifies this`pool, this`material
      ensures pool == SaveAll(old(pool), start, n, old(material)) && material == old(material) + n
      ensures (forall id :: id in old(pool) ==> old(pool)[id] < old(material)) ==>
                forall id :: id in pool ==> pool[id] < material
    {
      ghost var before, seed := pool, material;
      for i := 0 to n
        invariant pool == SaveAll(before, start, i, seed) && material == seed + i
        invariant (forall id :: id in before ==> before[id] < seed) ==> forall id :: id in pool ==> pool[id] < material
      {
        pool := pool[(start + i) % U32_LIMIT := material];
        material := material + 1;
      }
    }

    /** An existing identity is kept; otherwise a new one is made. */
    method EnsureKeysExist(now: nat, registration: nat)
      requires Valid()
      modifies this`pool, this`material, this`identity, this`identities, signed, kyber
      ensures Valid()
      ensures Contents() == Restarted(old(Contents()), now, old(material))
      ensures identity == if old(identity).Some? then old(identity) else Some(Identity(old(identities), registration))
      ensures identities >= old(identities)
    {
      if identity.None? {
        identity, identities := Some(Identity(identities, registration)), identities + 1;
      }
      if |pool| < STARTUP_THRESHOLD {
        StoreBatch(1, REPLENISH_COUNT);
      }
      if |signed.keys| == 0 {
        signed.keys := signed.keys[1 := now];
      }
      if |kyber.keys| == 0 {
        kyber.keys := kyber.keys[1 := now];
      }
    }

    /** Everything is cleared, and the new identity is none that was used before. */
    method ResetIdentity(now: nat, registration: nat)
      requires Valid()
      modifies this, signed, kyber
      ensures Valid()
      ensures Contents() == NewVault(now, old(material))
      ensures identity == Some(Identity(old(identities), registration)) && peers == {}
      ensures old(identity).Some? ==> identity.value.key != old(identity).value.key
    {
      peers := {};
      pool := map[];
      signed.keys := map[];
      kyber.keys := map[];
      identity := None;
      EnsureKeysExist(now, registration);
    }

    method MaxPreKeyId() returns (id: Option<nat>)
      ensures pool == map[] ==> id == None
      ensures pool != map[] ==> id == Some(Newest(pool))
    {
      id := None;
      var todo := pool.Keys;
      while todo != {}
        invariant todo <= pool.Keys
        invariant id.None? ==> todo == pool.Keys
        invariant id.Some? ==> id.value in pool && forall k :: k in pool && k !in todo ==> k <= id.value
        decreases todo
      {
        var k :| k in todo;
        if id.None? || k > id.value {
          id := Some(k);
        }
        todo := todo - {k};
      }
      assert pool != map[] ==> Newest(pool) in pool;
    }

    method ReplenishPreKeys()
      requires Valid()
      modifies this`pool, this`material
      ensures Valid() && pool == Replenished(old(pool), old(material))
    {
      var id := MaxPreKeyId();
      StoreBatch(if id.Some? then id.value + 1 else 1, REPLENISH_COUNT);
    }

    method ConsumePreKey(id: nat)
      requires Valid()
      modifies this`pool, this`material
      ensures Valid() && pool == Consumed(old(pool), id, old(material))
    {
      pool := pool - {id};
      if |pool| < MIN_PRE_KEY_COUNT {
        ReplenishPreKeys();
      }
    }

    /** Decryption takes the key that the sender used, without replenishment. */
    method RemovePreKey(id: nat)
      requires Valid()
      modifies this`pool
      ensures Valid() && pool == old(pool) - {id}
    {
      pool := pool - {id};
    }

    /** A session with a peer, and the peer's identity, are stored. */
    method StorePeer(peer: string)
      modifies this`peers
      ensures peers == old(peers) + {peer}
    {
      peers := peers + {peer};
    }

    /** Fails for the empty name. */
    method ClearPeer(peer: string) returns (ok: bool)
      modifies this`peers
      ensures ok <==> peer != ""
      ensures peers == if ok then old(peers) - {peer} else old(peers)
    {
      ok := peer != "";
      if ok {
        peers := peers - {peer};
      }
    }

    method GenerateBundle() returns (bundle: Option<PreKeyBundle>)
      ensures bundle.Some? <==> identity.Some? && BundleIds(Contents()).Some?
      ensures bundle.Some? ==>
                var b, ids := bundle.value, BundleIds(Contents()).value;
                && b.identity == identity.value && (b.preKey.0, b.signed.0, b.kyber.0) == ids
                && b.preKey.1 == pool[ids.0] && b.signed.1 == signed.keys[ids.1] && b.kyber.1 == kyber.keys[ids.2]
    {
      if identity.None? {
        return None;
      }
      var preKey := MaxPreKeyId();
      var signedId := signed.MaxId();
      var kyberId := kyber.MaxId();
      if preKey.None? || signedId.None? || kyberId.None? {
        return None;
      }
      bundle := Some(PreKeyBundle(identity.value, (preKey.value, pool[preKey.value]),
                                  (signedId.value, signed.keys[signedId.value]),
                                  (kyberId.value, kyber.keys[kyberId.value])));
    }

    /** One store's rotation if due; its cleanup comes after the other store's rotation. */
    method RotateIfDue(store: KeyStore, t: Readings) returns (due: bool)
      requires store == signed || store == kyber
      requires NotFromFuture(store.keys, t.check) && NextId(store.keys) < U32_LIMIT
      modifies store
      ensures due == NeedsRotation(old(store.keys), t.check)
      ensures store.keys == Ticked(old(store.keys), t)
    {
      due := store.DueForRotation(t.check);
      if due {
        store.Rotate(t.stamp);
      }
    }

    /** The cleanup that completes a pass over one store. */
    method Sweep(store: KeyStore, t: Readings, ghost before: Keys)
      requires InOrder(t) && NotFromFuture(before, t.check) && store.keys == Ticked(before, t)
      requires GRACE_PERIOD_MS <= t.sweep
      modifies store
      ensures StorePass(store.backend, before, t, store.keys, NeedsRotation(before, t.check))
    {
      ghost var scan := store.CleanupExpired(t.sweep);
      StorePassDone(store.backend, before, t, scan);
    }

    method PerformKeyMaintenance(c: PassClock) returns (r: MaintenanceResult)
      requires Valid() && ClockInOrder(c) && TimesPast(Contents(), c)
      requires NextId(signed.keys) < U32_LIMIT && NextId(kyber.keys) < U32_LIMIT
      modifies this`pool, this`material, signed, kyber
      ensures Valid()
      ensures IsPass(signed.backend, old(Contents()), c, old(material), Contents(), r)
    {
      var signedDue := RotateIfDue(signed, c.signed);
      var kyberDue := RotateIfDue(kyber, c.kyber);
      Sweep(signed, c.signed, old(signed.keys));
      Sweep(kyber, c.kyber, old(kyber.keys));
      var low := |pool| < MIN_PRE_KEY_COUNT;
      if low {
        ReplenishPreKeys();
      }
      r := MaintenanceResult(signedDue, kyberDue, low);
    }
  }
}
