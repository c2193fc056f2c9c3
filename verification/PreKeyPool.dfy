/**
 * The pool of one-time pre-keys: ids mapped to key material.  Material is an opaque token; a batch
 * generated from `material` uses the tokens material, material + 1, and so on.
 */
module PreKeyPool {
  import opened KeyStores

  const MIN_PRE_KEY_COUNT := 50
  const REPLENISH_COUNT := 100
  const STARTUP_THRESHOLD := 5

  type Pool = map<nat, nat>

  /** The ids of a batch, as u32 arithmetic computes them. */
  function BatchId(start: nat, i: nat): nat { (start + i) % U32_LIMIT }

  /** Storing the first n keys of a batch; saving under a live id replaces the key. */
  function SaveAll(pool: Pool, start: nat, n: nat, material: nat): Pool {
    if n == 0 then pool
    else SaveAll(pool, start, n - 1, material)[BatchId(start, n - 1) := material + (n - 1)]
  }

  ghost function Replenished(pool: Pool, material: nat): Pool {
    SaveAll(pool, NextId(pool), REPLENISH_COUNT, material)
  }

  ghost function Consumed(pool: Pool, id: nat, material: nat): Pool {
    var left := pool - {id};
    if |left| < MIN_PRE_KEY_COUNT then Replenished(left, material) else left
  }

  ghost function Maintained(pool: Pool, material: nat): Pool {
    if |pool| < MIN_PRE_KEY_COUNT then Replenished(pool, material) else pool
  }

  /** `ensure_keys_exist`: a nearly empty pool gets the ids 1 to 100, live or not. */
  function Started(pool: Pool, material: nat): Pool {
    if |pool| < STARTUP_THRESHOLD then SaveAll(pool, 1, REPLENISH_COUNT, material) else pool
  }

  /** The largest live id leaves room for a whole batch below the u32 limit. */
  ghost predicate Fits(pool: Pool) { NextId(pool) + REPLENISH_COUNT <= U32_LIMIT }

  predicate InBatch(start: nat, n: nat, id: nat) { start <= id < start + n }

  ghost function Range(start: nat, n: nat): set<nat> {
    set id | start <= id < start + n && InBatch(start, n, id)
  }

  lemma {:induction false} RangeSize(start: nat, n: nat)
    ensures |Range(start, n)| == n
  {
    if n == 0 {
      assert Range(start, 0) == {};
    } else {
      RangeSize(start, n - 1);
      assert Range(start, n) == Range(start, n - 1) + {start + n - 1};
    }
  }

  lemma {:induction false} SaveAllMeaning(pool: Pool, start: nat, n: nat, material: nat)
    requires start + n <= U32_LIMIT
    ensures var after := SaveAll(pool, start, n, material);
            && after.Keys == pool.Keys + Range(start, n)
            && (forall id :: id in pool && !(start <= id < start + n) ==> after[id] == pool[id])
            && (forall id :: start <= id < start + n ==> after[id] == material + (id - start))
  {
    if n > 0 {
      SaveAllMeaning(pool, start, n - 1, material);
      assert Range(start, n) == Range(start, n - 1) + {start + n - 1};
    } else {
      assert Range(start, 0) == {};
    }
  }

  /**
   * Replenishment adds exactly 100 ids, above all live ones and below the u32 limit, and leaves
   * every live key as it was.
   */
  lemma {:induction false} ReplenishmentAddsHundred(pool: Pool, material: nat)
    requires Fits(pool)
    ensures var after := Replenished(pool, material);
            && |after| == |pool| + REPLENISH_COUNT
            && (forall id :: id in pool ==> id in after && after[id] == pool[id])
            && (forall id :: id in after && id !in pool ==>
                  && (forall live :: live in pool ==> live < id)
                  && id < U32_LIMIT && material <= after[id] < material + REPLENISH_COUNT)
  {
    var start := NextId(pool);
    SaveAllMeaning(pool, start, REPLENISH_COUNT, material);
    RangeSize(start, REPLENISH_COUNT);
    assert pool.Keys !! Range(start, REPLENISH_COUNT);
    assert |pool.Keys + Range(start, REPLENISH_COUNT)| == |pool| + REPLENISH_COUNT;
  }

  /** The ids of the next batch all exceed the live ones exactly when the largest is at most 2^32 - 101. */
  lemma {:induction false} BatchFitsExactly(pool: Pool)
    requires pool != map[] && Newest(pool) < U32_LIMIT
    ensures (forall i: nat :: i < REPLENISH_COUNT ==> BatchId(NextId(pool), i) > Newest(pool))
            <==> Newest(pool) <= U32_LIMIT - 101
  {
    if Newest(pool) > U32_LIMIT - 101 {
      var i: nat := U32_LIMIT - 1 - Newest(pool);
      assert BatchId(NextId(pool), i) == 0;
    }
  }

  // ---------------------------------------------------------------- batches that wrap

  ghost function BatchIds(start: nat, n: nat): set<nat> { set i: nat | i < n :: BatchId(start, i) }

  lemma {:induction false} BatchIdsDiffer(start: nat, i: nat, j: nat)
    requires i < j < U32_LIMIT
    ensures BatchId(start, i) != BatchId(start, j)
  {
  }

  lemma {:induction false} BatchSize(start: nat, n: nat)
    requires n <= U32_LIMIT
    ensures |BatchIds(start, n)| == n
  {
    if n > 0 {
      BatchSize(start, n - 1);
      forall i: nat | i < n - 1 ensures BatchId(start, i) != BatchId(start, n - 1) {
        BatchIdsDiffer(start, i, n - 1);
      }
      assert BatchIds(start, n) == BatchIds(start, n - 1) + {BatchId(start, n - 1)};
    }
  }

  lemma {:induction false} SaveAllKeys(pool: Pool, start: nat, n: nat, material: nat)
    ensures SaveAll(pool, start, n, material).Keys == pool.Keys + BatchIds(start, n)
  {
    if n > 0 {
      SaveAllKeys(pool, start, n - 1, material);
      assert BatchIds(start, n) == BatchIds(start, n - 1) + {BatchId(start, n - 1)};
    }
  }

  lemma {:induction false} UnionSize(a: set<nat>, b: set<nat>)
    ensures |a| <= |a + b| && |b| <= |a + b| <= |a| + |b|
  {
    SubsetSize(a + b, a);
    SubsetSize(a + b, b);
  }

  /** A batch of 100, wrapping or not, leaves at least 100 keys and adds at most 100. */
  lemma {:induction false} BatchGrowth(pool: Pool, start: nat, material: nat)
    ensures var after := SaveAll(pool, start, REPLENISH_COUNT, material);
            REPLENISH_COUNT <= |after| <= |pool| + REPLENISH_COUNT
  {
    SaveAllKeys(pool, start, REPLENISH_COUNT, material);
    BatchSize(start, REPLENISH_COUNT);
    UnionSize(pool.Keys, BatchIds(start, REPLENISH_COUNT));
  }

  // ---------------------------------------------------------------- runs

  /** Remove: decryption takes a key from the pool through the store, without replenishment. */
  datatype PoolAction = Consume(id: nat) | Maintain | Remove(id: nat) | Startup

  datatype PoolState = PoolState(pool: Pool, material: nat)

  ghost function PoolStep(s: PoolState, a: PoolAction): PoolState {
    match a
    case Consume(id) => PoolState(Consumed(s.pool, id, s.material), s.material + REPLENISH_COUNT)
    case Maintain => PoolState(Maintained(s.pool, s.material), s.material + REPLENISH_COUNT)
    case Remove(id) => s.(pool := s.pool - {id})
    case Startup => PoolState(Started(s.pool, s.material), s.material + REPLENISH_COUNT)
  }

  /** A new bridge's pool followed by consumption, removal, maintenance and restarts. */
  ghost function PoolAfter(actions: seq<PoolAction>): PoolState {
    if actions == [] then PoolState(Started(map[], 0), REPLENISH_COUNT)
    else PoolStep(PoolAfter(actions[..|actions| - 1]), actions[|actions| - 1])
  }

  ghost predicate NoRemovals(actions: seq<PoolAction>) {
    forall i :: 0 <= i < |actions| ==> !actions[i].Remove?
  }

  lemma {:induction false} Removal(pool: Pool, id: nat)
    ensures |pool - {id}| == if id in pool then |pool| - 1 else |pool|
    ensures Fits(pool) ==> Fits(pool - {id})
  {
    if pool - {id} != map[] {
      assert Newest(pool - {id}) in pool;
    }
    assert (pool - {id}).Keys == pool.Keys - {id};
  }

  /** What each action does to the number of keys. */
  lemma {:induction false} PoolStepSize(s: PoolState, a: PoolAction)
    ensures var n, m := |s.pool|, |PoolStep(s, a).pool|;
            && (n <= 149 ==> m <= 149)
            && (a.Consume? || a.Maintain? ==> 50 <= m)
            && (a.Remove? ==> n - 1 <= m <= n)
            && (a.Startup? ==> 5 <= m && n <= m && (5 <= n ==> m == n))
  {
    match a
    case Consume(id) =>
      Removal(s.pool, id);
      BatchGrowth(s.pool - {id}, NextId(s.pool - {id}), s.material);
    case Maintain => BatchGrowth(s.pool, NextId(s.pool), s.material);
    case Remove(id) => Removal(s.pool, id);
    case Startup => BatchGrowth(s.pool, 1, s.material);
  }

  /**
   * In every run the pool holds at most 149 keys, and at least 50 right after each consumption and
   * each pass, whether or not ids wrap; removals take away one key each, and a start-up leaves five.
   * Without removals there are never fewer than 50.
   */
  lemma {:induction false} PoolStaysBounded(actions: seq<PoolAction>)
    ensures |PoolAfter(actions).pool| <= 149
    ensures NoRemovals(actions) ==> 50 <= |PoolAfter(actions).pool|
    ensures actions != [] ==>
              var n, m := |PoolAfter(actions[..|actions| - 1]).pool|, |PoolAfter(actions).pool|;
              match actions[|actions| - 1]
              case Consume(_) => 50 <= m
              case Maintain => 50 <= m
              case Remove(_) => n - 1 <= m <= n
              case Startup => 5 <= m && n <= m
  {
    if actions == [] {
      BatchGrowth(map[], 1, 0);
    } else {
      PoolStaysBounded(actions[..|actions| - 1]);
      PoolStepSize(PoolAfter(actions[..|actions| - 1]), actions[|actions| - 1]);
    }
  }

  // ---------------------------------------------------------------- reachable pools

  ghost function Removals(n: nat): seq<PoolAction> {
    if n == 0 then [] else Removals(n - 1) + [Remove(n)]
  }

  lemma {:induction false} PoolNext(actions: seq<PoolAction>, a: PoolAction)
    ensures PoolAfter(actions + [a]) == PoolStep(PoolAfter(actions), a)
  {
    assert (actions + [a])[..|actions|] == actions;
  }

  /** The ids from lo up to 100 with the material of a new bridge. */
  ghost predicate HoldsFrom(s: PoolState, lo: nat) {
    && s.material == REPLENISH_COUNT
    && (forall id :: id in s.pool <==> lo <= id <= REPLENISH_COUNT)
    && (forall id :: id in s.pool ==> s.pool[id] == id - 1)
  }

  lemma {:induction false} AfterRemovals(n: nat)
    requires n <= REPLENISH_COUNT
    ensures HoldsFrom(PoolAfter(Removals(n)), n + 1)
  {
    if n == 0 {
      NewPool(REPLENISH_COUNT);
    } else {
      AfterRemovals(n - 1);
      PoolNext(Removals(n - 1), Remove(n));
      OneLess(PoolAfter(Removals(n - 1)), n);
    }
  }

  lemma {:induction false} NewPool(count: nat)
    requires count == REPLENISH_COUNT
    ensures HoldsFrom(PoolAfter([]), 1)
  {
    NewPoolHolds(PoolAfter([]), map[], count);
  }

  lemma {:induction false} NewPoolHolds(s: PoolState, none: Pool, count: nat)
    requires count == REPLENISH_COUNT && none == map[]
    requires s.material == count && s.pool == SaveAll(none, 1, count, 0)
    ensures HoldsFrom(s, 1)
  {
    SaveAllMeaning(none, 1, count, 0);
    assert s.pool.Keys == none.Keys + Range(1, count);
  }

  lemma {:induction false} OneLess(s: PoolState, lo: nat)
    requires HoldsFrom(s, lo)
    ensures HoldsFrom(PoolStep(s, Remove(lo)), lo + 1)
  {
  }

  lemma {:induction false} SizeFrom(s: PoolState, lo: nat)
    requires HoldsFrom(s, lo) && 1 <= lo <= REPLENISH_COUNT + 1
    ensures |s.pool| == REPLENISH_COUNT + 1 - lo
  {
    RangeSize(lo, REPLENISH_COUNT + 1 - lo);
    assert s.pool.Keys == Range(lo, REPLENISH_COUNT + 1 - lo);
  }

  /** There is a run at the end of which a start-up replaces a live key. */
  lemma {:induction false} StartupReplacesLiveKey()
    ensures exists actions, id :: Replaces(actions, id)
  {
    var actions := Removals(96);
    var s := PoolAfter(actions);
    AfterRemovals(96);
    SizeFrom(s, 97);
    PoolNext(actions, Startup);
    SaveAllMeaning(s.pool, 1, REPLENISH_COUNT, s.material);
    assert Replaces(actions, 97);
  }

  ghost predicate Replaces(actions: seq<PoolAction>, id: nat) {
    var before, after := PoolAfter(actions).pool, PoolAfter(actions + [Startup]).pool;
    id in before && id in after && after[id] != before[id]
  }

  /** The highest id, which a bundle publishes, is removed and then issued again for another key. */
  ghost predicate ComesBack(actions: seq<PoolAction>, id: nat) {
    var before, gone := PoolAfter(actions).pool, PoolAfter(actions + [Remove(id)]).pool;
    var after := PoolAfter(actions + [Remove(id)] + [Maintain]).pool;
    id in before && id == Newest(before) && id !in gone && id in after && after[id] != before[id]
  }

  /** There is a run in which the published id comes back after its key was used. */
  lemma {:induction false} PublishedIdComesBack()
    ensures exists actions, id :: ComesBack(actions, id)
  {
    var actions := Removals(51);
    var s := PoolAfter(actions);
    AfterRemovals(51);
    SizeFrom(s, 52);
    PoolNext(actions, Remove(100));
    PoolNext(actions + [Remove(100)], Maintain);
    Removal(s.pool, 100);
    TopIsReissued(s, REPLENISH_COUNT);
    assert ComesBack(actions, 100);
  }

  lemma {:induction false} TopIsReissued(s: PoolState, top: nat)
    requires HoldsFrom(s, 52) && top == REPLENISH_COUNT
    ensures top in s.pool && Newest(s.pool) == top
    ensures var after := Replenished(s.pool - {top}, s.material);
            top in after && after[top] != s.pool[top]
  {
    var left := s.pool - {top};
    assert top - 1 in left && forall id :: id in left ==> id <= top - 1;
    assert NextId(left) == top;
    SaveAllMeaning(left, top, top, s.material);
  }

  // ---------------------------------------------------------------- ids that come back

  lemma {:induction false} BatchIsFresh(pool: Pool, start: nat, n: nat, material: nat)
    ensures forall id :: id in BatchIds(start, n) ==>
              id in SaveAll(pool, start, n, material) && SaveAll(pool, start, n, material)[id] >= material
  {
    if n > 0 {
      BatchIsFresh(pool, start, n - 1, material);
      assert BatchIds(start, n) == BatchIds(start, n - 1) + {BatchId(start, n - 1)};
    }
  }

  /**
   * Unlike signed and Kyber ids, one-time ids are reused: the next replenishment issues a consumed id
   * again exactly when it lies in the batch, wrapping or not, and then for a different key.  Where the
   * batch does not wrap it lies above all remaining ids, so it is the highest id, which bundles
   * publish, that qualifies.
   */
  lemma {:induction false} ConsumedIdReissuedExactly(pool: Pool, id: nat, material: nat)
    requires id in pool && forall k :: k in pool ==> pool[k] < material
    ensures var left := pool - {id};
            && (id in Replenished(left, material) <==> id in BatchIds(NextId(left), REPLENISH_COUNT))
            && (id in Replenished(left, material) ==> Replenished(left, material)[id] != pool[id])
            && (Fits(left) ==>
                  && (id in Replenished(left, material) <==> NextId(left) <= id < NextId(left) + REPLENISH_COUNT)
                  && (id in Replenished(left, material) ==> id == Newest(pool)))
  {
    var left := pool - {id};
    SaveAllKeys(left, NextId(left), REPLENISH_COUNT, material);
    BatchIsFresh(left, NextId(left), REPLENISH_COUNT, material);
    if Fits(left) {
      SaveAllMeaning(left, NextId(left), REPLENISH_COUNT, material);
      if id in Replenished(left, material) {
        forall k | k in pool ensures k <= id {
          assert k == id || k in left;
        }
      }
    }
  }

  /**
   * Starting a bridge keeps every live one-time key exactly when at least five are live or none has
   * an id up to 100; otherwise a live key, possibly a published one, is silently replaced.
   */
  lemma {:induction false} StartupKeepsKeysExactly(pool: Pool, material: nat)
    requires forall k :: k in pool ==> pool[k] < material
    ensures (forall id :: id in pool ==> id in Started(pool, material) && Started(pool, material)[id] == pool[id])
            <==> |pool| >= STARTUP_THRESHOLD || forall id :: id in pool ==> !(1 <= id <= REPLENISH_COUNT)
  {
    if |pool| < STARTUP_THRESHOLD {
      SaveAllMeaning(pool, 1, REPLENISH_COUNT, material);
    }
  }

  // ---------------------------------------------------------------- what the operations keep

  /** No live key changes, and if the batch fits all new ids lie above the live ones. */
  ghost predicate Extends(before: Pool, after: Pool, material: nat) {
    && (forall id :: id in before ==> id in after && after[id] == before[id])
    && (forall id :: id in after && id !in before ==>
          && (forall live :: live in before ==> live < id) && after[id] >= material)
  }

  /**
   * Consuming takes exactly one key away.  With 50 keys left nothing else happens; with fewer, and room for
   * the batch, the others stay and 100 newer keys join them, among them perhaps the consumed id, with new
   * material.
   */
  lemma {:induction false} ConsumedKeyIsGone(pool: Pool, id: nat, material: nat)
    ensures var left, after := pool - {id}, Consumed(pool, id, material);
            && (|left| >= 50 ==>
                  && id !in after
                  && forall k :: k != id ==> (k in after <==> k in pool) && (k in pool ==> after[k] == pool[k]))
            && (|left| < 50 && Fits(left) ==> Extends(left, after, material) && |after| == |left| + 100)
            && (id in after ==> |left| < 50 && after[id] >= material)
  {
    var left := pool - {id};
    if |left| < 50 {
      SaveAllKeys(left, NextId(left), REPLENISH_COUNT, material);
      BatchIsFresh(left, NextId(left), REPLENISH_COUNT, material);
      if Fits(left) {
        ReplenishmentAddsHundred(left, material);
      }
    }
  }

  /** Maintenance leaves 50 keys or more alone; fewer stay too, if the batch fits, and 100 newer join them. */
  lemma {:induction false} MaintenanceExtends(pool: Pool, material: nat)
    ensures |pool| >= 50 ==> Maintained(pool, material) == pool
    ensures |pool| < 50 && Fits(pool) ==>
              Extends(pool, Maintained(pool, material), material) && |Maintained(pool, material)| == |pool| + 100
  {
    if |pool| < 50 && Fits(pool) {
      ReplenishmentAddsHundred(pool, material);
    }
  }

  /** Start-up leaves five keys or more alone; otherwise the ids 1 to 100 are live afterwards, all new. */
  lemma {:induction false} StartupFills(pool: Pool, material: nat)
    ensures |pool| >= 5 ==> Started(pool, material) == pool
    ensures |pool| < 5 ==>
              var after := Started(pool, material);
              && (forall id :: id in after <==> id in pool || 1 <= id <= 100)
              && (forall id :: 1 <= id <= 100 ==> after[id] >= material)
              && (forall id :: id in pool && !(1 <= id <= 100) ==> after[id] == pool[id])
  {
    if |pool| < 5 {
      SaveAllMeaning(pool, 1, REPLENISH_COUNT, material);
    }
  }
}
