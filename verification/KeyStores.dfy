/**
 * One store of signed or Kyber pre-keys: ids mapped to creation times in milliseconds.
 * The signed and the Kyber code are the same but for the key type, and so is the model.
 */
module KeyStores {
  const ROTATION_INTERVAL_SECS := 7 * 24 * 60 * 60
  const GRACE_PERIOD_SECS := 7 * 24 * 60 * 60
  const GRACE_PERIOD_MS := GRACE_PERIOD_SECS * 1000
  const U32_LIMIT := 0x1_0000_0000

  type Keys = map<nat, nat>

  /** SQLite compares whole seconds and scans a primary key in order; the HashMap does neither. */
  datatype Backend = Sqlite | Memory

  lemma {:induction false} MaxExists(s: set<nat>)
    requires s != {}
    ensures exists m :: IsMax(s, m)
  {
    var x :| x in s;
    if s == {x} {
      assert IsMax(s, x);
    } else {
      MaxExists(s - {x});
      var m :| IsMax(s - {x}, m);
      assert forall y :: y in s ==> y == x || y in s - {x};
      assert IsMax(s, if m > x then m else x);
    }
  }

  ghost predicate IsMax(s: set<nat>, m: nat) { m in s && forall x :: x in s ==> x <= m }

  ghost function MaxOf(s: set<nat>): (m: nat)
    requires s != {}
    ensures m in s && forall x :: x in s ==> x <= m
  {
    MaxExists(s);
    var m :| IsMax(s, m);
    m
  }

  ghost function Newest<T>(keys: map<nat, T>): (id: nat)
    requires keys != map[]
    ensures id in keys && forall k :: k in keys ==> k <= id
  {
    assert keys.Keys == {} ==> keys == map[];
    MaxOf(keys.Keys)
  }

  ghost function NextId<T>(keys: map<nat, T>): nat {
    if keys == map[] then 1 else Newest(keys) + 1
  }

  // ---------------------------------------------------------------- rotation

  /** No key bears a time later than `now`, as the unsigned age computation demands. */
  ghost predicate NotFromFuture(keys: Keys, now: nat) {
    forall id :: id in keys ==> keys[id] <= now
  }

  ghost predicate NeedsRotation(keys: Keys, now: nat)
    requires NotFromFuture(keys, now)
  {
    keys == map[] || (now - keys[Newest(keys)]) / 1000 > ROTATION_INTERVAL_SECS
  }

  ghost function Rotated(keys: Keys, now: nat): (r: Keys)
    ensures r != map[] && Newest(r) == NextId(keys)
  {
    assert NextId(keys) in keys[NextId(keys) := now];
    keys[NextId(keys) := now]
  }

  /** Higher ids are not older: what rotation under a non-decreasing clock maintains. */
  ghost predicate Monotone(keys: Keys) {
    forall i, j :: i in keys && j in keys && i <= j ==> keys[i] <= keys[j]
  }

  // ---------------------------------------------------------------- the two older-than tests

  predicate IsOlder(b: Backend, created: nat, cutoff: nat) {
    match b
    case Sqlite => created / 1000 < cutoff / 1000
    case Memory => created < cutoff
  }

  ghost function Elems(scan: seq<nat>): set<nat> { set x | x in scan }

  ghost predicate Distinct(scan: seq<nat>) {
    forall i, j :: 0 <= i < j < |scan| ==> scan[i] != scan[j]
  }

  ghost function Expired(b: Backend, keys: Keys, cutoff: nat): set<nat> {
    set id | id in keys && IsOlder(b, keys[id], cutoff)
  }

  ghost predicate Ascending(scan: seq<nat>) {
    forall i, j :: 0 <= i < j < |scan| ==> scan[i] < scan[j]
  }

  /** The result of the older-than query: each such key once, in order only for SQLite. */
  ghost predicate IsScan(b: Backend, keys: Keys, cutoff: nat, scan: seq<nat>) {
    Distinct(scan) && Elems(scan) == Expired(b, keys, cutoff) && (b.Sqlite? ==> Ascending(scan))
  }

  /** SQLite's set is contained in memory's, and the difference was created in the cutoff's second. */
  lemma {:induction false} BackendsAgreeUpToOneSecond(created: nat, cutoff: nat)
    ensures IsOlder(Sqlite, created, cutoff) ==> IsOlder(Memory, created, cutoff)
    ensures IsOlder(Memory, created, cutoff) && !IsOlder(Sqlite, created, cutoff) <==>
            created < cutoff && created / 1000 == cutoff / 1000
  {
  }

  /** The grace period is seven days: in milliseconds in memory, in whole seconds on SQLite. */
  lemma {:induction false} ExpiredWrittenOut(b: Backend, keys: Keys, now: nat, id: nat)
    requires 604800000 <= now && GRACE_PERIOD_MS <= now && id in keys
    ensures id in Expired(b, keys, now - GRACE_PERIOD_MS) <==>
            if b.Memory? then keys[id] + 604800000 < now else keys[id] / 1000 + 604800 < now / 1000
  {
  }

  /** A key whose floored age triggers rotation is past the grace cutoff under both tests. */
  lemma {:induction false} RotationImpliesExpiry(b: Backend, created: nat, check: nat, sweep: nat)
    requires created <= check <= sweep && GRACE_PERIOD_MS <= sweep
    requires (check - created) / 1000 > ROTATION_INTERVAL_SECS
    ensures IsOlder(b, created, sweep - GRACE_PERIOD_MS)
  {
    assert created + 1000 <= sweep - GRACE_PERIOD_MS;
  }

  // ---------------------------------------------------------------- cleanup

  /** What the guarded delete loop leaves: everything unscanned, or else the key scanned last. */
  ghost function Survivors(keys: Keys, scan: seq<nat>): Keys
    requires Elems(scan) <= keys.Keys
  {
    if scan == [] || |scan| < |keys| then keys - Elems(scan)
    else
      var last := scan[|scan| - 1];
      map[last := keys[last]]
  }

  lemma {:induction false} DistinctSize(scan: seq<nat>)
    requires Distinct(scan)
    ensures |Elems(scan)| == |scan|
  {
    if scan != [] {
      var init, last := scan[..|scan| - 1], scan[|scan| - 1];
      DistinctSize(init);
      assert Elems(scan) == Elems(init) + {last} && last !in Elems(init);
    } else {
      assert Elems(scan) == {};
    }
  }

  /** No scan is longer than the store, and one that is as long has seen every key. */
  lemma {:induction false} ScanFits(keys: Keys, scan: seq<nat>)
    requires Distinct(scan) && Elems(scan) <= keys.Keys
    ensures |scan| <= |keys|
    ensures |keys - Elems(scan)| == |keys| - |scan|
    ensures |scan| == |keys| ==> Elems(scan) == keys.Keys
  {
    DistinctSize(scan);
    SubsetSize(keys.Keys, Elems(scan));
    assert (keys - Elems(scan)).Keys == keys.Keys - Elems(scan);
  }

  lemma {:induction false} SubsetSize(whole: set<nat>, part: set<nat>)
    requires part <= whole
    ensures |part| + |whole - part| == |whole|
    ensures |part| == |whole| ==> part == whole
  {
    assert whole == part + (whole - part);
  }

  lemma {:induction false} ScanGrows(scan: seq<nat>, id: nat)
    requires Distinct(scan + [id])
    ensures Distinct(scan) && id !in Elems(scan) && Elems(scan + [id]) == Elems(scan) + {id}
  {
    var longer := scan + [id];
    assert longer[|scan|] == id;
    assert forall i :: 0 <= i < |scan| ==> scan[i] == longer[i] && longer[i] != longer[|scan|];
  }

  /** One turn of the delete loop. */
  lemma {:induction false} SurvivorsStep(keys: Keys, scan: seq<nat>, id: nat)
    requires Distinct(scan + [id]) && Elems(scan + [id]) <= keys.Keys
    ensures Elems(scan) <= keys.Keys
    ensures var k := Survivors(keys, scan);
            Survivors(keys, scan + [id]) == if |k| > 1 then k - {id} else k
  {
    var longer := scan + [id];
    ScanGrows(scan, id);
    ScanFits(keys, scan);
    ScanFits(keys, longer);
    var k := keys - Elems(scan);
    assert Survivors(keys, scan) == k;
    if |longer| < |keys| {
      RemoveOneMore(keys, Elems(scan), id);
    } else {
      Singleton(k, id);
    }
  }

  lemma {:induction false} RemoveOneMore(keys: Keys, gone: set<nat>, id: nat)
    ensures keys - (gone + {id}) == (keys - gone) - {id}
  {
  }

  lemma {:induction false} Singleton(k: Keys, id: nat)
    requires |k| == 1 && id in k
    ensures k == map[id := k[id]]
  {
    SubsetSize(k.Keys, {id});
  }

  /** The delete loop in terms of the set it scans. */
  lemma {:induction false} SweepMeaning(keys: Keys, scan: seq<nat>)
    requires Distinct(scan) && Elems(scan) <= keys.Keys
    ensures var left := Survivors(keys, scan);
            && (forall id :: id in left ==> id in keys && left[id] == keys[id])
            && (Elems(scan) != keys.Keys ==> left == keys - Elems(scan))
            && (Elems(scan) == keys.Keys && keys != map[] ==>
                  scan != [] && left.Keys == {scan[|scan| - 1]} && |left| == 1)
  {
    ScanFits(keys, scan);
    DistinctSize(scan);
    if scan != [] {
      assert scan[|scan| - 1] in Elems(scan);
    } else {
      assert Elems(scan) == {};
    }
  }

  /**
   * Cleanup with either older-than test and any scan order: it changes no key it keeps, keeps every
   * unexpired key, removes every expired key if some key is unexpired, and otherwise keeps one.
   */
  lemma {:induction false} CleanupIsSafe(b: Backend, keys: Keys, cutoff: nat, scan: seq<nat>)
    requires IsScan(b, keys, cutoff, scan)
    ensures var left := Survivors(keys, scan);
            && (forall id :: id in left ==> id in keys && left[id] == keys[id])
            && (forall id :: id in keys && !IsOlder(b, keys[id], cutoff) ==> id in left)
            && ((exists id :: id in keys && !IsOlder(b, keys[id], cutoff)) ==>
                  forall id :: id in left ==> !IsOlder(b, left[id], cutoff))
            && (keys != map[] && (forall id :: id in keys ==> IsOlder(b, keys[id], cutoff)) ==> |left| == 1)
            && (keys != map[] ==> left != map[])
  {
    SweepMeaning(keys, scan);
    assert Elems(scan) == keys.Keys <==> forall id :: id in keys ==> IsOlder(b, keys[id], cutoff);
  }

  lemma {:induction false} LastOfAscending(keys: Keys, scan: seq<nat>)
    requires keys != map[] && Ascending(scan) && Elems(scan) == keys.Keys
    ensures scan != [] && scan[|scan| - 1] == Newest(keys)
  {
    var newest := Newest(keys);
    assert newest in Elems(scan);
    var i :| 0 <= i < |scan| && scan[i] == newest;
    assert scan[|scan| - 1] in Elems(scan);
  }

  /** Times monotone in id: if the newest key is expired, every key is. */
  lemma {:induction false} NewestExpiresLast(b: Backend, keys: Keys, cutoff: nat)
    requires keys != map[] && Monotone(keys) && Newest(keys) in Expired(b, keys, cutoff)
    ensures Expired(b, keys, cutoff) == keys.Keys
  {
    forall id | id in keys ensures IsOlder(b, keys[id], cutoff) {
      assert keys[id] <= keys[Newest(keys)];
    }
  }

  /** With SQLite's order and times monotone in id, cleanup never removes the newest key. */
  lemma {:induction false} AscendingScanKeepsNewest(keys: Keys, cutoff: nat, scan: seq<nat>)
    requires keys != map[] && Monotone(keys) && IsScan(Sqlite, keys, cutoff, scan)
    ensures Newest(keys) in Survivors(keys, scan)
  {
    SweepMeaning(keys, scan);
    if Newest(keys) in Expired(Sqlite, keys, cutoff) {
      NewestExpiresLast(Sqlite, keys, cutoff);
      LastOfAscending(keys, scan);
    }
  }

  lemma {:induction false} ConsIsDistinct(x: nat, rest: seq<nat>)
    requires Distinct(rest) && x !in rest
    ensures Distinct([x] + rest) && Elems([x] + rest) == {x} + Elems(rest)
  {
    var xs := [x] + rest;
    forall i, j | 0 <= i < j < |xs| ensures xs[i] != xs[j] {
      assert xs[j] == rest[j - 1] && xs[j] in rest;
    }
    forall y ensures y in Elems(xs) <==> y in {x} + Elems(rest) {
      assert y in xs <==> y == x || y in rest;
    }
  }

  /** Some order of a finite set. */
  ghost function Listing(s: set<nat>): (xs: seq<nat>)
    ensures Distinct(xs) && Elems(xs) == s
  {
    if s == {} then [] else
      var x :| x in s;
      var rest := Listing(s - {x});
      assert x !in Elems(rest);
      ConsIsDistinct(x, rest);
      [x] + rest
  }

  /** An order of the expired keys in which the newest, being expired, comes first. */
  lemma {:induction false} NewestFirst(keys: Keys, cutoff: nat) returns (scan: seq<nat>)
    requires keys != map[] && IsOlder(Memory, keys[Newest(keys)], cutoff)
    ensures IsScan(Memory, keys, cutoff, scan) && scan != [] && scan[0] == Newest(keys)
  {
    var newest := Newest(keys);
    var others := set id | id in keys && id != newest && IsOlder(Memory, keys[id], cutoff);
    var rest := Listing(others);
    assert newest !in Elems(rest);
    ConsIsDistinct(newest, rest);
    scan := [newest] + rest;
    assert Elems(scan) == Expired(Memory, keys, cutoff);
  }

  /**
   * Memory's arbitrary order puts the newest key at risk: it survives whatever the order exactly
   * when it is not expired or is the only key.
   */
  lemma {:induction false} ArbitraryScanKeepsNewestExactly(keys: Keys, cutoff: nat)
    requires keys != map[]
    ensures (forall scan :: IsScan(Memory, keys, cutoff, scan) ==> Newest(keys) in Survivors(keys, scan))
            <==> !IsOlder(Memory, keys[Newest(keys)], cutoff) || |keys| == 1
  {
    var newest := Newest(keys);
    if !IsOlder(Memory, keys[newest], cutoff) || |keys| == 1 {
      forall scan | IsScan(Memory, keys, cutoff, scan)
        ensures newest in Survivors(keys, scan)
      {
        if |keys| == 1 {
          OneKeyIsKept(keys, scan);
        } else {
          SweepMeaning(keys, scan);
        }
      }
    } else {
      var scan := NewestFirst(keys, cutoff);
      SweepMeaning(keys, scan);
      ScanFits(keys, scan);
      assert newest !in Survivors(keys, scan);
    }
  }

  /** The last key is never removed. */
  lemma {:induction false} OneKeyIsKept(keys: Keys, scan: seq<nat>)
    requires |keys| == 1 && Distinct(scan) && Elems(scan) <= keys.Keys
    ensures Survivors(keys, scan) == keys
  {
    ScanFits(keys, scan);
    if scan != [] {
      assert scan[0] in Elems(scan);
      Singleton(keys, scan[0]);
    }
  }
}
