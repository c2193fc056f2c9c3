/**
 * The orchestrator's list of discovered prekey bundles, kept as a vector that is searched and
 * updated in place.  It is proved to be a last-writer-wins map from Nostr keys to bundles.
 */
module Bundles {
  import opened Options

  datatype Bundle = Bundle(rdx: string, pubkey: string, content: string, eventId: string)

  /**
   * A bundle announcement as it reaches the orchestrator: `compatible` is the outcome of the version
   * check and `rdx` is the fingerprint extracted from the content, None if the extraction throws.
   */
  datatype Announcement = Announcement(
    pubkey: string, content: string, eventId: string, compatible: bool, rdx: Option<string>)

  function ToBundle(a: Announcement): Bundle
    requires a.rdx.Some?
  {
    Bundle(a.rdx.value, a.pubkey, a.content, a.eventId)
  }

  // ---------------------------------------------------------------- the list

  function IndexOf(bundles: seq<Bundle>, pubkey: string): (i: nat)
    ensures i <= |bundles|
    ensures forall j :: 0 <= j < i ==> bundles[j].pubkey != pubkey
    ensures i < |bundles| ==> bundles[i].pubkey == pubkey
  {
    if bundles == [] || bundles[0].pubkey == pubkey then 0 else 1 + IndexOf(bundles[1..], pubkey)
  }

  function Upsert(bundles: seq<Bundle>, b: Bundle): seq<Bundle> {
    var i := IndexOf(bundles, b.pubkey);
    if i < |bundles| then bundles[i := b] else bundles + [b]
  }

  function Without(bundles: seq<Bundle>, pubkey: string): seq<Bundle> {
    if bundles == [] then []
    else (if bundles[0].pubkey == pubkey then [] else [bundles[0]]) + Without(bundles[1..], pubkey)
  }

  function Announce(bundles: seq<Bundle>, a: Announcement): seq<Bundle> {
    if !a.compatible then bundles
    else if a.content == "" then Without(bundles, a.pubkey)
    else if a.rdx.None? then bundles
    else Upsert(bundles, ToBundle(a))
  }

  function Discovered(announcements: seq<Announcement>): seq<Bundle> {
    if announcements == [] then []
    else Announce(Discovered(announcements[..|announcements| - 1]), announcements[|announcements| - 1])
  }

  // ---------------------------------------------------------------- the last-writer map

  /** Does the announcement say anything about its key that the node can use? */
  predicate Effective(a: Announcement) { a.compatible && (a.content == "" || a.rdx.Some?) }

  /** What the latest effective announcement under `pubkey` says. */
  function LastWord(announcements: seq<Announcement>, pubkey: string): Option<Bundle> {
    if announcements == [] then None
    else
      var a := announcements[|announcements| - 1];
      if Effective(a) && a.pubkey == pubkey then
        if a.content == "" then None
        else Some(Bundle(rdx := a.rdx.value, pubkey := a.pubkey, content := a.content, eventId := a.eventId))
      else LastWord(announcements[..|announcements| - 1], pubkey)
  }

  ghost predicate OneEntryPerKey(bundles: seq<Bundle>) {
    forall i, j :: 0 <= i < j < |bundles| ==> bundles[i].pubkey != bundles[j].pubkey
  }

  function Lookup(bundles: seq<Bundle>, pubkey: string): Option<Bundle> {
    var i := IndexOf(bundles, pubkey);
    if i < |bundles| then Some(bundles[i]) else None
  }

  lemma {:induction false} UpsertIsUpdate(bundles: seq<Bundle>, b: Bundle, pubkey: string)
    requires OneEntryPerKey(bundles)
    ensures OneEntryPerKey(Upsert(bundles, b))
    ensures Lookup(Upsert(bundles, b), pubkey) == if pubkey == b.pubkey then Some(b) else Lookup(bundles, pubkey)
  {
    var after := Upsert(bundles, b);
    var i := IndexOf(bundles, pubkey);
    if pubkey == b.pubkey {
      assert after[i] == b;
    } else if i < |bundles| {
      assert after[i] == bundles[i];
    }
  }

  lemma {:induction false} WithoutIsRemoval(bundles: seq<Bundle>, gone: string)
    requires OneEntryPerKey(bundles)
    ensures OneEntryPerKey(Without(bundles, gone))
    ensures forall b :: b in Without(bundles, gone) <==> b in bundles && b.pubkey != gone
  {
    if bundles != [] {
      WithoutIsRemoval(bundles[1..], gone);
      assert bundles == [bundles[0]] + bundles[1..];
    }
  }

  lemma {:induction false} LookupIsMembership(bundles: seq<Bundle>, pubkey: string, b: Bundle)
    requires OneEntryPerKey(bundles) && b.pubkey == pubkey
    ensures Lookup(bundles, pubkey) == Some(b) <==> b in bundles
  {
    var i := IndexOf(bundles, pubkey);
    if b in bundles {
      var j :| 0 <= j < |bundles| && bundles[j] == b;
      assert j == i;
    }
  }

  /** Removing a key forgets that key and no other. */
  lemma {:induction false} WithoutIsUpdate(bundles: seq<Bundle>, gone: string, pubkey: string)
    requires OneEntryPerKey(bundles)
    ensures OneEntryPerKey(Without(bundles, gone))
    ensures Lookup(Without(bundles, gone), pubkey) == if pubkey == gone then None else Lookup(bundles, pubkey)
  {
    WithoutIsRemoval(bundles, gone);
    var after := Without(bundles, gone);
    if Lookup(after, pubkey).Some? {
      LookupIsMembership(bundles, pubkey, Lookup(after, pubkey).value);
    }
    if pubkey != gone && Lookup(bundles, pubkey).Some? {
      LookupIsMembership(after, pubkey, Lookup(bundles, pubkey).value);
    }
  }

  /**
   * After any sequence of announcements the list holds at most one entry per Nostr key, and the
   * entry of every key is what its latest effective announcement says; announcements of an old
   * version, and those whose fingerprint cannot be extracted, leave it as it was.
   */
  lemma {:induction false} ListIsLastWriterMap(announcements: seq<Announcement>, pubkey: string)
    ensures OneEntryPerKey(Discovered(announcements))
    ensures Lookup(Discovered(announcements), pubkey) == LastWord(announcements, pubkey)
  {
    if announcements != [] {
      var init, a := announcements[..|announcements| - 1], announcements[|announcements| - 1];
      ListIsLastWriterMap(init, pubkey);
      if Effective(a) {
        if a.content == "" {
          WithoutIsUpdate(Discovered(init), a.pubkey, pubkey);
        } else {
          UpsertIsUpdate(Discovered(init), ToBundle(a), pubkey);
        }
      }
    }
  }

  // ---------------------------------------------------------------- the vector, in place

  lemma {:induction false} WithoutAppends(front: seq<Bundle>, b: Bundle, gone: string)
    ensures Without(front + [b], gone) == Without(front, gone) + if b.pubkey == gone then [] else [b]
  {
    if front == [] {
      assert front + [b] == [b];
    } else {
      WithoutFirst(front[0], front[1..] + [b], gone);
      WithoutFirst(front[0], front[1..], gone);
      assert front == [front[0]] + front[1..];
      assert front + [b] == [front[0]] + (front[1..] + [b]);
      WithoutAppends(front[1..], b, gone);
    }
  }

  lemma {:induction false} WithoutFirst(b: Bundle, rest: seq<Bundle>, gone: string)
    ensures Without([b] + rest, gone) == (if b.pubkey == gone then [] else [b]) + Without(rest, gone)
  {
    assert ([b] + rest)[1..] == rest;
  }

  class BundleDirectory {
    var bundles: seq<Bundle>

    constructor ()
      ensures bundles == Discovered([])
    {
      bundles := [];
    }

    method Received(b: Bundle)
      modifies this
      ensures bundles == Upsert(old(bundles), b)
    {
      var i := 0;
      while i < |bundles| && bundles[i].pubkey != b.pubkey
        invariant 0 <= i <= |bundles| && bundles == old(bundles)
        invariant forall j :: 0 <= j < i ==> bundles[j].pubkey != b.pubkey
      {
        i := i + 1;
      }
      assert i == IndexOf(bundles, b.pubkey);
      if i < |bundles| {
        bundles := bundles[i := bundles[i].(rdx := b.rdx, content := b.content, eventId := b.eventId)];
      } else {
        bundles := bundles + [b];
      }
    }

    method Removed(pubkey: string)
      modifies this
      ensures bundles == Without(old(bundles), pubkey)
    {
      var kept: seq<Bundle> := [];
      for i := 0 to |bundles|
        invariant bundles == old(bundles) && kept == Without(bundles[..i], pubkey)
      {
        assert bundles[..i + 1] == bundles[..i] + [bundles[i]];
        WithoutAppends(bundles[..i], bundles[i], pubkey);
        if bundles[i].pubkey != pubkey {
          kept := kept + [bundles[i]];
        }
      }
      assert bundles[..|bundles|] == bundles;
      bundles := kept;
    }

    method Handle(a: Announcement)
      modifies this
      ensures bundles == Announce(old(bundles), a)
    {
      if a.compatible {
        if a.content == "" {
          Removed(a.pubkey);
        } else if a.rdx.Some? {
          Received(ToBundle(a));
        }
      }
    }
  }
}
