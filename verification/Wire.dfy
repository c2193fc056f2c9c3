/** The wire form of events and replies, as JSON values, and the dispatch of received frames. */
module Wire {
  import opened Options
  import Hex
  import Requests
  import RequestRuns
  import Bundles

  datatype Json =
    | Null
    | Bool(truth: bool)
    | Num(number: int)
    | Str(text: string)
    | Arr(items: seq<Json>)
    | Obj(fields: map<string, Json>)

  const U64 := 0x1_0000_0000_0000_0000
  const U32 := 0x1_0000_0000
  const U16 := 0x1_0000

  type Stamp = n: nat | n < U64
  type Kind = n: nat | n < U16

  const ENCRYPTED_MESSAGE: Kind := 40001

  datatype EventData = EventData(id: string, pubkey: string, createdAt: Stamp, kind: Kind,
                                 tags: seq<seq<string>>, content: string, sig: string)

  datatype Event = Event(subscriptionId: string, data: EventData)

  const EMPTY_DATA := EventData("", "", 0, 0, [], "", "")

  // ---------------------------------------------------------------- events to JSON

  function TagJson(tag: seq<string>): Json { Arr(seq(|tag|, k requires 0 <= k < |tag| => Str(tag[k]))) }

  function TagsJson(tags: seq<seq<string>>): Json { Arr(seq(|tags|, k requires 0 <= k < |tags| => TagJson(tags[k]))) }

  function ToJson(e: EventData): Json {
    Obj(map["id" := Str(e.id), "pubkey" := Str(e.pubkey), "created_at" := Num(e.createdAt),
            "kind" := Num(e.kind), "content" := Str(e.content), "sig" := Str(e.sig), "tags" := TagsJson(e.tags)])
  }

  /** An event without a subscription id goes to a relay, one with it comes from a relay. */
  function Frame(e: Event): Json {
    Arr([Str("EVENT")] + (if e.subscriptionId == "" then [] else [Str(e.subscriptionId)]) + [ToJson(e.data)])
  }

  // ---------------------------------------------------------------- JSON to events

  function At(j: Json, key: string): Json { if j.Obj? && key in j.fields then j.fields[key] else Null }

  /** The strings of an array of strings. */
  function TagOf(items: seq<Json>): Option<seq<string>> {
    if items == [] then Some([])
    else
      var init, last := TagOf(items[..|items| - 1]), items[|items| - 1];
      if init.Some? && last.Str? then Some(init.value + [last.text]) else None
  }

  function TagsOf(items: seq<Json>): Option<seq<seq<string>>> {
    if items == [] then Some([])
    else
      var init, last := TagsOf(items[..|items| - 1]), items[|items| - 1];
      if init.Some? && last.Arr? && TagOf(last.items).Some? then Some(init.value + [TagOf(last.items).value]) else None
  }

  /** `event_data::deserialize`: every field but the tags must be there, with its type; numbers wrap. */
  function FromJson(j: Json): Option<EventData> {
    var tags := if j.Obj? && "tags" in j.fields then
                  (if At(j, "tags").Arr? then TagsOf(At(j, "tags").items) else None)
                else Some([]);
    if At(j, "id").Str? && At(j, "pubkey").Str? && At(j, "created_at").Num? && At(j, "kind").Num?
       && At(j, "content").Str? && At(j, "sig").Str? && tags.Some?
    then Some(EventData(At(j, "id").text, At(j, "pubkey").text, At(j, "created_at").number % U64,
                        At(j, "kind").number % U16, tags.value, At(j, "content").text, At(j, "sig").text))
    else None
  }

  /** `event::deserialize`: frames of other lengths than two and three are accepted unread. */
  function Deframe(j: Json): Option<Event> {
    if !j.Arr? || j.items == [] || j.items[0] != Str("EVENT") then None
    else if |j.items| == 2 then
      var data := FromJson(j.items[1]);
      if j.items[1].Obj? && data.Some? then Some(Event("", data.value)) else None
    else if |j.items| == 3 then
      var data := FromJson(j.items[2]);
      if j.items[1].Str? && j.items[2].Obj? && data.Some? then Some(Event(j.items[1].text, data.value)) else None
    else Some(Event("", EMPTY_DATA))
  }

  // ---------------------------------------------------------------- dispatch of received frames

  datatype Category = EncryptedMessage | BundleAnnouncement | IdentityAnnouncement | SessionRequest | NodeStatus | OtherKind

  datatype Inbound =
    | UnknownProtocol
    | Answer(reply: Requests.Reply)
    | Delivered(category: Category, data: EventData)

  function CategoryOf(kind: nat): Category {
    if kind == ENCRYPTED_MESSAGE then EncryptedMessage
    else if kind == 30078 then BundleAnnouncement
    else if kind == 40002 then IdentityAnnouncement
    else if kind == 40003 then SessionRequest
    else if kind == 40004 then NodeStatus
    else OtherKind
  }

  /** The kind, first as a 32-bit number, which truth values also convert to. */
  function KindNumber(j: Json): Option<nat> {
    match j
    case Num(n) => Some(n % U32)
    case Bool(b) => Some(if b then 1 else 0)
    case _ => None
  }

  /** The fields converted one by one; here the tags must be there. */
  function Convert(j: Json): Option<EventData> {
    var tags := At(j, "tags");
    if At(j, "id").Str? && At(j, "pubkey").Str? && At(j, "created_at").Num? && At(j, "kind").Num?
       && tags.Arr? && TagsOf(tags.items).Some? && At(j, "content").Str? && At(j, "sig").Str?
    then Some(EventData(At(j, "id").text, At(j, "pubkey").text, At(j, "created_at").number % U64,
                        At(j, "kind").number % U16, TagsOf(tags.items).value, At(j, "content").text,
                        At(j, "sig").text))
    else None
  }

  function OkOf(items: seq<Json>): Option<Requests.Reply> {
    if |items| >= 3 && items[0] == Str("OK") && items[1].Str? && items[2].Bool?
    then Some(Requests.Ok(items[1].text, items[2].truth, if |items| > 3 && items[3].Str? then items[3].text else ""))
    else None
  }

  function EoseOf(items: seq<Json>): Option<Requests.Reply> {
    if |items| >= 2 && items[0] == Str("EOSE") && items[1].Str? then Some(Requests.Eose(items[1].text)) else None
  }

  function AnswerOr(reply: Option<Requests.Reply>): Inbound {
    if reply.Some? then Answer(reply.value) else UnknownProtocol
  }

  /** A conversion that throws makes the frame one of an unknown protocol. */
  function EventOf(j: Json): Inbound {
    var kind, data := KindNumber(At(j, "kind")), Convert(j);
    if kind.None? || data.None? then UnknownProtocol else Delivered(CategoryOf(kind.value % U16), data.value)
  }

  function Dispatch(j: Json): Inbound {
    if !j.Arr? || j.items == [] || !j.items[0].Str? then UnknownProtocol
    else if j.items[0].text == "OK" then AnswerOr(OkOf(j.items))
    else if j.items[0].text == "EOSE" then AnswerOr(EoseOf(j.items))
    else if j.items[0].text == "EVENT" && |j.items| >= 3 then EventOf(j.items[2])
    else UnknownProtocol
  }

  // ---------------------------------------------------------------- round trips

  lemma {:induction false} TagRoundTrip(tag: seq<string>)
    ensures TagOf(TagJson(tag).items) == Some(tag)
  {
    if tag != [] {
      var init := tag[..|tag| - 1];
      TagRoundTrip(init);
      assert TagJson(tag).items[..|tag| - 1] == TagJson(init).items;
      assert init + [tag[|tag| - 1]] == tag;
    }
  }

  lemma {:induction false} TagsRoundTrip(tags: seq<seq<string>>)
    ensures TagsOf(TagsJson(tags).items) == Some(tags)
  {
    if tags != [] {
      var init, last := tags[..|tags| - 1], tags[|tags| - 1];
      TagsRoundTrip(init);
      TagRoundTrip(last);
      assert TagsJson(tags).items[..|tags| - 1] == TagsJson(init).items;
      assert init + [last] == tags;
    }
  }

  lemma {:induction false} FieldsOf(e: EventData)
    ensures var j := ToJson(e);
            && At(j, "id") == Str(e.id) && At(j, "pubkey") == Str(e.pubkey)
            && At(j, "created_at") == Num(e.createdAt) && At(j, "kind") == Num(e.kind)
            && At(j, "content") == Str(e.content) && At(j, "sig") == Str(e.sig)
            && At(j, "tags") == TagsJson(e.tags) && "tags" in j.fields
  {
    assert "kind"[0] != "tags"[0];
    assert |"id"| == 2 && |"pubkey"| == 6 && |"created_at"| == 10 && |"kind"| == 4 && |"content"| == 7 && |"sig"| == 3;
  }

  lemma {:induction false} DataRoundTrip(e: EventData)
    ensures FromJson(ToJson(e)) == Some(e) && Convert(ToJson(e)) == Some(e)
  {
    FieldsOf(e);
    TagsRoundTrip(e.tags);
  }

  /** Deserializing inverts serializing for every event: any tags, with and without subscription id. */
  lemma {:induction false} FrameRoundTrip(e: Event)
    ensures Deframe(Frame(e)) == Some(e)
  {
    DataRoundTrip(e.data);
  }

  /** Whatever is read comes from the field of its name; numbers wrap to 64 and 16 bits. */
  lemma {:induction false} FieldsAreRead(j: Json)
    requires FromJson(j).Some?
    ensures var e := FromJson(j).value;
            && At(j, "id") == Str(e.id) && At(j, "pubkey") == Str(e.pubkey)
            && At(j, "content") == Str(e.content) && At(j, "sig") == Str(e.sig)
            && At(j, "created_at").Num? && e.createdAt == At(j, "created_at").number % 0x1_0000_0000_0000_0000
            && At(j, "kind").Num? && e.kind == At(j, "kind").number % 0x1_0000
            && (j.Obj? && "tags" !in j.fields ==> e.tags == [])
  {
  }

  // ---------------------------------------------------------------- frames of the wrong length

  predicate IsEventFrame(items: seq<Json>, n: nat) { |items| == n && n >= 1 && items[0] == Str("EVENT") }

  /** What was accepted is the event in the last item, with the subscription id in front of it, if any. */
  predicate CarriesItsEvent(items: seq<Json>)
    requires items != [] && Deframe(Arr(items)).Some?
  {
    var data := FromJson(items[|items| - 1]);
    data.Some? && Deframe(Arr(items)).value == Event(if |items| == 3 && items[1].Str? then items[1].text else "", data.value)
  }

  /** The frame of n items that holds nothing after its label. */
  function Blank(n: nat): seq<Json>
    requires n >= 1
  {
    [Str("EVENT")] + seq(n - 1, _ => Null)
  }

  lemma {:induction false} BlankIsAccepted(n: nat)
    requires n >= 1 && n != 2 && n != 3
    ensures IsEventFrame(Blank(n), n) && Deframe(Arr(Blank(n))) == Some(Event("", EMPTY_DATA))
    ensures !CarriesItsEvent(Blank(n))
  {
    assert Blank(n)[n - 1] == if n == 1 then Str("EVENT") else Null;
  }

  /**
   * For every length: all accepted frames of n items carry the event in their last item if and only if
   * n is 2 or 3; for any other n every frame is accepted as the empty event.
   */
  lemma {:induction false} LengthDecidesExactly(n: nat)
    requires n >= 1
    ensures (forall items :: IsEventFrame(items, n) && Deframe(Arr(items)).Some? ==> CarriesItsEvent(items))
            <==> n == 2 || n == 3
    ensures n != 2 && n != 3 ==>
              forall items :: IsEventFrame(items, n) ==> Deframe(Arr(items)) == Some(Event("", EMPTY_DATA))
  {
    if n != 2 && n != 3 {
      BlankIsAccepted(n);
    }
  }

  // ---------------------------------------------------------------- through a relay

  /** A relay sends an event it was given to a subscriber, with the id of the subscription. */
  function Relayed(frame: Json, subscription: string): Json
    requires frame.Arr? && |frame.items| == 2
  {
    Arr([frame.items[0], Str(subscription), frame.items[1]])
  }

  /** The ciphertext the receiver hands to decryption. */
  function Ciphertext(frame: Json): Option<seq<Hex.Byte>> {
    var inbound := Dispatch(frame);
    if inbound.Delivered? && inbound.category.EncryptedMessage? then Hex.Decode(inbound.data.content) else None
  }

  lemma {:induction false} EventOfData(e: EventData)
    ensures EventOf(ToJson(e)) == Delivered(CategoryOf(e.kind), e)
  {
    DataRoundTrip(e);
    FieldsOf(e);
  }

  /** Any event, published and relayed, arrives unchanged and under its own kind. */
  lemma {:induction false} RelayedEventArrives(e: EventData, subscription: string)
    ensures Dispatch(Relayed(Frame(Event("", e)), subscription)) == Delivered(CategoryOf(e.kind), e)
  {
    EventOfData(e);
  }

  /** Each of the five kinds, by its number, reaches its own handler, and no other kind does. */
  lemma {:induction false} RelayedKindsWrittenOut(e: EventData, subscription: string)
    ensures var got := Dispatch(Relayed(Frame(Event("", e)), subscription));
            && got.Delivered? && got.data == e
            && (got.category == EncryptedMessage <==> e.kind == 40001)
            && (got.category == BundleAnnouncement <==> e.kind == 30078)
            && (got.category == IdentityAnnouncement <==> e.kind == 40002)
            && (got.category == SessionRequest <==> e.kind == 40003)
            && (got.category == NodeStatus <==> e.kind == 40004)
            && (got.category == OtherKind <==> e.kind !in {40001, 30078, 40002, 40003, 40004})
  {
    RelayedEventArrives(e, subscription);
  }

  /**
   * The announcement that a frame makes to the list of discovered bundles, with the outcomes of the version
   * check and of extracting the fingerprint; other frames make none.
   */
  function Heard(frame: Json, compatible: bool, rdx: Option<string>): Option<Bundles.Announcement> {
    var got := Dispatch(frame);
    if got.Delivered? && got.category.BundleAnnouncement?
    then Some(Bundles.Announcement(got.data.pubkey, got.data.content, got.data.id, compatible, rdx)) else None
  }

  method Hear(directory: Bundles.BundleDirectory, frame: Json, compatible: bool, rdx: Option<string>)
    modifies directory
    ensures var a := Heard(frame, compatible, rdx);
            directory.bundles == if a.Some? then Bundles.Announce(old(directory.bundles), a.value)
                                 else old(directory.bundles)
  {
    var a := Heard(frame, compatible, rdx);
    if a.Some? {
      directory.Handle(a.value);
    }
  }

  /**
   * A bundle published under kind 30078 and relayed is discovered under its author's key, with its content
   * and event id; an empty one removes the author's entry; other authors' entries stay; and no event of
   * another kind touches the list.
   */
  lemma {:induction false} RelayedBundleIsDiscovered(e: EventData, subscription: string, compatible: bool,
                                                     rdx: Option<string>, known: seq<Bundles.Bundle>, key: string)
    requires Bundles.OneEntryPerKey(known)
    ensures var a := Heard(Relayed(Frame(Event("", e)), subscription), compatible, rdx);
            && (a.Some? <==> e.kind == 30078)
            && (a.Some? ==>
                  var entry := Bundles.Lookup(Bundles.Announce(known, a.value), key);
                  if key != e.pubkey || !compatible || (e.content != "" && rdx.None?)
                  then entry == Bundles.Lookup(known, key)
                  else if e.content == "" then entry == None
                  else && entry.Some? && entry.value.rdx == rdx.value && entry.value.pubkey == e.pubkey
                       && entry.value.content == e.content && entry.value.eventId == e.id)
  {
    RelayedEventArrives(e, subscription);
    if e.kind == 30078 && compatible {
      var a := Bundles.Announcement(e.pubkey, e.content, e.id, compatible, rdx);
      if e.content == "" {
        Bundles.WithoutIsUpdate(known, e.pubkey, key);
      } else if rdx.Some? {
        Bundles.UpsertIsUpdate(known, Bundles.ToBundle(a), key);
      }
    }
  }

  /** For every ciphertext, what the receiver decodes from the relayed event is that ciphertext. */
  lemma {:induction false} CiphertextSurvives(e: EventData, bytes: seq<Hex.Byte>, subscription: string)
    requires e.kind == 40001 && e.content == Hex.Encode(bytes)
    ensures Ciphertext(Relayed(Frame(Event("", e)), subscription)) == Some(bytes)
  {
    RelayedEventArrives(e, subscription);
    Hex.DecodeUndoesEncode(bytes);
  }

  /**
   * The two decoders of a relayed event differ only on the tags, which dispatch insists on, and on the
   * subscription id and the length of the frame, which dispatch ignores.
   */
  lemma {:induction false} DecodersAgreeExactly(items: seq<Json>)
    requires |items| == 3 && items[0] == Str("EVENT") && items[1].Str?
    ensures var e := Deframe(Arr(items));
            Dispatch(Arr(items)) ==
            if e.Some? && "tags" in items[2].fields then Delivered(CategoryOf(e.value.data.kind), e.value.data)
            else UnknownProtocol
  {
    WrapTwice(items[2]);
  }

  lemma {:induction false} WrapTwice(j: Json)
    ensures At(j, "kind").Num? ==> At(j, "kind").number % U32 % U16 == At(j, "kind").number % U16
  {
  }

  // ---------------------------------------------------------------- replies

  /** The replies of a relay, by NIP-01. */
  function ReplyFrame(r: Requests.Reply): Json {
    match r
    case Ok(id, accepted, message) => Arr([Str("OK"), Str(id), Bool(accepted), Str(message)])
    case Eose(id) => Arr([Str("EOSE"), Str(id)])
  }

  /** An OK without a message counts as one with an empty message. */
  lemma {:induction false} ShortOkArrives(id: string, accepted: bool)
    ensures Dispatch(Arr([Str("OK"), Str(id), Bool(accepted)])) == Answer(Requests.Ok(id, accepted, ""))
  {
  }

  lemma {:induction false} ReplyArrives(r: Requests.Reply)
    ensures Dispatch(ReplyFrame(r)) == Answer(r)
  {
    assert "OK"[0] != "EOSE"[0];
  }

  /** The frame says OK, this id, and true. */
  predicate SaysAccepted(j: Json, id: string) {
    j.Arr? && |j.items| >= 3 && j.items[0] == Str("OK") && j.items[1] == Str(id) && j.items[2] == Bool(true)
  }

  lemma {:induction false} AcceptanceOnTheWire(j: Json, id: string, message: string)
    requires Dispatch(j) == Answer(Requests.Ok(id, true, message))
    ensures SaysAccepted(j, id)
  {
  }

  /**
   * No false acceptance, down to the wire: in a run whose replies were dispatched from received frames,
   * a send, publish or unpublish that reported acceptance did so after a frame ["OK", id, true, ...]
   * with its own id had come in while its timer was still running.
   */
  lemma {:induction false} AcceptanceNeedsFrame(steps: seq<Requests.Step>, received: seq<Json>, c: nat)
    requires |received| == |steps|
    requires forall i :: 0 <= i < |steps| && steps[i].Receive? ==> Dispatch(received[i]) == Answer(steps[i].reply)
    requires c < |Requests.Run(steps).coroutines|
    requires var co := Requests.Run(steps).coroutines[c];
             !co.command.Subscribe? && co.phase.Ended? && Requests.Positive(co.phase.reported)
    ensures exists i :: 0 <= i < |received| && SaysAccepted(received[i], Requests.Run(steps).coroutines[c].id)
                        && RequestRuns.WaitingBefore(steps, i, c)
  {
    var co := Requests.Run(steps).coroutines[c];
    RequestRuns.AcceptanceNeedsTimelyReply(steps, c);
    var r := co.answer.value;
    var i :| 0 <= i < |steps| && steps[i] == Requests.Receive(r) && RequestRuns.WaitingBefore(steps, i, c);
    AcceptanceOnTheWire(received[i], co.id, r.message);
  }

  // ---------------------------------------------------------------- the loops over tags

  method SerializeTags(tags: seq<seq<string>>) returns (j: Json)
    ensures j == TagsJson(tags)
  {
    var items: seq<Json> := [];
    for i := 0 to |tags|
      invariant items == TagsJson(tags).items[..i]
    {
      var inner: seq<Json> := [];
      for k := 0 to |tags[i]|
        invariant inner == TagJson(tags[i]).items[..k]
      {
        inner := inner + [Str(tags[i][k])];
      }
      assert inner == TagJson(tags[i]).items;
      items := items + [Arr(inner)];
    }
    j := Arr(items);
  }

  method DeserializeTag(items: seq<Json>) returns (tag: Option<seq<string>>)
    ensures tag == TagOf(items)
  {
    var texts: seq<string> := [];
    for k := 0 to |items|
      invariant TagOf(items[..k]) == Some(texts)
    {
      assert items[..k + 1][..k] == items[..k];
      if !items[k].Str? {
        TagFails(items, k + 1);
        return None;
      }
      texts := texts + [items[k].text];
    }
    assert items[..|items|] == items;
    tag := Some(texts);
  }

  lemma {:induction false} TagFails(items: seq<Json>, k: nat)
    requires k <= |items| && TagOf(items[..k]).None?
    ensures TagOf(items).None?
  {
    if k < |items| {
      assert items[..|items| - 1][..k] == items[..k];
      TagFails(items[..|items| - 1], k);
    } else {
      assert items[..k] == items;
    }
  }

  method DeserializeTags(items: seq<Json>) returns (tags: Option<seq<seq<string>>>)
    ensures tags == TagsOf(items)
  {
    var read: seq<seq<string>> := [];
    for k := 0 to |items|
      invariant TagsOf(items[..k]) == Some(read)
    {
      assert items[..k + 1][..k] == items[..k];
      if !items[k].Arr? {
        TagsFail(items, k + 1);
        return None;
      }
      var tag := DeserializeTag(items[k].items);
      if tag.None? {
        TagsFail(items, k + 1);
        return None;
      }
      read := read + [tag.value];
    }
    assert items[..|items|] == items;
    tags := Some(read);
  }

  lemma {:induction false} TagsFail(items: seq<Json>, k: nat)
    requires k <= |items| && TagsOf(items[..k]).None?
    ensures TagsOf(items).None?
  {
    if k < |items| {
      assert items[..|items| - 1][..k] == items[..k];
      TagsFail(items[..|items| - 1], k);
    } else {
      assert items[..k] == items;
    }
  }

  // ---------------------------------------------------------------- whole events, as the loops build them

  method Serialize(e: Event) returns (j: Json)
    ensures j == Frame(e)
  {
    var d := e.data;
    var tags := SerializeTags(d.tags);
    var data := Obj(map["id" := Str(d.id), "pubkey" := Str(d.pubkey), "created_at" := Num(d.createdAt),
                        "kind" := Num(d.kind), "content" := Str(d.content), "sig" := Str(d.sig), "tags" := tags]);
    var items := [Str("EVENT")];
    if e.subscriptionId != "" {
      items := items + [Str(e.subscriptionId)];
    }
    items := items + [data];
    j := Arr(items);
  }

  method DeserializeData(j: Json) returns (data: Option<EventData>)
    ensures data == FromJson(j)
  {
    if !(At(j, "id").Str? && At(j, "pubkey").Str? && At(j, "created_at").Num? && At(j, "kind").Num?
         && At(j, "content").Str? && At(j, "sig").Str?) {
      return None;
    }
    var tags: Option<seq<seq<string>>> := Some([]);
    if j.Obj? && "tags" in j.fields {
      if !At(j, "tags").Arr? {
        return None;
      }
      tags := DeserializeTags(At(j, "tags").items);
    }
    if tags.None? {
      return None;
    }
    data := Some(EventData(At(j, "id").text, At(j, "pubkey").text, At(j, "created_at").number % U64,
                           At(j, "kind").number % U16, tags.value, At(j, "content").text, At(j, "sig").text));
  }

  /** What the loops of one side write, the loops of the other side read. */
  method SendAndReceive(e: Event) returns (data: Option<EventData>)
    ensures data == Some(e.data)
  {
    var j := Serialize(e);
    data := DeserializeData(j.items[|j.items| - 1]);
    DataRoundTrip(e.data);
  }
}
