/** Newest-first pages of a conversation, and the history as a mutable object. */
module HistoryPages {
  import opened History
  import opened HistoryRuns
  import opened UnreadCounter

  // ---------------------------------------------------------------- ORDER BY timestamp DESC

  /** Put a message behind all that are not older. */
  function Place(sorted: seq<Message>, m: Message): seq<Message> {
    if sorted == [] || sorted[|sorted| - 1].entry.timestamp >= m.entry.timestamp then sorted + [m]
    else Place(sorted[..|sorted| - 1], m) + [sorted[|sorted| - 1]]
  }

  function NewestFirst(messages: seq<Message>): seq<Message> {
    if messages == [] then [] else Place(NewestFirst(messages[..|messages| - 1]), messages[|messages| - 1])
  }

  ghost predicate Descending(s: seq<Message>) {
    forall i, j :: 0 <= i < j < |s| ==> s[i].entry.timestamp >= s[j].entry.timestamp
  }

  lemma {:induction false} PlaceAddsOne(sorted: seq<Message>, m: Message)
    ensures multiset(Place(sorted, m)) == multiset(sorted) + multiset{m}
  {
    if sorted != [] && sorted[|sorted| - 1].entry.timestamp < m.entry.timestamp {
      PlaceAddsOne(sorted[..|sorted| - 1], m);
      assert sorted == sorted[..|sorted| - 1] + [sorted[|sorted| - 1]];
    }
  }

  ghost predicate NotOlderThan(s: seq<Message>, timestamp: nat) {
    forall i :: 0 <= i < |s| ==> s[i].entry.timestamp >= timestamp
  }

  lemma {:induction false} PlaceKeepsOrder(sorted: seq<Message>, m: Message, floor: nat)
    requires Descending(sorted)
    ensures Descending(Place(sorted, m))
    ensures NotOlderThan(sorted, floor) && m.entry.timestamp >= floor ==> NotOlderThan(Place(sorted, m), floor)
  {
    if sorted != [] && sorted[|sorted| - 1].entry.timestamp < m.entry.timestamp {
      var init, last := sorted[..|sorted| - 1], sorted[|sorted| - 1];
      PlaceKeepsOrder(init, m, floor);
      PlaceKeepsOrder(init, m, last.entry.timestamp);
      assert NotOlderThan(init, last.entry.timestamp);
    }
  }

  lemma {:induction false} NewestFirstPermutes(messages: seq<Message>)
    ensures multiset(NewestFirst(messages)) == multiset(messages)
  {
    if messages != [] {
      var init, last := messages[..|messages| - 1], messages[|messages| - 1];
      NewestFirstPermutes(init);
      PlaceAddsOne(NewestFirst(init), last);
      assert messages == init + [last];
    }
  }

  lemma {:induction false} NewestFirstSorts(messages: seq<Message>)
    ensures Descending(NewestFirst(messages))
  {
    if messages != [] {
      NewestFirstSorts(messages[..|messages| - 1]);
      PlaceKeepsOrder(NewestFirst(messages[..|messages| - 1]), messages[|messages| - 1], 0);
    }
  }

  // ---------------------------------------------------------------- LIMIT and OFFSET

  function Slice(s: seq<Message>, limit: nat, offset: nat): seq<Message> {
    if offset >= |s| then []
    else if offset + limit >= |s| then s[offset..]
    else s[offset..offset + limit]
  }

  /** `get_conversation_messages`; an unknown contact has an empty history. */
  function Page(db: Db, contact: string, limit: nat, offset: nat): seq<Message> {
    Slice(NewestFirst(MessagesOf(db, contact)), limit, offset)
  }

  /** The first n pages one after the other. */
  function Pages(db: Db, contact: string, limit: nat, n: nat): seq<Message> {
    if n == 0 then [] else Pages(db, contact, limit, n - 1) + Page(db, contact, limit, (n - 1) * limit)
  }

  function UpTo(s: seq<Message>, n: nat): seq<Message> { if n <= |s| then s[..n] else s }

  lemma {:induction false} SliceExtends(all: seq<Message>, limit: nat, offset: nat)
    ensures UpTo(all, offset) + Slice(all, limit, offset) == UpTo(all, offset + limit)
  {
  }

  lemma {:induction false} OnePageMore(n: nat, limit: nat)
    requires n > 0
    ensures (n - 1) * limit + limit == n * limit
  {
  }

  lemma {:induction false} PagesArePrefix(db: Db, contact: string, limit: nat, n: nat, all: seq<Message>)
    requires all == NewestFirst(MessagesOf(db, contact))
    ensures Pages(db, contact, limit, n) == UpTo(all, n * limit)
  {
    if n == 0 {
      assert UpTo(all, 0) == [];
    } else {
      PagesArePrefix(db, contact, limit, n - 1, all);
      OnePageMore(n, limit);
      SliceExtends(all, limit, (n - 1) * limit);
    }
  }

  /** Enough pages give the whole conversation, sorted. */
  lemma {:induction false} PagesAreAll(db: Db, contact: string, limit: nat, n: nat)
    requires n * limit >= |MessagesOf(db, contact)|
    ensures Pages(db, contact, limit, n) == NewestFirst(MessagesOf(db, contact))
  {
    var ms := MessagesOf(db, contact);
    var all := NewestFirst(ms);
    PagesArePrefix(db, contact, limit, n, all);
    assert |all| == |ms| by {
      NewestFirstPermutes(ms);
      assert |multiset(all)| == |multiset(ms)|;
    }
  }

  /**
   * Pagination partitions history: for every limit of at least one, enough pages contain each of
   * the conversation's messages exactly once, newest first.
   */
  lemma {:induction false} PaginationPartitions(ops: seq<Op>, contact: string, limit: nat, n: nat)
    requires limit >= 1 && n * limit >= |MessagesOf(After(ops), contact)|
    ensures var all := Pages(After(ops), contact, limit, n);
            && multiset(all) == multiset(MessagesOf(After(ops), contact))
            && (forall i, j :: 0 <= i < j < |all| ==>
                  all[i].entry.timestamp >= all[j].entry.timestamp && all[i].entry.id != all[j].entry.id)
  {
    var db := After(ops);
    var ms := MessagesOf(db, contact);
    var all := Pages(db, contact, limit, n);
    NewestFirstSorts(ms);
    NewestFirstPermutes(ms);
    PagesAreAll(db, contact, limit, n);
    EveryRunIsValid(ops);
    if Known(db, contact) {
      SelectAscends(db.messages, InConversation(db.conversations[contact].id));
    }
    AscendingIdsDiffer(ms, all);
  }

  lemma {:induction false} AscendingIdsDiffer(ms: seq<Message>, all: seq<Message>)
    requires IdsAscend(ms) && multiset(all) == multiset(ms)
    ensures forall i, j :: 0 <= i < j < |all| ==> all[i].entry.id != all[j].entry.id
  {
    forall i, j | 0 <= i < j < |all| ensures all[i].entry.id != all[j].entry.id {
      assert all[i] in multiset(ms) && all[j] in multiset(ms);
      var p :| 0 <= p < |ms| && ms[p] == all[i];
      var q :| 0 <= q < |ms| && ms[q] == all[j];
      if p == q {
        TwiceMeansTwo(all, i, j);
        AtMostOnce(ms, p);
        assert false;
      }
    }
  }

  lemma {:induction false} TwiceMeansTwo(s: seq<Message>, i: nat, j: nat)
    requires i < j < |s| && s[i] == s[j]
    ensures multiset(s)[s[i]] >= 2
  {
    assert s == s[..i] + [s[i]] + s[i + 1..j] + [s[j]] + s[j + 1..];
  }

  lemma {:induction false} AtMostOnce(s: seq<Message>, i: nat)
    requires IdsAscend(s) && i < |s|
    ensures multiset(s)[s[i]] == 1
  {
    assert s == s[..i] + [s[i]] + s[i + 1..];
    assert s[i] !in s[..i] && s[i] !in s[i + 1..];
  }

  lemma {:induction false} PageDescends(db: Db, contact: string, limit: nat, i: nat, j: nat)
    requires i <= j < |Page(db, contact, limit, 0)|
    ensures var page := Page(db, contact, limit, 0); page[i].entry.timestamp >= page[j].entry.timestamp
  {
    var all := NewestFirst(MessagesOf(db, contact));
    NewestFirstSorts(MessagesOf(db, contact));
    SliceAt(all, limit, i);
    SliceAt(all, limit, j);
  }

  lemma {:induction false} SliceAt(all: seq<Message>, limit: nat, i: nat)
    requires i < |Slice(all, limit, 0)|
    ensures i < |all| && Slice(all, limit, 0)[i] == all[i]
  {
  }

  lemma {:induction false} EntryOf(messages: seq<Message>, m: Message)
    requires m in messages
    ensures m.entry in Entries(messages)
  {
    var init, last := messages[..|messages| - 1], messages[|messages| - 1];
    assert messages == init + [last];
    if m != last {
      EntryOf(init, m);
    }
  }

  /** What a page holds is in the contact's log. */
  lemma {:induction false} PageIsStored(ops: seq<Op>, contact: string, limit: nat, i: nat)
    requires i < |Page(After(ops), contact, limit, 0)|
    ensures Page(After(ops), contact, limit, 0)[i].entry in LogOf(ops, contact)
  {
    var ms := MessagesOf(After(ops), contact);
    var m := Page(After(ops), contact, limit, 0)[i];
    NewestFirstPermutes(ms);
    SliceAt(NewestFirst(ms), limit, i);
    assert m in multiset(NewestFirst(ms)) && m in ms;
    EntryOf(ms, m);
    ConversationIsItsOwnLog(ops, contact);
  }

  // ---------------------------------------------------------------- the race, as the chat handler runs it

  lemma {:induction false} NewestStampIsMax(messages: seq<Message>)
    ensures forall m :: m in messages ==> m.entry.timestamp <= NewestStamp(Entries(messages))
    ensures messages != [] ==> exists m :: m in messages && m.entry.timestamp == NewestStamp(Entries(messages))
  {
    if messages != [] {
      var init, last := messages[..|messages| - 1], messages[|messages| - 1];
      NewestStampIsMax(init);
      assert messages == init + [last];
      assert (Entries(init) + [last.entry])[..|Entries(init)|] == Entries(init);
      if NewestStamp(Entries(messages)) == last.entry.timestamp {
        assert last in messages;
      } else {
        assert init == [] ==> NewestStamp(Entries(init)) == -1;
        var m :| m in init && m.entry.timestamp == NewestStamp(Entries(init));
        assert m in messages;
      }
    }
  }

  /** The first message of a non-empty page at offset 0 carries the newest stored timestamp. */
  lemma {:induction false} FirstOfPageIsNewest(db: Db, contact: string, limit: nat)
    requires Page(db, contact, limit, 0) != []
    ensures Page(db, contact, limit, 0)[0].entry.timestamp == NewestStamp(Entries(MessagesOf(db, contact)))
  {
    var ms := MessagesOf(db, contact);
    var all := NewestFirst(ms);
    NewestFirstSorts(ms);
    NewestFirstPermutes(ms);
    NewestStampIsMax(ms);
    assert all[0] in multiset(all) && all[0] in ms;
    var m :| m in ms && m.entry.timestamp == NewestStamp(Entries(ms));
    assert m in multiset(all);
    var i :| 0 <= i < |all| && all[i] == m;
  }

  /**
   * Opening a chat loses no unread message: load a page, let any messages arrive meanwhile, mark the
   * conversation read up to the page's first message; exactly the arrivals stamped above that message
   * are unread, whatever the history and the page limit.
   */
  lemma {:induction false} NoLostUnread(ops: seq<Op>, contact: string, limit: nat, arrivals: seq<Op>)
    requires Arrivals(arrivals)
    ensures Page(After(ops), contact, limit, 0) != [] ==>
              var newest := Page(After(ops), contact, limit, 0)[0].entry.timestamp;
              UnreadOf(Execute(After(ops + arrivals), MarkReadUpTo(contact, newest)), contact) ==
              ReceivedAbove(arrivals, contact, newest)
  {
    if Page(After(ops), contact, limit, 0) != [] {
      FirstOfPageIsNewest(After(ops), contact, limit);
      ConversationIsItsOwnLog(ops, contact);
      OpenChatRace(ops, contact, Page(After(ops), contact, limit, 0)[0].entry.timestamp, arrivals);
    }
  }

  // ---------------------------------------------------------------- the tables, in place

  const U32_LIMIT := 0x1_0000_0000

  class MessageHistory {
    var conversations: map<string, Conversation>
    var messages: seq<Message>
    var nextConversation: nat
    var nextMessage: nat

    ghost function Tables(): Db
      reads this
    {
      Db(conversations, messages, nextConversation, nextMessage)
    }

    constructor ()
      ensures Tables() == After([])
    {
      conversations, messages, nextConversation, nextMessage := map[], [], 1, 1;
    }

    method GetOrCreateConversation(contact: string) returns (id: nat)
      modifies this`conversations, this`nextConversation
      ensures Tables() == GetOrCreate(old(Tables()), contact)
      ensures id == conversations[contact].id
    {
      if contact !in conversations {
        conversations := conversations[contact := Conversation(nextConversation, 0, 0)];
        nextConversation := nextConversation + 1;
      }
      id := conversations[contact].id;
    }

    method Insert(conversation: nat, entry: Entry)
      modifies this`messages, this`nextMessage
      ensures messages == old(messages) + [Message(conversation, entry)] && nextMessage == old(nextMessage) + 1
    {
      messages := messages + [Message(conversation, entry)];
      nextMessage := nextMessage + 1;
    }

    method UpdateConversation(contact: string, timestamp: nat, incrementUnread: bool)
      requires contact in conversations
      modifies this`conversations
      ensures conversations == old(conversations)[contact := old(conversations[contact]).(
                lastTimestamp := timestamp,
                unread := old(conversations[contact].unread) + if incrementUnread then 1 else 0)]
    {
      var row := conversations[contact].(lastTimestamp := timestamp);
      if incrementUnread {
        row := row.(unread := row.unread + 1);
      }
      conversations := conversations[contact := row];
    }

    method StoreIncoming(contact: string, timestamp: nat, content: string, wasPreKey: bool, established: bool)
      returns (id: nat)
      modifies this
      ensures Tables() == Execute(old(Tables()), Receive(contact, timestamp, content, wasPreKey, established))
      ensures id == old(nextMessage)
    {
      id := nextMessage;
      var conversation := GetOrCreateConversation(contact);
      Insert(conversation, Entry(id, Incoming, timestamp, content, Pending, wasPreKey, established));
      UpdateConversation(contact, timestamp, true);
    }

    method StoreOutgoing(contact: string, timestamp: nat, content: string) returns (id: nat)
      modifies this
      ensures Tables() == Execute(old(Tables()), Op.Send(contact, timestamp, content))
      ensures id == old(nextMessage)
    {
      id := nextMessage;
      var conversation := GetOrCreateConversation(contact);
      Insert(conversation, Entry(id, Outgoing, timestamp, content, Pending, false, false));
      UpdateConversation(contact, timestamp, false);
    }

    method UpdateDeliveryStatus(id: nat, status: DeliveryStatus)
      modifies this`messages
      ensures Tables() == Execute(old(Tables()), UpdateStatus(id, status))
    {
      messages := SetStatus(messages, id, status);
    }

    method GetUnreadCount(contact: string) returns (count: nat)
      ensures count == UnreadOf(Tables(), contact) % U32_LIMIT
    {
      count := if contact in conversations then conversations[contact].unread % U32_LIMIT else 0;
    }

    method MarkConversationRead(contact: string)
      modifies this`conversations
      ensures Tables() == Execute(old(Tables()), MarkRead(contact))
    {
      if contact in conversations {
        conversations := conversations[contact := conversations[contact].(unread := 0)];
      }
    }

    method MarkConversationReadUpTo(contact: string, upTo: nat) returns (ok: bool)
      modifies this`conversations
      ensures Tables() == Execute(old(Tables()), MarkReadUpTo(contact, upTo))
      ensures ok == Known(old(Tables()), contact)
    {
      if contact !in conversations {
        return false;
      }
      var row := conversations[contact];
      var unread := |Select(messages, UnreadAbove(row.id, upTo))|;
      conversations := conversations[contact := row.(unread := unread)];
      ok := true;
    }

    method Delete(id: nat)
      modifies this`messages
      ensures Tables() == Execute(old(Tables()), DeleteMessage(id))
    {
      messages := Select(messages, NotId(id));
    }

    method DeleteThread(contact: string)
      modifies this`conversations, this`messages
      ensures Tables() == Execute(old(Tables()), DeleteConversation(contact))
    {
      if contact in conversations {
        messages := Select(messages, NotInConversation(conversations[contact].id));
        conversations := conversations - {contact};
      }
    }

    method Perform(op: Op)
      modifies this
      ensures Tables() == Execute(old(Tables()), op)
    {
      match op
      case Receive(contact, t, content, pre, est) => var _ := StoreIncoming(contact, t, content, pre, est);
      case Send(contact, t, content) => var _ := StoreOutgoing(contact, t, content);
      case MarkRead(contact) => MarkConversationRead(contact);
      case MarkReadUpTo(contact, t) => var _ := MarkConversationReadUpTo(contact, t);
      case DeleteMessage(id) => Delete(id);
      case DeleteConversation(contact) => DeleteThread(contact);
      case UpdateStatus(id, status) => UpdateDeliveryStatus(id, status);
    }
  }

  /** Every sequence of operations takes the mutable tables through the run that the theorems speak of. */
  method Drive(ops: seq<Op>) returns (h: MessageHistory)
    ensures fresh(h) && h.Tables() == After(ops)
  {
    h := new MessageHistory();
    for i := 0 to |ops|
      invariant fresh(h) && h.Tables() == After(ops[..i])
    {
      assert ops[..i + 1][..i] == ops[..i];
      h.Perform(ops[i]);
    }
    assert ops[..|ops|] == ops;
  }
}
