/**
 * Message history: the conversations table, with its denormalised unread counter, and the messages
 * table.  The conversations table is a map from the fingerprint, which the schema declares unique;
 * messages stand in rowid order; both tables draw ids from AUTOINCREMENT counters.
 */
module History {

  datatype Direction = Incoming | Outgoing
  datatype DeliveryStatus = Pending | Sent | Delivered | Failed

  /** What the user stored; a row of the messages table without the conversation it hangs on. */
  datatype Entry = Entry(id: nat, direction: Direction, timestamp: nat, content: string,
                         status: DeliveryStatus, wasPreKey: bool, established: bool)

  datatype Message = Message(conversation: nat, entry: Entry)

  datatype Conversation = Conversation(id: nat, lastTimestamp: nat, unread: nat)

  datatype Db = Db(conversations: map<string, Conversation>, messages: seq<Message>,
                   nextConversation: nat, nextMessage: nat)

  const EMPTY_DB := Db(map[], [], 1, 1)

  // ---------------------------------------------------------------- queries

  /** The WHERE clauses of the queries on messages. */
  datatype Where =
    | InConversation(conversation: nat)
    | NotInConversation(conversation: nat)
    | NotId(id: nat)
    | UnreadAbove(conversation: nat, above: int)

  predicate Holds(w: Where, m: Message) {
    match w
    case InConversation(c) => m.conversation == c
    case NotInConversation(c) => m.conversation != c
    case NotId(id) => m.entry.id != id
    case UnreadAbove(c, t) => m.conversation == c && m.entry.direction.Incoming? && m.entry.timestamp > t
  }

  function Select(messages: seq<Message>, w: Where): seq<Message> {
    if messages == [] then []
    else
      var last := messages[|messages| - 1];
      Select(messages[..|messages| - 1], w) + if Holds(w, last) then [last] else []
  }

  predicate Known(db: Db, contact: string) { contact in db.conversations }

  /** A contact's messages in the order in which they were stored. */
  function MessagesOf(db: Db, contact: string): seq<Message> {
    if Known(db, contact) then Select(db.messages, InConversation(db.conversations[contact].id)) else []
  }

  function UnreadOf(db: Db, contact: string): nat {
    if Known(db, contact) then db.conversations[contact].unread else 0
  }

  // ---------------------------------------------------------------- operations

  function GetOrCreate(db: Db, contact: string): (r: Db)
    ensures Known(r, contact)
  {
    if Known(db, contact) then db
    else db.(conversations := db.conversations[contact := Conversation(db.nextConversation, 0, 0)],
             nextConversation := db.nextConversation + 1)
  }

  function WithUnread(db: Db, contact: string, unread: nat): Db
    requires Known(db, contact)
  {
    db.(conversations := db.conversations[contact := db.conversations[contact].(unread := unread)])
  }

  /** Insert the message, then set the conversation's timestamp and bump its counter. */
  function StoreMessage(db: Db, contact: string, entry: Entry): Db {
    var d := GetOrCreate(db, contact);
    var row := d.conversations[contact];
    var bumped := row.(lastTimestamp := entry.timestamp,
                       unread := row.unread + if entry.direction.Incoming? then 1 else 0);
    d.(conversations := d.conversations[contact := bumped],
       messages := d.messages + [Message(row.id, entry)],
       nextMessage := d.nextMessage + 1)
  }

  datatype Op =
    | Receive(contact: string, timestamp: nat, content: string, wasPreKey: bool, established: bool)
    | Send(contact: string, timestamp: nat, content: string)
    | MarkRead(contact: string)
    | MarkReadUpTo(contact: string, upTo: nat)
    | DeleteMessage(id: nat)
    | DeleteConversation(contact: string)
    | UpdateStatus(id: nat, status: DeliveryStatus)

  function NewEntry(id: nat, op: Op): Entry
    requires op.Receive? || op.Send?
  {
    match op
    case Receive(_, t, content, pre, est) => Entry(id, Incoming, t, content, Pending, pre, est)
    case Send(_, t, content) => Entry(id, Outgoing, t, content, Pending, false, false)
  }

  function SetStatus(messages: seq<Message>, id: nat, status: DeliveryStatus): seq<Message> {
    if messages == [] then []
    else
      var last := messages[|messages| - 1];
      SetStatus(messages[..|messages| - 1], id, status)
      + [if last.entry.id == id then last.(entry := last.entry.(status := status)) else last]
  }

  /** An operation that returns an error changes nothing: MarkReadUpTo of an unknown contact. */
  function Execute(db: Db, op: Op): Db {
    match op
    case Receive(contact, _, _, _, _) => StoreMessage(db, contact, NewEntry(db.nextMessage, op))
    case Send(contact, _, _) => StoreMessage(db, contact, NewEntry(db.nextMessage, op))
    case MarkRead(contact) =>
      if Known(db, contact) then WithUnread(db, contact, 0) else db
    case MarkReadUpTo(contact, t) =>
      if Known(db, contact)
      then WithUnread(db, contact, |Select(db.messages, UnreadAbove(db.conversations[contact].id, t))|)
      else db
    case DeleteMessage(id) => db.(messages := Select(db.messages, NotId(id)))
    case DeleteConversation(contact) =>
      if Known(db, contact) then
        db.(messages := Select(db.messages, NotInConversation(db.conversations[contact].id)),
            conversations := db.conversations - {contact})
      else db
    case UpdateStatus(id, status) => db.(messages := SetStatus(db.messages, id, status))
  }

  function After(ops: seq<Op>): Db {
    if ops == [] then EMPTY_DB else Execute(After(ops[..|ops| - 1]), ops[|ops| - 1])
  }

  // ---------------------------------------------------------------- integrity

  ghost predicate RowsDistinct(db: Db) {
    && (forall c :: c in db.conversations ==> db.conversations[c].id < db.nextConversation)
    && (forall c, d :: c in db.conversations && d in db.conversations && c != d ==>
          db.conversations[c].id != db.conversations[d].id)
  }

  ghost predicate HasRow(db: Db, conversation: nat) {
    exists c :: c in db.conversations && db.conversations[c].id == conversation
  }

  ghost predicate NoOrphans(db: Db) {
    forall m :: m in db.messages ==> HasRow(db, m.conversation)
  }

  ghost predicate IdsAscend(messages: seq<Message>) {
    forall i, j :: 0 <= i < j < |messages| ==> messages[i].entry.id < messages[j].entry.id
  }

  ghost predicate IdsIssuedOnce(db: Db) {
    && (forall i :: 0 <= i < |db.messages| ==> db.messages[i].entry.id < db.nextMessage)
    && IdsAscend(db.messages)
  }

  ghost predicate Valid(db: Db) { RowsDistinct(db) && NoOrphans(db) && IdsIssuedOnce(db) }

  // ---------------------------------------------------------------- facts about Select

  lemma {:induction false} SelectMembers(messages: seq<Message>, w: Where)
    ensures forall m :: m in Select(messages, w) <==> m in messages && Holds(w, m)
  {
    if messages != [] {
      SelectMembers(messages[..|messages| - 1], w);
      assert messages == messages[..|messages| - 1] + [messages[|messages| - 1]];
    }
  }

  lemma {:induction false} SelectAppend(messages: seq<Message>, m: Message, w: Where)
    ensures Select(messages + [m], w) == Select(messages, w) + if Holds(w, m) then [m] else []
  {
    assert (messages + [m])[..|messages + [m]| - 1] == messages;
  }

  lemma {:induction false} SelectNone(messages: seq<Message>, w: Where)
    requires forall m :: m in messages ==> !Holds(w, m)
    ensures Select(messages, w) == []
  {
    if messages != [] {
      assert messages[|messages| - 1] in messages;
      assert forall m :: m in messages[..|messages| - 1] ==> m in messages;
      SelectNone(messages[..|messages| - 1], w);
    }
  }

  /** Deleting rows that a query would not return does not change its answer. */
  lemma {:induction false} SelectThrough(messages: seq<Message>, kept: Where, w: Where)
    requires forall m :: m in messages && Holds(w, m) ==> Holds(kept, m)
    ensures Select(Select(messages, kept), w) == Select(messages, w)
  {
    if messages != [] {
      var init, last := messages[..|messages| - 1], messages[|messages| - 1];
      assert last in messages && forall m :: m in init ==> m in messages;
      SelectThrough(init, kept, w);
      if Holds(kept, last) {
        SelectAppend(Select(init, kept), last, w);
      } else {
        assert Select(messages, kept) == Select(init, kept);
      }
    }
  }

  /** Two conditions can be applied in either order. */
  lemma {:induction false} SelectCommutes(messages: seq<Message>, a: Where, b: Where)
    ensures Select(Select(messages, a), b) == Select(Select(messages, b), a)
  {
    if messages != [] {
      var init, last := messages[..|messages| - 1], messages[|messages| - 1];
      SelectCommutes(init, a, b);
      SelectAppend(Select(init, a), last, b);
      SelectAppend(Select(init, b), last, a);
      assert Select(init, a) + [] == Select(init, a) && Select(init, b) + [] == Select(init, b);
    }
  }

  lemma {:induction false} SelectAscends(messages: seq<Message>, w: Where)
    requires IdsAscend(messages)
    ensures IdsAscend(Select(messages, w))
  {
    if messages != [] {
      var init, last := messages[..|messages| - 1], messages[|messages| - 1];
      SelectAscends(init, w);
      SelectMembers(init, w);
      forall m | m in init ensures m.entry.id < last.entry.id {
        var k :| 0 <= k < |init| && init[k] == m;
        assert messages[k] == init[k];
      }
      var s, r := Select(init, w), Select(messages, w);
      assert r == if Holds(w, last) then s + [last] else s;
      assert forall i :: 0 <= i < |s| ==> s[i] in s && r[i] == s[i];
    }
  }

  lemma {:induction false} SetStatusMeaning(messages: seq<Message>, id: nat, status: DeliveryStatus)
    ensures var r := SetStatus(messages, id, status);
            && |r| == |messages|
            && forall i :: 0 <= i < |r| ==>
                 && r[i].conversation == messages[i].conversation
                 && r[i].entry == if messages[i].entry.id == id then messages[i].entry.(status := status)
                                  else messages[i].entry
  {
    if messages != [] {
      SetStatusMeaning(messages[..|messages| - 1], id, status);
    }
  }

  lemma {:induction false} SelectSetStatus(messages: seq<Message>, id: nat, status: DeliveryStatus, w: Where)
    ensures Select(SetStatus(messages, id, status), w) == SetStatus(Select(messages, w), id, status)
  {
    if messages != [] {
      var init, last := messages[..|messages| - 1], messages[|messages| - 1];
      SelectSetStatus(init, id, status, w);
      var new_ := if last.entry.id == id then last.(entry := last.entry.(status := status)) else last;
      assert Holds(w, new_) == Holds(w, last);
      SelectAppend(SetStatus(init, id, status), new_, w);
      if Holds(w, last) {
        assert (Select(init, w) + [last])[..|Select(init, w) + [last]| - 1] == Select(init, w);
      } else {
        assert Select(messages, w) == Select(init, w);
      }
    }
  }
}
