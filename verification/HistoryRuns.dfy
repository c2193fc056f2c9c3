/** What holds of the message history over whole runs of its operations. */
module HistoryRuns {
  import opened Options
  import opened History

  // ---------------------------------------------------------------- integrity of every run

  lemma {:induction false} RowsPersist(a: Db, b: Db)
    requires NoOrphans(a) && b.messages == a.messages
    requires forall c :: c in a.conversations ==> c in b.conversations && b.conversations[c].id == a.conversations[c].id
    ensures NoOrphans(b)
  {
    forall m | m in b.messages ensures HasRow(b, m.conversation) {
      var c :| c in a.conversations && a.conversations[c].id == m.conversation;
      assert b.conversations[c].id == m.conversation;
    }
  }

  lemma {:induction false} StoreKeepsRows(db: Db, contact: string, entry: Entry)
    requires RowsDistinct(db) && NoOrphans(db)
    ensures RowsDistinct(StoreMessage(db, contact, entry)) && NoOrphans(StoreMessage(db, contact, entry))
  {
    var t := StoreMessage(db, contact, entry);
    RowsPersist(db, t.(messages := db.messages));
    forall m | m in t.messages ensures HasRow(t, m.conversation) {
      if m in db.messages {
        assert HasRow(t.(messages := db.messages), m.conversation);
      } else {
        assert t.conversations[contact].id == m.conversation;
      }
    }
  }

  lemma {:induction false} StoreKeepsValid(db: Db, contact: string, entry: Entry)
    requires Valid(db) && entry.id == db.nextMessage
    ensures Valid(StoreMessage(db, contact, entry))
  {
    StoreKeepsRows(db, contact, entry);
    assert IdsIssuedOnce(StoreMessage(db, contact, entry));
  }

  lemma {:induction false} WithUnreadKeepsValid(db: Db, contact: string, unread: nat)
    requires Valid(db) && Known(db, contact)
    ensures Valid(WithUnread(db, contact, unread))
  {
    RowsPersist(db, WithUnread(db, contact, unread));
  }

  lemma {:induction false} SelectKeepsIds(db: Db, w: Where)
    requires Valid(db)
    ensures Valid(db.(messages := Select(db.messages, w)))
  {
    var t := db.(messages := Select(db.messages, w));
    SelectMembers(db.messages, w);
    SelectAscends(db.messages, w);
    forall i | 0 <= i < |t.messages| ensures t.messages[i].entry.id < t.nextMessage {
      assert t.messages[i] in t.messages;
    }
    forall m | m in t.messages ensures HasRow(t, m.conversation) {
      assert HasRow(db, m.conversation);
    }
  }

  lemma {:induction false} DeleteConversationKeepsValid(db: Db, contact: string)
    requires Valid(db)
    ensures Valid(Execute(db, DeleteConversation(contact)))
  {
    if Known(db, contact) {
      var t, w := Execute(db, DeleteConversation(contact)), NotInConversation(db.conversations[contact].id);
      SelectKeepsIds(db, w);
      SelectMembers(db.messages, w);
      forall m | m in t.messages ensures HasRow(t, m.conversation) {
        var c :| c in db.conversations && db.conversations[c].id == m.conversation;
        assert c in t.conversations;
      }
    }
  }

  lemma {:induction false} StatusKeepsRows(db: Db, id: nat, status: DeliveryStatus)
    requires NoOrphans(db)
    ensures NoOrphans(db.(messages := SetStatus(db.messages, id, status)))
  {
    SetStatusMeaning(db.messages, id, status);
    var t := db.(messages := SetStatus(db.messages, id, status));
    forall m | m in t.messages ensures HasRow(t, m.conversation) {
      var i :| 0 <= i < |t.messages| && t.messages[i] == m;
      assert db.messages[i] in db.messages && HasRow(db, m.conversation);
    }
  }

  lemma {:induction false} StatusKeepsValid(db: Db, id: nat, status: DeliveryStatus)
    requires Valid(db)
    ensures Valid(Execute(db, UpdateStatus(id, status)))
  {
    StatusKeepsRows(db, id, status);
    assert IdsIssuedOnce(Execute(db, UpdateStatus(id, status))) by {
      SetStatusMeaning(db.messages, id, status);
    }
  }

  /** Fingerprints stay unique, ids are issued once, and no message outlives its conversation. */
  lemma {:induction false} ExecuteKeepsValid(db: Db, op: Op)
    requires Valid(db)
    ensures Valid(Execute(db, op))
  {
    match op
    case Receive(contact, _, _, _, _) => StoreKeepsValid(db, contact, NewEntry(db.nextMessage, op));
    case Send(contact, _, _) => StoreKeepsValid(db, contact, NewEntry(db.nextMessage, op));
    case MarkRead(contact) =>
      if Known(db, contact) {
        WithUnreadKeepsValid(db, contact, 0);
      }
    case MarkReadUpTo(contact, t) =>
      if Known(db, contact) {
        WithUnreadKeepsValid(db, contact, UnreadOf(Execute(db, op), contact));
      }
    case DeleteMessage(id) => SelectKeepsIds(db, NotId(id));
    case DeleteConversation(contact) => DeleteConversationKeepsValid(db, contact);
    case UpdateStatus(id, status) => StatusKeepsValid(db, id, status);
  }

  lemma {:induction false} EveryRunIsValid(ops: seq<Op>)
    ensures Valid(After(ops))
  {
    if ops != [] {
      EveryRunIsValid(ops[..|ops| - 1]);
      ExecuteKeepsValid(After(ops[..|ops| - 1]), ops[|ops| - 1]);
    }
  }

  // ---------------------------------------------------------------- what each operation does to one contact

  lemma {:induction false} StoreEffect(db: Db, contact: string, entry: Entry, other: string)
    requires Valid(db)
    ensures var t := StoreMessage(db, contact, entry);
            && UnreadOf(t, other) == UnreadOf(db, other) +
                 (if other == contact && entry.direction.Incoming? then 1 else 0)
            && MessagesOf(t, other) == MessagesOf(db, other) +
                 (if other == contact then [Message(t.conversations[contact].id, entry)] else [])
  {
    var t := StoreMessage(db, contact, entry);
    var m := Message(t.conversations[contact].id, entry);
    if Known(t, other) {
      SelectAppend(db.messages, m, InConversation(t.conversations[other].id));
    }
    if other == contact && !Known(db, contact) {
      // AUTOINCREMENT: no stored message can refer to the id just issued.
      SelectNone(db.messages, InConversation(db.nextConversation));
    }
  }

  /** Deleting one conversation empties its list and leaves all others as they were. */
  lemma {:induction false} DeletionIsolated(db: Db, gone: string, other: string)
    requires Valid(db)
    ensures var t := Execute(db, DeleteConversation(gone));
            && !Known(t, gone) && MessagesOf(t, gone) == [] && UnreadOf(t, gone) == 0
            && (other != gone ==> UnreadOf(t, other) == UnreadOf(db, other)
                                  && MessagesOf(t, other) == MessagesOf(db, other))
  {
    if Known(db, gone) && Known(db, other) && other != gone {
      SelectThrough(db.messages, NotInConversation(db.conversations[gone].id),
                    InConversation(db.conversations[other].id));
    }
  }

  // ---------------------------------------------------------------- each contact has its own log

  function Entries(messages: seq<Message>): seq<Entry> {
    if messages == [] then []
    else Entries(messages[..|messages| - 1]) + [messages[|messages| - 1].entry]
  }

  function EntriesWithout(log: seq<Entry>, id: nat): seq<Entry> {
    if log == [] then []
    else
      var last := log[|log| - 1];
      EntriesWithout(log[..|log| - 1], id) + if last.id == id then [] else [last]
  }

  function EntriesWithStatus(log: seq<Entry>, id: nat, status: DeliveryStatus): seq<Entry> {
    if log == [] then []
    else
      var last := log[|log| - 1];
      EntriesWithStatus(log[..|log| - 1], id, status) + [if last.id == id then last.(status := status) else last]
  }

  /** How many messages the operations store; the next AUTOINCREMENT id is one more. */
  function Stores(ops: seq<Op>): nat {
    if ops == [] then 0
    else Stores(ops[..|ops| - 1]) + if ops[|ops| - 1].Receive? || ops[|ops| - 1].Send? then 1 else 0
  }

  /** What an operation, storing under `id` if it stores, does to one contact's log. */
  function LogNext(log: seq<Entry>, id: nat, op: Op, contact: string): seq<Entry> {
    match op
    case Receive(c, _, _, _, _) => if c == contact then log + [NewEntry(id, op)] else log
    case Send(c, _, _) => if c == contact then log + [NewEntry(id, op)] else log
    case MarkRead(_) => log
    case MarkReadUpTo(_, _) => log
    case DeleteMessage(gone) => EntriesWithout(log, gone)
    case DeleteConversation(c) => if c == contact then [] else log
    case UpdateStatus(changed, status) => EntriesWithStatus(log, changed, status)
  }

  /** A contact's history told without tables: what was stored for it and not deleted since. */
  function LogOf(ops: seq<Op>, contact: string): seq<Entry> {
    if ops == [] then []
    else
      var init := ops[..|ops| - 1];
      LogNext(LogOf(init, contact), 1 + Stores(init), ops[|ops| - 1], contact)
  }

  lemma {:induction false} EntriesAppend(messages: seq<Message>, m: Message)
    ensures Entries(messages + [m]) == Entries(messages) + [m.entry]
  {
    assert (messages + [m])[..|messages + [m]| - 1] == messages;
  }

  lemma {:induction false} EntriesOfSelect(messages: seq<Message>, id: nat)
    ensures Entries(Select(messages, NotId(id))) == EntriesWithout(Entries(messages), id)
  {
    if messages != [] {
      var init, last := messages[..|messages| - 1], messages[|messages| - 1];
      EntriesOfSelect(init, id);
      assert Entries(messages)[..|Entries(messages)| - 1] == Entries(init);
      if last.entry.id != id {
        EntriesAppend(Select(init, NotId(id)), last);
      } else {
        assert Select(messages, NotId(id)) == Select(init, NotId(id));
      }
    }
  }

  lemma {:induction false} EntriesOfSetStatus(messages: seq<Message>, id: nat, status: DeliveryStatus)
    ensures Entries(SetStatus(messages, id, status)) == EntriesWithStatus(Entries(messages), id, status)
  {
    if messages != [] {
      var init, last := messages[..|messages| - 1], messages[|messages| - 1];
      EntriesOfSetStatus(init, id, status);
      assert Entries(messages)[..|Entries(messages)| - 1] == Entries(init);
      var changed := if last.entry.id == id then last.(entry := last.entry.(status := status)) else last;
      EntriesAppend(SetStatus(init, id, status), changed);
    }
  }

  lemma {:induction false} LogStep(db: Db, op: Op, contact: string)
    requires Valid(db)
    ensures Entries(MessagesOf(Execute(db, op), contact)) ==
            LogNext(Entries(MessagesOf(db, contact)), db.nextMessage, op, contact)
    ensures Execute(db, op).nextMessage == db.nextMessage + if op.Receive? || op.Send? then 1 else 0
  {
    match op
    case Receive(c, _, _, _, _) => StoreLogStep(db, c, NewEntry(db.nextMessage, op), contact);
    case Send(c, _, _) => StoreLogStep(db, c, NewEntry(db.nextMessage, op), contact);
    case MarkRead(c) => MarkLogStep(db, op, contact);
    case MarkReadUpTo(c, t) => MarkLogStep(db, op, contact);
    case DeleteMessage(id) => DeleteLogStep(db, id, contact);
    case DeleteConversation(c) => DeletionIsolated(db, c, contact);
    case UpdateStatus(id, status) => StatusLogStep(db, id, status, contact);
  }

  lemma {:induction false} MarkLogStep(db: Db, op: Op, contact: string)
    requires op.MarkRead? || op.MarkReadUpTo?
    ensures MessagesOf(Execute(db, op), contact) == MessagesOf(db, contact)
  {
  }

  lemma {:induction false} DeleteLogStep(db: Db, id: nat, contact: string)
    ensures Entries(MessagesOf(Execute(db, DeleteMessage(id)), contact)) ==
            EntriesWithout(Entries(MessagesOf(db, contact)), id)
  {
    if Known(db, contact) {
      SelectCommutes(db.messages, NotId(id), InConversation(db.conversations[contact].id));
      EntriesOfSelect(MessagesOf(db, contact), id);
    }
  }

  lemma {:induction false} StatusLogStep(db: Db, id: nat, status: DeliveryStatus, contact: string)
    ensures Entries(MessagesOf(Execute(db, UpdateStatus(id, status)), contact)) ==
            EntriesWithStatus(Entries(MessagesOf(db, contact)), id, status)
  {
    if Known(db, contact) {
      SelectSetStatus(db.messages, id, status, InConversation(db.conversations[contact].id));
      EntriesOfSetStatus(MessagesOf(db, contact), id, status);
    }
  }

  lemma {:induction false} StoreLogStep(db: Db, c: string, entry: Entry, contact: string)
    requires Valid(db)
    ensures Entries(MessagesOf(StoreMessage(db, c, entry), contact)) ==
            if c == contact then Entries(MessagesOf(db, contact)) + [entry] else Entries(MessagesOf(db, contact))
  {
    StoreEffect(db, c, entry, contact);
    assert MessagesOf(db, contact) + [] == MessagesOf(db, contact);
    if c == contact {
      EntriesAppend(MessagesOf(db, contact), Message(StoreMessage(db, c, entry).conversations[contact].id, entry));
    }
  }

  ghost predicate IsLog(db: Db, contact: string, log: seq<Entry>, next: nat) {
    db.nextMessage == next && Entries(MessagesOf(db, contact)) == log
  }

  lemma {:induction false} IsLogNext(ops: seq<Op>, op: Op, contact: string, log: seq<Entry>, next: nat)
    requires IsLog(After(ops), contact, log, next)
    ensures IsLog(Execute(After(ops), op), contact, LogNext(log, next, op, contact),
                  next + if op.Receive? || op.Send? then 1 else 0)
  {
    EveryRunIsValid(ops);
    LogStep(After(ops), op, contact);
  }

  lemma {:induction false} RunIsLog(ops: seq<Op>, contact: string)
    ensures IsLog(After(ops), contact, LogOf(ops, contact), 1 + Stores(ops))
  {
    if ops != [] {
      var init, op := ops[..|ops| - 1], ops[|ops| - 1];
      RunIsLog(init, contact);
      var log, next, db := LogOf(init, contact), 1 + Stores(init), Execute(After(init), op);
      var after, later := LogNext(log, next, op, contact), next + if op.Receive? || op.Send? then 1 else 0;
      assert IsLog(db, contact, after, later) by { IsLogNext(init, op, contact, log, next); }
      SameLog(db, After(ops), contact, after, LogOf(ops, contact), later, 1 + Stores(ops));
    }
  }

  lemma {:induction false} SameLog(a: Db, b: Db, contact: string, log: seq<Entry>, same: seq<Entry>, n: nat, m: nat)
    requires IsLog(a, contact, log, n) && a == b && log == same && n == m
    ensures IsLog(b, contact, same, m)
  {
  }

  /**
   * Conversation isolation over runs: whatever happens to other contacts, and however often this
   * contact's conversation has been deleted and created again, its messages are exactly its own log.
   */
  lemma {:induction false} ConversationIsItsOwnLog(ops: seq<Op>, contact: string)
    ensures After(ops).nextMessage == 1 + Stores(ops)
    ensures Entries(MessagesOf(After(ops), contact)) == LogOf(ops, contact)
  {
    RunIsLog(ops, contact);
  }

  // ---------------------------------------------------------------- what is stored

  /** Receiving appends one row that holds what was received, and sets the conversation's time. */
  lemma {:induction false} ReceivedIsStored(db: Db, contact: string, t: nat, text: string, pre: bool, est: bool)
    requires Valid(db)
    ensures var after := Execute(db, Receive(contact, t, text, pre, est));
            var ms := MessagesOf(after, contact);
            && |ms| == |MessagesOf(db, contact)| + 1 && ms[..|ms| - 1] == MessagesOf(db, contact)
            && var e := ms[|ms| - 1].entry;
            && e.id == db.nextMessage && e.direction == Incoming && e.timestamp == t && e.content == text
            && e.wasPreKey == pre && e.established == est
            && Known(after, contact) && after.conversations[contact].lastTimestamp == t
  {
    StoreEffect(db, contact, NewEntry(db.nextMessage, Receive(contact, t, text, pre, est)), contact);
  }

  lemma {:induction false} SentIsStored(db: Db, contact: string, t: nat, text: string)
    requires Valid(db)
    ensures var after := Execute(db, Send(contact, t, text));
            var ms := MessagesOf(after, contact);
            && |ms| == |MessagesOf(db, contact)| + 1 && ms[..|ms| - 1] == MessagesOf(db, contact)
            && var e := ms[|ms| - 1].entry;
            && e.id == db.nextMessage && e.direction == Outgoing && e.timestamp == t && e.content == text
            && e.status == Pending && !e.wasPreKey && !e.established
            && Known(after, contact) && after.conversations[contact].lastTimestamp == t
  {
    StoreEffect(db, contact, NewEntry(db.nextMessage, Send(contact, t, text)), contact);
  }

  /** The status set last on a message that step i stored. */
  function StatusSince(ops: seq<Op>, i: nat, id: nat): DeliveryStatus {
    if |ops| <= i + 1 then Pending
    else
      var last := ops[|ops| - 1];
      if last.UpdateStatus? && last.id == id then last.status else StatusSince(ops[..|ops| - 1], i, id)
  }

  /** The entry holds what step i stored for the contact: its time, content, direction and flags. */
  predicate Carries(op: Op, contact: string, e: Entry) {
    match op
    case Receive(c, t, text, pre, est) =>
      && c == contact && e.direction == Incoming && e.timestamp == t && e.content == text
      && e.wasPreKey == pre && e.established == est
    case Send(c, t, text) =>
      && c == contact && e.direction == Outgoing && e.timestamp == t && e.content == text
      && !e.wasPreKey && !e.established
    case _ => false
  }

  predicate CameFrom(ops: seq<Op>, i: nat, contact: string, e: Entry) {
    && i < |ops| && Carries(ops[i], contact, e)
    && e.id == 1 + Stores(ops[..i]) && e.status == StatusSince(ops, i, e.id)
  }

  lemma {:induction false} WithoutMember(log: seq<Entry>, id: nat, e: Entry)
    ensures e in EntriesWithout(log, id) <==> e in log && e.id != id
  {
    if log != [] {
      WithoutMember(log[..|log| - 1], id, e);
      assert log == log[..|log| - 1] + [log[|log| - 1]];
    }
  }

  lemma {:induction false} WithStatusMember(log: seq<Entry>, id: nat, status: DeliveryStatus, e: Entry)
    ensures e in EntriesWithStatus(log, id, status) <==>
            exists f :: f in log && e == if f.id == id then f.(status := status) else f
  {
    if log != [] {
      var init, last := log[..|log| - 1], log[|log| - 1];
      WithStatusMember(init, id, status, e);
      assert log == init + [last];
    }
  }

  lemma {:induction false} CameFromStays(ops: seq<Op>, i: nat, contact: string, e: Entry, op: Op)
    requires CameFrom(ops, i, contact, e)
    ensures var f := if op.UpdateStatus? && op.id == e.id then e.(status := op.status) else e;
            CameFrom(ops + [op], i, contact, f)
  {
    assert (ops + [op])[..|ops|] == ops && (ops + [op])[..i] == ops[..i];
  }

  lemma {:induction false} StoredCameFrom(ops: seq<Op>, op: Op, contact: string)
    requires (op.Receive? || op.Send?) && op.contact == contact
    ensures CameFrom(ops + [op], |ops|, contact, NewEntry(1 + Stores(ops), op))
  {
    assert (ops + [op])[..|ops|] == ops;
  }

  /** Every entry of a contact's log holds what one operation stored for that contact, and its last status. */
  lemma {:induction false} EntryCameFrom(ops: seq<Op>, contact: string, e: Entry)
    requires e in LogOf(ops, contact)
    ensures exists i :: CameFrom(ops, i, contact, e)
  {
    var init, op := ops[..|ops| - 1], ops[|ops| - 1];
    assert ops == init + [op];
    if (op.Receive? || op.Send?) && op.contact == contact && e == NewEntry(1 + Stores(init), op) {
      StoredCameFrom(init, op, contact);
    } else {
      var f := Earlier(LogOf(init, contact), 1 + Stores(init), op, contact, e);
      EntryCameFrom(init, contact, f);
      var i :| CameFrom(init, i, contact, f);
      CameFromStays(init, i, contact, f, op);
    }
  }

  /** An entry that an operation did not store was there before, up to its status. */
  lemma {:induction false} Earlier(log: seq<Entry>, id: nat, op: Op, contact: string, e: Entry) returns (f: Entry)
    requires e in LogNext(log, id, op, contact)
    requires !((op.Receive? || op.Send?) && op.contact == contact && e == NewEntry(id, op))
    ensures f in log && e == if op.UpdateStatus? && op.id == f.id then f.(status := op.status) else f
  {
    f := e;
    match op
    case DeleteMessage(gone) => WithoutMember(log, gone, e);
    case UpdateStatus(changed, status) =>
      WithStatusMember(log, changed, status, e);
      f :| f in log && e == if f.id == changed then f.(status := status) else f;
    case _ =>
  }

  /** No later step deletes what step i stored, neither singly nor with its conversation. */
  predicate Kept(ops: seq<Op>, i: nat, contact: string)
    requires i < |ops|
  {
    forall k :: i < k < |ops| ==>
      ops[k] != DeleteConversation(contact) && ops[k] != DeleteMessage(1 + Stores(ops[..i]))
  }

  /** And whatever was stored for the contact and not deleted since is in its log. */
  lemma {:induction false} StoredIsInLog(ops: seq<Op>, i: nat, contact: string)
    requires i < |ops| && (ops[i].Receive? || ops[i].Send?) && ops[i].contact == contact && Kept(ops, i, contact)
    ensures exists e :: e in LogOf(ops, contact) && CameFrom(ops, i, contact, e)
  {
    var init, op := ops[..|ops| - 1], ops[|ops| - 1];
    assert ops == init + [op];
    if i == |init| {
      StoredCameFrom(init, op, contact);
      assert NewEntry(1 + Stores(init), op) in LogOf(ops, contact);
    } else {
      assert init[..i] == ops[..i];
      StoredIsInLog(init, i, contact);
      var e :| e in LogOf(init, contact) && CameFrom(init, i, contact, e);
      CameFromStays(init, i, contact, e, op);
      StaysInLog(LogOf(init, contact), 1 + Stores(init), op, contact, e);
    }
  }

  lemma {:induction false} StoresGrow(ops: seq<Op>, i: nat)
    requires i < |ops| && (ops[i].Receive? || ops[i].Send?)
    ensures Stores(ops[..i]) < Stores(ops)
  {
    var init := ops[..|ops| - 1];
    if i < |init| {
      assert init[..i] == ops[..i];
      StoresGrow(init, i);
    }
  }

  ghost predicate NoneWith(log: seq<Entry>, id: nat) { forall e :: e in log ==> e.id != id }

  lemma {:induction false} NoneWithNext(log: seq<Entry>, next: nat, op: Op, contact: string, id: nat)
    requires next != id && (NoneWith(log, id) || op == DeleteMessage(id) || op == DeleteConversation(contact))
    ensures NoneWith(LogNext(log, next, op, contact), id)
  {
    forall e | e in LogNext(log, next, op, contact) ensures e.id != id {
      match op
      case DeleteMessage(gone) => WithoutMember(log, gone, e);
      case UpdateStatus(changed, status) => WithStatusMember(log, changed, status, e);
      case _ =>
    }
  }

  lemma {:induction false} DeletedStaysGone(ops: seq<Op>, i: nat, contact: string)
    requires i < |ops| && (ops[i].Receive? || ops[i].Send?) && !Kept(ops, i, contact)
    ensures NoneWith(LogOf(ops, contact), 1 + Stores(ops[..i]))
  {
    var init, op := ops[..|ops| - 1], ops[|ops| - 1];
    assert i < |init| && init[..i] == ops[..i];
    StoresGrow(init, i);
    if op != DeleteConversation(contact) && op != DeleteMessage(1 + Stores(ops[..i])) {
      DeletedStaysGone(init, i, contact);
    }
    NoneWithNext(LogOf(init, contact), 1 + Stores(init), op, contact, 1 + Stores(ops[..i]));
  }

  /** What was stored for a contact is in its log exactly as long as it has not been deleted. */
  lemma {:induction false} StoredIsInLogExactly(ops: seq<Op>, i: nat, contact: string)
    requires i < |ops| && (ops[i].Receive? || ops[i].Send?) && ops[i].contact == contact
    ensures (exists e :: e in LogOf(ops, contact) && CameFrom(ops, i, contact, e)) <==> Kept(ops, i, contact)
  {
    if Kept(ops, i, contact) {
      StoredIsInLog(ops, i, contact);
    } else {
      DeletedStaysGone(ops, i, contact);
    }
  }

  lemma {:induction false} StaysInLog(log: seq<Entry>, id: nat, op: Op, contact: string, e: Entry)
    requires e in log && op != DeleteConversation(contact) && op != DeleteMessage(e.id)
    ensures var f := if op.UpdateStatus? && op.id == e.id then e.(status := op.status) else e;
            f in LogNext(log, id, op, contact)
  {
    match op
    case DeleteMessage(gone) => WithoutMember(log, gone, e);
    case UpdateStatus(changed, status) =>
      WithStatusMember(log, changed, status, if changed == e.id then e.(status := status) else e);
    case _ =>
  }

  /** The time of the contact's last store since its conversation was last deleted. */
  function LastStore(ops: seq<Op>, contact: string): Option<nat> {
    if ops == [] then None
    else
      var op := ops[|ops| - 1];
      if (op.Receive? || op.Send?) && op.contact == contact then Some(op.timestamp)
      else if op == DeleteConversation(contact) then None
      else LastStore(ops[..|ops| - 1], contact)
  }

  lemma {:induction false} LastTimeStep(db: Db, op: Op, contact: string)
    ensures var after := Execute(db, op);
            if (op.Receive? || op.Send?) && op.contact == contact
            then Known(after, contact) && after.conversations[contact].lastTimestamp == op.timestamp
            else if op == DeleteConversation(contact) then !Known(after, contact)
            else && (Known(after, contact) <==> Known(db, contact))
                 && (Known(db, contact) ==>
                       after.conversations[contact].lastTimestamp == db.conversations[contact].lastTimestamp)
  {
  }

  /**
   * A contact has a conversation exactly if something was stored since it was last deleted, and the row
   * carries the time of the last store, whatever was read, deleted singly or delivered meanwhile.
   */
  lemma {:induction false} LastTimeIsLastStore(ops: seq<Op>, contact: string)
    ensures Known(After(ops), contact) <==> LastStore(ops, contact).Some?
    ensures Known(After(ops), contact) ==>
              Some(After(ops).conversations[contact].lastTimestamp) == LastStore(ops, contact)
  {
    if ops != [] {
      LastTimeIsLastStore(ops[..|ops| - 1], contact);
      LastTimeStep(After(ops[..|ops| - 1]), ops[|ops| - 1], contact);
    }
  }
}
