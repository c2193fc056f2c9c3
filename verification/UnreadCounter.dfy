/**
 * The denormalised unread counter against a count over the messages, for every run, and the race
 * between opening a chat and messages that arrive meanwhile.
 */
module UnreadCounter {
  import opened History
  import opened HistoryRuns

  predicate Unread(e: Entry, above: int) { e.direction.Incoming? && e.timestamp > above }

  /** The incoming messages of a log stamped above a point in time. */
  function CountAbove(log: seq<Entry>, above: int): nat {
    if log == [] then 0
    else CountAbove(log[..|log| - 1], above) + if Unread(log[|log| - 1], above) then 1 else 0
  }

  function CountId(log: seq<Entry>, id: nat, above: int): nat {
    if log == [] then 0
    else
      CountId(log[..|log| - 1], id, above)
      + if log[|log| - 1].id == id && Unread(log[|log| - 1], above) then 1 else 0
  }

  function NewestStamp(log: seq<Entry>): int {
    if log == [] then -1
    else
      var rest := NewestStamp(log[..|log| - 1]);
      if log[|log| - 1].timestamp > rest then log[|log| - 1].timestamp else rest
  }

  function FrontierNext(f: int, known: bool, log: seq<Entry>, op: Op, contact: string): int {
    match op
    case MarkRead(c) => if c == contact then NewestStamp(log) else f
    case MarkReadUpTo(c, t) => if c == contact && known then t else f
    case DeleteConversation(c) => if c == contact then -1 else f
    case _ => f
  }

  /** Up to which time the user has read a conversation, by the marks the run contains. */
  function Frontier(ops: seq<Op>, contact: string): int {
    if ops == [] then -1
    else
      var init := ops[..|ops| - 1];
      FrontierNext(Frontier(init, contact), Known(After(init), contact), LogOf(init, contact), ops[|ops| - 1], contact)
  }

  function DriftNext(d: nat, f: int, known: bool, log: seq<Entry>, op: Op, contact: string): nat {
    match op
    case Receive(c, t, _, _, _) => if c == contact && t <= f then d + 1 else d
    case MarkRead(c) => if c == contact then 0 else d
    case MarkReadUpTo(c, _) => if c == contact && known then 0 else d
    case DeleteMessage(id) => d + CountId(log, id, f)
    case DeleteConversation(c) => if c == contact then 0 else d
    case _ => d
  }

  /**
   * By how much the counter exceeds the count: since the last mark, the messages that arrived with a
   * stamp at or below the frontier, and the unread messages that were deleted one by one.
   */
  function Drift(ops: seq<Op>, contact: string): nat {
    if ops == [] then 0
    else
      var init := ops[..|ops| - 1];
      DriftNext(Drift(init, contact), Frontier(init, contact), Known(After(init), contact), LogOf(init, contact),
                ops[|ops| - 1], contact)
  }

  lemma {:induction false} CountOfSelect(messages: seq<Message>, c: nat, above: int)
    ensures |Select(messages, UnreadAbove(c, above))| == CountAbove(Entries(Select(messages, InConversation(c))), above)
  {
    if messages != [] {
      var init, last := messages[..|messages| - 1], messages[|messages| - 1];
      CountOfSelect(init, c, above);
      var s := Select(init, InConversation(c));
      if last.conversation == c {
        EntriesAppend(s, last);
        assert (Entries(s) + [last.entry])[..|Entries(s)|] == Entries(s);
      } else {
        assert Select(messages, InConversation(c)) == s;
      }
    }
  }

  lemma {:induction false} NothingAboveNewest(log: seq<Entry>, above: int)
    requires NewestStamp(log) <= above
    ensures CountAbove(log, above) == 0
  {
    if log != [] {
      NothingAboveNewest(log[..|log| - 1], above);
    }
  }

  lemma {:induction false} CountAppend(log: seq<Entry>, e: Entry, above: int)
    ensures CountAbove(log + [e], above) == CountAbove(log, above) + if Unread(e, above) then 1 else 0
  {
    assert (log + [e])[..|log + [e]| - 1] == log;
  }

  lemma {:induction false} CountWithout(log: seq<Entry>, id: nat, above: int)
    ensures CountAbove(log, above) == CountAbove(EntriesWithout(log, id), above) + CountId(log, id, above)
  {
    if log != [] {
      var init, last := log[..|log| - 1], log[|log| - 1];
      CountWithout(init, id, above);
      if last.id != id {
        CountAppend(EntriesWithout(init, id), last, above);
      } else {
        assert EntriesWithout(log, id) == EntriesWithout(init, id);
      }
    }
  }

  lemma {:induction false} CountWithStatus(log: seq<Entry>, id: nat, status: DeliveryStatus, above: int)
    ensures CountAbove(EntriesWithStatus(log, id, status), above) == CountAbove(log, above)
  {
    if log != [] {
      var init, last := log[..|log| - 1], log[|log| - 1];
      CountWithStatus(init, id, status, above);
      CountAppend(EntriesWithStatus(init, id, status), if last.id == id then last.(status := status) else last, above);
    }
  }

  /** What one operation does to a contact's counter, given the contact's messages. */
  function CounterAfter(unread: nat, known: bool, log: seq<Entry>, op: Op, contact: string): nat {
    match op
    case Receive(c, _, _, _, _) => unread + (if c == contact then 1 else 0)
    case MarkRead(c) => if c == contact then 0 else unread
    case MarkReadUpTo(c, t) => if c == contact && known then CountAbove(log, t) else unread
    case DeleteConversation(c) => if c == contact then 0 else unread
    case _ => unread
  }

  lemma {:induction false} CounterStep(db: Db, op: Op, contact: string)
    requires Valid(db)
    ensures UnreadOf(Execute(db, op), contact) ==
            CounterAfter(UnreadOf(db, contact), Known(db, contact), Entries(MessagesOf(db, contact)), op, contact)
  {
    match op
    case Receive(c, _, _, _, _) => StoreEffect(db, c, NewEntry(db.nextMessage, op), contact);
    case Send(c, _, _) => StoreEffect(db, c, NewEntry(db.nextMessage, op), contact);
    case MarkReadUpTo(c, t) =>
      if c == contact && Known(db, contact) {
        CountOfSelect(db.messages, db.conversations[contact].id, t);
      }
    case _ =>
  }

  /** What one operation does to the count above a fixed frontier. */
  function CountAfter(log: seq<Entry>, op: Op, contact: string, f: int): int {
    match op
    case Receive(c, t, _, _, _) => CountAbove(log, f) + (if c == contact && t > f then 1 else 0)
    case DeleteMessage(gone) => CountAbove(log, f) - CountId(log, gone, f)
    case DeleteConversation(c) => if c == contact then 0 else CountAbove(log, f)
    case _ => CountAbove(log, f)
  }

  lemma {:induction false} CountStep(log: seq<Entry>, id: nat, op: Op, contact: string, f: int)
    ensures CountAbove(LogNext(log, id, op, contact), f) == CountAfter(log, op, contact, f)
  {
    match op
    case Receive(c, _, _, _, _) => CountAppend(log, NewEntry(id, op), f);
    case Send(c, _, _) => CountAppend(log, NewEntry(id, op), f);
    case DeleteMessage(gone) => CountWithout(log, gone, f);
    case UpdateStatus(changed, status) => CountWithStatus(log, changed, status, f);
    case _ =>
  }

  /** Counter and count keep pace: both sides of the equation move together. */
  lemma {:induction false} SumStep(unread: nat, known: bool, log: seq<Entry>, id: nat, op: Op, contact: string,
                                   f: int, d: nat)
    requires unread == CountAbove(log, f) + d
    ensures CounterAfter(unread, known, log, op, contact) ==
            CountAbove(LogNext(log, id, op, contact), FrontierNext(f, known, log, op, contact))
            + DriftNext(d, f, known, log, op, contact)
  {
    CountStep(log, id, op, contact, f);
    NothingAboveNewest(log, NewestStamp(log));
  }

  lemma {:induction false} CounterMoves(ops: seq<Op>, op: Op, contact: string)
    ensures UnreadOf(Execute(After(ops), op), contact) ==
            CounterAfter(UnreadOf(After(ops), contact), Known(After(ops), contact), LogOf(ops, contact), op, contact)
  {
    EveryRunIsValid(ops);
    ConversationIsItsOwnLog(ops, contact);
    CounterStep(After(ops), op, contact);
  }

  ghost predicate Balanced(db: Db, log: seq<Entry>, f: int, d: nat, contact: string) {
    UnreadOf(db, contact) == CountAbove(log, f) + d
  }

  lemma {:induction false} BalanceNext(ops: seq<Op>, op: Op, contact: string)
    requires Balanced(After(ops), LogOf(ops, contact), Frontier(ops, contact), Drift(ops, contact), contact)
    ensures var log, known, f := LogOf(ops, contact), Known(After(ops), contact), Frontier(ops, contact);
            Balanced(Execute(After(ops), op), LogNext(log, 1 + Stores(ops), op, contact),
                     FrontierNext(f, known, log, op, contact),
                     DriftNext(Drift(ops, contact), f, known, log, op, contact), contact)
  {
    CounterMoves(ops, op, contact);
    SumStep(UnreadOf(After(ops), contact), Known(After(ops), contact), LogOf(ops, contact), 1 + Stores(ops), op, contact,
            Frontier(ops, contact), Drift(ops, contact));
  }

  lemma {:induction false} RunIsBalanced(ops: seq<Op>, contact: string)
    ensures Balanced(After(ops), LogOf(ops, contact), Frontier(ops, contact), Drift(ops, contact), contact)
  {
    if ops != [] {
      RunIsBalanced(ops[..|ops| - 1], contact);
      BalanceNext(ops[..|ops| - 1], ops[|ops| - 1], contact);
    }
  }

  /**
   * The unread counter refines a count: in every run it equals the number of stored incoming
   * messages above the frontier plus the drift.  So it is never below that number, and equal to it
   * exactly when since the last mark every arrival was stamped above the frontier and no unread
   * message was deleted singly.
   */
  lemma {:induction false} CounterIsCountPlusDrift(ops: seq<Op>, contact: string)
    ensures UnreadOf(After(ops), contact) ==
            CountAbove(LogOf(ops, contact), Frontier(ops, contact)) + Drift(ops, contact)
  {
    RunIsBalanced(ops, contact);
  }

  // ---------------------------------------------------------------- when the counter is exact

  /** Does this step mark the conversation, or delete it? */
  predicate ResetAt(ops: seq<Op>, i: nat, contact: string)
    requires i < |ops|
  {
    match ops[i]
    case MarkRead(c) => c == contact
    case MarkReadUpTo(c, _) => c == contact && Known(After(ops[..i]), contact)
    case DeleteConversation(c) => c == contact
    case _ => false
  }

  /** Does this step store a message at or below the frontier, or delete one that was unread? */
  predicate DisturbedAt(ops: seq<Op>, i: nat, contact: string)
    requires i < |ops|
  {
    var before := ops[..i];
    match ops[i]
    case Receive(c, t, _, _, _) => c == contact && t <= Frontier(before, contact)
    case DeleteMessage(id) => CountId(LogOf(before, contact), id, Frontier(before, contact)) > 0
    case _ => false
  }

  lemma {:induction false} DriftStep(ops: seq<Op>, contact: string)
    requires ops != []
    ensures var i := |ops| - 1;
            Drift(ops, contact) == 0 <==>
            ResetAt(ops, i, contact) || (Drift(ops[..i], contact) == 0 && !DisturbedAt(ops, i, contact))
  {
  }

  /** Step m - 1 was the conversation's last mark or deletion, or there was none and m is 0. */
  ghost predicate LastReset(ops: seq<Op>, m: nat, contact: string) {
    && m <= |ops| && (m == 0 || ResetAt(ops, m - 1, contact))
    && forall i: nat :: m <= i < |ops| ==> !ResetAt(ops, i, contact)
  }

  ghost predicate UndisturbedFrom(ops: seq<Op>, m: nat, contact: string) {
    forall i: nat :: m <= i < |ops| ==> !DisturbedAt(ops, i, contact)
  }

  lemma {:induction false} SamePast(ops: seq<Op>, i: nat, contact: string)
    requires i < |ops| - 1
    ensures ResetAt(ops[..|ops| - 1], i, contact) == ResetAt(ops, i, contact)
    ensures DisturbedAt(ops[..|ops| - 1], i, contact) == DisturbedAt(ops, i, contact)
  {
    assert ops[..|ops| - 1][..i] == ops[..i];
  }

  lemma {:induction false} ResetStays(ops: seq<Op>, m: nat, contact: string)
    requires LastReset(ops, m, contact) && m < |ops|
    ensures LastReset(ops[..|ops| - 1], m, contact) && !ResetAt(ops, |ops| - 1, contact)
  {
    var init := ops[..|ops| - 1];
    if m > 0 {
      SamePast(ops, m - 1, contact);
    }
    forall i: nat | m <= i < |init| ensures !ResetAt(init, i, contact) {
      SamePast(ops, i, contact);
    }
  }

  lemma {:induction false} UndisturbedNext(ops: seq<Op>, m: nat, contact: string)
    requires m < |ops|
    ensures UndisturbedFrom(ops, m, contact) <==>
            UndisturbedFrom(ops[..|ops| - 1], m, contact) && !DisturbedAt(ops, |ops| - 1, contact)
  {
    var init := ops[..|ops| - 1];
    forall i: nat | i < |init| ensures DisturbedAt(init, i, contact) == DisturbedAt(ops, i, contact) {
      SamePast(ops, i, contact);
    }
    if UndisturbedFrom(ops, m, contact) {
      forall i: nat | m <= i < |init| ensures !DisturbedAt(init, i, contact) {
        assert !DisturbedAt(ops, i, contact);
      }
    }
  }

  lemma {:induction false} DriftSinceReset(ops: seq<Op>, contact: string, m: nat)
    requires LastReset(ops, m, contact)
    ensures Drift(ops, contact) == 0 <==> UndisturbedFrom(ops, m, contact)
  {
    if m < |ops| {
      ResetStays(ops, m, contact);
      DriftSinceReset(ops[..|ops| - 1], contact, m);
      DriftStep(ops, contact);
      UndisturbedNext(ops, m, contact);
    } else if m > 0 {
      DriftStep(ops, contact);
    }
  }

  /**
   * The counter is never below the number of incoming messages above the frontier, and equals it
   * exactly if since the conversation's last mark or deletion no message was stored at or below the
   * frontier and no unread message was deleted singly.
   */
  lemma {:induction false} CounterIsExactSinceMark(ops: seq<Op>, contact: string, m: nat)
    requires LastReset(ops, m, contact)
    ensures UnreadOf(After(ops), contact) >= CountAbove(LogOf(ops, contact), Frontier(ops, contact))
    ensures UnreadOf(After(ops), contact) == CountAbove(LogOf(ops, contact), Frontier(ops, contact)) <==>
            UndisturbedFrom(ops, m, contact)
  {
    CounterIsCountPlusDrift(ops, contact);
    DriftSinceReset(ops, contact, m);
  }

  /** The last mark or deletion, or 0; there is exactly one such position. */
  ghost function SinceReset(ops: seq<Op>, contact: string): nat {
    if ops == [] then 0
    else if ResetAt(ops, |ops| - 1, contact) then |ops|
    else SinceReset(ops[..|ops| - 1], contact)
  }

  lemma {:induction false} OneLastReset(ops: seq<Op>, m: nat, k: nat, contact: string)
    requires LastReset(ops, m, contact) && LastReset(ops, k, contact)
    ensures m <= k
  {
  }

  lemma {:induction false} LastResetExists(ops: seq<Op>, contact: string)
    ensures LastReset(ops, SinceReset(ops, contact), contact)
    ensures forall m :: LastReset(ops, m, contact) ==> m == SinceReset(ops, contact)
  {
    if ops != [] && !ResetAt(ops, |ops| - 1, contact) {
      var init := ops[..|ops| - 1];
      LastResetExists(init, contact);
      forall i: nat | i < |init| ensures ResetAt(init, i, contact) == ResetAt(ops, i, contact) {
        SamePast(ops, i, contact);
      }
    }
    forall m | LastReset(ops, m, contact) ensures m == SinceReset(ops, contact) {
      OneLastReset(ops, m, SinceReset(ops, contact), contact);
      OneLastReset(ops, SinceReset(ops, contact), m, contact);
    }
  }

  /** The same for every run, with the position that always exists. */
  lemma {:induction false} CounterIsExactlyUndisturbed(ops: seq<Op>, contact: string)
    ensures UnreadOf(After(ops), contact) == CountAbove(LogOf(ops, contact), Frontier(ops, contact)) <==>
            UndisturbedFrom(ops, SinceReset(ops, contact), contact)
  {
    LastResetExists(ops, contact);
    CounterIsExactSinceMark(ops, contact, SinceReset(ops, contact));
  }

  lemma {:induction false} NextRow(ops: seq<Op>, op: Op, contact: string)
    ensures var log, known := LogOf(ops, contact), Known(After(ops), contact);
            && UnreadOf(After(ops + [op]), contact) ==
               CounterAfter(UnreadOf(After(ops), contact), known, log, op, contact)
            && LogOf(ops + [op], contact) == LogNext(log, 1 + Stores(ops), op, contact)
            && Frontier(ops + [op], contact) == FrontierNext(Frontier(ops, contact), known, log, op, contact)
  {
    CounterMoves(ops, op, contact);
    assert (ops + [op])[..|ops|] == ops;
  }

  lemma {:induction false} FirstRow(r: Op)
    requires r.Receive?
    ensures UnreadOf(After([] + [r]), r.contact) == 1 && LogOf([] + [r], r.contact) == [NewEntry(1, r)]
  {
    NextRow([], r, r.contact);
    assert UnreadOf(After([]), r.contact) == 0 && LogOf([], r.contact) == [] && Stores([]) == 0;
  }

  lemma {:induction false} SingleEntry(e: Entry)
    ensures NewestStamp([e]) == e.timestamp && CountAbove([e], e.timestamp) == 0 && EntriesWithout([e], e.id) == []
  {
    assert [e][..0] == [];
  }

  /** Receive a message and delete it singly: it stays counted. */
  lemma {:induction false} DeletedStaysCounted(r: Op)
    requires r.Receive?
    ensures var ops := [] + [r] + [DeleteMessage(1)];
            UnreadOf(After(ops), r.contact) == 1 && LogOf(ops, r.contact) == []
  {
    FirstRow(r);
    SingleEntry(NewEntry(1, r));
    NextRow([] + [r], DeleteMessage(1), r.contact);
  }

  /** Receive a message, mark the conversation read, receive another with the same stamp: it is counted. */
  lemma {:induction false} SameStampIsCounted(r: Op)
    requires r.Receive?
    ensures var ops := [] + [r] + [MarkRead(r.contact)] + [r];
            UnreadOf(After(ops), r.contact) == 1 && CountAbove(LogOf(ops, r.contact), Frontier(ops, r.contact)) == 0
  {
    var contact, two := r.contact, [] + [r] + [MarkRead(r.contact)];
    FirstRow(r);
    SingleEntry(NewEntry(1, r));
    NextRow([] + [r], MarkRead(contact), contact);
    NextRow(two, r, contact);
    CountAppend(LogOf(two, contact), NewEntry(1 + Stores(two), r), r.timestamp);
  }

  // ---------------------------------------------------------------- opening a chat

  /** Messages stored while a chat is being opened, in this or another conversation, with any stamps. */
  predicate Arrivals(ops: seq<Op>) {
    forall i :: 0 <= i < |ops| ==> ops[i].Send? || ops[i].Receive?
  }

  predicate Above(op: Op, contact: string, t: int) { op.Receive? && op.contact == contact && op.timestamp > t }

  predicate For(op: Op, contact: string) { op.Receive? && op.contact == contact }

  /** How many of them arrived for the contact with a stamp above t. */
  function ReceivedAbove(ops: seq<Op>, contact: string, t: int): nat {
    if ops == [] then 0
    else ReceivedAbove(ops[..|ops| - 1], contact, t) + if Above(ops[|ops| - 1], contact, t) then 1 else 0
  }

  function ReceivedFor(ops: seq<Op>, contact: string): nat { ReceivedAbove(ops, contact, -1) }

  /** All of the contact's arrivals are stamped above t exactly if counting above t misses none. */
  lemma {:induction false} AllAboveExactly(ops: seq<Op>, contact: string, t: int)
    ensures ReceivedAbove(ops, contact, t) <= ReceivedFor(ops, contact)
    ensures ReceivedAbove(ops, contact, t) == ReceivedFor(ops, contact) <==>
            forall i :: 0 <= i < |ops| && For(ops[i], contact) ==> ops[i].timestamp > t
  {
    if ops != [] {
      var init, last := ops[..|ops| - 1], ops[|ops| - 1];
      AllAboveExactly(init, contact, t);
      assert forall i :: 0 <= i < |init| ==> init[i] == ops[i];
      assert last == ops[|init|];
    }
  }

  lemma {:induction false} OneArrival(ops: seq<Op>, op: Op, contact: string, t: int)
    requires op.Send? || op.Receive?
    ensures CountAbove(LogOf(ops + [op], contact), t) ==
            CountAbove(LogOf(ops, contact), t) + if Above(op, contact, t) then 1 else 0
  {
    LogExtends(ops, op, contact);
    CountStep(LogOf(ops, contact), 1 + Stores(ops), op, contact, t);
  }

  lemma {:induction false} LogExtends(ops: seq<Op>, op: Op, contact: string)
    ensures LogOf(ops + [op], contact) == LogNext(LogOf(ops, contact), 1 + Stores(ops), op, contact)
  {
    assert (ops + [op])[..|ops|] == ops;
  }

  lemma {:induction false} ArrivalsAddUp(ops: seq<Op>, arrivals: seq<Op>, contact: string, t: int)
    requires Arrivals(arrivals)
    ensures CountAbove(LogOf(ops + arrivals, contact), t) ==
            CountAbove(LogOf(ops, contact), t) + ReceivedAbove(arrivals, contact, t)
  {
    if arrivals == [] {
      assert ops + arrivals == ops;
    } else {
      var init, op := arrivals[..|arrivals| - 1], arrivals[|arrivals| - 1];
      LastApart(ops, arrivals);
      ArrivalsAddUp(ops, init, contact, t);
      OneArrival(ops + init, op, contact, t);
    }
  }

  lemma {:induction false} LastApart(ops: seq<Op>, arrivals: seq<Op>)
    requires arrivals != []
    ensures ops + arrivals == (ops + arrivals[..|arrivals| - 1]) + [arrivals[|arrivals| - 1]]
  {
  }

  lemma {:induction false} ArrivalsKeepConversation(ops: seq<Op>, arrivals: seq<Op>, contact: string)
    requires Arrivals(arrivals) && Known(After(ops), contact)
    ensures Known(After(ops + arrivals), contact)
  {
    if arrivals == [] {
      assert ops + arrivals == ops;
    } else {
      ArrivalsKeepConversation(ops, arrivals[..|arrivals| - 1], contact);
      assert (ops + arrivals)[..|ops + arrivals| - 1] == ops + arrivals[..|arrivals| - 1];
    }
  }

  /**
   * Mark a conversation read up to the newest message that was loaded, with any arrivals in between:
   * exactly those arrivals are unread that are stamped above it, whatever the earlier history.
   */
  lemma {:induction false} OpenChatRace(ops: seq<Op>, contact: string, newest: nat, arrivals: seq<Op>)
    requires Known(After(ops), contact) && NewestStamp(LogOf(ops, contact)) == newest
    requires Arrivals(arrivals)
    ensures UnreadOf(Execute(After(ops + arrivals), MarkReadUpTo(contact, newest)), contact) ==
            ReceivedAbove(arrivals, contact, newest)
  {
    ArrivalsAddUp(ops, arrivals, contact, newest);
    ArrivalsKeepConversation(ops, arrivals, contact);
    NothingAboveNewest(LogOf(ops, contact), newest);
    CounterMoves(ops + arrivals, MarkReadUpTo(contact, newest), contact);
  }
}
