/**
 * Chat mode as replicated state.  The parser and the display filter each keep an active contact; they
 * are connected only by the queue of display events that the command handler pushes to.
 */
module ChatMode {
  import opened Options
  import opened Commands
  import opened Display
  import History
  import HistoryRuns
  import HistoryPages
  import UnreadCounter

  // ---------------------------------------------------------------- what the handler pushes

  /** How the bridge calls behind a successful lookup go: the history page, and the marking as read. */
  datatype Outcome = LoadFails | Loaded(page: seq<History.Message>, markFails: bool)

  function Note(text: Text, now: nat): UiEvent { Message(text, None, now, CommandFeedback) }

  function NameOf(c: Contact): string { if c.alias == "" then c.rdx else c.alias }

  /** One message of the history, as it is shown. */
  function Line(c: Contact, m: History.Message): UiEvent {
    if m.entry.direction.Incoming?
    then Message(HistoryLine(true, NameOf(c), m.entry.content), Some(c.rdx), m.entry.timestamp, IncomingMessage)
    else Message(HistoryLine(false, "You", m.entry.content), Some(c.rdx), m.entry.timestamp, OutgoingMessage)
  }

  /** A page comes newest first and is shown oldest first. */
  function Lines(c: Contact, page: seq<History.Message>): seq<UiEvent> {
    seq(|page|, k requires 0 <= k < |page| => Line(c, page[|page| - 1 - k]))
  }

  function Block(c: Contact, page: seq<History.Message>, now: nat): seq<UiEvent> {
    if page == [] then []
    else [Message(HistoryHeader(|page|), Some(c.rdx), now, System)] + Lines(c, page)
         + [Message(HistoryFooter, Some(c.rdx), now, System)]
  }

  function Opened(c: Contact, name: string, outcome: Outcome, now: nat): seq<UiEvent> {
    match outcome
    case LoadFails => [Note(ContactNotFound(name), now)]
    case Loaded(page, markFails) =>
      Block(c, page, now)
      + [Note(if markFails then ContactNotFound(name) else EnteringChat(NameOf(c)), now)]
  }

  function ChatEvents(name: string, contacts: Contacts, outcome: Outcome, now: nat): seq<UiEvent> {
    if name == "" then [Note(ChatUsage, now)]
    else if name !in contacts then [Note(ContactNotFound(name), now)]
    else [EnterChat(contacts[name].rdx, NameOf(contacts[name]))] + Opened(contacts[name], name, outcome, now)
  }

  function Notes(texts: seq<Text>, now: nat): seq<UiEvent> {
    seq(|texts|, k requires 0 <= k < |texts| => Note(texts[k], now))
  }

  /** The events a command makes the handler push; commands other than these two give feedback only. */
  function HandlerEvents(c: Command, contacts: Contacts, outcome: Outcome, notes: seq<Text>, now: nat): seq<UiEvent> {
    match c
    case Chat(name) => ChatEvents(name, contacts, outcome, now)
    case Leave => [ExitChat, Note(ExitingChat, now)]
    case Unknown(_) => []
    case _ => Notes(notes, now)
  }

  /** The marking that opening a chat asks for, given the page that was loaded. */
  function MarkFor(rdx: string, page: seq<History.Message>): History.Op {
    if page == [] then History.MarkRead(rdx) else History.MarkReadUpTo(rdx, page[0].entry.timestamp)
  }

  /** The markings a command asks the bridge for. */
  function MarksOf(c: Command, contacts: Contacts, outcome: Outcome): seq<History.Op> {
    if c.Chat? && c.contact != "" && c.contact in contacts && outcome.Loaded?
    then [MarkFor(contacts[c.contact].rdx, outcome.page)] else []
  }

  /** What goes to the session, transport and connection-monitor queues. */
  datatype Outbound = ToSession(command: Command) | DisconnectTransport | QueryStatus

  function Forwarded(c: Command): seq<Outbound> {
    match c
    case Status => [QueryStatus]
    case Disconnect => [DisconnectTransport]
    case Identities => [ToSession(c)]
    case Publish => [ToSession(c)]
    case Unpublish => [ToSession(c)]
    case Send(peer, message) => if peer != "" && message != "" then [ToSession(c)] else []
    case Connect(relay) => if relay != "" then [ToSession(c)] else []
    case Trust(peer, _) => if peer != "" then [ToSession(c)] else []
    case _ => []
  }

  /** Exactly the complete commands are forwarded, each to the queue it belongs to, and nothing else is. */
  lemma {:induction false} ForwardedExactly(c: Command, x: Command)
    ensures ToSession(x) in Forwarded(c) <==>
            && x == c
            && (|| c == Identities || c == Publish || c == Unpublish
                || (c.Send? && c.peer != "" && c.message != "")
                || (c.Connect? && c.relay != "")
                || (c.Trust? && c.peer != ""))
    ensures DisconnectTransport in Forwarded(c) <==> c == Disconnect
    ensures QueryStatus in Forwarded(c) <==> c == Status
    ensures |Forwarded(c)| <= 1
  {
  }

  // ---------------------------------------------------------------- what opening a chat shows

  /**
   * Opening a chat with a known contact enters it first, under its alias or else its fingerprint; a page
   * that was loaded is then shown between a header with its length and a footer, and marked read.
   */
  lemma {:induction false} OpeningWrittenOut(name: string, contacts: Contacts, outcome: Outcome, now: nat)
    requires name != "" && name in contacts
    ensures var es, c := HandlerEvents(Chat(name), contacts, outcome, [], now), contacts[name];
            && es != [] && es[0] == EnterChat(c.rdx, if c.alias != "" then c.alias else c.rdx)
            && (outcome.LoadFails? ==> es[1..] == [Message(ContactNotFound(name), None, now, CommandFeedback)])
            && (outcome.Loaded? && outcome.page == [] ==> |es| == 2)
            && (outcome.Loaded? && outcome.page != [] ==>
                  && |es| == |outcome.page| + 4
                  && es[1] == Message(HistoryHeader(|outcome.page|), Some(c.rdx), now, System)
                  && es[|es| - 2] == Message(HistoryFooter, Some(c.rdx), now, System))
            && (outcome.Loaded? ==>
                  es[|es| - 1] ==
                  Message(if outcome.markFails then ContactNotFound(name)
                          else EnteringChat(if c.alias != "" then c.alias else c.rdx), None, now, CommandFeedback))
    ensures MarksOf(Chat(name), contacts, outcome) ==
            if outcome.LoadFails? then []
            else if outcome.page == [] then [History.MarkRead(contacts[name].rdx)]
            else [History.MarkReadUpTo(contacts[name].rdx, outcome.page[0].entry.timestamp)]
  {
  }

  /** What is not a known contact is not entered and marks nothing. */
  lemma {:induction false} NotOpened(name: string, contacts: Contacts, outcome: Outcome, now: nat)
    requires name == "" || name !in contacts
    ensures HandlerEvents(Chat(name), contacts, outcome, [], now) ==
            [Message(if name == "" then ChatUsage else ContactNotFound(name), None, now, CommandFeedback)]
    ensures MarksOf(Chat(name), contacts, outcome) == []
  {
  }

  /** Leaving exits, and the commands that are neither of the two enter and exit nothing. */
  lemma {:induction false} LeavingWrittenOut(c: Command, contacts: Contacts, outcome: Outcome, notes: seq<Text>, now: nat)
    ensures HandlerEvents(Leave, contacts, outcome, notes, now) ==
            [ExitChat, Message(ExitingChat, None, now, CommandFeedback)]
    ensures !c.Chat? && !c.Leave? ==>
              var es := HandlerEvents(c, contacts, outcome, notes, now);
              && |es| == (if c.Unknown? then 0 else |notes|)
              && forall i :: 0 <= i < |es| ==> es[i] == Message(notes[i], None, now, CommandFeedback)
  {
  }

  /** The k-th line of the history, counted from the oldest, is the k-th message from the end of the page. */
  ghost predicate Shows(e: UiEvent, c: Contact, m: History.Entry) {
    && e.Message? && e.text.HistoryLine? && e.text.content == m.content && e.timestamp == m.timestamp
    && e.contact == Some(c.rdx)
    && (if m.direction == History.Incoming
        then e.source == IncomingMessage && e.text.incoming
             && e.text.sender == if c.alias != "" then c.alias else c.rdx
        else e.source == OutgoingMessage && !e.text.incoming && e.text.sender == "You")
  }

  lemma {:induction false} LinesWrittenOut(name: string, contacts: Contacts, page: seq<History.Message>, fails: bool,
                                           now: nat, k: nat)
    requires name != "" && name in contacts && k < |page|
    ensures var es := HandlerEvents(Chat(name), contacts, Loaded(page, fails), [], now);
            2 + k < |es| && Shows(es[2 + k], contacts[name], page[|page| - 1 - k].entry)
  {
    var c, m := contacts[name], page[|page| - 1 - k];
    var es := HandlerEvents(Chat(name), contacts, Loaded(page, fails), [], now);
    BlockAt(c, page, now, k);
    assert es[1..] == Opened(c, name, Loaded(page, fails), now);
    assert es[2 + k] == es[1..][1 + k] == Block(c, page, now)[1 + k];
    LineShows(c, m);
  }

  lemma {:induction false} LineShows(c: Contact, m: History.Message)
    ensures Shows(Line(c, m), c, m.entry)
  {
  }

  lemma {:induction false} BlockAt(c: Contact, page: seq<History.Message>, now: nat, k: nat)
    requires k < |page|
    ensures |Block(c, page, now)| == |page| + 2 && Block(c, page, now)[1 + k] == Line(c, page[|page| - 1 - k])
  {
    assert Lines(c, page)[k] == Line(c, page[|page| - 1 - k]);
  }

  /** The events of opening a chat when the page is what the history holds. */
  function OpeningEvents(db: History.Db, name: string, contacts: Contacts, fails: bool, now: nat): seq<UiEvent>
    requires name in contacts
  {
    HandlerEvents(Chat(name), contacts, Loaded(HistoryPages.Page(db, contacts[name].rdx, 5, 0), fails), [], now)
  }

  /** Opening a chat shows the contact's five newest messages, oldest first. */
  lemma {:induction false} HistoryIsShownOldestFirst(db: History.Db, name: string, contacts: Contacts, fails: bool,
                                                     now: nat, k: nat, l: nat)
    requires name != "" && name in contacts && k <= l < |HistoryPages.Page(db, contacts[name].rdx, 5, 0)|
    ensures var es := OpeningEvents(db, name, contacts, fails, now);
            2 + l < |es| && es[2 + k].Message? && es[2 + l].Message? && es[2 + k].timestamp <= es[2 + l].timestamp
  {
    var page := HistoryPages.Page(db, contacts[name].rdx, 5, 0);
    HistoryPages.PageDescends(db, contacts[name].rdx, 5, |page| - 1 - l, |page| - 1 - k);
    LinesWrittenOut(name, contacts, page, fails, now, k);
    LinesWrittenOut(name, contacts, page, fails, now, l);
  }

  /**
   * End to end: each line that opening a chat shows has the content, time and direction with which some
   * operation of the run stored a message for that contact.
   */
  lemma {:induction false} HistoryShownIsHistoryStored(ops: seq<History.Op>, name: string, contacts: Contacts,
                                                       fails: bool, now: nat, k: nat)
    requires name != "" && name in contacts
    requires k < |HistoryPages.Page(History.After(ops), contacts[name].rdx, 5, 0)|
    ensures var es := OpeningEvents(History.After(ops), name, contacts, fails, now);
            && 2 + k < |es|
            && exists i, e :: HistoryRuns.CameFrom(ops, i, contacts[name].rdx, e) && Shows(es[2 + k], contacts[name], e)
  {
    var rdx := contacts[name].rdx;
    var page := HistoryPages.Page(History.After(ops), rdx, 5, 0);
    var e := page[|page| - 1 - k].entry;
    assert exists i :: HistoryRuns.CameFrom(ops, i, rdx, e) by {
      HistoryPages.PageIsStored(ops, rdx, 5, |page| - 1 - k);
      HistoryRuns.EntryCameFrom(ops, rdx, e);
    }
    LinesWrittenOut(name, contacts, page, fails, now, k);
  }

  // ---------------------------------------------------------------- the system

  /** An event on its way, with whether the command handler pushed it. */
  datatype Item = Item(event: UiEvent, own: bool)

  /** `taken` and `issued` record all that the filter took from its queue and the handler made. */
  datatype Client = Client(parser: Option<string>, outbox: seq<UiEvent>, queue: seq<Item>,
                           filter: Option<string>, ui: seq<Item>, taken: seq<Item>, issued: seq<UiEvent>)

  const QUIET := Client(None, [], [], None, [], [], [])

  /**
   * Raw: the parser parses an input, with one lookup of the contact, and the handler, with a second
   * lookup, starts to push its events.  Push: one of these reaches the queue.  Notify: some other
   * component pushes a message.  FilterNext: the filter takes one event.
   */
  datatype Step =
    | Raw(input: string, atParse: Contacts, atHandle: Contacts, outcome: Outcome, notes: seq<Text>, now: nat)
    | Push
    | Notify(text: Text, contact: Option<string>, timestamp: nat, source: Source)
    | FilterNext

  function Pushed(s: Client, step: Step): seq<UiEvent>
    requires step.Raw?
  {
    HandlerEvents(Parse(s.parser, step.input), step.atHandle, step.outcome, step.notes, step.now)
  }

  function Submit(s: Client, parser: Option<string>, es: seq<UiEvent>): Client {
    s.(parser := parser, outbox := es, issued := s.issued + es)
  }

  function Apply(s: Client, step: Step): Client {
    match step
    case Raw(input, atParse, _, _, _, _) =>
      if s.outbox != [] then s
      else Submit(s, NextActive(s.parser, Parse(s.parser, input), atParse), Pushed(s, step))
    case Push =>
      if s.outbox == [] then s
      else s.(outbox := s.outbox[1..], queue := s.queue + [Item(s.outbox[0], true)])
    case Notify(_, _, _, _) =>
      s.(queue := s.queue + [ItemOf(step)])
    case FilterNext =>
      if s.queue == [] then s
      else
        var e := s.queue[0];
        s.(queue := s.queue[1..], taken := s.taken + [e], filter := Turn(s.filter, e.event),
           ui := s.ui + if Passes(s.filter, e.event) then [e] else [])
  }

  function Run(steps: seq<Step>): Client {
    if steps == [] then QUIET else Apply(Run(steps[..|steps| - 1]), steps[|steps| - 1])
  }

  function Events(items: seq<Item>): seq<UiEvent> {
    seq(|items|, k requires 0 <= k < |items| => items[k].event)
  }

  function Tagged(es: seq<UiEvent>): seq<Item> {
    seq(|es|, k requires 0 <= k < |es| => Item(es[k], true))
  }

  /** All that is still under way to the filter, in the order in which it would arrive. */
  function Ahead(s: Client): seq<Item> { s.queue + Tagged(s.outbox) }

  // ---------------------------------------------------------------- what the handler pushes is consistent

  lemma {:induction false} PassTogether(active: Option<string>, es: seq<UiEvent>)
    requires forall i :: 0 <= i < |es| ==> !Control(es[i]) && Passes(active, es[i])
    ensures Clean(active, es) && Context(active, es) == active
  {
    forall i: nat | i <= |es| ensures Context(active, es[..i]) == active {
      ContextFromStart(active, es, i);
    }
    assert es[..|es|] == es;
  }

  lemma {:induction false} CleanAppend(active: Option<string>, xs: seq<UiEvent>, ys: seq<UiEvent>)
    requires Clean(active, xs) && Clean(Context(active, xs), ys)
    ensures Clean(active, xs + ys)
  {
    forall i: nat | i < |xs + ys| ensures PassesAt(active, xs + ys, i) {
      if i < |xs| {
        assert PassesAt(active, xs, i) && (xs + ys)[..i] == xs[..i];
      } else {
        assert PassesAt(Context(active, xs), ys, i - |xs|) && (xs + ys)[..i] == xs + ys[..i - |xs|];
        ContextAppend(active, xs, ys[..i - |xs|]);
      }
    }
  }

  lemma {:induction false} OpenedPasses(c: Contact, name: string, outcome: Outcome, now: nat)
    ensures var es := Opened(c, name, outcome, now);
            forall i :: 0 <= i < |es| ==> !Control(es[i]) && Passes(Some(c.rdx), es[i])
  {
    if outcome.Loaded? {
      BlockPasses(c, outcome.page, now);
    }
  }

  lemma {:induction false} BlockPasses(c: Contact, page: seq<History.Message>, now: nat)
    ensures var es := Block(c, page, now);
            forall i :: 0 <= i < |es| ==> !Control(es[i]) && Passes(Some(c.rdx), es[i])
  {
    var lines := Lines(c, page);
    forall k | 0 <= k < |lines| ensures !Control(lines[k]) && Passes(Some(c.rdx), lines[k]) {
      assert lines[k] == Line(c, page[|page| - 1 - k]);
    }
  }

  /** One control event in front, then only events that pass behind it. */
  lemma {:induction false} LedBy(active: Option<string>, first: UiEvent, rest: seq<UiEvent>)
    requires Control(first)
    requires forall i :: 0 <= i < |rest| ==> !Control(rest[i]) && Passes(Turn(active, first), rest[i])
    ensures Clean(active, [first] + rest) && Context(active, [first] + rest) == Turn(active, first)
  {
    assert Context(active, [first]) == Turn(active, first) by {
      FilterAppend(active, [], first);
      assert [] + [first] == [first];
    }
    PassTogether(Turn(active, first), rest);
    CleanAppend(active, [first], rest);
    ContextAppend(active, [first], rest);
  }

  /**
   * Whatever the active contact, the handler's events switch the filter exactly as the command
   * switches the parser, and the filter drops none of them.
   */
  lemma {:induction false} HandlerSwitchesAlike(active: Option<string>, c: Command, contacts: Contacts,
                                                outcome: Outcome, notes: seq<Text>, now: nat)
    ensures var es := HandlerEvents(c, contacts, outcome, notes, now);
            Clean(active, es) && Context(active, es) == NextActive(active, c, contacts)
  {
    var es := HandlerEvents(c, contacts, outcome, notes, now);
    if c.Chat? && c.contact != "" && c.contact in contacts {
      var contact := contacts[c.contact];
      OpenedPasses(contact, c.contact, outcome, now);
      LedBy(active, EnterChat(contact.rdx, NameOf(contact)), Opened(contact, c.contact, outcome, now));
    } else if c.Leave? {
      assert es == [ExitChat] + [Note(ExitingChat, now)];
      LedBy(active, ExitChat, [Note(ExitingChat, now)]);
    } else {
      PassTogether(active, es);
    }
  }

  // ---------------------------------------------------------------- items

  /** Every item of the handler will pass the filter. */
  ghost predicate OwnPass(active: Option<string>, items: seq<Item>) {
    forall i: nat :: i < |items| && items[i].own ==> PassesAt(active, Events(items), i)
  }

  function Own(items: seq<Item>): seq<UiEvent> {
    if items == [] then []
    else
      var last := items[|items| - 1];
      Own(items[..|items| - 1]) + if last.own then [last.event] else []
  }

  lemma {:induction false} EventsAppend(xs: seq<Item>, ys: seq<Item>)
    ensures Events(xs + ys) == Events(xs) + Events(ys)
  {
  }

  lemma {:induction false} EventsOfTagged(es: seq<UiEvent>)
    ensures Events(Tagged(es)) == es && Own(Tagged(es)) == es
  {
    if es != [] {
      var init := es[..|es| - 1];
      EventsOfTagged(init);
      assert Tagged(es)[..|es| - 1] == Tagged(init);
      assert es == init + [es[|es| - 1]];
    }
  }

  lemma {:induction false} OwnAppend(xs: seq<Item>, ys: seq<Item>)
    ensures Own(xs + ys) == Own(xs) + Own(ys)
  {
    if ys == [] {
      assert xs + ys == xs;
    } else {
      assert (xs + ys)[..|xs + ys| - 1] == xs + ys[..|ys| - 1];
      OwnAppend(xs, ys[..|ys| - 1]);
    }
  }

  lemma {:induction false} OwnPassAppend(active: Option<string>, xs: seq<Item>, ys: seq<Item>)
    ensures OwnPass(active, xs + ys) <==> OwnPass(active, xs) && OwnPass(Context(active, Events(xs)), ys)
  {
    forall i: nat | i < |xs| ensures PassesAt(active, Events(xs + ys), i) == PassesAt(active, Events(xs), i) {
      assert Events(xs + ys)[..i] == Events(xs)[..i];
    }
    forall i: nat | i < |ys|
      ensures PassesAt(active, Events(xs + ys), |xs| + i) == PassesAt(Context(active, Events(xs)), Events(ys), i)
    {
      assert Events(xs + ys)[..|xs| + i] == Events(xs) + Events(ys)[..i];
      ContextAppend(active, Events(xs), Events(ys)[..i]);
    }
    if OwnPass(active, xs + ys) {
      forall i: nat | i < |xs| && xs[i].own ensures PassesAt(active, Events(xs), i) {
        assert (xs + ys)[i].own;
      }
      forall i: nat | i < |ys| && ys[i].own ensures PassesAt(Context(active, Events(xs)), Events(ys), i) {
        assert (xs + ys)[|xs| + i].own;
      }
    }
  }

  lemma {:induction false} OneItem(active: Option<string>, item: Item)
    ensures OwnPass(active, [item]) <==> (item.own ==> Passes(active, item.event))
    ensures Context(active, Events([item])) == Turn(active, item.event)
    ensures Own([item]) == if item.own then [item.event] else []
  {
    assert Events([item]) == [] + [item.event];
    FilterAppend(active, [], item.event);
    assert Events([item])[..0] == [];
    assert PassesAt(active, Events([item]), 0) == Passes(active, item.event);
  }

  // ---------------------------------------------------------------- what every step keeps

  /** Applying all that is under way to the filter's contact gives the parser's contact. */
  ghost predicate Agree(s: Client) { Context(s.filter, Events(Ahead(s))) == s.parser }

  /** Nothing of the handler's is lost, doubled or reordered. */
  ghost predicate Conserved(s: Client) { Own(s.ui) + Own(Ahead(s)) == s.issued && OwnPass(s.filter, Ahead(s)) }

  ghost predicate Filtered(s: Client) {
    Events(s.ui) == Filter(None, Events(s.taken)) && s.filter == Context(None, Events(s.taken))
  }

  /** Where a lookup of the name leads: the active contact stays if it fails. */
  function LeadsTo(contacts: Contacts, name: string, active: Option<string>): Option<string> {
    if name in contacts then Some(contacts[name].rdx) else active
  }

  /**
   * If this step hands a command to an idle handler and that command looks a name up, both lookups of
   * that one name lead to the same contact.
   */
  predicate LookupsMeet(s: Client, step: Step) {
    step.Raw? && s.outbox == [] ==>
      var c := Parse(s.parser, step.input);
      c.Chat? && c.contact != "" ==>
        LeadsTo(step.atParse, c.contact, s.parser) == LeadsTo(step.atHandle, c.contact, s.parser)
  }

  /** Appending events of the handler that pass. */
  lemma {:induction false} AppendOwn(active: Option<string>, items: seq<Item>, es: seq<UiEvent>)
    requires Clean(Context(active, Events(items)), es)
    ensures Context(active, Events(items + Tagged(es))) == Context(Context(active, Events(items)), es)
    ensures Own(items + Tagged(es)) == Own(items) + es
    ensures OwnPass(active, items) ==> OwnPass(active, items + Tagged(es))
  {
    var here := Context(active, Events(items));
    EventsOfTagged(es);
    EventsAppend(items, Tagged(es));
    ContextAppend(active, Events(items), es);
    OwnAppend(items, Tagged(es));
    assert OwnPass(here, Tagged(es));
    OwnPassAppend(active, items, Tagged(es));
  }

  /** Inserting a message of another component. */
  lemma {:induction false} InsertForeign(active: Option<string>, xs: seq<Item>, item: Item, ys: seq<Item>)
    requires !item.own && !Control(item.event)
    ensures Context(active, Events(xs + ([item] + ys))) == Context(active, Events(xs + ys))
    ensures Own(xs + ([item] + ys)) == Own(xs + ys)
    ensures OwnPass(active, xs + ([item] + ys)) <==> OwnPass(active, xs + ys)
  {
    var here := Context(active, Events(xs));
    PutBefore(here, item, ys);
    EventsAppend(xs, ys);
    EventsAppend(xs, [item] + ys);
    ContextAppend(active, Events(xs), Events(ys));
    ContextAppend(active, Events(xs), Events([item] + ys));
    OwnAppend(xs, ys);
    OwnAppend(xs, [item] + ys);
    OwnPassAppend(active, xs, ys);
    OwnPassAppend(active, xs, [item] + ys);
  }

  lemma {:induction false} PutBefore(active: Option<string>, item: Item, ys: seq<Item>)
    ensures Context(active, Events([item] + ys)) == Context(Turn(active, item.event), Events(ys))
    ensures Own([item] + ys) == (if item.own then [item.event] else []) + Own(ys)
    ensures OwnPass(active, [item] + ys) <==>
            (item.own ==> Passes(active, item.event)) && OwnPass(Turn(active, item.event), ys)
  {
    OneItem(active, item);
    EventsAppend([item], ys);
    ContextAppend(active, Events([item]), Events(ys));
    OwnAppend([item], ys);
    OwnPassAppend(active, [item], ys);
  }

  lemma {:induction false} PushAhead(s: Client)
    ensures Ahead(Apply(s, Push)) == Ahead(s)
  {
  }

  lemma {:induction false} SubmitAhead(s: Client, parser: Option<string>, es: seq<UiEvent>)
    requires s.outbox == []
    ensures Ahead(Submit(s, parser, es)) == Ahead(s) + Tagged(es)
  {
  }

  lemma {:induction false} FilterAhead(s: Client)
    requires s.queue != []
    ensures Ahead(s) == [s.queue[0]] + Ahead(Apply(s, FilterNext))
  {
  }

  function ItemOf(step: Step): Item
    requires step.Notify?
  {
    Item(Message(step.text, step.contact, step.timestamp, step.source), false)
  }

  lemma {:induction false} NotifyAhead(s: Client, step: Step)
    requires step.Notify?
    ensures Ahead(Apply(s, step)) == s.queue + ([ItemOf(step)] + Tagged(s.outbox))
  {
  }

  lemma {:induction false} RawContext(s: Client, step: Step)
    requires step.Raw? && s.outbox == []
    ensures var here := Context(s.filter, Events(Ahead(s)));
            && Clean(here, Pushed(s, step))
            && Context(s.filter, Events(Ahead(s) + Tagged(Pushed(s, step)))) ==
               NextActive(here, Parse(s.parser, step.input), step.atHandle)
  {
    var here := Context(s.filter, Events(Ahead(s)));
    HandlerSwitchesAlike(here, Parse(s.parser, step.input), step.atHandle, step.outcome, step.notes, step.now);
    AppendOwn(s.filter, Ahead(s), Pushed(s, step));
  }

  lemma {:induction false} RawKeepsAgreementExactly(s: Client, step: Step)
    requires Agree(s) && step.Raw? && s.outbox == []
    ensures Agree(Apply(s, step)) <==> LookupsMeet(s, step)
  {
    RawContext(s, step);
    SubmitAhead(s, NextActive(s.parser, Parse(s.parser, step.input), step.atParse), Pushed(s, step));
  }

  /** A step keeps the replicas in agreement exactly if its lookups meet. */
  lemma {:induction false} StepKeepsAgreementExactly(s: Client, step: Step)
    requires Agree(s)
    ensures Agree(Apply(s, step)) <==> LookupsMeet(s, step)
  {
    match step
    case Raw(_, _, _, _, _, _) =>
      if s.outbox == [] {
        RawKeepsAgreementExactly(s, step);
      }
    case Push => PushAhead(s);
    case Notify(_, _, _, _) =>
      NotifyAhead(s, step);
      InsertForeign(s.filter, s.queue, ItemOf(step), Tagged(s.outbox));
    case FilterNext =>
      if s.queue != [] {
        FilterAhead(s);
        PutBefore(s.filter, s.queue[0], Ahead(Apply(s, FilterNext)));
      }
  }

  lemma {:induction false} Regroup(xs: seq<UiEvent>, ys: seq<UiEvent>, zs: seq<UiEvent>)
    ensures xs + (ys + zs) == (xs + ys) + zs
  {
  }

  lemma {:induction false} SubmitConserves(s: Client, parser: Option<string>, es: seq<UiEvent>)
    requires Conserved(s) && s.outbox == [] && Clean(Context(s.filter, Events(Ahead(s))), es)
    ensures Conserved(Submit(s, parser, es))
  {
    SubmitAhead(s, parser, es);
    AppendOwn(s.filter, Ahead(s), es);
    Regroup(Own(s.ui), Own(Ahead(s)), es);
  }

  lemma {:induction false} HandOver(shown: seq<Item>, head: Item, rest: seq<UiEvent>, passes: bool)
    requires head.own ==> passes
    ensures Own(shown + if passes then [head] else []) + rest ==
            Own(shown) + ((if head.own then [head.event] else []) + rest)
  {
    if passes {
      OwnAppend(shown, [head]);
      OneItem(None, head);
    } else {
      assert shown + [] == shown;
    }
  }

  lemma {:induction false} FilterConserves(s: Client)
    requires Conserved(s) && s.queue != []
    ensures Conserved(Apply(s, FilterNext))
  {
    var head, rest := s.queue[0], Ahead(Apply(s, FilterNext));
    FilterAhead(s);
    TakeConserves(s.filter, s.ui, head, rest, s.issued);
  }

  lemma {:induction false} TakeConserves(active: Option<string>, ui: seq<Item>, head: Item, rest: seq<Item>,
                                         issued: seq<UiEvent>)
    requires Own(ui) + Own([head] + rest) == issued && OwnPass(active, [head] + rest)
    ensures Own(ui + if Passes(active, head.event) then [head] else []) + Own(rest) == issued
    ensures OwnPass(Turn(active, head.event), rest)
  {
    PutBefore(active, head, rest);
    HandOver(ui, head, Own(rest), Passes(active, head.event));
  }

  lemma {:induction false} StepConserves(s: Client, step: Step)
    requires Conserved(s)
    ensures Conserved(Apply(s, step))
  {
    match step
    case Raw(_, _, _, _, _, _) =>
      if s.outbox == [] {
        RawContext(s, step);
        SubmitConserves(s, NextActive(s.parser, Parse(s.parser, step.input), step.atParse), Pushed(s, step));
      }
    case Push => PushAhead(s);
    case Notify(_, _, _, _) =>
      NotifyAhead(s, step);
      InsertForeign(s.filter, s.queue, ItemOf(step), Tagged(s.outbox));
    case FilterNext =>
      if s.queue != [] {
        FilterConserves(s);
      }
  }

  lemma {:induction false} StepFilters(s: Client, step: Step)
    requires Filtered(s)
    ensures Filtered(Apply(s, step))
  {
    if step.FilterNext? && s.queue != [] {
      var e := s.queue[0];
      FilterAppend(None, Events(s.taken), e.event);
      EventsAppend(s.taken, [e]);
      EventsAppend(s.ui, [e]);
      assert Events([e]) == [e.event];
    }
  }

  // ---------------------------------------------------------------- every run

  ghost predicate AgreeAfter(steps: seq<Step>, n: nat)
    requires n <= |steps|
  {
    Agree(Run(steps[..n]))
  }

  ghost predicate MeetAt(steps: seq<Step>, n: nat)
    requires n < |steps|
  {
    LookupsMeet(Run(steps[..n]), steps[n])
  }

  ghost predicate AlwaysAgree(steps: seq<Step>) { forall n: nat :: n <= |steps| ==> AgreeAfter(steps, n) }

  ghost predicate AlwaysMeet(steps: seq<Step>) { forall n: nat :: n < |steps| ==> MeetAt(steps, n) }

  lemma {:induction false} AgreeNext(steps: seq<Step>, n: nat)
    requires n < |steps| && AgreeAfter(steps, n)
    ensures AgreeAfter(steps, n + 1) <==> MeetAt(steps, n)
  {
    assert steps[..n + 1][..n] == steps[..n];
    StepKeepsAgreementExactly(Run(steps[..n]), steps[n]);
  }

  lemma {:induction false} MeetMeansAgree(steps: seq<Step>, n: nat)
    requires AlwaysMeet(steps) && n <= |steps|
    ensures AgreeAfter(steps, n)
  {
    if n > 0 {
      MeetMeansAgree(steps, n - 1);
      assert MeetAt(steps, n - 1);
      AgreeNext(steps, n - 1);
    } else {
      AgreeAtFirst(steps);
    }
  }

  lemma {:induction false} AgreeAtFirst(steps: seq<Step>)
    ensures AgreeAfter(steps, 0)
  {
    assert Run(steps[..0]) == QUIET;
  }

  /**
   * Chat-mode replicas agree at every step of a run, whatever the interleaving of commands, pushes,
   * messages and filter steps, if and only if at every command taken by an idle handler the two lookups
   * of its name lead to the same contact.
   */
  lemma {:induction false} ReplicasAgreeExactly(steps: seq<Step>)
    ensures AlwaysAgree(steps) <==> AlwaysMeet(steps)
  {
    if AlwaysMeet(steps) {
      forall n: nat | n <= |steps| ensures AgreeAfter(steps, n) {
        MeetMeansAgree(steps, n);
      }
    } else {
      var n: nat :| n < |steps| && !MeetAt(steps, n);
      if AgreeAfter(steps, n) {
        AgreeNext(steps, n);
      }
    }
  }

  /**
   * In such a run, applying what is under way to the filter's contact gives the parser's contact, and
   * when nothing is under way the two are equal.
   */
  lemma {:induction false} ReplicasAgree(steps: seq<Step>)
    requires AlwaysMeet(steps)
    ensures var s := Run(steps);
            && Context(s.filter, Events(Ahead(s))) == s.parser
            && (s.queue == [] && s.outbox == [] ==> s.filter == s.parser)
  {
    MeetMeansAgree(steps, |steps|);
    assert steps[..|steps|] == steps;
  }

  lemma {:induction false} RunNext(steps: seq<Step>, step: Step)
    ensures Run(steps + [step]) == Apply(Run(steps), step)
  {
    assert (steps + [step])[..|steps|] == steps;
  }

  /** If an alias changes hands between the two lookups, text goes to a contact that is not the one shown. */
  lemma {:induction false} AliasChangesHands(alias: string, one: Contact, other: Contact)
    requires alias != ""
    ensures var raw := Raw("/chat " + alias, map[alias := one], map[alias := other], LoadFails, [], 0);
            var s := Run([raw] + [Push] + [Push] + [FilterNext] + [FilterNext]);
            s.queue == [] && s.outbox == [] && s.parser == Some(one.rdx) && s.filter == Some(other.rdx)
  {
    var raw := Raw("/chat " + alias, map[alias := one], map[alias := other], LoadFails, [], 0);
    var enter, note := EnterChat(other.rdx, NameOf(other)), Note(ContactNotFound(alias), 0);
    assert Parse(None, "/chat " + alias) == Chat(alias) by {
      assert Print(Chat(alias)) == "/chat " + alias;
      ParseUndoesPrint(None, Chat(alias));
    }
    assert Run([raw]) == Submit(QUIET, Some(one.rdx), [enter] + [note]) by {
      RunNext([], raw);
      assert [] + [raw] == [raw];
    }
    Drain(QUIET, Some(one.rdx), enter, note);
    RunNext([raw], Push);
    RunNext([raw] + [Push], Push);
    RunNext([raw] + [Push] + [Push], FilterNext);
    RunNext([raw] + [Push] + [Push] + [FilterNext], FilterNext);
  }

  lemma {:induction false} Drain(s: Client, parser: Option<string>, first: UiEvent, second: UiEvent)
    requires s.queue == []
    ensures var t := Apply(Apply(Apply(Apply(Submit(s, parser, [first] + [second]), Push), Push), FilterNext), FilterNext);
            && t.queue == [] && t.outbox == [] && t.parser == parser
            && t.filter == Turn(Turn(s.filter, first), second)
  {
  }

  /**
   * In every run, whatever other components push in between, the events the handler makes reach the
   * user interface complete, once each and in order: shown, under way and outbox together are all that
   * was issued.
   */
  lemma {:induction false} HandlerEventsArriveInOrder(steps: seq<Step>)
    ensures var s := Run(steps); Own(s.ui) + Own(s.queue) + s.outbox == s.issued
  {
    RunConserves(steps);
    var s := Run(steps);
    OwnAppend(s.queue, Tagged(s.outbox));
    EventsOfTagged(s.outbox);
  }

  lemma {:induction false} RunConserves(steps: seq<Step>)
    ensures Conserved(Run(steps))
  {
    if steps != [] {
      RunConserves(steps[..|steps| - 1]);
      StepConserves(Run(steps[..|steps| - 1]), steps[|steps| - 1]);
    }
  }

  /** In every run the shown stream is the filtered stream of all that the filter took. */
  lemma {:induction false} RunIsFiltered(steps: seq<Step>)
    ensures var s := Run(steps); Events(s.ui) == Filter(None, Events(s.taken))
    ensures var s := Run(steps); s.filter == Context(None, Events(s.ui))
  {
    FilteredRun(steps);
    FilterIsClean(None, Events(Run(steps).taken));
  }

  lemma {:induction false} FilteredRun(steps: seq<Step>)
    ensures Filtered(Run(steps))
  {
    if steps != [] {
      FilteredRun(steps[..|steps| - 1]);
      StepFilters(Run(steps[..|steps| - 1]), steps[|steps| - 1]);
    }
  }

  /**
   * End to end: in a run whose queues have drained, if the last control event on the screen entered a
   * chat, then text without a leading slash is a send to exactly the contact on the screen, and if not
   * empty it is what the session queue gets; if it left a chat, or there was none, nothing is sent.
   */
  lemma {:induction false} TextGoesToTheContactShown(steps: seq<Step>, text: string)
    requires AlwaysMeet(steps)
    requires Run(steps).queue == [] && Run(steps).outbox == [] && !("/" <= text)
    ensures var s := Run(steps); var ui := Events(s.ui);
            && (forall k: nat :: LastControl(ui, k, |ui|) && ui[k].EnterChat? && ' ' !in ui[k].rdx ==>
                  SentTo(Parse(s.parser, text), ui[k].rdx, text))
            && ((forall k: nat :: LastControl(ui, k, |ui|) ==> ui[k].ExitChat?) ==>
                  NotSent(Parse(s.parser, text), text))
  {
    var s := Run(steps);
    var ui := Events(s.ui);
    ScreenShowsParser(steps);
    SomeLastControl(ui, |ui|);
    if s.parser.None? {
      TextOutsideChat(text);
    } else if ' ' !in s.parser.value {
      TextInChat(s.parser.value, text);
    }
  }

  /** A send of exactly this, which the session queue gets unless the recipient or the text is empty. */
  predicate SentTo(c: Command, rdx: string, text: string) {
    c == Send(rdx, text) && Forwarded(c) == if rdx != "" && text != "" then [ToSession(Send(rdx, text))] else []
  }

  predicate NotSent(c: Command, text: string) { c == Unknown(text) && Forwarded(c) == [] }

  lemma {:induction false} TextInChat(rdx: string, text: string)
    requires !("/" <= text) && ' ' !in rdx
    ensures SentTo(Parse(Some(rdx), text), rdx, text)
  {
    var c := Parse(Some(rdx), text);
    assert c == Send(rdx, text) by { ChatTextParses(rdx, text); }
    SendIsForwarded(c, rdx, text);
  }

  lemma {:induction false} SendIsForwarded(c: Command, rdx: string, text: string)
    requires c == Send(rdx, text)
    ensures SentTo(c, rdx, text)
  {
  }

  lemma {:induction false} TextOutsideChat(text: string)
    requires !("/" <= text)
    ensures NotSent(Parse(None, text), text)
  {
    PlainTextIsUnknown(text);
  }

  /** When nothing is under way, the last control event on the screen is the parser's chat. */
  lemma {:induction false} ScreenShowsParser(steps: seq<Step>)
    requires AlwaysMeet(steps) && Run(steps).queue == [] && Run(steps).outbox == []
    ensures var s := Run(steps); var ui := Events(s.ui);
            && (forall k: nat :: LastControl(ui, k, |ui|) ==> s.parser == Turn(None, ui[k]))
            && (NoControl(ui, |ui|) ==> s.parser == None)
  {
    var s := Run(steps);
    var ui := Events(s.ui);
    ReplicasAgree(steps);
    RunIsFiltered(steps);
    assert ui[..|ui|] == ui;
    forall k: nat | LastControl(ui, k, |ui|) ensures s.parser == Turn(None, ui[k]) {
      ContextFromLast(None, ui, k, |ui|);
    }
    if NoControl(ui, |ui|) {
      ContextFromStart(None, ui, |ui|);
    }
  }

  lemma {:induction false} SlashFirst(command: string, text: string)
    requires "/" <= command <= text
    ensures "/" <= text
  {
  }

  lemma {:induction false} PlainTextIsUnknown(text: string)
    requires !("/" <= text)
    ensures Parse(None, text) == Unknown(text)
  {
    forall h ensures !Matches(h, text) {
      SpellingIdentifies(h);
      if Spelling(h) <= text {
        SlashFirst(Spelling(h), text);
        assert false;
      }
    }
  }

  // ---------------------------------------------------------------- opening a chat and the unread counter

  /**
   * Opening a chat with messages arriving between the load and the marking leaves all of the contact's
   * arrivals unread if and only if they are stamped above the page's first message, or, for an empty
   * page, if there were none: an empty history is marked read outright.
   */
  lemma {:induction false} OpeningCountsArrivalsExactly(ops: seq<History.Op>, rdx: string, limit: nat,
                                                        arrivals: seq<History.Op>)
    requires UnreadCounter.Arrivals(arrivals)
    ensures var page := HistoryPages.Page(History.After(ops), rdx, limit, 0);
            var db := History.Execute(History.After(ops + arrivals), MarkFor(rdx, page));
            History.UnreadOf(db, rdx) == UnreadCounter.ReceivedFor(arrivals, rdx) <==>
            forall i :: 0 <= i < |arrivals| && UnreadCounter.For(arrivals[i], rdx) ==>
              page != [] && arrivals[i].timestamp > page[0].entry.timestamp
  {
    var page := HistoryPages.Page(History.After(ops), rdx, limit, 0);
    if page != [] {
      HistoryPages.NoLostUnread(ops, rdx, limit, arrivals);
      UnreadCounter.AllAboveExactly(arrivals, rdx, page[0].entry.timestamp);
    } else {
      NoneReceivedExactly(arrivals, rdx);
    }
  }

  lemma {:induction false} NoneReceivedExactly(arrivals: seq<History.Op>, rdx: string)
    ensures UnreadCounter.ReceivedFor(arrivals, rdx) == 0 <==>
            forall i :: 0 <= i < |arrivals| ==> !UnreadCounter.For(arrivals[i], rdx)
  {
    if arrivals != [] {
      NoneReceivedExactly(arrivals[..|arrivals| - 1], rdx);
      assert forall i :: 0 <= i < |arrivals| - 1 ==> arrivals[..|arrivals| - 1][i] == arrivals[i];
    }
  }

  // ---------------------------------------------------------------- the handler and its dispatcher

  class CommandHandler {
    var display: seq<UiEvent>
    var marks: seq<History.Op>
    var outbound: seq<Outbound>

    constructor ()
      ensures display == [] && marks == [] && outbound == []
    {
      display, marks, outbound := [], [], [];
    }

    method Emit(text: Text, now: nat)
      modifies this`display
      ensures display == old(display) + [Note(text, now)]
    {
      display := display + [Note(text, now)];
    }

    method ShowHistory(c: Contact, page: seq<History.Message>, now: nat)
      modifies this`display
      ensures display == old(display) + Block(c, page, now)
    {
      if page == [] {
        return;
      }
      display := display + [Message(HistoryHeader(|page|), Some(c.rdx), now, System)];
      ghost var start := display;
      var i := |page|;
      while i > 0
        invariant 0 <= i <= |page|
        invariant display == start + Lines(c, page)[..|page| - i]
      {
        i := i - 1;
        display := display + [Line(c, page[i])];
      }
      assert Lines(c, page)[..|page|] == Lines(c, page);
      display := display + [Message(HistoryFooter, Some(c.rdx), now, System)];
    }

    /** The marking is asked for exactly if the page was loaded. */
    method Open(c: Contact, name: string, outcome: Outcome, now: nat)
      modifies this`display, this`marks
      ensures display == old(display) + Opened(c, name, outcome, now)
      ensures marks == old(marks) + if outcome.Loaded? then [MarkFor(c.rdx, outcome.page)] else []
    {
      if outcome.LoadFails? {
        Emit(ContactNotFound(name), now);
        return;
      }
      ShowHistory(c, outcome.page, now);
      if outcome.page != [] {
        marks := marks + [History.MarkReadUpTo(c.rdx, outcome.page[0].entry.timestamp)];
      } else {
        marks := marks + [History.MarkRead(c.rdx)];
      }
      if outcome.markFails {
        Emit(ContactNotFound(name), now);
      } else {
        Emit(EnteringChat(NameOf(c)), now);
      }
    }

    /** The chat is entered before the history is loaded. */
    method Enter(c: Contact, name: string, outcome: Outcome, now: nat)
      modifies this`display, this`marks
      ensures display == old(display) + ([EnterChat(c.rdx, NameOf(c))] + Opened(c, name, outcome, now))
      ensures marks == old(marks) + if outcome.Loaded? then [MarkFor(c.rdx, outcome.page)] else []
    {
      Regroup(display, [EnterChat(c.rdx, NameOf(c))], Opened(c, name, outcome, now));
      display := display + [EnterChat(c.rdx, NameOf(c))];
      Open(c, name, outcome, now);
    }

    method HandleChat(name: string, contacts: Contacts, outcome: Outcome, now: nat)
      modifies this`display, this`marks
      ensures display == old(display) + ChatEvents(name, contacts, outcome, now)
      ensures marks == old(marks) + MarksOf(Chat(name), contacts, outcome)
    {
      assert marks + [] == marks;
      if name == "" {
        Emit(ChatUsage, now);
      } else if name !in contacts {
        Emit(ContactNotFound(name), now);
      } else {
        Enter(contacts[name], name, outcome, now);
      }
    }

    method HandleLeave(now: nat)
      modifies this`display
      ensures display == old(display) + [ExitChat, Note(ExitingChat, now)]
    {
      display := display + [ExitChat];
      Emit(ExitingChat, now);
    }

    method Forward(c: Command)
      modifies this`outbound
      ensures outbound == old(outbound) + Forwarded(c)
    {
      var out := [];
      match c {
        case Status => out := [QueryStatus];
        case Disconnect => out := [DisconnectTransport];
        case Identities => out := [ToSession(c)];
        case Publish => out := [ToSession(c)];
        case Unpublish => out := [ToSession(c)];
        case Send(peer, message) =>
          if peer != "" && message != "" {
            out := [ToSession(c)];
          }
        case Connect(relay) =>
          if relay != "" {
            out := [ToSession(c)];
          }
        case Trust(peer, _) =>
          if peer != "" {
            out := [ToSession(c)];
          }
        case _ =>
      }
      outbound := outbound + out;
    }

    /** Commands other than /chat and /leave: forward to the other queues, and give feedback. */
    method HandleOther(c: Command, notes: seq<Text>, now: nat)
      requires !c.Chat? && !c.Leave?
      modifies this`display, this`outbound
      ensures display == old(display) + Notes(notes, now)
      ensures outbound == old(outbound) + Forwarded(c)
    {
      Forward(c);
      var i := 0;
      while i < |notes|
        invariant 0 <= i <= |notes|
        invariant display == old(display) + Notes(notes, now)[..i] && outbound == old(outbound) + Forwarded(c)
      {
        Emit(notes[i], now);
        i := i + 1;
      }
      assert Notes(notes, now)[..i] == Notes(notes, now);
    }
  }

  class EventHandler {
    const parser: CommandParser
    const handler: CommandHandler

    constructor (parser: CommandParser, handler: CommandHandler)
      ensures this.parser == parser && this.handler == handler
    {
      this.parser, this.handler := parser, handler;
    }

    method Dispatch(c: Command, contacts: Contacts, outcome: Outcome, notes: seq<Text>, now: nat)
      modifies handler
      ensures handler.display == old(handler.display) + HandlerEvents(c, contacts, outcome, notes, now)
      ensures handler.marks == old(handler.marks) + MarksOf(c, contacts, outcome)
      ensures handler.outbound == old(handler.outbound) + Forwarded(c)
    {
      assert handler.outbound + [] == handler.outbound && handler.marks + [] == handler.marks;
      match c
      case Chat(name) => handler.HandleChat(name, contacts, outcome, now);
      case Leave => handler.HandleLeave(now);
      case Unknown(_) =>
      case _ => handler.HandleOther(c, notes, now);
    }

    /** One raw command: parse, then dispatch. */
    method Handle(input: string, atParse: Contacts, atHandle: Contacts, outcome: Outcome, notes: seq<Text>, now: nat)
      requires parser.handlers == CHAIN
      modifies parser`active, handler
      ensures parser.active == NextActive(old(parser.active), Parse(old(parser.active), input), atParse)
      ensures handler.display ==
              old(handler.display) + HandlerEvents(Parse(old(parser.active), input), atHandle, outcome, notes, now)
      ensures handler.marks == old(handler.marks) + MarksOf(Parse(old(parser.active), input), atHandle, outcome)
      ensures handler.outbound == old(handler.outbound) + Forwarded(Parse(old(parser.active), input))
    {
      var c := parser.ParseInput(input, atParse);
      Dispatch(c, atHandle, outcome, notes, now);
    }
  }

  /** Parser, handler, queue and filter together; what the handler has pushed waits in its own buffer. */
  class Session {
    const events: EventHandler
    const filter: DisplayFilter
    var queue: seq<Item>

    /** The objects are in the state that the runs speak of. */
    ghost predicate Mirrors(s: Client)
      reads this, events.parser, events.handler, filter
    {
      && events.parser.handlers == CHAIN
      && events.parser.active == s.parser && events.handler.display == s.outbox
      && queue == s.queue && filter.active == s.filter && filter.ui == Events(s.ui)
    }

    constructor ()
      ensures fresh(events.parser) && fresh(events.handler) && fresh(filter) && Mirrors(QUIET)
    {
      var parser := new CommandParser();
      var handler := new CommandHandler();
      events := new EventHandler(parser, handler);
      filter := new DisplayFilter();
      queue := [];
    }

    method Perform(step: Step, ghost s: Client)
      requires Mirrors(s)
      modifies this`queue, events.parser`active, events.handler, filter
      ensures Mirrors(Apply(s, step))
    {
      match step
      case Raw(input, atParse, atHandle, outcome, notes, now) =>
        if events.handler.display == [] {
          events.Handle(input, atParse, atHandle, outcome, notes, now);
        }
      case Push =>
        if events.handler.display != [] {
          queue := queue + [Item(events.handler.display[0], true)];
          events.handler.display := events.handler.display[1..];
        }
      case Notify(_, _, _, _) => queue := queue + [ItemOf(step)];
      case FilterNext =>
        if queue != [] {
          ShowsNext(s);
          filter.Handle(queue[0].event);
          queue := queue[1..];
        }
    }
  }

  lemma {:induction false} ShowsNext(s: Client)
    requires s.queue != []
    ensures var e := s.queue[0].event;
            Events(Apply(s, FilterNext).ui) == Events(s.ui) + if Passes(s.filter, e) then [e] else []
  {
  }

  /** Every schedule drives the objects through the run that the theorems speak of. */
  method Drive(steps: seq<Step>) returns (session: Session)
    ensures fresh(session) && session.Mirrors(Run(steps))
  {
    session := new Session();
    for i := 0 to |steps|
      invariant fresh(session) && fresh(session.events.parser) && fresh(session.events.handler) && fresh(session.filter)
      invariant session.Mirrors(Run(steps[..i]))
    {
      assert steps[..i + 1][..i] == steps[..i];
      session.Perform(steps[i], Run(steps[..i]));
    }
    assert steps[..|steps|] == steps;
  }
}
