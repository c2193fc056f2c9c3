/** The display filter: which events reach the user interface, depending on the active chat. */
module Display {
  import opened Options

  datatype Source = System | OutgoingMessage | IncomingMessage | CommandFeedback | BundleAnnouncement | SessionEvent

  /** What a message says, before formatting. */
  datatype Text =
    | HistoryLine(incoming: bool, sender: string, content: string)
    | HistoryHeader(count: nat)
    | HistoryFooter
    | ChatUsage
    | ContactNotFound(name: string)
    | EnteringChat(name: string)
    | ExitingChat
    | Other(text: string)

  datatype UiEvent =
    | Message(text: Text, contact: Option<string>, timestamp: nat, source: Source)
    | EnterChat(rdx: string, displayName: string)
    | ExitChat

  predicate Control(e: UiEvent) { !e.Message? }

  predicate AlwaysShown(e: UiEvent) { Control(e) || e.source.System? || e.source.CommandFeedback? }

  /** The active contact after an event. */
  function Turn(active: Option<string>, e: UiEvent): Option<string> {
    match e
    case EnterChat(rdx, _) => Some(rdx)
    case ExitChat => None
    case Message(_, _, _, _) => active
  }

  predicate Passes(active: Option<string>, e: UiEvent) {
    AlwaysShown(e) || active.None? || e.contact == active
  }

  function Context(active: Option<string>, es: seq<UiEvent>): Option<string> {
    if es == [] then active else Turn(Context(active, es[..|es| - 1]), es[|es| - 1])
  }

  predicate PassesAt(active: Option<string>, es: seq<UiEvent>, i: nat)
    requires i < |es|
  {
    Passes(Context(active, es[..i]), es[i])
  }

  /** What a filter that starts with this active contact sends on. */
  function Filter(active: Option<string>, es: seq<UiEvent>): seq<UiEvent> {
    if es == [] then []
    else
      var init, last := es[..|es| - 1], es[|es| - 1];
      Filter(active, init) + if Passes(Context(active, init), last) then [last] else []
  }

  // ---------------------------------------------------------------- contexts

  /** Event number k is the last control event before position i. */
  ghost predicate LastControl(es: seq<UiEvent>, k: nat, i: nat) {
    k < i <= |es| && Control(es[k]) && forall j :: k < j < i ==> !Control(es[j])
  }

  ghost predicate NoControl(es: seq<UiEvent>, i: nat) {
    i <= |es| && forall j :: 0 <= j < i ==> !Control(es[j])
  }

  lemma {:induction false} ContextFromLast(active: Option<string>, es: seq<UiEvent>, k: nat, i: nat)
    requires LastControl(es, k, i)
    ensures Context(active, es[..i]) == Turn(None, es[k])
    decreases i
  {
    assert es[..i][..i - 1] == es[..i - 1];
    if k < i - 1 {
      ContextFromLast(active, es, k, i - 1);
    }
  }

  lemma {:induction false} ContextFromStart(active: Option<string>, es: seq<UiEvent>, i: nat)
    requires NoControl(es, i)
    ensures Context(active, es[..i]) == active
    decreases i
  {
    if i > 0 {
      assert es[..i][..i - 1] == es[..i - 1];
      ContextFromStart(active, es, i - 1);
    }
  }

  lemma {:induction false} ContextAppend(active: Option<string>, xs: seq<UiEvent>, ys: seq<UiEvent>)
    ensures Context(active, xs + ys) == Context(Context(active, xs), ys)
  {
    if ys == [] {
      assert xs + ys == xs;
    } else {
      assert (xs + ys)[..|xs + ys| - 1] == xs + ys[..|ys| - 1];
      ContextAppend(active, xs, ys[..|ys| - 1]);
    }
  }

  lemma {:induction false} FilterAppend(active: Option<string>, es: seq<UiEvent>, e: UiEvent)
    ensures Context(active, es + [e]) == Turn(Context(active, es), e)
    ensures Filter(active, es + [e]) == Filter(active, es) + if Passes(Context(active, es), e) then [e] else []
  {
    assert (es + [e])[..|es|] == es;
  }

  // ---------------------------------------------------------------- exactly the right events are shown

  /**
   * Position i is to be shown: the event is a control, system or feedback event, or no chat is active
   * there, or it belongs to the contact entered last.
   */
  ghost predicate Shown(active: Option<string>, es: seq<UiEvent>, i: nat)
    requires i < |es|
  {
    || !es[i].Message? || es[i].source == System || es[i].source == CommandFeedback
    || (NoControl(es, i) && (active.None? || es[i].contact == active))
    || exists k: nat :: LastControl(es, k, i) && (es[k].ExitChat? || es[i].contact == Some(es[k].rdx))
  }

  function ShownAt(active: Option<string>, es: seq<UiEvent>): seq<nat> {
    if es == [] then []
    else
      var init, last := es[..|es| - 1], es[|es| - 1];
      ShownAt(active, init) + if Passes(Context(active, init), last) then [|init|] else []
  }

  lemma {:induction false} SomeLastControl(es: seq<UiEvent>, i: nat)
    requires i <= |es|
    ensures NoControl(es, i) || exists k: nat :: LastControl(es, k, i)
    decreases i
  {
    if i > 0 {
      SomeLastControl(es, i - 1);
      if Control(es[i - 1]) {
        assert LastControl(es, i - 1, i);
      } else if !NoControl(es, i - 1) {
        var k: nat :| LastControl(es, k, i - 1);
        assert LastControl(es, k, i);
      }
    }
  }

  lemma {:induction false} ShownIsPassed(active: Option<string>, es: seq<UiEvent>, i: nat)
    requires i < |es|
    ensures Shown(active, es, i) <==> PassesAt(active, es, i)
  {
    SomeLastControl(es, i);
    if NoControl(es, i) {
      ContextFromStart(active, es, i);
      assert forall k: nat :: !LastControl(es, k, i);
    } else {
      forall k: nat | LastControl(es, k, i) ensures Context(active, es[..i]) == Turn(None, es[k]) {
        ContextFromLast(active, es, k, i);
      }
    }
  }

  lemma {:induction false} ShownAtMeaning(active: Option<string>, es: seq<UiEvent>)
    ensures var at := ShownAt(active, es);
            && (forall a, b :: 0 <= a < b < |at| ==> at[a] < at[b])
            && (forall i: nat :: i in at <==> i < |es| && PassesAt(active, es, i))
  {
    if es != [] {
      var init := es[..|es| - 1];
      ShownAtMeaning(active, init);
      forall i: nat | i < |init| ensures PassesAt(active, es, i) == PassesAt(active, init, i) {
        assert es[..i] == init[..i];
      }
      var before := ShownAt(active, init);
      forall a | 0 <= a < |before| ensures before[a] < |init| {
        assert before[a] in before;
      }
    }
  }

  lemma {:induction false} FilterIsShownAt(active: Option<string>, es: seq<UiEvent>)
    ensures var at := ShownAt(active, es); var out := Filter(active, es);
            |out| == |at| && forall k :: 0 <= k < |at| ==> at[k] < |es| && out[k] == es[at[k]]
  {
    if es != [] {
      FilterIsShownAt(active, es[..|es| - 1]);
    }
  }

  /**
   * The stream that reaches the user interface is the subsequence of the input at exactly the
   * positions that are to be shown, in order.
   */
  lemma {:induction false} FilterShowsExactly(active: Option<string>, es: seq<UiEvent>)
    ensures var at := ShownAt(active, es); var out := Filter(active, es);
            && |out| == |at|
            && (forall a, b :: 0 <= a < b < |at| ==> at[a] < at[b])
            && (forall i: nat :: i in at <==> i < |es| && Shown(active, es, i))
            && (forall k :: 0 <= k < |at| ==> at[k] < |es| && out[k] == es[at[k]])
  {
    FilterIsShownAt(active, es);
    ShownAtMeaning(active, es);
    forall i: nat | i < |es| ensures Shown(active, es, i) <==> PassesAt(active, es, i) {
      ShownIsPassed(active, es, i);
    }
  }

  lemma {:induction false} ShownAtExactly(active: Option<string>, es: seq<UiEvent>, i: nat)
    requires i < |es|
    ensures i in ShownAt(active, es) <==> Shown(active, es, i)
  {
    FilterShowsExactly(active, es);
  }

  /**
   * Behind the entry into a chat, a message from any source but the system and command feedback is shown
   * if and only if it belongs to the contact of that chat.
   */
  lemma {:induction false} ShownInChatExactly(active: Option<string>, es: seq<UiEvent>, enter: nat, i: nat)
    requires i < |es| && LastControl(es, enter, i) && es[enter].EnterChat?
    requires es[i].Message? && es[i].source in
             {OutgoingMessage, IncomingMessage, BundleAnnouncement, SessionEvent}
    ensures i in ShownAt(active, es) <==> es[i].contact == Some(es[enter].rdx)
  {
    ShownAtExactly(active, es, i);
    OneLastControl(es, i);
  }

  lemma {:induction false} OneLastControl(es: seq<UiEvent>, i: nat)
    requires i <= |es|
    ensures forall k: nat, j: nat :: LastControl(es, k, i) && LastControl(es, j, i) ==> k == j
    ensures forall k: nat :: LastControl(es, k, i) ==> !NoControl(es, i)
  {
  }

  /**
   * Whatever chat is active, entering and leaving, system messages and command feedback are shown; and
   * after a chat was left, everything is.
   */
  lemma {:induction false} ShownAnyway(active: Option<string>, es: seq<UiEvent>, i: nat)
    requires i < |es|
    ensures es[i].EnterChat? || es[i].ExitChat? ==> i in ShownAt(active, es)
    ensures es[i].Message? && (es[i].source == System || es[i].source == CommandFeedback) ==> i in ShownAt(active, es)
    ensures forall k: nat :: LastControl(es, k, i) && es[k].ExitChat? ==> i in ShownAt(active, es)
    ensures active.None? && NoControl(es, i) ==> i in ShownAt(active, es)
  {
    ShownAtExactly(active, es, i);
  }

  // ---------------------------------------------------------------- safety of the shown stream

  /** A stream of which a filter would drop nothing. */
  ghost predicate Clean(active: Option<string>, es: seq<UiEvent>) {
    forall i: nat :: i < |es| ==> PassesAt(active, es, i)
  }

  lemma {:induction false} CleanStep(active: Option<string>, es: seq<UiEvent>)
    requires es != []
    ensures Clean(active, es) <==>
            Clean(active, es[..|es| - 1]) && PassesAt(active, es, |es| - 1)
  {
    var init := es[..|es| - 1];
    forall i: nat | i < |init| ensures PassesAt(active, es, i) == PassesAt(active, init, i) {
      assert es[..i] == init[..i];
    }
    if Clean(active, es) {
      forall i: nat | i < |init| ensures PassesAt(active, init, i) {
        assert PassesAt(active, es, i);
      }
    }
  }

  /** The filter keeps the context: the two streams agree on the active contact at every point. */
  lemma {:induction false} FilterIsClean(active: Option<string>, es: seq<UiEvent>)
    ensures Clean(active, Filter(active, es)) && Context(active, Filter(active, es)) == Context(active, es)
  {
    if es != [] {
      var init, last := es[..|es| - 1], es[|es| - 1];
      var kept := Filter(active, init);
      FilterIsClean(active, init);
      if Passes(Context(active, init), last) {
        assert (kept + [last])[..|kept|] == kept;
        CleanStep(active, kept + [last]);
      } else {
        assert Filter(active, es) == kept;
      }
    }
  }

  lemma {:induction false} LengthOfFilter(active: Option<string>, es: seq<UiEvent>)
    ensures |Filter(active, es)| <= |es|
  {
    if es != [] {
      LengthOfFilter(active, es[..|es| - 1]);
    }
  }

  lemma {:induction false} SameLast(xs: seq<UiEvent>, ys: seq<UiEvent>, e: UiEvent)
    ensures xs + [e] == ys + [e] <==> xs == ys
  {
    assert (xs + [e])[..|xs|] == xs && (ys + [e])[..|ys|] == ys;
    if xs + [e] == ys + [e] {
      assert |xs + [e]| == |ys + [e]|;
    }
  }

  /** Filtering changes nothing exactly if every event passes. */
  lemma {:induction false} FilterFixesExactlyClean(active: Option<string>, es: seq<UiEvent>)
    ensures Filter(active, es) == es <==> Clean(active, es)
  {
    if es != [] {
      var init, last := es[..|es| - 1], es[|es| - 1];
      assert Clean(active, es) <==> Clean(active, init) && Passes(Context(active, init), last) by {
        CleanStep(active, es);
      }
      FilterFixesExactlyClean(active, init);
      LengthOfFilter(active, init);
      SameLast(Filter(active, init), init, last);
    }
  }

  lemma {:induction false} FilterTwice(active: Option<string>, es: seq<UiEvent>)
    ensures Filter(active, Filter(active, es)) == Filter(active, es)
  {
    FilterIsClean(active, es);
    FilterFixesExactlyClean(active, Filter(active, es));
  }

  /**
   * Stream safety: in what is shown, between entering a chat with a contact and the next control
   * event every event is a system or feedback event or belongs to that contact.
   */
  lemma {:induction false} ShownStreamIsSafe(active: Option<string>, es: seq<UiEvent>, enter: nat, i: nat)
    requires var out := Filter(active, es); i < |out| && LastControl(out, enter, i) && out[enter].EnterChat?
    ensures var out := Filter(active, es);
            || !out[i].Message? || out[i].source == System || out[i].source == CommandFeedback
            || out[i].contact == Some(out[enter].rdx)
  {
    var out := Filter(active, es);
    FilterIsClean(active, es);
    ContextFromLast(active, out, enter, i);
    assert PassesAt(active, out, i);
  }

  // ---------------------------------------------------------------- the filter object

  class DisplayFilter {
    var active: Option<string>
    var ui: seq<UiEvent>

    constructor ()
      ensures active == None && ui == []
    {
      active, ui := None, [];
    }

    method HandleEnter(rdx: string, displayName: string)
      modifies this
      ensures active == Some(rdx) && ui == old(ui) + [EnterChat(rdx, displayName)]
    {
      active := Some(rdx);
      ui := ui + [EnterChat(rdx, displayName)];
    }

    method HandleExit()
      modifies this
      ensures active == None && ui == old(ui) + [ExitChat]
    {
      active := None;
      ui := ui + [ExitChat];
    }

    method HandleMessage(m: UiEvent)
      requires m.Message?
      modifies this`ui
      ensures ui == old(ui) + if Passes(active, m) then [m] else []
      ensures ui != old(ui) <==>
              m.source == System || m.source == CommandFeedback || active == None || m.contact == active
    {
      if m.source.System? || m.source.CommandFeedback? {
        ui := ui + [m];
        return;
      }
      if active.None? {
        ui := ui + [m];
        return;
      }
      if m.contact.Some? && m.contact.value == active.value {
        ui := ui + [m];
      }
    }

    method Handle(e: UiEvent)
      modifies this
      ensures active == Turn(old(active), e)
      ensures ui == old(ui) + if Passes(old(active), e) then [e] else []
    {
      match e
      case EnterChat(rdx, name) => HandleEnter(rdx, name);
      case ExitChat => HandleExit();
      case Message(_, _, _, _) => HandleMessage(e);
    }

    /** The processor's loop over its queue. */
    method Process(queue: seq<UiEvent>)
      modifies this
      ensures active == Context(old(active), queue)
      ensures ui == old(ui) + Filter(old(active), queue)
    {
      var i := 0;
      while i < |queue|
        invariant 0 <= i <= |queue|
        invariant active == Context(old(active), queue[..i])
        invariant ui == old(ui) + Filter(old(active), queue[..i])
      {
        Handle(queue[i]);
        assert queue[..i + 1] == queue[..i] + [queue[i]];
        FilterAppend(old(active), queue[..i], queue[i]);
        i := i + 1;
      }
      assert queue[..i] == queue;
    }
  }
}
