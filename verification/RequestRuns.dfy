/** What holds over whole runs of the request protocol. */
module RequestRuns {
  import opened Options
  import opened Requests

  // ---------------------------------------------------------------- exactly one completion event

  /** How many notices the coroutine `c` contributed to the presentation queue. */
  ghost function NoticesFrom(ended: seq<nat>, c: nat): nat {
    if ended == [] then 0
    else NoticesFrom(ended[..|ended| - 1], c) + if ended[|ended| - 1] == c then 1 else 0
  }

  lemma {:induction false} CountOfDistinct(ended: seq<nat>, c: nat)
    requires forall i, j :: 0 <= i < j < |ended| ==> ended[i] != ended[j]
    ensures NoticesFrom(ended, c) == if c in ended then 1 else 0
  {
    if ended != [] {
      var init := ended[..|ended| - 1];
      assert ended == init + [ended[|ended| - 1]];
      CountOfDistinct(init, c);
    }
  }

  /**
   * Exactly-once outcome, for every interleaving and whatever the ids: each coroutine has put one
   * frame on the transport queue, has emitted one notice if it ended and none otherwise, and the
   * presentation queue holds nothing else.
   */
  lemma {:induction false} ExactlyOnce(steps: seq<Step>, c: nat)
    requires c < |Run(steps).coroutines|
    ensures var s := Run(steps);
            && |s.frames| == |s.coroutines| && s.frames[c] == s.coroutines[c].id
            && |s.notices| == |s.ended|
            && NoticesFrom(s.ended, c) == (if s.coroutines[c].phase.Ended? then 1 else 0)
            && forall i :: 0 <= i < |s.ended| && s.ended[i] == c ==>
                 s.coroutines[c].phase == Ended(s.notices[i])
  {
    RunIsValid(steps);
    CountOfDistinct(Run(steps).ended, c);
  }

  // ---------------------------------------------------------------- acceptance is justified

  /** At some moment the reply was resolved while the coroutine's timer was still running. */
  ghost predicate ArrivedInTime(steps: seq<Step>, c: nat, r: Reply) {
    exists k :: 0 <= k < |steps| && steps[k] == Receive(r) && WaitingBefore(steps, k, c)
  }

  ghost predicate WaitingBefore(steps: seq<Step>, k: nat, c: nat)
    requires k <= |steps|
  {
    var s := Run(steps[..k]);
    c < |s.coroutines| && s.coroutines[c].phase.Waiting?
  }

  ghost predicate Justified(steps: seq<Step>, c: nat) {
    var s := Run(steps);
    c < |s.coroutines| ==>
      var co := s.coroutines[c];
      && (co.phase.Cancelled? ==> co.answer.Some? && ArrivedInTime(steps, c, co.answer.value))
      && (co.phase.Ended? && Positive(co.phase.reported) ==>
            co.answer.Some? && (co.answer.value.Ok? ==> co.answer.value.accepted)
            && ArrivedInTime(steps, c, co.answer.value))
  }

  lemma {:induction false} ArrivalPersists(steps: seq<Step>, c: nat, r: Reply)
    requires steps != [] && ArrivedInTime(steps[..|steps| - 1], c, r)
    ensures ArrivedInTime(steps, c, r)
  {
    var init := steps[..|steps| - 1];
    var k :| 0 <= k < |init| && init[k] == Receive(r) && WaitingBefore(init, k, c);
    assert init[..k] == steps[..k];
    assert WaitingBefore(steps, k, c);
  }

  /** How one step can lead a coroutine into the states that claim an answer. */
  lemma {:induction false} StepTowardsAnswer(s: State, step: Step, c: nat)
    requires Valid(s) && c < |s.coroutines|
    ensures var t := Apply(s, step);
            && c < |t.coroutines|
            && var before, after := s.coroutines[c], t.coroutines[c];
            && (after.phase.Cancelled? ==>
                  after.answer.Some? && (after == before || (before.phase.Waiting? && step == Receive(after.answer.value))))
            && (after.phase.Ended? && Positive(after.phase.reported) ==>
                  || after == before
                  || (before.phase.Cancelled? && after.answer == before.answer && after.answer.Some?
                      && (after.answer.value.Ok? ==> after.answer.value.accepted)))
  {
  }

  lemma {:induction false} EveryRunJustified(steps: seq<Step>, c: nat)
    ensures Justified(steps, c)
  {
    if steps != [] {
      var init, last := steps[..|steps| - 1], steps[|steps| - 1];
      var s := Run(init);
      EveryRunJustified(init, c);
      if c < |s.coroutines| {
        var r := s.coroutines[c].answer;
        RunIsValid(init);
        StepTowardsAnswer(s, last, c);
        if r.Some? && ArrivedInTime(init, c, r.value) {
          ArrivalPersists(steps, c, r.value);
        }
        assert s.coroutines[c].phase.Waiting? ==> WaitingBefore(steps, |steps| - 1, c);
      }
    }
  }

  /**
   * No false acceptance, for every interleaving and whatever the ids: a positive notice means that
   * a reply of the right type, with the coroutine's own id and accepting if it is an OK, was
   * resolved before the coroutine's timer expired.
   */
  lemma {:induction false} AcceptanceNeedsTimelyReply(steps: seq<Step>, c: nat)
    requires c < |Run(steps).coroutines|
    requires Run(steps).coroutines[c].phase.Ended? && Positive(Run(steps).coroutines[c].phase.reported)
    ensures var co := Run(steps).coroutines[c];
            && co.answer.Some? && ReplyId(co.answer.value) == co.id
            && (if co.command.Subscribe? then co.answer.value.Eose?
                else co.answer.value.Ok? && co.answer.value.accepted)
            && ArrivedInTime(steps, c, co.answer.value)
  {
    RunIsValid(steps);
    EveryRunJustified(steps, c);
  }

  // ---------------------------------------------------------------- published metadata

  /**
   * The published-bundle row changes only when a publish coroutine is resumed after its accepting
   * OK cancelled the timer and the row could be stored, and then it names that bundle's keys.
   */
  lemma {:induction false} MetadataChangesOnlyOnAcceptance(s: State, step: Step)
    requires Valid(s)
    requires Apply(s, step).published != s.published
    ensures step.Resume? && Resumable(s, step.coroutine) && step.recorded
    ensures var co := s.coroutines[step.coroutine];
            && co.command.Publish? && co.phase.Cancelled?
            && co.answer.Some? && co.answer.value.Ok? && co.answer.value.accepted
            && Apply(s, step).published == Some(co.command.keys)
            && Apply(s, step).notices == s.notices + [BundlePublished(co.id, true)]
  {
  }

  /** After any run the row is that of the publication accepted last, in order of completion. */
  lemma {:induction false} MetadataIsLastAccepted(steps: seq<Step>)
    ensures Valid(Run(steps))
    ensures var s := Run(steps);
            && (s.published.None? <==>
                  forall i :: 0 <= i < |s.ended| ==> !AcceptedPublish(s.coroutines[s.ended[i]]))
            && (s.published.Some? ==> exists i :: LatestAccepted(s.coroutines, s.ended, i, s.published.value))
  {
    RunIsValid(steps);
    LedgerMeaning(Run(steps).coroutines, Run(steps).ended);
  }

  predicate AcceptedPublish(co: Coroutine) {
    co.command.Publish? && co.phase.Ended? && Positive(co.phase.reported)
  }

  /** The i-th ended coroutine is an accepted publication of `keys` and none later is accepted. */
  ghost predicate LatestAccepted(coroutines: seq<Coroutine>, ended: seq<nat>, i: int, keys: KeyIds)
    requires forall k :: 0 <= k < |ended| ==> ended[k] < |coroutines|
  {
    && 0 <= i < |ended|
    && AcceptedPublish(coroutines[ended[i]]) && coroutines[ended[i]].command.keys == keys
    && forall j :: i < j < |ended| ==> !AcceptedPublish(coroutines[ended[j]])
  }

  lemma {:induction false} LedgerMeaning(coroutines: seq<Coroutine>, ended: seq<nat>)
    requires forall i :: 0 <= i < |ended| ==> ended[i] < |coroutines| && coroutines[ended[i]].phase.Ended?
    ensures var row := LastAccepted(coroutines, ended);
            && (row.None? <==> forall i :: 0 <= i < |ended| ==> !AcceptedPublish(coroutines[ended[i]]))
            && (row.Some? ==> exists i :: LatestAccepted(coroutines, ended, i, row.value))
  {
    if ended != [] {
      var n := |ended| - 1;
      var init := ended[..n];
      assert forall i :: 0 <= i < n ==> init[i] == ended[i];
      if AcceptedPublish(coroutines[ended[n]]) {
        assert LatestAccepted(coroutines, ended, n, coroutines[ended[n]].command.keys);
      } else {
        LedgerMeaning(coroutines, init);
        var row := LastAccepted(coroutines, init);
        if row.Some? {
          var i :| LatestAccepted(coroutines, init, i, row.value);
          assert LatestAccepted(coroutines, ended, i, row.value);
        }
      }
    }
  }

  // ---------------------------------------------------------------- refinement by independent requests

  /**
   * What happens to one request, told without the shared map and without any other coroutine: the
   * first of a fitting reply, the timer and a cancel-all decides; the resumption also says whether the
   * metadata could be stored.
   */
  datatype Fate =
    | Unborn
    | Open(command: Command, id: Id)
    | Answered(command: Command, id: Id, reply: Reply)
    | Late(command: Command, id: Id)
    | Orphaned(command: Command, id: Id)
    | Done(command: Command, id: Id, decided: Option<Reply>, recorded: bool)

  ghost function Births(steps: seq<Step>): nat {
    if steps == [] then 0
    else
      var last := steps[|steps| - 1];
      Births(steps[..|steps| - 1]) + if last.Start? && last.built.Some? then 1 else 0
  }

  ghost function FateNext(f: Fate, births: nat, c: nat, step: Step): Fate {
    match step
    case Start(command, built) =>
      if built.Some? && births == c then Open(command, built.value) else f
    case Receive(r) =>
      if f.Open? && f.id == ReplyId(r) && Awaits(f.command, r) then Answered(f.command, f.id, r) else f
    case Expire(d) =>
      if d == c && (f.Open? || f.Orphaned?) then Late(f.command, f.id) else f
    case Resume(d, recorded) =>
      if d == c && f.Answered? then Done(f.command, f.id, Some(f.reply), recorded)
      else if d == c && f.Late? then Done(f.command, f.id, None, recorded)
      else f
    case CancelAll => if f.Open? then Orphaned(f.command, f.id) else f
  }

  ghost function FateOf(steps: seq<Step>, c: nat): Fate {
    if steps == [] then Unborn
    else
      var init := steps[..|steps| - 1];
      FateNext(FateOf(init, c), Births(init), c, steps[|steps| - 1])
  }

  /** No request starts under an id that a coroutine still holds; checkable before each start. */
  ghost predicate FreshId(s: State, id: Id) {
    forall c :: 0 <= c < |s.coroutines| && Live(s.coroutines[c]) ==> s.coroutines[c].id != id
  }

  ghost predicate DistinctIds(steps: seq<Step>) {
    steps == [] ||
    var init, last := steps[..|steps| - 1], steps[|steps| - 1];
    DistinctIds(init) && (last.Start? && last.built.Some? ==> FreshId(Run(init), last.built.value))
  }

  ghost predicate LiveIdsDiffer(s: State) {
    forall c, d :: 0 <= c < d < |s.coroutines| && Live(s.coroutines[c]) && Live(s.coroutines[d]) ==>
      s.coroutines[c].id != s.coroutines[d].id
  }

  lemma {:induction false} StepKeepsIdsApart(s: State, step: Step)
    requires Valid(s) && LiveIdsDiffer(s)
    requires step.Start? && step.built.Some? ==> FreshId(s, step.built.value)
    ensures LiveIdsDiffer(Apply(s, step))
    ensures |Apply(s, step).coroutines| == |s.coroutines| + if step.Start? && step.built.Some? then 1 else 0
  {
  }

  lemma {:induction false} DistinctRunsKeepIdsApart(steps: seq<Step>)
    requires DistinctIds(steps)
    ensures LiveIdsDiffer(Run(steps)) && Births(steps) == |Run(steps).coroutines|
  {
    if steps != [] {
      var init := steps[..|steps| - 1];
      DistinctRunsKeepIdsApart(init);
      RunIsValid(init);
      StepKeepsIdsApart(Run(init), steps[|steps| - 1]);
    }
  }

  ghost predicate Agrees(s: State, c: nat, f: Fate) {
    if f.Unborn? then c >= |s.coroutines|
    else
      && c < |s.coroutines|
      && var co := s.coroutines[c];
      && co.command == f.command && co.id == f.id
      && match f
         case Open(_, id) => co.phase.Waiting? && id in s.pending && s.pending[id] == c
         case Answered(_, id, r) => co.phase.Cancelled? && co.answer == Some(r) && ReplyId(r) == id
         case Late(_, _) => co.phase.Expired?
         case Done(_, id, r, recorded) =>
           && co.phase == Ended(Completion(co.command, id, r, recorded))
           && (r.Some? ==> co.answer == r && ReplyId(r.value) == id && Awaits(co.command, r.value))
         case Orphaned(_, id) => co.phase.Waiting? && !(id in s.pending && s.pending[id] == c)
  }

  /**
   * With distinct ids the shared map adds nothing: after every run each coroutine is exactly where
   * its own request's fate puts it.
   */
  lemma {:induction false} RunRefinesFates(steps: seq<Step>, c: nat)
    requires DistinctIds(steps)
    ensures Agrees(Run(steps), c, FateOf(steps, c))
  {
    if steps != [] {
      var init, last := steps[..|steps| - 1], steps[|steps| - 1];
      RunRefinesFates(init, c);
      DistinctRunsKeepIdsApart(init);
      RunIsValid(init);
      FateStep(Run(init), FateOf(init, c), last, c);
    }
  }

  lemma {:induction false} FateStep(s: State, f: Fate, step: Step, c: nat)
    requires Valid(s) && LiveIdsDiffer(s) && Agrees(s, c, f)
    requires step.Start? && step.built.Some? ==> FreshId(s, step.built.value)
    ensures Agrees(Apply(s, step), c, FateNext(f, |s.coroutines|, c, step))
  {
    match step
    case Start(command, built) =>
    case Receive(r) => FateReceive(s, f, r, c);
    case Expire(d) =>
    case Resume(d, recorded) => FateResume(s, f, d, recorded, c);
    case CancelAll =>
  }

  lemma {:induction false} FateReceive(s: State, f: Fate, r: Reply, c: nat)
    requires Valid(s) && LiveIdsDiffer(s) && Agrees(s, c, f)
    ensures Agrees(Resolve(s, r), c, FateNext(f, |s.coroutines|, c, Receive(r)))
  {
  }

  lemma {:induction false} FateResume(s: State, f: Fate, d: nat, recorded: bool, c: nat)
    requires Valid(s) && LiveIdsDiffer(s) && Agrees(s, c, f)
    ensures Agrees(ResumeCoroutine(s, d, recorded), c, FateNext(f, |s.coroutines|, c, Resume(d, recorded)))
  {
  }

  /** A request that has ended was decided by its own fate, and its notice says so. */
  ghost predicate TellsFate(steps: seq<Step>, c: nat) {
    c < |Run(steps).coroutines| && Run(steps).coroutines[c].phase.Ended? ==>
      var co, f := Run(steps).coroutines[c], FateOf(steps, c);
      && f.Done?
      && co.phase.reported == Completion(f.command, f.id, f.decided, f.recorded)
      && (f.decided.Some? ==> co.answer == f.decided)
  }

  /** With distinct ids every notice is that of the request's own fate. */
  lemma {:induction false} ReportedOutcomeIsFate(steps: seq<Step>, c: nat)
    requires DistinctIds(steps)
    ensures TellsFate(steps, c)
  {
    RunRefinesFates(steps, c);
  }

  /**
   * For each command, success is reported if and only if its fitting reply came first and said so: an
   * accepting OK, for a publish also stored metadata, for a subscription an EOSE with a non-empty id.
   */
  lemma {:induction false} AcceptedExactlyWhenOkCameFirst(steps: seq<Step>, c: nat)
    requires DistinctIds(steps)
    requires c < |Run(steps).coroutines| && Run(steps).coroutines[c].phase.Ended?
    ensures FateOf(steps, c).Done?
    ensures var co, f := Run(steps).coroutines[c], FateOf(steps, c);
            Positive(co.phase.reported) <==>
            f.decided.Some? && match co.command
                               case Send(_) => f.decided.value.Ok? && f.decided.value.accepted
                               case Unpublish => f.decided.value.Ok? && f.decided.value.accepted
                               case Publish(_) => f.decided.value.Ok? && f.decided.value.accepted && f.recorded
                               case Subscribe => f.decided.value.Eose? && co.id != ""
  {
    RunRefinesFates(steps, c);
  }

  /**
   * What a notice says, field by field: the request's own peer and id, and what the deciding reply said.  A
   * request that no reply decided, and an accepted publication that could not be recorded, give no id.
   */
  ghost predicate SaysWhatDecided(co: Coroutine, decided: Option<Reply>, recorded: bool)
    requires co.phase.Ended?
  {
    var n := co.phase.reported;
    if decided.None? then
      match co.command
      case Send(peer) => n.MessageSent? && n.peer == peer && n.eventId == "" && !n.accepted
      case Publish(_) => n.BundlePublished? && n.eventId == "" && !n.accepted
      case Unpublish => n.BundlePublished? && n.eventId == "" && !n.accepted
      case Subscribe => n.SubscriptionEstablished? && n.subscriptionId == ""
    else
      var r := decided.value;
      match co.command
      case Send(peer) =>
        r.Ok? && r.eventId == co.id
        && n.MessageSent? && n.peer == peer && n.eventId == co.id && n.accepted == r.accepted
      case Publish(_) =>
        r.Ok? && r.eventId == co.id && n.BundlePublished?
        && (if r.accepted && !recorded then n.eventId == "" && !n.accepted
            else n.eventId == co.id && n.accepted == r.accepted)
      case Unpublish =>
        r.Ok? && r.eventId == co.id && n.BundlePublished? && n.eventId == co.id && n.accepted == r.accepted
      case Subscribe =>
        r.Eose? && r.subscriptionId == co.id && n.SubscriptionEstablished? && n.subscriptionId == co.id
  }

  /** With distinct ids every notice says exactly what decided its request. */
  lemma {:induction false} NoticeSaysWhatDecided(steps: seq<Step>, c: nat)
    requires DistinctIds(steps)
    requires c < |Run(steps).coroutines| && Run(steps).coroutines[c].phase.Ended?
    ensures FateOf(steps, c).Done?
    ensures var f := FateOf(steps, c); SaysWhatDecided(Run(steps).coroutines[c], f.decided, f.recorded)
  {
    RunRefinesFates(steps, c);
  }

  /** Whatever the ids: a notice names its own request, with its own id or with none and no success. */
  ghost predicate NamesItsRequest(co: Coroutine) {
    co.phase.Ended? ==>
      var n := co.phase.reported;
      match co.command
      case Send(peer) => n.MessageSent? && n.peer == peer && (n.eventId == co.id || (n.eventId == "" && !n.accepted))
      case Publish(_) => n.BundlePublished? && (n.eventId == co.id || (n.eventId == "" && !n.accepted))
      case Unpublish => n.BundlePublished? && (n.eventId == co.id || (n.eventId == "" && !n.accepted))
      case Subscribe => n.SubscriptionEstablished? && (n.subscriptionId == co.id || n.subscriptionId == "")
  }

  ghost predicate AllNamed(s: State) {
    forall c :: 0 <= c < |s.coroutines| ==> NamesItsRequest(s.coroutines[c])
  }

  lemma {:induction false} StepNamesRequests(s: State, step: Step)
    requires AnswersMatch(s) && AllNamed(s)
    ensures AllNamed(Apply(s, step))
  {
  }

  lemma {:induction false} EveryNoticeNamesItsRequest(steps: seq<Step>)
    ensures AllNamed(Run(steps))
  {
    if steps != [] {
      EveryNoticeNamesItsRequest(steps[..|steps| - 1]);
      RunIsValid(steps[..|steps| - 1]);
      StepNamesRequests(Run(steps[..|steps| - 1]), steps[|steps| - 1]);
    }
  }

  // ---------------------------------------------------------------- why ids must be distinct

  /** Every start after `before` is under an id that no coroutine holds at that time. */
  ghost predicate StartsFresh(before: seq<Step>, more: seq<Step>) {
    more == [] ||
    var init, last := more[..|more| - 1], more[|more| - 1];
    StartsFresh(before, init) &&
    (last.Start? && last.built.Some? ==> FreshId(Run(before + init), last.built.value))
  }

  ghost predicate ToldAfter(before: seq<Step>, more: seq<Step>, c: nat) { TellsFate(before + more, c) }

  lemma {:induction false} FreshStartsAreDistinct(before: seq<Step>, more: seq<Step>)
    requires DistinctIds(before) && StartsFresh(before, more)
    ensures DistinctIds(before + more)
  {
    if more == [] {
      assert before + more == before;
    } else {
      var init := more[..|more| - 1];
      FreshStartsAreDistinct(before, init);
      assert (before + more)[..|before + more| - 1] == before + init;
    }
  }

  /**
   * After a run with distinct ids, a request may be started under an id, so that in every continuation
   * all requests report their own fates, if and only if no coroutine that has not ended holds that id:
   * whether it waits, has been answered or has expired.
   */
  lemma {:induction false} StartIsSafeExactly(steps: seq<Step>, command: Command, id: Id)
    requires DistinctIds(steps)
    ensures (forall more, c :: StartsFresh(steps + [Start(command, Some(id))], more) ==>
               ToldAfter(steps + [Start(command, Some(id))], more, c))
            <==> FreshId(Run(steps), id)
  {
    var started := Extend(steps, Start(command, Some(id)));
    if FreshId(Run(steps), id) {
      forall more, c | StartsFresh(started, more) ensures ToldAfter(started, more, c) {
        FreshStartsAreDistinct(started, more);
        ReportedOutcomeIsFate(started + more, c);
      }
    } else {
      var h :| 0 <= h < |Run(steps).coroutines| && Live(Run(steps).coroutines[h]) && Run(steps).coroutines[h].id == id;
      HeldIdLosesReply(steps, command, id, h);
      assert !ToldAfter(started, LosingSteps(command, id, h, |Run(steps).coroutines|), |Run(steps).coroutines|);
    }
  }

  function FittingReply(command: Command, id: Id): Reply {
    if command.Subscribe? then Eose(id) else Ok(id, true, "")
  }

  /** The holder h of the id ends, then the new request n gets its reply, and then its timer elapses. */
  function LosingSteps(command: Command, id: Id, h: nat, n: nat): seq<Step> {
    [Expire(h)] + [Resume(h, true)] + [Receive(FittingReply(command, id))] + [Expire(n)] + [Resume(n, true)]
  }

  /** Whoever still holds the id, the new request loses a reply that came in time and reports a timeout. */
  lemma {:induction false} HeldIdLosesReply(steps: seq<Step>, command: Command, id: Id, h: nat)
    requires DistinctIds(steps)
    requires h < |Run(steps).coroutines| && Live(Run(steps).coroutines[h]) && Run(steps).coroutines[h].id == id
    ensures var started, n := steps + [Start(command, Some(id))], |Run(steps).coroutines|;
            var more := LosingSteps(command, id, h, n);
            && StartsFresh(started, more)
            && FateOf(started + more, n) == Done(command, id, Some(FittingReply(command, id)), true)
            && |Run(started + more).coroutines| == n + 1
            && Run(started + more).coroutines[n] ==
               Coroutine(command, id, Ended(Completion(command, id, None, true)), None)
  {
    var n := |Run(steps).coroutines|;
    NextIsUnborn(steps);
    LosingFate(steps, command, id, h, n);
    LosingOutcome(steps, command, id, h);
    NoStartsAreFresh(steps + [Start(command, Some(id))], LosingSteps(command, id, h, n));
  }

  lemma {:induction false} LosingOutcome(steps: seq<Step>, command: Command, id: Id, h: nat)
    requires h < |Run(steps).coroutines| && Live(Run(steps).coroutines[h]) && Run(steps).coroutines[h].id == id
    ensures var n := |Run(steps).coroutines|;
            var t := Run(steps + [Start(command, Some(id))] + LosingSteps(command, id, h, n));
            && |t.coroutines| == n + 1
            && t.coroutines[n] == Coroutine(command, id, Ended(Completion(command, id, None, true)), None)
  {
    LosingRun(steps, command, id, h, |Run(steps).coroutines|);
    LosingEnd(Run(steps), command, id, h);
  }

  lemma {:induction false} NextIsUnborn(steps: seq<Step>)
    requires DistinctIds(steps)
    ensures FateOf(steps, |Run(steps).coroutines|).Unborn? && Births(steps) == |Run(steps).coroutines|
  {
    DistinctRunsKeepIdsApart(steps);
    RunRefinesFates(steps, |Run(steps).coroutines|);
  }

  function AfterLosing(s: State, command: Command, id: Id, h: nat, n: nat): State {
    var t := ResumeCoroutine(TimerElapses(StartRequest(s, command, Some(id)), h), h, true);
    ResumeCoroutine(TimerElapses(Resolve(t, FittingReply(command, id)), n), n, true)
  }

  lemma {:induction false} RunNext(steps: seq<Step>, step: Step)
    ensures Run(steps + [step]) == Apply(Run(steps), step)
  {
    assert (steps + [step])[..|steps|] == steps;
  }

  lemma {:induction false} LosingRun(steps: seq<Step>, command: Command, id: Id, h: nat, n: nat)
    ensures Run(steps + [Start(command, Some(id))] + LosingSteps(command, id, h, n)) ==
            AfterLosing(Run(steps), command, id, h, n)
  {
    var s0 := steps + [Start(command, Some(id))];
    var s1 := s0 + [Expire(h)];
    var s2 := s1 + [Resume(h, true)];
    var s3 := s2 + [Receive(FittingReply(command, id))];
    var s4 := s3 + [Expire(n)];
    assert s0 + LosingSteps(command, id, h, n) == s4 + [Resume(n, true)];
    RunNext(steps, Start(command, Some(id)));
    RunNext(s0, Expire(h));
    RunNext(s1, Resume(h, true));
    RunNext(s2, Receive(FittingReply(command, id)));
    RunNext(s3, Expire(n));
    RunNext(s4, Resume(n, true));
  }

  lemma {:induction false} LosingEnd(s: State, command: Command, id: Id, h: nat)
    requires h < |s.coroutines| && Live(s.coroutines[h]) && s.coroutines[h].id == id
    ensures var t, n := AfterLosing(s, command, id, h, |s.coroutines|), |s.coroutines|;
            && |t.coroutines| == n + 1
            && t.coroutines[n] == Coroutine(command, id, Ended(Completion(command, id, None, true)), None)
  {
    HolderErasesEntry(s, command, id, h);
  }

  lemma {:induction false} LosingFate(steps: seq<Step>, command: Command, id: Id, h: nat, n: nat)
    requires FateOf(steps, n).Unborn? && Births(steps) == n && h < n
    ensures FateOf(steps + [Start(command, Some(id))] + LosingSteps(command, id, h, n), n) ==
            Done(command, id, Some(FittingReply(command, id)), true)
  {
    var s0 := steps + [Start(command, Some(id))];
    var s1 := s0 + [Expire(h)];
    var s2 := s1 + [Resume(h, true)];
    var s3 := s2 + [Receive(FittingReply(command, id))];
    var s4 := s3 + [Expire(n)];
    assert s0 + LosingSteps(command, id, h, n) == s4 + [Resume(n, true)];
    NextFate(steps, Start(command, Some(id)), n);
    NextFate(s0, Expire(h), n);
    NextFate(s1, Resume(h, true), n);
    NextFate(s2, Receive(FittingReply(command, id)), n);
    NextFate(s3, Expire(n), n);
    NextFate(s4, Resume(n, true), n);
  }

  lemma {:induction false} NextFate(steps: seq<Step>, step: Step, c: nat)
    ensures FateOf(steps + [step], c) == FateNext(FateOf(steps, c), Births(steps), c, step)
  {
    assert (steps + [step])[..|steps|] == steps;
  }

  lemma {:induction false} HolderErasesEntry(s: State, command: Command, id: Id, h: nat)
    requires h < |s.coroutines| && Live(s.coroutines[h]) && s.coroutines[h].id == id
    ensures var t := Apply(Apply(StartRequest(s, command, Some(id)), Expire(h)), Resume(h, true));
            && id !in t.pending && |t.coroutines| == |s.coroutines| + 1
            && t.coroutines[|s.coroutines|] == Coroutine(command, id, Waiting, None)
  {
  }

  lemma {:induction false} NoStartsAreFresh(before: seq<Step>, more: seq<Step>)
    requires forall i :: 0 <= i < |more| ==> !more[i].Start?
    ensures StartsFresh(before, more)
  {
    if more != [] {
      NoStartsAreFresh(before, more[..|more| - 1]);
    }
  }

  /** A waiting coroutine whose timer elapses and which is then resumed. */
  lemma {:induction false} ElapseAndResume(s: State, c: nat)
    requires c < |s.coroutines|
    ensures var co, t := s.coroutines[c], Apply(Apply(s, Expire(c)), Resume(c, true));
            && |t.coroutines| == |s.coroutines| && t.coroutines[c].phase.Ended?
            && (co.phase.Waiting? ==>
                  && t.pending == s.pending - {co.id}
                  && t.coroutines[c] == co.(phase := Ended(Completion(co.command, co.id, None, true))))
            && forall d :: 0 <= d < |s.coroutines| && d != c ==> t.coroutines[d] == s.coroutines[d]
  {
  }

  /** Two overlapping requests under one id: the second loses an accepting OK that came in time. */
  lemma {:induction false} SharedIdLosesReply()
    ensures exists steps: seq<Step> ::
              && !DistinctIds(steps)
              && FateOf(steps, 1) == Done(Send("bob"), "e1", Some(Ok("e1", true, "")), true)
              && |Run(steps).coroutines| == 2
              && Run(steps).coroutines[1].phase == Ended(MessageSent("bob", "", false))
  {
    var first := Extend([], Start(Send("alice"), Some("e1")));
    HeldIdLosesReply(first, Send("bob"), "e1", 0);
    var steps := first + [Start(Send("bob"), Some("e1"))] + LosingSteps(Send("bob"), "e1", 0, 1);
    assert Run(steps).coroutines[1].phase == Ended(MessageSent("bob", "", false));
    if DistinctIds(steps) {
      ReportedOutcomeIsFate(steps, 1);
      assert false;
    }
  }

  lemma {:induction false} Extend(steps: seq<Step>, step: Step) returns (longer: seq<Step>)
    ensures longer == steps + [step]
    ensures Run(longer) == Apply(Run(steps), step)
    ensures forall c: nat :: FateOf(longer, c) == FateNext(FateOf(steps, c), Births(steps), c, step)
    ensures Births(longer) == Births(steps) + if step.Start? && step.built.Some? then 1 else 0
    ensures DistinctIds(longer) <==>
            DistinctIds(steps) && (step.Start? && step.built.Some? ==> FreshId(Run(steps), step.built.value))
  {
    longer := steps + [step];
    assert longer[..|longer| - 1] == steps;
  }

  // ---------------------------------------------------------------- every coroutine can end

  /** Nothing but elapsing timers and resumptions, coroutine by coroutine. */
  ghost function DrainSteps(n: nat): seq<Step> {
    if n == 0 then [] else DrainSteps(n - 1) + [Expire(n - 1)] + [Resume(n - 1, true)]
  }

  ghost predicate EndedUpTo(s: State, n: nat) {
    n <= |s.coroutines| && forall c :: 0 <= c < n ==> s.coroutines[c].phase.Ended?
  }

  function Drained(s: State, n: nat): State {
    if n == 0 then s else Apply(Apply(Drained(s, n - 1), Expire(n - 1)), Resume(n - 1, true))
  }

  lemma {:induction false} DrainedRun(steps: seq<Step>, n: nat)
    ensures Run(steps + DrainSteps(n)) == Drained(Run(steps), n)
  {
    if n == 0 {
      assert steps + DrainSteps(0) == steps;
    } else {
      var before := steps + DrainSteps(n - 1);
      DrainedRun(steps, n - 1);
      RunNext(before, Expire(n - 1));
      RunNext(before + [Expire(n - 1)], Resume(n - 1, true));
      Regroup(steps, DrainSteps(n - 1), Expire(n - 1), Resume(n - 1, true));
    }
  }

  lemma {:induction false} DrainedEnds(s: State, n: nat)
    requires n <= |s.coroutines|
    ensures |Drained(s, n).coroutines| == |s.coroutines| && EndedUpTo(Drained(s, n), n)
  {
    if n > 0 {
      DrainedEnds(s, n - 1);
      ElapseAndResume(Drained(s, n - 1), n - 1);
    }
  }

  lemma {:induction false} DrainEnds(steps: seq<Step>, n: nat)
    requires n <= |Run(steps).coroutines|
    ensures |Run(steps + DrainSteps(n)).coroutines| == |Run(steps).coroutines|
    ensures EndedUpTo(Run(steps + DrainSteps(n)), n)
  {
    DrainedRun(steps, n);
    DrainedEnds(Run(steps), n);
  }

  lemma {:induction false} Regroup(xs: seq<Step>, ys: seq<Step>, a: Step, b: Step)
    ensures xs + (ys + [a] + [b]) == xs + ys + [a] + [b]
  {
  }

  /**
   * No request is stuck and nothing leaks: every run can be continued by elapsing timers and
   * resumptions alone to a state in which all coroutines have ended; then `pending` is empty and
   * every request has had its one notice.
   */
  lemma {:induction false} EverythingSettles(steps: seq<Step>)
    ensures var t := Run(steps + DrainSteps(|Run(steps).coroutines|));
            && |t.coroutines| == |Run(steps).coroutines|
            && (forall c :: 0 <= c < |t.coroutines| ==> t.coroutines[c].phase.Ended?)
            && t.pending == map[]
            && |t.notices| == |t.coroutines|
  {
    DrainEnds(steps, |Run(steps).coroutines|);
    RunIsValid(steps + DrainSteps(|Run(steps).coroutines|));
    AllEndedIsClean(Run(steps + DrainSteps(|Run(steps).coroutines|)));
  }

  /** Once every coroutine has ended no entry is left behind and nothing is still to be reported. */
  lemma {:induction false} AllEndedIsClean(t: State)
    requires Valid(t) && forall c :: 0 <= c < |t.coroutines| ==> t.coroutines[c].phase.Ended?
    ensures t.pending == map[] && |t.notices| == |t.coroutines|
  {
    assert t.pending.Keys == {};
    assert forall c: nat :: c < |t.coroutines| <==> c in t.ended;
    EnumerationLength(t.ended, |t.coroutines|);
  }

  lemma {:induction false} EnumerationLength(xs: seq<nat>, n: nat)
    requires forall i, j :: 0 <= i < j < |xs| ==> xs[i] != xs[j]
    requires forall c: nat :: c < n <==> c in xs
    ensures |xs| == n
  {
    assert |xs| > 0 ==> xs[0] in xs;
    if n > 0 {
      assert n - 1 in xs;
      var k :| 0 <= k < |xs| && xs[k] == n - 1;
      var ys := xs[..k] + xs[k + 1..];
      forall c: nat ensures c < n - 1 <==> c in ys {
        assert c in xs ==> c in ys || c == n - 1 by {
          if i :| 0 <= i < |xs| && xs[i] == c && i != k {
            assert ys[if i < k then i else i - 1] == c;
          }
        }
        assert n - 1 !in ys;
      }
      EnumerationLength(ys, n - 1);
    }
  }
}
