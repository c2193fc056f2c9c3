/**
 * Request tracking and the orchestrator's coroutines.
 *
 * Every send, publish, unpublish and subscribe runs as a coroutine that hands one frame to the
 * transport, registers its id in the tracker's `pending` map and then waits on a timer.  Relay
 * replies, timer expiries and resumptions interleave freely.  `Expired` and `Cancelled` are the
 * two states in which the wait is over but the coroutine has not been resumed yet.
 *
 * The state is a value, the steps are functions on it, and a run is a fold of steps.
 * `Orchestrator` is the imperative form whose methods are proved to take exactly these steps.
 */
module Requests {
  import opened Options

  type Id = string

  datatype KeyIds = KeyIds(preKey: nat, signedPreKey: nat, kyberPreKey: nat)

  datatype Command = Send(peer: string) | Publish(keys: KeyIds) | Unpublish | Subscribe

  datatype Reply = Ok(eventId: Id, accepted: bool, message: string) | Eose(subscriptionId: Id)

  datatype Notice =
    | MessageSent(peer: string, eventId: Id, accepted: bool)
    | BundlePublished(eventId: Id, accepted: bool)
    | SubscriptionEstablished(subscriptionId: Id)

  datatype Phase = Waiting | Expired | Cancelled | Ended(reported: Notice)

  datatype Coroutine = Coroutine(command: Command, id: Id, phase: Phase, answer: Option<Reply>)

  /** `ended` lists the coroutines in the order in which they ended; it is history only. */
  datatype State = State(
    pending: map<Id, nat>,
    coroutines: seq<Coroutine>,
    frames: seq<Id>,
    notices: seq<Notice>,
    published: Option<KeyIds>,
    ended: seq<nat>)

  datatype Step =
    | Start(command: Command, built: Option<Id>)  // None: building the frame threw
    | Receive(reply: Reply)
    | Expire(coroutine: nat)
    | Resume(coroutine: nat, recorded: bool)      // recorded: did storing the metadata succeed
    | CancelAll

  const INITIAL := State(map[], [], [], [], None, [])

  function ReplyId(r: Reply): Id {
    match r
    case Ok(id, _, _) => id
    case Eose(id) => id
  }

  /** The type a coroutine extracts from the reply; any other reply makes the extraction throw. */
  predicate Awaits(command: Command, r: Reply) {
    if command.Subscribe? then r.Eose? else r.Ok?
  }

  /** The one event a coroutine emits when it ends; None is the timeout exception. */
  function Completion(command: Command, id: Id, outcome: Option<Reply>, recorded: bool): Notice {
    match command
    case Send(peer) =>
      if Accepts(outcome).Some? then MessageSent(peer, id, Accepts(outcome).value) else MessageSent(peer, "", false)
    case Publish(_) =>
      if Accepts(outcome).Some? && (Accepts(outcome).value ==> recorded)
      then BundlePublished(id, Accepts(outcome).value) else BundlePublished("", false)
    case Unpublish =>
      if Accepts(outcome).Some? then BundlePublished(id, Accepts(outcome).value) else BundlePublished("", false)
    case Subscribe =>
      if outcome.Some? && outcome.value.Eose?
      then SubscriptionEstablished(outcome.value.subscriptionId) else SubscriptionEstablished("")
  }

  function Accepts(outcome: Option<Reply>): Option<bool> {
    if outcome.Some? && outcome.value.Ok? then Some(outcome.value.accepted) else None
  }

  /** Does a notice report success to the user? */
  predicate Positive(n: Notice) {
    match n
    case MessageSent(_, _, accepted) => accepted
    case BundlePublished(_, accepted) => accepted
    case SubscriptionEstablished(id) => id != ""
  }

  // ---------------------------------------------------------------- invariant of every run

  predicate Live(co: Coroutine) { !co.phase.Ended? }

  /** An entry of `pending` belongs to a coroutine that is still suspended on its timer. */
  ghost predicate PendingAlive(s: State) {
    forall id :: id in s.pending ==>
      && s.pending[id] < |s.coroutines|
      && var co := s.coroutines[s.pending[id]];
      co.id == id && (co.phase.Waiting? || co.phase.Expired?) && co.answer.None?
  }

  ghost predicate AnswersMatch(s: State) {
    forall c :: 0 <= c < |s.coroutines| ==>
      && var co := s.coroutines[c];
      && (co.answer.Some? ==> Awaits(co.command, co.answer.value) && ReplyId(co.answer.value) == co.id)
      && (co.phase.Waiting? ==> co.answer.None?)
      && (co.phase.Cancelled? ==> co.answer.Some?)
  }

  /** One notice for each ended coroutine, in the order in which they ended, and no others. */
  ghost predicate OneNoticeEach(s: State) {
    && |s.notices| == |s.ended|
    && (forall i :: 0 <= i < |s.ended| ==>
          && s.ended[i] < |s.coroutines|
          && s.coroutines[s.ended[i]].phase == Ended(s.notices[i]))
    && (forall i, j :: 0 <= i < j < |s.ended| ==> s.ended[i] != s.ended[j])
    && (forall c: nat :: c < |s.coroutines| && s.coroutines[c].phase.Ended? ==> c in s.ended)
  }

  ghost predicate OneFrameEach(s: State) {
    |s.frames| == |s.coroutines| && forall c :: 0 <= c < |s.frames| ==> s.frames[c] == s.coroutines[c].id
  }

  /** The metadata of the most recent publication that was reported as accepted. */
  ghost function LastAccepted(coroutines: seq<Coroutine>, ended: seq<nat>): Option<KeyIds>
    requires forall i :: 0 <= i < |ended| ==> ended[i] < |coroutines| && coroutines[ended[i]].phase.Ended?
  {
    if ended == [] then None
    else
      var co := coroutines[ended[|ended| - 1]];
      if co.command.Publish? && Positive(co.phase.reported) then Some(co.command.keys)
      else LastAccepted(coroutines, ended[..|ended| - 1])
  }

  ghost predicate Valid(s: State) {
    && PendingAlive(s)
    && AnswersMatch(s)
    && OneFrameEach(s)
    && OneNoticeEach(s)
    && s.published == LastAccepted(s.coroutines, s.ended)
  }

  /** Later coroutines and phases of coroutines that have not ended do not change the ledger. */
  lemma {:induction false} LedgerFrame(a: seq<Coroutine>, b: seq<Coroutine>, ended: seq<nat>)
    requires forall i :: 0 <= i < |ended| ==> ended[i] < |a| && a[ended[i]].phase.Ended?
    requires |a| <= |b| && forall i :: 0 <= i < |ended| ==> b[ended[i]] == a[ended[i]]
    ensures LastAccepted(a, ended) == LastAccepted(b, ended)
  {
    if ended != [] {
      var init := ended[..|ended| - 1];
      assert forall i :: 0 <= i < |init| ==> init[i] == ended[i];
      LedgerFrame(a, b, init);
    }
  }

  // ---------------------------------------------------------------- the steps

  function StartRequest(s: State, command: Command, built: Option<Id>): State {
    if built.None? then s
    else s.(pending := s.pending[built.value := |s.coroutines|],
            coroutines := s.coroutines + [Coroutine(command, built.value, Waiting, None)],
            frames := s.frames + [built.value])
  }

  /** The coroutine that a reply reaches through `pending`, if it extracts replies of this type. */
  predicate Reaches(s: State, r: Reply, c: nat) {
    && ReplyId(r) in s.pending && s.pending[ReplyId(r)] == c
    && c < |s.coroutines| && Awaits(s.coroutines[c].command, r)
  }

  /** A reply that does not fit throws out of the callback before anything is erased. */
  function Resolve(s: State, r: Reply): State {
    var id := ReplyId(r);
    if id in s.pending && Reaches(s, r, s.pending[id]) then
      var c := s.pending[id];
      var co := s.coroutines[c];
      // Cancelling a wait whose timer has already elapsed has no effect.
      s.(coroutines := s.coroutines[c := co.(answer := Some(r),
                                             phase := if co.phase.Waiting? then Cancelled else co.phase)],
         pending := s.pending - {id})
    else s
  }

  function TimerElapses(s: State, c: nat): State {
    if c < |s.coroutines| && s.coroutines[c].phase.Waiting?
    then s.(coroutines := s.coroutines[c := s.coroutines[c].(phase := Expired)])
    else s
  }

  predicate Resumable(s: State, c: nat) {
    c < |s.coroutines| && (s.coroutines[c].phase.Expired? || s.coroutines[c].phase.Cancelled?)
  }

  function Outcome(co: Coroutine): Option<Reply> {
    if co.phase.Cancelled? then co.answer else None
  }

  function ResumeCoroutine(s: State, c: nat, recorded: bool): State {
    if !Resumable(s, c) then s
    else
      var co := s.coroutines[c];
      var notice := Completion(co.command, co.id, Outcome(co), recorded);
      s.(pending := s.pending - {co.id},
         coroutines := s.coroutines[c := co.(phase := Ended(notice))],
         notices := s.notices + [notice],
         published := if co.command.Publish? && Positive(notice) then Some(co.command.keys) else s.published,
         ended := s.ended + [c])
  }

  function Apply(s: State, step: Step): State {
    match step
    case Start(command, built) => StartRequest(s, command, built)
    case Receive(r) => Resolve(s, r)
    case Expire(c) => TimerElapses(s, c)
    case Resume(c, recorded) => ResumeCoroutine(s, c, recorded)
    case CancelAll => s.(pending := map[])
  }

  lemma {:induction false} StartKeepsValid(s: State, command: Command, built: Option<Id>)
    requires Valid(s)
    ensures Valid(StartRequest(s, command, built))
  {
    LedgerFrame(s.coroutines, StartRequest(s, command, built).coroutines, s.ended);
  }

  lemma {:induction false} ResolveKeepsValid(s: State, r: Reply)
    requires Valid(s)
    ensures Valid(Resolve(s, r))
  {
    LedgerFrame(s.coroutines, Resolve(s, r).coroutines, s.ended);
  }

  lemma {:induction false} ExpireKeepsValid(s: State, c: nat)
    requires Valid(s)
    ensures Valid(TimerElapses(s, c))
  {
    LedgerFrame(s.coroutines, TimerElapses(s, c).coroutines, s.ended);
  }

  lemma {:induction false} ResumeAddsOneNotice(s: State, c: nat, recorded: bool)
    requires OneNoticeEach(s)
    ensures OneNoticeEach(ResumeCoroutine(s, c, recorded))
  {
    if Resumable(s, c) {
      var t := ResumeCoroutine(s, c, recorded);
      assert c !in s.ended;
      forall d: nat | d < |t.coroutines| && t.coroutines[d].phase.Ended? ensures d in t.ended {
        assert d == c || d in s.ended;
      }
    }
  }

  lemma {:induction false} ResumeErasesItsEntry(s: State, c: nat, recorded: bool)
    requires PendingAlive(s)
    ensures PendingAlive(ResumeCoroutine(s, c, recorded))
  {
  }

  lemma {:induction false} ResumeKeepsAnswers(s: State, c: nat, recorded: bool)
    requires AnswersMatch(s) && OneFrameEach(s)
    ensures AnswersMatch(ResumeCoroutine(s, c, recorded)) && OneFrameEach(ResumeCoroutine(s, c, recorded))
  {
  }

  lemma {:induction false} ResumeKeepsLedger(s: State, c: nat, recorded: bool)
    requires OneNoticeEach(s) && s.published == LastAccepted(s.coroutines, s.ended)
    ensures OneNoticeEach(ResumeCoroutine(s, c, recorded))
    ensures var t := ResumeCoroutine(s, c, recorded); t.published == LastAccepted(t.coroutines, t.ended)
  {
    ResumeAddsOneNotice(s, c, recorded);
    if Resumable(s, c) {
      var t := ResumeCoroutine(s, c, recorded);
      LedgerFrame(s.coroutines, t.coroutines, s.ended);
      LedgerNext(t.coroutines, s.ended, c);
    }
  }

  lemma {:induction false} LedgerNext(coroutines: seq<Coroutine>, ended: seq<nat>, c: nat)
    requires forall i :: 0 <= i < |ended| ==> ended[i] < |coroutines| && coroutines[ended[i]].phase.Ended?
    requires c < |coroutines| && coroutines[c].phase.Ended?
    ensures LastAccepted(coroutines, ended + [c]) ==
            if coroutines[c].command.Publish? && Positive(coroutines[c].phase.reported)
            then Some(coroutines[c].command.keys) else LastAccepted(coroutines, ended)
  {
    assert (ended + [c])[..|ended|] == ended;
  }

  lemma {:induction false} ResumeKeepsValid(s: State, c: nat, recorded: bool)
    requires Valid(s)
    ensures Valid(ResumeCoroutine(s, c, recorded))
  {
    ResumeErasesItsEntry(s, c, recorded);
    ResumeKeepsAnswers(s, c, recorded);
    ResumeKeepsLedger(s, c, recorded);
  }

  lemma {:induction false} ApplyKeepsValid(s: State, step: Step)
    requires Valid(s)
    ensures Valid(Apply(s, step))
  {
    match step
    case Start(command, built) => StartKeepsValid(s, command, built);
    case Receive(r) => ResolveKeepsValid(s, r);
    case Expire(c) => ExpireKeepsValid(s, c);
    case Resume(c, recorded) => ResumeKeepsValid(s, c, recorded);
    case CancelAll =>
  }

  /** The state after a run from the empty orchestrator. */
  function Run(steps: seq<Step>): State {
    if steps == [] then INITIAL
    else Apply(Run(steps[..|steps| - 1]), steps[|steps| - 1])
  }

  /**
   * The invariant holds in every reachable state; in particular an entry of `pending` never
   * outlives its coroutine, so the reference its callback captured is valid when a reply runs it.
   */
  lemma {:induction false} RunIsValid(steps: seq<Step>)
    ensures Valid(Run(steps))
  {
    if steps != [] {
      RunIsValid(steps[..|steps| - 1]);
      ApplyKeepsValid(Run(steps[..|steps| - 1]), steps[|steps| - 1]);
    }
  }
}
