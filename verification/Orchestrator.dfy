/** The tracker's map and the orchestrator's queues as mutable fields, updated in place. */
module Orchestrator {
  import opened Options
  import opened Requests

  class SessionOrchestrator {
    var pending: map<Id, nat>
    var coroutines: seq<Coroutine>
    var transportOut: seq<Id>
    var presentationOut: seq<Notice>
    var bundleMetadata: Option<KeyIds>
    ghost var ended: seq<nat>

    ghost function Snapshot(): State
      reads this
    {
      State(pending, coroutines, transportOut, presentationOut, bundleMetadata, ended)
    }

    constructor ()
      ensures Snapshot() == Run([])
    {
      pending, coroutines, transportOut, presentationOut := map[], [], [], [];
      bundleMetadata, ended := None, [];
    }

    /** `handle(send | publish_identity | unpublish_identity | subscribe)` up to the first suspension. */
    method Begin(command: Command, built: Option<Id>)
      modifies this
      ensures Snapshot() == Apply(old(Snapshot()), Start(command, built))
    {
      if built.None? {
        return;
      }
      transportOut := transportOut + [built.value];
      pending := pending[built.value := |coroutines|];
      coroutines := coroutines + [Coroutine(command, built.value, Waiting, None)];
    }

    /** `request_tracker::resolve` */
    method Resolve(r: Reply)
      requires PendingAlive(Snapshot())
      modifies this`pending, this`coroutines
      ensures Snapshot() == Apply(old(Snapshot()), Receive(r))
    {
      var id := ReplyId(r);
      if id in pending {
        var c := pending[id];
        var co := coroutines[c];
        if Awaits(co.command, r) {
          co := co.(answer := Some(r));
          if co.phase.Waiting? {
            co := co.(phase := Cancelled);
          }
          coroutines := coroutines[c := co];
          pending := pending - {id};
        }
      }
    }

    /** The timeout timer of one coroutine elapses. */
    method Elapse(c: nat)
      modifies this`coroutines
      ensures Snapshot() == Apply(old(Snapshot()), Expire(c))
    {
      if c < |coroutines| && coroutines[c].phase.Waiting? {
        coroutines := coroutines[c := coroutines[c].(phase := Expired)];
      }
    }

    /** The tail of `async_track` and of the coroutine that awaits it. */
    method Continue(c: nat, recorded: bool)
      requires AnswersMatch(Snapshot())
      modifies this
      ensures Snapshot() == Apply(old(Snapshot()), Resume(c, recorded))
    {
      if c >= |coroutines| || coroutines[c].phase.Waiting? || coroutines[c].phase.Ended? {
        return;
      }
      var co := coroutines[c];
      pending := pending - {co.id};
      var notice: Notice;
      if co.phase.Cancelled? && co.answer.Some? {
        notice := Completion(co.command, co.id, co.answer, recorded);
        if co.command.Publish? && co.answer.value.accepted && recorded {
          bundleMetadata := Some(co.command.keys);
        }
      } else {
        notice := Completion(co.command, co.id, None, recorded);
      }
      presentationOut := presentationOut + [notice];
      coroutines := coroutines[c := co.(phase := Ended(notice))];
      ended := ended + [c];
    }

    /** `request_tracker::cancel_all_pending`: the timers it cancels are not the awaited ones. */
    method CancelAllPending()
      modifies this`pending
      ensures Snapshot() == Apply(old(Snapshot()), CancelAll)
    {
      pending := map[];
    }

    method HasPending(id: Id) returns (answer: bool)
      requires PendingAlive(Snapshot())
      ensures answer ==> exists c :: 0 <= c < |coroutines| && coroutines[c].id == id
                           && (coroutines[c].phase.Waiting? || coroutines[c].phase.Expired?)
      ensures answer <==> id in pending
    {
      answer := id in pending;
    }

    method Perform(step: Step)
      requires Valid(Snapshot())
      modifies this
      ensures Snapshot() == Apply(old(Snapshot()), step)
    {
      match step
      case Start(command, built) => Begin(command, built);
      case Receive(r) => Resolve(r);
      case Expire(c) => Elapse(c);
      case Resume(c, recorded) => Continue(c, recorded);
      case CancelAll => CancelAllPending();
    }
  }

  /** Every schedule drives the mutable orchestrator through the run that the theorems speak of. */
  method Drive(steps: seq<Step>) returns (o: SessionOrchestrator)
    ensures fresh(o)
    ensures o.Snapshot() == Run(steps)
  {
    o := new SessionOrchestrator();
    for i := 0 to |steps|
      invariant fresh(o)
      invariant o.Snapshot() == Run(steps[..i])
    {
      RunIsValid(steps[..i]);
      assert steps[..i + 1][..i] == steps[..i];
      o.Perform(steps[i]);
    }
    assert steps[..|steps|] == steps;
  }
}
