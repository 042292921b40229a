/** The controller of a multi-participant simulation as it runs: the
    participant table, the running-participant pointer, the controller's
    scheduler and clocks and the abort state are fields that the RPC
    handlers and the driving loop update in place. Every method is proved
    to move the controller exactly as the corresponding MultiProtocol
    function moves its abstract state, so the properties proved there hold
    of this code. */
module MultiCtl {
  import opened MultiSched
  import opened MultiProtocol

  class Controller {
    /** The participants: index 0 is g_usfstl_multi_local_participant,
        1 .. Length-1 the ones `for_each_participant` visits. */
    const parts: array<Participant>
    /** g_usfstl_multi_running_participant, as an index into parts. */
    var running: nat
    /** The job list of g_usfstl_multi_sched. */
    var jobs: seq<Job>
    /** The current time of g_usfstl_multi_sched. */
    var multiTime: nat
    /** The current time of g_usfstl_task_scheduler. */
    var taskTime: nat
    /** g_usfstl_test_aborted and g_usfstl_failure_reason. */
    var aborted: bool
    var reason: nat
    /** Every call sent to a participant so far, in order. */
    ghost var sent: seq<Rpc>

    ghost function Abs(): Ctl
      reads this, parts
    {
      Ctl(parts[..], running, jobs, multiTime, taskTime, aborted, reason, sent)
    }

    ghost predicate Inv()
      reads this, parts
    {
      Valid(Abs())
    }

    /** The controller before any test, with n participants. */
    constructor(n: nat, taskTime: nat)
      requires n >= 1 && taskTime < TIME_WORD
      ensures Abs() == Initial(n, taskTime) && Inv()
      ensures fresh(parts)
    {
      parts := new Participant[n](_ => Participant({}, 0, false));
      running := LOCAL;
      jobs := [];
      multiTime := 0;
      this.taskTime := taskTime;
      aborted := false;
      reason := 0;
      sent := [];
      new;
      assert parts[..] == seq(n, _ => Participant({}, 0, false));
    }

    /** usfstl_multi_ctl_extra_transmit: the time attached to a call as it
        is sent. */
    method ExtraTransmit() returns (time: nat)
      ensures time == Stamp(Abs())
      ensures time >= taskTime && time >= multiTime
    {
      if taskTime > multiTime {
        time := taskTime;
      } else {
        time := multiTime;
      }
    }

    /** usfstl_multi_controller_update_sync_time. */
    method UpdateSyncTime(update: Option<nat>)
      requires Inv() && (update.Some? ==> update.value < parts.Length)
      modifies this, parts
      ensures Abs() == UpdateSync(old(Abs()), update) && Inv()
    {
      var sync := (multiTime + HORIZON) % TIME_WORD;
      if jobs != [] {
        sync := jobs[0].start;
      }
      var p := running;
      if update.Some? {
        p := update.value;
        running := p;
      }
      if parts[p].syncSet && parts[p].sync == sync {
        return;
      }
      var stamp := ExtraTransmit();
      sent := sent + [SetSync(p, sync, stamp)];
      parts[p] := parts[p].(syncSet := true, sync := sync);
    }

    /** usfstl_multi_controller_sched_callback for the job of participant p. */
    method SchedCallback(p: nat)
      requires Inv() && p < parts.Length
      modifies this, parts
      ensures Abs() == MultiProtocol.SchedCallback(old(Abs()), p) && Inv()
    {
      parts[p] := parts[p].(flags := parts[p].flags - {Waiting});
      UpdateSyncTime(Some(p));
      var stamp := ExtraTransmit();
      sent := sent + [Cont(p, multiTime, stamp)];
    }

    /** usfstl_sched_next on the controller's scheduler. */
    method SchedNext()
      requires Inv() && jobs != []
      modifies this, parts
      ensures Abs() == MultiProtocol.SchedNext(old(Abs())) && Inv()
    {
      var job := jobs[0];
      assert forall i :: 0 <= i < |jobs| - 1 ==> jobs[1..][i] == jobs[i + 1];
      jobs := jobs[1..];
      multiTime := job.start;
      SchedCallback(job.owner);
    }

    /** multi_rpc_test_started from participant p. */
    method OnTestStarted(p: nat)
      requires Inv() && p < parts.Length
      modifies parts
      ensures Abs() == AddFlag(old(Abs()), p, Started) && Inv()
    {
      parts[p] := parts[p].(flags := parts[p].flags + {Started});
    }

    /** multi_rpc_sched_request from participant p for time t. */
    method OnSchedRequest(p: nat, t: nat)
      requires Inv() && p < parts.Length && t < TIME_WORD
      modifies this, parts
      ensures Abs() == Request(old(Abs()), p, t) && Inv()
    {
      ghost var requested := Requested(Abs(), p, t);
      parts[p] := parts[p].(flags := parts[p].flags + {Started});
      jobs := AddJob(DelJob(jobs, p), Job(p, t));
      assert Abs() == requested;
      UpdateSyncTime(None);
    }

    /** multi_rpc_sched_wait from participant p. */
    method OnSchedWait(p: nat)
      requires Inv() && p < parts.Length
      modifies parts
      ensures Abs() == AddFlag(old(Abs()), p, Waiting) && Inv()
    {
      parts[p] := parts[p].(flags := parts[p].flags + {Waiting});
    }

    /** multi_rpc_test_failed with the given status. */
    method OnTestFailed(status: nat)
      modifies this
      ensures Abs() == Fail(old(Abs()), status)
    {
      if aborted {
        return;
      }
      reason := status;
      aborted := true;
    }

    /** multi_rpc_test_ended from participant p. */
    method OnTestEnded(p: nat)
      requires Inv() && p < parts.Length
      modifies parts
      ensures Abs() == AddFlag(old(Abs()), p, Finished) && Inv()
    {
      parts[p] := parts[p].(flags := parts[p].flags + {Finished});
    }

    /** usfstl_rpc_handle: dispatch one incoming call to its handler. */
    method HandleRpc(m: Incoming)
      requires Inv() && ValidMsg(parts.Length, m)
      modifies this, parts
      ensures Abs() == Handle(old(Abs()), m) && Inv()
    {
      match m
      case TestStarted(p) => OnTestStarted(p);
      case SchedRequest(p, t) => OnSchedRequest(p, t);
      case SchedWait(p) => OnSchedWait(p);
      case TestFailed(status) => OnTestFailed(status);
      case TestEnded(p) => OnTestEnded(p);
    }

    /** The `all` accumulator of wait_all: does every participant visited
        by `for_each_participant` have the flag? */
    method AllHaveFlag(flag: Flag) returns (all: bool)
      ensures all == AllHave(parts[..], flag)
    {
      all := true;
      var i := 1;
      while i < parts.Length
        invariant 1 <= i
        invariant all
        invariant forall k :: 1 <= k < i && k < parts.Length ==> flag in parts[k].flags
      {
        if flag !in parts[i].flags {
          all := false;
          break;
        }
        i := i + 1;
      }
    }

    /** One iteration of wait_all that did not return: handle one call,
        then run the next job if asked to and one is pending. */
    method WaitStep(m: Incoming, schedule: bool)
      requires Inv() && ValidMsg(parts.Length, m)
      modifies this, parts
      ensures Abs() == Step(old(Abs()), m, schedule) && Inv()
    {
      HandleRpc(m);
      if schedule && jobs != [] {
        SchedNext();
      }
    }

    /** The step of wait_all on the message at position k of inbox takes
        the controller from state k of the trace to state k + 1. */
    method WaitIteration(ghost s0: Ctl, inbox: seq<Incoming>, schedule: bool, k: nat, ghost tr: seq<Ctl>)
      requires Valid(s0) && ValidMsgs(|s0.parts|, inbox) && tr == Trace(s0, inbox, schedule)
      requires k < |inbox| && Abs() == tr[k] && Inv()
      modifies this, parts
      ensures Abs() == tr[k + 1] && Inv()
    {
      TraceStep(s0, inbox, schedule, k);
      WaitStep(inbox[k], schedule);
    }

    /** usfstl_multi_controller_wait_all over the supply of incoming calls
        inbox: returns how many of them it handled and whether every
        participant has the flag (false: the supply ran out first). */
    method WaitAll(flag: Flag, schedule: bool, inbox: seq<Incoming>) returns (consumed: nat, done: bool)
      requires Inv() && ValidMsgs(parts.Length, inbox)
      modifies this, parts
      ensures var w := MultiProtocol.WaitAll(old(Abs()), flag, schedule, inbox);
        Abs() == w.state && consumed == w.consumed && done == w.done && Inv()
    {
      ghost var tr := Trace(Abs(), inbox, schedule);
      consumed := 0;
      var all := AllHaveFlag(flag);
      while !all && consumed < |inbox|
        invariant consumed <= MultiProtocol.WaitAll(old(Abs()), flag, schedule, inbox).consumed
        invariant Abs() == tr[consumed] && Inv()
        invariant all == AllHave(parts[..], flag)
        decreases |inbox| - consumed
      {
        WaitAllGoesOn(old(Abs()), flag, schedule, inbox, consumed);
        WaitIteration(old(Abs()), inbox, schedule, consumed, tr);
        consumed := consumed + 1;
        all := AllHaveFlag(flag);
      }
      WaitAllStopsAt(old(Abs()), flag, schedule, inbox, consumed);
      done := all;
    }

    /** The test_end broadcast of usfstl_multi_end_test_controller: one
        call per remote participant, in order. */
    method BroadcastTestEnd(status: nat)
      requires parts.Length >= 1
      modifies this
      ensures sent == old(sent) + TestEnds(parts.Length, status, Stamp(old(Abs())))
      ensures running == old(running) && jobs == old(jobs) && multiTime == old(multiTime)
      ensures taskTime == old(taskTime) && aborted == old(aborted) && reason == old(reason)
    {
      ghost var stamp0 := Stamp(Abs());
      var i := 1;
      while i < parts.Length
        invariant 1 <= i <= parts.Length
        invariant sent == old(sent) + TestEnds(i, status, stamp0)
        invariant running == old(running) && jobs == old(jobs) && multiTime == old(multiTime)
        invariant taskTime == old(taskTime) && aborted == old(aborted) && reason == old(reason)
      {
        var stamp := ExtraTransmit();
        sent := sent + [TestEnd(i, status, stamp)];
        i := i + 1;
      }
    }

    /** usfstl_multi_end_test_controller: realign the scheduler clock to the
        task-scheduler clock, send test_end to every remote participant, then
        wait, scheduling, until all of them finished. */
    method EndTest(status: nat, inbox: seq<Incoming>) returns (consumed: nat, done: bool)
      requires Inv() && status < STATUS_WORD && ValidMsgs(parts.Length, inbox)
      modifies this, parts
      ensures var w := MultiProtocol.EndTest(old(Abs()), status, inbox);
        Abs() == w.state && consumed == w.consumed && done == w.done && Inv()
    {
      multiTime := taskTime;
      BroadcastTestEnd(status);
      consumed, done := WaitAll(Finished, true, inbox);
    }
  }
}
