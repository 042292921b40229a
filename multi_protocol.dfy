/** The controller side of the multi-participant virtual-time protocol as
    a state machine on values: the participant table, the running
    participant, the controller's job list and clocks, the abort state, and
    the log of calls sent to participants. Participant 0 is the local
    participant (the controller's own test code); the registered remote
    participants are 1 .. n-1, the ones `for_each_participant` visits. */
module MultiProtocol {
  import opened MultiSched

  /** `1ULL << 62`: how far ahead the deadline goes when nothing is pending. */
  const HORIZON: nat := 0x4000_0000_0000_0000
  /** Times are uint64_t. */
  const TIME_WORD: nat := 0x1_0000_0000_0000_0000
  /** Test statuses and failure reasons are uint32_t. */
  const STATUS_WORD: nat := 0x1_0000_0000
  /** g_usfstl_multi_local_participant, the initial running participant. */
  const LOCAL: nat := 0

  datatype Option<T> = None | Some(value: T)

  /** USFSTL_MULTI_PARTICIPANT_STARTED, _WAITING and _FINISHED. */
  datatype Flag = Started | Waiting | Finished

  /** The controller's view of one `struct usfstl_multi_participant`: its
      flag set and the last deadline sent to it. */
  datatype Participant = Participant(flags: set<Flag>, sync: nat, syncSet: bool)

  /** Calls the controller sends to a participant, each with the time the
      connection's extra_transmit callback attaches to it. */
  datatype Rpc =
    | SetSync(to: nat, time: nat, stamp: nat)
    | Cont(to: nat, time: nat, stamp: nat)
    | TestEnd(to: nat, status: nat, stamp: nat)

  /** Calls a participant makes to the controller; `from` is the
      participant behind the connection (`conn->data`). */
  datatype Incoming =
    | TestStarted(from: nat)
    | SchedRequest(from: nat, time: nat)
    | SchedWait(from: nat)
    | TestFailed(status: nat)
    | TestEnded(from: nat)

  datatype Ctl = Ctl(
    parts: seq<Participant>,
    running: nat,
    jobs: seq<Job>,
    multiTime: nat,
    taskTime: nat,
    aborted: bool,
    reason: nat,
    sent: seq<Rpc>)

  /** What wait_all reports: the state it stopped in, how many messages it
      handled, and whether it stopped because every participant had the flag
      (false: the supply of messages ran out first). */
  datatype Waited = Waited(state: Ctl, consumed: nat, done: bool)

  predicate Valid(s: Ctl) {
    && |s.parts| >= 1
    && s.running < |s.parts|
    && Sorted(s.jobs)
    && OneJobEach(s.jobs)
    && (forall i :: 0 <= i < |s.jobs| ==> s.jobs[i].owner < |s.parts| && s.jobs[i].start < TIME_WORD)
    && s.multiTime < TIME_WORD
    && s.taskTime < TIME_WORD
  }

  predicate ValidMsg(n: nat, m: Incoming) {
    match m
    case TestStarted(p) => p < n
    case SchedRequest(p, t) => p < n && t < TIME_WORD
    case SchedWait(p) => p < n
    case TestFailed(status) => status < STATUS_WORD
    case TestEnded(p) => p < n
  }

  predicate ValidMsgs(n: nat, msgs: seq<Incoming>) {
    forall i :: 0 <= i < |msgs| ==> ValidMsg(n, msgs[i])
  }

  /** The controller before any test: no flags, nothing synced, the local
      participant running, no jobs, multi-scheduler time 0. */
  function Initial(n: nat, taskTime: nat): (s: Ctl)
    requires n >= 1 && taskTime < TIME_WORD
    ensures Valid(s) && CausallySafe(s) && |s.parts| == n
  {
    Ctl(seq(n, _ => Participant({}, 0, false)), LOCAL, [], 0, taskTime, false, 0, [])
  }

  // ---------------------------------------------------------------------
  // Sync time and deadline

  /** usfstl_multi_ctl_extra_transmit: the later of the task-scheduler time
      and the multi-scheduler time. */
  function SyncStamp(taskTime: nat, multiTime: nat): (t: nat)
    ensures t >= taskTime && t >= multiTime
    ensures t == taskTime || t == multiTime
  {
    if taskTime > multiTime then taskTime else multiTime
  }

  function Stamp(s: Ctl): nat {
    SyncStamp(s.taskTime, s.multiTime)
  }

  /** The deadline usfstl_multi_controller_update_sync_time computes: the
      start of the next pending job, or the current time plus 2^62 in
      wrapping 64-bit arithmetic. */
  function Deadline(s: Ctl): nat {
    if s.jobs != [] then s.jobs[0].start else (s.multiTime + HORIZON) % TIME_WORD
  }

  /** The deadline never lies past a pending job. */
  lemma DeadlineEarliest(s: Ctl)
    requires Sorted(s.jobs)
    ensures forall i :: 0 <= i < |s.jobs| ==> Deadline(s) <= s.jobs[i].start
    ensures s.jobs != [] ==> Deadline(s) == s.jobs[0].start
    ensures s.jobs == [] ==> Deadline(s) < TIME_WORD
  {
    if s.jobs != [] {
      forall i | 0 <= i < |s.jobs|
        ensures Deadline(s) <= s.jobs[i].start
      {
        if i > 0 {
          assert s.jobs[0].start <= s.jobs[i].start;
        }
      }
    }
  }

  /** The running participant is never authorized past a pending job: the
      last deadline sent to it, if any, is no later than every job's start. */
  predicate CausallySafe(s: Ctl) {
    && s.running < |s.parts|
    && (s.parts[s.running].syncSet ==>
          forall i :: 0 <= i < |s.jobs| ==> s.parts[s.running].sync <= s.jobs[i].start)
  }

  /** The participant already holds deadline d, so no set_sync is due. */
  predicate SyncCurrent(p: Participant, d: nat) {
    p.syncSet && p.sync == d
  }

  /** usfstl_multi_controller_update_sync_time: None targets the running
      participant, Some(p) makes p the running participant; set_sync goes
      out only when the deadline differs from the last one sent to it. */
  function UpdateSync(s: Ctl, update: Option<nat>): (r: Ctl)
    requires Valid(s) && (update.Some? ==> update.value < |s.parts|)
    ensures Valid(r) && CausallySafe(r) && |r.parts| == |s.parts|
    ensures r.running == if update.Some? then update.value else s.running
    ensures SyncCurrent(r.parts[r.running], Deadline(s))
    ensures r.parts[r.running].flags == s.parts[r.running].flags
    ensures r.parts == s.parts[r.running := r.parts[r.running]]
    ensures r.sent == s.sent + if SyncCurrent(s.parts[r.running], Deadline(s)) then []
                               else [SetSync(r.running, Deadline(s), Stamp(s))]
    ensures r.(parts := s.parts, running := s.running, sent := s.sent) == s
  {
    var p := if update.Some? then update.value else s.running;
    var d := Deadline(s);
    DeadlineEarliest(s);
    if SyncCurrent(s.parts[p], d) then s.(running := p)
    else
      s.(running := p,
         parts := s.parts[p := s.parts[p].(sync := d, syncSet := true)],
         sent := s.sent + [SetSync(p, d, Stamp(s))])
  }

  /** Recomputing twice with no change to the jobs or the clock in between
      sends set_sync at most once: the second recomputation changes nothing. */
  lemma UpdateSyncTwice(s: Ctl, update: Option<nat>)
    requires Valid(s) && (update.Some? ==> update.value < |s.parts|)
    ensures UpdateSync(UpdateSync(s, update), None) == UpdateSync(s, update)
    ensures UpdateSync(UpdateSync(s, update), update) == UpdateSync(s, update)
    ensures |UpdateSync(UpdateSync(s, update), None).sent| <= |s.sent| + 1
  {
    var r := UpdateSync(s, update);
    assert Deadline(r) == Deadline(s);
  }

  // ---------------------------------------------------------------------
  // The job callback and one scheduler step

  /** usfstl_multi_controller_sched_callback for participant p: clear its
      WAITING flag, make it the running participant with a fresh deadline,
      then send it `cont` with the multi-scheduler time. */
  function SchedCallback(s: Ctl, p: nat): (r: Ctl)
    requires Valid(s) && p < |s.parts|
    ensures Valid(r) && CausallySafe(r) && |r.parts| == |s.parts|
    ensures r.running == p
    ensures r.parts[p].flags == s.parts[p].flags - {Waiting}
    ensures SyncCurrent(r.parts[p], Deadline(s))
    ensures r.parts == s.parts[p := r.parts[p]]
    ensures r.jobs == s.jobs && r.multiTime == s.multiTime && r.taskTime == s.taskTime
    ensures r.aborted == s.aborted && r.reason == s.reason
    ensures r.sent == s.sent + (if SyncCurrent(s.parts[p], Deadline(s)) then [] else [SetSync(p, Deadline(s), Stamp(s))])
                             + [Cont(p, s.multiTime, Stamp(s))]
  {
    var s1 := s.(parts := s.parts[p := s.parts[p].(flags := s.parts[p].flags - {Waiting})]);
    var s2 := UpdateSync(s1, Some(p));
    s2.(sent := s2.sent + [Cont(p, s2.multiTime, Stamp(s2))])
  }

  /** usfstl_sched_next on the controller's scheduler: take the earliest
      job off the list, move the clock to its start and run its callback. */
  function SchedNext(s: Ctl): (r: Ctl)
    requires Valid(s) && s.jobs != []
    ensures Valid(r) && CausallySafe(r) && |r.parts| == |s.parts|
    ensures r.jobs == s.jobs[1..]
    ensures r.multiTime == s.jobs[0].start
    ensures r.running == s.jobs[0].owner
    ensures var s1 := s.(jobs := s.jobs[1..], multiTime := s.jobs[0].start);
      r.sent == s.sent + (if SyncCurrent(s.parts[s.jobs[0].owner], Deadline(s1)) then []
                          else [SetSync(s.jobs[0].owner, Deadline(s1), Stamp(s1))])
                       + [Cont(s.jobs[0].owner, s.jobs[0].start, Stamp(s1))]
  {
    var j := s.jobs[0];
    var s1 := s.(jobs := s.jobs[1..], multiTime := j.start);
    assert forall i :: 0 <= i < |s1.jobs| ==> s1.jobs[i] == s.jobs[i + 1];
    SchedCallback(s1, j.owner)
  }

  // ---------------------------------------------------------------------
  // The RPC handlers

  /** `p->flags |= f`: the handlers of test_started, sched_wait and
      test_ended. */
  function AddFlag(s: Ctl, p: nat, f: Flag): (r: Ctl)
    requires p < |s.parts|
    ensures |r.parts| == |s.parts|
    ensures r.parts[p].flags == s.parts[p].flags + {f}
    ensures r.parts[p].sync == s.parts[p].sync && r.parts[p].syncSet == s.parts[p].syncSet
    ensures r.parts == s.parts[p := r.parts[p]]
    ensures r.(parts := s.parts) == s
  {
    s.(parts := s.parts[p := s.parts[p].(flags := s.parts[p].flags + {f})])
  }

  /** multi_rpc_sched_request from participant p for time t: mark it
      started, replace its job by one at t, and recompute the deadline of
      the running participant. */
  function Request(s: Ctl, p: nat, t: nat): (r: Ctl)
    requires Valid(s) && p < |s.parts| && t < TIME_WORD
    ensures Valid(r) && CausallySafe(r) && |r.parts| == |s.parts|
  {
    var s1 := AddFlag(s, p, Started);
    ReplaceJob(s.jobs, |s.parts|, p, t);
    UpdateSync(s1.(jobs := AddJob(DelJob(s.jobs, p), Job(p, t))), None)
  }

  /** The state a request hands to the deadline recomputation: the sender
      marked started, its job replaced by the new one. */
  function Requested(s: Ctl, p: nat, t: nat): (r: Ctl)
    requires Valid(s) && p < |s.parts| && t < TIME_WORD
    ensures Valid(r) && Request(s, p, t) == UpdateSync(r, None)
    ensures r.jobs == AddJob(DelJob(s.jobs, p), Job(p, t))
    ensures r.parts == s.parts[p := s.parts[p].(flags := s.parts[p].flags + {Started})]
    ensures r.(parts := s.parts, jobs := s.jobs) == s
  {
    ReplaceJob(s.jobs, |s.parts|, p, t);
    AddFlag(s, p, Started).(jobs := AddJob(DelJob(s.jobs, p), Job(p, t)))
  }

  /** A request marks its sender started and leaves every other flag, the
      running participant, the clocks and the abort state alone. */
  lemma RequestFlags(s: Ctl, p: nat, t: nat)
    requires Valid(s) && p < |s.parts| && t < TIME_WORD
    ensures var r := Request(s, p, t);
      && r.parts[p].flags == s.parts[p].flags + {Started}
      && (forall q :: 0 <= q < |s.parts| && q != p ==> r.parts[q].flags == s.parts[q].flags)
      && r.running == s.running
      && r.multiTime == s.multiTime && r.taskTime == s.taskTime
      && r.aborted == s.aborted && r.reason == s.reason
  {
    var s2 := Requested(s, p, t);
  }

  /** After a request the sender's only job is the new one; every other
      participant keeps its job. */
  lemma RequestJobs(s: Ctl, p: nat, t: nat)
    requires Valid(s) && p < |s.parts| && t < TIME_WORD
    ensures forall x :: x in Request(s, p, t).jobs <==> x == Job(p, t) || (x in s.jobs && x.owner != p)
  {
    var s2 := Requested(s, p, t);
    ReplaceJob(s.jobs, |s.parts|, p, t);
  }

  /** After a request the running participant holds the new deadline;
      set_sync went out to it only if it did not hold that deadline yet. */
  lemma RequestSync(s: Ctl, p: nat, t: nat)
    requires Valid(s) && p < |s.parts| && t < TIME_WORD
    ensures var r := Request(s, p, t);
      && SyncCurrent(r.parts[r.running], Deadline(r))
      && r.sent == s.sent + if SyncCurrent(s.parts[s.running], Deadline(r)) then []
                            else [SetSync(s.running, Deadline(r), Stamp(s))]
  {
    var s2 := Requested(s, p, t);
    assert Deadline(s2) == Deadline(UpdateSync(s2, None));
  }

  /** Deleting a participant's job and adding its new one keeps the job
      list ordered, with one job per participant, all of them known. */
  lemma ReplaceJob(js: seq<Job>, n: nat, p: nat, t: nat)
    requires Sorted(js) && OneJobEach(js)
    requires forall i :: 0 <= i < |js| ==> js[i].owner < n && js[i].start < TIME_WORD
    requires p < n && t < TIME_WORD
    ensures var r := AddJob(DelJob(js, p), Job(p, t));
      && Sorted(r) && OneJobEach(r)
      && (forall i :: 0 <= i < |r| ==> r[i].owner < n && r[i].start < TIME_WORD)
      && (forall x :: x in r <==> x == Job(p, t) || (x in js && x.owner != p))
  {
    var d := DelJob(js, p);
    var j := Job(p, t);
    DelJobSorted(js, p);
    DelJobOneEach(js, p);
    DelJobRemoves(js, p);
    DelJobMembers(js, p);
    AddJobSorted(d, j);
    AddJobOneEach(d, j);
    AddJobMembers(d, j);
    var r := AddJob(d, j);
    forall i | 0 <= i < |r|
      ensures r[i].owner < n && r[i].start < TIME_WORD
    {
      assert r[i] in r;
      if r[i] != j {
        var k :| 0 <= k < |js| && js[k] == r[i];
      }
    }
  }

  /** multi_rpc_test_failed: the first failure of a test records its
      reason and raises the abort flag; later ones are ignored. */
  function Fail(s: Ctl, status: nat): (r: Ctl)
    ensures r.aborted
    ensures r.reason == if s.aborted then s.reason else status
    ensures r.(aborted := s.aborted, reason := s.reason) == s
  {
    if s.aborted then s else s.(reason := status, aborted := true)
  }

  /** usfstl_rpc_handle dispatching one incoming call. */
  function Handle(s: Ctl, m: Incoming): (r: Ctl)
    requires Valid(s) && ValidMsg(|s.parts|, m)
    ensures Valid(r) && |r.parts| == |s.parts|
    ensures CausallySafe(s) ==> CausallySafe(r)
  {
    match m
    case TestStarted(p) => AddFlag(s, p, Started)
    case SchedRequest(p, t) => Request(s, p, t)
    case SchedWait(p) => AddFlag(s, p, Waiting)
    case TestFailed(status) => Fail(s, status)
    case TestEnded(p) => AddFlag(s, p, Finished)
  }

  /** The three flag handlers each add exactly their own flag to the
      sender and change nothing else. */
  lemma FlagHandlers(s: Ctl, m: Incoming)
    requires Valid(s) && ValidMsg(|s.parts|, m)
    requires m.TestStarted? || m.SchedWait? || m.TestEnded?
    ensures var f := if m.TestStarted? then Started else if m.SchedWait? then Waiting else Finished;
      && Handle(s, m).parts[m.from].flags == s.parts[m.from].flags + {f}
      && Handle(s, m).parts[m.from].(flags := s.parts[m.from].flags) == s.parts[m.from]
      && (forall q :: 0 <= q < |s.parts| && q != m.from ==> Handle(s, m).parts[q] == s.parts[q])
      && Handle(s, m).(parts := s.parts) == s
  {
  }

  /** A failure after the first leaves the stored reason alone. */
  lemma FirstFailureWins(s: Ctl, a: nat, b: nat)
    requires Valid(s) && a < STATUS_WORD && b < STATUS_WORD
    ensures var r := Handle(Handle(s, TestFailed(a)), TestFailed(b));
      r.aborted && r.reason == (if s.aborted then s.reason else a)
  {
  }

  // ---------------------------------------------------------------------
  // The driving loop

  /** One iteration of wait_all that did not return: handle one message,
      then advance the scheduler once if asked to and a job is pending. */
  function Step(s: Ctl, m: Incoming, schedule: bool): (r: Ctl)
    requires Valid(s) && ValidMsg(|s.parts|, m)
    ensures Valid(r) && |r.parts| == |s.parts|
    ensures CausallySafe(s) ==> CausallySafe(r)
    ensures !schedule ==> r == Handle(s, m)
  {
    var h := Handle(s, m);
    if schedule && h.jobs != [] then SchedNext(h) else h
  }

  /** The states wait_all passes through when it handles the messages one
      after the other: the start state, then the state after each step. */
  function Trace(s: Ctl, msgs: seq<Incoming>, schedule: bool): (tr: seq<Ctl>)
    requires Valid(s) && ValidMsgs(|s.parts|, msgs)
    ensures |tr| == |msgs| + 1 && tr[0] == s
    ensures forall k :: 0 <= k < |tr| ==> Valid(tr[k]) && |tr[k].parts| == |s.parts|
    decreases |msgs|
  {
    if msgs == [] then [s]
    else [s] + Trace(Step(s, msgs[0], schedule), msgs[1..], schedule)
  }

  /** Each state of the trace is one step from the one before. */
  lemma {:induction false} TraceStep(s: Ctl, msgs: seq<Incoming>, schedule: bool, k: nat)
    requires Valid(s) && ValidMsgs(|s.parts|, msgs) && k < |msgs|
    ensures var tr := Trace(s, msgs, schedule);
      ValidMsg(|tr[k].parts|, msgs[k]) && tr[k + 1] == Step(tr[k], msgs[k], schedule)
    decreases k
  {
    if k > 0 {
      var next := Step(s, msgs[0], schedule);
      TraceStep(next, msgs[1..], schedule, k - 1);
      assert msgs[1..][k - 1] == msgs[k];
    }
  }

  /** Every participant visited by `for_each_participant` has the flag. */
  predicate AllHave(parts: seq<Participant>, flag: Flag) {
    forall i :: 1 <= i < |parts| ==> flag in parts[i].flags
  }

  /** usfstl_multi_controller_wait_all over a finite supply of incoming
      messages: test whether every remote participant has the flag, and if
      not, take one step on the next message. */
  function WaitAll(s: Ctl, flag: Flag, schedule: bool, inbox: seq<Incoming>): (w: Waited)
    requires Valid(s) && ValidMsgs(|s.parts|, inbox)
    ensures Valid(w.state) && |w.state.parts| == |s.parts|
    ensures w.consumed <= |inbox|
    ensures w.done <==> AllHave(w.state.parts, flag)
    ensures !w.done ==> w.consumed == |inbox|
    decreases |inbox|
  {
    if AllHave(s.parts, flag) then Waited(s, 0, true)
    else if inbox == [] then Waited(s, 0, false)
    else
      var w := WaitAll(Step(s, inbox[0], schedule), flag, schedule, inbox[1..]);
      Waited(w.state, w.consumed + 1, w.done)
  }

  /** The state wait_all stops in is the state after the messages it
      consumed. */
  lemma {:induction false} WaitAllEndsAt(s: Ctl, flag: Flag, schedule: bool, inbox: seq<Incoming>)
    requires Valid(s) && ValidMsgs(|s.parts|, inbox)
    ensures var w := WaitAll(s, flag, schedule, inbox);
      w.state == Trace(s, inbox, schedule)[w.consumed]
    decreases |inbox|
  {
    if !AllHave(s.parts, flag) && inbox != [] {
      var next := Step(s, inbox[0], schedule);
      assert ValidMsgs(|next.parts|, inbox[1..]);
      WaitAllEndsAt(next, flag, schedule, inbox[1..]);
      var w := WaitAll(next, flag, schedule, inbox[1..]);
      assert WaitAll(s, flag, schedule, inbox) == Waited(w.state, w.consumed + 1, w.done);
      assert Trace(s, inbox, schedule) == [s] + Trace(next, inbox[1..], schedule);
    }
  }

  /** wait_all stops at the first state in which every remote participant
      has the flag: no state it passed through before had the flag
      everywhere. */
  lemma {:induction false} WaitAllStopsFirst(s: Ctl, flag: Flag, schedule: bool, inbox: seq<Incoming>)
    requires Valid(s) && ValidMsgs(|s.parts|, inbox)
    ensures var w := WaitAll(s, flag, schedule, inbox);
      forall k :: 0 <= k < w.consumed ==> !AllHave(Trace(s, inbox, schedule)[k].parts, flag)
    decreases |inbox|
  {
    if !AllHave(s.parts, flag) && inbox != [] {
      var next := Step(s, inbox[0], schedule);
      assert ValidMsgs(|next.parts|, inbox[1..]);
      WaitAllStopsFirst(next, flag, schedule, inbox[1..]);
      assert Trace(s, inbox, schedule) == [s] + Trace(next, inbox[1..], schedule);
    }
  }

  /** A state of the trace before the one wait_all stops in where some
      participant lacks the flag and a message is left is not the last
      state wait_all visits. */
  lemma WaitAllGoesOn(s: Ctl, flag: Flag, schedule: bool, inbox: seq<Incoming>, c: nat)
    requires Valid(s) && ValidMsgs(|s.parts|, inbox)
    requires c <= WaitAll(s, flag, schedule, inbox).consumed && c < |inbox|
    requires !AllHave(Trace(s, inbox, schedule)[c].parts, flag)
    ensures c < WaitAll(s, flag, schedule, inbox).consumed
  {
    var w := WaitAll(s, flag, schedule, inbox);
    var tr := Trace(s, inbox, schedule);
    WaitAllEndsAt(s, flag, schedule, inbox);
    assert w.consumed == |inbox| || AllHave(tr[w.consumed].parts, flag);
  }

  /** The first state of the trace where every participant has the flag,
      or the last one, is the state wait_all stops in. */
  lemma WaitAllStopsAt(s: Ctl, flag: Flag, schedule: bool, inbox: seq<Incoming>, c: nat)
    requires Valid(s) && ValidMsgs(|s.parts|, inbox)
    requires c <= WaitAll(s, flag, schedule, inbox).consumed
    requires AllHave(Trace(s, inbox, schedule)[c].parts, flag) || c == |inbox|
    ensures var w := WaitAll(s, flag, schedule, inbox);
      && c == w.consumed && w.state == Trace(s, inbox, schedule)[c]
      && w.done == AllHave(w.state.parts, flag)
  {
    WaitAllEndsAt(s, flag, schedule, inbox);
    WaitAllStopsFirst(s, flag, schedule, inbox);
  }

  /** Causal safety holds in every state wait_all passes through. */
  lemma {:induction false} TraceSafe(s: Ctl, msgs: seq<Incoming>, schedule: bool)
    requires Valid(s) && ValidMsgs(|s.parts|, msgs) && CausallySafe(s)
    ensures forall k :: 0 <= k < |msgs| + 1 ==> CausallySafe(Trace(s, msgs, schedule)[k])
    decreases |msgs|
  {
    if msgs != [] {
      var next := Step(s, msgs[0], schedule);
      assert ValidMsgs(|next.parts|, msgs[1..]);
      TraceSafe(next, msgs[1..], schedule);
      var tr := Trace(next, msgs[1..], schedule);
      assert Trace(s, msgs, schedule) == [s] + tr;
    }
  }

  // ---------------------------------------------------------------------
  // End of a test

  /** The test_end calls of usfstl_multi_end_test_controller, one per remote
      participant in order, each stamped with the given time. */
  function TestEnds(n: nat, status: nat, stamp: nat): (calls: seq<Rpc>)
    ensures |calls| == if n == 0 then 0 else n - 1
    ensures forall k :: 0 <= k < |calls| ==> calls[k] == TestEnd(k + 1, status, stamp)
  {
    if n <= 1 then [] else TestEnds(n - 1, status, stamp) + [TestEnd(n - 1, status, stamp)]
  }

  /** The multi-scheduler clock realigned to the task-scheduler clock. */
  function Realigned(s: Ctl): (r: Ctl)
    requires Valid(s)
    ensures Valid(r) && r.multiTime == s.taskTime
    ensures CausallySafe(s) ==> CausallySafe(r)
    ensures Stamp(r) == s.taskTime
  {
    s.(multiTime := s.taskTime)
  }

  /** usfstl_multi_end_test_controller: realign the clock, send test_end to
      every remote participant, then wait, scheduling, until all finished. */
  function EndTest(s: Ctl, status: nat, inbox: seq<Incoming>): (w: Waited)
    requires Valid(s) && status < STATUS_WORD && ValidMsgs(|s.parts|, inbox)
    ensures Valid(w.state) && |w.state.parts| == |s.parts|
    ensures w.done <==> AllHave(w.state.parts, Finished)
    ensures w.consumed <= |inbox|
  {
    var r := Realigned(s);
    WaitAll(r.(sent := r.sent + TestEnds(|r.parts|, status, Stamp(r))), Finished, true, inbox)
  }

  /** A handler only appends to the log of sent calls. */
  lemma HandleAppends(s: Ctl, m: Incoming)
    requires Valid(s) && ValidMsg(|s.parts|, m)
    ensures var h := Handle(s, m);
      |s.sent| <= |h.sent| && h.sent[..|s.sent|] == s.sent
  {
    match m
    case SchedRequest(p, t) =>
      var q := Requested(s, p, t);
    case _ =>
  }

  /** A step only appends to the log of sent calls. */
  lemma StepAppends(s: Ctl, m: Incoming, schedule: bool)
    requires Valid(s) && ValidMsg(|s.parts|, m)
    ensures var r := Step(s, m, schedule);
      |s.sent| <= |r.sent| && r.sent[..|s.sent|] == s.sent
  {
    var h := Handle(s, m);
    HandleAppends(s, m);
    if schedule && h.jobs != [] {
      var r := SchedNext(h);
      assert r.sent[..|s.sent|] == r.sent[..|h.sent|][..|s.sent|];
    }
  }

  /** wait_all only appends to the log of sent calls. */
  lemma {:induction false} WaitAllAppends(s: Ctl, flag: Flag, schedule: bool, inbox: seq<Incoming>)
    requires Valid(s) && ValidMsgs(|s.parts|, inbox)
    ensures var w := WaitAll(s, flag, schedule, inbox);
      |s.sent| <= |w.state.sent| && w.state.sent[..|s.sent|] == s.sent
    decreases |inbox|
  {
    if !AllHave(s.parts, flag) && inbox != [] {
      var next := Step(s, inbox[0], schedule);
      StepAppends(s, inbox[0], schedule);
      assert ValidMsgs(|next.parts|, inbox[1..]);
      WaitAllAppends(next, flag, schedule, inbox[1..]);
      var w := WaitAll(next, flag, schedule, inbox[1..]);
      assert w.state.sent[..|s.sent|] == w.state.sent[..|next.sent|][..|s.sent|];
    }
  }

  /** The end of a test, whatever the participants answer: the log begins
      with the earlier calls followed by the test_end broadcast stamped with
      the task-scheduler time, and wait_all runs from the state whose
      scheduler clock is realigned to that time and whose log holds that
      broadcast. */
  lemma EndTestBroadcast(s: Ctl, status: nat, inbox: seq<Incoming>)
    requires Valid(s) && status < STATUS_WORD && ValidMsgs(|s.parts|, inbox)
    ensures var b := TestEnds(|s.parts|, status, s.taskTime);
      var w := EndTest(s, status, inbox);
      && |s.sent| + |b| <= |w.state.sent|
      && w.state.sent[..|s.sent| + |b|] == s.sent + b
    ensures var b := TestEnds(|s.parts|, status, s.taskTime);
      var r0 := s.(multiTime := s.taskTime, sent := s.sent + b);
      var w := EndTest(s, status, inbox);
      && Valid(r0) && ValidMsgs(|r0.parts|, inbox)
      && w.state == Trace(r0, inbox, true)[w.consumed]
  {
    var b := TestEnds(|s.parts|, status, s.taskTime);
    var r0 := s.(multiTime := s.taskTime, sent := s.sent + b);
    assert Realigned(s).(sent := Realigned(s).sent + TestEnds(|s.parts|, status, Stamp(Realigned(s)))) == r0;
    WaitAllAppends(r0, Finished, true, inbox);
    WaitAllEndsAt(r0, Finished, true, inbox);
  }

  lemma EndTestSafe(s: Ctl, status: nat, inbox: seq<Incoming>)
    requires Valid(s) && CausallySafe(s) && status < STATUS_WORD && ValidMsgs(|s.parts|, inbox)
    ensures CausallySafe(EndTest(s, status, inbox).state)
  {
    var r := Realigned(s);
    var r' := r.(sent := r.sent + TestEnds(|r.parts|, status, Stamp(r)));
    var w := WaitAll(r', Finished, true, inbox);
    WaitAllEndsAt(r', Finished, true, inbox);
    TraceSafe(r', inbox, true);
  }

  // ---------------------------------------------------------------------
  // Scenarios

  /** A request from the only participant with a job leaves exactly one
      job, the new one, and the deadline is its time. */
  lemma OnlyRequester(s: Ctl, p: nat, t: nat)
    requires Valid(s) && p < |s.parts| && t < TIME_WORD
    requires forall i :: 0 <= i < |s.jobs| ==> s.jobs[i].owner == p
    ensures Request(s, p, t).jobs == [Job(p, t)]
    ensures Deadline(Request(s, p, t)) == t
  {
    DelJobOnly(s.jobs, p);
    assert Request(s, p, t).jobs == AddJob([], Job(p, t));
  }

  /** A participant requests 100, then 50 before its job fires. The first
      request already moves the running participant's deadline to 100,
      because the new job is itself pending; the second replaces the job
      and moves the deadline to 50; firing then runs the participant at 50. */
  lemma RequestReplacesScenario(s: Ctl)
    requires Valid(s) && |s.parts| >= 2 && s.jobs == []
    requires !SyncCurrent(s.parts[s.running], 100)
    ensures var s1 := Request(s, 1, 100);
      var s2 := Request(s1, 1, 50);
      && s1.jobs == [Job(1, 100)]
      && s1.sent == s.sent + [SetSync(s.running, 100, Stamp(s))]
      && s2.jobs == [Job(1, 50)]
      && s2.sent == s1.sent + [SetSync(s.running, 50, Stamp(s))]
      && var s3 := SchedNext(s2);
        && s3.multiTime == 50 && s3.running == 1 && s3.jobs == []
        && s3.sent[|s3.sent| - 1] == Cont(1, 50, SyncStamp(s.taskTime, 50))
  {
    var s1 := Request(s, 1, 100);
    OnlyRequester(s, 1, 100);
    RequestFlags(s, 1, 100);
    RequestSync(s, 1, 100);
    OnlyRequester(s1, 1, 50);
    RequestFlags(s1, 1, 50);
    RequestSync(s1, 1, 50);
  }

  /** Two participants, neither waiting yet, report waiting: wait_all for
      WAITING without scheduling handles both messages and returns after the
      second, and neither the jobs, the clock nor the sent calls moved. */
  lemma WaitNoticesScenario(s: Ctl)
    requires Valid(s) && |s.parts| == 3
    requires Waiting !in s.parts[1].flags && Waiting !in s.parts[2].flags
    ensures var w := WaitAll(s, Waiting, false, [SchedWait(1), SchedWait(2)]);
      && w.done && w.consumed == 2
      && w.state.jobs == s.jobs && w.state.multiTime == s.multiTime && w.state.sent == s.sent
  {
    var inbox := [SchedWait(1), SchedWait(2)];
    var s1 := Step(s, SchedWait(1), false);
    assert s1 == AddFlag(s, 1, Waiting);
    assert s1.parts[2] == s.parts[2];
    assert !AllHave(s.parts, Waiting) && !AllHave(s1.parts, Waiting);
    var s2 := Step(s1, SchedWait(2), false);
    assert s2 == AddFlag(s1, 2, Waiting);
    assert AllHave(s2.parts, Waiting);
    assert inbox[1..] == [SchedWait(2)];
    assert [SchedWait(2)][1..] == [];
  }
}
