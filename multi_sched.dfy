/** The job list of the multi-participant scheduler. The scheduler's own
    code is not part of this model; what the controller relies on is stated
    here as definitions: jobs are kept ordered by start time, a new job goes
    behind every job that starts no later than it (ties keep insertion
    order), removing a job that is not queued is a no-op, and the next
    pending job is the head of the list. */
module MultiSched {

  /** A queued `struct usfstl_job` of the controller: every job on this
      scheduler is some participant's `p->job`, with the job callback
      usfstl_multi_controller_sched_callback. */
  datatype Job = Job(owner: nat, start: nat)

  predicate Sorted(js: seq<Job>) {
    forall i, j :: 0 <= i < j < |js| ==> js[i].start <= js[j].start
  }

  /** A participant has at most one queued job (its embedded `p->job`). */
  predicate OneJobEach(js: seq<Job>) {
    forall i, j :: 0 <= i < j < |js| ==> js[i].owner != js[j].owner
  }

  predicate HasJob(js: seq<Job>, p: nat) {
    exists i :: 0 <= i < |js| && js[i].owner == p
  }

  /** usfstl_sched_del_job(&p->job): unlink p's job if it is queued. */
  function DelJob(js: seq<Job>, p: nat): (r: seq<Job>)
    ensures |r| <= |js|
  {
    if js == [] then []
    else (if js[0].owner == p then [] else [js[0]]) + DelJob(js[1..], p)
  }

  /** Where usfstl_sched_add_job links a job starting at t: behind every
      queued job that starts no later than t. */
  function SlotFor(js: seq<Job>, t: nat): (k: nat)
    ensures k <= |js|
    ensures forall i :: 0 <= i < k ==> js[i].start <= t
    ensures k < |js| ==> js[k].start > t
  {
    if js == [] || js[0].start > t then 0 else 1 + SlotFor(js[1..], t)
  }

  /** usfstl_sched_add_job: link j into the list by start time. */
  function AddJob(js: seq<Job>, j: Job): (r: seq<Job>)
    ensures |r| == |js| + 1
  {
    if js == [] || js[0].start > j.start then [j] + js
    else [js[0]] + AddJob(js[1..], j)
  }

  /** A delete keeps exactly the jobs of other participants. */
  lemma {:induction false} DelJobMembers(js: seq<Job>, p: nat)
    ensures forall j :: j in DelJob(js, p) <==> j in js && j.owner != p
    decreases |js|
  {
    if js != [] {
      DelJobMembers(js[1..], p);
      assert js == [js[0]] + js[1..];
    }
  }

  /** Deleting the job of a participant that has none changes nothing. */
  lemma {:induction false} DelJobAbsent(js: seq<Job>, p: nat)
    requires !HasJob(js, p)
    ensures DelJob(js, p) == js
    decreases |js|
  {
    if js != [] {
      assert js[0].owner != p;
      assert !HasJob(js[1..], p) by {
        forall i | 0 <= i < |js[1..]|
          ensures js[1..][i].owner != p
        {
          assert js[1..][i] == js[i + 1];
        }
      }
      DelJobAbsent(js[1..], p);
      assert js == [js[0]] + js[1..];
    }
  }

  /** Deleting the job of the only participant with jobs empties the list. */
  lemma {:induction false} DelJobOnly(js: seq<Job>, p: nat)
    requires forall i :: 0 <= i < |js| ==> js[i].owner == p
    ensures DelJob(js, p) == []
    decreases |js|
  {
    if js != [] {
      assert forall i :: 0 <= i < |js[1..]| ==> js[1..][i] == js[i + 1];
      DelJobOnly(js[1..], p);
    }
  }

  /** An add inserts the job and keeps every job already queued. */
  lemma {:induction false} AddJobMultiset(js: seq<Job>, j: Job)
    ensures multiset(AddJob(js, j)) == multiset(js) + multiset{j}
    decreases |js|
  {
    if js != [] && js[0].start <= j.start {
      AddJobMultiset(js[1..], j);
      assert js == [js[0]] + js[1..];
    }
  }

  lemma {:induction false} DelJobSorted(js: seq<Job>, p: nat)
    requires Sorted(js)
    ensures Sorted(DelJob(js, p))
    decreases |js|
  {
    if js != [] {
      var t := js[1..];
      var rest := DelJob(t, p);
      DelJobSorted(t, p);
      DelJobMembers(t, p);
      forall i | 0 <= i < |rest|
        ensures js[0].start <= rest[i].start
      {
        assert rest[i] in t;
        var k :| 0 <= k < |t| && t[k] == rest[i];
        assert js[k + 1] == t[k];
      }
    }
  }

  lemma {:induction false} DelJobOneEach(js: seq<Job>, p: nat)
    requires OneJobEach(js)
    ensures OneJobEach(DelJob(js, p))
    decreases |js|
  {
    if js != [] {
      var rest := DelJob(js[1..], p);
      DelJobOneEach(js[1..], p);
      DelJobMembers(js[1..], p);
      forall x | x in rest
        ensures js[0].owner != x.owner
      {
        var k :| 0 <= k < |js[1..]| && js[1..][k] == x;
        assert js[k + 1] == x;
      }
    }
  }

  /** After a delete the participant has no job left. */
  lemma DelJobRemoves(js: seq<Job>, p: nat)
    ensures !HasJob(DelJob(js, p), p)
  {
    var r := DelJob(js, p);
    DelJobMembers(js, p);
    forall i | 0 <= i < |r|
      ensures r[i].owner != p
    {
      assert r[i] in r;
    }
  }

  /** Position a of the list after an add, in terms of the old list: the
      job goes exactly between the jobs starting no later than it and the
      jobs after it. */
  lemma {:induction false} AddJobAt(js: seq<Job>, j: Job, a: nat)
    requires a <= |js|
    ensures var k := SlotFor(js, j.start);
      AddJob(js, j)[a] == if a < k then js[a] else if a == k then j else js[a - 1]
    decreases |js|
  {
    if js != [] && js[0].start <= j.start && a > 0 {
      var t := js[1..];
      AddJobAt(t, j, a - 1);
      assert AddJob(js, j)[a] == AddJob(t, j)[a - 1];
    }
  }

  lemma AddJobSorted(js: seq<Job>, j: Job)
    requires Sorted(js)
    ensures Sorted(AddJob(js, j))
  {
    var r := AddJob(js, j);
    forall a, b | 0 <= a < b < |r|
      ensures r[a].start <= r[b].start
    {
      AddJobAt(js, j, a);
      AddJobAt(js, j, b);
    }
  }

  lemma AddJobOneEach(js: seq<Job>, j: Job)
    requires OneJobEach(js) && !HasJob(js, j.owner)
    ensures OneJobEach(AddJob(js, j))
  {
    var r := AddJob(js, j);
    forall a, b | 0 <= a < b < |r|
      ensures r[a].owner != r[b].owner
    {
      AddJobAt(js, j, a);
      AddJobAt(js, j, b);
    }
  }

  /** Every job of the list after an add is the new job or an old one. */
  lemma AddJobMembers(js: seq<Job>, j: Job)
    ensures forall x :: x in AddJob(js, j) <==> x == j || x in js
  {
    var r := AddJob(js, j);
    AddJobMultiset(js, j);
    forall x
      ensures x in r <==> x == j || x in js
    {
      assert x in r <==> x in multiset(r);
      assert x in js <==> x in multiset(js);
    }
  }
}
