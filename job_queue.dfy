/** The delivery queue: jobs that each ask the worker to deliver one stored mail. */
module JobQueue {
  import opened Wrappers
  import opened Listing

  /** The queue's default job options: retries, the first backoff delay and the time a
      job may run, in milliseconds. */
  const Attempts: nat := 3
  const BackoffDelayMs: nat := 10000
  const JobTimeoutMs: nat := 60000

  /** What a job carries: the stored mail's id and the fields the worker sends. */
  datatype JobData = JobData(
    mailId: nat,
    to: string,
    subject: string,
    body: Option<string>,
    userId: string,
    userName: string)

  /** A job waits for a worker, waits for its delay to pass, or is being worked on. */
  datatype JobState = Waiting | Delayed | Active

  datatype Job = Job(jobId: nat, data: JobData, delay: Option<int>, state: JobState)

  /** A job's state right after it is added: delayed when it was given a positive
      delay, otherwise waiting. */
  function StateFor(delay: Option<int>): (s: JobState)
    ensures s == Delayed <==> delay.Some? && delay.value > 0
    ensures s != Active
  {
    if delay.Some? && delay.value > 0 then Delayed else Waiting
  }

  function IsPending(): Job -> bool { (j: Job) => j.state == Waiting || j.state == Delayed }

  function OtherJob(jobId: nat): Job -> bool { (j: Job) => j.jobId != jobId }

  function ForMail(mailId: nat): Job -> bool { (j: Job) => j.data.mailId == mailId }

  /** `getJobs(["waiting", "delayed"])`: the jobs not yet picked up, in queue order. */
  function WaitingOrDelayed(jobs: seq<Job>): (r: seq<Job>)
    ensures forall j :: j in r <==> j in jobs && (j.state == Waiting || j.state == Delayed)
    ensures IsSubsequence(r, jobs)
    ensures forall j :: multiset(r)[j] == if j.state == Waiting || j.state == Delayed then multiset(jobs)[j] else 0
  {
    FilterIsSubsequence(jobs, IsPending());
    Filter(jobs, IsPending())
  }

  /** The first job not yet picked up that belongs to the given mail. */
  function FirstPendingFor(jobs: seq<Job>, mailId: nat): (r: Option<Job>)
    ensures r.Some? ==> r.value in jobs && r.value.state != Active && r.value.data.mailId == mailId
    ensures r.None? <==> forall j :: j in jobs && j.state != Active ==> j.data.mailId != mailId
  {
    var p := WaitingOrDelayed(jobs);
    var r := Find(p, ForMail(mailId));
    assert r.None? ==> forall j :: j in p ==> j.data.mailId != mailId;
    assert forall j :: j in jobs && j.state != Active ==> j in p;
    r
  }

  /** No two jobs share an id. */
  predicate DistinctIds(jobs: seq<Job>) {
    forall i, j :: 0 <= i < j < |jobs| ==> jobs[i].jobId != jobs[j].jobId
  }

  /** Filtering keeps the ids distinct. */
  lemma {:induction false} FilterDistinct(jobs: seq<Job>, keep: Job -> bool)
    requires DistinctIds(jobs)
    ensures DistinctIds(Filter(jobs, keep))
    decreases |jobs|
  {
    if jobs != [] {
      DistinctTail(jobs);
      FilterDistinct(jobs[1..], keep);
      var rest := Filter(jobs[1..], keep);
      if keep(jobs[0]) {
        assert forall x :: x in rest ==> x in jobs[1..];
        DistinctCons(jobs[0], rest);
        assert Filter(jobs, keep) == [jobs[0]] + rest;
      } else {
        assert Filter(jobs, keep) == rest;
      }
    }
  }

  lemma DistinctTail(jobs: seq<Job>)
    requires jobs != [] && DistinctIds(jobs)
    ensures DistinctIds(jobs[1..])
    ensures forall x :: x in jobs[1..] ==> x.jobId != jobs[0].jobId
  {
    var tail := jobs[1..];
    forall i, j | 0 <= i < j < |tail|
      ensures tail[i].jobId != tail[j].jobId
    {
      assert tail[i] == jobs[i + 1] && tail[j] == jobs[j + 1];
    }
    forall x | x in tail
      ensures x.jobId != jobs[0].jobId
    {
      var k :| 0 <= k < |tail| && tail[k] == x;
      assert tail[k] == jobs[k + 1];
    }
  }

  lemma DistinctCons(job: Job, rest: seq<Job>)
    requires DistinctIds(rest) && forall x :: x in rest ==> x.jobId != job.jobId
    ensures DistinctIds([job] + rest)
  {
    var r := [job] + rest;
    forall i, j | 0 <= i < j < |r|
      ensures r[i].jobId != r[j].jobId
    {
      assert r[j] == rest[j - 1];
      if i > 0 {
        assert r[i] == rest[i - 1];
      }
    }
  }

  /** Filtering one id out of distinct ids: what `Remove` leaves. */
  lemma WithoutJob(jobs: seq<Job>, jobId: nat)
    requires DistinctIds(jobs)
    ensures var r := Filter(jobs, OtherJob(jobId));
      && DistinctIds(r)
      && (forall j :: j in r ==> j in jobs)
      && (forall k :: 0 <= k < |jobs| && jobs[k].jobId == jobId ==> r == RemoveAt(jobs, k))
      && ((forall k :: 0 <= k < |jobs| ==> jobs[k].jobId != jobId) ==> r == jobs)
  {
    forall k | 0 <= k < |jobs| && jobs[k].jobId == jobId
      ensures Filter(jobs, OtherJob(jobId)) == RemoveAt(jobs, k)
    {
      FilterRemovesOne(jobs, OtherJob(jobId), k);
    }
    FilterKeepsAll(jobs, OtherJob(jobId));
    FilterDistinct(jobs, OtherJob(jobId));
  }

  class EmailQueue {
    var jobs: seq<Job>
    var nextJobId: nat

    /** Job ids are distinct and below the next one. */
    ghost predicate Valid()
      reads this
    {
      DistinctIds(jobs) && forall j :: j in jobs ==> j.jobId < nextJobId
    }

    constructor ()
      ensures Valid() && jobs == [] && nextJobId == 1
    {
      jobs, nextJobId := [], 1;
    }

    /** `add`: appends one job under a new id. */
    method Add(data: JobData, delay: Option<int>) returns (job: Job)
      requires Valid()
      modifies this
      ensures Valid()
      ensures job == Job(old(nextJobId), data, delay, StateFor(delay))
      ensures jobs == old(jobs) + [job]
      ensures forall i :: 0 <= i < |old(jobs)| ==> old(jobs)[i].jobId != job.jobId
    {
      assert forall i :: 0 <= i < |jobs| ==> jobs[i] in jobs;
      job := Job(nextJobId, data, delay, StateFor(delay));
      jobs := jobs + [job];
      nextJobId := nextJobId + 1;
    }

    /** `job.remove()`: the job with that id leaves the queue. Ids being distinct,
        that is exactly one job, at its own position, or none when no job has the id. */
    method Remove(jobId: nat)
      requires Valid()
      modifies this`jobs
      ensures Valid()
      ensures jobs == Filter(old(jobs), OtherJob(jobId))
      ensures forall k :: 0 <= k < |old(jobs)| && old(jobs)[k].jobId == jobId ==> jobs == RemoveAt(old(jobs), k)
      ensures (forall k :: 0 <= k < |old(jobs)| ==> old(jobs)[k].jobId != jobId) ==> jobs == old(jobs)
    {
      WithoutJob(jobs, jobId);
      jobs := Filter(jobs, OtherJob(jobId));
    }
  }
}
