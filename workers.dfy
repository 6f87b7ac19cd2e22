/** Model of the worker threads of unzipdirs.cpp: worker `k` of `jobs` handles the archives
    at indices k, k + jobs, k + 2*jobs, ..., and stops at its first failure. The threads are
    modelled one after the other; each works only on its own indices, and a failure only ends
    the failing worker's loop, so the order does not change what each worker does. */
module Workers {
  import opened FsModel

  /** The indices worker `k` visits: `for (int i = k; i < n; i += jobs)`. */
  function Stride(k: nat, jobs: nat, n: nat): seq<nat>
    requires jobs >= 1
    decreases n - k
  {
    if k >= n then [] else [k] + Stride(k + jobs, jobs, n)
  }

  /** An index lies on a worker's stride exactly when it is below `n`, not before the
      worker's start, and has the start's remainder modulo `jobs`. */
  lemma {:induction false} StrideMember(k: nat, jobs: nat, n: nat, i: nat)
    requires jobs >= 1
    ensures i in Stride(k, jobs, n) <==> k <= i < n && i % jobs == k % jobs
    decreases n - k
  {
    if k < n {
      StrideMember(k + jobs, jobs, n, i);
      ShiftResidue(k, jobs);
      if k < i && i % jobs == k % jobs {
        SameResidueGap(k, i, jobs);
      }
    }
  }

  lemma ShiftResidue(k: nat, jobs: nat)
    requires jobs >= 1
    ensures (k + jobs) % jobs == k % jobs
  {
    assert k + jobs == jobs * (k / jobs + 1) + k % jobs;
    ModUnique(k + jobs, jobs, k / jobs + 1, k % jobs);
  }

  /** Division with remainder is unique. */
  lemma ModUnique(a: nat, jobs: nat, q: int, r: int)
    requires jobs >= 1 && a == jobs * q + r && 0 <= r < jobs
    ensures a % jobs == r
  {
    var q', r' := a / jobs, a % jobs;
    assert a == jobs * q' + r';
    if q < q' {
      MulMonotone(jobs, q + 1, q');
      assert false;
    } else if q' < q {
      MulMonotone(jobs, q' + 1, q);
      assert false;
    }
  }

  /** Two distinct numbers with the same remainder are at least `jobs` apart. */
  lemma SameResidueGap(k: nat, i: nat, jobs: nat)
    requires jobs >= 1 && k < i && i % jobs == k % jobs
    ensures k + jobs <= i
  {
    var qk, qi := k / jobs, i / jobs;
    assert k == jobs * qk + k % jobs;
    assert i == jobs * qi + i % jobs;
    assert jobs * qk < jobs * qi;
    if qi <= qk {
      MulMonotone(jobs, qi, qk);
      assert false;
    }
    assert qk + 1 <= qi;
    MulMonotone(jobs, qk + 1, qi);
  }

  lemma MulMonotone(a: nat, x: int, y: int)
    requires x <= y
    ensures a * x <= a * y
  {
  }

  /** Worker `k` (with `0 <= k < jobs`) owns exactly the indices below `n` that are `k`
      modulo `jobs`. */
  lemma OwnedIndices(k: nat, jobs: nat, n: nat, i: nat)
    requires 0 <= k < jobs
    ensures i in Stride(k, jobs, n) <==> i < n && i % jobs == k
  {
    StrideMember(k, jobs, n, i);
    ModUnique(k, jobs, 0, k);
    assert i == jobs * (i / jobs) + i % jobs;
  }

  /** No index is handled by two workers. */
  lemma PartitionDisjoint(k1: nat, k2: nat, jobs: nat, n: nat, i: nat)
    requires k1 < jobs && k2 < jobs && k1 != k2
    ensures !(i in Stride(k1, jobs, n) && i in Stride(k2, jobs, n))
  {
    OwnedIndices(k1, jobs, n, i);
    OwnedIndices(k2, jobs, n, i);
  }

  /** Every index below `n` is handled by some worker, namely worker `i % jobs`. */
  lemma PartitionCovers(jobs: nat, n: nat, i: nat)
    requires jobs >= 1 && i < n
    ensures i % jobs < jobs && i in Stride(i % jobs, jobs, n)
  {
    OwnedIndices(i % jobs, jobs, n, i);
  }

  /** A worker visits its indices in increasing order, each `jobs` after the previous one. */
  lemma {:induction false} StrideIncreasing(k: nat, jobs: nat, n: nat)
    requires jobs >= 1
    ensures forall j :: 0 <= j < |Stride(k, jobs, n)| ==> k <= Stride(k, jobs, n)[j] < n
    ensures forall j :: 0 < j < |Stride(k, jobs, n)| ==>
      Stride(k, jobs, n)[j] == Stride(k, jobs, n)[j - 1] + jobs
    decreases n - k
  {
    if k < n {
      StrideIncreasing(k + jobs, jobs, n);
    }
  }

  // ---------------------------------------------------------------------------
  // One worker

  /** How many indices of `s` succeed before the first one for which `fails` holds
      (`|s|` when none fails). */
  function FirstFailure(s: seq<nat>, fails: nat -> bool): nat
  {
    if s == [] then 0
    else if fails(s[0]) then 0
    else 1 + FirstFailure(s[1..], fails)
  }

  /** The first failure is characterised by: all before it succeed, and it fails. */
  lemma {:induction false} FirstFailureSpec(s: seq<nat>, fails: nat -> bool, m: nat)
    ensures FirstFailure(s, fails) <= |s|
    ensures forall j :: 0 <= j < FirstFailure(s, fails) ==> !fails(s[j])
    ensures FirstFailure(s, fails) < |s| ==> fails(s[FirstFailure(s, fails)])
    ensures m <= |s| && (forall j :: 0 <= j < m ==> !fails(s[j])) && (m == |s| || fails(s[m])) ==>
      FirstFailure(s, fails) == m
    decreases |s|
  {
    if s != [] && !fails(s[0]) {
      FirstFailureSpec(s[1..], fails, if m == 0 then 0 else m - 1);
      if m > 0 && m <= |s| && (forall j :: 0 <= j < m ==> !fails(s[j])) {
        assert forall j :: 0 <= j < m - 1 ==> !fails(s[1..][j]) by {
          forall j | 0 <= j < m - 1 ensures !fails(s[1..][j]) {
            assert s[1..][j] == s[j + 1];
          }
        }
      }
    }
  }

  /** The first failure along a stride depends only on the indices of that stride: what
      happens at other workers' indices does not change it. */
  lemma {:induction false} FirstFailureLocal(s: seq<nat>, f1: nat -> bool, f2: nat -> bool)
    requires forall j :: 0 <= j < |s| ==> f1(s[j]) == f2(s[j])
    ensures FirstFailure(s, f1) == FirstFailure(s, f2)
    decreases |s|
  {
    if s != [] {
      FirstFailureLocal(s[1..], f1, f2);
    }
  }

  /** What a worker did: the indices it attempted, in order, how often it ticked the
      progress bar, and the index whose extraction threw, if any. */
  datatype WorkerRun = WorkerRun(attempted: seq<nat>, ticks: nat, failure: Option<nat>)

  /** The specification of worker `k`: it attempts its stride up to and including the first
      failure, ticks once per success, and reports the failing index. */
  function WorkerSpec(k: nat, jobs: nat, n: nat, fails: nat -> bool): WorkerRun
    requires jobs >= 1
  {
    var s := Stride(k, jobs, n);
    var m := FirstFailure(s, fails);
    FirstFailureSpec(s, fails, 0);
    if m < |s| then WorkerRun(s[..m + 1], m, Some(s[m])) else WorkerRun(s, m, None)
  }

  lemma {:induction false} StrideStep(k: nat, jobs: nat, n: nat, i: nat, m: nat)
    requires jobs >= 1 && m <= |Stride(k, jobs, n)| && Stride(i, jobs, n) == Stride(k, jobs, n)[m..]
    requires i < n
    ensures m < |Stride(k, jobs, n)| && Stride(k, jobs, n)[m] == i
    ensures Stride(i + jobs, jobs, n) == Stride(k, jobs, n)[m + 1..]
  {
  }

  /** The body of one thread: `for (i = job_id; i < size; i += jobs)` with `unzip` in a
      `try`; a caught exception is stored and ends the loop, a success ticks the bar. */
  method RunWorker(k: nat, jobs: nat, n: nat, fails: nat -> bool) returns (run: WorkerRun)
    requires jobs >= 1
    ensures run == WorkerSpec(k, jobs, n, fails)
  {
    ghost var s := Stride(k, jobs, n);
    var attempted: seq<nat> := [];
    var ticks := 0;
    var i := k;
    ghost var m := 0;
    while i < n
      invariant m <= |s| && Stride(i, jobs, n) == s[m..]
      invariant attempted == s[..m] && ticks == m
      invariant forall j :: 0 <= j < m ==> !fails(s[j])
      decreases n - i
    {
      StrideStep(k, jobs, n, i, m);
      attempted := attempted + [i];
      if fails(i) {
        FirstFailureSpec(s, fails, m);
        assert s[..m + 1] == s[..m] + [i];
        return WorkerRun(attempted, ticks, Some(i));
      }
      assert s[..m + 1] == s[..m] + [i];
      ticks := ticks + 1;
      i := i + jobs;
      m := m + 1;
    }
    assert m == |s|;
    FirstFailureSpec(s, fails, m);
    assert s[..m] == s;
    return WorkerRun(attempted, ticks, None);
  }

  /** A worker whose own extractions all succeed attempts every index of its stride,
      whatever the other workers meet. */
  lemma WorkerUnaffected(k: nat, jobs: nat, n: nat, fails: nat -> bool)
    requires jobs >= 1
    requires forall i :: i in Stride(k, jobs, n) ==> !fails(i)
    ensures WorkerSpec(k, jobs, n, fails) == WorkerRun(Stride(k, jobs, n), |Stride(k, jobs, n)|, None)
  {
    var s := Stride(k, jobs, n);
    FirstFailureSpec(s, fails, |s|);
  }

  /** A worker reports a failure exactly when one of its own indices fails. */
  lemma WorkerFailsIff(k: nat, jobs: nat, n: nat, fails: nat -> bool)
    requires jobs >= 1
    ensures WorkerSpec(k, jobs, n, fails).failure.Some? <==>
      exists i :: i in Stride(k, jobs, n) && fails(i)
  {
    var s := Stride(k, jobs, n);
    FirstFailureSpec(s, fails, 0);
    var m := FirstFailure(s, fails);
    if m < |s| {
      assert s[m] in s;
    }
    if exists i :: i in s && fails(i) {
      var i :| i in s && fails(i);
      var j :| 0 <= j < |s| && s[j] == i;
      assert j >= m;
    }
  }

  // ---------------------------------------------------------------------------
  // The pool

  /** What the `jobs` workers do, worker by worker. */
  function PoolSpec(jobs: nat, n: nat, fails: nat -> bool): (runs: seq<WorkerRun>)
    ensures |runs| == jobs
    ensures forall k :: 0 <= k < jobs ==> runs[k] == WorkerSpec(k, jobs, n, fails)
  {
    seq(jobs, k requires 0 <= k < jobs => WorkerSpec(k, jobs, n, fails))
  }

  /** Some worker stored an exception: after joining, `main` rethrows it and returns 1. */
  predicate PoolFailed(runs: seq<WorkerRun>)
  {
    exists k :: 0 <= k < |runs| && runs[k].failure.Some?
  }

  /** Start `jobs` workers (`for (job_id = 0; job_id < jobs; ++job_id)`) and join them all. */
  method RunPool(jobs: nat, n: nat, fails: nat -> bool) returns (runs: seq<WorkerRun>, failed: bool)
    ensures runs == PoolSpec(jobs, n, fails)
    ensures failed == PoolFailed(runs)
  {
    runs := [];
    failed := false;
    for k := 0 to jobs
      invariant |runs| == k
      invariant forall j :: 0 <= j < k ==> runs[j] == WorkerSpec(j, jobs, n, fails)
      invariant failed <==> exists j :: 0 <= j < k && runs[j].failure.Some?
    {
      var run := RunWorker(k, jobs, n, fails);
      runs := runs + [run];
      if run.failure.Some? {
        failed := true;
      }
    }
  }

  /** With at least one worker, the pool fails exactly when some index below `n` fails;
      with none, nothing is attempted and the pool never fails. */
  lemma PoolFailsIff(jobs: nat, n: nat, fails: nat -> bool)
    ensures PoolFailed(PoolSpec(jobs, n, fails)) <==> jobs >= 1 && exists i :: 0 <= i < n && fails(i)
  {
    var runs := PoolSpec(jobs, n, fails);
    if PoolFailed(runs) {
      var k :| 0 <= k < jobs && runs[k].failure.Some?;
      WorkerFailsIff(k, jobs, n, fails);
      var i :| i in Stride(k, jobs, n) && fails(i);
      StrideMember(k, jobs, n, i);
    }
    if jobs >= 1 && exists i :: 0 <= i < n && fails(i) {
      var i :| 0 <= i < n && fails(i);
      PartitionCovers(jobs, n, i);
      WorkerFailsIff(i % jobs, jobs, n, fails);
      assert runs[i % jobs].failure.Some?;
    }
  }

  /** A worker only attempts indices of its own stride, so no index is attempted by a worker
      other than the one numbered by the index modulo `jobs`. */
  lemma OnlyOwnerAttempts(jobs: nat, n: nat, fails: nat -> bool, i: nat, k: nat)
    requires k < jobs && k != i % jobs
    ensures i !in WorkerSpec(k, jobs, n, fails).attempted
  {
    var s := Stride(k, jobs, n);
    FirstFailureSpec(s, fails, 0);
    var m := FirstFailure(s, fails);
    assert forall x :: x in WorkerSpec(k, jobs, n, fails).attempted ==> x in s;
    OwnedIndices(k, jobs, n, i);
  }

  /** Every index below `n` is attempted by its worker unless that worker failed earlier on
      its own stride; with no failure at all, every index is attempted exactly once. */
  lemma AllAttemptedWithoutFailure(jobs: nat, n: nat, fails: nat -> bool, i: nat)
    requires jobs >= 1 && i < n
    requires forall j :: 0 <= j < n ==> !fails(j)
    ensures i in WorkerSpec(i % jobs, jobs, n, fails).attempted
    ensures forall k :: 0 <= k < jobs && k != i % jobs ==> i !in WorkerSpec(k, jobs, n, fails).attempted
  {
    PartitionCovers(jobs, n, i);
    forall k | 0 <= k < jobs
      ensures WorkerSpec(k, jobs, n, fails).attempted == Stride(k, jobs, n)
    {
      forall j | j in Stride(k, jobs, n) ensures !fails(j) {
        StrideMember(k, jobs, n, j);
      }
      WorkerUnaffected(k, jobs, n, fails);
    }
    forall k | 0 <= k < jobs && k != i % jobs
      ensures i !in Stride(k, jobs, n)
    {
      PartitionDisjoint(k, i % jobs, jobs, n, i);
    }
  }
}
