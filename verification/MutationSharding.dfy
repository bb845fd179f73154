/** Splitting a mutation session over shards and putting the results back together
    (`_partition_job_ids`, `_shard_count_for_pending`, `_shard_matrices`, `_run_target` and the
    plan, exec-shard and merge phases). */
module MutationSharding {
  import opened Arithmetic
  import opened Wrappers
  import opened MutationSessions

  // ------------------------------------------------------------ round-robin buckets

  /** The jobs dealt to bucket `i` of `count`, in order. */
  function Bucket(jobs: seq<Job>, count: nat, i: nat): seq<Job>
    requires count > 0
  {
    if jobs == [] then []
    else
      var last := |jobs| - 1;
      Bucket(jobs[..last], count, i) + (if last % count == i then [jobs[last]] else [])
  }

  method PartitionJobIds(jobs: seq<Job>, count: int) returns (r: Option<seq<seq<Job>>>)
    ensures r.None? <==> count < 1
    ensures r.Some? ==> |r.value| == count && forall i :: 0 <= i < count ==> r.value[i] == Bucket(jobs, count, i)
  {
    if count < 1 {
      return None;
    }
    var buckets := seq(count, _ => []);
    for index := 0 to |jobs|
      invariant |buckets| == count
      invariant forall i :: 0 <= i < count ==> buckets[i] == Bucket(jobs[..index], count, i)
    {
      var b := index % count;
      buckets := buckets[b := buckets[b] + [jobs[index]]];
      assert jobs[..index + 1][..index] == jobs[..index];
    }
    assert jobs[..|jobs|] == jobs;
    return Some(buckets);
  }

  function BucketSize(total: nat, count: nat, i: nat): nat
    requires count > 0
  {
    total / count + if i < total % count then 1 else 0
  }

  /** Bucket `i` holds the jobs at positions `i`, `i + count`, `i + 2 * count`, ... */
  lemma {:induction false} BucketHolds(jobs: seq<Job>, count: nat, i: nat)
    requires i < count
    ensures |Bucket(jobs, count, i)| == BucketSize(|jobs|, count, i)
    ensures forall k :: 0 <= k < |Bucket(jobs, count, i)| ==>
      k * count + i < |jobs| && Bucket(jobs, count, i)[k] == jobs[k * count + i]
  {
    if jobs != [] {
      var last := |jobs| - 1;
      BucketHolds(jobs[..last], count, i);
      NextQuotient(last, count);
    }
  }

  lemma {:induction false} NextQuotient(n: nat, count: nat)
    requires count > 0
    ensures n == n / count * count + n % count
    ensures n % count + 1 < count ==> (n + 1) / count == n / count && (n + 1) % count == n % count + 1
    ensures n % count + 1 == count ==> (n + 1) / count == n / count + 1 && (n + 1) % count == 0
  {
    var q, r := n / count, n % count;
    if r + 1 < count {
      QuotientIs(n + 1, count, q, r + 1);
    } else {
      assert n + 1 == (q + 1) * count;
      QuotientIs(n + 1, count, q + 1, 0);
    }
  }

  /** Sizes differ by at most one. */
  lemma {:induction false} BucketsAreBalanced(jobs: seq<Job>, count: nat, i: nat, j: nat)
    requires i < count && j < count
    ensures |Bucket(jobs, count, i)| <= |Bucket(jobs, count, j)| + 1
  {
    BucketHolds(jobs, count, i);
    BucketHolds(jobs, count, j);
  }

  /** Every job is in a bucket, and only jobs are. */
  lemma {:induction false} BucketsCover(jobs: seq<Job>, count: nat, job: Job)
    requires count > 0
    ensures job in jobs <==> exists i :: 0 <= i < count && job in Bucket(jobs, count, i)
  {
    if job in jobs {
      var m :| 0 <= m < |jobs| && jobs[m] == job;
      DealtTo(jobs, count, m);
    }
    forall i | 0 <= i < count && job in Bucket(jobs, count, i)
      ensures job in jobs
    {
      BucketHolds(jobs, count, i);
    }
  }

  lemma {:induction false} DealtTo(jobs: seq<Job>, count: nat, m: nat)
    requires count > 0 && m < |jobs|
    ensures jobs[m] in Bucket(jobs, count, m % count)
  {
    var last := |jobs| - 1;
    if m < last {
      DealtTo(jobs[..last], count, m);
    }
  }

  lemma {:induction false} BucketHoldsOnlyJobs(jobs: seq<Job>, count: nat, i: nat)
    requires count > 0
    ensures forall job :: job in Bucket(jobs, count, i) ==> job in jobs
  {
    if jobs != [] {
      BucketHoldsOnlyJobs(jobs[..|jobs| - 1], count, i);
    }
  }

  /** No job is in two buckets, or twice in one. */
  lemma {:induction false} BucketsAreDisjoint(jobs: seq<Job>, count: nat, i: nat, j: nat)
    requires Distinct(jobs) && count > 0
    ensures Distinct(Bucket(jobs, count, i))
    ensures i != j ==> forall job :: job in Bucket(jobs, count, i) ==> job !in Bucket(jobs, count, j)
  {
    if jobs != [] {
      var rest, last := jobs[..|jobs| - 1], jobs[|jobs| - 1];
      assert last !in rest;
      BucketHoldsOnlyJobs(rest, count, i);
      BucketHoldsOnlyJobs(rest, count, j);
      BucketsAreDisjoint(rest, count, i, j);
    }
  }

  // ------------------------------------------------------------ shard counts and matrices

  function ShardCountForPending(pending: int, cap: int): Option<nat> {
    if pending < 0 || cap <= 0 then None
    else
      var count := (pending + cap - 1) / cap;
      Some(if count > 1 then count else 1)
  }

  /** With this many buckets every one is within the cap, and with any fewer the first is not. */
  ghost predicate FitsLeast(jobs: seq<Job>, cap: nat, count: nat) {
    && count > 0
    && (forall i :: 0 <= i < count ==> |Bucket(jobs, count, i)| <= cap)
    && (forall fewer :: 0 < fewer < count ==> |Bucket(jobs, fewer, 0)| > cap)
  }

  lemma {:induction false} FitsLeastIsUnique(jobs: seq<Job>, cap: nat, a: nat, b: nat)
    requires FitsLeast(jobs, cap, a) && FitsLeast(jobs, cap, b)
    ensures a == b
  {
    assert |Bucket(jobs, a, 0)| <= cap && |Bucket(jobs, b, 0)| <= cap;
  }

  /** The computed count keeps every bucket within the cap, and no smaller count would. */
  lemma {:induction false} ShardCountIsLeast(jobs: seq<Job>, cap: nat)
    requires cap > 0
    ensures FitsLeast(jobs, cap, ShardCountForPending(|jobs|, cap).value)
  {
    var n := |jobs|;
    var count := ShardCountForPending(n, cap).value;
    CeilingBounds(n, cap);
    forall i | 0 <= i < count
      ensures |Bucket(jobs, count, i)| <= cap
    {
      BucketHolds(jobs, count, i);
      FitsWithin(n, count, cap);
    }
    forall fewer | 0 < fewer < count
      ensures |Bucket(jobs, fewer, 0)| > cap
    {
      BucketHolds(jobs, fewer, 0);
      ProductMonotone(fewer, count - 1, cap);
      Overflows(n, fewer, cap);
    }
  }

  lemma {:induction false} CeilingBounds(n: nat, cap: nat)
    requires cap > 0
    ensures var count := ShardCountForPending(n, cap).value;
      n <= count * cap && (count > 1 ==> (count - 1) * cap < n)
  {
    var c := (n + cap - 1) / cap;
    assert c * cap + (n + cap - 1) % cap == n + cap - 1;
    assert (c - 1) * cap == c * cap - cap;
  }

  lemma {:induction false} FitsWithin(n: nat, count: nat, cap: nat)
    requires count > 0 && n <= count * cap
    ensures n / count + (if n % count > 0 then 1 else 0) <= cap
  {
    var q, r := n / count, n % count;
    assert q * count + r == n;
    if q >= cap {
      ProductMonotone(cap, q, count);
      if q > cap {
        ProductMonotone(cap + 1, q, count);
      }
    }
  }

  lemma {:induction false} Overflows(n: nat, count: nat, cap: nat)
    requires count > 0 && count * cap < n
    ensures BucketSize(n, count, 0) > cap
  {
    var q, r := n / count, n % count;
    assert q * count + r == n;
    if q < cap {
      ProductMonotone(q + 1, cap, count);
    } else if q == cap {
      assert q * count == cap * count;
    }
  }

  const MAX_MATRIX_SHARDS := 256
  const MAX_TOTAL_MATRIX_SHARDS := MAX_MATRIX_SHARDS * 2

  /** The primary and overflow matrices, or nothing when the plan does not fit in two. */
  function ShardMatrices<T>(shards: seq<T>): (r: Option<(seq<T>, seq<T>)>)
    ensures r.Some? <==> |shards| <= 512
    ensures r.Some? ==> r.value.0 + r.value.1 == shards && |r.value.0| <= 256 && |r.value.1| <= 256
    ensures r.Some? && r.value.1 != [] ==> |r.value.0| == 256
  {
    if |shards| > MAX_TOTAL_MATRIX_SHARDS then None
    else if |shards| <= MAX_MATRIX_SHARDS then Some((shards, []))
    else Some((shards[..MAX_MATRIX_SHARDS], shards[MAX_MATRIX_SHARDS..]))
  }

  // ------------------------------------------------------------ sharded equals unsharded

  /** A session that executed some of one shard's jobs: shard `i`'s slice of the base session,
      executed until it finished or was stopped. */
  ghost predicate IsShardOf(base: Rows, count: nat, outcomes: Outcomes, shard: Rows)
    requires count > 0
  {
    exists i, done :: 0 <= i < count && shard == ShardRows(base, count, i, outcomes, done)
  }

  ghost predicate AllShardsOf(base: Rows, count: nat, outcomes: Outcomes, sources: seq<Rows>)
    requires count > 0
  {
    forall k :: 0 <= k < |sources| ==> IsShardOf(base, count, outcomes, sources[k])
  }

  ghost function ShardRows(base: Rows, count: nat, i: nat, outcomes: Outcomes, done: set<Job>): Rows
    requires count > 0
  {
    Executed(Sliced(base, JobSet(Bucket(Pending(base), count, i))), outcomes, done)
  }

  /** A shard's results are among the base session's pending jobs, and are what any execution
      of those jobs records. */
  lemma {:induction false} ShardRecordsPendingJobs(base: Rows, count: nat, i: nat, outcomes: Outcomes, done: set<Job>)
    requires i < count
    ensures var shard := ShardRows(base, count, i, outcomes, done);
      forall j :: j in shard.results ==> j in Pending(base) && shard.results[j] == outcomes(j)
  {
    var bucket := Bucket(Pending(base), count, i);
    BucketHolds(Pending(base), count, i);
    SliceOfPending(base, bucket);
  }

  /** A slice of pending jobs has no results, and those jobs pending. */
  lemma {:induction false} SliceOfPending(base: Rows, bucket: seq<Job>)
    requires forall j :: j in bucket ==> j in Pending(base)
    ensures Sliced(base, JobSet(bucket)).results == map[]
    ensures forall j :: j in Pending(Sliced(base, JobSet(bucket))) <==> j in bucket
  {
    var slice := Sliced(base, JobSet(bucket));
    assert slice.results == map[];
    forall j
      ensures j in slice.items <==> j in bucket
    {
    }
  }

  /** A shard that ran to its end recorded its whole bucket. */
  lemma {:induction false} FinishedShardRecordsBucket(
    base: Rows, count: nat, i: nat, outcomes: Outcomes, done: set<Job>)
    requires i < count && RunsToItsEnd(base, count, i, done)
    ensures ShardRows(base, count, i, outcomes, done).results.Keys == JobSet(Bucket(Pending(base), count, i))
  {
    var bucket := Bucket(Pending(base), count, i);
    BucketHolds(Pending(base), count, i);
    FinishedSliceRecords(base, bucket, outcomes, done);
  }

  lemma {:induction false} FinishedSliceRecords(base: Rows, bucket: seq<Job>, outcomes: Outcomes, done: set<Job>)
    requires (forall j :: j in bucket ==> j in Pending(base)) && JobSet(bucket) <= done
    ensures Executed(Sliced(base, JobSet(bucket)), outcomes, done).results.Keys == JobSet(bucket)
  {
    var slice := Sliced(base, JobSet(bucket));
    SliceOfPending(base, bucket);
    assert JobSet(Pending(slice)) * done == JobSet(bucket);
  }

  /** Each result is the base session's own, which nothing replaces, or what executing the job
      records. */
  ghost predicate AsAnyExecutionRecords(base: Rows, outcomes: Outcomes, rows: Rows) {
    forall j :: j in rows.results ==>
      rows.results[j] == if j in base.results then base.results[j] else outcomes(j)
  }

  lemma {:induction false} SameJobsSameResults(base: Rows, outcomes: Outcomes, a: Rows, b: Rows)
    requires AsAnyExecutionRecords(base, outcomes, a) && AsAnyExecutionRecords(base, outcomes, b)
    requires a.results.Keys == b.results.Keys
    ensures a.results == b.results
  {
  }

  ghost predicate RecordedBy(sources: seq<Rows>, job: Job) {
    exists k :: 0 <= k < |sources| && job in sources[k].results
  }

  lemma {:induction false} RecordedByOneMore(sources: seq<Rows>, source: Rows)
    ensures forall j :: RecordedBy(sources + [source], j) <==> RecordedBy(sources, j) || j in source.results
  {
    forall j
      ensures RecordedBy(sources + [source], j) <==> RecordedBy(sources, j) || j in source.results
    {
      var more := sources + [source];
      assert more[|sources|] == source;
      if RecordedBy(sources, j) {
        var k :| 0 <= k < |sources| && j in sources[k].results;
        assert j in more[k].results;
      }
    }
  }

  /** What uniting sources onto the base session gives. */
  ghost predicate UnitedAs(base: Rows, outcomes: Outcomes, sources: seq<Rows>, merged: Rows) {
    && merged.items == base.items && merged.specs == base.specs
    && (forall j :: j in merged.results <==> j in base.results || RecordedBy(sources, j))
    && AsAnyExecutionRecords(base, outcomes, merged)
    && forall j :: RecordedBy(sources, j) ==> j in Pending(base)
  }

  lemma {:induction false} UnitedOneMore(base: Rows, outcomes: Outcomes, sources: seq<Rows>, before: Rows, source: Rows)
    requires UnitedAs(base, outcomes, sources, before)
    requires forall j :: j in source.results ==> j in Pending(base) && source.results[j] == outcomes(j)
    ensures UnitedAs(base, outcomes, sources + [source], before.(results := before.results + source.results))
  {
    RecordedByOneMore(sources, source);
  }

  /** Whatever shards are united, in whatever order and however often, each result is the base
      session's own or the one any execution records. */
  lemma {:induction false} UnitedResults(base: Rows, count: nat, outcomes: Outcomes, sources: seq<Rows>)
    requires count > 0 && AllShardsOf(base, count, outcomes, sources)
    ensures UnitedAs(base, outcomes, sources, United(base, sources))
  {
    if sources != [] {
      var last := |sources| - 1;
      var rest, source := sources[..last], sources[last];
      assert forall k :: 0 <= k < last ==> rest[k] == sources[k];
      UnitedResults(base, count, outcomes, rest);
      assert IsShardOf(base, count, outcomes, source);
      ShardRecordsOnlyPending(base, count, outcomes, source);
      UnitedOneMore(base, outcomes, rest, United(base, rest), source);
      assert sources == rest + [source];
    }
  }

  lemma {:induction false} ShardRecordsOnlyPending(base: Rows, count: nat, outcomes: Outcomes, source: Rows)
    requires count > 0 && IsShardOf(base, count, outcomes, source)
    ensures forall j :: j in source.results ==> j in Pending(base) && source.results[j] == outcomes(j)
  {
    var i, done :| 0 <= i < count && source == ShardRows(base, count, i, outcomes, done);
    ShardRecordsPendingJobs(base, count, i, outcomes, done);
  }

  /** The gate's count test passes exactly when every pending job was executed by a shard that
      was united, and then the merged session is the unsharded session to the row: a lost shard
      or one stopped early is always reported, and nothing else is. */
  lemma {:induction false} CompleteMergeIsUnsharded(base: Rows, count: nat, outcomes: Outcomes, sources: seq<Rows>)
    requires count > 0 && ValidRows(base)
    requires AllShardsOf(base, count, outcomes, sources)
    ensures ValidRows(United(base, sources))
    ensures CountsMatch(United(base, sources)) <==> forall j :: j in Pending(base) ==> RecordedBy(sources, j)
    ensures CountsMatch(United(base, sources)) <==> United(base, sources) == FullyExecuted(base, outcomes)
  {
    UnitedResults(base, count, outcomes, sources);
    MergedIsComplete(base, count, outcomes, sources);
    CompleteIsFull(base, outcomes, United(base, sources));
  }

  lemma {:induction false} MergedIsComplete(base: Rows, count: nat, outcomes: Outcomes, sources: seq<Rows>)
    requires count > 0 && ValidRows(base) && AllShardsOf(base, count, outcomes, sources)
    ensures CountsMatch(United(base, sources)) <==> forall j :: j in Pending(base) ==> RecordedBy(sources, j)
  {
    var merged := United(base, sources);
    UnitedResults(base, count, outcomes, sources);
    CountsMatchIffComplete(merged);
    if CountsMatch(merged) {
      forall j | j in Pending(base)
        ensures RecordedBy(sources, j)
      {
        assert j in JobSet(merged.items);
      }
    } else {
      var lost := Pending(merged)[0];
      assert lost in Pending(merged);
      assert lost in Pending(base) && !RecordedBy(sources, lost);
    }
  }

  /** With the base session's work items and results any execution records, a session is
      complete exactly when it is the fully executed one. */
  lemma {:induction false} CompleteIsFull(base: Rows, outcomes: Outcomes, rows: Rows)
    requires ValidRows(base) && ValidRows(rows) && rows.items == base.items && rows.specs == base.specs
    requires AsAnyExecutionRecords(base, outcomes, rows)
    ensures CountsMatch(rows) <==> rows == FullyExecuted(base, outcomes)
  {
    FullExecutionIsComplete(base, outcomes);
    if CountsMatch(rows) {
      CountsMatchIffComplete(rows);
      SameJobsSameResults(base, outcomes, rows, FullyExecuted(base, outcomes));
    }
  }

  lemma {:induction false} FullExecutionIsComplete(base: Rows, outcomes: Outcomes)
    requires ValidRows(base)
    ensures var full := FullyExecuted(base, outcomes);
      && ValidRows(full) && CountsMatch(full) && full.results.Keys == JobSet(base.items)
      && AsAnyExecutionRecords(base, outcomes, full)
  {
    var full := FullyExecuted(base, outcomes);
    assert full.results.Keys == JobSet(base.items);
    CountsMatchIffComplete(full);
  }

  /** An execution of the shard with this index that is not stopped before all its jobs are done. */
  ghost predicate RunsToItsEnd(base: Rows, count: nat, i: nat, done: set<Job>)
    requires count > 0
  {
    JobSet(Bucket(Pending(base), count, i)) <= done
  }

  /** Shards executed to their ends, all of them, united in any order and with any repetitions,
      give exactly the session an unsharded execution gives. */
  lemma {:induction false} ShardedEqualsUnsharded(
    base: Rows, count: nat, outcomes: Outcomes, order: seq<nat>, dones: seq<set<Job>>, shards: seq<Rows>)
    requires count > 0 && ValidRows(base) && |shards| == |dones| == |order|
    requires forall k :: 0 <= k < |order| ==> order[k] < count && RunsToItsEnd(base, count, order[k], dones[k])
    requires forall k :: 0 <= k < |order| ==> shards[k] == ShardRows(base, count, order[k], outcomes, dones[k])
    requires forall i: nat :: i < count ==> i in order
    ensures United(base, shards) == FullyExecuted(base, outcomes) && CountsMatch(United(base, shards))
  {
    forall j | j in Pending(base)
      ensures RecordedBy(shards, j)
    {
      BucketsCover(Pending(base), count, j);
      var i: nat :| i < count && j in Bucket(Pending(base), count, i);
      ShardCovers(base, count, outcomes, order, dones, shards, i, j);
    }
    CompleteMergeIsUnsharded(base, count, outcomes, shards);
  }

  lemma {:induction false} ShardCovers(
    base: Rows, count: nat, outcomes: Outcomes, order: seq<nat>, dones: seq<set<Job>>, shards: seq<Rows>, i: nat, job: Job)
    requires count > 0 && |shards| == |dones| == |order| && i < count && i in order
    requires forall k :: 0 <= k < |order| ==> order[k] < count && RunsToItsEnd(base, count, order[k], dones[k])
    requires forall k :: 0 <= k < |order| ==> shards[k] == ShardRows(base, count, order[k], outcomes, dones[k])
    requires job in Bucket(Pending(base), count, i)
    ensures RecordedBy(shards, job)
  {
    var k :| 0 <= k < |order| && order[k] == i;
    FinishedShardRecordsBucket(base, count, i, outcomes, dones[k]);
    assert job in shards[k].results;
  }

  /** Uniting the same shards in another order, or some of them again, changes nothing. */
  lemma {:induction false} OrderAndRepetitionChangeNothing(
    base: Rows, count: nat, outcomes: Outcomes, sources: seq<Rows>, others: seq<Rows>)
    requires count > 0 && AllShardsOf(base, count, outcomes, sources)
    requires forall s :: s in sources <==> s in others
    ensures United(base, sources) == United(base, others)
  {
    forall k | 0 <= k < |others|
      ensures IsShardOf(base, count, outcomes, others[k])
    {
      assert others[k] in sources;
    }
    UnitedResults(base, count, outcomes, sources);
    UnitedResults(base, count, outcomes, others);
    forall j
      ensures RecordedBy(sources, j) <==> RecordedBy(others, j)
    {
      SameRecords(sources, others, j);
      SameRecords(others, sources, j);
    }
    SameUnion(base, outcomes, sources, others, United(base, sources), United(base, others));
  }

  lemma {:induction false} SameUnion(
    base: Rows, outcomes: Outcomes, sources: seq<Rows>, others: seq<Rows>, a: Rows, b: Rows)
    requires UnitedAs(base, outcomes, sources, a) && UnitedAs(base, outcomes, others, b)
    requires forall j :: RecordedBy(sources, j) <==> RecordedBy(others, j)
    ensures a == b
  {
    SameJobsSameResults(base, outcomes, a, b);
  }

  lemma {:induction false} SameRecords(sources: seq<Rows>, others: seq<Rows>, job: Job)
    requires forall s :: s in sources ==> s in others
    ensures RecordedBy(sources, job) ==> RecordedBy(others, job)
  {
    if RecordedBy(sources, job) {
      var k :| 0 <= k < |sources| && job in sources[k].results;
      assert sources[k] in others;
    }
  }
}
