/** The grouped-dispatch bucket walk (`tools/many_small_grouped_report.py`). */
module GroupedBuckets {
  import opened Wrappers

  /** The fields the walk reads; `None` stands for a value that is missing or not an integer or string. */
  datatype Bucket = Bucket(bucketIndex: Option<int>, taskOffset: Option<int>, taskCount: Option<int>,
                           shapeKey: Option<string>, semantics: string, outputDomain: string)

  datatype Capture = Capture(groupedRequested: bool, groupedTaskCount: Option<int>, hostBatchEnabled: bool,
                             batchSize: Option<int>, semantics: string, outputDomain: string)

  /** `task_count_for_capture`: grouped dispatch hides a host batch, and anything but a positive integer counts
      as one task. */
  function TaskCountForCapture(c: Capture): (n: nat)
    ensures n >= 1
    ensures !c.groupedRequested && !c.hostBatchEnabled ==> n == 1
    ensures forall count :: c.groupedRequested && c.groupedTaskCount == Some(count) ==> n == if count > 1 then count else 1
    ensures forall count :: !c.groupedRequested && c.hostBatchEnabled && c.batchSize == Some(count) ==>
      n == if count > 1 then count else 1
    ensures n > 1 ==> (if c.groupedRequested then c.groupedTaskCount else c.batchSize) == Some(n)
  {
    if c.groupedRequested then
      if c.groupedTaskCount.Some? && c.groupedTaskCount.value > 0 then c.groupedTaskCount.value else 1
    else if c.hostBatchEnabled then
      if c.batchSize.Some? && c.batchSize.value > 0 then c.batchSize.value else 1
    else 1
  }

  /** A bucket labelled and typed as position `index` of the capture demands, with at least two tasks. */
  ghost predicate Labelled(b: Bucket, index: nat, c: Capture)
  {
    && b.bucketIndex == Some(index) && b.taskOffset.Some? && b.taskCount.Some? && b.taskCount.value >= 2
    && b.shapeKey.Some? && b.shapeKey.value != "" && b.semantics == c.semantics && b.outputDomain == c.outputDomain
  }

  /** Task `t` belongs to bucket `b`. */
  ghost predicate InBucket(b: Bucket, t: int)
  {
    b.taskOffset.Some? && b.taskCount.Some? &&
    b.taskOffset.value <= t < b.taskOffset.value + b.taskCount.value
  }

  /** Where the walk's running offset stands before bucket `i`. */
  function OffsetBefore(buckets: seq<Bucket>, i: nat): int
    requires i <= |buckets|
  {
    if i == 0 then 0
    else OffsetBefore(buckets, i - 1) + (if buckets[i - 1].taskCount.Some? then buckets[i - 1].taskCount.value else 0)
  }

  /** The buckets follow one another from 0 to `total`. */
  ghost predicate Chained(buckets: seq<Bucket>, total: int)
  {
    && (forall i :: 0 <= i < |buckets| ==> buckets[i].taskOffset == Some(OffsetBefore(buckets, i)))
    && OffsetBefore(buckets, |buckets|) == total
  }

  ghost predicate InSomeBucket(buckets: seq<Bucket>, t: int)
  {
    exists i :: 0 <= i < |buckets| && InBucket(buckets[i], t)
  }

  ghost predicate WithinTasks(b: Bucket, total: int)
  {
    b.taskOffset.Some? && b.taskCount.Some? && 0 <= b.taskOffset.value && b.taskOffset.value + b.taskCount.value <= total
  }

  /** An ordered partition of the tasks: buckets stay in range and in order, and each task is in exactly one. */
  ghost predicate OrderedPartition(buckets: seq<Bucket>, total: int)
  {
    && (forall i :: 0 <= i < |buckets| ==> WithinTasks(buckets[i], total))
    && (forall i, j :: 0 <= i < j < |buckets| ==> buckets[i].taskOffset.value < buckets[j].taskOffset.value)
    && (forall t :: 0 <= t < total ==> InSomeBucket(buckets, t))
    && (forall t, i, j :: 0 <= i < j < |buckets| ==> !(InBucket(buckets[i], t) && InBucket(buckets[j], t)))
  }

  ghost predicate Positive(buckets: seq<Bucket>)
  {
    forall i :: 0 <= i < |buckets| ==>
      buckets[i].taskOffset.Some? && buckets[i].taskCount.Some? && buckets[i].taskCount.value >= 1
  }

  lemma {:induction false} OffsetsAscend(buckets: seq<Bucket>, i: nat, j: nat)
    requires Positive(buckets) && i <= j <= |buckets|
    ensures OffsetBefore(buckets, i) <= OffsetBefore(buckets, j)
    ensures i < j ==> OffsetBefore(buckets, i) + buckets[i].taskCount.value <= OffsetBefore(buckets, j)
    decreases j
  {
    if i < j {
      OffsetsAscend(buckets, i, j - 1);
    }
  }

  lemma {:induction false} FindBucket(buckets: seq<Bucket>, n: nat, t: int) returns (i: nat)
    requires Positive(buckets) && n <= |buckets| && 0 <= t < OffsetBefore(buckets, n)
    ensures i < n && OffsetBefore(buckets, i) <= t < OffsetBefore(buckets, i) + buckets[i].taskCount.value
    decreases n
  {
    if t < OffsetBefore(buckets, n - 1) {
      i := FindBucket(buckets, n - 1, t);
    } else {
      i := n - 1;
    }
  }

  lemma ChainInRange(buckets: seq<Bucket>, total: int, i: nat)
    requires Positive(buckets) && Chained(buckets, total) && i < |buckets|
    ensures WithinTasks(buckets[i], total)
  {
    OffsetsAscend(buckets, 0, i);
    OffsetsAscend(buckets, i, |buckets|);
  }

  lemma ChainInOrder(buckets: seq<Bucket>, total: int, i: nat, j: nat)
    requires Positive(buckets) && Chained(buckets, total) && i < j < |buckets|
    ensures buckets[i].taskOffset.value + buckets[i].taskCount.value <= buckets[j].taskOffset.value
  {
    OffsetsAscend(buckets, i, j);
  }

  lemma ChainCovers(buckets: seq<Bucket>, total: int, t: int)
    requires Positive(buckets) && Chained(buckets, total) && 0 <= t < total
    ensures InSomeBucket(buckets, t)
  {
    var i := FindBucket(buckets, |buckets|, t);
    assert InBucket(buckets[i], t);
  }

  lemma ChainIsPartition(buckets: seq<Bucket>, total: int)
    requires Positive(buckets) && Chained(buckets, total)
    ensures OrderedPartition(buckets, total)
  {
    forall i | 0 <= i < |buckets|
      ensures WithinTasks(buckets[i], total)
    {
      ChainInRange(buckets, total, i);
    }
    forall i, j | 0 <= i < j < |buckets|
      ensures buckets[i].taskOffset.value + buckets[i].taskCount.value <= buckets[j].taskOffset.value
    {
      ChainInOrder(buckets, total, i, j);
    }
    forall t | 0 <= t < total
      ensures InSomeBucket(buckets, t)
    {
      ChainCovers(buckets, total, t);
    }
  }

  /** In an ordered partition the task right after bucket `i` starts bucket `i + 1`. */
  lemma NextStartsAtEnd(buckets: seq<Bucket>, total: int, i: nat)
    requires Positive(buckets) && OrderedPartition(buckets, total) && i < |buckets|
    ensures var end := buckets[i].taskOffset.value + buckets[i].taskCount.value;
      end == if i + 1 < |buckets| then buckets[i + 1].taskOffset.value else total
  {
    var end := buckets[i].taskOffset.value + buckets[i].taskCount.value;
    if i + 1 < |buckets| {
      var next := buckets[i + 1].taskOffset.value;
      assert InBucket(buckets[i + 1], next) && !InBucket(buckets[i], next);
    }
    if end < total {
      assert InSomeBucket(buckets, end);
      var j :| 0 <= j < |buckets| && InBucket(buckets[j], end);
      if j < i {
        assert InBucket(buckets[j], buckets[i].taskOffset.value) && InBucket(buckets[i], buckets[i].taskOffset.value);
      }
    }
  }

  lemma {:induction false} PartitionOffsets(buckets: seq<Bucket>, total: int, i: nat)
    requires Positive(buckets) && OrderedPartition(buckets, total) && i <= |buckets| && 1 <= |buckets|
    ensures OffsetBefore(buckets, i) == if i < |buckets| then buckets[i].taskOffset.value else total
  {
    if i == 0 {
      assert WithinTasks(buckets[0], total);
      assert InSomeBucket(buckets, 0);
      var j :| 0 <= j < |buckets| && InBucket(buckets[j], 0);
    } else {
      PartitionOffsets(buckets, total, i - 1);
      NextStartsAtEnd(buckets, total, i - 1);
    }
  }

  /** For nonempty buckets, following one another and partitioning in order are the same thing. */
  lemma ChainedIffPartition(buckets: seq<Bucket>, total: int)
    requires Positive(buckets) && 1 <= |buckets|
    ensures Chained(buckets, total) <==> OrderedPartition(buckets, total)
  {
    if Chained(buckets, total) {
      ChainIsPartition(buckets, total);
    }
    if OrderedPartition(buckets, total) {
      forall i | 0 <= i <= |buckets|
        ensures OffsetBefore(buckets, i) == if i < |buckets| then buckets[i].taskOffset.value else total
      {
        PartitionOffsets(buckets, total, i);
      }
    }
  }

  /** The loop of the bucketed branch: every bucket is labelled for its place and starts where the running
      offset stands. */
  method WalkBuckets(buckets: seq<Bucket>, c: Capture) returns (ok: bool, offset: int)
    ensures ok <==> forall i :: 0 <= i < |buckets| ==> Placed(buckets, i, c)
    ensures ok ==> offset == OffsetBefore(buckets, |buckets|)
  {
    offset := 0;
    for index := 0 to |buckets|
      invariant offset == OffsetBefore(buckets, index)
      invariant forall i :: 0 <= i < index ==> Placed(buckets, i, c)
    {
      var bucket := buckets[index];
      if || bucket.bucketIndex != Some(index) || bucket.taskOffset != Some(offset)
         || !bucket.taskCount.Some? || bucket.taskCount.value <= 1
         || !bucket.shapeKey.Some? || bucket.shapeKey.value == ""
         || bucket.semantics != c.semantics || bucket.outputDomain != c.outputDomain
      {
        assert !Placed(buckets, index, c);
        return false, offset;
      }
      offset := offset + bucket.taskCount.value;
    }
    ok := true;
  }

  ghost predicate Placed(buckets: seq<Bucket>, i: nat, c: Capture)
    requires i < |buckets|
  {
    Labelled(buckets[i], i, c) && buckets[i].taskOffset == Some(OffsetBefore(buckets, i))
  }

  /** The bucketed branch of `grouped_task_descriptor_valid` after its policy fields: it accepts exactly the
      ordered partitions of the capture's tasks into at least two correctly labelled buckets of two or more. */
  method BucketsValid(buckets: seq<Bucket>, bucketCount: Option<int>, c: Capture) returns (ok: bool)
    ensures ok <==>
      && bucketCount == Some(|buckets|) && |buckets| >= 2
      && (forall i :: 0 <= i < |buckets| ==> Labelled(buckets[i], i, c))
      && OrderedPartition(buckets, TaskCountForCapture(c))
  {
    if !bucketCount.Some? || bucketCount.value < 2 || |buckets| != bucketCount.value {
      return false;
    }
    var offset;
    ok, offset := WalkBuckets(buckets, c);
    PlacedIffChained(buckets, c);
    ok := ok && offset == TaskCountForCapture(c);
  }

  lemma PlacedIffChained(buckets: seq<Bucket>, c: Capture)
    requires |buckets| >= 1
    ensures var total := TaskCountForCapture(c);
      (forall i :: 0 <= i < |buckets| ==> Placed(buckets, i, c)) && OffsetBefore(buckets, |buckets|) == total
      <==> (forall i :: 0 <= i < |buckets| ==> Labelled(buckets[i], i, c)) && OrderedPartition(buckets, total)
  {
    var total := TaskCountForCapture(c);
    var labelled := forall i :: 0 <= i < |buckets| ==> Labelled(buckets[i], i, c);
    assert (forall i :: 0 <= i < |buckets| ==> Placed(buckets, i, c)) && OffsetBefore(buckets, |buckets|) == total
      <==> labelled && Chained(buckets, total) by {
      assert forall i :: 0 <= i < |buckets| ==>
        (Placed(buckets, i, c) <==> Labelled(buckets[i], i, c) && buckets[i].taskOffset == Some(OffsetBefore(buckets, i)));
    }
    if labelled {
      ChainedIffPartition(buckets, total);
    }
  }
}
