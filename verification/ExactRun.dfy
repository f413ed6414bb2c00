/** Whole runs over a pool of resident exact-wide matrices.  A machine on integer matrices and their proofs,
    which has no residues at all, predicts the status of every call and what every matrix stands for; the
    residue machine refines it. */
module ExactRun {
  import opened IntMath
  import opened Ladder
  import opened Garner
  import opened Vectors
  import opened ExactRange
  import opened WidePlanes
  import opened ExactWide
  import opened ExactExport

  /** One call; matrices are named by their place in the pool. */
  datatype Op =
    | PackOp(into: nat, src: seq<int>, ld: nat)
    | LiftOp(into: nat, prefix: nat, budget: nat)
    | MultiplyOp(plan: Plan, left: nat, right: nat, into: nat, budget: nat)

  /** What a matrix stands for and the proof it carries: everything but its bytes. */
  datatype Snapshot = Snapshot(value: seq<int>, maxMagnitude: int, rangePrefix: nat, rowRanges: seq<AxisRange>,
                               colRanges: seq<AxisRange>)

  ghost function Snap(x: ExactMatrix): Snapshot
    reads x
  {
    Snapshot(x.value, x.maxMagnitude, x.rangePrefix, x.rowRanges, x.colRanges)
  }

  ghost function Snaps(pool: seq<ExactMatrix>): (snaps: seq<Snapshot>)
    reads pool
    ensures |snaps| == |pool| && forall i :: 0 <= i < |pool| ==> snaps[i] == Snap(pool[i])
  {
    seq(|pool|, i requires 0 <= i < |pool| reads pool => Snap(pool[i]))
  }

  /** A valid, current matrix with a proof; every new matrix is one. */
  ghost predicate Live(ms: seq<nat>, x: ExactMatrix)
    reads x
  {
    x.Valid(ms) && x.current && x.rangePrefix != 0
  }

  /** Distinct live matrices. */
  ghost predicate Ready(ms: seq<nat>, pool: seq<ExactMatrix>)
    reads pool
  {
    && WideLadder(ms) && (forall i, j :: 0 <= i < j < |pool| ==> pool[i] != pool[j])
    && forall i :: 0 <= i < |pool| ==> Live(ms, pool[i])
  }

  /** What the interface asks of a caller: handles that exist, a source of the declared shape and type, and a
      plan that was created. */
  ghost predicate Callable(pool: seq<ExactMatrix>, op: Op)
  {
    && op.into < |pool|
    && match op
       case PackOp(into, src, ld) =>
         Holds(|src|, pool[into].rows, pool[into].cols, ld) && forall x :: x in src ==> FitsWord(pool[into].signed, x)
       case LiftOp(_, _, _) => true
       case MultiplyOp(plan, left, right, _, _) => plan.Valid() && left < |pool| && right < |pool|
  }

  /** Snapshots of the right shapes, for storage the library can allocate. */
  ghost predicate Shaped(ms: seq<nat>, pool: seq<ExactMatrix>, snaps: seq<Snapshot>)
  {
    && WideLadder(ms) && |snaps| == |pool|
    && forall i :: 0 <= i < |pool| ==>
      pool[i].prefix <= MAX_SUPPORTED_PREFIX && |snaps[i].value| == pool[i].rows * pool[i].cols
  }

  // The machine without residues.

  /** The planes a lift to `target` would have to stage. */
  function StagedFrom(x: ExactMatrix, rangePrefix: nat, target: nat): nat
  {
    if target > rangePrefix then (target - rangePrefix) * (x.rows * x.cols) else 0
  }

  function BoundOf(plan: Plan, a: Snapshot, b: Snapshot): int
  {
    GemmBound(a.maxMagnitude, a.rowRanges, b.maxMagnitude, b.colRanges, plan.m, plan.k, plan.n)
  }

  ghost function PackStatus(ms: seq<nat>, x: ExactMatrix, src: seq<int>, ld: nat): Status
    requires WideLadder(ms) && x.prefix <= MAX_SUPPORTED_PREFIX && Holds(|src|, x.rows, x.cols, ld)
  {
    if forall i :: 0 <= i < x.rows * x.cols ==>
         RangeFits(x.signed, Abs(Flatten(src, x.rows, x.cols, ld)[i]), PrefixProduct(ms, x.prefix))
    then Success else RangeError
  }

  function LiftStatus(x: ExactMatrix, s: Snapshot, prefix: nat, budget: nat): Status
  {
    if !(0 < prefix <= x.prefix) then InvalidArgument
    else if StagedFrom(x, s.rangePrefix, prefix) > budget then WorkspaceTooSmall else Success
  }

  ghost function MultiplyStatus(ms: seq<nat>, plan: Plan, a: ExactMatrix, b: ExactMatrix, c: ExactMatrix, sa: Snapshot,
                                sb: Snapshot, budget: nat): Status
    requires Moduli(ms) && plan.maxPrefix <= |ms|
  {
    var bound := BoundOf(plan, sa, sb);
    if !Admissible(plan, a, b, c) then InvalidArgument
    else if !Coverable(ms, plan, a, b, c, bound) then RangeError
    else
      var least := LeastUsable(ms, plan, a, b, c, bound);
      var staged := StagedFrom(a, sa.rangePrefix, least) + (if a == b then 0 else StagedFrom(b, sb.rangePrefix, least))
        + plan.m * plan.n * least;
      if staged > budget then WorkspaceTooSmall else Success
  }

  function Lifted(s: Snapshot, prefix: nat): Snapshot { s.(rangePrefix := Max(s.rangePrefix, prefix)) }

  /** What packing leaves: the source, its largest magnitude and its exact summaries, on every plane. */
  ghost function Packed(x: ExactMatrix, src: seq<int>, ld: nat): Snapshot
    requires Holds(|src|, x.rows, x.cols, ld)
  {
    var value := Flatten(src, x.rows, x.cols, ld);
    Snapshot(value, LargestMagnitude(value, |value|), x.prefix, NativeRows(src, x.rows, x.cols, ld),
             NativeCols(src, x.rows, x.cols, ld))
  }

  /** What a product leaves in its output: the integer product with the admission bound and summaries. */
  ghost function Multiplied(plan: Plan, a: Snapshot, b: Snapshot, least: nat): Snapshot
    requires |a.value| == plan.m * plan.k && |b.value| == plan.k * plan.n
  {
    Snapshot(MatrixProduct(a.value, b.value, plan.m, plan.k, plan.n), BoundOf(plan, a, b), least,
             OutputRows(a.maxMagnitude, a.rowRanges, b.maxMagnitude, b.colRanges, plan.m, plan.k, plan.n),
             OutputCols(a.maxMagnitude, a.rowRanges, b.maxMagnitude, b.colRanges, plan.m, plan.k, plan.n))
  }

  /** What a successful product leaves in the pool. */
  ghost function AfterMultiply(snaps: seq<Snapshot>, plan: Plan, left: nat, right: nat, into: nat,
                               least: nat): seq<Snapshot>
    requires left < |snaps| && right < |snaps| && into < |snaps|
    requires |snaps[left].value| == plan.m * plan.k && |snaps[right].value| == plan.k * plan.n
  {
    snaps[left := Lifted(snaps[left], least)][right := Lifted(snaps[right], least)]
      [into := Multiplied(plan, snaps[left], snaps[right], least)]
  }

  /** The status of a call. */
  ghost function Ends(ms: seq<nat>, pool: seq<ExactMatrix>, snaps: seq<Snapshot>, op: Op): Status
    requires Shaped(ms, pool, snaps) && Callable(pool, op)
  {
    match op
    case PackOp(into, src, ld) => PackStatus(ms, pool[into], src, ld)
    case LiftOp(into, prefix, budget) => LiftStatus(pool[into], snaps[into], prefix, budget)
    case MultiplyOp(plan, left, right, into, budget) =>
      MultiplyStatus(ms, plan, pool[left], pool[right], pool[into], snaps[left], snaps[right], budget)
  }

  /** What a call leaves; one that does not succeed leaves everything. */
  ghost function Next(ms: seq<nat>, pool: seq<ExactMatrix>, snaps: seq<Snapshot>, op: Op): (next: seq<Snapshot>)
    requires Shaped(ms, pool, snaps) && Callable(pool, op)
    ensures Shaped(ms, pool, next)
  {
    if Ends(ms, pool, snaps, op) != Success then snaps
    else match op
      case PackOp(into, src, ld) => snaps[into := Packed(pool[into], src, ld)]
      case LiftOp(into, prefix, _) => snaps[into := Lifted(snaps[into], prefix)]
      case MultiplyOp(plan, left, right, into, _) =>
        var least := LeastUsable(ms, plan, pool[left], pool[right], pool[into], BoundOf(plan, snaps[left], snaps[right]));
        AfterMultiply(snaps, plan, left, right, into, least)
  }

  ghost predicate AllCallable(pool: seq<ExactMatrix>, ops: seq<Op>)
  {
    forall i :: 0 <= i < |ops| ==> Callable(pool, ops[i])
  }

  /** The snapshots after the first `n` calls. */
  ghost function After(ms: seq<nat>, pool: seq<ExactMatrix>, snaps: seq<Snapshot>, ops: seq<Op>,
                       n: nat): (after: seq<Snapshot>)
    requires Shaped(ms, pool, snaps) && AllCallable(pool, ops) && n <= |ops|
    ensures Shaped(ms, pool, after)
  {
    if n == 0 then snaps else Next(ms, pool, After(ms, pool, snaps, ops, n - 1), ops[n - 1])
  }

  // The residue machine.

  lemma ReadyShaped(ms: seq<nat>, pool: seq<ExactMatrix>)
    requires Ready(ms, pool)
    ensures Shaped(ms, pool, Snaps(pool))
  {
    forall i | 0 <= i < |pool|
      ensures pool[i].prefix <= MAX_SUPPORTED_PREFIX && |Snaps(pool)[i].value| == pool[i].rows * pool[i].cols
    {
      assert Live(ms, pool[i]);
    }
  }

  method PackLive(ms: seq<nat>, x: ExactMatrix, src: seq<int>, ld: nat) returns (status: Status)
    requires Live(ms, x) && Holds(|src|, x.rows, x.cols, ld) && forall v :: v in src ==> FitsWord(x.signed, v)
    modifies x
    ensures Live(ms, x) && status == PackStatus(ms, x, src, ld)
    ensures Snap(x) == if status == Success then Packed(x, src, ld) else old(Snap(x))
  {
    status := x.Pack(ms, src, ld);
    if status == Success {
      AttainedIsLargest(x.value, x.maxMagnitude);
    }
  }

  method LiftLive(ms: seq<nat>, x: ExactMatrix, prefix: nat, budget: nat) returns (status: Status)
    requires Live(ms, x)
    modifies x
    ensures Live(ms, x) && status == LiftStatus(x, old(Snap(x)), prefix, budget)
    ensures Snap(x) == if status == Success then Lifted(old(Snap(x)), prefix) else old(Snap(x))
  {
    status := x.Lift(ms, prefix, budget);
  }

  /** For live operands the machine's status is the outcome of the product's checks. */
  lemma OutcomeIsPredicted(ms: seq<nat>, plan: Plan, a: ExactMatrix, b: ExactMatrix, c: ExactMatrix, budget: nat)
    requires plan.Valid() && Live(ms, a) && Live(ms, b)
    ensures Outcome(ms, plan, a, b, c, budget) == MultiplyStatus(ms, plan, a, b, c, Snap(a), Snap(b), budget)
  {
  }

  method MultiplyLive(ms: seq<nat>, plan: Plan, a: ExactMatrix, b: ExactMatrix, c: ExactMatrix, budget: nat)
      returns (status: Status)
    requires plan.Valid() && Live(ms, a) && Live(ms, b) && Live(ms, c)
    modifies a, b, c
    ensures Live(ms, a) && Live(ms, b) && Live(ms, c)
    ensures status == MultiplyStatus(ms, plan, a, b, c, old(Snap(a)), old(Snap(b)), budget)
    ensures status != Success ==> Snap(a) == old(Snap(a)) && Snap(b) == old(Snap(b)) && Snap(c) == old(Snap(c))
    ensures status == Success ==> a != c && b != c && Multiplies(ms, plan, a, b, c, old(Snap(a)), old(Snap(b)))
    ensures status == Success ==>
      var least := LeastUsable(ms, plan, a, b, c, BoundOf(plan, old(Snap(a)), old(Snap(b))));
      && Snap(a) == Lifted(old(Snap(a)), least) && Snap(b) == Lifted(old(Snap(b)), least)
      && Snap(c) == Multiplied(plan, old(Snap(a)), old(Snap(b)), least)
  {
    OutcomeIsPredicted(ms, plan, a, b, c, budget);
    var selected;
    status, selected := GemmAuto(ms, plan, a, b, c, budget);
  }

  /** The checks a successful product has passed. */
  ghost predicate Multiplies(ms: seq<nat>, plan: Plan, a: ExactMatrix, b: ExactMatrix, c: ExactMatrix, sa: Snapshot,
                             sb: Snapshot)
  {
    && Moduli(ms) && plan.maxPrefix <= |ms| && Admissible(plan, a, b, c)
    && Coverable(ms, plan, a, b, c, BoundOf(plan, sa, sb))
    && |sa.value| == plan.m * plan.k && |sb.value| == plan.k * plan.n
  }

  method PackInPool(ms: seq<nat>, pool: seq<ExactMatrix>, into: nat, src: seq<int>, ld: nat) returns (status: Status)
    requires Ready(ms, pool) && Callable(pool, PackOp(into, src, ld))
    modifies pool
    ensures Ready(ms, pool) && status == PackStatus(ms, pool[into], src, ld)
    ensures Snaps(pool) == old(Snaps(pool))[into := if status == Success then Packed(pool[into], src, ld)
                                                    else old(Snap(pool[into]))]
  {
    assert Live(ms, pool[into]);
    status := PackLive(ms, pool[into], src, ld);
    assert forall i :: 0 <= i < |pool| && i != into ==> unchanged(pool[i]);
  }

  method LiftInPool(ms: seq<nat>, pool: seq<ExactMatrix>, into: nat, prefix: nat, budget: nat) returns (status: Status)
    requires Ready(ms, pool) && Callable(pool, LiftOp(into, prefix, budget))
    modifies pool
    ensures Ready(ms, pool) && status == LiftStatus(pool[into], old(Snap(pool[into])), prefix, budget)
    ensures Snaps(pool) == old(Snaps(pool))[into := if status == Success then Lifted(old(Snap(pool[into])), prefix)
                                                    else old(Snap(pool[into]))]
  {
    assert Live(ms, pool[into]);
    status := LiftLive(ms, pool[into], prefix, budget);
    assert forall i :: 0 <= i < |pool| && i != into ==> unchanged(pool[i]);
  }

  lemma ThreeUpdates(before: seq<Snapshot>, after: seq<Snapshot>, left: nat, right: nat, into: nat, plan: Plan,
                     least: nat)
    requires |after| == |before| && left < |before| && right < |before| && into < |before|
    requires left != into && right != into
    requires |before[left].value| == plan.m * plan.k && |before[right].value| == plan.k * plan.n
    requires after[left] == Lifted(before[left], least) && after[right] == Lifted(before[right], least)
    requires after[into] == Multiplied(plan, before[left], before[right], least)
    requires forall i :: 0 <= i < |before| && i != left && i != right && i != into ==> after[i] == before[i]
    ensures after == AfterMultiply(before, plan, left, right, into, least)
  {
  }

  method MultiplyInPool(ms: seq<nat>, pool: seq<ExactMatrix>, plan: Plan, left: nat, right: nat, into: nat,
                        budget: nat, ghost before: seq<Snapshot>)
      returns (status: Status)
    requires Ready(ms, pool) && Callable(pool, MultiplyOp(plan, left, right, into, budget)) && before == Snaps(pool)
    modifies pool
    ensures Ready(ms, pool)
    ensures status == MultiplyStatus(ms, plan, pool[left], pool[right], pool[into], before[left], before[right], budget)
    ensures status != Success ==> Snaps(pool) == before
    ensures status == Success ==>
      Multiplies(ms, plan, pool[left], pool[right], pool[into], before[left], before[right])
    ensures status == Success ==>
      Snaps(pool) == AfterMultiply(before, plan, left, right, into,
        LeastUsable(ms, plan, pool[left], pool[right], pool[into], BoundOf(plan, before[left], before[right])))
  {
    var a, b, c := pool[left], pool[right], pool[into];
    assert Live(ms, a) && Live(ms, b) && Live(ms, c);
    status := MultiplyLive(ms, plan, a, b, c, budget);
    assert forall i :: 0 <= i < |pool| && i != left && i != right && i != into ==> unchanged(pool[i]);
    OthersKept(before, Snaps(pool), left, right, into);
    if status == Success {
      ThreeUpdates(before, Snaps(pool), left, right, into, plan,
                   LeastUsable(ms, plan, a, b, c, BoundOf(plan, before[left], before[right])));
    }
  }

  /** If the three matrices a product names are as they were, all are. */
  lemma OthersKept(before: seq<Snapshot>, after: seq<Snapshot>, left: nat, right: nat, into: nat)
    requires |after| == |before| && left < |before| && right < |before| && into < |before|
    requires forall i :: 0 <= i < |before| && i != left && i != right && i != into ==> after[i] == before[i]
    ensures after[left] == before[left] && after[right] == before[right] && after[into] == before[into] ==>
      after == before
  {
  }

  /** One call keeps the pool ready, ends as the machine predicts and leaves what the machine predicts. */
  method Step(ms: seq<nat>, pool: seq<ExactMatrix>, op: Op) returns (status: Status)
    requires Ready(ms, pool) && Shaped(ms, pool, Snaps(pool)) && Callable(pool, op)
    modifies pool
    ensures Ready(ms, pool) && status == Ends(ms, pool, old(Snaps(pool)), op)
    ensures Snaps(pool) == Next(ms, pool, old(Snaps(pool)), op)
  {
    match op
    case PackOp(into, src, ld) =>
      status := PackInPool(ms, pool, into, src, ld);
    case LiftOp(into, prefix, budget) =>
      status := LiftInPool(ms, pool, into, prefix, budget);
    case MultiplyOp(plan, left, right, into, budget) =>
      status := MultiplyInPool(ms, pool, plan, left, right, into, budget, Snaps(pool));
  }

  /** Call `i` of a run ends like this. */
  ghost predicate EndsAt(ms: seq<nat>, pool: seq<ExactMatrix>, start: seq<Snapshot>, ops: seq<Op>, i: nat, status: Status)
  {
    && Shaped(ms, pool, start) && AllCallable(pool, ops) && i < |ops|
    && status == Ends(ms, pool, After(ms, pool, start, ops, i), ops[i])
  }

  /** The first `n` calls ended as the machine predicts. */
  ghost predicate Predicted(ms: seq<nat>, pool: seq<ExactMatrix>, start: seq<Snapshot>, ops: seq<Op>,
                            statuses: seq<Status>, n: nat)
  {
    && Shaped(ms, pool, start) && AllCallable(pool, ops) && n <= |ops| && |statuses| == n
    && forall i :: 0 <= i < n ==> EndsAt(ms, pool, start, ops, i, statuses[i])
  }

  ghost predicate RunState(ms: seq<nat>, pool: seq<ExactMatrix>, start: seq<Snapshot>, ops: seq<Op>,
                           statuses: seq<Status>, n: nat)
    reads pool
  {
    && Ready(ms, pool) && Predicted(ms, pool, start, ops, statuses, n)
    && Snaps(pool) == After(ms, pool, start, ops, n)
  }

  lemma AfterNext(ms: seq<nat>, pool: seq<ExactMatrix>, start: seq<Snapshot>, ops: seq<Op>, n: nat)
    requires Shaped(ms, pool, start) && AllCallable(pool, ops) && n < |ops|
    ensures After(ms, pool, start, ops, n + 1) == Next(ms, pool, After(ms, pool, start, ops, n), ops[n])
  {
  }

  /** An earlier call's status stays where it is when one is appended. */
  lemma EndsKept(ms: seq<nat>, pool: seq<ExactMatrix>, start: seq<Snapshot>, ops: seq<Op>, statuses: seq<Status>,
                 longer: seq<Status>, i: nat)
    requires i < |statuses| && i < |longer| && longer[i] == statuses[i]
    requires EndsAt(ms, pool, start, ops, i, statuses[i])
    ensures EndsAt(ms, pool, start, ops, i, longer[i])
  {
  }

  lemma PredictedNext(ms: seq<nat>, pool: seq<ExactMatrix>, start: seq<Snapshot>, ops: seq<Op>,
                      statuses: seq<Status>, n: nat, status: Status)
    requires n < |ops| && Predicted(ms, pool, start, ops, statuses, n) && EndsAt(ms, pool, start, ops, n, status)
    ensures Predicted(ms, pool, start, ops, statuses + [status], n + 1)
  {
    var longer := statuses + [status];
    assert longer[n] == status;
    forall i | 0 <= i < n
      ensures EndsAt(ms, pool, start, ops, i, longer[i])
    {
      EndsKept(ms, pool, start, ops, statuses, longer, i);
    }
  }

  method RunNext(ms: seq<nat>, pool: seq<ExactMatrix>, ghost start: seq<Snapshot>, ops: seq<Op>,
                 statuses0: seq<Status>, n: nat)
      returns (statuses: seq<Status>)
    requires n < |ops| && RunState(ms, pool, start, ops, statuses0, n)
    modifies pool
    ensures RunState(ms, pool, start, ops, statuses, n + 1)
  {
    var status := Step(ms, pool, ops[n]);
    AfterNext(ms, pool, start, ops, n);
    PredictedNext(ms, pool, start, ops, statuses0, n, status);
    statuses := statuses0 + [status];
  }

  /** Any run: every call ends as the machine predicts, and every matrix stands for what it predicts. */
  method Run(ms: seq<nat>, pool: seq<ExactMatrix>, ops: seq<Op>) returns (statuses: seq<Status>)
    requires Ready(ms, pool) && AllCallable(pool, ops)
    modifies pool
    ensures RunState(ms, pool, old(Snaps(pool)), ops, statuses, |ops|)
  {
    ReadyShaped(ms, pool);
    ghost var start := Snaps(pool);
    statuses := [];
    for n := 0 to |ops|
      invariant RunState(ms, pool, start, ops, statuses, n)
    {
      statuses := RunNext(ms, pool, start, ops, statuses, n);
    }
  }

  /** How an export of a live matrix ends, from what it stands for and its proof. */
  ghost function ExportEnds(ms: seq<nat>, x: ExactMatrix, s: Snapshot, planPrefix: nat, limbCount: nat): Status
    requires planPrefix <= |ms|
  {
    ExportStatus(ms, x.signed, s.maxMagnitude, s.rangePrefix, s.value, planPrefix, limbCount)
  }

  /** Exporting a matrix of a ready pool leaves the pool as it is. */
  method ExportOne(ms: seq<nat>, pool: seq<ExactMatrix>, which: nat, planPrefix: nat, limbCount: nat,
                   dst: array<uint64>, ld: nat, ghost capacity: nat)
      returns (status: Status)
    requires Ready(ms, pool) && which < |pool| && 1 <= planPrefix <= pool[which].prefix
    requires Holds(capacity, pool[which].rows, pool[which].cols, ld) && capacity * limbCount <= dst.Length
    modifies dst
    ensures Ready(ms, pool) && Snaps(pool) == old(Snaps(pool))
    ensures status == ExportEnds(ms, pool[which], Snap(pool[which]), planPrefix, limbCount)
    ensures status != Success ==> dst[..] == old(dst[..])
    ensures status == Success ==>
      forall row, col :: 0 <= row < pool[which].rows && 0 <= col < pool[which].cols ==>
        CellExported(dst[..], pool[which].value, pool[which].signed, pool[which].cols, ld, limbCount, row, col)
  {
    assert Live(ms, pool[which]);
    status := Export(pool[which], ms, planPrefix, limbCount, dst, ld, capacity);
  }

  /** A run followed by an export: on success every window of the exported matrix decodes to the integer the
      machine predicts for that cell. */
  method RunAndExport(ms: seq<nat>, pool: seq<ExactMatrix>, ops: seq<Op>, which: nat, planPrefix: nat,
                      limbCount: nat, dst: array<uint64>, ld: nat, ghost capacity: nat)
      returns (statuses: seq<Status>, status: Status)
    requires Ready(ms, pool) && AllCallable(pool, ops)
    requires which < |pool| && 1 <= planPrefix <= pool[which].prefix
    requires Holds(capacity, pool[which].rows, pool[which].cols, ld) && capacity * limbCount <= dst.Length
    modifies pool, dst
    ensures RunState(ms, pool, old(Snaps(pool)), ops, statuses, |ops|)
    ensures status ==
      ExportEnds(ms, pool[which], After(ms, pool, old(Snaps(pool)), ops, |ops|)[which], planPrefix, limbCount)
    ensures status != Success ==> dst[..] == old(dst[..])
    ensures status == Success ==>
      var value := After(ms, pool, old(Snaps(pool)), ops, |ops|)[which].value;
      forall row, col :: 0 <= row < pool[which].rows && 0 <= col < pool[which].cols ==>
        CellExported(dst[..], value, pool[which].signed, pool[which].cols, ld, limbCount, row, col)
  {
    ghost var start := Snaps(pool);
    statuses := Run(ms, pool, ops);
    assert Snap(pool[which]) == After(ms, pool, start, ops, |ops|)[which];
    status := ExportOne(ms, pool, which, planPrefix, limbCount, dst, ld, capacity);
  }

  // Consequences read off the machine.

  /** A chain of two successful products leaves the exact triple product (A * B) * C, whatever prefixes and
      lifts the run went through. */
  lemma TripleProduct(ms: seq<nat>, pool: seq<ExactMatrix>, snaps: seq<Snapshot>, first: Op, second: Op)
    requires Shaped(ms, pool, snaps) && Callable(pool, first) && first.MultiplyOp?
    requires Callable(pool, second) && second.MultiplyOp? && second.left == first.into && second.right != first.into
    requires Ends(ms, pool, snaps, first) == Success
    requires Ends(ms, pool, Next(ms, pool, snaps, first), second) == Success
    ensures first.plan.m == second.plan.m && first.plan.n == second.plan.k
    ensures var a, b, c := snaps[first.left].value, snaps[first.right].value, snaps[second.right].value;
      var p, q := first.plan, second.plan;
      && |a| == p.m * p.k && |b| == p.k * p.n && |c| == q.k * q.n
      && Next(ms, pool, Next(ms, pool, snaps, first), second)[second.into].value
        == MatrixProduct(MatrixProduct(a, b, p.m, p.k, p.n), c, q.m, q.k, q.n)
  {
    var after := Next(ms, pool, snaps, first);
    assert after[second.right].value == snaps[second.right].value;
  }
}
