/** Logical and physical query plans, what they mean, and the translation between them. */
module Plans {
  import opened Expressions

  /** A table as a query sees it: its column names and its rows in scan order. */
  datatype TableRows = TableRows(columns: seq<string>, rows: seq<Record>)

  datatype LogicalPlan =
    | LogicalScan(table: TableRows)
    | LogicalJoin(left: LogicalPlan, right: LogicalPlan, pred: Expr)
    | LogicalFilter(child: LogicalPlan, pred: Expr)
    | LogicalProjection(child: LogicalPlan, columns: seq<nat>)
    | LogicalLimit(child: LogicalPlan, limit: nat)

  datatype PhysicalPlan =
    | SeqScan(table: TableRows)
    | NestedLoopJoin(left: PhysicalPlan, right: PhysicalPlan, pred: Expr)
    | Filter(child: PhysicalPlan, pred: Expr)
    | Projection(child: PhysicalPlan, columns: seq<nat>)
    | Limit(child: PhysicalPlan, limit: nat)

  function Optimize(plan: LogicalPlan): PhysicalPlan {
    match plan
    case LogicalScan(table) => SeqScan(table)
    case LogicalJoin(left, right, pred) => NestedLoopJoin(Optimize(left), Optimize(right), pred)
    case LogicalFilter(child, pred) => Filter(Optimize(child), pred)
    case LogicalProjection(child, columns) => Projection(Optimize(child), columns)
    case LogicalLimit(child, limit) => Limit(Optimize(child), limit)
  }

  // ---- the meaning of the operators, in the order they produce rows ----

  function Filtered(pred: Expr, rows: seq<Record>): seq<Record> {
    if rows == [] then [] else (if IsTrue(pred, rows[0]) then [rows[0]] else []) + Filtered(pred, rows[1..])
  }

  predicate Fits(columns: seq<nat>, row: Record) {
    forall i | 0 <= i < |columns| :: columns[i] < |row|
  }

  function Pick(columns: seq<nat>, row: Record): Record
    requires Fits(columns, row)
  {
    seq(|columns|, i requires 0 <= i < |columns| => row[columns[i]])
  }

  function Projected(columns: seq<nat>, rows: seq<Record>): (r: seq<Record>)
    requires forall i | 0 <= i < |rows| :: Fits(columns, rows[i])
    ensures |r| == |rows|
    ensures forall i | 0 <= i < |rows| :: r[i] == Pick(columns, rows[i])
  {
    seq(|rows|, i requires 0 <= i < |rows| => Pick(columns, rows[i]))
  }

  function Take(rows: seq<Record>, n: nat): seq<Record> {
    if n <= |rows| then rows[..n] else rows
  }

  const BLOCK: nat := 24

  /** One right row against each row of a left block. */
  function Pairs(pred: Expr, block: seq<Record>, r: Record): seq<Record> {
    if block == [] then [] else
      (if IsTrue(pred, block[0] + r) then [block[0] + r] else []) + Pairs(pred, block[1..], r)
  }

  /** Each right row in turn against a left block. */
  function BlockJoin(pred: Expr, block: seq<Record>, right: seq<Record>): seq<Record> {
    if right == [] then [] else Pairs(pred, block, right[0]) + BlockJoin(pred, block, right[1..])
  }

  function Head(rows: seq<Record>): seq<Record> { Take(rows, BLOCK) }

  function Tail(rows: seq<Record>): seq<Record> { rows[|Head(rows)|..] }

  /** Block by block of the left side. */
  function BlocksJoin(pred: Expr, left: seq<Record>, right: seq<Record>): seq<Record>
    decreases |left|
  {
    if left == [] then [] else BlockJoin(pred, Head(left), right) + BlocksJoin(pred, Tail(left), right)
  }

  /** How many blocks `n` rows make. */
  function Blocks(n: nat): (k: nat)
    ensures 24 * k - 24 < n <= 24 * k
  {
    (n + BLOCK - 1) / BLOCK
  }

  // ---- plans that can be run ----

  function Width(plan: PhysicalPlan): nat {
    match plan
    case SeqScan(table) => |table.columns|
    case NestedLoopJoin(left, right, _) => Width(left) + Width(right)
    case Filter(child, _) => Width(child)
    case Projection(_, columns) => |columns|
    case Limit(child, _) => Width(child)
  }

  predicate AllWide(rows: seq<Record>, width: nat) {
    forall i | 0 <= i < |rows| :: |rows[i]| == width
  }

  ghost predicate AllBoolean(pred: Expr, rows: seq<Record>) {
    forall i | 0 <= i < |rows| :: IsBoolean(pred, rows[i])
  }

  ghost predicate PairsBoolean(pred: Expr, left: seq<Record>, right: seq<Record>) {
    forall i, j | 0 <= i < |left| && 0 <= j < |right| :: IsBoolean(pred, left[i] + right[j])
  }

  /** Table rows have their table's width, projected columns exist, and predicates are boolean on the rows they see. */
  ghost predicate Runnable(plan: PhysicalPlan)
    decreases plan, 0
  {
    match plan
    case SeqScan(table) => AllWide(table.rows, |table.columns|)
    case NestedLoopJoin(left, right, pred) =>
      Runnable(left) && Runnable(right) && PairsBoolean(pred, Denote(left), Denote(right))
    case Filter(child, pred) => Runnable(child) && AllBoolean(pred, Denote(child))
    case Projection(child, columns) => Runnable(child) && forall i | 0 <= i < |columns| :: columns[i] < Width(child)
    case Limit(child, _) => Runnable(child)
  }

  /** The rows of a plan, in order. */
  ghost function Denote(plan: PhysicalPlan): (rows: seq<Record>)
    requires Runnable(plan)
    ensures AllWide(rows, Width(plan))
    decreases plan, 1
  {
    match plan
    case SeqScan(table) => table.rows
    case NestedLoopJoin(left, right, pred) =>
      BlocksJoinWide(pred, Denote(left), Denote(right), Width(left), Width(right));
      BlocksJoin(pred, Denote(left), Denote(right))
    case Filter(child, pred) =>
      FilteredWide(pred, Denote(child), Width(child));
      Filtered(pred, Denote(child))
    case Projection(child, columns) => Projected(columns, Denote(child))
    case Limit(child, limit) => Take(Denote(child), limit)
  }

  lemma {:induction false} FilteredWide(pred: Expr, rows: seq<Record>, w: nat)
    requires AllWide(rows, w)
    ensures AllWide(Filtered(pred, rows), w)
  {
    if rows != [] {
      FilteredWide(pred, rows[1..], w);
    }
  }

  lemma {:induction false} PairsWide(pred: Expr, block: seq<Record>, r: Record, w: nat)
    requires AllWide(block, w)
    ensures AllWide(Pairs(pred, block, r), w + |r|)
  {
    if block != [] {
      PairsWide(pred, block[1..], r, w);
    }
  }

  lemma {:induction false} BlockJoinWide(pred: Expr, block: seq<Record>, right: seq<Record>, w: nat, x: nat)
    requires AllWide(block, w) && AllWide(right, x)
    ensures AllWide(BlockJoin(pred, block, right), w + x)
  {
    if right != [] {
      PairsWide(pred, block, right[0], w);
      BlockJoinWide(pred, block, right[1..], w, x);
    }
  }

  lemma {:induction false} BlocksJoinWide(pred: Expr, left: seq<Record>, right: seq<Record>, w: nat, x: nat)
    requires AllWide(left, w) && AllWide(right, x)
    ensures AllWide(BlocksJoin(pred, left, right), w + x)
    decreases |left|
  {
    if left != [] {
      BlockJoinWide(pred, Head(left), right, w, x);
      BlocksJoinWide(pred, Tail(left), right, w, x);
    }
  }

  // ---- the relational meaning, independent of the order of rows ----

  /** All pairs for which the predicate is TRUE, row by row of the left side. */
  function Cross(pred: Expr, left: seq<Record>, right: seq<Record>): seq<Record> {
    if left == [] then [] else Filtered(pred, Prefixed(left[0], right)) + Cross(pred, left[1..], right)
  }

  function Prefixed(l: Record, right: seq<Record>): seq<Record> {
    seq(|right|, i requires 0 <= i < |right| => l + right[i])
  }

  lemma {:induction false} CrossSplit(pred: Expr, a: seq<Record>, b: seq<Record>, right: seq<Record>)
    ensures Cross(pred, a + b, right) == Cross(pred, a, right) + Cross(pred, b, right)
  {
    if a == [] {
      assert a + b == b;
    } else {
      assert (a + b)[1..] == a[1..] + b;
      CrossSplit(pred, a[1..], b, right);
    }
  }

  lemma {:induction false} CrossColumn(pred: Expr, left: seq<Record>, right: seq<Record>)
    requires right != []
    ensures multiset(Cross(pred, left, right)) == multiset(Pairs(pred, left, right[0]))
              + multiset(Cross(pred, left, right[1..]))
  {
    if left != [] {
      CrossColumn(pred, left[1..], right);
      assert Prefixed(left[0], right)[1..] == Prefixed(left[0], right[1..]);
      hide Prefixed, IsTrue;
    }
  }

  lemma {:induction false} CrossNothing(pred: Expr, left: seq<Record>)
    ensures Cross(pred, left, []) == []
  {
    if left != [] {
      CrossNothing(pred, left[1..]);
    }
  }

  lemma {:induction false} BlockIsCross(pred: Expr, block: seq<Record>, right: seq<Record>)
    ensures multiset(BlockJoin(pred, block, right)) == multiset(Cross(pred, block, right))
  {
    if right == [] {
      CrossNothing(pred, block);
    } else {
      BlockIsCross(pred, block, right[1..]);
      CrossColumn(pred, block, right);
    }
  }

  lemma HeadTail(rows: seq<Record>)
    ensures Head(rows) + Tail(rows) == rows && (rows != [] ==> |Tail(rows)| < |rows|)
  {
  }

  /** The block nested loop join finds the filtered cross product, each pair as often. */
  lemma {:induction false} BlocksAreCross(pred: Expr, left: seq<Record>, right: seq<Record>)
    ensures multiset(BlocksJoin(pred, left, right)) == multiset(Cross(pred, left, right))
    decreases |left|
  {
    hide BlockJoin, Filtered, Prefixed, Head, Tail;
    if left != [] {
      HeadTail(left);
      BlockIsCross(pred, Head(left), right);
      BlocksAreCross(pred, Tail(left), right);
      CrossSplit(pred, Head(left), Tail(left), right);
    }
  }

  /** `rows` is a right answer to the plan: SQL leaves the order open, and which rows a limit keeps. */
  ghost predicate Answers(plan: LogicalPlan, rows: seq<Record>) {
    match plan
    case LogicalScan(table) => multiset(rows) == multiset(table.rows)
    case LogicalJoin(left, right, pred) =>
      exists l, r :: Answers(left, l) && Answers(right, r) && multiset(rows) == multiset(Cross(pred, l, r))
    case LogicalFilter(child, pred) =>
      exists c :: Answers(child, c) && multiset(rows) == multiset(Filtered(pred, c))
    case LogicalProjection(child, columns) =>
      exists c :: Answers(child, c) && (forall i | 0 <= i < |c| :: Fits(columns, c[i]))
                  && multiset(rows) == multiset(Projected(columns, c))
    case LogicalLimit(child, limit) =>
      exists c :: Answers(child, c) && multiset(rows) <= multiset(c) && |rows| == if limit <= |c| then limit else |c|
  }

  /** Optimizing keeps the meaning: the rows of the physical plan answer the logical one. */
  lemma {:induction false} OptimizedAnswers(plan: LogicalPlan)
    requires Runnable(Optimize(plan))
    ensures Answers(plan, Denote(Optimize(plan)))
  {
    hide Filtered, Cross, BlocksJoin, IsBoolean, Take;
    match plan
    case LogicalScan(_) =>
    case LogicalJoin(left, right, pred) =>
      OptimizedAnswers(left);
      OptimizedAnswers(right);
      BlocksAreCross(pred, Denote(Optimize(left)), Denote(Optimize(right)));
    case LogicalFilter(child, _) => OptimizedAnswers(child);
    case LogicalProjection(child, _) => OptimizedAnswers(child);
    case LogicalLimit(child, limit) =>
      OptimizedAnswers(child);
      TakeSome(Denote(Optimize(child)), limit);
  }

  lemma TakeSome(rows: seq<Record>, n: nat)
    ensures multiset(Take(rows, n)) <= multiset(rows) && |Take(rows, n)| == if n <= |rows| then n else |rows|
  {
    assert rows == Take(rows, n) + rows[|Take(rows, n)|..];
  }
}
