/** The state of a block nested loop join between two calls, as a value. */
module JoinSteps {
  import opened Expressions
  import opened Plans

  /**
   * How far the left and right input have been read (`la`, `ra`), the blocks at hand, the
   * positions in them, the rows produced so far, and how often the right side was reset.
   */
  datatype Cursor = Cursor(la: nat, lb: seq<Record>, li: nat, ra: nat, rb: seq<Record>, ri: nat, at: nat, resets: nat)

  /** `block` is what was read last of `rows`, up to position `a`. */
  ghost predicate ReadLast(rows: seq<Record>, a: nat, block: seq<Record>) {
    |block| <= a <= |rows| && block == rows[a - |block|..a]
  }

  /** The rows still to come from the right block at hand. */
  ghost function Current(pred: Expr, c: Cursor): seq<Record>
    requires c.li <= |c.lb|
  {
    if c.ri < |c.rb| then Pairs(pred, c.lb[c.li..], c.rb[c.ri]) + BlockJoin(pred, c.lb, c.rb[c.ri + 1..]) else []
  }

  /** All rows still to come. */
  ghost function Rest(pred: Expr, left: seq<Record>, right: seq<Record>, c: Cursor): seq<Record>
    requires c.la <= |left| && c.ra <= |right| && c.li <= |c.lb|
  {
    (if c.lb == [] then [] else Current(pred, c) + BlockJoin(pred, c.lb, right[c.ra..]))
    + BlocksJoin(pred, left[c.la..], right)
  }

  ghost predicate JoinOK(pred: Expr, left: seq<Record>, right: seq<Record>, full: seq<Record>, c: Cursor) {
    && ReadLast(left, c.la, c.lb) && ReadLast(right, c.ra, c.rb)
    && c.li <= |c.lb| && c.ri <= |c.rb| && c.at <= |full|
    && (c.ri == |c.rb| ==> c.li == 0) && (c.lb == [] ==> c.rb == [])
    && full == BlocksJoin(pred, left, right)
    && full[c.at..] == Rest(pred, left, right, c)
    && c.resets + Blocks(|left| - c.la) == Blocks(|left|)
  }

  const START: Cursor := Cursor(0, [], 0, 0, [], 0, 0, 0)

  lemma JoinStarts(pred: Expr, left: seq<Record>, right: seq<Record>, ra: nat)
    requires ra <= |right|
    ensures JoinOK(pred, left, right, BlocksJoin(pred, left, right), START.(ra := ra))
  {
    hide BlocksJoin, BlockJoin, Blocks, Current;
    var full := BlocksJoin(pred, left, right);
    assert left[0..] == left && full[0..] == full && [] + full == full;
  }

  lemma HeadRead(rows: seq<Record>, a: nat)
    requires a <= |rows|
    ensures var b := Head(rows[a..]);
            ReadLast(rows, a + |b|, b) && rows[a + |b|..] == Tail(rows[a..]) && (b == [] <==> a == |rows|)
  {
  }

  lemma BlockTaken(n: nat, m: nat)
    requires 0 < m <= n && (m == BLOCK || (m == n && n < BLOCK))
    ensures Blocks(n) == 1 + Blocks(n - m)
  {
  }

  lemma LeftDone(pred: Expr, left: seq<Record>, right: seq<Record>, full: seq<Record>, c: Cursor)
    requires JoinOK(pred, left, right, full, c) && c.lb == [] && c.la == |left|
    ensures c.at == |full| && c.resets == Blocks(|left|)
  {
  }

  /** A new left block is read, and the right side starts over. */
  lemma LeftLoaded(pred: Expr, left: seq<Record>, right: seq<Record>, full: seq<Record>, c: Cursor)
    requires JoinOK(pred, left, right, full, c) && c.lb == [] && c.la < |left|
    ensures var b := Head(left[c.la..]);
            JoinOK(pred, left, right, full, Cursor(c.la + |b|, b, 0, 0, [], 0, c.at, c.resets + 1))
  {
    hide BlockJoin, BlocksJoin, Rest, Head, Tail, Pairs, Blocks;
    var b := Head(left[c.la..]);
    HeadRead(left, c.la);
    HeadSize(left[c.la..]);
    BlockTaken(|left| - c.la, |b|);
    LeftLoadedRest(pred, left, right, c);
  }

  lemma HeadSize(rows: seq<Record>)
    ensures |Head(rows)| <= |rows| && (|Head(rows)| == BLOCK || (|Head(rows)| == |rows| && |rows| < BLOCK))
  {
  }

  lemma LeftLoadedRest(pred: Expr, left: seq<Record>, right: seq<Record>, c: Cursor)
    requires c.la < |left| && c.ra <= |right| && c.lb == [] && c.li == 0
    ensures var b := Head(left[c.la..]);
            c.la + |b| <= |left|
            && Rest(pred, left, right, c) == Rest(pred, left, right,
                                                  Cursor(c.la + |b|, b, 0, 0, [], 0, c.at, c.resets + 1))
  {
    hide BlockJoin, Head, Tail, Pairs;
    HeadRead(left, c.la);
    assert right[0..] == right;
    var rows := left[c.la..];
    assert BlocksJoin(pred, rows, right) == BlockJoin(pred, Head(rows), right) + BlocksJoin(pred, Tail(rows), right);
    hide BlocksJoin;
  }

  lemma {:induction false} BlockJoinSplit(pred: Expr, block: seq<Record>, a: seq<Record>, b: seq<Record>)
    ensures BlockJoin(pred, block, a + b) == BlockJoin(pred, block, a) + BlockJoin(pred, block, b)
  {
    hide Pairs;
    if a == [] {
      assert a + b == b;
    } else {
      assert (a + b)[1..] == a[1..] + b;
      BlockJoinSplit(pred, block, a[1..], b);
    }
  }

  /** The next right block is read. */
  lemma RightLoaded(pred: Expr, left: seq<Record>, right: seq<Record>, full: seq<Record>, c: Cursor)
    requires JoinOK(pred, left, right, full, c) && c.lb != [] && c.ri == |c.rb| && c.ra < |right|
    ensures var b := Head(right[c.ra..]);
            JoinOK(pred, left, right, full, c.(ra := c.ra + |b|, rb := b, ri := 0))
  {
    hide BlocksJoin, Blocks, Rest, Head, Tail, BlockJoin, Pairs;
    HeadRead(right, c.ra);
    RightLoadedRest(pred, left, right, c);
  }

  lemma RightLoadedRest(pred: Expr, left: seq<Record>, right: seq<Record>, c: Cursor)
    requires c.la <= |left| && c.ra < |right| && c.lb != [] && c.ri == |c.rb| && c.li == 0
    ensures var b := Head(right[c.ra..]);
            c.ra + |b| <= |right|
            && Rest(pred, left, right, c) == Rest(pred, left, right, c.(ra := c.ra + |b|, rb := b, ri := 0))
  {
    hide BlocksJoin, Head, Tail, Pairs, BlockJoin;
    HeadRead(right, c.ra);
    HeadTail(right[c.ra..]);
    FirstRow(pred, c.lb, Head(right[c.ra..]));
    BlockJoinSplit(pred, c.lb, Head(right[c.ra..]), Tail(right[c.ra..]));
    assert [] + BlockJoin(pred, c.lb, right[c.ra..]) == BlockJoin(pred, c.lb, right[c.ra..]);
  }

  lemma FirstRow(pred: Expr, block: seq<Record>, rows: seq<Record>)
    requires rows != []
    ensures BlockJoin(pred, block, rows) == Pairs(pred, block[0..], rows[0]) + BlockJoin(pred, block, rows[1..])
  {
    assert block[0..] == block;
  }

  /** The right side is used up for this left block. */
  lemma RightDone(pred: Expr, left: seq<Record>, right: seq<Record>, full: seq<Record>, c: Cursor)
    requires JoinOK(pred, left, right, full, c) && c.lb != [] && c.ri == |c.rb| && c.ra == |right|
    ensures JoinOK(pred, left, right, full, c.(lb := [], li := 0, rb := [], ri := 0))
  {
    hide BlocksJoin, Blocks, Pairs;
  }

  /** One pair is looked at; it comes out if the predicate is TRUE. */
  lemma PairSeen(pred: Expr, left: seq<Record>, right: seq<Record>, full: seq<Record>, c: Cursor)
    requires JoinOK(pred, left, right, full, c) && c.ri < |c.rb| && c.li < |c.lb|
    ensures var r := c.lb[c.li] + c.rb[c.ri];
            if IsTrue(pred, r)
            then c.at < |full| && full[c.at] == r && JoinOK(pred, left, right, full, c.(li := c.li + 1, at := c.at + 1))
            else JoinOK(pred, left, right, full, c.(li := c.li + 1))
  {
    hide BlockJoin, BlocksJoin, Blocks, Pairs, IsTrue, Rest;
    var r := c.lb[c.li] + c.rb[c.ri];
    PairSeenRest(pred, left, right, c);
    if IsTrue(pred, r) {
      Popped(full, c.at, r, Rest(pred, left, right, c.(li := c.li + 1)));
    } else {
      assert [] + Rest(pred, left, right, c.(li := c.li + 1)) == Rest(pred, left, right, c.(li := c.li + 1));
    }
    assert Rest(pred, left, right, c.(li := c.li + 1, at := c.at + 1))
           == Rest(pred, left, right, c.(li := c.li + 1)) by {
      SameRest(pred, left, right, c.(li := c.li + 1), c.at + 1);
    }
  }

  lemma Popped(full: seq<Record>, at: nat, r: Record, rest: seq<Record>)
    requires at <= |full| && full[at..] == [r] + rest
    ensures at < |full| && full[at] == r && full[at + 1..] == rest
  {
    assert full[at..][0] == r;
    assert full[at + 1..] == full[at..][1..];
  }

  lemma SameRest(pred: Expr, left: seq<Record>, right: seq<Record>, c: Cursor, at: nat)
    requires c.la <= |left| && c.ra <= |right| && c.li <= |c.lb|
    ensures Rest(pred, left, right, c.(at := at)) == Rest(pred, left, right, c)
  {
    hide BlocksJoin, BlockJoin, Pairs;
  }

  lemma PairSeenRest(pred: Expr, left: seq<Record>, right: seq<Record>, c: Cursor)
    requires c.la <= |left| && c.ra <= |right| && c.ri < |c.rb| && c.li < |c.lb|
    ensures var r := c.lb[c.li] + c.rb[c.ri];
            Rest(pred, left, right, c) == (if IsTrue(pred, r) then [r] else [])
                + Rest(pred, left, right, c.(li := c.li + 1))
  {
    var x := if IsTrue(pred, c.lb[c.li] + c.rb[c.ri]) then [c.lb[c.li] + c.rb[c.ri]] else [];
    CurrentSeen(pred, c);
    hide BlockJoin, BlocksJoin, IsTrue, Current;
    Regroup(x, Current(pred, c.(li := c.li + 1)), BlockJoin(pred, c.lb, right[c.ra..]),
            BlocksJoin(pred, left[c.la..], right));
  }

  lemma Regroup(x: seq<Record>, y: seq<Record>, b: seq<Record>, j: seq<Record>)
    ensures x + y + b + j == x + (y + b + j)
  {
  }

  lemma CurrentSeen(pred: Expr, c: Cursor)
    requires c.ri < |c.rb| && c.li < |c.lb|
    ensures var r := c.lb[c.li] + c.rb[c.ri];
            Current(pred, c) == (if IsTrue(pred, r) then [r] else []) + Current(pred, c.(li := c.li + 1))
  {
    hide BlockJoin, IsTrue;
    FirstPair(pred, c.lb[c.li..], c.rb[c.ri]);
    assert c.lb[c.li..][1..] == c.lb[c.li + 1..];
    hide Pairs;
    var x := if IsTrue(pred, c.lb[c.li] + c.rb[c.ri]) then [c.lb[c.li] + c.rb[c.ri]] else [];
    Regroup3(x, Pairs(pred, c.lb[c.li + 1..], c.rb[c.ri]), BlockJoin(pred, c.lb, c.rb[c.ri + 1..]));
  }

  lemma Regroup3(x: seq<Record>, y: seq<Record>, z: seq<Record>)
    ensures x + y + z == x + (y + z)
  {
  }

  lemma FirstPair(pred: Expr, block: seq<Record>, r: Record)
    requires block != []
    ensures Pairs(pred, block, r) == (if IsTrue(pred, block[0] + r) then [block[0] + r] else [])
              + Pairs(pred, block[1..], r)
  {
  }

  /** The right row has met the whole left block. */
  lemma RowDone(pred: Expr, left: seq<Record>, right: seq<Record>, full: seq<Record>, c: Cursor)
    requires JoinOK(pred, left, right, full, c) && c.ri < |c.rb| && c.li == |c.lb|
    ensures JoinOK(pred, left, right, full, c.(li := 0, ri := c.ri + 1))
  {
    hide BlocksJoin, Blocks, BlockJoin, Pairs, Rest;
    RowDoneRest(pred, left, right, c);
  }

  lemma RowDoneRest(pred: Expr, left: seq<Record>, right: seq<Record>, c: Cursor)
    requires c.la <= |left| && c.ra <= |right| && c.ri < |c.rb| && c.li == |c.lb|
    ensures Rest(pred, left, right, c) == Rest(pred, left, right, c.(li := 0, ri := c.ri + 1))
  {
    hide BlocksJoin, BlockJoin, Current;
    CurrentDone(pred, c);
  }

  lemma CurrentDone(pred: Expr, c: Cursor)
    requires c.ri < |c.rb| && c.li == |c.lb|
    ensures Current(pred, c) == Current(pred, c.(li := 0, ri := c.ri + 1))
  {
    var rows := c.rb[c.ri + 1..];
    assert Pairs(pred, c.lb[c.li..], c.rb[c.ri]) == [];
    hide Pairs;
    if c.ri + 1 < |c.rb| {
      FirstRow(pred, c.lb, rows);
      assert rows[1..] == c.rb[c.ri + 2..];
    } else {
      assert BlockJoin(pred, c.lb, rows) == [];
    }
    hide BlockJoin;
  }

  /** The pair at hand is a pair of input rows. */
  lemma PairOfInputs(pred: Expr, left: seq<Record>, right: seq<Record>, c: Cursor)
    requires PairsBoolean(pred, left, right) && ReadLast(left, c.la, c.lb) && ReadLast(right, c.ra, c.rb)
    requires c.ri < |c.rb| && c.li < |c.lb|
    ensures IsBoolean(pred, c.lb[c.li] + c.rb[c.ri])
  {
    assert c.lb[c.li] == left[c.la - |c.lb| + c.li];
    assert c.rb[c.ri] == right[c.ra - |c.rb| + c.ri];
    hide IsBoolean;
  }
}

/** Query operators: each pulls rows from the operators below it, one at a time. */
module Operators {
  import opened Options
  import opened Expressions
  import opened Plans
  import opened JoinSteps

  /** What kind of operator it is. */
  datatype Node =
    | ScanNode(table: TableRows)
    | FilterNode(pred: Expr)
    | ProjectionNode(columns: seq<nat>)
    | LimitNode(limit: nat)
    | JoinNode(pred: Expr)

  // ---- filter, projection and limit between two calls ----

  /** The child has been read up to `c`, and the rows up to `at` have come out. */
  ghost predicate FilterOK(pred: Expr, rows: seq<Record>, c: nat, full: seq<Record>, at: nat) {
    c <= |rows| && at <= |full| && full == Filtered(pred, rows) && full[at..] == Filtered(pred, rows[c..])
  }

  lemma FilterStarts(pred: Expr, rows: seq<Record>)
    ensures FilterOK(pred, rows, 0, Filtered(pred, rows), 0)
  {
    assert rows[0..] == rows;
    hide Filtered;
  }

  lemma RowFiltered(pred: Expr, rows: seq<Record>, c: nat, full: seq<Record>, at: nat)
    requires FilterOK(pred, rows, c, full, at)
    ensures c == |rows| ==> at == |full|
    ensures c < |rows| && IsTrue(pred, rows[c]) ==>
              at < |full| && full[at] == rows[c] && FilterOK(pred, rows, c + 1, full, at + 1)
    ensures c < |rows| && !IsTrue(pred, rows[c]) ==> FilterOK(pred, rows, c + 1, full, at)
  {
    hide IsTrue;
    if c < |rows| {
      assert rows[c..][1..] == rows[c + 1..];
      assert Filtered(pred, rows[c..]) == (if IsTrue(pred, rows[c]) then [rows[c]] else [])
             + Filtered(pred, rows[c + 1..]);
      hide Filtered;
      if IsTrue(pred, rows[c]) {
        Popped(full, at, rows[c], Filtered(pred, rows[c + 1..]));
      }
    }
  }

  ghost predicate ProjectionOK(columns: seq<nat>, rows: seq<Record>, c: nat, full: seq<Record>, at: nat) {
    (forall i | 0 <= i < |rows| :: Fits(columns, rows[i])) && full == Projected(columns, rows) && at == c <= |rows|
  }

  /** Calls are counted even when the child has nothing more. */
  ghost predicate LimitOK(limit: nat, produced: nat, rows: seq<Record>, c: nat, full: seq<Record>, at: nat) {
    && full == Take(rows, limit) && at == c <= produced <= limit && c <= |rows|
    && (c < produced ==> c == |rows|)
  }

  class Operator {
    const node: Node
    /** The only input, or the left one. */
    const left: Operator?
    const right: Operator?
    var pos: nat
    var produced: nat
    var left_block: seq<Record>
    var right_block: seq<Record>
    var left_it: nat
    var right_it: nat

    ghost const height: nat
    ghost const repr: set<object>
    /** All the rows, and how many of them have come out. */
    ghost const full: seq<Record>
    ghost var at: nat
    /** How often a join has reset its right input for a new left block. */
    ghost var resets: nat

    ghost predicate Below(c: Operator?) {
      this in repr && c != null && c.height < height && c in c.repr && c.repr <= repr && this !in c.repr
    }

    ghost function JoinCursor(): Cursor
      reads this, left, right
    {
      Cursor(if left == null then 0 else left.at, left_block, left_it,
             if right == null then 0 else right.at, right_block, right_it, at, resets)
    }

    ghost predicate Valid()
      reads this, repr
      decreases height, 1
    {
      match node
      case ScanNode(table) => this in repr && full == table.rows && at == pos <= |full|
      case FilterNode(pred) => FilterParts(pred)
      case ProjectionNode(columns) => Below(left) && left.Valid() && ProjectionOK(columns, left.full, left.at, full, at)
      case LimitNode(limit) => Below(left) && left.Valid() && LimitOK(limit, produced, left.full, left.at, full, at)
      case JoinNode(pred) => JoinParts(pred)
    }

    ghost predicate FilterParts(pred: Expr)
      reads this, repr
      decreases height, 0
    {
      Below(left) && left.Valid() && AllBoolean(pred, left.full) && FilterOK(pred, left.full, left.at, full, at)
    }

    ghost predicate JoinParts(pred: Expr)
      reads this, repr
      decreases height, 0
    {
      && Below(left) && left.Valid() && Below(right) && right.Valid() && left.repr !! right.repr
      && PairsBoolean(pred, left.full, right.full) && JoinOK(pred, left.full, right.full, full, JoinCursor())
    }

    constructor Scan(table: TableRows)
      ensures Valid() && fresh(repr) && full == table.rows && at == 0 && this in repr
    {
      node, left, right, pos, produced := ScanNode(table), null, null, 0, 0;
      left_block, right_block, left_it, right_it := [], [], 0, 0;
      height, full, at, resets := 0, table.rows, 0, 0;
      repr := {this};
    }

    constructor Filter(child: Operator, pred: Expr)
      requires child.Valid() && child.at == 0 && AllBoolean(pred, child.full)
      ensures Valid() && fresh(repr - child.repr) && full == Filtered(pred, child.full) && at == 0 && this in repr
    {
      node, left, right, pos, produced := FilterNode(pred), child, null, 0, 0;
      left_block, right_block, left_it, right_it := [], [], 0, 0;
      height, full, at, resets := child.height + 1, Filtered(pred, child.full), 0, 0;
      repr := {this} + child.repr;
      FilterStarts(pred, child.full);
    }

    constructor Projection(child: Operator, columns: seq<nat>)
      requires child.Valid() && child.at == 0 && forall i | 0 <= i < |child.full| :: Fits(columns, child.full[i])
      ensures Valid() && fresh(repr - child.repr) && full == Projected(columns, child.full) && at == 0 && this in repr
    {
      node, left, right, pos, produced := ProjectionNode(columns), child, null, 0, 0;
      left_block, right_block, left_it, right_it := [], [], 0, 0;
      height, full, at, resets := child.height + 1, Projected(columns, child.full), 0, 0;
      repr := {this} + child.repr;
    }

    constructor Limit(child: Operator, limit: nat)
      requires child.Valid() && child.at == 0
      ensures Valid() && fresh(repr - child.repr) && full == Take(child.full, limit) && at == 0 && this in repr
    {
      node, left, right, pos, produced := LimitNode(limit), child, null, 0, 0;
      left_block, right_block, left_it, right_it := [], [], 0, 0;
      height, full, at, resets := child.height + 1, Take(child.full, limit), 0, 0;
      repr := {this} + child.repr;
    }

    constructor Join(l: Operator, r: Operator, pred: Expr)
      requires l.Valid() && l.at == 0 && r.Valid() && r.at == 0 && l.repr !! r.repr
                && PairsBoolean(pred, l.full, r.full)
      ensures Valid() && fresh(repr - l.repr - r.repr) && full == BlocksJoin(pred, l.full, r.full) && at == 0
                && this in repr
    {
      hide BlocksJoin, JoinOK, PairsBoolean;
      node, left, right, pos, produced := JoinNode(pred), l, r, 0, 0;
      left_block, right_block, left_it, right_it := [], [], 0, 0;
      height, full, at, resets := l.height + r.height + 1, BlocksJoin(pred, l.full, r.full), 0, 0;
      repr := {this} + l.repr + r.repr;
      JoinStarts(pred, l.full, r.full, 0);
    }

    /** The next row, or nothing once all have come out, however often it is asked again. */
    method Next() returns (r: Option<Record>)
      requires Valid()
      modifies repr
      ensures Valid() && old(at) <= |full|
      ensures r == if old(at) < |full| then Some(full[old(at)]) else None
      ensures at == if old(at) < |full| then old(at) + 1 else old(at)
      ensures r.None? && node.JoinNode? ==> left != null && resets == Blocks(|left.full|)
      decreases height, 1
    {
      match node {
        case ScanNode(table) =>
          if pos < |table.rows| {
            r := Some(table.rows[pos]);
            pos, at := pos + 1, at + 1;
          } else {
            r := None;
          }
        case FilterNode(pred) => r := NextFiltered(pred);
        case ProjectionNode(columns) =>
          r := left.Next();
          if r.Some? {
            at := at + 1;
            r := Some(Pick(columns, r.value));
          }
        case LimitNode(limit) =>
          if produced >= limit {
            return None;
          }
          produced := produced + 1;
          r := left.Next();
          if r.Some? {
            at := at + 1;
          }
        case JoinNode(pred) => r := NextJoined(pred);
      }
    }

    method NextFiltered(pred: Expr) returns (r: Option<Record>)
      requires FilterParts(pred)
      modifies repr
      ensures FilterParts(pred) && old(at) <= |full|
      ensures r == if old(at) < |full| then Some(full[old(at)]) else None
      ensures at == if old(at) < |full| then old(at) + 1 else old(at)
      decreases height, 0
    {
      hide Valid, FilterOK, IsBoolean, IsTrue;
      while true
        invariant FilterParts(pred) && at == old(at)
        decreases |left.full| - left.at
      {
        RowFiltered(pred, left.full, left.at, full, at);
        FilterBounds(pred, left.full, left.at, full, at);
        r := left.Next();
        if r.None? {
          return;
        }
        var selected := Test(pred, r.value);
        if selected {
          at := at + 1;
          return;
        }
      }
    }

    method NextJoined(pred: Expr) returns (r: Option<Record>)
      requires JoinParts(pred)
      modifies repr
      ensures JoinParts(pred) && old(at) <= |full|
      ensures r == if old(at) < |full| then Some(full[old(at)]) else None
      ensures at == if old(at) < |full| then old(at) + 1 else old(at)
      ensures r.None? ==> resets == Blocks(|left.full|)
      decreases height, 0, 3
    {
      hide Valid, JoinOK, Blocks, PairsBoolean;
      while true
        invariant JoinParts(pred) && at == old(at)
        decreases |left.full| - left.at, |left_block|, RightToCome(), |left_block| - left_it
      {
        JoinBounds(pred, left.full, right.full, full, JoinCursor());
        if left_block == [] {
          var loaded := LoadLeft(pred);
          if !loaded {
            return None;
          }
        }
        JoinBounds(pred, left.full, right.full, full, JoinCursor());
        if right_it >= |right_block| {
          var loaded := LoadRight(pred);
          if !loaded {
            continue;
          }
        }
        JoinBounds(pred, left.full, right.full, full, JoinCursor());
        if left_it < |left_block| {
          r := ComparePair(pred);
          if r.Some? {
            return;
          }
          continue;
        }
        FinishRow(pred);
      }
    }

    /** Right rows not yet done with the left block at hand. */
    ghost function RightToCome(): int
      requires right != null
      reads this, right
    {
      |right.full| - right.at + |right_block| - right_it
    }

    /** Load one block from the left; the right side is reset once for it. */
    method LoadLeft(pred: Expr) returns (loaded: bool)
      requires JoinParts(pred) && left_block == []
      modifies repr
      ensures JoinParts(pred) && at == old(at)
      ensures loaded ==> left.at > old(left.at) && left_block != []
      ensures !loaded ==> at == |full| && resets == Blocks(|left.full|)
      decreases height, 0, 2
    {
      hide Valid, JoinOK, Blocks, PairsBoolean, Head, Tail;
      ghost var c := JoinCursor();
      JoinBounds(pred, left.full, right.full, full, c);
      left_block := left.FetchBlock();
      HeadRead(left.full, c.la);
      if left_block == [] {
        LeftDone(pred, left.full, right.full, full, c);
        return false;
      }
      LeftLoaded(pred, left.full, right.full, full, c);
      left_it := 0;
      right.Reset();
      resets := resets + 1;
      right_block, right_it := [], 0;
      loaded := true;
    }

    /** Load one block from the right; without one the left block is dropped. */
    method LoadRight(pred: Expr) returns (loaded: bool)
      requires JoinParts(pred) && left_block != [] && right_it == |right_block|
      modifies this, right.repr
      ensures JoinParts(pred) && at == old(at) && left.at == old(left.at)
      ensures loaded ==>
                RightToCome() == old(RightToCome()) && left_block == old(left_block) && left_it == 0
                && right_it < |right_block|
      ensures !loaded ==> left_block == []
      decreases height, 0, 1
    {
      hide Valid, JoinOK, Blocks, PairsBoolean, Head, Tail;
      ghost var c := JoinCursor();
      JoinBounds(pred, left.full, right.full, full, c);
      right_block := right.FetchBlock();
      right_it := 0;
      HeadRead(right.full, c.ra);
      if right_block == [] {
        RightDone(pred, left.full, right.full, full, c);
        left_block := [];
        return false;
      }
      RightLoaded(pred, left.full, right.full, full, c);
      loaded := true;
    }

    method ComparePair(pred: Expr) returns (r: Option<Record>)
      requires JoinParts(pred) && left_it < |left_block| && right_it < |right_block|
      modifies this`left_it, this`at
      ensures JoinParts(pred) && left_it == old(left_it) + 1
      ensures r.None? ==> at == old(at)
      ensures r.Some? ==> old(at) < |full| && r == Some(full[old(at)]) && at == old(at) + 1
    {
      hide Valid, JoinOK, Blocks, PairsBoolean, IsBoolean, IsTrue;
      JoinBounds(pred, left.full, right.full, full, JoinCursor());
      PairSeen(pred, left.full, right.full, full, JoinCursor());
      PairOfInputs(pred, left.full, right.full, JoinCursor());
      var record := left_block[left_it] + right_block[right_it];
      left_it := left_it + 1;
      var selected := Test(pred, record);
      if selected {
        at := at + 1;
        return Some(record);
      }
      r := None;
    }

    /** The right row has been compared with the whole left block. */
    method FinishRow(pred: Expr)
      requires JoinParts(pred) && left_it == |left_block| && right_it < |right_block|
      modifies this`left_it, this`right_it
      ensures JoinParts(pred) && right_it == old(right_it) + 1
    {
      hide Valid, JoinOK, Blocks, PairsBoolean;
      RowDone(pred, left.full, right.full, full, JoinCursor());
      left_it := 0;
      right_it := right_it + 1;
    }

    /** Up to a block of rows of this operator. */
    method FetchBlock() returns (block: seq<Record>)
      requires Valid()
      modifies repr
      ensures Valid() && old(at) <= |full| && at <= |full| && block == Head(full[old(at)..]) && at == old(at) + |block|
      decreases height, 2
    {
      hide Valid, Head;
      AtBound(this);
      ghost var a := at;
      block := [];
      for i := 0 to BLOCK
        invariant Valid() && |block| == i && a + i == at <= |full| && block == full[a..at]
      {
        ghost var b := at;
        var record := Next();
        if record.None? {
          BlockRead(full, a, b);
          return;
        }
        block := block + [record.value];
        assert full[a..b] + [full[b]] == full[a..b + 1];
      }
      BlockRead(full, a, at);
    }

    /** Ask for rows until there are no more. */
    method Drain() returns (rows: seq<Record>)
      requires Valid()
      modifies repr
      ensures Valid() && old(at) <= |full| && rows == full[old(at)..] && at == |full|
      decreases height, 2
    {
      hide Valid;
      AtBound(this);
      ghost var a := at;
      rows := [];
      while true
        invariant Valid() && a <= at <= |full| && rows == full[a..at]
        decreases |full| - at
      {
        ghost var b := at;
        var record := Next();
        if record.None? {
          return;
        }
        rows := rows + [record.value];
        assert full[a..b] + [full[b]] == full[a..b + 1];
      }
    }

    /** Start over: all rows come out again. */
    method Reset()
      requires Valid()
      modifies repr
      ensures Valid() && at == 0
      decreases height, 1
    {
      hide JoinOK, PairsBoolean, AllBoolean;
      match node {
        case ScanNode(table) => pos := 0;
        case FilterNode(pred) =>
          left.Reset();
          FilterStarts(pred, left.full);
        case ProjectionNode(_) => left.Reset();
        case LimitNode(_) =>
          left.Reset();
          produced := 0;
        case JoinNode(pred) => ResetJoined(pred);
      }
      at := 0;
    }

    method ResetJoined(pred: Expr)
      requires JoinParts(pred)
      modifies repr
      ensures JoinParts(pred) && at == 0
      decreases height, 0
    {
      hide Valid, JoinOK;
      JoinBounds(pred, left.full, right.full, full, JoinCursor());
      left.Reset();
      right.Reset();
      left_block, right_block, left_it, right_it := [], [], 0, 0;
      at, resets := 0, 0;
      JoinStarts(pred, left.full, right.full, 0);
    }
  }

  lemma BlockRead(rows: seq<Record>, a: nat, b: nat)
    requires a <= b <= |rows| && (b - a == BLOCK || (b == |rows| && b - a < BLOCK))
    ensures rows[a..b] == Head(rows[a..])
  {
  }

  lemma AtBound(op: Operator)
    requires op.Valid()
    ensures op.at <= |op.full|
  {
  }

  lemma FilterBounds(pred: Expr, rows: seq<Record>, c: nat, full: seq<Record>, at: nat)
    requires FilterOK(pred, rows, c, full, at)
    ensures c <= |rows| && at <= |full|
  {
  }

  lemma JoinBounds(pred: Expr, left: seq<Record>, right: seq<Record>, full: seq<Record>, c: Cursor)
    requires JoinOK(pred, left, right, full, c)
    ensures ReadLast(left, c.la, c.lb) && ReadLast(right, c.ra, c.rb)
    ensures c.li <= |c.lb| && c.ri <= |c.rb| && c.at <= |full| && (c.ri == |c.rb| ==> c.li == 0)
              && (c.lb == [] ==> c.rb == [])
    ensures full == BlocksJoin(pred, left, right)
  {
  }

  /** Unknown and FALSE do not select. */
  method Test(pred: Expr, r: Record) returns (selected: bool)
    requires IsBoolean(pred, r)
    ensures selected <==> IsTrue(pred, r)
  {
    var comp := Eval(pred, r).v;
    selected := !(comp.Null? || !comp.b);
  }
}
