/** Values, records, and the three-valued expressions over them. */
module Expressions {
  import opened Bytes

  datatype Type = BoolType | IntType | StringType | BytesType

  datatype Value = Null(t: Type) | Bool(b: bool) | Int(i: int) | Str(s: string) | Binary(bs: seq<byte>)

  type Record = seq<Value>

  function TypeOf(v: Value): Type {
    match v
    case Null(t) => t
    case Bool(_) => BoolType
    case Int(_) => IntType
    case Str(_) => StringType
    case Binary(_) => BytesType
  }

  // ---- comparing ----

  datatype Order = Less | Equal | Greater | Unknown

  function CompareInts(a: int, b: int): Order {
    if a < b then Less else if a > b then Greater else Equal
  }

  function CompareCodes(a: seq<int>, b: seq<int>): Order {
    if a == [] && b == [] then Equal
    else if a == [] then Less
    else if b == [] then Greater
    else if a[0] != b[0] then CompareInts(a[0], b[0])
    else CompareCodes(a[1..], b[1..])
  }

  function CharCodes(s: string): seq<int> {
    seq(|s|, i requires 0 <= i < |s| => s[i] as int)
  }

  function ByteCodes(b: seq<byte>): seq<int> {
    seq(|b|, i requires 0 <= i < |b| => b[i] as int)
  }

  /** Values of different types, and anything with a NULL, compare as unknown. */
  function Compare(a: Value, b: Value): Order {
    match (a, b)
    case (Int(x), Int(y)) => CompareInts(x, y)
    case (Bool(x), Bool(y)) => CompareInts(if x then 1 else 0, if y then 1 else 0)
    case (Str(x), Str(y)) => CompareCodes(CharCodes(x), CharCodes(y))
    case (Binary(x), Binary(y)) => CompareCodes(ByteCodes(x), ByteCodes(y))
    case _ => Unknown
  }

  // ---- expressions ----

  datatype CompareOp = EqualTo | NotEqual | LessThan | GreaterThan | LessOrEqual | GreaterOrEqual
  datatype BinaryOp = And | Or

  datatype Expr =
    | Column(index: nat)
    | Constant(value: Value)
    | Comparison(left: Expr, op: CompareOp, right: Expr)
    | Logical(left: Expr, logical: BinaryOp, right: Expr)
    | Not(operand: Expr)

  /** The value of an expression, or an exception. */
  datatype Evaluated = Val(v: Value) | Throws

  function Holds(op: CompareOp, o: Order): Value {
    if o.Unknown? then Null(BoolType) else
      Bool(match op
           case EqualTo => o.Equal?
           case NotEqual => !o.Equal?
           case LessThan => o.Less?
           case GreaterThan => o.Greater?
           case LessOrEqual => !o.Greater?
           case GreaterOrEqual => !o.Less?)
  }

  function Combine(op: BinaryOp, a: Value, b: Value): Evaluated {
    if a.Null? && b.Null? then Val(Null(BoolType))
    else if !TypeOf(a).BoolType? || !TypeOf(b).BoolType? then Throws
    else
      var decisive := Bool(op.Or?);
      if a == decisive || b == decisive then Val(decisive)
      else if a.Null? || b.Null? then Val(Null(BoolType))
      else Val(Bool(op.And?))
  }

  function Negation(a: Evaluated): Evaluated {
    if a.Throws? then Throws
    else if a.v.Null? then Val(Null(BoolType))
    else if a.v.Bool? then Val(Bool(!a.v.b))
    else Throws
  }

  function Eval(e: Expr, r: Record): Evaluated {
    match e
    case Column(i) => if i < |r| then Val(r[i]) else Throws
    case Constant(v) => Val(v)
    case Comparison(l, op, x) =>
      var a, b := Eval(l, r), Eval(x, r);
      if a.Throws? || b.Throws? then Throws else Val(Holds(op, Compare(a.v, b.v)))
    case Logical(l, op, x) =>
      var a, b := Eval(l, r), Eval(x, r);
      if a.Throws? || b.Throws? then Throws else Combine(op, a.v, b.v)
    case Not(x) => Negation(Eval(x, r))
  }

  /** The predicate evaluates to a boolean, possibly NULL. */
  predicate IsBoolean(e: Expr, r: Record) {
    Eval(e, r).Val? && TypeOf(Eval(e, r).v).BoolType?
  }

  /** Only TRUE selects a record; FALSE and unknown do not. */
  predicate IsTrue(e: Expr, r: Record) {
    Eval(e, r) == Val(Bool(true))
  }

  /** Every column index of the expression is below `width`. */
  predicate ColumnsBelow(e: Expr, width: nat) {
    match e
    case Column(i) => i < width
    case Constant(_) => true
    case Comparison(l, _, r) => ColumnsBelow(l, width) && ColumnsBelow(r, width)
    case Logical(l, _, r) => ColumnsBelow(l, width) && ColumnsBelow(r, width)
    case Not(x) => ColumnsBelow(x, width)
  }

  // ---- what the operators mean ----

  /** What the six comparisons of `l` and `r` yield, given whether `l` is the lesser and whether they are equal. */
  ghost predicate Ordered(l: Expr, r: Expr, row: Record, less: bool, equal: bool) {
    && Eval(Comparison(l, EqualTo, r), row) == Val(Bool(equal))
    && Eval(Comparison(l, NotEqual, r), row) == Val(Bool(!equal))
    && Eval(Comparison(l, LessThan, r), row) == Val(Bool(less))
    && Eval(Comparison(l, GreaterThan, r), row) == Val(Bool(!less && !equal))
    && Eval(Comparison(l, LessOrEqual, r), row) == Val(Bool(less || equal))
    && Eval(Comparison(l, GreaterOrEqual, r), row) == Val(Bool(!less))
  }

  lemma OrderShown(l: Expr, r: Expr, row: Record)
    requires Eval(l, row).Val? && Eval(r, row).Val?
    ensures var o := Compare(Eval(l, row).v, Eval(r, row).v); !o.Unknown? ==> Ordered(l, r, row, o.Less?, o.Equal?)
  {
    hide Compare;
  }

  /** Integers compare as numbers, and FALSE is less than TRUE. */
  lemma NumbersCompare(l: Expr, r: Expr, row: Record)
    ensures forall x, y | Eval(l, row) == Val(Int(x)) && Eval(r, row) == Val(Int(y)) ::
              Ordered(l, r, row, x < y, x == y)
    ensures forall x, y | Eval(l, row) == Val(Bool(x)) && Eval(r, row) == Val(Bool(y)) ::
              Ordered(l, r, row, !x && y, x == y)
  {
    hide Eval, Ordered;
    if Eval(l, row).Val? && Eval(r, row).Val? {
      OrderShown(l, r, row);
    }
  }

  /** A proper prefix, or the smaller code where the two first differ. */
  ghost predicate StringBefore(x: string, y: string) {
    x < y || exists i :: 0 <= i < |x| && i < |y| && x[..i] == y[..i] && x[i] < y[i]
  }

  ghost predicate BytesBefore(x: seq<byte>, y: seq<byte>) {
    x < y || exists i :: 0 <= i < |x| && i < |y| && x[..i] == y[..i] && x[i] < y[i]
  }

  ghost predicate CodesBefore(x: seq<int>, y: seq<int>) {
    x < y || exists i :: 0 <= i < |x| && i < |y| && x[..i] == y[..i] && x[i] < y[i]
  }

  lemma {:induction false} CodesCompared(x: seq<int>, y: seq<int>)
    ensures CompareCodes(x, y).Less? <==> CodesBefore(x, y)
    ensures CompareCodes(x, y).Equal? <==> x == y
    ensures !CompareCodes(x, y).Unknown?
    ensures CodesBefore(y, x) <==> !CodesBefore(x, y) && x != y
  {
    if x != [] && y != [] {
      var a, b := x[1..], y[1..];
      CodesCompared(a, b);
      assert x == [x[0]] + a && y == [y[0]] + b;
      if x[0] == y[0] {
        HeadsEqual(x, y);
        HeadsEqual(y, x);
      } else {
        HeadsDiffer(x, y);
        HeadsDiffer(y, x);
      }
    }
  }

  lemma HeadsEqual(x: seq<int>, y: seq<int>)
    requires x != [] && y != [] && x[0] == y[0]
    ensures CodesBefore(x, y) <==> CodesBefore(x[1..], y[1..])
  {
    var a, b := x[1..], y[1..];
    assert x == [x[0]] + a && y == [y[0]] + b;
    assert x < y <==> a < b;
    if i :| 0 <= i < |x| && i < |y| && x[..i] == y[..i] && x[i] < y[i] {
      assert a[..i - 1] == x[..i][1..] && b[..i - 1] == y[..i][1..] && a[i - 1] < b[i - 1];
    }
    if i :| 0 <= i < |a| && i < |b| && a[..i] == b[..i] && a[i] < b[i] {
      assert x[..i + 1] == [x[0]] + a[..i] && y[..i + 1] == [y[0]] + b[..i] && x[i + 1] < y[i + 1];
    }
  }

  lemma HeadsDiffer(x: seq<int>, y: seq<int>)
    requires x != [] && y != [] && x[0] != y[0]
    ensures CodesBefore(x, y) <==> x[0] < y[0]
  {
    forall i | 0 < i < |x| && i < |y| ensures x[..i] != y[..i] {
      assert x[..i][0] != y[..i][0];
    }
    assert x[..0] == y[..0];
  }

  lemma CharsBefore(x: string, y: string)
    ensures StringBefore(x, y) <==> CodesBefore(CharCodes(x), CharCodes(y))
    ensures x == y <==> CharCodes(x) == CharCodes(y)
  {
    var a, b := CharCodes(x), CharCodes(y);
    forall i | 0 <= i <= |x| && i <= |y| ensures x[..i] == y[..i] <==> a[..i] == b[..i] {
      if a[..i] == b[..i] {
        forall j | 0 <= j < i ensures x[j] == y[j] {
          assert a[..i][j] == b[..i][j];
        }
      }
      if x[..i] == y[..i] {
        forall j | 0 <= j < i ensures a[j] == b[j] {
          assert x[..i][j] == y[..i][j];
        }
      }
    }
    assert x == x[..|x|] && y == y[..|y|] && a == a[..|x|] && b == b[..|y|];
    assert |x| < |y| ==> (x < y <==> x[..|x|] == y[..|x|]) && (a < b <==> a[..|x|] == b[..|x|]);
  }

  lemma BytesBeforeCodes(x: seq<byte>, y: seq<byte>)
    ensures BytesBefore(x, y) <==> CodesBefore(ByteCodes(x), ByteCodes(y))
    ensures x == y <==> ByteCodes(x) == ByteCodes(y)
  {
    var a, b := ByteCodes(x), ByteCodes(y);
    forall i | 0 <= i <= |x| && i <= |y| ensures x[..i] == y[..i] <==> a[..i] == b[..i] {
      if a[..i] == b[..i] {
        forall j | 0 <= j < i ensures x[j] == y[j] {
          assert a[..i][j] == b[..i][j];
        }
      }
      if x[..i] == y[..i] {
        forall j | 0 <= j < i ensures a[j] == b[j] {
          assert x[..i][j] == y[..i][j];
        }
      }
    }
    assert x == x[..|x|] && y == y[..|y|] && a == a[..|x|] && b == b[..|y|];
    assert |x| < |y| ==> (x < y <==> x[..|x|] == y[..|x|]) && (a < b <==> a[..|x|] == b[..|x|]);
  }

  /** Strings and byte strings compare in lexicographic order of their codes. */
  lemma StringsCompare(l: Expr, r: Expr, row: Record)
    ensures forall x, y | Eval(l, row) == Val(Str(x)) && Eval(r, row) == Val(Str(y)) ::
              Ordered(l, r, row, StringBefore(x, y), x == y) && (StringBefore(y, x) <==> !StringBefore(x, y) && x != y)
    ensures forall x, y | Eval(l, row) == Val(Binary(x)) && Eval(r, row) == Val(Binary(y)) ::
              Ordered(l, r, row, BytesBefore(x, y), x == y) && (BytesBefore(y, x) <==> !BytesBefore(x, y) && x != y)
  {
    hide Eval, Ordered, CompareCodes, CharCodes, ByteCodes, StringBefore, BytesBefore, CodesBefore;
    var a, b := Eval(l, row), Eval(r, row);
    if a.Val? && b.Val? {
      OrderShown(l, r, row);
    }
    if a.Val? && b.Val? && a.v.Str? && b.v.Str? {
      CodesCompared(CharCodes(a.v.s), CharCodes(b.v.s));
      CharsBefore(a.v.s, b.v.s);
      CharsBefore(b.v.s, a.v.s);
    }
    if a.Val? && b.Val? && a.v.Binary? && b.v.Binary? {
      CodesCompared(ByteCodes(a.v.bs), ByteCodes(b.v.bs));
      BytesBeforeCodes(a.v.bs, b.v.bs);
      BytesBeforeCodes(b.v.bs, a.v.bs);
    }
  }

  /** NULLs and values of different types do not compare, and an operand that throws throws. */
  lemma UnknownCompares(l: Expr, op: CompareOp, r: Expr, row: Record)
    ensures var a, b, e := Eval(l, row), Eval(r, row), Eval(Comparison(l, op, r), row);
            && (e.Throws? <==> a.Throws? || b.Throws?)
            && (e == Val(Null(BoolType)) <==>
                  a.Val? && b.Val? && (a.v.Null? || b.v.Null? || TypeOf(a.v) != TypeOf(b.v)))
            && (e.Val? && !e.v.Null? ==> e.v.Bool?)
  {
    hide CompareCodes, CharCodes, ByteCodes, StringBefore, BytesBefore;
    StringsCompare(l, r, row);
  }

  /** Of booleans and NULLs that are typed as such. */
  predicate Truth(a: Evaluated) {
    a.Val? && TypeOf(a.v).BoolType?
  }

  /**
   * Three-valued logic, with an exception for a value that is no boolean: two NULLs are unknown
   * whatever their types, but a NULL of another type beside a boolean throws.
   */
  lemma LogicTables(l: Expr, r: Expr, row: Record)
    ensures var a, b := Eval(l, row), Eval(r, row);
            var both, either, no :=
              Eval(Logical(l, And, r), row), Eval(Logical(l, Or, r), row), Eval(Not(l), row);
            var nulls := a.Val? && b.Val? && a.v.Null? && b.v.Null?;
            && (nulls ==> both == either == Val(Null(BoolType)))
            && (both.Throws? <==> !nulls && !(Truth(a) && Truth(b)))
            && (either.Throws? <==> !nulls && !(Truth(a) && Truth(b)))
            && (both == Val(Bool(true)) <==> a == b == Val(Bool(true)))
            && (both == Val(Bool(false)) <==>
                  Truth(a) && Truth(b) && (a == Val(Bool(false)) || b == Val(Bool(false))))
            && (either == Val(Bool(true)) <==>
                  Truth(a) && Truth(b) && (a == Val(Bool(true)) || b == Val(Bool(true))))
            && (either == Val(Bool(false)) <==> a == b == Val(Bool(false)))
            && (forall e | e in [both, either] && e.Val? && !e.v.Bool? :: e == Val(Null(BoolType)))
            && (no == Val(Null(BoolType)) <==> a.Val? && a.v.Null?)
            && (no.Throws? <==> a.Throws? || !(a.v.Null? || a.v.Bool?))
            && (no == Val(Bool(true)) <==> a == Val(Bool(false)))
            && (no == Val(Bool(false)) <==> a == Val(Bool(true)))
  {
  }
}
