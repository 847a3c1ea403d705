/** Lists made element by element. */
module Comprehensions {
  /** What `f` yields for each element in turn. */
  ghost function Each<A, B>(f: A -> seq<B>, s: seq<A>): seq<B> {
    if s == [] then [] else f(s[0]) + Each(f, s[1..])
  }

  lemma {:induction false} EachAppended<A, B>(f: A -> seq<B>, a: seq<A>, b: seq<A>)
    ensures Each(f, a + b) == Each(f, a) + Each(f, b)
  {
    if a == [] {
      assert a + b == b;
    } else {
      assert (a + b)[1..] == a[1..] + b;
      EachAppended(f, a[1..], b);
    }
  }

  /** One pass after another is one pass. */
  lemma {:induction false} EachOfEach<A, B, C>(f: A -> seq<B>, g: B -> seq<C>, h: A -> seq<C>, s: seq<A>)
    requires forall x | x in s :: Each(g, f(x)) == h(x)
    ensures Each(g, Each(f, s)) == Each(h, s)
  {
    if s != [] {
      EachOfEach(f, g, h, s[1..]);
      EachAppended(g, f(s[0]), Each(f, s[1..]));
      assert s[0] in s;
    }
  }

  lemma {:induction false} EachSame<A, B>(f: A -> seq<B>, g: A -> seq<B>, s: seq<A>)
    requires forall x | x in s :: f(x) == g(x)
    ensures Each(f, s) == Each(g, s)
  {
    if s != [] {
      assert s[0] in s;
      EachSame(f, g, s[1..]);
    }
  }

  /** The order of the elements only decides the order of what they yield. */
  lemma {:induction false} EachPermuted<A, B>(f: A -> seq<B>, a: seq<A>, b: seq<A>)
    requires multiset(a) == multiset(b)
    ensures multiset(Each(f, a)) == multiset(Each(f, b))
    decreases |a|
  {
    if a == [] {
      assert |multiset(b)| == 0;
    } else {
      var i := Occurrence(a, b);
      var x, y := b[..i], b[i + 1..];
      TakenOut(a, b, i);
      EachPermuted(f, a[1..], x + y);
      hide *;
      calc {
        multiset(Each(f, b));
      ==
        { assert b == x + ([b[i]] + y); EachAppended(f, x, [b[i]] + y); EachHead(f, b[i], y); }
        multiset(Each(f, x) + (f(b[i]) + Each(f, y)));
      ==
        multiset(f(b[i])) + multiset(Each(f, x) + Each(f, y));
      ==
        { EachAppended(f, x, y); }
        multiset(f(a[0])) + multiset(Each(f, a[1..]));
      ==
        { assert a == [a[0]] + a[1..]; EachHead(f, a[0], a[1..]); }
        multiset(Each(f, a));
      }
    }
  }

  lemma EachOfNone<A, B>(f: A -> seq<B>)
    ensures Each(f, []) == []
  {
  }

  lemma EachHead<A, B>(f: A -> seq<B>, x: A, s: seq<A>)
    ensures Each(f, [x] + s) == f(x) + Each(f, s)
  {
    assert ([x] + s)[1..] == s;
  }

  lemma Occurrence<A>(a: seq<A>, b: seq<A>) returns (i: nat)
    requires a != [] && multiset(a) == multiset(b)
    ensures i < |b| && b[i] == a[0]
  {
    assert a[0] in multiset(b);
    i :| i < |b| && b[i] == a[0];
  }

  lemma TakenOut<A>(a: seq<A>, b: seq<A>, i: nat)
    requires a != [] && i < |b| && b[i] == a[0] && multiset(a) == multiset(b)
    ensures multiset(b[..i] + b[i + 1..]) == multiset(a[1..])
  {
    assert a == [a[0]] + a[1..];
    assert b == b[..i] + ([b[i]] + b[i + 1..]);
    assert multiset(a) == multiset{a[0]} + multiset(a[1..]);
    assert multiset(b) == multiset{a[0]} + multiset(b[..i] + b[i + 1..]);
    assert multiset(b) - multiset{a[0]} == multiset(a) - multiset{a[0]};
    assert multiset(a[1..]) == multiset(a) - multiset{a[0]};
    assert multiset(b[..i] + b[i + 1..]) == multiset(b) - multiset{a[0]};
  }

  lemma {:induction false} EachYields<A, B>(f: A -> seq<B>, s: seq<A>, y: B)
    requires y in Each(f, s)
    ensures exists x | x in s :: y in f(x)
  {
    if y in f(s[0]) {
      assert s[0] in s;
    } else {
      EachYields(f, s[1..], y);
    }
  }
}

/**
 * What a query asks for, said without a plan: take one row of each table in every way, keep the
 * combinations for which all conditions are TRUE, and give the values of the columns asked for.
 */
module QueryMeaning {
  import opened Options
  import opened Expressions
  import opened Plans
  import opened Binding
  import opened Binder
  import opened Comprehensions

  /** A row of each table, FROM first. */
  type Combination = seq<Record>

  function TableAt(catalog: Catalog, from: TableRef, joins: seq<JoinClause>, k: nat): TableRows
    requires TablesExist(catalog, from, joins) && k <= |joins|
  {
    catalog[if k == 0 then from.name else joins[k - 1].table.name]
  }

  function RowsOfTables(catalog: Catalog, from: TableRef, joins: seq<JoinClause>): seq<seq<Record>>
    requires TablesExist(catalog, from, joins)
  {
    seq(|joins| + 1, k requires 0 <= k <= |joins| => TableAt(catalog, from, joins, k).rows)
  }

  function Extended(rows: seq<Record>): Combination -> seq<Combination> {
    (c: Combination) => seq(|rows|, i requires 0 <= i < |rows| => c + [rows[i]])
  }

  ghost function Combinations(tables: seq<seq<Record>>): seq<Combination> {
    if tables == [] then [[]] else Each(Extended(tables[|tables| - 1]), Combinations(tables[..|tables| - 1]))
  }

  /** The condition is TRUE of the rows. */
  ghost predicate TrueOf(u: Unbound, context: Context, c: Combination) {
    Denoting(u, context) && RowsOf(context, c) && EvalNamed(u, context, c) == Val(Bool(true))
  }

  /** The ON of join `i` is TRUE; it sees the tables up to its own. */
  ghost predicate OnTrue(catalog: Catalog, from: TableRef, joins: seq<JoinClause>, i: nat, c: Combination)
    requires TablesExist(catalog, from, joins) && i < |joins| && |c| == |joins| + 1
  {
    TrueOf(joins[i].on, ContextOf(catalog, from, joins[..i + 1]), c[..i + 2])
  }

  ghost predicate Matching(catalog: Catalog, from: TableRef, joins: seq<JoinClause>, c: Combination)
    requires TablesExist(catalog, from, joins)
  {
    |c| == |joins| + 1 && forall i: nat | i < |joins| :: OnTrue(catalog, from, joins, i, c)
  }

  ghost predicate Wanted(catalog: Catalog, q: SelectQuery, c: Combination)
    requires q.table.Some? && TablesExist(catalog, q.table.value, q.joins)
  {
    && Matching(catalog, q.table.value, q.joins, c)
    && (q.filter.Some? ==> TrueOf(q.filter.value, ContextOf(catalog, q.table.value, q.joins), c))
  }

  /** The value of the column that a reference denotes. */
  ghost function ValueOf(ref: ColumnRef, context: Context, c: Combination): Value {
    if exists k: nat, j: nat :: Denotes(ref, context, k, j) && k < |c| && j < |c[k]| then
      var k: nat, j: nat :| Denotes(ref, context, k, j) && k < |c| && j < |c[k]|;
      c[k][j]
    else Null(BoolType)
  }

  /** The columns asked for, in that order; or all of them, table by table. */
  ghost function Output(catalog: Catalog, q: SelectQuery, c: Combination): Record
    requires q.table.Some? && TablesExist(catalog, q.table.value, q.joins)
  {
    if q.columns.None? then Joined(c) else
      seq(|q.columns.value|, i requires 0 <= i < |q.columns.value| =>
        ValueOf(q.columns.value[i], ContextOf(catalog, q.table.value, q.joins), c))
  }

  ghost function OutputIfWanted(catalog: Catalog, q: SelectQuery): Combination -> seq<Record>
    requires q.table.Some? && TablesExist(catalog, q.table.value, q.joins)
  {
    (c: Combination) => if Wanted(catalog, q, c) then [Output(catalog, q, c)] else []
  }

  /** All the rows asked for, in some order. */
  ghost function Results(catalog: Catalog, q: SelectQuery): seq<Record>
    requires q.table.Some? && TablesExist(catalog, q.table.value, q.joins)
  {
    Each(OutputIfWanted(catalog, q), Combinations(RowsOfTables(catalog, q.table.value, q.joins)))
  }

  /** Each row as often as it should be; under a limit, that many of them or all if there are fewer. */
  ghost predicate IsAnswer(catalog: Catalog, q: SelectQuery, rows: seq<Record>)
    requires q.table.Some? && TablesExist(catalog, q.table.value, q.joins)
  {
    var all := Results(catalog, q);
    if q.limit.None? then multiset(rows) == multiset(all)
    else multiset(rows) <= multiset(all) && |rows| == if q.limit.value <= |all| then q.limit.value else |all|
  }

  // ---- which queries can be run ----

  ghost predicate TablesWide(catalog: Catalog, from: TableRef, joins: seq<JoinClause>)
    requires TablesExist(catalog, from, joins)
  {
    forall k: nat | k <= |joins| ::
      AllWide(TableAt(catalog, from, joins, k).rows, |TableAt(catalog, from, joins, k).columns|)
  }

  /** The condition is a boolean, possibly NULL, on the rows. */
  ghost predicate BooleanOn(u: Unbound, context: Context, c: Combination) {
    Denoting(u, context) && RowsOf(context, c) ==> Truth(EvalNamed(u, context, c))
  }

  /** The last ON is boolean on every combination that the ones before it let through. */
  ghost predicate OnBoolean(catalog: Catalog, from: TableRef, joins: seq<JoinClause>)
    requires TablesExist(catalog, from, joins) && joins != []
  {
    var n := |joins| - 1;
    forall c | c in Combinations(RowsOfTables(catalog, from, joins))
               && Matching(catalog, from, joins[..n], c[..if |c| == 0 then 0 else |c| - 1]) ::
      BooleanOn(joins[n].on, ContextOf(catalog, from, joins), c)
  }

  ghost predicate JoinsBoolean(catalog: Catalog, from: TableRef, joins: seq<JoinClause>)
    requires TablesExist(catalog, from, joins)
    decreases |joins|
  {
    joins == [] || (JoinsBoolean(catalog, from, joins[..|joins| - 1]) && OnBoolean(catalog, from, joins))
  }

  ghost predicate FilterBoolean(catalog: Catalog, q: SelectQuery)
    requires q.table.Some? && TablesExist(catalog, q.table.value, q.joins)
  {
    q.filter.Some? ==>
      forall c | c in Combinations(RowsOfTables(catalog, q.table.value, q.joins))
                 && Matching(catalog, q.table.value, q.joins, c) ::
        BooleanOn(q.filter.value, ContextOf(catalog, q.table.value, q.joins), c)
  }

  /** Table rows have their table's columns, and conditions are boolean where they are evaluated. */
  ghost predicate Executable(catalog: Catalog, q: SelectQuery) {
    Bindable(catalog, q) ==>
      && TablesWide(catalog, q.table.value, q.joins) && JoinsBoolean(catalog, q.table.value, q.joins)
      && FilterBoolean(catalog, q)
  }
}
