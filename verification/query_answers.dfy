/** The rows of the plan of a query answer it. */
module QueryAnswers {
  import opened Options
  import opened Expressions
  import opened Plans
  import opened Binding
  import opened Binder
  import opened Comprehensions
  import opened QueryMeaning

  // ---- the tables of a query ----

  /** Table `k` goes by its alias if it has one, with the columns the catalog has for it. */
  lemma {:induction false} ContextAt(catalog: Catalog, from: TableRef, joins: seq<JoinClause>, k: nat)
    requires TablesExist(catalog, from, joins) && k <= |joins|
    ensures var context := ContextOf(catalog, from, joins);
            var table := if k == 0 then from else joins[k - 1].table;
            && |context| == |joins| + 1 && Contiguous(context)
            && context[k].name == (if table.alias.Some? then table.alias.value else table.name)
            && context[k].columns == catalog[table.name].columns
    decreases |joins|
  {
    hide ContextOf, Contiguous;
    if joins == [] {
      ContextStarts(catalog, from);
    } else {
      var n := |joins| - 1;
      ContextAt(catalog, from, joins[..n], if k <= n then k else n);
      ContextGrows(catalog, from, joins);
      LastTable(catalog, from, joins);
      var init, context := ContextOf(catalog, from, joins[..n]), ContextOf(catalog, from, joins);
      assert k <= n ==> context[k] == context[..|init|][k] == init[k];
    }
  }

  lemma LastTable(catalog: Catalog, from: TableRef, joins: seq<JoinClause>)
    requires TablesExist(catalog, from, joins) && joins != []
    ensures var context, table := ContextOf(catalog, from, joins), joins[|joins| - 1].table;
            && context != []
            && context[|context| - 1].name == (if table.alias.Some? then table.alias.value else table.name)
            && context[|context| - 1].columns == catalog[table.name].columns
  {
  }

  lemma ContextStarts(catalog: Catalog, from: TableRef)
    requires from.name in catalog
    ensures var context := ContextOf(catalog, from, []);
            && |context| == 1 && Contiguous(context)
            && context[0].name == (if from.alias.Some? then from.alias.value else from.name)
            && context[0].columns == catalog[from.name].columns
  {
    assert ContextOf(catalog, from, [])[..0] == [];
  }

  lemma ContextGrows(catalog: Catalog, from: TableRef, joins: seq<JoinClause>)
    requires TablesExist(catalog, from, joins) && joins != []
    requires Contiguous(ContextOf(catalog, from, joins[..|joins| - 1]))
    ensures var init, context := ContextOf(catalog, from, joins[..|joins| - 1]), ContextOf(catalog, from, joins);
            |context| == |init| + 1 && context[..|init|] == init && Contiguous(context)
  {
    var init, context := ContextOf(catalog, from, joins[..|joins| - 1]), ContextOf(catalog, from, joins);
    assert context[..|context| - 1] == init;
  }

  // ---- the combinations ----

  /** How often a combination is found: the product of how often its rows are. */
  ghost function Ways(tables: seq<seq<Record>>, c: Combination): nat {
    if |c| != |tables| then 0
    else if tables == [] then 1
    else
      var n := |tables| - 1;
      Ways(tables[..n], c[..n]) * multiset(tables[n])[c[n]]
  }

  lemma {:induction false} CombinationsCounted(tables: seq<seq<Record>>, c: Combination)
    ensures multiset(Combinations(tables))[c] == Ways(tables, c)
    decreases |tables|
  {
    hide Combinations, Extended, Each;
    CombinationsStep(tables);
    if tables != [] {
      var n := |tables| - 1;
      ExtensionsCounted(Combinations(tables[..n]), tables[n], c);
      if c != [] {
        CombinationsCounted(tables[..n], c[..|c| - 1]);
      }
    }
  }

  lemma CombinationsStep(tables: seq<seq<Record>>)
    ensures tables == [] ==> Combinations(tables) == [[]]
    ensures tables != [] ==> Combinations(tables)
                             == Each(Extended(tables[|tables| - 1]), Combinations(tables[..|tables| - 1]))
  {
  }

  lemma {:induction false} ExtensionsCounted(cs: seq<Combination>, rows: seq<Record>, c: Combination)
    ensures multiset(Each(Extended(rows), cs))[c] ==
              if c == [] then 0 else multiset(cs)[c[..|c| - 1]] * multiset(rows)[c[|c| - 1]]
  {
    hide Extended, Each;
    if cs == [] {
      EachOfNone(Extended(rows));
    } else {
      ExtensionCounted(cs[0], rows, c);
      ExtensionsCounted(cs[1..], rows, c);
      EachHead(Extended(rows), cs[0], cs[1..]);
      assert cs == [cs[0]] + cs[1..];
      if c != [] {
        HeadCounted(cs, c[..|c| - 1], multiset(rows)[c[|c| - 1]]);
      }
    }
  }

  lemma HeadCounted<A>(s: seq<A>, x: A, times: nat)
    requires s != []
    ensures multiset(s)[x] * times == (if s[0] == x then times else 0) + multiset(s[1..])[x] * times
  {
    assert s == [s[0]] + s[1..];
    assert (1 + multiset(s[1..])[x]) * times == times + multiset(s[1..])[x] * times;
  }

  lemma {:induction false} ExtensionCounted(c0: Combination, rows: seq<Record>, c: Combination)
    ensures multiset(Extended(rows)(c0))[c] ==
              if c == [] || c[..|c| - 1] != c0 then 0 else multiset(rows)[c[|c| - 1]]
  {
    if rows == [] {
      assert Extended(rows)(c0) == [];
    } else {
      ExtensionCounted(c0, rows[1..], c);
      ExtendedStep(rows, c0);
      assert rows == [rows[0]] + rows[1..];
      assert c != [] ==> c == c[..|c| - 1] + [c[|c| - 1]];
      assert (c0 + [rows[0]])[..|c0|] == c0;
      hide Extended;
    }
  }

  lemma ExtendedStep(rows: seq<Record>, c: Combination)
    requires rows != []
    ensures Extended(rows)(c) == [c + [rows[0]]] + Extended(rows[1..])(c)
  {
  }

  ghost predicate RowOfEach(tables: seq<seq<Record>>, c: Combination) {
    |c| == |tables| && forall k | 0 <= k < |c| :: c[k] in tables[k]
  }

  lemma RowOfEachStep(tables: seq<seq<Record>>, c: Combination)
    requires tables != [] && |c| == |tables|
    ensures RowOfEach(tables, c) <==>
              RowOfEach(tables[..|c| - 1], c[..|c| - 1]) && multiset(tables[|c| - 1])[c[|c| - 1]] > 0
  {
    var n := |c| - 1;
    assert c[n] in tables[n] <==> c[n] in multiset(tables[n]);
    assert forall k | 0 <= k < n :: c[..n][k] == c[k] && tables[..n][k] == tables[k];
  }

  /** One row of each table: that is what a combination is. */
  lemma CombinationsAre(tables: seq<seq<Record>>, c: Combination)
    ensures c in Combinations(tables) <==> RowOfEach(tables, c)
  {
    assert c in Combinations(tables) <==> c in multiset(Combinations(tables));
    CombinationsCounted(tables, c);
    WaysPositive(tables, c);
    hide *;
  }

  lemma {:induction false} WaysPositive(tables: seq<seq<Record>>, c: Combination)
    ensures Ways(tables, c) > 0 <==> RowOfEach(tables, c)
    decreases |tables|
  {
    if tables != [] && |c| == |tables| {
      var n := |tables| - 1;
      WaysPositive(tables[..n], c[..n]);
      RowOfEachStep(tables, c);
      ProductPositive(Ways(tables[..n], c[..n]), multiset(tables[n])[c[n]]);
      hide RowOfEach;
    }
  }

  lemma ProductPositive(a: nat, b: nat)
    ensures a * b > 0 <==> a > 0 && b > 0
  {
  }

  /** The rows of a combination have the columns of their tables. */
  lemma CombinationFits(catalog: Catalog, from: TableRef, joins: seq<JoinClause>, c: Combination)
    requires TablesExist(catalog, from, joins) && TablesWide(catalog, from, joins)
    requires c in Combinations(RowsOfTables(catalog, from, joins))
    ensures RowsOf(ContextOf(catalog, from, joins), c)
  {
    hide Combinations, ContextOf;
    CombinationsAre(RowsOfTables(catalog, from, joins), c);
    ContextAt(catalog, from, joins, 0);
    forall k | 0 <= k < |c| ensures |c[k]| == |ContextOf(catalog, from, joins)[k].columns| {
      ContextAt(catalog, from, joins, k);
      var table := TableAt(catalog, from, joins, k);
      var i :| 0 <= i < |table.rows| && table.rows[i] == c[k];
      assert AllWide(table.rows, |table.columns|);
    }
  }

  // ---- FROM and the joins ----

  ghost function JoinedIfMatching(catalog: Catalog, from: TableRef, joins: seq<JoinClause>): Combination -> seq<Record>
    requires TablesExist(catalog, from, joins)
  {
    (c: Combination) => if Matching(catalog, from, joins, c) then [Joined(c)] else []
  }

  /** The matching combinations as joined records. */
  ghost function Matches(catalog: Catalog, from: TableRef, joins: seq<JoinClause>): seq<Record>
    requires TablesExist(catalog, from, joins)
  {
    Each(JoinedIfMatching(catalog, from, joins), Combinations(RowsOfTables(catalog, from, joins)))
  }

  /** What a row of the left side contributes to a join. */
  function Pairing(pred: Expr, right: seq<Record>): Record -> seq<Record> {
    (l: Record) => Filtered(pred, Prefixed(l, right))
  }

  lemma {:induction false} CrossIsEach(pred: Expr, left: seq<Record>, right: seq<Record>)
    ensures Cross(pred, left, right) == Each(Pairing(pred, right), left)
  {
    if left != [] {
      CrossIsEach(pred, left[1..], right);
    }
  }

  lemma MatchingOn(catalog: Catalog, from: TableRef, joins: seq<JoinClause>, c: Combination, r: Record)
    requires TablesExist(catalog, from, joins) && joins != []
    ensures var init, last := joins[..|joins| - 1], joins[|joins| - 1];
            Matching(catalog, from, joins, c + [r]) <==>
              Matching(catalog, from, init, c) && TrueOf(last.on, ContextOf(catalog, from, joins), c + [r])
  {
    hide TrueOf, ContextOf;
    var n := |joins| - 1;
    var init, d := joins[..n], c + [r];
    if |c| == n + 1 {
      assert joins[..n + 1] == joins && d[..n + 2] == d;
      forall i: nat | i < n ensures OnTrue(catalog, from, joins, i, d) <==> OnTrue(catalog, from, init, i, c) {
        assert joins[..i + 1] == init[..i + 1] && d[..i + 2] == c[..i + 2];
      }
      assert OnTrue(catalog, from, joins, n, d) <==> TrueOf(joins[n].on, ContextOf(catalog, from, joins), d);
    }
  }

  lemma JoinedOn(c: Combination, r: Record)
    ensures Joined(c + [r]) == Joined(c) + r
  {
    assert (c + [r])[..|c|] == c;
  }

  /** On a combination that fits, the bound condition selects the joined record exactly if the condition is TRUE. */
  lemma BoundSelects(u: Unbound, context: Context, c: Combination)
    requires Contiguous(context) && RowsOf(context, c) && Denoting(u, context)
    ensures BindExpression(u, context).Ok?
    ensures IsTrue(BindExpression(u, context).value, Joined(c)) <==> TrueOf(u, context, c)
    ensures BooleanOn(u, context, c) <==> IsBoolean(BindExpression(u, context).value, Joined(c))
  {
    BoundMeansNamed(u, context, c);
    hide Contiguous, RowsOf, Denoting, EvalNamed, BindExpression, Eval, Joined, ColumnsBelow;
  }

  /** The rows of the last table beside one matching combination of the others. */
  lemma {:induction false} PairsMean(catalog: Catalog, from: TableRef, joins: seq<JoinClause>, c: Combination,
                                     rows: seq<Record>, pred: Expr)
    requires TablesExist(catalog, from, joins) && joins != []
    requires Matching(catalog, from, joins[..|joins| - 1], c)
    requires forall r | r in rows :: RowsOf(ContextOf(catalog, from, joins), c + [r])
    requires Denoting(joins[|joins| - 1].on, ContextOf(catalog, from, joins))
    requires BindExpression(joins[|joins| - 1].on, ContextOf(catalog, from, joins)) == Ok(pred)
    ensures Filtered(pred, Prefixed(Joined(c), rows)) == Each(JoinedIfMatching(catalog, from, joins), Extended(rows)(c))
  {
    hide Matching, RowsOf, ContextOf, Denoting, BindExpression, TrueOf, IsTrue, Joined;
    if rows == [] {
      EachOfNone(JoinedIfMatching(catalog, from, joins));
      assert Extended(rows)(c) == [];
    } else {
      var r, rest := rows[0], rows[1..];
      PairsMean(catalog, from, joins, c, rest, pred);
      ExtendedStep(rows, c);
      EachHead(JoinedIfMatching(catalog, from, joins), c + [r], Extended(rest)(c));
      PrefixedStep(Joined(c), rows);
      FilteredHead(pred, Joined(c) + r, Prefixed(Joined(c), rest));
      assert r in rows;
      PairMeans(catalog, from, joins, c, r, pred);
      hide Each, Filtered, Extended, Prefixed;
    }
  }

  lemma PrefixedStep(l: Record, rows: seq<Record>)
    requires rows != []
    ensures Prefixed(l, rows) == [l + rows[0]] + Prefixed(l, rows[1..])
  {
  }

  lemma FilteredHead(pred: Expr, row: Record, rows: seq<Record>)
    ensures Filtered(pred, [row] + rows) == (if IsTrue(pred, row) then [row] else []) + Filtered(pred, rows)
  {
    assert ([row] + rows)[1..] == rows;
  }

  lemma PairMeans(catalog: Catalog, from: TableRef, joins: seq<JoinClause>, c: Combination, r: Record, pred: Expr)
    requires TablesExist(catalog, from, joins) && joins != []
    requires Matching(catalog, from, joins[..|joins| - 1], c)
    requires RowsOf(ContextOf(catalog, from, joins), c + [r])
    requires Denoting(joins[|joins| - 1].on, ContextOf(catalog, from, joins))
    requires BindExpression(joins[|joins| - 1].on, ContextOf(catalog, from, joins)) == Ok(pred)
    ensures JoinedIfMatching(catalog, from, joins)(c + [r]) ==
              if IsTrue(pred, Joined(c) + r) then [Joined(c) + r] else []
  {
    hide Matching, RowsOf, ContextOf, Denoting, BindExpression, TrueOf, IsTrue, Joined, BooleanOn, IsBoolean;
    ContextAt(catalog, from, joins, 0);
    MatchingOn(catalog, from, joins, c, r);
    JoinedOn(c, r);
    BoundSelects(joins[|joins| - 1].on, ContextOf(catalog, from, joins), c + [r]);
  }

  lemma {:induction false} NoneMatch(catalog: Catalog, from: TableRef, joins: seq<JoinClause>, c: Combination,
                                     rows: seq<Record>)
    requires TablesExist(catalog, from, joins) && joins != []
    requires !Matching(catalog, from, joins[..|joins| - 1], c)
    ensures Each(JoinedIfMatching(catalog, from, joins), Extended(rows)(c)) == []
  {
    hide Matching, ContextOf, TrueOf;
    if rows == [] {
      EachOfNone(JoinedIfMatching(catalog, from, joins));
      assert Extended(rows)(c) == [];
    } else {
      NoneMatch(catalog, from, joins, c, rows[1..]);
      ExtendedStep(rows, c);
      EachHead(JoinedIfMatching(catalog, from, joins), c + [rows[0]], Extended(rows[1..])(c));
      MatchingOn(catalog, from, joins, c, rows[0]);
      hide Each, Extended;
    }
  }

  lemma RowsOfTablesStep(catalog: Catalog, from: TableRef, joins: seq<JoinClause>)
    requires TablesExist(catalog, from, joins)
    ensures var tables := RowsOfTables(catalog, from, joins);
            && |tables| == |joins| + 1
            && (joins == [] ==> tables == [catalog[from.name].rows])
            && (joins != [] ==>
                  && tables[..|joins|] == RowsOfTables(catalog, from, joins[..|joins| - 1])
                  && tables[|joins|] == catalog[joins[|joins| - 1].table.name].rows)
  {
  }

  /** One join of the matches so far with the next table gives the matches. */
  lemma JoinMeans(catalog: Catalog, from: TableRef, joins: seq<JoinClause>, pred: Expr)
    requires TablesExist(catalog, from, joins) && joins != [] && TablesWide(catalog, from, joins)
    requires Denoting(joins[|joins| - 1].on, ContextOf(catalog, from, joins))
    requires BindExpression(joins[|joins| - 1].on, ContextOf(catalog, from, joins)) == Ok(pred)
    ensures var init, rows := joins[..|joins| - 1], catalog[joins[|joins| - 1].table.name].rows;
            Cross(pred, Matches(catalog, from, init), rows) == Matches(catalog, from, joins)
  {
    hide Cross, Each, Combinations, Filtered, Prefixed, ContextOf, Denoting, BindExpression, TablesWide, Matching,
         Joined, RowsOfTables, Extended;
    var init, rows := joins[..|joins| - 1], catalog[joins[|joins| - 1].table.name].rows;
    var combos := Combinations(RowsOfTables(catalog, from, init));
    var f, g := JoinedIfMatching(catalog, from, init), JoinedIfMatching(catalog, from, joins);
    var h := (c: Combination) => Each(g, Extended(rows)(c));
    CrossIsEach(pred, Matches(catalog, from, init), rows);
    forall c | c in combos ensures Each(Pairing(pred, rows), f(c)) == h(c) {
      CombinationPairs(catalog, from, joins, c, pred);
    }
    EachOfEach(f, Pairing(pred, rows), h, combos);
    EachOfEach(Extended(rows), g, h, combos);
    RowsOfTablesStep(catalog, from, joins);
    CombinationsStep(RowsOfTables(catalog, from, joins));
  }

  lemma EachOfOne<A, B>(f: A -> seq<B>, x: A)
    ensures Each(f, [x]) == f(x)
  {
  }

  /** One combination of the tables before the last beside the rows of the last one. */
  lemma CombinationPairs(catalog: Catalog, from: TableRef, joins: seq<JoinClause>, c: Combination, pred: Expr)
    requires TablesExist(catalog, from, joins) && joins != [] && TablesWide(catalog, from, joins)
    requires c in Combinations(RowsOfTables(catalog, from, joins[..|joins| - 1]))
    requires Denoting(joins[|joins| - 1].on, ContextOf(catalog, from, joins))
    requires BindExpression(joins[|joins| - 1].on, ContextOf(catalog, from, joins)) == Ok(pred)
    ensures var init, rows := joins[..|joins| - 1], catalog[joins[|joins| - 1].table.name].rows;
            Each(Pairing(pred, rows), JoinedIfMatching(catalog, from, init)(c))
            == Each(JoinedIfMatching(catalog, from, joins), Extended(rows)(c))
  {
    hide Each, Combinations, Filtered, Prefixed, ContextOf, Denoting, BindExpression, TablesWide, Matching, Joined,
         RowsOfTables, Extended, RowsOf;
    var init, rows := joins[..|joins| - 1], catalog[joins[|joins| - 1].table.name].rows;
    if Matching(catalog, from, init, c) {
      EachOfOne(Pairing(pred, rows), Joined(c));
      forall r | r in rows ensures RowsOf(ContextOf(catalog, from, joins), c + [r]) {
        ExtensionFits(catalog, from, joins, c, r);
      }
      PairsMean(catalog, from, joins, c, rows, pred);
    } else {
      EachOfNone(Pairing(pred, rows));
      NoneMatch(catalog, from, joins, c, rows);
    }
  }

  lemma ExtensionFits(catalog: Catalog, from: TableRef, joins: seq<JoinClause>, c: Combination, r: Record)
    requires TablesExist(catalog, from, joins) && joins != [] && TablesWide(catalog, from, joins)
    requires c in Combinations(RowsOfTables(catalog, from, joins[..|joins| - 1]))
    requires r in catalog[joins[|joins| - 1].table.name].rows
    ensures c + [r] in Combinations(RowsOfTables(catalog, from, joins))
    ensures RowsOf(ContextOf(catalog, from, joins), c + [r])
  {
    hide Combinations, ContextOf, TablesWide, RowsOf, RowsOfTables;
    var tables := RowsOfTables(catalog, from, joins);
    RowsOfTablesStep(catalog, from, joins);
    CombinationsAre(tables[..|joins|], c);
    CombinationsAre(tables, c + [r]);
    CombinationFits(catalog, from, joins, c + [r]);
  }

  lemma {:induction false} SingleTable(catalog: Catalog, from: TableRef, rows: seq<Record>)
    requires TablesExist(catalog, from, [])
    ensures Each(JoinedIfMatching(catalog, from, []), Extended(rows)([])) == rows
  {
    var f := JoinedIfMatching(catalog, from, []);
    if rows == [] {
      assert Extended(rows)([]) == [];
    } else {
      var r := rows[0];
      SingleTable(catalog, from, rows[1..]);
      ExtendedStep(rows, []);
      EachHead(f, [] + [r], Extended(rows[1..])([]));
      JoinedOn([], r);
      assert Joined([]) + r == r;
      assert f([] + [r]) == [r];
    }
  }

  lemma ScanMeans(catalog: Catalog, from: TableRef)
    requires TablesExist(catalog, from, [])
    ensures Matches(catalog, from, []) == catalog[from.name].rows
  {
    hide Each, Combinations, Extended, Joined, Matching;
    var rows := catalog[from.name].rows;
    RowsOfTablesStep(catalog, from, []);
    assert [rows][..0] == [];
    CombinationsStep([rows]);
    CombinationsStep([]);
    EachOfOne(Extended(rows), []);
    SingleTable(catalog, from, rows);
  }

  /** What a join does to the rows of its left side, in whatever order they are. */
  lemma JoinPermuted(pred: Expr, left: seq<Record>, left': seq<Record>, right: seq<Record>)
    requires multiset(left) == multiset(left')
    ensures multiset(BlocksJoin(pred, left, right)) == multiset(Cross(pred, left', right))
  {
    hide *;
    BlocksAreCross(pred, left, right);
    CrossIsEach(pred, left, right);
    CrossIsEach(pred, left', right);
    EachPermuted(Pairing(pred, right), left, left');
  }

  lemma MatchesFrom(catalog: Catalog, from: TableRef, joins: seq<JoinClause>, l: Record) returns (c: Combination)
    requires TablesExist(catalog, from, joins) && l in Matches(catalog, from, joins)
    ensures c in Combinations(RowsOfTables(catalog, from, joins)) && Matching(catalog, from, joins, c) && l == Joined(c)
  {
    hide Each, Combinations, Matching, Joined, RowsOfTables;
    var f, combos := JoinedIfMatching(catalog, from, joins), Combinations(RowsOfTables(catalog, from, joins));
    EachYields(f, combos, l);
    c :| c in combos && l in f(c);
  }

  /** The ON of the last join is boolean on the pairs it sees. */
  lemma PairsAreBoolean(catalog: Catalog, from: TableRef, joins: seq<JoinClause>, pred: Expr, left: seq<Record>)
    requires TablesExist(catalog, from, joins) && joins != [] && TablesWide(catalog, from, joins)
    requires OnBoolean(catalog, from, joins)
    requires Denoting(joins[|joins| - 1].on, ContextOf(catalog, from, joins))
    requires BindExpression(joins[|joins| - 1].on, ContextOf(catalog, from, joins)) == Ok(pred)
    requires multiset(left) == multiset(Matches(catalog, from, joins[..|joins| - 1]))
    ensures PairsBoolean(pred, left, catalog[joins[|joins| - 1].table.name].rows)
  {
    var init, rows := joins[..|joins| - 1], catalog[joins[|joins| - 1].table.name].rows;
    forall i, j | 0 <= i < |left| && 0 <= j < |rows| ensures IsBoolean(pred, left[i] + rows[j]) {
      PairIsBoolean(catalog, from, joins, pred, left, left[i], rows[j]);
    }
    hide IsBoolean, Matches, TablesWide, OnBoolean, Denoting, BindExpression, ContextOf;
  }

  lemma PairIsBoolean(catalog: Catalog, from: TableRef, joins: seq<JoinClause>, pred: Expr, left: seq<Record>,
                      l: Record, r: Record)
    requires TablesExist(catalog, from, joins) && joins != [] && TablesWide(catalog, from, joins)
    requires OnBoolean(catalog, from, joins)
    requires Denoting(joins[|joins| - 1].on, ContextOf(catalog, from, joins))
    requires BindExpression(joins[|joins| - 1].on, ContextOf(catalog, from, joins)) == Ok(pred)
    requires multiset(left) == multiset(Matches(catalog, from, joins[..|joins| - 1]))
    requires l in left && r in catalog[joins[|joins| - 1].table.name].rows
    ensures IsBoolean(pred, l + r)
  {
    hide TablesWide, Matches, Denoting, BindExpression, ContextOf, Combinations, RowsOfTables, Matching, Joined,
         IsBoolean, IsTrue, TrueOf, BooleanOn, RowsOf, Contiguous;
    var init := joins[..|joins| - 1];
    assert l in multiset(left);
    var c := MatchesFrom(catalog, from, init, l);
    ExtensionFits(catalog, from, joins, c, r);
    assert (c + [r])[..|c|] == c;
    ContextAt(catalog, from, joins, 0);
    BoundSelects(joins[|joins| - 1].on, ContextOf(catalog, from, joins), c + [r]);
    JoinedOn(c, r);
  }

  lemma WideBefore(catalog: Catalog, from: TableRef, joins: seq<JoinClause>)
    requires TablesExist(catalog, from, joins) && joins != [] && TablesWide(catalog, from, joins)
    ensures TablesExist(catalog, from, joins[..|joins| - 1]) && TablesWide(catalog, from, joins[..|joins| - 1])
    ensures var table := catalog[joins[|joins| - 1].table.name]; AllWide(table.rows, |table.columns|)
  {
    hide AllWide;
    var n := |joins| - 1;
    forall k: nat | k <= n ensures TableAt(catalog, from, joins[..n], k) == TableAt(catalog, from, joins, k) {}
    assert TableAt(catalog, from, joins, n + 1) == catalog[joins[n].table.name];
  }

  lemma FirstWide(catalog: Catalog, from: TableRef, joins: seq<JoinClause>)
    requires TablesExist(catalog, from, joins) && TablesWide(catalog, from, joins)
    ensures AllWide(catalog[from.name].rows, |catalog[from.name].columns|)
  {
    assert TableAt(catalog, from, joins, 0) == catalog[from.name];
  }

  /** The plan for FROM and the joins runs, and its rows are the matching combinations. */
  lemma {:induction false} TablesMean(catalog: Catalog, from: TableRef, joins: seq<JoinClause>)
    requires TablesExist(catalog, from, joins) && JoinsDenote(catalog, from, joins)
    requires TablesWide(catalog, from, joins) && JoinsBoolean(catalog, from, joins)
    ensures BindTables(catalog, from, joins).Ok?
    ensures var b := BindTables(catalog, from, joins).value;
            && Consistent(b) && b.context == ContextOf(catalog, from, joins) && Sound(b.plan)
            && Runnable(Optimize(b.plan))
            && multiset(Denote(Optimize(b.plan))) == multiset(Matches(catalog, from, joins))
    decreases |joins|
  {
    hide Consistent, Denoting, ContextOf, Sound, Runnable, Optimize, Denote, Matches, TablesWide, BindTables, OnBoolean,
         AllWide;
    TablesBound(catalog, from, joins);
    if joins == [] {
      FirstWide(catalog, from, joins);
      ScanRuns(catalog, from);
      ScanMeans(catalog, from);
    } else {
      WideBefore(catalog, from, joins);
      TablesMean(catalog, from, joins[..|joins| - 1]);
      JoinRuns(catalog, from, joins);
    }
  }

  lemma ScanRuns(catalog: Catalog, from: TableRef)
    requires from.name in catalog
    requires AllWide(catalog[from.name].rows, |catalog[from.name].columns|)
    ensures BindTables(catalog, from, []).Ok?
    ensures var plan := BindTables(catalog, from, []).value.plan;
            Sound(plan) && Runnable(Optimize(plan)) && Denote(Optimize(plan)) == catalog[from.name].rows
  {
  }

  lemma JoinRuns(catalog: Catalog, from: TableRef, joins: seq<JoinClause>)
    requires TablesExist(catalog, from, joins) && joins != [] && TablesWide(catalog, from, joins)
    requires OnBoolean(catalog, from, joins) && Denoting(joins[|joins| - 1].on, ContextOf(catalog, from, joins))
    requires BindTables(catalog, from, joins).Ok? && BindTables(catalog, from, joins[..|joins| - 1]).Ok?
    requires BindTables(catalog, from, joins).value.context == ContextOf(catalog, from, joins)
    requires Consistent(BindTables(catalog, from, joins).value)
    requires var b := BindTables(catalog, from, joins[..|joins| - 1]).value;
             && Sound(b.plan) && Runnable(Optimize(b.plan))
             && multiset(Denote(Optimize(b.plan))) == multiset(Matches(catalog, from, joins[..|joins| - 1]))
    ensures var plan := BindTables(catalog, from, joins).value.plan;
            && Sound(plan) && Runnable(Optimize(plan))
            && multiset(Denote(Optimize(plan))) == multiset(Matches(catalog, from, joins))
  {
    hide Matches, TablesWide, OnBoolean, Denoting, ContextOf, Cross, BlocksJoin, AllWide, PairsBoolean, Contiguous,
         AllColumns, Columns, BindExpression, ColumnsBelow;
    var init, clause := joins[..|joins| - 1], joins[|joins| - 1];
    var b, b' := BindTables(catalog, from, init).value, BindTables(catalog, from, joins).value;
    var table := catalog[clause.table.name];
    var pred := JoinPlan(catalog, from, joins);
    WideBefore(catalog, from, joins);
    PairsAreBoolean(catalog, from, joins, pred, Denote(Optimize(b.plan)));
    JoinMeans(catalog, from, joins, pred);
    BoundRuns(b'.plan);
    JoinPermuted(pred, Denote(Optimize(b.plan)), Matches(catalog, from, init), table.rows);
  }

  lemma JoinPlan(catalog: Catalog, from: TableRef, joins: seq<JoinClause>) returns (pred: Expr)
    requires TablesExist(catalog, from, joins) && joins != []
    requires BindTables(catalog, from, joins).Ok? && BindTables(catalog, from, joins[..|joins| - 1]).Ok?
    ensures var b, b' := BindTables(catalog, from, joins[..|joins| - 1]).value, BindTables(catalog, from, joins).value;
            && BindExpression(joins[|joins| - 1].on, b'.context) == Ok(pred)
            && b'.plan == LogicalJoin(b.plan, LogicalScan(catalog[joins[|joins| - 1].table.name]), pred)
  {
    hide BindExpression, Columns;
    var b' := BindTables(catalog, from, joins).value;
    pred := b'.plan.pred;
  }

  // ---- WHERE, the columns asked for, and the limit ----

  ghost function JoinedIfWanted(catalog: Catalog, q: SelectQuery): Combination -> seq<Record>
    requires q.table.Some? && TablesExist(catalog, q.table.value, q.joins)
  {
    (c: Combination) => if Wanted(catalog, q, c) then [Joined(c)] else []
  }

  /** The combinations of the result as joined records. */
  ghost function WantedRows(catalog: Catalog, q: SelectQuery): seq<Record>
    requires q.table.Some? && TablesExist(catalog, q.table.value, q.joins)
  {
    Each(JoinedIfWanted(catalog, q), Combinations(RowsOfTables(catalog, q.table.value, q.joins)))
  }

  function Keeping(pred: Expr): Record -> seq<Record> {
    (row: Record) => if IsTrue(pred, row) then [row] else []
  }

  lemma {:induction false} FilteredIsEach(pred: Expr, rows: seq<Record>)
    ensures Filtered(pred, rows) == Each(Keeping(pred), rows)
  {
    if rows != [] {
      FilteredIsEach(pred, rows[1..]);
    }
  }

  lemma NoFilterMeans(catalog: Catalog, q: SelectQuery)
    requires q.table.Some? && TablesExist(catalog, q.table.value, q.joins) && q.filter.None?
    ensures WantedRows(catalog, q) == Matches(catalog, q.table.value, q.joins)
  {
    hide Each, Combinations, Matching, Joined;
    EachSame(JoinedIfWanted(catalog, q), JoinedIfMatching(catalog, q.table.value, q.joins),
             Combinations(RowsOfTables(catalog, q.table.value, q.joins)));
  }

  lemma FilterMeans(catalog: Catalog, q: SelectQuery, pred: Expr)
    requires q.table.Some? && TablesExist(catalog, q.table.value, q.joins) && q.filter.Some?
    requires TablesWide(catalog, q.table.value, q.joins)
    requires Denoting(q.filter.value, ContextOf(catalog, q.table.value, q.joins))
    requires BindExpression(q.filter.value, ContextOf(catalog, q.table.value, q.joins)) == Ok(pred)
    ensures Filtered(pred, Matches(catalog, q.table.value, q.joins)) == WantedRows(catalog, q)
  {
    hide Each, Combinations, Matching, Joined, RowsOfTables, ContextOf, TablesWide, Denoting, BindExpression, RowsOf,
         Contiguous, IsTrue, TrueOf, BooleanOn, IsBoolean, Filtered;
    var from, context := q.table.value, ContextOf(catalog, q.table.value, q.joins);
    var combos := Combinations(RowsOfTables(catalog, from, q.joins));
    var f, h := JoinedIfMatching(catalog, from, q.joins), JoinedIfWanted(catalog, q);
    FilteredIsEach(pred, Matches(catalog, from, q.joins));
    ContextAt(catalog, from, q.joins, 0);
    forall c | c in combos ensures Each(Keeping(pred), f(c)) == h(c) {
      CombinationFits(catalog, from, q.joins, c);
      BoundSelects(q.filter.value, context, c);
      EachOfNone(Keeping(pred));
      EachOfOne(Keeping(pred), Joined(c));
    }
    EachOfEach(f, Keeping(pred), h, combos);
  }

  lemma FilterPermuted(pred: Expr, rows: seq<Record>, rows': seq<Record>)
    requires multiset(rows) == multiset(rows')
    ensures multiset(Filtered(pred, rows)) == multiset(Filtered(pred, rows'))
  {
    hide *;
    FilteredIsEach(pred, rows);
    FilteredIsEach(pred, rows');
    EachPermuted(Keeping(pred), rows, rows');
  }

  /** WHERE is boolean on the rows it sees. */
  lemma RowsAreBoolean(catalog: Catalog, q: SelectQuery, pred: Expr, rows: seq<Record>)
    requires q.table.Some? && TablesExist(catalog, q.table.value, q.joins) && q.filter.Some?
    requires TablesWide(catalog, q.table.value, q.joins) && FilterBoolean(catalog, q)
    requires Denoting(q.filter.value, ContextOf(catalog, q.table.value, q.joins))
    requires BindExpression(q.filter.value, ContextOf(catalog, q.table.value, q.joins)) == Ok(pred)
    requires multiset(rows) == multiset(Matches(catalog, q.table.value, q.joins))
    ensures AllBoolean(pred, rows)
  {
    hide TablesWide, Matches, Denoting, BindExpression, ContextOf, Combinations, RowsOfTables, Matching, Joined,
         IsBoolean, IsTrue, TrueOf, BooleanOn, RowsOf, Contiguous;
    var from, context := q.table.value, ContextOf(catalog, q.table.value, q.joins);
    ContextAt(catalog, from, q.joins, 0);
    forall i | 0 <= i < |rows| ensures IsBoolean(pred, rows[i]) {
      assert rows[i] in multiset(rows);
      var c := MatchesFrom(catalog, from, q.joins, rows[i]);
      CombinationFits(catalog, from, q.joins, c);
      BoundSelects(q.filter.value, context, c);
    }
  }

  /** The plan up to WHERE runs, and its rows are the combinations wanted. */
  lemma FilterRuns(catalog: Catalog, q: SelectQuery)
    requires Bindable(catalog, q) && Executable(catalog, q)
    ensures BindTables(catalog, q.table.value, q.joins).Ok?
    ensures var b := BindTables(catalog, q.table.value, q.joins).value;
            && b.context == ContextOf(catalog, q.table.value, q.joins) && Contiguous(b.context)
            && AddFilter(b, q.filter).Ok?
            && var plan := AddFilter(b, q.filter).value;
               && Sound(plan) && Runnable(Optimize(plan)) && InRange(plan) && Columns(plan) == AllColumns(b.context)
               && multiset(Denote(Optimize(plan))) == multiset(WantedRows(catalog, q))
  {
    hide JoinsDenote, JoinsBoolean, FilterBoolean, TablesWide, Denoting, ContextOf, Matches, WantedRows, Contiguous,
         AllColumns, Columns, BindTables, BindExpression, ColumnsBelow, Filtered, AllBoolean, ProjectionDenotes;
    var from := q.table.value;
    TablesMean(catalog, from, q.joins);
    var b := BindTables(catalog, from, q.joins).value;
    FilterBound(b, q.filter);
    if q.filter.None? {
      NoFilterMeans(catalog, q);
    } else {
      var pred := BindExpression(q.filter.value, b.context).value;
      RowsAreBoolean(catalog, q, pred, Denote(Optimize(b.plan)));
      FilterMeans(catalog, q, pred);
      BoundRuns(LogicalFilter(b.plan, pred));
      FilterPermuted(pred, Denote(Optimize(b.plan)), Matches(catalog, from, q.joins));
    }
  }

  function Picking(columns: seq<nat>): Record -> seq<Record> {
    (row: Record) => if Fits(columns, row) then [Pick(columns, row)] else []
  }

  lemma {:induction false} ProjectedIsEach(columns: seq<nat>, rows: seq<Record>)
    requires forall i | 0 <= i < |rows| :: Fits(columns, rows[i])
    ensures Projected(columns, rows) == Each(Picking(columns), rows)
  {
    if rows != [] {
      ProjectedIsEach(columns, rows[1..]);
      assert Projected(columns, rows) == [Pick(columns, rows[0])] + Projected(columns, rows[1..]);
    }
  }

  lemma NoProjectionMeans(catalog: Catalog, q: SelectQuery)
    requires q.table.Some? && TablesExist(catalog, q.table.value, q.joins) && q.columns.None?
    ensures Results(catalog, q) == WantedRows(catalog, q)
  {
    hide Each, Combinations, Wanted, Joined;
    EachSame(OutputIfWanted(catalog, q), JoinedIfWanted(catalog, q),
             Combinations(RowsOfTables(catalog, q.table.value, q.joins)));
  }

  /** The column at the resolved position of a joined record has the value that the reference denotes. */
  lemma ResolvedValue(ref: ColumnRef, context: Context, c: Combination)
    requires Contiguous(context) && RowsOf(context, c) && Resolve(ref, context).Ok?
    ensures var i := Resolve(ref, context).value; i < |Joined(c)| && Joined(c)[i] == ValueOf(ref, context, c)
  {
    hide Resolve, Denotes, Contiguous, Joined, AllColumns;
    ColumnMeansNamed(ref, context, c);
    var k: nat, j: nat :| Denotes(ref, context, k, j);
    DenotesInTable(ref, context, k);
    assert Denotes(ref, context, k, j) && k < |c| && j < |c[k]|;
    forall k': nat, j': nat | Denotes(ref, context, k', j') && k' < |c| && j' < |c[k']|
      ensures c[k'][j'] == Joined(c)[Resolve(ref, context).value] {}
  }

  lemma DenotesInTable(ref: ColumnRef, context: Context, k: nat)
    ensures forall j: nat | Denotes(ref, context, k, j) :: k < |context|
  {
  }

  lemma {:induction false} AllAreResolved(refs: seq<ColumnRef>, context: Context)
    requires ResolveAll(refs, context).Ok?
    ensures var indices := ResolveAll(refs, context).value;
            |indices| == |refs| && forall i | 0 <= i < |refs| :: Resolve(refs[i], context) == Ok(indices[i])
    decreases |refs|
  {
    hide Resolve;
    if refs != [] {
      var n := |refs| - 1;
      AllAreResolved(refs[..n], context);
      assert forall i | 0 <= i < n :: refs[..n][i] == refs[i];
    }
  }

  /** Picking the resolved columns of a joined record gives the values asked for. */
  lemma PickMeans(catalog: Catalog, q: SelectQuery, indices: seq<nat>, c: Combination)
    requires q.table.Some? && TablesExist(catalog, q.table.value, q.joins) && q.columns.Some?
    requires ResolveAll(q.columns.value, ContextOf(catalog, q.table.value, q.joins)) == Ok(indices)
    requires Contiguous(ContextOf(catalog, q.table.value, q.joins))
    requires RowsOf(ContextOf(catalog, q.table.value, q.joins), c)
    ensures Fits(indices, Joined(c)) && Pick(indices, Joined(c)) == Output(catalog, q, c)
  {
    hide Resolve, ContextOf, Contiguous, Joined, RowsOf, ValueOf, ResolveAll;
    var refs, context := q.columns.value, ContextOf(catalog, q.table.value, q.joins);
    AllAreResolved(refs, context);
    forall i | 0 <= i < |refs|
      ensures indices[i] < |Joined(c)| && Joined(c)[indices[i]] == ValueOf(refs[i], context, c)
    {
      ResolvedValue(refs[i], context, c);
    }
  }

  lemma ProjectionMeans(catalog: Catalog, q: SelectQuery, indices: seq<nat>)
    requires q.table.Some? && TablesExist(catalog, q.table.value, q.joins) && q.columns.Some?
    requires TablesWide(catalog, q.table.value, q.joins)
    requires ResolveAll(q.columns.value, ContextOf(catalog, q.table.value, q.joins)) == Ok(indices)
    ensures Each(Picking(indices), WantedRows(catalog, q)) == Results(catalog, q)
  {
    hide Each, Combinations, Wanted, Joined, RowsOfTables, ContextOf, TablesWide, RowsOf, Contiguous, ResolveAll, Fits,
         Pick, Output;
    var from := q.table.value;
    var combos := Combinations(RowsOfTables(catalog, from, q.joins));
    var f, h := JoinedIfWanted(catalog, q), OutputIfWanted(catalog, q);
    ContextAt(catalog, from, q.joins, 0);
    forall c | c in combos ensures Each(Picking(indices), f(c)) == h(c) {
      CombinationFits(catalog, from, q.joins, c);
      PickMeans(catalog, q, indices, c);
      EachOfNone(Picking(indices));
      EachOfOne(Picking(indices), Joined(c));
    }
    EachOfEach(f, Picking(indices), h, combos);
  }

  lemma WideFits(columns: seq<nat>, rows: seq<Record>, w: nat)
    requires AllWide(rows, w) && forall i | 0 <= i < |columns| :: columns[i] < w
    ensures forall i | 0 <= i < |rows| :: Fits(columns, rows[i])
  {
  }

  /** The plan up to the projection runs, and its rows are those asked for. */
  lemma ProjectionRuns(catalog: Catalog, q: SelectQuery, plan: LogicalPlan, context: Context)
    requires Bindable(catalog, q) && TablesWide(catalog, q.table.value, q.joins)
    requires context == ContextOf(catalog, q.table.value, q.joins) && Contiguous(context)
    requires Sound(plan) && Runnable(Optimize(plan)) && InRange(plan) && Columns(plan) == AllColumns(context)
    requires multiset(Denote(Optimize(plan))) == multiset(WantedRows(catalog, q))
    ensures AddProjection(plan, context, q.columns).Ok?
    ensures var projected := AddProjection(plan, context, q.columns).value;
            && Sound(projected) && InRange(projected) && Runnable(Optimize(projected))
            && multiset(Denote(Optimize(projected))) == multiset(Results(catalog, q))
  {
    hide JoinsDenote, TablesWide, Denoting, ContextOf, WantedRows, Results, Contiguous, AllColumns, Columns, AllWide,
         ProjectionDenotes, Fits, Projected, ResolveAll;
    ProjectionBound(plan, context, q.columns);
    if q.columns.None? {
      NoProjectionMeans(catalog, q);
    } else {
      var indices := ResolveAll(q.columns.value, context).value;
      ProjectedRows(plan, indices, WantedRows(catalog, q));
      ProjectionMeans(catalog, q, indices);
    }
  }

  lemma ProjectedRows(plan: LogicalPlan, indices: seq<nat>, rows: seq<Record>)
    requires Sound(plan) && Runnable(Optimize(plan)) && InRange(LogicalProjection(plan, indices))
    requires multiset(Denote(Optimize(plan))) == multiset(rows)
    ensures var projected := LogicalProjection(plan, indices);
            && Sound(projected) && Runnable(Optimize(projected))
            && multiset(Denote(Optimize(projected))) == multiset(Each(Picking(indices), rows))
  {
    hide Columns, AllWide, Fits, Projected, Each, Picking;
    BoundRuns(plan);
    BoundRuns(LogicalProjection(plan, indices));
    WideFits(indices, Denote(Optimize(plan)), Width(Optimize(plan)));
    ProjectedIsEach(indices, Denote(Optimize(plan)));
    EachPermuted(Picking(indices), Denote(Optimize(plan)), rows);
  }

  /**
   * The plan of a query runs, and its rows answer the query: every ON, WHERE, the limit, and
   * the columns in their order are as the query says.
   */
  lemma QueryAnswered(catalog: Catalog, q: SelectQuery)
    requires Bindable(catalog, q) && Executable(catalog, q)
    ensures BindQuery(catalog, q).Ok? && Runnable(Optimize(BindQuery(catalog, q).value))
    ensures IsAnswer(catalog, q, Denote(Optimize(BindQuery(catalog, q).value)))
  {
    hide JoinsDenote, JoinsBoolean, FilterBoolean, TablesWide, Denoting, ContextOf, WantedRows, Results, Contiguous,
         AllColumns, Columns, BindTables, AddFilter, AddProjection, ProjectionDenotes, Sound, InRange, Take;
    FilterRuns(catalog, q);
    var b := BindTables(catalog, q.table.value, q.joins).value;
    var filtered := AddFilter(b, q.filter).value;
    ProjectionRuns(catalog, q, filtered, b.context);
    var projected := AddProjection(filtered, b.context, q.columns).value;
    var rows, all := Denote(Optimize(projected)), Results(catalog, q);
    assert |rows| == |multiset(rows)| == |multiset(all)| == |all|;
    if q.limit.Some? {
      TakeSome(rows, q.limit.value);
    }
  }
}
