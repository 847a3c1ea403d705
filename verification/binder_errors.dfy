/** Which error a query that cannot be bound is rejected with: that of the first name that fails. */
module BindErrors {
  import opened Options
  import opened Expressions
  import opened Plans
  import opened Binding
  import opened Binder

  // ---- one column ----

  /** `m` is the first table from `k` on that the reference can mean, or the number of tables if there is none. */
  ghost predicate FirstMatch(ref: ColumnRef, context: Context, k: nat, m: nat) {
    && k <= m <= |context| && (forall i | k <= i < m :: !Matches(ref, context[i]))
    && (m < |context| ==> Matches(ref, context[m]))
  }

  ghost predicate FirstTwo(ref: ColumnRef, context: Context, m: nat, n: nat) {
    m < |context| && FirstMatch(ref, context, 0, m) && FirstMatch(ref, context, m + 1, n)
  }

  /**
   * Why a reference is not resolved. Among the tables it can mean, the first two decide: one
   * of them has no such column, the first before the second; or both have it.
   */
  ghost predicate RefError(ref: ColumnRef, context: Context, e: BindError) {
    match e
    case NeedsQualifier => ref.qualifier.None? && |context| > 1
    case NotInFrom(table) => ref.qualifier == Some(table) && forall b | b in context :: b.name != table
    case UnknownColumn(column) => ref.qualifier.None? && context == [] && column == ref.name
    case NoSuchColumn(table, column) =>
      && (ref.qualifier.Some? || |context| <= 1) && column == ref.name
      && exists m: nat, n: nat :: FirstTwo(ref, context, m, n)
           && var at := if ref.name in context[m].columns then n else m;
              at < |context| && ref.name !in context[at].columns && context[at].name == table
    case Ambiguous(column) =>
      && (ref.qualifier.Some? || |context| <= 1) && column == ref.name
      && exists m: nat, n: nat :: FirstTwo(ref, context, m, n)
           && n < |context| && ref.name in context[m].columns && ref.name in context[n].columns
    case _ => false
  }

  lemma {:induction false} FindMatch(ref: ColumnRef, context: Context, k: nat) returns (m: nat)
    requires k <= |context|
    ensures FirstMatch(ref, context, k, m)
    decreases |context| - k
  {
    if k < |context| && !Matches(ref, context[k]) {
      m := FindMatch(ref, context, k + 1);
    } else {
      m := k;
    }
  }

  lemma {:induction false} SearchSkips(ref: ColumnRef, context: Context, k: nat, m: nat, found: Option<nat>)
    requires FirstMatch(ref, context, k, m)
    ensures Search(ref, context, k, found) == Search(ref, context, m, found)
    decreases m - k
  {
    if k < m {
      SearchSkips(ref, context, k + 1, m, found);
    }
  }

  lemma MatchUnique(ref: ColumnRef, context: Context, k: nat, m: nat, m': nat)
    requires FirstMatch(ref, context, k, m) && FirstMatch(ref, context, k, m')
    ensures m == m'
  {
  }

  /** A reference that is not resolved is rejected for the reason there is. */
  lemma ResolveErrs(ref: ColumnRef, context: Context, e: BindError)
    ensures Resolve(ref, context) == Err(e) <==> RefError(ref, context, e)
  {
    hide Matches, FirstMatch, Search;
    if ref.qualifier.Some? || |context| <= 1 {
      var m := FindMatch(ref, context, 0);
      if m == |context| {
        NothingMatches(ref, context, e);
      } else {
        var n := TwoMatches(ref, context, m);
        forall m': nat, n': nat | FirstTwo(ref, context, m', n') ensures m' == m && n' == n {
          MatchUnique(ref, context, 0, m, m');
          MatchUnique(ref, context, m + 1, n, n');
        }
        assert FirstTwo(ref, context, m, n);
        SomethingMatches(ref, context, m);
      }
    }
  }

  lemma SomethingMatches(ref: ColumnRef, context: Context, m: nat)
    requires FirstMatch(ref, context, 0, m) && m < |context|
    ensures context != [] && (ref.qualifier.Some? ==> exists b | b in context :: b.name == ref.qualifier.value)
  {
    assert context[m] in context;
  }

  lemma NothingMatches(ref: ColumnRef, context: Context, e: BindError)
    requires (ref.qualifier.Some? || |context| <= 1) && FirstMatch(ref, context, 0, |context|)
    ensures Resolve(ref, context) == Err(e) <==> RefError(ref, context, e)
  {
    hide Search;
    SearchSkips(ref, context, 0, |context|, None);
    SearchEnds(ref, context, None);
    forall m: nat, n: nat ensures !FirstTwo(ref, context, m, n) {
      if FirstMatch(ref, context, 0, m) {
        MatchUnique(ref, context, 0, |context|, m);
      }
    }
    assert context != [] ==> !Matches(ref, context[0]);
    if ref.qualifier.Some? {
      forall b | b in context ensures b.name != ref.qualifier.value {
        var i :| 0 <= i < |context| && context[i] == b;
      }
    }
  }

  lemma SearchEnds(ref: ColumnRef, context: Context, found: Option<nat>)
    ensures Search(ref, context, |context|, found) ==
              if found.Some? then Ok(found.value)
              else if ref.qualifier.Some? then Err(NotInFrom(ref.qualifier.value)) else Err(UnknownColumn(ref.name))
  {
  }

  /** The first table that matches, and the next one, decide. */
  lemma TwoMatches(ref: ColumnRef, context: Context, m: nat) returns (n: nat)
    requires (ref.qualifier.Some? || |context| <= 1) && FirstMatch(ref, context, 0, m) && m < |context|
    ensures FirstMatch(ref, context, m + 1, n) && n <= |context|
    ensures if ref.name !in context[m].columns
            then Resolve(ref, context) == Err(NoSuchColumn(context[m].name, ref.name))
            else if n == |context| then Resolve(ref, context).Ok?
            else if ref.name !in context[n].columns
            then Resolve(ref, context) == Err(NoSuchColumn(context[n].name, ref.name))
            else Resolve(ref, context) == Err(Ambiguous(ref.name))
  {
    hide FirstIndex;
    n := FindMatch(ref, context, m + 1);
    SearchSkips(ref, context, 0, m, None);
    FirstIndexFinds(context[m].columns, ref.name);
    if ref.name in context[m].columns {
      var at := Some(context[m].offset + FirstIndex(context[m].columns, ref.name).value);
      SearchSkips(ref, context, m + 1, n, at);
      SearchEnds(ref, context, at);
      if n < |context| {
        FirstIndexFinds(context[n].columns, ref.name);
      }
    }
  }

  // ---- expressions ----

  /** The names and null pointers of an expression, from left to right. */
  function Leaves(u: Unbound): seq<Unbound> {
    match u
    case Missing => [u]
    case Named(_) => [u]
    case Literal(_) => []
    case Compared(l, _, r) => Leaves(l) + Leaves(r)
    case Combined(l, _, r) => Leaves(l) + Leaves(r)
    case Negated(x) => Leaves(x)
  }

  ghost predicate AllDenote(leaves: seq<Unbound>, context: Context) {
    forall i | 0 <= i < |leaves| :: Denoting(leaves[i], context)
  }

  ghost predicate LeafError(leaf: Unbound, context: Context, e: BindError) {
    (leaf.Missing? && e == NullExpression) || (leaf.Named? && RefError(leaf.ref, context, e))
  }

  /** `e` is the error of the first leaf that fails. */
  ghost predicate FirstError(leaves: seq<Unbound>, context: Context, e: BindError) {
    exists i | 0 <= i < |leaves| :: LeafError(leaves[i], context, e) && AllDenote(leaves[..i], context)
  }

  lemma DenoteIn(a: seq<Unbound>, b: seq<Unbound>, context: Context)
    ensures AllDenote(a + b, context) <==> AllDenote(a, context) && AllDenote(b, context)
  {
    hide Denoting;
    var s := a + b;
    if AllDenote(s, context) {
      forall i | 0 <= i < |a| ensures Denoting(a[i], context) { assert s[i] == a[i]; }
      forall i | 0 <= i < |b| ensures Denoting(b[i], context) { assert s[|a| + i] == b[i]; }
    }
  }

  /** The first error of a list is in its first part, or all is well there. */
  lemma FirstErrorIn(a: seq<Unbound>, b: seq<Unbound>, context: Context, e: BindError)
    ensures FirstError(a + b, context, e) <==>
              FirstError(a, context, e) || (AllDenote(a, context) && FirstError(b, context, e))
  {
    hide AllDenote, LeafError;
    var s := a + b;
    if FirstError(a, context, e) {
      var i :| 0 <= i < |a| && LeafError(a[i], context, e) && AllDenote(a[..i], context);
      assert s[i] == a[i] && s[..i] == a[..i];
    }
    if AllDenote(a, context) && FirstError(b, context, e) {
      var i :| 0 <= i < |b| && LeafError(b[i], context, e) && AllDenote(b[..i], context);
      DenoteIn(a, b[..i], context);
      assert s[|a| + i] == b[i] && s[..|a| + i] == a + b[..i];
    }
    if FirstError(s, context, e) {
      var i :| 0 <= i < |s| && LeafError(s[i], context, e) && AllDenote(s[..i], context);
      if i < |a| {
        assert s[i] == a[i] && s[..i] == a[..i];
      } else {
        assert s[..i] == a + b[..i - |a|];
        DenoteIn(a, b[..i - |a|], context);
      }
    }
  }

  /** An expression is bound exactly when all its leaves denote, and else fails as the first that does not. */
  lemma {:induction false} ExpressionErrs(u: Unbound, context: Context, e: BindError)
    ensures AllDenote(Leaves(u), context) <==> Denoting(u, context)
    ensures BindExpression(u, context).Ok? <==> Denoting(u, context)
    ensures BindExpression(u, context) == Err(e) <==> FirstError(Leaves(u), context, e)
  {
    hide Resolve, Denotes, RefError, AllDenote, FirstError;
    match u
    case Missing => LeafErrs(u, context, e);
    case Named(ref) =>
      LeafErrs(u, context, e);
      ResolveErrs(ref, context, e);
      ResolveFinds(ref, context);
    case Literal(_) => NoLeafErrs(context, e);
    case Compared(l, _, r) =>
      ExpressionErrs(l, context, e);
      ExpressionErrs(r, context, e);
      DenoteIn(Leaves(l), Leaves(r), context);
      FirstErrorIn(Leaves(l), Leaves(r), context, e);
    case Combined(l, _, r) =>
      ExpressionErrs(l, context, e);
      ExpressionErrs(r, context, e);
      DenoteIn(Leaves(l), Leaves(r), context);
      FirstErrorIn(Leaves(l), Leaves(r), context, e);
    case Negated(x) => ExpressionErrs(x, context, e);
  }

  lemma LeafErrs(u: Unbound, context: Context, e: BindError)
    requires u.Missing? || u.Named?
    ensures AllDenote([u], context) <==> Denoting(u, context)
    ensures FirstError([u], context, e) <==> LeafError(u, context, e)
  {
    assert [u][0] == u && [u][..0] == [];
    hide Denoting, LeafError;
  }

  lemma NoLeafErrs(context: Context, e: BindError)
    ensures AllDenote([], context) && !FirstError([], context, e)
  {
  }

  // ---- tables and joins ----

  /** Everything before join `i` is in order, and its table is missing or its ON fails. */
  ghost predicate JoinError(catalog: Catalog, from: TableRef, joins: seq<JoinClause>, i: nat, e: BindError)
    requires i < |joins|
  {
    && TablesExist(catalog, from, joins[..i]) && JoinsDenote(catalog, from, joins[..i])
    && if joins[i].table.name !in catalog then e == NoSuchTable(joins[i].table.name)
       else FirstError(Leaves(joins[i].on), ContextOf(catalog, from, joins[..i + 1]), e)
  }

  ghost predicate TablesError(catalog: Catalog, from: TableRef, joins: seq<JoinClause>, e: BindError) {
    || (from.name !in catalog && e == NoSuchTable(from.name))
    || exists i: nat | i < |joins| :: JoinError(catalog, from, joins, i, e)
  }

  lemma {:induction false} TablesErr(catalog: Catalog, from: TableRef, joins: seq<JoinClause>, e: BindError)
    ensures BindTables(catalog, from, joins) == Err(e) <==> TablesError(catalog, from, joins, e)
    decreases |joins|
  {
    hide JoinError, AddJoin;
    if joins != [] {
      var n := |joins| - 1;
      TablesErr(catalog, from, joins[..n], e);
      forall i: nat | i < n ensures JoinError(catalog, from, joins, i, e) <==>
          JoinError(catalog, from, joins[..n], i, e) {
        JoinErrorBefore(catalog, from, joins, i, e);
      }
      LastJoinErrs(catalog, from, joins, e);
    }
  }

  lemma JoinErrorBefore(catalog: Catalog, from: TableRef, joins: seq<JoinClause>, i: nat, e: BindError)
    requires i < |joins| - 1
    ensures JoinError(catalog, from, joins, i, e) <==> JoinError(catalog, from, joins[..|joins| - 1], i, e)
  {
    var init := joins[..|joins| - 1];
    assert joins[..i] == init[..i] && joins[..i + 1] == init[..i + 1];
    hide JoinsDenote, ContextOf, FirstError;
  }

  lemma LastJoinErrs(catalog: Catalog, from: TableRef, joins: seq<JoinClause>, e: BindError)
    requires joins != []
    ensures var n := |joins| - 1;
            JoinError(catalog, from, joins, n, e) <==>
              && BindTables(catalog, from, joins[..n]).Ok?
              && AddJoin(catalog, BindTables(catalog, from, joins[..n]).value, joins[n]) == Err(e)
  {
    hide JoinsDenote, FirstError, BindExpression, Contiguous, BindTables;
    var n := |joins| - 1;
    assert joins[..n + 1] == joins;
    TablesBound(catalog, from, joins[..n]);
    if BindTables(catalog, from, joins[..n]).Ok? && joins[n].table.name in catalog {
      ExpressionErrs(joins[n].on, ContextOf(catalog, from, joins), e);
    }
  }

  // ---- the rest of the query ----

  /** The first of the columns asked for that denotes none, and why. */
  ghost predicate ColumnsError(refs: seq<ColumnRef>, context: Context, e: BindError) {
    if refs == [] then e == NoColumns
    else exists i: nat | i < |refs| :: RefError(refs[i], context, e) && EarlierDenote(refs, context, i)
  }

  ghost predicate EarlierDenote(refs: seq<ColumnRef>, context: Context, i: nat)
    requires i <= |refs|
  {
    forall j | 0 <= j < i :: Denoting(Named(refs[j]), context)
  }

  lemma {:induction false} ResolveAllErrs(refs: seq<ColumnRef>, context: Context, e: BindError)
    ensures ResolveAll(refs, context).Ok? <==> EarlierDenote(refs, context, |refs|)
    ensures ResolveAll(refs, context) == Err(e) <==>
              exists i: nat | i < |refs| :: RefError(refs[i], context, e) && EarlierDenote(refs, context, i)
    decreases |refs|
  {
    hide Resolve, RefError, Denotes;
    if refs != [] {
      var n := |refs| - 1;
      ResolveAllErrs(refs[..n], context, e);
      ResolveErrs(refs[n], context, e);
      ResolveFinds(refs[n], context);
      assert Denoting(Named(refs[n]), context) <==> Resolve(refs[n], context).Ok?;
      hide Denoting;
      assert forall i | 0 <= i < n :: refs[..n][i] == refs[i];
      forall i: nat | i <= n ensures EarlierDenote(refs[..n], context, i) <==> EarlierDenote(refs, context, i) {}
      hide EarlierDenote;
      assert EarlierDenote(refs[..n], context, n) <==> EarlierDenote(refs, context, n);
    }
  }

  /** Why a query cannot be bound: the first fault, in the order FROM, joins, WHERE, columns. */
  ghost predicate QueryError(catalog: Catalog, q: SelectQuery, e: BindError) {
    if q.table.None? then e == NoFromTable
    else if !(TablesExist(catalog, q.table.value, q.joins) && JoinsDenote(catalog, q.table.value, q.joins))
    then TablesError(catalog, q.table.value, q.joins, e)
    else
      var context := ContextOf(catalog, q.table.value, q.joins);
      if q.filter.Some? && !Denoting(q.filter.value, context) then FirstError(Leaves(q.filter.value), context, e)
      else q.columns.Some? && ColumnsError(q.columns.value, context, e)
  }

  /** The error that a query is rejected with is the first there is. */
  lemma ErrorReported(catalog: Catalog, q: SelectQuery, e: BindError)
    ensures BindQuery(catalog, q) == Err(e) <==> QueryError(catalog, q, e)
  {
    hide JoinsDenote, FirstError, BindExpression, Contiguous, BindTables, ContextOf, Denoting, TablesError, ResolveAll,
         RefError, EarlierDenote, TablesExist;
    if q.table.Some? {
      TablesErr(catalog, q.table.value, q.joins, e);
      TablesBound(catalog, q.table.value, q.joins);
      var tables := BindTables(catalog, q.table.value, q.joins);
      if tables.Ok? {
        if q.filter.Some? {
          ExpressionErrs(q.filter.value, tables.value.context, e);
        }
        if q.columns.Some? {
          ResolveAllErrs(q.columns.value, tables.value.context, e);
        }
      }
    }
  }
}
