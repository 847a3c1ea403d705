/** From a query with names to a logical plan with column positions. */
module Binding {
  import opened Options
  import opened Expressions
  import opened Plans

  datatype ColumnRef = ColumnRef(qualifier: Option<string>, name: string)

  datatype TableRef = TableRef(name: string, alias: Option<string>)

  /** An expression as the user writes it; `Missing` stands for a null pointer. */
  datatype Unbound =
    | Missing
    | Named(ref: ColumnRef)
    | Literal(value: Value)
    | Compared(left: Unbound, op: CompareOp, right: Unbound)
    | Combined(left: Unbound, logical: BinaryOp, right: Unbound)
    | Negated(operand: Unbound)

  datatype JoinClause = JoinClause(table: TableRef, on: Unbound)

  datatype SelectQuery = SelectQuery(columns: Option<seq<ColumnRef>>, table: Option<TableRef>, joins: seq<JoinClause>,
                                     filter: Option<Unbound>, limit: Option<nat>)

  type Catalog = map<string, TableRows>

  datatype BindError =
    | NoFromTable
    | NoSuchTable(table: string)
    | NullExpression
    | NeedsQualifier
    | NoSuchColumn(table: string, column: string)
    | Ambiguous(column: string)
    | NotInFrom(table: string)
    | UnknownColumn(column: string)
    | NoColumns

  datatype Result<+T> = Ok(value: T) | Err(error: BindError)

  /** A table of the query under the name it goes by, and where its columns start. */
  datatype TableBinding = TableBinding(name: string, columns: seq<string>, offset: nat)

  type Context = seq<TableBinding>

  // ---- one column ----

  function FirstIndex(columns: seq<string>, name: string): Option<nat> {
    if columns == [] then None
    else if columns[0] == name then Some(0)
    else match FirstIndex(columns[1..], name)
         case None => None
         case Some(i) => Some(i + 1)
  }

  predicate Matches(ref: ColumnRef, b: TableBinding) {
    ref.qualifier.None? || ref.qualifier.value == b.name
  }

  /** Table `k` is the only one the reference can mean, and `j` the first of its columns of that name. */
  predicate Denotes(ref: ColumnRef, context: Context, k: nat, j: nat) {
    && (ref.qualifier.Some? || |context| <= 1)
    && k < |context| && Matches(ref, context[k])
    && (forall i | 0 <= i < |context| && i != k :: !Matches(ref, context[i]))
    && FirstIndex(context[k].columns, ref.name) == Some(j)
  }

  lemma {:induction false} FirstIndexFinds(columns: seq<string>, name: string)
    ensures match FirstIndex(columns, name)
            case None => name !in columns
            case Some(j) => j < |columns| && columns[j] == name && name !in columns[..j]
  {
    if columns != [] && columns[0] != name {
      FirstIndexFinds(columns[1..], name);
      var r := FirstIndex(columns[1..], name);
      if r.Some? {
        assert columns[..r.value + 1] == [columns[0]] + columns[1..][..r.value];
      } else {
        assert columns == [columns[0]] + columns[1..];
      }
    }
  }

  /** The loop over the tables, from table `k` on, with the position found so far. */
  function Search(ref: ColumnRef, context: Context, k: nat, found: Option<nat>): Result<nat>
    requires k <= |context|
    decreases |context| - k
  {
    if k == |context| then
      if found.Some? then Ok(found.value)
      else if ref.qualifier.Some? then Err(NotInFrom(ref.qualifier.value)) else Err(UnknownColumn(ref.name))
    else if !Matches(ref, context[k]) then Search(ref, context, k + 1, found)
    else
      match FirstIndex(context[k].columns, ref.name)
      case None => Err(NoSuchColumn(context[k].name, ref.name))
      case Some(j) =>
        if found.Some? then Err(Ambiguous(ref.name)) else Search(ref, context, k + 1, Some(context[k].offset + j))
  }

  function Resolve(ref: ColumnRef, context: Context): Result<nat> {
    if ref.qualifier.None? && |context| > 1 then Err(NeedsQualifier) else Search(ref, context, 0, None)
  }

  lemma {:induction false} SearchOn(ref: ColumnRef, context: Context, k: nat, at: nat)
    requires k <= |context|
    ensures Search(ref, context, k, Some(at)).Ok? <==> forall i | k <= i < |context| :: !Matches(ref, context[i])
    ensures Search(ref, context, k, Some(at)).Ok? ==> Search(ref, context, k, Some(at)).value == at
    decreases |context| - k
  {
    hide FirstIndex, Matches;
    if k < |context| && !Matches(ref, context[k]) {
      SearchOn(ref, context, k + 1, at);
    }
  }

  lemma {:induction false} SearchFinds(ref: ColumnRef, context: Context, k: nat)
    requires k <= |context| && forall i | 0 <= i < k :: !Matches(ref, context[i])
    requires ref.qualifier.Some? || |context| <= 1
    ensures Search(ref, context, k, None).Ok? <==> exists m: nat, j: nat :: Denotes(ref, context, m, j)
    ensures forall m: nat, j: nat | Denotes(ref, context, m, j) ::
              Search(ref, context, k, None) == Ok(context[m].offset + j)
    decreases |context| - k
  {
    hide FirstIndex, Matches;
    if k < |context| {
      if !Matches(ref, context[k]) {
        SearchFinds(ref, context, k + 1);
      } else {
        forall m: nat, j: nat | Denotes(ref, context, m, j) ensures m == k {}
      }
      if Matches(ref, context[k]) && FirstIndex(context[k].columns, ref.name).Some? {
        var j := FirstIndex(context[k].columns, ref.name).value;
        SearchOn(ref, context, k + 1, context[k].offset + j);
        if Search(ref, context, k, None).Ok? {
          assert Denotes(ref, context, k, j);
        }
      }
    }
  }

  /** A reference is resolved exactly when it denotes one column of one table, and then to that column. */
  lemma ResolveFinds(ref: ColumnRef, context: Context)
    ensures Resolve(ref, context).Ok? <==> exists k: nat, j: nat :: Denotes(ref, context, k, j)
    ensures forall k: nat, j: nat | Denotes(ref, context, k, j) :: Resolve(ref, context) == Ok(context[k].offset + j)
  {
    hide FirstIndex, Matches;
    if ref.qualifier.Some? || |context| <= 1 {
      SearchFinds(ref, context, 0);
    }
  }

  /** What denoting comes to: one table of that name or the only table, and its first column of that name. */
  lemma DenotesMeans(ref: ColumnRef, context: Context, k: nat, j: nat)
    ensures Denotes(ref, context, k, j) <==>
              && k < |context|
              && (if ref.qualifier.None? then |context| == 1
                  else forall i | 0 <= i < |context| :: context[i].name == ref.qualifier.value <==> i == k)
              && j < |context[k].columns| && context[k].columns[j] == ref.name
              && ref.name !in context[k].columns[..j]
  {
    if k < |context| {
      FirstIndexFinds(context[k].columns, ref.name);
      if j < |context[k].columns| && context[k].columns[j] == ref.name && ref.name !in context[k].columns[..j] {
        NotBefore(context[k].columns, ref.name, j);
        NotBefore(context[k].columns, ref.name, FirstIndex(context[k].columns, ref.name).value);
      }
    }
    hide FirstIndex;
  }

  lemma NotBefore(columns: seq<string>, name: string, j: nat)
    requires j <= |columns| && name !in columns[..j]
    ensures forall i | 0 <= i < j :: columns[i] != name
  {
    assert forall i | 0 <= i < j :: columns[..j][i] == columns[i];
  }

  method ColumnIndex(columns: seq<string>, name: string) returns (r: Option<nat>)
    ensures r == FirstIndex(columns, name)
  {
    for i := 0 to |columns|
      invariant match FirstIndex(columns[i..], name)
                case None => FirstIndex(columns, name) == None
                case Some(j) => FirstIndex(columns, name) == Some(i + j)
    {
      assert columns[i..][1..] == columns[i + 1..];
      if columns[i] == name {
        return Some(i);
      }
    }
    r := None;
  }

  method ResolveColumn(ref: ColumnRef, context: Context) returns (r: Result<nat>)
    ensures r == Resolve(ref, context)
  {
    if ref.qualifier.None? && |context| > 1 {
      return Err(NeedsQualifier);
    }
    var found: nat, matches: nat := 0, 0;
    for k := 0 to |context|
      invariant Resolve(ref, context) == Search(ref, context, k, if matches > 0 then Some(found) else None)
    {
      if ref.qualifier.Some? && ref.qualifier.value != context[k].name {
        continue;
      }
      var index := ColumnIndex(context[k].columns, ref.name);
      if index.None? {
        return Err(NoSuchColumn(context[k].name, ref.name));
      }
      if matches > 0 {
        return Err(Ambiguous(ref.name));
      }
      found := context[k].offset + index.value;
      matches := matches + 1;
    }
    if matches == 0 {
      if ref.qualifier.Some? {
        return Err(NotInFrom(ref.qualifier.value));
      }
      return Err(UnknownColumn(ref.name));
    }
    r := Ok(found);
  }

  // ---- the concatenated schema ----

  function AllColumns(context: Context): seq<string> {
    if context == [] then [] else AllColumns(context[..|context| - 1]) + context[|context| - 1].columns
  }

  /** Each table starts where the ones before it end. */
  predicate Contiguous(context: Context) {
    context == [] ||
      (Contiguous(context[..|context| - 1]) && context[|context| - 1].offset == |AllColumns(context[..|context| - 1])|)
  }

  /** A record of the join: one row of each table, side by side. */
  function Joined(rows: seq<Record>): Record {
    if rows == [] then [] else Joined(rows[..|rows| - 1]) + rows[|rows| - 1]
  }

  predicate RowsOf(context: Context, rows: seq<Record>) {
    |rows| == |context| && forall k | 0 <= k < |context| :: |rows[k]| == |context[k].columns|
  }

  lemma {:induction false} ColumnAt(context: Context, rows: seq<Record>, k: nat, j: nat)
    requires Contiguous(context) && RowsOf(context, rows) && k < |context| && j < |context[k].columns|
    ensures |Joined(rows)| == |AllColumns(context)| && context[k].offset + j < |AllColumns(context)|
    ensures AllColumns(context)[context[k].offset + j] == context[k].columns[j]
    ensures Joined(rows)[context[k].offset + j] == rows[k][j]
  {
    var n := |context| - 1;
    JoinedWidth(context[..n], rows[..n]);
    if k < n {
      ColumnAt(context[..n], rows[..n], k, j);
    }
  }

  lemma {:induction false} JoinedWidth(context: Context, rows: seq<Record>)
    requires RowsOf(context, rows)
    ensures |Joined(rows)| == |AllColumns(context)|
  {
    if context != [] {
      JoinedWidth(context[..|context| - 1], rows[..|rows| - 1]);
    }
  }

  // ---- expressions ----

  function BindExpression(u: Unbound, context: Context): Result<Expr> {
    match u
    case Missing => Err(NullExpression)
    case Named(ref) =>
      (match Resolve(ref, context)
       case Ok(i) => Ok(Column(i))
       case Err(e) => Err(e))
    case Literal(v) => Ok(Constant(v))
    case Compared(l, op, r) =>
      var a := BindExpression(l, context);
      if a.Err? then a else
        var b := BindExpression(r, context);
        if b.Err? then b else Ok(Comparison(a.value, op, b.value))
    case Combined(l, op, r) =>
      var a := BindExpression(l, context);
      if a.Err? then a else
        var b := BindExpression(r, context);
        if b.Err? then b else Ok(Logical(a.value, op, b.value))
    case Negated(x) =>
      var a := BindExpression(x, context);
      if a.Err? then a else Ok(Not(a.value))
  }

  /** Every name of the expression denotes a column. */
  ghost predicate Denoting(u: Unbound, context: Context) {
    match u
    case Missing => false
    case Named(ref) => exists k: nat, j: nat :: Denotes(ref, context, k, j)
    case Literal(_) => true
    case Compared(l, _, r) => Denoting(l, context) && Denoting(r, context)
    case Combined(l, _, r) => Denoting(l, context) && Denoting(r, context)
    case Negated(x) => Denoting(x, context)
  }

  /** The value of an expression with names, given a row of each table. */
  ghost function EvalNamed(u: Unbound, context: Context, rows: seq<Record>): Evaluated
    requires Denoting(u, context) && RowsOf(context, rows)
  {
    match u
    case Named(ref) =>
      var k: nat, j: nat :| Denotes(ref, context, k, j);
      FirstIndexFinds(context[k].columns, ref.name);
      Val(rows[k][j])
    case Literal(v) => Val(v)
    case Compared(l, op, r) =>
      var a, b := EvalNamed(l, context, rows), EvalNamed(r, context, rows);
      if a.Throws? || b.Throws? then Throws else Val(Holds(op, Compare(a.v, b.v)))
    case Combined(l, op, r) =>
      var a, b := EvalNamed(l, context, rows), EvalNamed(r, context, rows);
      if a.Throws? || b.Throws? then Throws else Combine(op, a.v, b.v)
    case Negated(x) => Negation(EvalNamed(x, context, rows))
  }

  /**
   * An expression can be bound exactly when every name in it denotes a column, and on a joined
   * record the bound expression has the value that the names stand for. Its indices are all
   * within the concatenated schema.
   */
  lemma {:induction false} BoundMeansNamed(u: Unbound, context: Context, rows: seq<Record>)
    requires Contiguous(context) && RowsOf(context, rows)
    ensures BindExpression(u, context).Ok? <==> Denoting(u, context)
    ensures Denoting(u, context) ==>
              && Eval(BindExpression(u, context).value, Joined(rows)) == EvalNamed(u, context, rows)
              && ColumnsBelow(BindExpression(u, context).value, |AllColumns(context)|)
  {
    hide Resolve, Denotes, Compare, Holds, Combine, Negation, Contiguous, RowsOf;
    match u
    case Missing =>
    case Named(ref) => ColumnMeansNamed(ref, context, rows);
    case Literal(_) =>
    case Compared(l, _, r) =>
      BoundMeansNamed(l, context, rows);
      BoundMeansNamed(r, context, rows);
    case Combined(l, _, r) =>
      BoundMeansNamed(l, context, rows);
      BoundMeansNamed(r, context, rows);
    case Negated(x) => BoundMeansNamed(x, context, rows);
  }

  lemma ColumnMeansNamed(ref: ColumnRef, context: Context, rows: seq<Record>)
    requires Contiguous(context) && RowsOf(context, rows)
    ensures Resolve(ref, context).Ok? <==> exists k: nat, j: nat :: Denotes(ref, context, k, j)
    ensures forall k: nat, j: nat | Denotes(ref, context, k, j) ::
              && j < |context[k].columns| && context[k].offset + j < |AllColumns(context)| == |Joined(rows)|
              && Resolve(ref, context) == Ok(context[k].offset + j)
              && AllColumns(context)[context[k].offset + j] == ref.name
              && Joined(rows)[context[k].offset + j] == rows[k][j]
  {
    ResolveFinds(ref, context);
    forall k: nat, j: nat | Denotes(ref, context, k, j)
      ensures j < |context[k].columns| && context[k].offset + j < |AllColumns(context)| == |Joined(rows)|
      ensures AllColumns(context)[context[k].offset + j] == ref.name
                && Joined(rows)[context[k].offset + j] == rows[k][j]
    {
      FirstIndexFinds(context[k].columns, ref.name);
      ColumnAt(context, rows, k, j);
    }
  }
}

module Binder {
  import opened Options
  import opened Expressions
  import opened Plans
  import opened Binding

  // ---- tables and joins ----

  datatype BoundTables = BoundTables(plan: LogicalPlan, context: Context)

  function NameOf(table: TableRef): string {
    if table.alias.Some? then table.alias.value else table.name
  }

  /** The column names of a plan's output. */
  function Columns(plan: LogicalPlan): seq<string> {
    match plan
    case LogicalScan(table) => table.columns
    case LogicalJoin(left, right, _) => Columns(left) + Columns(right)
    case LogicalFilter(child, _) => Columns(child)
    case LogicalProjection(child, columns) =>
      seq(|columns|, i requires 0 <= i < |columns| =>
        if columns[i] < |Columns(child)| then Columns(child)[columns[i]] else "")
    case LogicalLimit(child, _) => Columns(child)
  }

  function AddJoin(catalog: Catalog, b: BoundTables, clause: JoinClause): Result<BoundTables> {
    if clause.table.name !in catalog then Err(NoSuchTable(clause.table.name))
    else
      var table := catalog[clause.table.name];
      var context := b.context + [TableBinding(NameOf(clause.table), table.columns, |Columns(b.plan)|)];
      match BindExpression(clause.on, context)
      case Err(e) => Err(e)
      case Ok(pred) => Ok(BoundTables(LogicalJoin(b.plan, LogicalScan(table), pred), context))
  }

  function BindTables(catalog: Catalog, from: TableRef, joins: seq<JoinClause>): Result<BoundTables>
    decreases |joins|
  {
    if joins == [] then
      if from.name !in catalog then Err(NoSuchTable(from.name))
      else Ok(BoundTables(LogicalScan(catalog[from.name]), [TableBinding(NameOf(from), catalog[from.name].columns, 0)]))
    else
      match BindTables(catalog, from, joins[..|joins| - 1])
      case Err(e) => Err(e)
      case Ok(b) => AddJoin(catalog, b, joins[|joins| - 1])
  }

  // ---- the rest of the query ----

  function AddFilter(b: BoundTables, filter: Option<Unbound>): Result<LogicalPlan> {
    if filter.None? then Ok(b.plan)
    else
      match BindExpression(filter.value, b.context)
      case Err(e) => Err(e)
      case Ok(pred) => Ok(LogicalFilter(b.plan, pred))
  }

  function ResolveAll(refs: seq<ColumnRef>, context: Context): Result<seq<nat>>
    decreases |refs|
  {
    if refs == [] then Ok([])
    else
      match ResolveAll(refs[..|refs| - 1], context)
      case Err(e) => Err(e)
      case Ok(indices) =>
        match Resolve(refs[|refs| - 1], context)
        case Err(e) => Err(e)
        case Ok(i) => Ok(indices + [i])
  }

  function AddProjection(plan: LogicalPlan, context: Context, columns: Option<seq<ColumnRef>>): Result<LogicalPlan> {
    if columns.None? then Ok(plan)
    else if columns.value == [] then Err(NoColumns)
    else
      match ResolveAll(columns.value, context)
      case Err(e) => Err(e)
      case Ok(indices) => Ok(LogicalProjection(plan, indices))
  }

  function BindQuery(catalog: Catalog, q: SelectQuery): Result<LogicalPlan> {
    if q.table.None? then Err(NoFromTable)
    else
      match BindTables(catalog, q.table.value, q.joins)
      case Err(e) => Err(e)
      case Ok(b) =>
        match AddFilter(b, q.filter)
        case Err(e) => Err(e)
        case Ok(filtered) =>
          match AddProjection(filtered, b.context, q.columns)
          case Err(e) => Err(e)
          case Ok(projected) => Ok(if q.limit.Some? then LogicalLimit(projected, q.limit.value) else projected)
  }

  lemma {:induction false} TablesFail(catalog: Catalog, from: TableRef, joins: seq<JoinClause>, i: nat)
    requires i <= |joins| && BindTables(catalog, from, joins[..i]).Err?
    ensures BindTables(catalog, from, joins) == BindTables(catalog, from, joins[..i])
    decreases |joins|
  {
    if i == |joins| {
      assert joins[..i] == joins;
    } else {
      var init := joins[..|joins| - 1];
      assert init[..i] == joins[..i];
      TablesFail(catalog, from, init, i);
    }
  }

  lemma {:induction false} ResolveAllFails(refs: seq<ColumnRef>, context: Context, i: nat)
    requires i <= |refs| && ResolveAll(refs[..i], context).Err?
    ensures ResolveAll(refs, context) == ResolveAll(refs[..i], context)
    decreases |refs|
  {
    if i == |refs| {
      assert refs[..i] == refs;
    } else {
      var init := refs[..|refs| - 1];
      assert init[..i] == refs[..i];
      ResolveAllFails(init, context, i);
    }
  }

  method Bind(catalog: Catalog, q: SelectQuery) returns (r: Result<LogicalPlan>)
    ensures r == BindQuery(catalog, q)
  {
    hide AddJoin, BindExpression, Resolve, Columns;
    if q.table.None? {
      return Err(NoFromTable);
    }
    var tables := BindJoins(catalog, q.table.value, q.joins);
    if tables.Err? {
      return Err(tables.error);
    }
    var plan, context := tables.value.plan, tables.value.context;
    if q.filter.Some? {
      var pred := BindExpression(q.filter.value, context);
      if pred.Err? {
        return Err(pred.error);
      }
      plan := LogicalFilter(plan, pred.value);
    }
    if q.columns.Some? {
      if q.columns.value == [] {
        return Err(NoColumns);
      }
      var indices := ResolveColumns(q.columns.value, context);
      if indices.Err? {
        return Err(indices.error);
      }
      plan := LogicalProjection(plan, indices.value);
    }
    if q.limit.Some? {
      plan := LogicalLimit(plan, q.limit.value);
    }
    r := Ok(plan);
  }

  /** FROM and the joins, one by one; each ON sees the tables up to its own. */
  method BindJoins(catalog: Catalog, from: TableRef, joins: seq<JoinClause>) returns (r: Result<BoundTables>)
    ensures r == BindTables(catalog, from, joins)
  {
    hide BindExpression, Columns;
    if from.name !in catalog {
      TablesFail(catalog, from, joins, 0);
      return Err(NoSuchTable(from.name));
    }
    var plan := LogicalScan(catalog[from.name]);
    var context: Context := [TableBinding(NameOf(from), catalog[from.name].columns, 0)];
    for i := 0 to |joins|
      invariant BindTables(catalog, from, joins[..i]) == Ok(BoundTables(plan, context))
    {
      assert joins[..i + 1][..i] == joins[..i];
      var clause := joins[i];
      if clause.table.name !in catalog {
        TablesFail(catalog, from, joins, i + 1);
        return Err(NoSuchTable(clause.table.name));
      }
      var table := catalog[clause.table.name];
      context := context + [TableBinding(NameOf(clause.table), table.columns, |Columns(plan)|)];
      var pred := BindExpression(clause.on, context);
      if pred.Err? {
        TablesFail(catalog, from, joins, i + 1);
        return Err(pred.error);
      }
      plan := LogicalJoin(plan, LogicalScan(table), pred.value);
    }
    assert joins[..|joins|] == joins;
    r := Ok(BoundTables(plan, context));
  }

  method ResolveColumns(refs: seq<ColumnRef>, context: Context) returns (r: Result<seq<nat>>)
    ensures r == ResolveAll(refs, context)
  {
    hide Resolve;
    var indices: seq<nat> := [];
    for i := 0 to |refs|
      invariant ResolveAll(refs[..i], context) == Ok(indices)
    {
      assert refs[..i + 1][..i] == refs[..i];
      var index := ResolveColumn(refs[i], context);
      if index.Err? {
        ResolveAllFails(refs, context, i + 1);
        return Err(index.error);
      }
      indices := indices + [index.value];
    }
    assert refs[..|refs|] == refs;
    r := Ok(indices);
  }

  // ---- what a bound plan guarantees ----

  /** Every column position in the plan exists in the records it is used on. */
  predicate InRange(plan: LogicalPlan) {
    match plan
    case LogicalScan(_) => true
    case LogicalJoin(left, right, pred) => InRange(left) && InRange(right) && ColumnsBelow(pred, |Columns(plan)|)
    case LogicalFilter(child, pred) => InRange(child) && ColumnsBelow(pred, |Columns(child)|)
    case LogicalProjection(child, columns) => InRange(child) && forall i | 0 <= i < |columns| ::
        columns[i] < |Columns(child)|
    case LogicalLimit(child, _) => InRange(child)
  }

  /** The tables of the query under their names, side by side. */
  function ContextOf(catalog: Catalog, from: TableRef, joins: seq<JoinClause>): Context
    requires from.name in catalog && forall i | 0 <= i < |joins| :: joins[i].table.name in catalog
    decreases |joins|
  {
    if joins == [] then [TableBinding(NameOf(from), catalog[from.name].columns, 0)]
    else
      var init := ContextOf(catalog, from, joins[..|joins| - 1]);
      var last := joins[|joins| - 1].table;
      init + [TableBinding(NameOf(last), catalog[last.name].columns, |AllColumns(init)|)]
  }

  predicate TablesExist(catalog: Catalog, from: TableRef, joins: seq<JoinClause>) {
    from.name in catalog && forall i | 0 <= i < |joins| :: joins[i].table.name in catalog
  }

  /** Each ON condition only names columns of the tables up to its own. */
  ghost predicate JoinsDenote(catalog: Catalog, from: TableRef, joins: seq<JoinClause>)
    requires TablesExist(catalog, from, joins)
    decreases |joins|
  {
    joins == [] ||
      (JoinsDenote(catalog, from, joins[..|joins| - 1])
       && Denoting(joins[|joins| - 1].on, ContextOf(catalog, from, joins)))
  }

  lemma ExpressionInRange(u: Unbound, context: Context)
    requires Contiguous(context)
    ensures BindExpression(u, context).Ok? <==> Denoting(u, context)
    ensures Denoting(u, context) ==> ColumnsBelow(BindExpression(u, context).value, |AllColumns(context)|)
  {
    var rows: seq<Record> :=
      seq(|context|, k requires 0 <= k < |context| => seq(|context[k].columns|, _ => Null(BoolType)));
    BoundMeansNamed(u, context, rows);
  }

  lemma {:induction false} TablesBound(catalog: Catalog, from: TableRef, joins: seq<JoinClause>)
    ensures BindTables(catalog, from, joins).Ok? <==>
              TablesExist(catalog, from, joins) && JoinsDenote(catalog, from, joins)
    ensures BindTables(catalog, from, joins).Ok? ==>
              var b := BindTables(catalog, from, joins).value;
              b.context == ContextOf(catalog, from, joins) && Consistent(b)
    decreases |joins|
  {
    hide Denoting, BindExpression, AddJoin, Consistent, NameOf;
    if joins == [] {
      if from.name in catalog {
        FromConsistent(catalog[from.name], NameOf(from));
      }
    } else {
      var init, last := joins[..|joins| - 1], joins[|joins| - 1];
      TablesBound(catalog, from, init);
      assert TablesExist(catalog, from, joins) <==> TablesExist(catalog, from, init) && last.table.name in catalog;
      if BindTables(catalog, from, init).Ok? {
        JoinBound(catalog, BindTables(catalog, from, init).value, last);
      }
    }
  }

  /** The context lists the columns of the plan, and the plan stays within them. */
  predicate Consistent(b: BoundTables) {
    Contiguous(b.context) && Columns(b.plan) == AllColumns(b.context) && InRange(b.plan)
  }

  lemma FromConsistent(table: TableRows, name: string)
    ensures Consistent(BoundTables(LogicalScan(table), [TableBinding(name, table.columns, 0)]))
  {
    var context := [TableBinding(name, table.columns, 0)];
    assert context[..0] == [] && [] + table.columns == table.columns;
  }

  lemma JoinBound(catalog: Catalog, b: BoundTables, clause: JoinClause)
    requires Consistent(b)
    ensures clause.table.name !in catalog ==> AddJoin(catalog, b, clause).Err?
    ensures clause.table.name in catalog ==>
              var table := catalog[clause.table.name];
              var context := b.context + [TableBinding(NameOf(clause.table), table.columns, |AllColumns(b.context)|)];
              && (AddJoin(catalog, b, clause).Ok? <==> Denoting(clause.on, context))
              && (AddJoin(catalog, b, clause).Ok? ==>
                    AddJoin(catalog, b, clause).value.context == context
                    && Consistent(AddJoin(catalog, b, clause).value))
  {
    if clause.table.name in catalog {
      var table := catalog[clause.table.name];
      var context := b.context + [TableBinding(NameOf(clause.table), table.columns, |AllColumns(b.context)|)];
      assert context[..|context| - 1] == b.context;
      assert Contiguous(context) && AllColumns(context) == AllColumns(b.context) + table.columns;
      ExpressionInRange(clause.on, context);
      hide Denoting, BindExpression, ColumnsBelow, Contiguous, AllColumns;
      assert InRange(LogicalScan(table)) && Columns(LogicalScan(table)) == table.columns;
      if AddJoin(catalog, b, clause).Ok? {
        assert AddJoin(catalog, b, clause).value == BoundTables(
          LogicalJoin(b.plan, LogicalScan(table), BindExpression(clause.on, context).value), context);
      }
    }
  }

  lemma RefInRange(ref: ColumnRef, context: Context)
    requires Contiguous(context)
    ensures Resolve(ref, context).Ok? <==> Denoting(Named(ref), context)
    ensures Resolve(ref, context).Ok? ==>
              var i := Resolve(ref, context).value; i < |AllColumns(context)| && AllColumns(context)[i] == ref.name
  {
    var rows: seq<Record> :=
      seq(|context|, k requires 0 <= k < |context| => seq(|context[k].columns|, _ => Null(BoolType)));
    ColumnMeansNamed(ref, context, rows);
    assert Denoting(Named(ref), context) <==> exists k: nat, j: nat :: Denotes(ref, context, k, j);
    hide Resolve, Denotes, Contiguous;
  }

  lemma {:induction false} AllResolved(refs: seq<ColumnRef>, context: Context)
    requires Contiguous(context)
    ensures ResolveAll(refs, context).Ok? <==> forall i | 0 <= i < |refs| :: Denoting(Named(refs[i]), context)
    ensures ResolveAll(refs, context).Ok? ==>
              var indices := ResolveAll(refs, context).value;
              |indices| == |refs| && forall i | 0 <= i < |refs| ::
                indices[i] < |AllColumns(context)| && AllColumns(context)[indices[i]] == refs[i].name
    decreases |refs|
  {
    hide Resolve, Denotes, Denoting, Contiguous, AllColumns;
    if refs != [] {
      var n := |refs| - 1;
      AllResolved(refs[..n], context);
      RefInRange(refs[n], context);
      assert forall i | 0 <= i < n :: refs[..n][i] == refs[i];
    }
  }

  function Names(refs: seq<ColumnRef>): seq<string> {
    seq(|refs|, i requires 0 <= i < |refs| => refs[i].name)
  }

  lemma ProjectionBound(plan: LogicalPlan, context: Context, columns: Option<seq<ColumnRef>>)
    requires Contiguous(context) && Columns(plan) == AllColumns(context) && InRange(plan)
    ensures AddProjection(plan, context, columns).Ok? <==> ProjectionDenotes(columns, context)
    ensures AddProjection(plan, context, columns).Ok? ==>
              var p := AddProjection(plan, context, columns).value;
              InRange(p) && Columns(p) == if columns.Some? then Names(columns.value) else AllColumns(context)
  {
    if columns.Some? {
      AllResolved(columns.value, context);
      hide Denoting, ResolveAll, AllColumns, Contiguous;
    }
  }

  ghost predicate ProjectionDenotes(columns: Option<seq<ColumnRef>>, context: Context) {
    columns.Some? ==>
        columns.value != [] && forall i | 0 <= i < |columns.value| :: Denoting(Named(columns.value[i]), context)
  }

  lemma FilterBound(b: BoundTables, filter: Option<Unbound>)
    requires Consistent(b)
    ensures AddFilter(b, filter).Ok? <==> (filter.Some? ==> Denoting(filter.value, b.context))
    ensures AddFilter(b, filter).Ok? ==>
              Columns(AddFilter(b, filter).value) == Columns(b.plan) && InRange(AddFilter(b, filter).value)
  {
    if filter.Some? {
      ExpressionInRange(filter.value, b.context);
    }
    hide Denoting, BindExpression, AllColumns, Contiguous;
  }

  /** When a query can be bound: everything it names exists and is named without ambiguity. */
  ghost predicate Bindable(catalog: Catalog, q: SelectQuery) {
    && q.table.Some? && TablesExist(catalog, q.table.value, q.joins) && JoinsDenote(catalog, q.table.value, q.joins)
    && var context := ContextOf(catalog, q.table.value, q.joins);
       && (q.filter.Some? ==> Denoting(q.filter.value, context))
       && ProjectionDenotes(q.columns, context)
  }

  /**
   * A query is accepted exactly when it is bindable. The plan's column positions are then all
   * in range, and its output columns are the ones asked for, by name and in order.
   */
  lemma BindAccepts(catalog: Catalog, q: SelectQuery)
    ensures BindQuery(catalog, q).Ok? <==> Bindable(catalog, q)
    ensures Bindable(catalog, q) ==>
              var plan := BindQuery(catalog, q).value;
              && InRange(plan)
              && Columns(plan) == if q.columns.Some? then Names(q.columns.value)
                                  else AllColumns(ContextOf(catalog, q.table.value, q.joins))
  {
    hide AllColumns, Contiguous, AddFilter, AddProjection, ProjectionDenotes, Denoting, JoinsDenote, ContextOf,
         BindTables, Names;
    if q.table.Some? {
      TablesBound(catalog, q.table.value, q.joins);
      var tables := BindTables(catalog, q.table.value, q.joins);
      if tables.Ok? {
        var b := tables.value;
        FilterBound(b, q.filter);
        if AddFilter(b, q.filter).Ok? {
          ProjectionBound(AddFilter(b, q.filter).value, b.context, q.columns);
        }
      }
    }
  }

  // ---- bound plans run ----

  /** Table rows have their table's columns, and predicates are boolean on the rows they see. */
  ghost predicate Sound(plan: LogicalPlan) {
    match plan
    case LogicalScan(table) => AllWide(table.rows, |table.columns|)
    case LogicalJoin(left, right, pred) =>
      && Sound(left) && Sound(right)
      && (Runnable(Optimize(left)) && Runnable(Optimize(right)) ==>
            PairsBoolean(pred, Denote(Optimize(left)), Denote(Optimize(right))))
    case LogicalFilter(child, pred) =>
      Sound(child) && (Runnable(Optimize(child)) ==> AllBoolean(pred, Denote(Optimize(child))))
    case LogicalProjection(child, _) => Sound(child)
    case LogicalLimit(child, _) => Sound(child)
  }

  lemma {:induction false} BoundRuns(plan: LogicalPlan)
    requires InRange(plan) && Sound(plan)
    ensures Runnable(Optimize(plan)) && Width(Optimize(plan)) == |Columns(plan)|
  {
    hide PairsBoolean, AllBoolean, AllWide, ColumnsBelow, Denote;
    match plan
    case LogicalScan(_) =>
    case LogicalJoin(left, right, _) =>
      BoundRuns(left);
      BoundRuns(right);
    case LogicalFilter(child, _) => BoundRuns(child);
    case LogicalProjection(child, _) => BoundRuns(child);
    case LogicalLimit(child, _) => BoundRuns(child);
  }
}
