/** From a physical plan to the operators that run it, and a query run to its end. */
module Executors {
  import opened Options
  import opened Expressions
  import opened Plans
  import opened JoinSteps
  import opened Operators

  /** The operator tree of a plan produces the plan's rows. */
  method Build(plan: PhysicalPlan) returns (op: Operator)
    requires Runnable(plan)
    ensures op.Valid() && fresh(op.repr) && op.at == 0 && op.full == Denote(plan)
  {
    hide Filtered, BlocksJoin, IsBoolean, Take, FilterOK, LimitOK, ProjectionOK, JoinOK, AllBoolean, PairsBoolean;
    if plan.SeqScan? {
      op := new Operator.Scan(plan.table);
    } else if plan.NestedLoopJoin? {
      var left := Build(plan.left);
      var right := Build(plan.right);
      op := new Operator.Join(left, right, plan.pred);
    } else if plan.Filter? {
      var child := Build(plan.child);
      op := new Operator.Filter(child, plan.pred);
    } else if plan.Projection? {
      var child := Build(plan.child);
      op := new Operator.Projection(child, plan.columns);
    } else {
      var child := Build(plan.child);
      op := new Operator.Limit(child, plan.limit);
    }
  }

  /** Optimize, build, and pull rows until there are no more. */
  method RunQuery(plan: LogicalPlan) returns (rows: seq<Record>)
    requires Runnable(Optimize(plan))
    ensures rows == Denote(Optimize(plan)) && Answers(plan, rows)
  {
    OptimizedAnswers(plan);
    var root := Build(Optimize(plan));
    rows := root.Drain();
  }
}

/** A query from its names to its rows. */
module Queries {
  import opened Options
  import opened Expressions
  import opened Plans
  import opened Binding
  import opened Binder
  import opened BindErrors
  import opened Executors
  import opened QueryMeaning
  import opened QueryAnswers

  /**
   * A query is run exactly when everything it names exists and is named without ambiguity. Its
   * rows are then what the query asks for: the combinations of rows of its tables for which
   * every ON and WHERE are TRUE, as the values of the columns named, cut to the limit. Else it
   * is rejected with the first error there is.
   */
  method Execute(catalog: Catalog, q: SelectQuery) returns (r: Result<seq<Record>>)
    requires Executable(catalog, q)
    ensures r.Ok? <==> Bindable(catalog, q)
    ensures r.Err? ==> BindQuery(catalog, q) == Err(r.error) && QueryError(catalog, q, r.error)
    ensures r.Ok? ==> IsAnswer(catalog, q, r.value)
    ensures r.Ok? ==>
              && BindQuery(catalog, q).Ok? && Answers(BindQuery(catalog, q).value, r.value)
              && AllWide(r.value, if q.columns.Some? then |q.columns.value|
                                  else |AllColumns(ContextOf(catalog, q.table.value, q.joins))|)
  {
    hide BindQuery, InRange, Answers, AllWide, Denote, Runnable, Optimize, AllColumns, ContextOf, IsAnswer,
         TablesExist, JoinsDenote, Denoting, ProjectionDenotes, Executable, Columns, Width, QueryError;
    BindAccepts(catalog, q);
    var plan := Bind(catalog, q);
    if plan.Err? {
      ErrorReported(catalog, q, plan.error);
      return Err(plan.error);
    }
    QueryAnswered(catalog, q);
    PlanWidth(catalog, q);
    var rows := RunQuery(plan.value);
    r := Ok(rows);
  }

  lemma PlanWidth(catalog: Catalog, q: SelectQuery)
    requires Bindable(catalog, q) && BindQuery(catalog, q).Ok? && Runnable(Optimize(BindQuery(catalog, q).value))
    ensures AllWide(Denote(Optimize(BindQuery(catalog, q).value)),
                    if q.columns.Some? then |q.columns.value|
                    else |AllColumns(ContextOf(catalog, q.table.value, q.joins))|)
  {
    hide BindQuery, Bindable, InRange, AllColumns, ContextOf, AllWide, Columns, Width;
    BindAccepts(catalog, q);
    ColumnsCounted(BindQuery(catalog, q).value);
  }

  lemma {:induction false} ColumnsCounted(plan: LogicalPlan)
    ensures Width(Optimize(plan)) == |Columns(plan)|
  {
    match plan
    case LogicalScan(_) =>
    case LogicalJoin(left, right, _) =>
      ColumnsCounted(left);
      ColumnsCounted(right);
    case LogicalFilter(child, _) => ColumnsCounted(child);
    case LogicalProjection(_, _) =>
    case LogicalLimit(child, _) => ColumnsCounted(child);
  }
}
