/**
 Logical plans, the rows they stand for, and the rewrite rules of the optimizer.
 Joins, sorting, grouping and the graph operators are whatever functions of their
 inputs' rows the executor makes of them.
 */
module Plans {
  import opened Wrappers
  import opened Values
  import opened Expr
  import N = NodeTable

  datatype JoinType = Inner | LeftOuter | RightOuter | FullOuter
  datatype SortExpr = SortExpr(expr: Expr, ascending: bool, nullsFirst: bool)
  datatype Traversal = Traversal(relType: string, columns: seq<N.ColumnDef>, src: string, dst: string,
                                 variable: Option<string>, direction: Direction)

  type Projections = seq<(string, Expr)>
  type OutputColumns = seq<(string, DataType)>

  datatype Plan =
    | NodeScan(tableName: string, variable: string, schema: N.Schema, pushedFilters: seq<Expr>,
               projection: Option<seq<string>>)
    | RelScan(tableName: string, relVariable: Option<string>, columns: seq<N.ColumnDef>, pushedFilters: seq<Expr>,
              projection: Option<seq<string>>)
    | Extend(input: Plan, rel: Traversal)
    | PathExpand(input: Plan, rel: Traversal, minHops: nat, maxHops: nat)
    | Filter(input: Plan, pred: Expr)
    | Project(input: Plan, expressions: Projections)
    | HashJoin(left: Plan, right: Plan, leftKeys: seq<string>, rightKeys: seq<string>, joinType: JoinType)
    | Grouping(input: Plan, groupBy: seq<Expr>, aggregates: Projections)
    | Sort(input: Plan, orderBy: seq<SortExpr>)
    | Limit(input: Plan, skip: Option<nat>, limit: Option<nat>)
    | Union(inputs: seq<Plan>, all: bool)
    | Empty(emptySchema: OutputColumns)

  // ------------------------------------------------------------------ output schema

  function ScanColumns(variable: string, columns: seq<N.ColumnDef>, projection: Option<seq<string>>): OutputColumns {
    if columns == [] then []
    else
      var c := columns[0];
      (if projection.None? || c.name in projection.value then [(Column(variable, c.name), c.dataType)] else [])
      + ScanColumns(variable, columns[1..], projection)
  }

  function NamesAndTypes(es: Projections): OutputColumns {
    seq(|es|, i requires 0 <= i < |es| => (es[i].0, es[i].1.dataType))
  }

  function OutputSchema(p: Plan): OutputColumns {
    match p
    case NodeScan(_, variable, schema, _, projection) => ScanColumns(variable, schema.columns, projection)
    case RelScan(_, variable, columns, _, projection) =>
      ScanColumns(match variable case Some(v) => v case None => "_rel", columns, projection)
    case Extend(input, rel) => OutputSchema(input) + [(Column(rel.dst, "id"), TInt64)]
    case PathExpand(input, rel, _, _) =>
      OutputSchema(input) + (match rel.variable case Some(v) => [(Column(v, "path"), TString)] case None => [])
    case Filter(input, _) => OutputSchema(input)
    case Sort(input, _) => OutputSchema(input)
    case Limit(input, _, _) => OutputSchema(input)
    case Project(_, expressions) => NamesAndTypes(expressions)
    case HashJoin(left, right, _, _, _) => OutputSchema(left) + OutputSchema(right)
    case Grouping(_, groupBy, aggregates) =>
      seq(|groupBy|, i requires 0 <= i < |groupBy| => (GroupName(i), groupBy[i].dataType)) + NamesAndTypes(aggregates)
    case Union(inputs, _) => if inputs == [] then [] else OutputSchema(inputs[0])
    case Empty(schema) => schema
  }

  function GroupName(i: nat): string { "group_" + Digits(i) }

  function Digits(i: nat): string {
    if i < 10 then ["0123456789"[i]] else Digits(i / 10) + ["0123456789"[i % 10]]
  }

  // ------------------------------------------------------------------ rows

  /** What the tables hold, and what the operators outside this module do with their inputs. */
  datatype Env = Env(
    arith: Arith,
    scan: (string, string) -> seq<Row>,
    relScan: (string, Option<string>, seq<Expr>, Option<seq<string>>) -> seq<Row>,
    extend: (Traversal, seq<Row>) -> seq<Row>,
    pathExpand: (Traversal, nat, nat, seq<Row>) -> seq<Row>,
    join: (JoinType, seq<string>, seq<string>, seq<Row>, seq<Row>) -> seq<Row>,
    group: (seq<Expr>, Projections, seq<Row>) -> seq<Row>,
    sort: (seq<SortExpr>, seq<Row>) -> seq<Row>,
    union: (bool, seq<seq<Row>>) -> seq<Row>)

  function Map(f: Row -> Row, rows: seq<Row>): (r: seq<Row>)
    ensures |r| == |rows|
  {
    if rows == [] then [] else Map(f, rows[..|rows| - 1]) + [f(rows[|rows| - 1])]
  }

  function FilterRows(a: Arith, e: Expr, rows: seq<Row>): seq<Row> {
    if rows == [] then []
    else FilterRows(a, e, rows[..|rows| - 1]) + if Holds(a, e, rows[|rows| - 1]) then [rows[|rows| - 1]] else []
  }

  /** Filters pushed to a scan, in the order they were pushed. */
  function Passing(a: Arith, filters: seq<Expr>, rows: seq<Row>): seq<Row> {
    if filters == [] then rows else FilterRows(a, filters[|filters| - 1], Passing(a, filters[..|filters| - 1], rows))
  }

  predicate IsOwn(variable: string, column: string) { variable + "." <= column }

  /** A scan's row has columns of its own variable only. */
  function OwnColumns(variable: string): Row -> Row {
    (row: Row) => map c | c in row && IsOwn(variable, c) :: row[c]
  }

  function KeepColumns(variable: string, names: seq<string>): Row -> Row {
    (row: Row) => map c | c in row && (exists n :: n in names && Column(variable, n) == c) :: row[c]
  }

  function Projected(variable: string, projection: Option<seq<string>>, rows: seq<Row>): seq<Row> {
    if projection.None? then rows else Map(KeepColumns(variable, projection.value), rows)
  }

  /** A name given twice keeps its last expression. */
  function ProjectRow(a: Arith, es: Projections, row: Row): Row {
    if es == [] then map[]
    else ProjectRow(a, es[..|es| - 1], row)[es[|es| - 1].0 := Eval(a, es[|es| - 1].1, row)]
  }

  function ProjectFn(a: Arith, es: Projections): Row -> Row { (row: Row) => ProjectRow(a, es, row) }

  function Cut(rows: seq<Row>, skip: Option<nat>, limit: Option<nat>): seq<Row> {
    var n := match skip case Some(k) => (if k < |rows| then k else |rows|) case None => 0;
    var rest := rows[n..];
    match limit case Some(k) => (if k < |rest| then rest[..k] else rest) case None => rest
  }

  /** Without the rows skipped, and not more than the limit. */
  lemma CutMeans(rows: seq<Row>, skip: Option<nat>, limit: Option<nat>)
    ensures var n, cut := (if skip.Some? then skip.value else 0), Cut(rows, skip, limit);
            && (limit.Some? ==> |cut| <= limit.value)
            && (|cut| == if n >= |rows| then 0
                         else if limit.Some? && limit.value < |rows| - n then limit.value else |rows| - n)
            && forall i :: 0 <= i < |cut| ==> cut[i] == rows[n + i]
  {}

  /** A filter keeps exactly the rows on which it is true, in their order. */
  lemma {:induction false} FilterPicks(a: Arith, e: Expr, rows: seq<Row>) returns (at: seq<nat>)
    ensures Picks(rows, FilterRows(a, e, rows), at)
    ensures forall k: nat :: k < |rows| ==> (k in at <==> Eval(a, e, rows[k]) == Bool(true))
  {
    at := [];
    if rows != [] {
      var front, last := rows[..|rows| - 1], rows[|rows| - 1];
      at := FilterPicks(a, e, front);
      PicksSnoc(front, last, FilterRows(a, e, front), at);
      assert front + [last] == rows;
      if Holds(a, e, last) { at := at + [|front|]; }
    }
  }

  /** The rows of a plan, in order. Pushed filters see the whole row, the projection comes after them. */
  function Rows(env: Env, p: Plan): seq<Row> {
    match p
    case NodeScan(tableName, variable, _, filters, projection) =>
      Projected(variable, projection,
                Passing(env.arith, filters, Map(OwnColumns(variable), env.scan(tableName, variable))))
    case RelScan(tableName, variable, _, filters, projection) => env.relScan(tableName, variable, filters, projection)
    case Extend(input, rel) => env.extend(rel, Rows(env, input))
    case PathExpand(input, rel, min, max) => env.pathExpand(rel, min, max, Rows(env, input))
    case Filter(input, pred) => FilterRows(env.arith, pred, Rows(env, input))
    case Project(input, expressions) => Map(ProjectFn(env.arith, expressions), Rows(env, input))
    case HashJoin(left, right, leftKeys, rightKeys, joinType) =>
      env.join(joinType, leftKeys, rightKeys, Rows(env, left), Rows(env, right))
    case Grouping(input, groupBy, aggregates) => env.group(groupBy, aggregates, Rows(env, input))
    case Sort(input, orderBy) => env.sort(orderBy, Rows(env, input))
    case Limit(input, skip, limit) => Cut(Rows(env, input), skip, limit)
    case Union(inputs, all) => env.union(all, seq(|inputs|, i requires 0 <= i < |inputs| => Rows(env, inputs[i])))
    case Empty(_) => []
  }

  /** Same rows in the same order, same columns. */
  ghost predicate SameMeaning(env: Env, p: Plan, q: Plan) {
    Rows(env, p) == Rows(env, q) && OutputSchema(p) == OutputSchema(q)
  }

  // ------------------------------------------------------------------ the rules

  datatype Transformed<T> = Yes(plan: T) | No(plan: T)

  datatype Rule = FilterPushdown | ProjectionPushdown | PredicateSimplification | ConstantFolding

  /** `FilterPushdownRule::rewrite` */
  function PushFilter(p: Plan): Transformed<Plan> {
    match p
    case Filter(NodeScan(tableName, variable, schema, filters, projection), pred) =>
      Yes(NodeScan(tableName, variable, schema, filters + [pred], projection))
    case Filter(Project(input, expressions), pred) => Yes(Project(Filter(input, pred), expressions))
    case _ => No(p)
  }

  function RequiredColumns(es: Projections): set<string> {
    if es == [] then {} else RequiredColumns(es[..|es| - 1]) + Columns(es[|es| - 1].1)
  }

  /**
   The projection names exactly the required columns of the variable, in any order, or is absent if
   there are none.
   */
  ghost predicate Names(projection: Option<seq<string>>, variable: string, required: set<string>) {
    match projection
    case None => forall c :: c in required ==> !IsOwn(variable, c)
    case Some(names) => forall n :: n in names <==> Column(variable, n) in required
  }

  /** `ProjectionPushdownRule::rewrite`; the old projection is forgotten. */
  ghost predicate Pruned(p: Plan, q: Plan) {
    match p
    case Project(NodeScan(tableName, variable, schema, filters, _), expressions) =>
      && q.Project? && q.expressions == expressions && q.input.NodeScan?
      && q.input == NodeScan(tableName, variable, schema, filters, q.input.projection)
      && Names(q.input.projection, variable, RequiredColumns(expressions))
    case _ => q == p
  }

  /** `ConstantFoldingRule::rewrite` */
  function FoldFilter(p: Plan): Transformed<Plan> {
    match p
    case Filter(input, pred) => (
      match ConstOf(pred)
      case False => Yes(Empty(OutputSchema(input)))
      case True => Yes(input)
      case Unknown => No(p))
    case _ => No(p)
  }

  /** `PredicateSimplificationRule::rewrite` */
  function SimplifyFilter(p: Plan): Transformed<Plan> {
    match p
    case Filter(input, pred) => (
      var simplified := Simplify(pred);
      match ConstOf(simplified)
      case False => Yes(Empty(OutputSchema(input)))
      case True => Yes(input)
      case Unknown => if simplified == pred then No(p) else Yes(Filter(input, simplified)))
    case _ => No(p)
  }

  ghost predicate Rewrites(rule: Rule, p: Plan, q: Plan) {
    match rule
    case FilterPushdown => q == PushFilter(p).plan
    case ProjectionPushdown => Pruned(p, q)
    case PredicateSimplification => q == SimplifyFilter(p).plan
    case ConstantFolding => q == FoldFilter(p).plan
  }

  // ------------------------------------------------------------------ filters and maps

  lemma {:induction false} FilterOfMap(a: Arith, e: Expr, f: Row -> Row, rows: seq<Row>)
    requires forall row :: row in rows ==> (Holds(a, e, f(row)) <==> Holds(a, e, row))
    ensures FilterRows(a, e, Map(f, rows)) == Map(f, FilterRows(a, e, rows))
  {
    if rows != [] {
      var front, last := rows[..|rows| - 1], rows[|rows| - 1];
      FilterOfMap(a, e, f, front);
      var mapped := Map(f, front);
      assert (mapped + [f(last)])[..|mapped|] == mapped;
      var kept := FilterRows(a, e, front);
      assert (kept + [last])[..|kept|] == kept;
      assert last in rows && kept + [] == kept && Map(f, kept) + [] == Map(f, kept);
    }
  }

  lemma {:induction false} SameMaps(f: Row -> Row, g: Row -> Row, rows: seq<Row>)
    requires forall row :: row in rows ==> f(row) == g(row)
    ensures Map(f, rows) == Map(g, rows)
  {
    if rows != [] { SameMaps(f, g, rows[..|rows| - 1]); }
  }

  lemma {:induction false} MapOfMap(f: Row -> Row, g: Row -> Row, rows: seq<Row>)
    requires forall row :: row in rows ==> f(g(row)) == f(row)
    ensures Map(f, Map(g, rows)) == Map(f, rows)
  {
    if rows != [] {
      var front, last := rows[..|rows| - 1], rows[|rows| - 1];
      MapOfMap(f, g, front);
      var mapped := Map(g, front);
      assert (mapped + [g(last)])[..|mapped|] == mapped;
    }
  }

  lemma {:induction false} SameFilters(a: Arith, e: Expr, e': Expr, rows: seq<Row>)
    requires forall row :: row in rows ==> (Holds(a, e, row) <==> Holds(a, e', row))
    ensures FilterRows(a, e, rows) == FilterRows(a, e', rows)
  {
    if rows != [] { SameFilters(a, e, e', rows[..|rows| - 1]); }
  }

  lemma {:induction false} ConstantFilter(a: Arith, e: Expr, rows: seq<Row>, b: bool)
    requires ConstOf(e) == OfBool(b)
    ensures FilterRows(a, e, rows) == if b then rows else []
  {
    if rows != [] {
      ConstantFilter(a, e, rows[..|rows| - 1], b);
      ConstIsValue(a, e, rows[|rows| - 1]);
    }
  }

  /** Filtering and mapping only rows of the input, so rows of a scan keep their own columns. */
  lemma {:induction false} FilterSelects(a: Arith, e: Expr, rows: seq<Row>)
    ensures forall row :: row in FilterRows(a, e, rows) ==> row in rows
  {
    if rows != [] { FilterSelects(a, e, rows[..|rows| - 1]); }
  }

  lemma {:induction false} PassingSelects(a: Arith, filters: seq<Expr>, rows: seq<Row>)
    ensures forall row :: row in Passing(a, filters, rows) ==> row in rows
  {
    if filters != [] {
      PassingSelects(a, filters[..|filters| - 1], rows);
      FilterSelects(a, filters[|filters| - 1], Passing(a, filters[..|filters| - 1], rows));
    }
  }

  lemma {:induction false} MapOwns(variable: string, rows: seq<Row>)
    ensures forall row, c :: row in Map(OwnColumns(variable), rows) && c in row ==> IsOwn(variable, c)
  {
    if rows != [] { MapOwns(variable, rows[..|rows| - 1]); }
  }

  // ------------------------------------------------------------------ the rules keep the meaning

  /** The projection lets through every own column in the set. */
  ghost predicate LetsThrough(projection: Option<seq<string>>, variable: string, columns: set<string>) {
    projection.Some? ==>
      forall c :: c in columns && IsOwn(variable, c) ==> exists n :: n in projection.value && Column(variable, n) == c
  }

  /** The column leaves the projection under its own name and unchanged. */
  predicate PassedThrough(es: Projections, c: string) {
    es != [] && if es[|es| - 1].0 == c then IsColumn(es[|es| - 1].1, c) else PassedThrough(es[..|es| - 1], c)
  }

  predicate IsColumn(e: Expr, c: string) {
    (e.PropertyAccess? && Column(e.variable, e.property) == c) || (e.VariableRef? && e.variable == c)
  }

  lemma KeptColumns(variable: string, names: seq<string>, columns: set<string>, row: Row)
    requires LetsThrough(Some(names), variable, columns) && forall c :: c in row ==> IsOwn(variable, c)
    ensures Agree(columns, KeepColumns(variable, names)(row), row)
  {}

  lemma {:induction false} PassedColumn(a: Arith, es: Projections, row: Row, c: string)
    requires PassedThrough(es, c)
    ensures Get(ProjectRow(a, es, row), c) == Get(row, c)
  {
    if es[|es| - 1].0 != c { PassedColumn(a, es[..|es| - 1], row, c); }
  }

  lemma {:induction false} ProjectionAgrees(a: Arith, es: Projections, r1: Row, r2: Row)
    requires Agree(RequiredColumns(es), r1, r2)
    ensures ProjectRow(a, es, r1) == ProjectRow(a, es, r2)
  {
    if es != [] {
      ProjectionAgrees(a, es[..|es| - 1], r1, r2);
      ValueDependsOnColumns(a, es[|es| - 1].1, r1, r2);
    }
  }

  /** The rows a scan reads before its projection. */
  function ScannedRows(env: Env, p: Plan): seq<Row>
    requires p.NodeScan?
  {
    Passing(env.arith, p.pushedFilters, Map(OwnColumns(p.variable), env.scan(p.tableName, p.variable)))
  }

  lemma ScannedRowsOwn(env: Env, p: Plan)
    requires p.NodeScan?
    ensures forall row, c :: row in ScannedRows(env, p) && c in row ==> IsOwn(p.variable, c)
  {
    PassingSelects(env.arith, p.pushedFilters, Map(OwnColumns(p.variable), env.scan(p.tableName, p.variable)));
    MapOwns(p.variable, env.scan(p.tableName, p.variable));
  }

  lemma PushToScan(env: Env, scan: Plan, pred: Expr)
    requires scan.NodeScan? && LetsThrough(scan.projection, scan.variable, Columns(pred))
    ensures SameMeaning(env, Filter(scan, pred), PushFilter(Filter(scan, pred)).plan)
  {
    var rows, filters := ScannedRows(env, scan), scan.pushedFilters;
    assert (filters + [pred])[..|filters|] == filters;
    if scan.projection.Some? {
      var keep := KeepColumns(scan.variable, scan.projection.value);
      ScannedRowsOwn(env, scan);
      forall row | row in rows ensures Holds(env.arith, pred, keep(row)) <==> Holds(env.arith, pred, row) {
        KeptColumns(scan.variable, scan.projection.value, Columns(pred), row);
        ValueDependsOnColumns(env.arith, pred, keep(row), row);
      }
      FilterOfMap(env.arith, pred, keep, rows);
    }
  }

  lemma PushThroughProjection(env: Env, input: Plan, es: Projections, pred: Expr)
    requires forall c :: c in Columns(pred) ==> PassedThrough(es, c)
    ensures SameMeaning(env, Filter(Project(input, es), pred), Project(Filter(input, pred), es))
  {
    var rows, f := Rows(env, input), ProjectFn(env.arith, es);
    forall row | row in rows ensures Holds(env.arith, pred, f(row)) <==> Holds(env.arith, pred, row) {
      forall c | c in Columns(pred) ensures Get(f(row), c) == Get(row, c) {
        PassedColumn(env.arith, es, row, c);
      }
      ValueDependsOnColumns(env.arith, pred, f(row), row);
    }
    FilterOfMap(env.arith, pred, f, rows);
  }

  /** Under a projection that needs no more, a scan's own projection does not show. */
  lemma ScanProjectionHidden(env: Env, scan: Plan, es: Projections)
    requires scan.NodeScan? && LetsThrough(scan.projection, scan.variable, RequiredColumns(es))
    ensures Rows(env, Project(scan, es)) == Map(ProjectFn(env.arith, es), ScannedRows(env, scan))
  {
    var rows := ScannedRows(env, scan);
    if scan.projection.Some? {
      var keep := KeepColumns(scan.variable, scan.projection.value);
      ScannedRowsOwn(env, scan);
      forall row | row in rows ensures ProjectFn(env.arith, es)(keep(row)) == ProjectFn(env.arith, es)(row) {
        KeptColumns(scan.variable, scan.projection.value, RequiredColumns(es), row);
        ProjectionAgrees(env.arith, es, keep(row), row);
      }
      MapOfMap(ProjectFn(env.arith, es), keep, rows);
    }
  }

  lemma NamesLetThrough(projection: Option<seq<string>>, variable: string, required: set<string>)
    requires Names(projection, variable, required)
    ensures LetsThrough(projection, variable, required)
  {
    if projection.Some? {
      forall c | c in required && IsOwn(variable, c)
        ensures exists n :: n in projection.value && Column(variable, n) == c
      {
        var n := c[|variable| + 1..];
        assert Column(variable, n) == c;
      }
    }
  }

  lemma PruneProjection(env: Env, p: Plan, q: Plan)
    requires p.Project? && p.input.NodeScan? && Pruned(p, q)
    requires LetsThrough(p.input.projection, p.input.variable, RequiredColumns(p.expressions))
    ensures SameMeaning(env, p, q)
  {
    NamesLetThrough(q.input.projection, p.input.variable, RequiredColumns(p.expressions));
    ScanProjectionHidden(env, p.input, p.expressions);
    ScanProjectionHidden(env, q.input, p.expressions);
  }

  /** What a rule needs of a plan that somebody built by hand. */
  ghost predicate Safe(rule: Rule, p: Plan) {
    match (rule, p)
    case (FilterPushdown, Filter(NodeScan(_, variable, _, _, projection), pred)) =>
      LetsThrough(projection, variable, Columns(pred))
    case (FilterPushdown, Filter(Project(_, es), pred)) => forall c :: c in Columns(pred) ==> PassedThrough(es, c)
    case (ProjectionPushdown, Project(NodeScan(_, variable, _, _, projection), es)) =>
      LetsThrough(projection, variable, RequiredColumns(es))
    case _ => true
  }

  /** A safe rewrite keeps the rows, their order and the columns. */
  lemma RewriteKeepsMeaning(env: Env, rule: Rule, p: Plan, q: Plan)
    requires Rewrites(rule, p, q) && Safe(rule, p)
    ensures SameMeaning(env, p, q)
  {
    if p.Filter? {
      match rule
      case FilterPushdown =>
        if p.input.NodeScan? { PushToScan(env, p.input, p.pred); }
        else if p.input.Project? { PushThroughProjection(env, p.input.input, p.input.expressions, p.pred); }
      case PredicateSimplification => SimplifyKeepsFilter(env, p);
      case ConstantFolding => FoldKeepsFilter(env, p);
      case ProjectionPushdown =>
    } else if p.Project? && p.input.NodeScan? && rule == ProjectionPushdown {
      PruneProjection(env, p, q);
    }
  }

  lemma FoldKeepsFilter(env: Env, p: Plan)
    requires p.Filter?
    ensures SameMeaning(env, p, FoldFilter(p).plan)
  {
    if ConstOf(p.pred) != Unknown { ConstantFilter(env.arith, p.pred, Rows(env, p.input), ConstOf(p.pred) == True); }
  }

  lemma SimplifyKeepsFilter(env: Env, p: Plan)
    requires p.Filter?
    ensures SameMeaning(env, p, SimplifyFilter(p).plan)
  {
    var rows := Rows(env, p.input);
    forall row | row in rows ensures Holds(env.arith, p.pred, row) <==> Holds(env.arith, Simplify(p.pred), row) {
      SimplifyKeepsTruth(env.arith, p.pred, row);
    }
    SameFilters(env.arith, p.pred, Simplify(p.pred), rows);
    FoldKeepsFilter(env, Filter(p.input, Simplify(p.pred)));
  }

  // ------------------------------------------------------------------ where pushing a filter is wrong

  /** Pushed below a projection that computes the column, the filter no longer sees it. */
  lemma RenamedColumnIsLost(env: Env, schema: N.Schema)
    requires env.scan("T", "a") == [map["a.y" := Int64(1)]]
    ensures var scan := NodeScan("T", "a", schema, [], None);
            var p := Filter(Project(scan, [("x", PropertyAccess("a", "y", TInt64))]),
                            IsNull(VariableRef("x", TInt64), true, TBool));
            |Rows(env, p)| == 1 && Rows(env, PushFilter(p).plan) == []
  {
    var row: Row := map["a.y" := Int64(1)];
    var es := [("x", PropertyAccess("a", "y", TInt64))];
    var e := IsNull(VariableRef("x", TInt64), true, TBool);
    var scan := NodeScan("T", "a", schema, [], None);
    OneScanned(env, schema, row);
    Renamed(env.arith, es, row);
    NotNull(env.arith, e, row);
    NotNull(env.arith, e, map["x" := Int64(1)]);
    OneMapped(ProjectFn(env.arith, es), row);
    OneFiltered(env.arith, e, row);
    OneFiltered(env.arith, e, map["x" := Int64(1)]);
    assert Rows(env, Project(scan, es)) == [map["x" := Int64(1)]];
    assert Rows(env, Filter(scan, e)) == [];
  }

  lemma Renamed(a: Arith, es: Projections, row: Row)
    requires es == [("x", PropertyAccess("a", "y", TInt64))] && row == map["a.y" := Int64(1)]
    ensures ProjectRow(a, es, row) == map["x" := Int64(1)] && "x" !in row
  {
    assert es[..0] == [] && Column("a", "y") == "a.y";
    assert |"x"| == 1 && |"a.y"| == 3;
  }

  lemma NotNull(a: Arith, e: Expr, row: Row)
    requires e == IsNull(VariableRef("x", TInt64), true, TBool)
    ensures Holds(a, e, row) <==> "x" in row && row["x"] != Null
  {
    assert Eval(a, VariableRef("x", TInt64), row) == Get(row, "x");
  }

  lemma OneMapped(f: Row -> Row, row: Row)
    ensures Map(f, [row]) == [f(row)]
  {
    assert [row][..0] == [];
  }

  lemma OneFiltered(a: Arith, e: Expr, row: Row)
    ensures FilterRows(a, e, [row]) == if Holds(a, e, row) then [row] else []
  {
    assert [row][..0] == [];
  }

  lemma OneScanned(env: Env, schema: N.Schema, row: Row)
    requires env.scan("T", "a") == [row] && row == map["a.y" := Int64(1)]
    ensures Rows(env, NodeScan("T", "a", schema, [], None)) == [row]
  {
    assert IsOwn("a", "a.y") by { assert "a" + "." == "a.y"[..2]; }
    assert OwnColumns("a")(row) == row;
    assert [row][..0] == [];
  }

  // ------------------------------------------------------------------ plans of the planner

  /** The shapes that `Planner::plan` builds and the rules turn them into. */
  ghost predicate Plannable(p: Plan) {
    match p
    case Filter(input, _) => (input.NodeScan? && input.projection.None?) || input.Extend? || input.PathExpand?
    case Project(input, es) => input.NodeScan? ==> LetsThrough(input.projection, input.variable, RequiredColumns(es))
    case _ => true
  }

  /** Every rule is safe on such a plan and makes another one. */
  lemma RulesKeepPlannable(rule: Rule, p: Plan, q: Plan)
    requires Plannable(p) && Rewrites(rule, p, q)
    ensures Safe(rule, p) && Plannable(q)
  {
    if p.Project? && p.input.NodeScan? && rule == ProjectionPushdown {
      NamesLetThrough(q.input.projection, p.input.variable, RequiredColumns(p.expressions));
    }
  }

  method CollectRequiredColumns(es: Projections) returns (columns: set<string>)
    ensures columns == RequiredColumns(es)
  {
    columns := {};
    for i := 0 to |es|
      invariant columns == RequiredColumns(es[..i])
    {
      assert es[..i + 1][..i] == es[..i];
      columns := CollectColumnsFromExpr(es[i].1, columns);
    }
    assert es[..|es|] == es;
  }

  /** The required columns of one variable without their prefix, in the order the set happens to have. */
  method OwnNames(variable: string, required: set<string>) returns (names: seq<string>)
    ensures forall n :: n in names <==> Column(variable, n) in required
  {
    names := [];
    var prefix := variable + ".";
    var pending := required;
    while pending != {}
      invariant pending <= required
      invariant forall n :: n in names <==> Column(variable, n) in required - pending
      decreases |pending|
    {
      var c :| c in pending;
      if prefix <= c {
        assert Column(variable, c[|prefix|..]) == c;
        names := names + [c[|prefix|..]];
      }
      assert forall n :: Column(variable, n) == c ==> prefix <= c && n == c[|prefix|..];
      pending := pending - {c};
    }
  }

  /** The same plan, but for a scan's old projection that no longer counts. */
  predicate Unreported(p: Plan, q: Plan) {
    q == p || match p
      case Project(NodeScan(tableName, variable, schema, filters, _), es) =>
        q == Project(NodeScan(tableName, variable, schema, filters, None), es)
      case _ => false
  }

  /** When a rule reports that it changed the plan. */
  ghost predicate Reports(rule: Rule, p: Plan) {
    match rule
    case FilterPushdown => p.Filter? && (p.input.NodeScan? || p.input.Project?)
    case ProjectionPushdown => p.Project? && p.input.NodeScan? && RequiresOwn(p.input.variable, p.expressions)
    case PredicateSimplification => p.Filter? && (Simplify(p.pred) != p.pred || ConstOf(p.pred) != Unknown)
    case ConstantFolding => p.Filter? && ConstOf(p.pred) != Unknown
  }

  ghost predicate RequiresOwn(variable: string, es: Projections) {
    exists n :: Column(variable, n) in RequiredColumns(es)
  }

  /** A filter over a scan becomes the scan's last, one over a projection comes below it, and a decided one goes. */
  lemma RewritesMean(rule: Rule, p: Plan, q: Plan)
    requires Rewrites(rule, p, q)
    ensures !Reports(rule, p) && rule != ProjectionPushdown ==> q == p
    ensures rule == FilterPushdown && p.Filter? && p.input.NodeScan? ==>
              && q.NodeScan? && q.tableName == p.input.tableName && q.variable == p.input.variable
              && q.schema == p.input.schema && q.projection == p.input.projection
              && q.pushedFilters == p.input.pushedFilters + [p.pred]
    ensures rule == FilterPushdown && p.Filter? && p.input.Project? ==>
              && q.Project? && q.expressions == p.input.expressions
              && q.input.Filter? && q.input.pred == p.pred && q.input.input == p.input.input
    ensures (rule == ConstantFolding || rule == PredicateSimplification) && p.Filter? && ConstOf(p.pred) == True ==>
              q == p.input
    ensures (rule == ConstantFolding || rule == PredicateSimplification) && p.Filter? && ConstOf(p.pred) == False ==>
              q.Empty? && q.emptySchema == OutputSchema(p.input)
    ensures rule == PredicateSimplification && p.Filter? && ConstOf(p.pred) == Unknown ==>
              q.Filter? && q.pred == Simplify(p.pred) && q.input == p.input
    ensures rule == ProjectionPushdown && p.Project? && p.input.NodeScan? ==>
              && q.Project? && q.expressions == p.expressions && q.input.NodeScan?
              && (q.input.projection.Some? ==>
                    forall n :: n in q.input.projection.value
                      <==> Column(p.input.variable, n) in RequiredColumns(p.expressions))
  {
    if p.Filter? { SimplifyKeepsConst(p.pred); }
  }

  method RewriteProjection(p: Plan) returns (t: Transformed<Plan>)
    ensures Pruned(p, t.plan) && (t.No? ==> Unreported(p, t.plan))
    ensures t.Yes? <==> Reports(ProjectionPushdown, p)
    ensures t.Yes? ==> t.plan.Project? && t.plan.input.NodeScan? && t.plan.input.projection.Some?
  {
    match p
    case Project(NodeScan(tableName, variable, schema, filters, _), es) =>
      var required := CollectRequiredColumns(es);
      var names := OwnNames(variable, required);
      if names == [] {
        forall c | c in required ensures !IsOwn(variable, c) {
          assert IsOwn(variable, c) ==> Column(variable, c[|variable| + 1..]) == c;
        }
        return No(Project(NodeScan(tableName, variable, schema, filters, None), es));
      }
      assert names[0] in names && RequiresOwn(variable, es);
      t := Yes(Project(NodeScan(tableName, variable, schema, filters, Some(names)), es));
    case _ =>
      t := No(p);
  }

  method RewriteSimplification(p: Plan) returns (t: Transformed<Plan>)
    ensures t == SimplifyFilter(p) && (t.Yes? <==> Reports(PredicateSimplification, p))
  {
    if p.Filter? { SimplifyKeepsConst(p.pred); }
    if !p.Filter? {
      return No(p);
    }
    var simplified := SimplifyPredicate(p.pred);
    var c := TryEvaluateConstant(simplified);
    match c {
      case False => t := Yes(Empty(OutputSchema(p.input)));
      case True => t := Yes(p.input);
      case Unknown => t := if simplified == p.pred then No(p) else Yes(Filter(p.input, simplified));
    }
  }

  method RewriteFolding(p: Plan) returns (t: Transformed<Plan>)
    ensures t == FoldFilter(p) && (t.Yes? <==> Reports(ConstantFolding, p))
  {
    if !p.Filter? {
      return No(p);
    }
    var c := TryEvaluateConstant(p.pred);
    match c {
      case False => t := Yes(Empty(OutputSchema(p.input)));
      case True => t := Yes(p.input);
      case Unknown => t := No(p);
    }
  }

  method Rewrite(rule: Rule, p: Plan) returns (t: Transformed<Plan>)
    ensures Rewrites(rule, p, t.plan) && (t.No? ==> Unreported(p, t.plan))
    ensures t.Yes? <==> Reports(rule, p)
  {
    match rule
    case FilterPushdown => t := PushFilter(p);
    case ProjectionPushdown => t := RewriteProjection(p);
    case PredicateSimplification => t := RewriteSimplification(p);
    case ConstantFolding => t := RewriteFolding(p);
  }

  // ------------------------------------------------------------------ planning and optimizing

  datatype QueryNode = QueryNode(variable: string, tableName: string, schema: N.Schema)
  datatype QueryRel = QueryRel(rel: Traversal, pathBounds: Option<(nat, nat)>)
  datatype QueryGraph = QueryGraph(nodes: seq<QueryNode>, relationships: seq<QueryRel>)
  datatype Query = Query(graph: QueryGraph, where: Option<Expr>, projections: Projections,
                         orderBy: Option<seq<SortExpr>>, skip: Option<nat>, limit: Option<nat>)

  /**
   The rows of a pattern: the first node, then one relationship after the other; a path also takes
   the single hop first.
   */
  function PatternRows(env: Env, g: QueryGraph, n: nat): seq<Row>
    requires g.nodes != [] && n <= |g.relationships|
  {
    if n == 0 then Map(OwnColumns(g.nodes[0].variable), env.scan(g.nodes[0].tableName, g.nodes[0].variable))
    else
      var r := g.relationships[n - 1];
      var extended := env.extend(r.rel, PatternRows(env, g, n - 1));
      match r.pathBounds
      case None => extended
      case Some((min, max)) => env.pathExpand(r.rel, min, max, extended)
  }

  /** The rows if a path took the place of the single hop, as the comment in the planner says. */
  function ConvertedRows(env: Env, g: QueryGraph, n: nat): seq<Row>
    requires g.nodes != [] && n <= |g.relationships|
  {
    if n == 0 then Map(OwnColumns(g.nodes[0].variable), env.scan(g.nodes[0].tableName, g.nodes[0].variable))
    else
      var r := g.relationships[n - 1];
      match r.pathBounds
      case None => env.extend(r.rel, ConvertedRows(env, g, n - 1))
      case Some((min, max)) => env.pathExpand(r.rel, min, max, ConvertedRows(env, g, n - 1))
  }

  ghost predicate HasPath(g: QueryGraph, n: nat)
    requires n <= |g.relationships|
  {
    exists i :: 0 <= i < n && g.relationships[i].pathBounds.Some?
  }

  /**
   The planner stacks a path on the single hop instead of replacing it. Pattern and comment
   agree, whatever the tables hold and the operators do, exactly if there is no path.
   */
  lemma StackedPathsAgree(g: QueryGraph, n: nat, any: Env)
    requires g.nodes != [] && n <= |g.relationships|
    ensures (forall env :: PatternRows(env, g, n) == ConvertedRows(env, g, n)) <==> !HasPath(g, n)
  {
    if HasPath(g, n) {
      var twice := any.(scan := (table, variable) => [map[]], extend := (rel, rows) => rows + rows,
                        pathExpand := (rel, min, max, rows) => rows);
      StackedPathsCount(twice, g, n);
      assert PatternRows(twice, g, n) != ConvertedRows(twice, g, n);
    } else {
      forall env ensures PatternRows(env, g, n) == ConvertedRows(env, g, n) {
        NoPathAgrees(env, g, n);
      }
    }
  }

  lemma {:induction false} NoPathAgrees(env: Env, g: QueryGraph, n: nat)
    requires g.nodes != [] && n <= |g.relationships| && !HasPath(g, n)
    ensures PatternRows(env, g, n) == ConvertedRows(env, g, n)
  {
    if n > 0 { NoPathAgrees(env, g, n - 1); }
  }

  /** Where each hop gives two rows for one and a path none more, the stacked hop shows. */
  lemma {:induction false} StackedPathsCount(env: Env, g: QueryGraph, n: nat)
    requires g.nodes != [] && n <= |g.relationships|
    requires forall table, variable :: |env.scan(table, variable)| == 1
    requires forall rel, rows :: env.extend(rel, rows) == rows + rows
    requires forall rel, min, max, rows :: env.pathExpand(rel, min, max, rows) == rows
    ensures |PatternRows(env, g, n)| >= |ConvertedRows(env, g, n)| >= 1
    ensures HasPath(g, n) ==> |PatternRows(env, g, n)| > |ConvertedRows(env, g, n)|
  {
    if n > 0 { StackedPathsCount(env, g, n - 1); }
  }

  /** What a query asks for: pattern, WHERE, RETURN, ORDER BY, SKIP and LIMIT, in this order. */
  function QueryRows(env: Env, q: Query): seq<Row>
    requires q.graph.nodes != []
  {
    var matched := PatternRows(env, q.graph, |q.graph.relationships|);
    LimitRows(q, OrderRows(env, q, ReturnRows(env, q, WhereRows(env, q, matched))))
  }

  function WhereRows(env: Env, q: Query, rows: seq<Row>): seq<Row> {
    match q.where case Some(e) => FilterRows(env.arith, e, rows) case None => rows
  }

  function ReturnRows(env: Env, q: Query, rows: seq<Row>): seq<Row> {
    if q.projections == [] then rows else Map(ProjectFn(env.arith, q.projections), rows)
  }

  function OrderRows(env: Env, q: Query, rows: seq<Row>): seq<Row> {
    match q.orderBy case Some(keys) => env.sort(keys, rows) case None => rows
  }

  function LimitRows(q: Query, rows: seq<Row>): seq<Row> {
    if q.skip.Some? || q.limit.Some? then Cut(rows, q.skip, q.limit) else rows
  }

  predicate IsPattern(p: Plan) { (p.NodeScan? && p.projection.None?) || p.Extend? || p.PathExpand? }

  /** The first n relationships in their order, each a hop, and a path a hop and an expansion within its bounds. */
  ghost predicate IsPlanOf(g: QueryGraph, n: nat, p: Plan)
    requires g.nodes != [] && n <= |g.relationships|
  {
    if n == 0 then
      p.NodeScan? && p.tableName == g.nodes[0].tableName && p.variable == g.nodes[0].variable
      && p.schema == g.nodes[0].schema && p.pushedFilters == [] && p.projection == None
    else
      var r := g.relationships[n - 1];
      match r.pathBounds
      case None => p.Extend? && p.rel == r.rel && IsPlanOf(g, n - 1, p.input)
      case Some(bounds) =>
        p.PathExpand? && p.rel == r.rel && p.minHops == bounds.0 && p.maxHops == bounds.1
        && p.input.Extend? && p.input.rel == r.rel && IsPlanOf(g, n - 1, p.input.input)
  }

  method PlanQueryGraph(g: QueryGraph) returns (r: Result<Plan>)
    ensures r.Err? <==> g.nodes == []
    ensures r.Err? ==> r.error == PlanError
    ensures r.Ok? ==> IsPattern(r.value) && IsPlanOf(g, |g.relationships|, r.value)
    ensures r.Ok? ==> forall env :: Rows(env, r.value) == PatternRows(env, g, |g.relationships|)
  {
    if g.nodes == [] {
      return Err(PlanError);
    }
    var plan := NodeScan(g.nodes[0].tableName, g.nodes[0].variable, g.nodes[0].schema, [], None);
    for i := 0 to |g.relationships|
      invariant IsPattern(plan) && IsPlanOf(g, i, plan)
      invariant forall env :: Rows(env, plan) == PatternRows(env, g, i)
    {
      var r := g.relationships[i];
      plan := Extend(plan, r.rel);
      if r.pathBounds.Some? {
        plan := PathExpand(plan, r.rel, r.pathBounds.value.0, r.pathBounds.value.1);
      }
    }
    r := Ok(plan);
  }

  method AddWhere(q: Query, p: Plan) returns (r: Plan)
    requires IsPattern(p)
    ensures Plannable(r) && (r == p || (r.Filter? && IsPattern(r.input)))
    ensures q.graph.nodes != [] && IsPlanOf(q.graph, |q.graph.relationships|, p) ==> PlansWhere(q, r)
    ensures forall env :: Rows(env, r) == WhereRows(env, q, Rows(env, p))
  {
    r := if q.where.Some? then Filter(p, q.where.value) else p;
  }

  method AddReturn(q: Query, p: Plan) returns (r: Plan)
    requires Plannable(p) && (IsPattern(p) || (p.Filter? && IsPattern(p.input)))
    ensures Plannable(r) && (q.graph.nodes != [] && PlansWhere(q, p) ==> PlansReturn(q, r))
    ensures forall env :: Rows(env, r) == ReturnRows(env, q, Rows(env, p))
  {
    r := if q.projections != [] then Project(p, q.projections) else p;
  }

  method AddOrder(q: Query, p: Plan) returns (r: Plan)
    ensures (Plannable(p) ==> Plannable(r)) && (q.graph.nodes != [] && PlansReturn(q, p) ==> PlansOrder(q, r))
    ensures forall env :: Rows(env, r) == OrderRows(env, q, Rows(env, p))
  {
    r := if q.orderBy.Some? then Sort(p, q.orderBy.value) else p;
  }

  method AddLimit(q: Query, p: Plan) returns (r: Plan)
    ensures (Plannable(p) ==> Plannable(r)) && (q.graph.nodes != [] && PlansOrder(q, p) ==> PlansQuery(q, r))
    ensures forall env :: Rows(env, r) == LimitRows(q, Rows(env, p))
  {
    r := if q.skip.Some? || q.limit.Some? then Limit(p, q.skip, q.limit) else p;
  }

  // From the inside out: the pattern, WHERE, RETURN, ORDER BY, and SKIP with LIMIT, each if the query has it.

  ghost predicate PlansWhere(q: Query, p: Plan)
    requires q.graph.nodes != []
  {
    if q.where.None? then IsPlanOf(q.graph, |q.graph.relationships|, p)
    else p.Filter? && p.pred == q.where.value && IsPlanOf(q.graph, |q.graph.relationships|, p.input)
  }

  ghost predicate PlansReturn(q: Query, p: Plan)
    requires q.graph.nodes != []
  {
    if q.projections == [] then PlansWhere(q, p)
    else p.Project? && p.expressions == q.projections && PlansWhere(q, p.input)
  }

  ghost predicate PlansOrder(q: Query, p: Plan)
    requires q.graph.nodes != []
  {
    if q.orderBy.None? then PlansReturn(q, p)
    else p.Sort? && p.orderBy == q.orderBy.value && PlansReturn(q, p.input)
  }

  ghost predicate PlansQuery(q: Query, p: Plan)
    requires q.graph.nodes != []
  {
    if q.skip.None? && q.limit.None? then PlansOrder(q, p)
    else p.Limit? && p.skip == q.skip && p.limit == q.limit && PlansOrder(q, p.input)
  }

  /** `Planner::plan`: the plan's rows are what the query asks for. */
  method MakePlan(q: Query) returns (r: Result<Plan>)
    ensures r.Err? <==> q.graph.nodes == []
    ensures r.Ok? ==> Plannable(r.value) && PlansQuery(q, r.value)
    ensures r.Ok? ==> forall env :: Rows(env, r.value) == QueryRows(env, q)
  {
    r := PlanQueryGraph(q.graph);
    if r.Err? {
      return;
    }
    var matched := r.value;
    var filtered := AddWhere(q, matched);
    var returned := AddReturn(q, filtered);
    var ordered := AddOrder(q, returned);
    var plan := AddLimit(q, ordered);
    forall env ensures Rows(env, plan) == QueryRows(env, q) {
      assert Rows(env, matched) == PatternRows(env, q.graph, |q.graph.relationships|);
      assert Rows(env, filtered) == WhereRows(env, q, Rows(env, matched));
      assert Rows(env, returned) == ReturnRows(env, q, Rows(env, filtered));
      assert Rows(env, ordered) == OrderRows(env, q, Rows(env, returned));
    }
    r := Ok(plan);
  }

  ghost predicate SameEverywhere(p: Plan, q: Plan) { forall env :: SameMeaning(env, p, q) }

  /** Each rule rewrites the plan that the one before it left. */
  ghost predicate Chain(rules: seq<Rule>, plans: seq<Plan>) {
    |plans| == |rules| + 1 && forall i :: 0 <= i < |rules| ==> Rewrites(rules[i], plans[i], plans[i + 1])
  }

  /** A chain from one plan to another. */
  ghost predicate Leads(rules: seq<Rule>, plans: seq<Plan>, p: Plan, q: Plan) {
    Chain(rules, plans) && plans[0] == p && plans[|rules|] == q
  }

  lemma ChainSnoc(rules: seq<Rule>, plans: seq<Plan>, p: Plan, q: Plan, rule: Rule, next: Plan)
    requires Leads(rules, plans, p, q) && Rewrites(rule, q, next)
    ensures Leads(rules + [rule], plans + [next], p, next)
  {
    var rules', plans' := rules + [rule], plans + [next];
    forall i | 0 <= i < |rules'| ensures Rewrites(rules'[i], plans'[i], plans'[i + 1]) {
      if i < |rules| { assert Rewrites(rules[i], plans[i], plans[i + 1]); }
    }
  }

  /**
   Applies the rules one after the other. Any of them, in any order and number, keep the rows and
   columns of every plan the planner builds.
   */
  method Optimize(rules: seq<Rule>, p: Plan) returns (q: Plan)
    ensures Plannable(p) ==> Plannable(q) && SameEverywhere(p, q)
    ensures exists plans :: Leads(rules, plans, p, q)
  {
    q := p;
    ghost var plans := [p];
    for i := 0 to |rules|
      invariant Plannable(p) ==> Plannable(q) && SameEverywhere(p, q)
      invariant Leads(rules[..i], plans, p, q)
    {
      var t := Rewrite(rules[i], q);
      if Plannable(p) { StepKeepsMeaning(rules[i], p, q, t.plan); }
      ChainSnoc(rules[..i], plans, p, q, rules[i], t.plan);
      assert rules[..i] + [rules[i]] == rules[..i + 1];
      plans := plans + [t.plan];
      q := t.plan;
    }
    assert rules[..|rules|] == rules;
  }

  lemma StepKeepsMeaning(rule: Rule, p: Plan, q: Plan, next: Plan)
    requires Plannable(q) && SameEverywhere(p, q) && Rewrites(rule, q, next)
    ensures Plannable(next) && SameEverywhere(p, next)
  {
    RulesKeepPlannable(rule, q, next);
    forall env ensures SameMeaning(env, p, next) {
      RewriteKeepsMeaning(env, rule, q, next);
      assert SameMeaning(env, p, q);
    }
  }

  /** The rules named are those that reported a change, in the order they ran. */
  ghost predicate Reported(rules: seq<Rule>, plans: seq<Plan>, applied: seq<Rule>, at: seq<nat>)
    requires |plans| == |rules| + 1
  {
    && Picks(rules, applied, at)
    && forall k: nat :: k < |rules| ==> (k in at <==> Reports(rules[k], plans[k]))
  }

  lemma NamesSnoc(rules: seq<Rule>, plans: seq<Plan>, applied: seq<Rule>, at: seq<nat>, rule: Rule, next: Plan)
    requires |plans| == |rules| + 1 && Reported(rules, plans, applied, at)
    ensures var reports := Reports(rule, plans[|rules|]);
            Reported(rules + [rule], plans + [next], if reports then applied + [rule] else applied,
                   if reports then at + [|rules|] else at)
  {
    PicksSnoc(rules, rule, applied, at);
    var rules', plans' := rules + [rule], plans + [next];
    assert rules'[|rules|] == rule && plans'[|rules|] == plans[|rules|];
    assert forall k: nat :: k < |rules| ==> rules'[k] == rules[k] && plans'[k] == plans[k];
  }

  /** The run so far: the plans, the rules that reported a change, and none of them only if next to nothing changed. */
  ghost predicate Tracked(rules: seq<Rule>, plans: seq<Plan>, p: Plan, q: Plan, applied: seq<Rule>, at: seq<nat>) {
    Leads(rules, plans, p, q) && Reported(rules, plans, applied, at) && (applied == [] ==> Unreported(p, q))
  }

  lemma TrackedSnoc(rules: seq<Rule>, plans: seq<Plan>, p: Plan, q: Plan, applied: seq<Rule>, at: seq<nat>,
                    rule: Rule, t: Transformed<Plan>)
    requires Tracked(rules, plans, p, q, applied, at) && Rewrites(rule, q, t.plan)
    requires (t.No? ==> Unreported(q, t.plan)) && (t.Yes? <==> Reports(rule, q))
    ensures Tracked(rules + [rule], plans + [t.plan], p, t.plan, if t.Yes? then applied + [rule] else applied,
                    if t.Yes? then at + [|rules|] else at)
  {
    ChainSnoc(rules, plans, p, q, rule, t.plan);
    NamesSnoc(rules, plans, applied, at, rule, t.plan);
  }

  /** As `Optimize`, and names the rules that reported a change; unreported, only a scan's projection can be dropped. */
  method OptimizeWithTracking(rules: seq<Rule>, p: Plan) returns (q: Plan, applied: seq<Rule>)
    ensures Plannable(p) ==> Plannable(q) && SameEverywhere(p, q)
    ensures exists plans, at :: Leads(rules, plans, p, q) && Reported(rules, plans, applied, at)
    ensures applied == [] ==> Unreported(p, q)
  {
    q := p;
    applied := [];
    ghost var plans: seq<Plan>, at: seq<nat> := [p], [];
    for i := 0 to |rules|
      invariant Plannable(p) ==> Plannable(q) && SameEverywhere(p, q)
      invariant Tracked(rules[..i], plans, p, q, applied, at)
    {
      var t := Rewrite(rules[i], q);
      if Plannable(p) { StepKeepsMeaning(rules[i], p, q, t.plan); }
      TrackedSnoc(rules[..i], plans, p, q, applied, at, rules[i], t);
      assert rules[..i] + [rules[i]] == rules[..i + 1];
      plans := plans + [t.plan];
      if t.Yes? {
        applied := applied + [rules[i]];
        at := at + [i];
      }
      q := t.plan;
    }
    assert rules[..|rules|] == rules;
  }
}
