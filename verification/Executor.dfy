/** Row-at-a-time execution: the comparison of WHERE clauses and the single-hop traversal. */
module Executor {
  import opened Wrappers
  import opened Values
  import opened CsrGroups
  import opened RelTable
  import opened Expr

  // ------------------------------------------------------------------ WHERE

  /** An integer next to a float is compared as a float. */
  function PromoteForComparison(a: Value, b: Value): (Value, Value) {
    match (a, b)
    case (Int64(n), Float64(_)) => (IntToFloat(n), b)
    case (Float64(_), Int64(n)) => (a, IntToFloat(n))
    case _ => (a, b)
  }

  /** An integer next to a float is compared at the float's scale; otherwise the literal's own value counts. */
  ghost predicate FilterAnswer(v: Value, op: ComparisonOp, l: Literal, r: bool) {
    match (v, l)
    case (Int64(n), LFloat64(y)) => NumbersAnswer(n * Pow2(1074), op, y, r)
    case (Float64(x), LInt64(m)) => NumbersAnswer(x, op, m * Pow2(1074), r)
    case _ => forall w :: Denotes(l, w) ==> IsAnswer(v, op, w, r)
  }

  lemma PromotedAnswers(v: Value, op: ComparisonOp, l: Literal)
    ensures var (a, b) := PromoteForComparison(v, LiteralToValue(l));
            FilterAnswer(v, op, l, EvaluateComparison(a, op, b))
  {
    var (a, b) := PromoteForComparison(v, LiteralToValue(l));
    ComparisonMeans(a, op, b);
    LiteralDenotes(l);
  }

  /** `evaluate_expression`: a column that is missing fails the filter. */
  method EvaluateExpression(column: string, op: ComparisonOp, literal: Literal, row: Row) returns (r: bool)
    ensures column !in row ==> !r
    ensures column in row ==> FilterAnswer(row[column], op, literal, r)
  {
    if column !in row {
      return false;
    }
    var (a, b) := PromoteForComparison(row[column], LiteralToValue(literal));
    PromotedAnswers(row[column], op, literal);
    match Compare(a, b) {
      case None => return false;
      case Some(ordering) =>
        match op {
          case Gt => r := ordering == Greater;
          case Lt => r := ordering == Less;
          case Eq => r := ordering == Equal;
          case Gte => r := ordering != Less;
          case Lte => r := ordering != Greater;
          case Neq => r := ordering != Equal;
        }
    }
  }

  predicate Mixed(a: Value, b: Value) { (a.Int64? && b.Float64?) || (a.Float64? && b.Int64?) }

  /**
   The optimizer folds comparisons of constants without promotion, the executor
   compares with it. They agree exactly when not one side is an integer and the
   other a float.
   */
  lemma FoldingAgreesWithFilters(a: Value, b: Value)
    ensures (forall op ::
             EvaluateComparison(a, op, b)
               == EvaluateComparison(PromoteForComparison(a, b).0, op, PromoteForComparison(a, b).1))
       <==> !Mixed(a, b)
  {
    if Mixed(a, b) {
      var (x, y) := PromoteForComparison(a, b);
      assert !EvaluateComparison(a, Lte, b) && !EvaluateComparison(a, Gte, b);
      assert EvaluateComparison(x, Lte, y) || EvaluateComparison(x, Gte, y);
    }
  }

  // ------------------------------------------------------------------ single-hop traversal

  const I64_RANGE: nat := 0x8000_0000_0000_0000

  /** What the operator is configured with; `otherId` is the id that some further column of the row may carry. */
  datatype Hop = Hop(src: string, dst: string, rel: Option<string>, relColumns: seq<string>, direction: Direction,
                     otherId: Row -> Option<int>)

  function NodeId(id: int): Result<nat> { if id < 0 then Err(ExecutionError) else Ok(id) }

  /** `get_src_node_id`: the internal id first, then the property `id`. */
  function SrcNodeId(h: Hop, row: Row): Result<nat> {
    match (Get(row, Column(h.src, "_id")), Get(row, Column(h.src, "id")), h.otherId(row))
    case (Int64(id), _, _) => NodeId(id)
    case (_, Int64(id), _) => NodeId(id)
    case (_, _, Some(id)) => NodeId(id)
    case _ => Err(ExecutionError)
  }

  /** The logged edges a node is traversed along, forward ones first. */
  function Traversed(log: seq<Edge>, d: Direction, node: nat): seq<(nat, nat)> {
    match d
    case Forward => OutEdges(log, node)
    case Backward => InEdges(log, node)
    case Both => OutEdges(log, node) + InEdges(log, node)
  }

  function WithProperties(variable: string, columns: seq<string>, props: seq<Value>, row: Row): Row {
    if columns == [] then row
    else
      var n := |columns| - 1;
      var before := WithProperties(variable, columns[..n], props, row);
      if n < |props| then before[Column(variable, columns[n]) := props[n]] else before
  }

  /** The input row, the id of the node reached, and the relationship's id and properties if it has a variable. */
  function OutputRow(h: Hop, log: seq<Edge>, row: Row, dst: nat, relId: nat): Result<Row> {
    if dst >= I64_RANGE then Err(ExecutionError)
    else
      var reached := row[Column(h.dst, "_id") := Int64(dst)];
      match h.rel
      case None => Ok(reached)
      case Some(variable) =>
        if relId >= I64_RANGE then Err(ExecutionError)
        else
          var named := reached[Column(variable, "_id") := Int64(relId)];
          if relId < |log| && log[relId].props != []
          then Ok(WithProperties(variable, h.relColumns, log[relId].props, named))
          else Ok(named)
  }

  function OutputRows(h: Hop, log: seq<Edge>, row: Row, edges: seq<(nat, nat)>): (r: seq<Result<Row>>)
    ensures |r| == |edges|
  {
    seq(|edges|, i requires 0 <= i < |edges| => OutputRow(h, log, row, edges[i].0, edges[i].1))
  }

  /** What one answer of the input operator leads to: the edges of its row in turn, or one error. */
  function AnswersTo(h: Hop, log: seq<Edge>, input: Result<Row>): seq<Result<Row>> {
    match input
    case Err(e) => [Err(e)]
    case Ok(row) =>
      match SrcNodeId(h, row)
      case Err(e) => [Err(e)]
      case Ok(id) => OutputRows(h, log, row, Traversed(log, h.direction, id))
  }

  /** Everything the operator still has to say. */
  function Answers(h: Hop, log: seq<Edge>, input: seq<Result<Row>>): seq<Result<Row>> {
    if input == [] then [] else AnswersTo(h, log, input[0]) + Answers(h, log, input[1..])
  }

  // ------------------------------------------------------------------ what the answers say

  /** The last of the relationship's columns that has this name and a value. */
  ghost predicate IsProperty(variable: string, columns: seq<string>, props: seq<Value>, column: string, v: Value) {
    exists i ::
      && 0 <= i < |columns| && i < |props| && column == variable + "." + columns[i] && v == props[i]
      && forall k :: i < k < |columns| && k < |props| ==> column != variable + "." + columns[k]
  }

  ghost predicate HasProperty(variable: string, columns: seq<string>, props: seq<Value>, column: string) {
    exists v :: IsProperty(variable, columns, props, column, v)
  }

  /** Where a column of the answer comes from when it is no property: an id that was added, or the input row. */
  ghost predicate IsOtherColumn(h: Hop, row: Row, dst: nat, relId: nat, column: string, output: Row) {
    if h.rel.Some? && column == h.rel.value + "." + "_id" then column in output && output[column] == Int64(relId)
    else if column == h.dst + "." + "_id" then column in output && output[column] == Int64(dst)
    else (column in output <==> column in row) && (column in row ==> output[column] == row[column])
  }

  ghost predicate IsAnswerColumn(h: Hop, row: Row, dst: nat, relId: nat, props: seq<Value>, column: string,
                                 output: Row)
  {
    if h.rel.Some? && HasProperty(h.rel.value, h.relColumns, props, column)
    then column in output && IsProperty(h.rel.value, h.relColumns, props, column, output[column])
    else IsOtherColumn(h, row, dst, relId, column, output)
  }

  ghost predicate IsAnswerFor(h: Hop, row: Row, dst: nat, relId: nat, props: seq<Value>, output: Row) {
    forall column :: IsAnswerColumn(h, row, dst, relId, props, column, output)
  }

  lemma {:induction false} PropertiesAdded(variable: string, columns: seq<string>, props: seq<Value>, row: Row,
                                           column: string)
    ensures var output := WithProperties(variable, columns, props, row);
            if HasProperty(variable, columns, props, column)
            then column in output && IsProperty(variable, columns, props, column, output[column])
            else (column in output <==> column in row) && (column in row ==> output[column] == row[column])
  {
    if columns != [] {
      var front, last := columns[..|columns| - 1], columns[|columns| - 1];
      PropertiesAdded(variable, front, props, row, column);
      PropertySnoc(variable, front, last, props, column);
      assert front + [last] == columns;
      if column == variable + "." + last && |front| < |props| {
        assert IsProperty(variable, columns, props, column, props[|front|]);
      } else if HasProperty(variable, front, props, column) {
        var v :| IsProperty(variable, front, props, column, v);
        assert IsProperty(variable, columns, props, column, v);
      }
    }
  }

  lemma PropertySnoc(variable: string, front: seq<string>, last: string, props: seq<Value>, column: string)
    ensures forall v :: IsProperty(variable, front + [last], props, column, v) <==>
              if column == variable + "." + last && |front| < |props| then v == props[|front|]
              else IsProperty(variable, front, props, column, v)
  {
    var all := front + [last];
    assert all[|front|] == last && forall k :: 0 <= k < |front| ==> all[k] == front[k];
    if !(column == variable + "." + last && |front| < |props|) {
      forall v | IsProperty(variable, front, props, column, v) ensures IsProperty(variable, all, props, column, v) {
        var i :| && 0 <= i < |front| && i < |props| && column == variable + "." + front[i] && v == props[i]
                 && forall k :: i < k < |front| && k < |props| ==> column != variable + "." + front[k];
        assert column == variable + "." + all[i];
      }
    }
  }

  /** The properties under an id that the log has. */
  function PropsOf(log: seq<Edge>, relId: nat): seq<Value> { if relId < |log| then log[relId].props else [] }

  /** An answer is refused for ids beyond 2^63, and otherwise holds exactly the input row and what the edge adds. */
  lemma OutputRowMeans(h: Hop, log: seq<Edge>, row: Row, dst: nat, relId: nat)
    ensures var r := OutputRow(h, log, row, dst, relId);
            && (r.Err? <==> dst >= 0x8000_0000_0000_0000 || (h.rel.Some? && relId >= 0x8000_0000_0000_0000))
            && (r.Ok? ==> IsAnswerFor(h, row, dst, relId, PropsOf(log, relId), r.value))
  {
    var r := OutputRow(h, log, row, dst, relId);
    if r.Ok? && h.rel.Some? {
      var named := row[Column(h.dst, "_id") := Int64(dst)][Column(h.rel.value, "_id") := Int64(relId)];
      forall column
        ensures IsAnswerColumn(h, row, dst, relId, PropsOf(log, relId), column, r.value)
      {
        PropertiesAdded(h.rel.value, h.relColumns, PropsOf(log, relId), named, column);
      }
    }
  }

  /** The row's own id, or else its property `id`, or else what the third lookup finds; negative ids are refused. */
  lemma SourceMeans(h: Hop, row: Row, id: nat)
    ensures SrcNodeId(h, row) == Ok(id)
       <==> if h.src + "." + "_id" in row && row[h.src + "." + "_id"].Int64? then row[h.src + "." + "_id"].n == id
            else if h.src + "." + "id" in row && row[h.src + "." + "id"].Int64? then row[h.src + "." + "id"].n == id
            else h.otherId(row) == Some(id)
  {}

  /** Answers come input by input, and those to one row come edge by edge. */
  lemma {:induction false} AnswersInTurn(h: Hop, log: seq<Edge>, a: seq<Result<Row>>, b: seq<Result<Row>>)
    ensures Answers(h, log, a + b) == Answers(h, log, a) + Answers(h, log, b)
  {
    if a == [] {
      assert a + b == b;
    } else {
      assert (a + b)[1..] == a[1..] + b;
      AnswersInTurn(h, log, a[1..], b);
      Assoc(AnswersTo(h, log, a[0]), Answers(h, log, a[1..]), Answers(h, log, b));
    }
  }

  /** The answer for one edge. */
  ghost predicate AnswersEdge(h: Hop, log: seq<Edge>, row: Row, edge: (nat, nat), r: Result<Row>) {
    && (r.Err? <==> edge.0 >= 0x8000_0000_0000_0000 || (h.rel.Some? && edge.1 >= 0x8000_0000_0000_0000))
    && (r.Ok? ==> IsAnswerFor(h, row, edge.0, edge.1, PropsOf(log, edge.1), r.value))
  }

  /** An input row with an id has one answer for each edge it is traversed along, in their order. */
  lemma RowAnswers(h: Hop, log: seq<Edge>, row: Row, id: nat, edges: seq<(nat, nat)>)
    requires SrcNodeId(h, row) == Ok(id) && edges == Traversed(log, h.direction, id)
    ensures |Answers(h, log, [Ok(row)])| == |edges|
    ensures forall i :: 0 <= i < |edges| ==> AnswersEdge(h, log, row, edges[i], Answers(h, log, [Ok(row)])[i])
  {
    assert [Ok(row)][1..] == [];
    forall i | 0 <= i < |edges|
      ensures AnswersEdge(h, log, row, edges[i], OutputRow(h, log, row, edges[i].0, edges[i].1))
    {
      OutputRowMeans(h, log, row, edges[i].0, edges[i].1);
    }
  }

  /** A row without an id, and an error of the input, have one answer, which is an error. */
  lemma ErrorAnswers(h: Hop, log: seq<Edge>, input: Result<Row>)
    requires input.Ok? ==> SrcNodeId(h, input.value).Err?
    ensures |Answers(h, log, [input])| == 1 && Answers(h, log, [input])[0].Err?
    ensures input.Err? ==> Answers(h, log, [input]) == [input]
  {
    assert [input][1..] == [];
  }

  class ExtendOperator {
    const hop: Hop
    const relTable: RelTable
    /** The rows and errors the input operator has not handed out yet. */
    var input: seq<Result<Row>>
    var currentInputRow: Row
    var currentEdges: seq<(nat, nat)>
    var edgeIndex: nat

    constructor (hop: Hop, relTable: RelTable, input: seq<Result<Row>>)
      requires relTable.Valid()
      ensures Valid() && this.hop == hop && this.relTable == relTable
           && Remaining() == Answers(hop, relTable.log, input)
    {
      this.hop := hop;
      this.relTable := relTable;
      this.input := input;
      currentInputRow := map[];
      currentEdges := [];
      edgeIndex := 0;
    }

    ghost predicate Valid()
      reads this, relTable
    {
      relTable.Valid() && edgeIndex <= |currentEdges|
    }

    ghost function Remaining(): seq<Result<Row>>
      reads this, relTable
      requires Valid()
    {
      OutputRows(hop, relTable.log, currentInputRow, currentEdges[edgeIndex..]) + Answers(hop, relTable.log, input)
    }

    function FetchEdges(node: nat): seq<(nat, nat)>
      reads relTable
      requires relTable.Valid()
      ensures FetchEdges(node) == Traversed(relTable.log, hop.direction, node)
      ensures hop.direction == Forward ==> FetchEdges(node) == OutEdges(relTable.log, node)
      ensures hop.direction == Backward ==> FetchEdges(node) == InEdges(relTable.log, node)
      ensures hop.direction == Both ==> FetchEdges(node) == OutEdges(relTable.log, node) + InEdges(relTable.log, node)
    {
      match hop.direction
      case Forward => relTable.GetForwardEdges(node)
      case Backward => relTable.GetBackwardEdges(node)
      case Both => relTable.GetForwardEdges(node) + relTable.GetBackwardEdges(node)
    }

    /** The relationship's properties as the table keeps them. */
    method CreateOutputRow(dst: nat, relId: nat) returns (r: Result<Row>)
      requires relTable.Valid()
      ensures r == OutputRow(hop, relTable.log, currentInputRow, dst, relId)
      ensures AnswersEdge(hop, relTable.log, currentInputRow, (dst, relId), r)
    {
      OutputRowMeans(hop, relTable.log, currentInputRow, dst, relId);
      if dst >= I64_RANGE {
        return Err(ExecutionError);
      }
      var output := currentInputRow[Column(hop.dst, "_id") := Int64(dst)];
      if hop.rel.None? {
        return Ok(output);
      }
      if relId >= I64_RANGE {
        return Err(ExecutionError);
      }
      output := output[Column(hop.rel.value, "_id") := Int64(relId)];
      if relId in relTable.properties {
        output := AddProperties(output, relTable.properties[relId]);
      }
      r := Ok(output);
    }

    method AddProperties(row: Row, props: seq<Value>) returns (output: Row)
      requires hop.rel.Some?
      ensures output == WithProperties(hop.rel.value, hop.relColumns, props, row)
    {
      output := row;
      for i := 0 to |hop.relColumns|
        invariant output == WithProperties(hop.rel.value, hop.relColumns[..i], props, row)
      {
        assert hop.relColumns[..i + 1][..i] == hop.relColumns[..i];
        if i < |props| {
          output := output[Column(hop.rel.value, hop.relColumns[i]) := props[i]];
        }
      }
      assert hop.relColumns[..|hop.relColumns|] == hop.relColumns;
    }

    /** The pending edges of the current row are answered one by one. */
    method NextEdge() returns (r: Result<Row>)
      requires Valid() && edgeIndex < |currentEdges|
      modifies this`edgeIndex
      ensures Valid() && Remaining() == old(Remaining())[1..] && old(Remaining()) != [] && r == old(Remaining())[0]
    {
      var (dst, relId) := currentEdges[edgeIndex];
      FirstOfRest(hop, relTable.log, currentInputRow, currentEdges[edgeIndex..], Answers(hop, relTable.log, input));
      assert currentEdges[edgeIndex..][1..] == currentEdges[edgeIndex + 1..];
      edgeIndex := edgeIndex + 1;
      r := CreateOutputRow(dst, relId);
    }

    /** One more answer of the input operator: a row whose edges become pending, or an error to pass on. */
    method Advance() returns (r: Result<()>)
      requires Valid() && edgeIndex == |currentEdges| && input != []
      modifies this
      ensures Valid() && input == old(input)[1..]
      ensures r.Ok? ==> Remaining() == old(Remaining())
      ensures r.Err? ==> old(Remaining()) == [Err(r.error)] + Remaining()
    {
      var answer := input[0];
      input := input[1..];
      ghost var more := Answers(hop, relTable.log, input);
      assert old(Remaining()) == AnswersTo(hop, relTable.log, answer) + more;
      assert Remaining() == [] + more == more;
      if answer.Err? {
        return Err(answer.error);
      }
      var id := SrcNodeId(hop, answer.value);
      if id.Err? {
        return Err(id.error);
      }
      currentEdges := FetchEdges(id.value);
      edgeIndex := 0;
      currentInputRow := answer.value;
      assert currentEdges[0..] == currentEdges;
      assert Remaining() == OutputRows(hop, relTable.log, answer.value, currentEdges) + more;
      r := Ok(());
    }

    /** Hands out what remains, one answer at a time; an error is answered once and the next row follows. */
    method Next() returns (r: Result<Option<Row>>)
      requires Valid()
      modifies this
      ensures Valid()
      ensures old(Remaining()) == [] ==> r == Ok(None) && Remaining() == []
      ensures old(Remaining()) != [] ==> Remaining() == old(Remaining())[1..]
      ensures old(Remaining()) != []
          ==> r == match old(Remaining())[0] case Ok(row) => Ok(Some(row)) case Err(e) => Err(e)
    {
      while true
        invariant Valid() && Remaining() == old(Remaining())
        decreases |input|
      {
        if edgeIndex < |currentEdges| {
          var output := NextEdge();
          r := if output.Ok? then Ok(Some(output.value)) else Err(output.error);
          return;
        }
        if input == [] {
          return Ok(None);
        }
        var advanced := Advance();
        if advanced.Err? {
          return Err(advanced.error);
        }
      }
    }
  }

  lemma FirstOfRest(h: Hop, log: seq<Edge>, row: Row, edges: seq<(nat, nat)>, more: seq<Result<Row>>)
    requires edges != []
    ensures OutputRows(h, log, row, edges) + more
         == [OutputRow(h, log, row, edges[0].0, edges[0].1)] + (OutputRows(h, log, row, edges[1..]) + more)
  {
    assert OutputRows(h, log, row, edges)
        == [OutputRow(h, log, row, edges[0].0, edges[0].1)] + OutputRows(h, log, row, edges[1..]);
  }
}
