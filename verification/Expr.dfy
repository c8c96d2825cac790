/**
 Bound expressions: their two-valued meaning, in which a comparison without an
 ordering is false, and the simplification that must not change it.
 */
module Expr {
  import opened Wrappers
  import opened Values

  datatype ComparisonOp = Eq | Neq | Lt | Lte | Gt | Gte
  datatype LogicalOp = And | Or | Not
  datatype ArithmeticOp = Add | Sub | Mul | Div | Mod
  datatype AggregateFunction = Count | Sum | Avg | Min | Max

  datatype Expr =
    | Constant(value: Value, dataType: DataType)
    | PropertyAccess(variable: string, property: string, dataType: DataType)
    | VariableRef(variable: string, dataType: DataType)
    | Comparison(left: Expr, cmp: ComparisonOp, right: Expr, dataType: DataType)
    | Logical(op: LogicalOp, operands: seq<Expr>, dataType: DataType)
    | Arithmetic(left: Expr, arith: ArithmeticOp, right: Expr, dataType: DataType)
    | Aggregate(fn: AggregateFunction, input: Option<Expr>, distinct: bool, dataType: DataType)
    | IsNull(operand: Expr, negated: bool, dataType: DataType)

  /** `BoundExpression::literal` */
  function Lit(v: Value): Expr {
    Constant(v, match TypeOf(v) case Some(t) => t case None => TString)
  }

  function NotOf(e: Expr): Expr { Logical(Not, [e], TBool) }

  // ------------------------------------------------------------------ meaning

  /** What the code leaves to others: arithmetic, and aggregates over whatever they range. */
  datatype Arith = Arith(arith: (ArithmeticOp, Value, Value) -> Value,
                         agg: (AggregateFunction, Option<Value>, bool) -> Value)

  function EvaluateComparison(l: Value, op: ComparisonOp, r: Value): bool {
    match Compare(l, r)
    case None => false
    case Some(Equal) => op in {Eq, Lte, Gte}
    case Some(Less) => op in {Lt, Lte, Neq}
    case Some(Greater) => op in {Gt, Gte, Neq}
  }

  ghost predicate NumbersAnswer(x: int, op: ComparisonOp, y: int, r: bool) {
    match op
    case Gt => r == (x > y)
    case Lt => r == (x < y)
    case Eq => r == (x == y)
    case Gte => r == (x >= y)
    case Lte => r == (x <= y)
    case Neq => r == (x != y)
  }

  /**
   What the six operators answer on values of one type: numbers by size, false before true,
   strings as in a dictionary. Anything else, null included, compares false.
   */
  ghost predicate IsAnswer(v: Value, op: ComparisonOp, w: Value, r: bool) {
    match (v, w)
    case (Int64(n), Int64(m)) => NumbersAnswer(n, op, m, r)
    case (Float64(x), Float64(y)) => NumbersAnswer(x, op, y, r)
    case (Bool(a), Bool(b)) => (
      match op
      case Gt => r == (a && !b)
      case Lt => r == (!a && b)
      case Eq => r == (a == b)
      case Gte => r == (a || !b)
      case Lte => r == (!a || b)
      case Neq => r == (a != b))
    case (String(s), String(t)) => (
      match op
      case Gt => r == Precedes(t, s)
      case Lt => r == Precedes(s, t)
      case Eq => r == (s == t)
      case Gte => r == (Precedes(t, s) || s == t)
      case Lte => r == (Precedes(s, t) || s == t)
      case Neq => r == (s != t))
    case _ => !r
  }

  lemma ComparisonMeans(v: Value, op: ComparisonOp, w: Value)
    ensures IsAnswer(v, op, w, EvaluateComparison(v, op, w))
  {
    if v.String? && w.String? { StringsCompare(v.s, w.s); }
  }

  function Column(variable: string, property: string): string { variable + "." + property }

  function Get(row: Row, column: string): Value { if column in row then row[column] else Null }

  function Eval(a: Arith, e: Expr, row: Row): Value {
    match e
    case Constant(v, _) => v
    case PropertyAccess(variable, property, _) => Get(row, Column(variable, property))
    case VariableRef(variable, _) => Get(row, variable)
    case Comparison(l, op, r, _) => Bool(EvaluateComparison(Eval(a, l, row), op, Eval(a, r, row)))
    case Logical(And, ops, _) => Bool(forall i :: 0 <= i < |ops| ==> Eval(a, ops[i], row) == Bool(true))
    case Logical(Or, ops, _) => Bool(exists i :: 0 <= i < |ops| && Eval(a, ops[i], row) == Bool(true))
    case Logical(Not, ops, _) => Bool(|ops| > 0 && Eval(a, ops[0], row) != Bool(true))
    case Arithmetic(l, op, r, _) => a.arith(op, Eval(a, l, row), Eval(a, r, row))
    case Aggregate(fn, Some(input), distinct, _) => a.agg(fn, Some(Eval(a, input, row)), distinct)
    case Aggregate(fn, None, distinct, _) => a.agg(fn, None, distinct)
    case IsNull(operand, negated, _) => Bool((Eval(a, operand, row) == Null) != negated)
  }

  /** A row passes a filter exactly if the predicate is true on it. */
  predicate Holds(a: Arith, e: Expr, row: Row) { Eval(a, e, row) == Bool(true) }

  // ------------------------------------------------------------------ constant classification

  datatype ConstantValue = True | False | Unknown

  function OfBool(b: bool): ConstantValue { if b then True else False }

  function ConstOf(e: Expr): ConstantValue {
    match e
    case Constant(Bool(b), _) => OfBool(b)
    case Comparison(Constant(l, _), op, Constant(r, _), _) => OfBool(EvaluateComparison(l, op, r))
    case Logical(And, ops, _) =>
      if exists i :: 0 <= i < |ops| && ConstOf(ops[i]) == False then False
      else if forall i :: 0 <= i < |ops| ==> ConstOf(ops[i]) == True then True else Unknown
    case Logical(Or, ops, _) =>
      if exists i :: 0 <= i < |ops| && ConstOf(ops[i]) == True then True
      else if forall i :: 0 <= i < |ops| ==> ConstOf(ops[i]) == False then False else Unknown
    case Logical(Not, ops, _) =>
      if ops == [] then Unknown else Negated(ConstOf(ops[0]))
    case _ => Unknown
  }

  function Negated(c: ConstantValue): ConstantValue {
    match c
    case True => False
    case False => True
    case Unknown => Unknown
  }

  /** No column decides it: boolean constants, comparisons of constants, and what is made of them. */
  predicate Ground(e: Expr) {
    match e
    case Constant(Bool(_), _) => true
    case Comparison(Constant(_, _), _, Constant(_, _), _) => true
    case Logical(Not, ops, _) => ops != [] && Ground(ops[0])
    case Logical(_, ops, _) => forall i :: 0 <= i < |ops| ==> Ground(ops[i])
    case _ => false
  }

  /** Such an expression is always classified, and one operand is enough to decide a conjunction or disjunction. */
  lemma {:induction false} GroundIsDecided(e: Expr)
    ensures Ground(e) ==> ConstOf(e) != Unknown
    ensures e.Logical? && e.op == And && (exists i :: 0 <= i < |e.operands| && ConstOf(e.operands[i]) == False) ==>
              ConstOf(e) == False
    ensures e.Logical? && e.op == Or && (exists i :: 0 <= i < |e.operands| && ConstOf(e.operands[i]) == True) ==>
              ConstOf(e) == True
    ensures e.Logical? && e.op == Not && e.operands != [] ==>
              (ConstOf(e) == True <==> ConstOf(e.operands[0]) == False)
  {
    if e.Logical? {
      forall i | 0 <= i < |e.operands| ensures Ground(e.operands[i]) ==> ConstOf(e.operands[i]) != Unknown {
        GroundIsDecided(e.operands[i]);
      }
    }
  }

  method TryEvaluateConstant(e: Expr) returns (r: ConstantValue)
    ensures r == ConstOf(e) && (Ground(e) ==> r != Unknown)
  {
    GroundIsDecided(e);
    match e
    case Constant(Bool(b), _) =>
      r := if b then True else False;
    case Comparison(Constant(l, _), op, Constant(rv, _), _) =>
      r := if EvaluateComparison(l, op, rv) then True else False;
    case Logical(And, ops, _) =>
      var allTrue := true;
      for i := 0 to |ops|
        invariant forall k :: 0 <= k < i ==> ConstOf(ops[k]) != False
        invariant allTrue <==> forall k :: 0 <= k < i ==> ConstOf(ops[k]) == True
      {
        var c := TryEvaluateConstant(ops[i]);
        if c == False {
          return False;
        }
        allTrue := allTrue && c == True;
      }
      r := if allTrue then True else Unknown;
    case Logical(Or, ops, _) =>
      var allFalse := true;
      for i := 0 to |ops|
        invariant forall k :: 0 <= k < i ==> ConstOf(ops[k]) != True
        invariant allFalse <==> forall k :: 0 <= k < i ==> ConstOf(ops[k]) == False
      {
        var c := TryEvaluateConstant(ops[i]);
        if c == True {
          return True;
        }
        allFalse := allFalse && c == False;
      }
      r := if allFalse then False else Unknown;
    case Logical(Not, ops, _) =>
      if ops == [] {
        return Unknown;
      }
      var c := TryEvaluateConstant(ops[0]);
      r := Negated(c);
    case _ =>
      r := Unknown;
  }

  /** A classification is the predicate's value on every row. */
  lemma {:induction false} ConstIsValue(a: Arith, e: Expr, row: Row)
    ensures ConstOf(e) == True ==> Holds(a, e, row)
    ensures ConstOf(e) == False ==> !Holds(a, e, row)
  {
    match e
    case Logical(op, ops, _) =>
      forall i | 0 <= i < |ops|
        ensures ConstOf(ops[i]) == True ==> Holds(a, ops[i], row)
        ensures ConstOf(ops[i]) == False ==> !Holds(a, ops[i], row)
      {
        ConstIsValue(a, ops[i], row);
      }
    case Comparison(l, op, r, _) =>
      if l.Constant? && r.Constant? {
        assert Eval(a, l, row) == l.value && Eval(a, r, row) == r.value;
      }
    case _ =>
  }

  // ------------------------------------------------------------------ simplification

  function KeepUnknown(es: seq<Expr>): seq<Expr> {
    if es == [] then []
    else KeepUnknown(es[..|es| - 1]) + if ConstOf(es[|es| - 1]) == Unknown then [es[|es| - 1]] else []
  }

  /** What is left of a conjunction or disjunction whose operands are simplified. */
  function Rebuild(op: LogicalOp, es: seq<Expr>, unit: bool, dataType: DataType): Expr {
    var kept := KeepUnknown(es);
    if exists i :: 0 <= i < |es| && ConstOf(es[i]) == OfBool(!unit) then Lit(Bool(!unit))
    else if |kept| == 0 then Lit(Bool(unit))
    else if |kept| == 1 then kept[0]
    else Logical(op, kept, dataType)
  }

  function SimplifyAll(es: seq<Expr>): (r: seq<Expr>)
    ensures |r| == |es|
  {
    seq(|es|, i requires 0 <= i < |es| => Simplify(es[i]))
  }

  function Simplify(e: Expr): Expr {
    match e
    case Logical(And, ops, dataType) => Rebuild(And, SimplifyAll(ops), true, dataType)
    case Logical(Or, ops, dataType) => Rebuild(Or, SimplifyAll(ops), false, dataType)
    case Logical(Not, ops, _) =>
      if ops == [] then e
      else
        var s := Simplify(ops[0]);
        (match ConstOf(s)
         case True => Lit(Bool(false))
         case False => Lit(Bool(true))
         case Unknown => NotOf(s))
    case Comparison(Constant(l, _), op, Constant(r, _), _) => Lit(Bool(EvaluateComparison(l, op, r)))
    case _ => e
  }

  /**
   Nothing is left to simplify: conjunctions and disjunctions have two operands or more, no operand
   is decided, and no constants are compared.
   */
  predicate Normal(e: Expr) {
    match e
    case Logical(Not, ops, _) => ops == [] || (|ops| == 1 && ConstOf(ops[0]) == Unknown && Normal(ops[0]))
    case Logical(_, ops, _) => |ops| >= 2 && forall i :: 0 <= i < |ops| ==> ConstOf(ops[i]) == Unknown && Normal(ops[i])
    case Comparison(l, _, r, _) => !(l.Constant? && r.Constant?)
    case _ => true
  }

  /** The simplified predicate is in this form, and a decided one is the constant itself. */
  lemma {:induction false} SimplifyIsNormal(e: Expr)
    ensures Normal(Simplify(e))
    ensures ConstOf(Simplify(e)) == True ==> Simplify(e).Constant? && Simplify(e).value == Bool(true)
    ensures ConstOf(Simplify(e)) == False ==> Simplify(e).Constant? && Simplify(e).value == Bool(false)
  {
    match e
    case Logical(op, ops, dataType) =>
      var all := SimplifyAll(ops);
      forall i | 0 <= i < |ops| ensures Normal(all[i]) {
        SimplifyIsNormal(ops[i]);
      }
      if op == Not {
        if ops != [] { assert Normal(all[0]); }
      } else {
        RebuiltIsNormal(op, all, op == And, dataType);
      }
    case _ =>
  }

  lemma RebuiltIsNormal(op: LogicalOp, es: seq<Expr>, unit: bool, dataType: DataType)
    requires (op == And && unit) || (op == Or && !unit)
    requires forall i :: 0 <= i < |es| ==> Normal(es[i])
    ensures var r := Rebuild(op, es, unit, dataType);
            && Normal(r)
            && (ConstOf(r) == True ==> r.Constant? && r.value == Bool(true))
            && (ConstOf(r) == False ==> r.Constant? && r.value == Bool(false))
  {
    KeptIsUnknown(es);
    var kept := KeepUnknown(es);
    forall k | 0 <= k < |kept| ensures ConstOf(kept[k]) == Unknown && Normal(kept[k]) {
      assert kept[k] in kept;
    }
    if |kept| > 1 {
      ConstOfLogical(op, kept, unit, dataType);
      assert ConstOf(kept[0]) == Unknown;
    }
  }

  method SimplifyPredicate(e: Expr) returns (r: Expr)
    ensures r == Simplify(e) && Normal(r)
  {
    SimplifyIsNormal(e);
    match e
    case Logical(And, ops, dataType) =>
      r := SimplifyOperands(And, ops, true, dataType);
    case Logical(Or, ops, dataType) =>
      r := SimplifyOperands(Or, ops, false, dataType);
    case Logical(Not, ops, _) =>
      if ops == [] {
        return e;
      }
      var simplified := SimplifyPredicate(ops[0]);
      var c := TryEvaluateConstant(simplified);
      match c {
        case True => r := Lit(Bool(false));
        case False => r := Lit(Bool(true));
        case Unknown => r := NotOf(simplified);
      }
    case Comparison(Constant(l, _), op, Constant(rv, _), _) =>
      r := Lit(Bool(EvaluateComparison(l, op, rv)));
    case _ =>
      r := e;
  }

  /** Stops at the first operand that decides the result; drops those that do not matter. */
  method SimplifyOperands(op: LogicalOp, ops: seq<Expr>, unit: bool, dataType: DataType) returns (r: Expr)
    ensures r == Rebuild(op, SimplifyAll(ops), unit, dataType)
    decreases ops
  {
    ghost var all := SimplifyAll(ops);
    var newOperands := [];
    for i := 0 to |ops|
      invariant newOperands == KeepUnknown(all[..i])
      invariant forall k :: 0 <= k < i ==> ConstOf(all[k]) != OfBool(!unit)
    {
      var simplified := SimplifyPredicate(ops[i]);
      var c := TryEvaluateConstant(simplified);
      assert all[i] == simplified && all[..i + 1][..i] == all[..i];
      if c == OfBool(!unit) {
        return Lit(Bool(!unit));
      }
      if c == Unknown {
        newOperands := newOperands + [simplified];
      }
    }
    assert all[..|ops|] == all;
    r := if |newOperands| == 0 then Lit(Bool(unit))
      else if |newOperands| == 1 then newOperands[0] else Logical(op, newOperands, dataType);
  }

  // ------------------------------------------------------------------ simplification keeps the meaning

  lemma {:induction false} KeptIsUnknown(es: seq<Expr>)
    ensures forall e :: e in KeepUnknown(es) <==> e in es && ConstOf(e) == Unknown
  {
    if es != [] {
      KeptIsUnknown(es[..|es| - 1]);
      assert es == es[..|es| - 1] + [es[|es| - 1]];
    }
  }

  /** An operand is decided by its classification or is still there. */
  lemma OperandKept(a: Arith, es: seq<Expr>, row: Row, i: nat) returns (k: nat)
    requires i < |es|
    ensures ConstOf(es[i]) == True ==> Holds(a, es[i], row)
    ensures ConstOf(es[i]) == False ==> !Holds(a, es[i], row)
    ensures ConstOf(es[i]) == Unknown ==> k < |KeepUnknown(es)| && KeepUnknown(es)[k] == es[i]
  {
    KeptIsUnknown(es);
    ConstIsValue(a, es[i], row);
    k := 0;
    if ConstOf(es[i]) == Unknown {
      assert es[i] in KeepUnknown(es);
      k :| 0 <= k < |KeepUnknown(es)| && KeepUnknown(es)[k] == es[i];
    }
  }

  lemma KeptOperand(es: seq<Expr>, k: nat) returns (i: nat)
    requires k < |KeepUnknown(es)|
    ensures i < |es| && es[i] == KeepUnknown(es)[k]
  {
    KeptIsUnknown(es);
    assert KeepUnknown(es)[k] in es;
    i :| 0 <= i < |es| && es[i] == KeepUnknown(es)[k];
  }

  lemma AllHold(a: Arith, es: seq<Expr>, row: Row)
    ensures (forall i :: 0 <= i < |es| ==> Holds(a, es[i], row))
       <==> (forall i :: 0 <= i < |es| ==> ConstOf(es[i]) != False)
              && forall k :: 0 <= k < |KeepUnknown(es)| ==> Holds(a, KeepUnknown(es)[k], row)
  {
    var kept := KeepUnknown(es);
    if i :| 0 <= i < |es| && !Holds(a, es[i], row) {
      var k := OperandKept(a, es, row, i);
    } else {
      forall i | 0 <= i < |es| ensures ConstOf(es[i]) != False {
        var k := OperandKept(a, es, row, i);
      }
      forall k | 0 <= k < |kept| ensures Holds(a, kept[k], row) {
        var i := KeptOperand(es, k);
      }
    }
  }

  lemma SomeHolds(a: Arith, es: seq<Expr>, row: Row)
    ensures (exists i :: 0 <= i < |es| && Holds(a, es[i], row))
       <==> (exists i :: 0 <= i < |es| && ConstOf(es[i]) == True)
              || exists k :: 0 <= k < |KeepUnknown(es)| && Holds(a, KeepUnknown(es)[k], row)
  {
    var kept := KeepUnknown(es);
    if i :| 0 <= i < |es| && Holds(a, es[i], row) {
      var k := OperandKept(a, es, row, i);
    } else {
      forall i | 0 <= i < |es| ensures ConstOf(es[i]) != True {
        var k := OperandKept(a, es, row, i);
      }
      forall k | 0 <= k < |kept| ensures !Holds(a, kept[k], row) {
        var i := KeptOperand(es, k);
      }
    }
  }

  /** All operands hold: those that are left, if none is false. */
  lemma ConjunctionKept(a: Arith, es: seq<Expr>, dataType: DataType, row: Row)
    ensures Holds(a, Rebuild(And, es, true, dataType), row) <==> forall i :: 0 <= i < |es| ==> Holds(a, es[i], row)
  {
    AllHold(a, es, row);
  }

  lemma DisjunctionKept(a: Arith, es: seq<Expr>, dataType: DataType, row: Row)
    ensures Holds(a, Rebuild(Or, es, false, dataType), row) <==> exists i :: 0 <= i < |es| && Holds(a, es[i], row)
  {
    SomeHolds(a, es, row);
    var r, kept := Rebuild(Or, es, false, dataType), KeepUnknown(es);
    assert OfBool(!false) == True;
    if exists i :: 0 <= i < |es| && ConstOf(es[i]) == True {
      assert r == Lit(Bool(true));
    } else if |kept| == 1 {
      assert r == kept[0];
      assert (exists k :: 0 <= k < |kept| && Holds(a, kept[k], row)) <==> Holds(a, kept[0], row);
    } else {
      SomeOperand(a, kept, dataType, row);
    }
  }

  lemma SomeOperand(a: Arith, es: seq<Expr>, dataType: DataType, row: Row)
    ensures Holds(a, Logical(Or, es, dataType), row) <==> exists i :: 0 <= i < |es| && Holds(a, es[i], row)
  {}

  /** On every row the simplified predicate is true exactly when the predicate is. */
  lemma {:induction false} SimplifyKeepsTruth(a: Arith, e: Expr, row: Row)
    ensures Holds(a, Simplify(e), row) <==> Holds(a, e, row)
  {
    match e
    case Logical(op, ops, dataType) =>
      var all := SimplifyAll(ops);
      forall i | 0 <= i < |ops| ensures Holds(a, all[i], row) <==> Holds(a, ops[i], row) {
        SimplifyKeepsTruth(a, ops[i], row);
      }
      if op == And {
        ConjunctionKept(a, all, dataType, row);
      } else if op == Or {
        DisjunctionKept(a, all, dataType, row);
      } else if ops != [] {
        ConstIsValue(a, all[0], row);
      }
    case Comparison(l, op, r, _) =>
      if l.Constant? && r.Constant? {
        assert Eval(a, l, row) == l.value && Eval(a, r, row) == r.value;
      }
    case _ =>
  }

  lemma RebuiltConst(op: LogicalOp, es: seq<Expr>, unit: bool, dataType: DataType)
    requires (op == And && unit) || (op == Or && !unit)
    ensures ConstOf(Rebuild(op, es, unit, dataType)) == ConstOf(Logical(op, es, dataType))
  {
    KeptConst(es);
    var kept := KeepUnknown(es);
    ConstOfLogical(op, es, unit, dataType);
    ConstOfLogical(op, kept, unit, dataType);
    if kept != [] { assert ConstOf(kept[0]) == Unknown; }
  }

  /** One absorbing operand decides; otherwise all operands must be known. */
  lemma ConstOfLogical(op: LogicalOp, es: seq<Expr>, unit: bool, dataType: DataType)
    requires (op == And && unit) || (op == Or && !unit)
    ensures ConstOf(Logical(op, es, dataType))
         == if exists i :: 0 <= i < |es| && ConstOf(es[i]) == OfBool(!unit) then OfBool(!unit)
            else if forall i :: 0 <= i < |es| ==> ConstOf(es[i]) != Unknown then OfBool(unit) else Unknown
  {}

  lemma KeptConst(es: seq<Expr>)
    ensures forall k :: 0 <= k < |KeepUnknown(es)| ==> ConstOf(KeepUnknown(es)[k]) == Unknown
    ensures KeepUnknown(es) == [] <==> forall i :: 0 <= i < |es| ==> ConstOf(es[i]) != Unknown
  {
    KeptIsUnknown(es);
    var kept := KeepUnknown(es);
    forall k | 0 <= k < |kept| ensures ConstOf(kept[k]) == Unknown {
      assert kept[k] in kept;
    }
    if kept != [] { assert kept[0] in kept; }
  }

  /** Simplification never changes the classification. */
  lemma {:induction false} SimplifyKeepsConst(e: Expr)
    ensures ConstOf(Simplify(e)) == ConstOf(e)
  {
    match e
    case Logical(op, ops, dataType) =>
      var all := SimplifyAll(ops);
      forall i | 0 <= i < |ops| ensures ConstOf(all[i]) == ConstOf(ops[i]) {
        SimplifyKeepsConst(ops[i]);
      }
      if op == And {
        RebuiltConst(And, all, true, dataType);
      } else if op == Or {
        RebuiltConst(Or, all, false, dataType);
      }
    case _ =>
  }

  lemma {:induction false} KeepAll(es: seq<Expr>)
    requires forall i :: 0 <= i < |es| ==> ConstOf(es[i]) == Unknown
    ensures KeepUnknown(es) == es
  {
    if es != [] {
      KeepAll(es[..|es| - 1]);
      assert es == es[..|es| - 1] + [es[|es| - 1]];
    }
  }

  /** Simplifying twice is simplifying once. */
  lemma {:induction false} SimplifyIsIdempotent(e: Expr)
    ensures Simplify(Simplify(e)) == Simplify(e)
  {
    match e
    case Logical(op, ops, dataType) =>
      var all := SimplifyAll(ops);
      forall i | 0 <= i < |ops| ensures Simplify(all[i]) == all[i] {
        SimplifyIsIdempotent(ops[i]);
      }
      if op != Not {
        RebuiltIsFixed(op, all, op == And, dataType);
      } else if ops != [] {
        assert Simplify(NotOf(all[0])) == NotOf(all[0]) || ConstOf(all[0]) != Unknown;
      }
    case _ =>
  }

  lemma RebuiltIsFixed(op: LogicalOp, es: seq<Expr>, unit: bool, dataType: DataType)
    requires (op == And && unit) || (op == Or && !unit)
    requires forall i :: 0 <= i < |es| ==> Simplify(es[i]) == es[i]
    ensures Simplify(Rebuild(op, es, unit, dataType)) == Rebuild(op, es, unit, dataType)
  {
    var r, kept := Rebuild(op, es, unit, dataType), KeepUnknown(es);
    RebuildCases(op, es, unit, dataType);
    KeptIsFixed(es);
    if r == Lit(Bool(true)) || r == Lit(Bool(false)) {
      LitIsFixed(true);
      LitIsFixed(false);
    } else if |kept| >= 2 {
      LogicalIsFixed(op, kept, unit, dataType);
    }
  }

  lemma LitIsFixed(b: bool)
    ensures Simplify(Lit(Bool(b))) == Lit(Bool(b))
  {}

  lemma RebuildCases(op: LogicalOp, es: seq<Expr>, unit: bool, dataType: DataType)
    ensures var r, kept := Rebuild(op, es, unit, dataType), KeepUnknown(es);
            || r == Lit(Bool(true)) || r == Lit(Bool(false))
            || (|kept| == 1 && r == kept[0])
            || (|kept| >= 2 && r == Logical(op, kept, dataType))
  {}

  lemma LogicalIsFixed(op: LogicalOp, kept: seq<Expr>, unit: bool, dataType: DataType)
    requires (op == And && unit) || (op == Or && !unit)
    requires |kept| >= 2 && SimplifyAll(kept) == KeepUnknown(kept) == kept
          && forall k :: 0 <= k < |kept| ==> ConstOf(kept[k]) == Unknown
    ensures Simplify(Logical(op, kept, dataType)) == Logical(op, kept, dataType)
  {
    assert Rebuild(op, kept, unit, dataType) == Logical(op, kept, dataType);
  }

  lemma KeptIsFixed(es: seq<Expr>)
    requires forall i :: 0 <= i < |es| ==> Simplify(es[i]) == es[i]
    ensures SimplifyAll(KeepUnknown(es)) == KeepUnknown(KeepUnknown(es)) == KeepUnknown(es)
    ensures forall k ::
              0 <= k < |KeepUnknown(es)| ==>
                ConstOf(KeepUnknown(es)[k]) == Unknown && Simplify(KeepUnknown(es)[k]) == KeepUnknown(es)[k]
  {
    KeptIsUnknown(es);
    var kept := KeepUnknown(es);
    forall k | 0 <= k < |kept| ensures ConstOf(kept[k]) == Unknown && Simplify(kept[k]) == kept[k] {
      assert kept[k] in kept && kept[k] in es;
    }
    KeepAll(kept);
  }

  // ------------------------------------------------------------------ columns

  function UnionOf(sets: seq<set<string>>): (r: set<string>)
    ensures forall i :: 0 <= i < |sets| ==> sets[i] <= r
  {
    if sets == [] then {} else UnionOf(sets[..|sets| - 1]) + sets[|sets| - 1]
  }

  /** The columns an expression mentions. */
  function Columns(e: Expr): set<string> {
    match e
    case Constant(_, _) => {}
    case PropertyAccess(variable, property, _) => {Column(variable, property)}
    case VariableRef(variable, _) => {variable}
    case Comparison(l, _, r, _) => Columns(l) + Columns(r)
    case Logical(_, ops, _) => UnionOf(seq(|ops|, i requires 0 <= i < |ops| => Columns(ops[i])))
    case Arithmetic(l, _, r, _) => Columns(l) + Columns(r)
    case Aggregate(_, Some(input), _, _) => Columns(input)
    case Aggregate(_, None, _, _) => {}
    case IsNull(operand, _, _) => Columns(operand)
  }

  method CollectColumnsFromExpr(e: Expr, columns: set<string>) returns (r: set<string>)
    ensures r == columns + Columns(e)
  {
    r := columns;
    match e
    case PropertyAccess(variable, property, _) =>
      r := r + {Column(variable, property)};
    case VariableRef(variable, _) =>
      r := r + {variable};
    case Comparison(left, _, right, _) =>
      r := CollectColumnsFromExpr(left, r);
      r := CollectColumnsFromExpr(right, r);
    case Arithmetic(left, _, right, _) =>
      r := CollectColumnsFromExpr(left, r);
      r := CollectColumnsFromExpr(right, r);
    case Logical(_, ops, _) =>
      ghost var all := seq(|ops|, i requires 0 <= i < |ops| => Columns(ops[i]));
      for i := 0 to |ops|
        invariant r == columns + UnionOf(all[..i])
      {
        r := CollectColumnsFromExpr(ops[i], r);
        assert all[..i + 1][..i] == all[..i] && all[..i + 1][i] == Columns(ops[i]);
      }
      assert all[..|ops|] == all;
    case Aggregate(_, input, _, _) =>
      assert Columns(e) == if input.Some? then Columns(input.value) else {};
      if input.Some? {
        r := CollectColumnsFromExpr(input.value, r);
      }
    case IsNull(operand, _, _) =>
      r := CollectColumnsFromExpr(operand, r);
    case Constant(_, _) =>
  }

  /** The rows agree on a set of columns: present in both with the same value, or in neither. */
  ghost predicate Agree(columns: set<string>, r1: Row, r2: Row) {
    forall c :: c in columns ==> Get(r1, c) == Get(r2, c)
  }

  /** An expression's value depends only on the columns it mentions. */
  lemma {:induction false} ValueDependsOnColumns(a: Arith, e: Expr, r1: Row, r2: Row)
    requires Agree(Columns(e), r1, r2)
    ensures Eval(a, e, r1) == Eval(a, e, r2)
  {
    match e
    case Constant(_, _) =>
    case PropertyAccess(_, _, _) =>
    case VariableRef(_, _) =>
    case Comparison(l, _, r, _) =>
      ValueDependsOnColumns(a, l, r1, r2);
      ValueDependsOnColumns(a, r, r1, r2);
    case Arithmetic(l, _, r, _) =>
      ValueDependsOnColumns(a, l, r1, r2);
      ValueDependsOnColumns(a, r, r1, r2);
    case Logical(_, ops, _) =>
      forall i | 0 <= i < |ops| ensures Eval(a, ops[i], r1) == Eval(a, ops[i], r2) {
        assert seq(|ops|, i requires 0 <= i < |ops| => Columns(ops[i]))[i] == Columns(ops[i]);
        ValueDependsOnColumns(a, ops[i], r1, r2);
      }
    case Aggregate(_, input, _, _) =>
      if input.Some? { ValueDependsOnColumns(a, input.value, r1, r2); }
    case IsNull(operand, _, _) =>
      ValueDependsOnColumns(a, operand, r1, r2);
  }
}
