/** Runtime values, rows of them, and the comparison every filter uses. */
module Values {
  import opened Wrappers

  datatype DataType = TInt64 | TFloat64 | TBool | TString

  /**
   A finite float is a whole number of the smallest positive float, 2^-1074, and that
   number stands for it: no NaN, no infinity, no signed zero, no rounding.
   */
  datatype Value = Int64(n: int) | Float64(steps: int) | Bool(b: bool) | String(s: string) | Null

  /** Values by column name. */
  type Row = map<string, Value>

  /** How a pattern follows relationships. */
  datatype Direction = Forward | Backward | Both

  function TypeOf(v: Value): Option<DataType> {
    match v
    case Int64(_) => Some(TInt64)
    case Float64(_) => Some(TFloat64)
    case Bool(_) => Some(TBool)
    case String(_) => Some(TString)
    case Null => None
  }

  datatype Ordering = Less | Equal | Greater

  function CompareStrings(a: string, b: string): Ordering {
    if a == [] then if b == [] then Equal else Less
    else if b == [] then Greater
    else if a[0] < b[0] then Less
    else if b[0] < a[0] then Greater
    else CompareStrings(a[1..], b[1..])
  }

  /** A proper prefix, or smaller at the first place where they differ. */
  ghost predicate Precedes(s: string, t: string) { exists k: nat :: PrecedesAt(s, t, k) }

  /** They agree before k, and there the first ends or has the smaller character. */
  ghost predicate PrecedesAt(s: string, t: string, k: nat) {
    k <= |s| && k <= |t| && s[..k] == t[..k] && ((k == |s| && k < |t|) || (k < |s| && k < |t| && s[k] < t[k]))
  }

  /** Strings are ordered as in a dictionary. */
  lemma {:induction false} StringsCompare(s: string, t: string)
    ensures CompareStrings(s, t) == Less <==> Precedes(s, t)
    ensures CompareStrings(s, t) == Greater <==> Precedes(t, s)
    ensures CompareStrings(s, t) == Equal <==> s == t
  {
    if s == [] || t == [] || s[0] != t[0] {
      DifferAtOnce(s, t);
      DifferAtOnce(t, s);
    } else {
      StringsCompare(s[1..], t[1..]);
      PrecedesTail(s, t);
      PrecedesTail(t, s);
      assert s == [s[0]] + s[1..] && t == [t[0]] + t[1..];
    }
  }

  lemma AgreeInFront(s: string, t: string, k: nat)
    requires k > 0 && PrecedesAt(s, t, k)
    ensures s != [] && t != [] && s[0] == t[0]
  {
    assert s[0] == s[..k][0] == t[..k][0] == t[0];
  }

  lemma DifferAtOnce(s: string, t: string)
    requires s == [] || t == [] || s[0] != t[0]
    ensures Precedes(s, t) <==> PrecedesAt(s, t, 0)
  {
    forall k: nat | PrecedesAt(s, t, k) ensures k == 0 {
      if k > 0 { AgreeInFront(s, t, k); }
    }
  }

  lemma PrecedesTail(s: string, t: string)
    requires s != [] && t != [] && s[0] == t[0]
    ensures Precedes(s, t) <==> Precedes(s[1..], t[1..])
  {
    if k: nat :| PrecedesAt(s, t, k) { AtTail(s, t, k - 1); }
    if k: nat :| PrecedesAt(s[1..], t[1..], k) { AtTail(s, t, k); }
  }

  lemma AtTail(s: string, t: string, k: int)
    requires s != [] && t != [] && s[0] == t[0] && k >= -1
    ensures PrecedesAt(s, t, k + 1) <==> k >= 0 && PrecedesAt(s[1..], t[1..], k)
  {
    if 0 <= k < |s| && k < |t| {
      assert s[..k + 1] == [s[0]] + s[1..][..k] && t[..k + 1] == [t[0]] + t[1..][..k];
      assert s[..k + 1][1..] == s[1..][..k] && t[..k + 1][1..] == t[1..][..k];
    }
  }

  /** None if either value is null or the types differ. */
  function Compare(a: Value, b: Value): Option<Ordering> {
    match (a, b)
    case (Int64(x), Int64(y)) => Some(if x < y then Less else if x == y then Equal else Greater)
    case (Float64(x), Float64(y)) => Some(if x < y then Less else if x == y then Equal else Greater)
    case (Bool(x), Bool(y)) => Some(if x == y then Equal else if y then Less else Greater)
    case (String(x), String(y)) => Some(CompareStrings(x, y))
    case _ => None
  }

  function Pow2(n: nat): nat { if n == 0 then 1 else 2 * Pow2(n - 1) }

  /** 1, 2, 4, 8 and so on. */
  lemma {:induction false} Pow2Adds(a: nat, b: nat)
    ensures Pow2(0) == 1 && Pow2(1) == 2 && Pow2(a) > 0 && Pow2(a + b) == Pow2(a) * Pow2(b)
  {
    assert Pow2(1) == 2 * Pow2(0);
    if a > 0 { Pow2Adds(a - 1, b); }
  }

  /** `n as f64` */
  function IntToFloat(n: int): Value { Float64(n * Pow2(1074)) }

  lemma {:induction false} ScaledLess(n: int, m: int, p: nat)
    requires p > 0 && n < m
    ensures n * p < m * p
  {
    if p > 1 {
      ScaledLess(n, m, p - 1);
      assert n * p == n * (p - 1) + n && m * p == m * (p - 1) + m;
    }
  }

  lemma ScaledOrder(n: int, m: int, p: nat)
    requires p > 0
    ensures n * p < m * p <==> n < m
    ensures n * p == m * p <==> n == m
  {
    if n < m { ScaledLess(n, m, p); }
    if m < n { ScaledLess(m, n, p); }
  }

  /** Whole numbers keep their order and stay apart as floats. */
  lemma FloatsKeepOrder(n: int, m: int)
    ensures IntToFloat(n).steps < IntToFloat(m).steps <==> n < m
    ensures IntToFloat(n) == IntToFloat(m) <==> n == m
  {
    Pow2Adds(1074, 0);
    ScaledOrder(n, m, Pow2(1074));
  }

  datatype Literal = LInt64(n: int) | LString(s: string) | LFloat64(steps: int) | LBool(b: bool)

  function LiteralToValue(l: Literal): Value {
    match l
    case LInt64(n) => Int64(n)
    case LString(s) => String(s)
    case LFloat64(x) => Float64(x)
    case LBool(b) => Bool(b)
  }

  /** The value has the literal's type and content. */
  ghost predicate Denotes(l: Literal, v: Value) {
    match (l, v)
    case (LInt64(n), Int64(m)) => n == m
    case (LString(s), String(t)) => s == t
    case (LFloat64(x), Float64(y)) => x == y
    case (LBool(a), Bool(b)) => a == b
    case _ => false
  }

  lemma LiteralDenotes(l: Literal)
    ensures forall v :: Denotes(l, v) <==> v == LiteralToValue(l)
  {}
}
