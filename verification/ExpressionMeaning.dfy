/** What operators and conditions mean, by the values of their operands. */
module ExpressionMeaning {
  import opened Values
  import opened Expressions
  import opened TextOrdering

  // ---- integers ----

  /** int64 arithmetic is exact within int64 and otherwise off by a multiple of 2^64. */
  lemma WrapMeans(x: int)
    ensures -TWO_63 <= x < TWO_63 ==> Wrap(x) == x
    ensures (Wrap(x) - x) % TWO_64 == 0
  {
    assert Wrap(x) - x == (x + TWO_63) % TWO_64 - (x + TWO_63);
    var q := (x + TWO_63) / TWO_64;
    assert x + TWO_63 == q * TWO_64 + (x + TWO_63) % TWO_64;
    assert Wrap(x) - x == -q * TWO_64;
    MultipleOf(-q);
  }

  lemma MultipleOf(k: int)
    ensures (k * TWO_64) % TWO_64 == 0
  {
  }

  // ---- comparison ----

  /** The float conversions of two integers are ordered as they are. */
  predicate KeepsOrder(lib: Library, i: Int64, j: Int64) {
    && (lib.intToFloat(i) < lib.intToFloat(j) <==> i < j)
    && (lib.intToFloat(i) == lib.intToFloat(j) <==> i == j)
  }

  /** Both operands evaluate, to these values. */
  predicate Operands(env: Env, l: Expr, r: Expr, row: Row, v: Value, w: Value) {
    Eval(env, l, Some(row)) == Ok(v) && Eval(env, r, Some(row)) == Ok(w)
  }

  lemma OperationValue(env: Env, op: BinaryOp, l: Expr, r: Expr, row: Row, v: Value, w: Value)
    requires Operands(env, l, r, row, v, w)
    ensures Eval(env, Binary(op, l, r), Some(row)) == BinaryValue(env.lib, op, v, w)
  {
  }

  /** WHERE on two numbers: integers whose conversions keep their order, and floats. */
  lemma NumbersCompared(env: Env, l: Expr, r: Expr, row: Row, i: Int64, j: Int64)
    requires Operands(env, l, r, row, Int(i), Int(j)) && KeepsOrder(env.lib, i, j)
    ensures Holds(env, Binary(Lt, l, r), row) <==> i < j
    ensures Holds(env, Binary(Lte, l, r), row) <==> i <= j
    ensures Holds(env, Binary(Gt, l, r), row) <==> i > j
    ensures Holds(env, Binary(Gte, l, r), row) <==> i >= j
    ensures Holds(env, Binary(Eq, l, r), row) <==> i == j
    ensures Holds(env, Binary(Neq, l, r), row) <==> i != j
  {
    Comparisons(env, l, r, row, Int(i), Int(j));
  }

  lemma FloatsCompared(env: Env, l: Expr, r: Expr, row: Row, x: real, y: real)
    requires Operands(env, l, r, row, Real(x), Real(y))
    ensures Holds(env, Binary(Lt, l, r), row) <==> x < y
    ensures Holds(env, Binary(Lte, l, r), row) <==> x <= y
    ensures Holds(env, Binary(Gt, l, r), row) <==> x > y
    ensures Holds(env, Binary(Gte, l, r), row) <==> x >= y
    ensures Holds(env, Binary(Eq, l, r), row) <==> x == y
    ensures Holds(env, Binary(Neq, l, r), row) <==> x != y
  {
    Comparisons(env, l, r, row, Real(x), Real(y));
  }

  /** On texts that are not numbers, dictionary order. */
  lemma TextsCompared(env: Env, l: Expr, r: Expr, row: Row, s: string, t: string)
    requires Operands(env, l, r, row, Text(s), Text(t))
    requires env.lib.parseFloat(s).None? || env.lib.parseFloat(t).None?
    ensures Holds(env, Binary(Lt, l, r), row) <==> LexLess(s, t)
    ensures Holds(env, Binary(Lte, l, r), row) <==> s == t || LexLess(s, t)
    ensures Holds(env, Binary(Gt, l, r), row) <==> LexLess(t, s)
    ensures Holds(env, Binary(Gte, l, r), row) <==> s == t || LexLess(t, s)
    ensures Holds(env, Binary(Eq, l, r), row) <==> s == t
    ensures Holds(env, Binary(Neq, l, r), row) <==> s != t
  {
    Comparisons(env, l, r, row, Text(s), Text(t));
    TextOrder(s, t);
  }

  /** In terms of the three-way comparison, for any two values. */
  lemma Comparisons(env: Env, l: Expr, r: Expr, row: Row, v: Value, w: Value)
    requires Operands(env, l, r, row, v, w) && v != Null && w != Null
    ensures var cmp := Compare(env.lib, v, w);
      && (Holds(env, Binary(Lt, l, r), row) <==> cmp < 0) && (Holds(env, Binary(Lte, l, r), row) <==> cmp <= 0)
      && (Holds(env, Binary(Gt, l, r), row) <==> cmp > 0) && (Holds(env, Binary(Gte, l, r), row) <==> cmp >= 0)
      && (Holds(env, Binary(Eq, l, r), row) <==> cmp == 0) && (Holds(env, Binary(Neq, l, r), row) <==> cmp != 0)
  {
    OperationValue(env, Lt, l, r, row, v, w);
    OperationValue(env, Lte, l, r, row, v, w);
    OperationValue(env, Gt, l, r, row, v, w);
    OperationValue(env, Gte, l, r, row, v, w);
    OperationValue(env, Eq, l, r, row, v, w);
    OperationValue(env, Neq, l, r, row, v, w);
  }

  /** A comparison with NULL is NULL, and so never holds. */
  lemma NullCompared(env: Env, op: BinaryOp, l: Expr, r: Expr, row: Row, v: Value, w: Value)
    requires Operands(env, l, r, row, v, w) && (v == Null || w == Null)
    requires op in [Eq, Neq, Lt, Lte, Gt, Gte]
    ensures Eval(env, Binary(op, l, r), Some(row)) == Ok(Null) && !Holds(env, Binary(op, l, r), row)
  {
    OperationValue(env, op, l, r, row, v, w);
  }

  // ---- arithmetic ----

  predicate InRange(x: int) {
    -TWO_63 <= x < TWO_63
  }

  /** +, - and * of integers: exact where the result is an int64, and off by a multiple of 2^64 elsewhere. */
  lemma IntegersAdded(env: Env, l: Expr, r: Expr, row: Row, i: Int64, j: Int64)
    requires Operands(env, l, r, row, Int(i), Int(j))
    ensures IsInt(Eval(env, Binary(Plus, l, r), Some(row)), i + j)
    ensures IsInt(Eval(env, Binary(Minus, l, r), Some(row)), i - j)
    ensures IsInt(Eval(env, Binary(Star, l, r), Some(row)), i * j)
  {
    Wrapped(env, Plus, l, r, row, i, j, i + j);
    Wrapped(env, Minus, l, r, row, i, j, i - j);
    Wrapped(env, Star, l, r, row, i, j, i * j);
  }

  lemma Wrapped(env: Env, op: BinaryOp, l: Expr, r: Expr, row: Row, i: Int64, j: Int64, x: int)
    requires Operands(env, l, r, row, Int(i), Int(j)) && BinaryValue(env.lib, op, Int(i), Int(j)) == Ok(Int(Wrap(x)))
    ensures IsInt(Eval(env, Binary(op, l, r), Some(row)), x)
  {
    OperationValue(env, op, l, r, row, Int(i), Int(j));
    WrapMeans(x);
  }

  /** The result is the integer, up to wrap-around. */
  predicate IsInt(result: Result<Value>, x: int) {
    && result.Ok? && result.value.Int?
    && (InRange(x) ==> result.value.i == x)
    && (result.value.i - x) % TWO_64 == 0
  }

  /** / and % of integers: the quotient truncated toward zero, the remainder with the sign of the dividend; NULL
      for a divisor of zero. Only the quotient of the least integer by -1 leaves int64. */
  lemma IntegersDivided(env: Env, l: Expr, r: Expr, row: Row, i: Int64, j: Int64)
    requires Operands(env, l, r, row, Int(i), Int(j))
    ensures var q, m := Eval(env, Binary(Slash, l, r), Some(row)), Eval(env, Binary(Percent, l, r), Some(row));
      if j == 0 then q == Ok(Null) && m == Ok(Null)
      else if i == -TWO_63 && j == -1 then q == Ok(Int(-TWO_63)) && m == Ok(Int(0))
      else exists k: Int64, n: Int64 :: q == Ok(Int(k)) && m == Ok(Int(n)) && Divides(i, j, k, n)
  {
    OperationValue(env, Slash, l, r, row, Int(i), Int(j));
    OperationValue(env, Percent, l, r, row, Int(i), Int(j));
    if j != 0 {
      TruncDivMeans(i, j);
      var k := TruncDiv(i, j);
      if !(i == -TWO_63 && j == -1) {
        QuotientFits(i, j);
        WrapMeans(k);
        WrapMeans(i - j * k);
        assert Divides(i, j, k, i - j * k);
      }
    }
  }

  /** `i` is `j` times `k` and `n` over, the remainder being less than the divisor and of the dividend's sign. */
  predicate Divides(i: int, j: int, k: int, n: int) {
    && i == j * k + n
    && (if n < 0 then -n else n) < (if j < 0 then -j else j)
    && (n != 0 ==> (n < 0 <==> i < 0))
  }

  lemma TruncDivMeans(i: int, j: int)
    requires j != 0
    ensures Divides(i, j, TruncDiv(i, j), i - j * TruncDiv(i, j))
  {
    if i >= 0 {
      assert i == j * (i / j) + i % j;
    } else {
      assert -i == j * ((-i) / j) + (-i) % j;
      assert j * TruncDiv(i, j) == -(j * ((-i) / j));
    }
  }

  lemma NonNegative(x: int, y: int)
    requires x >= 0 && y >= 0
    ensures x * y >= 0
  {
  }

  lemma Multiple(k: int, b: int, a: int)
    requires k >= 0 && b >= 1 && b * k <= a
    ensures k <= a && (b >= 2 ==> 2 * k <= a)
  {
    NonNegative(b - 1, k);
    assert b * k == k + (b - 1) * k;
    if b >= 2 {
      NonNegative(b - 2, k);
      assert b * k == 2 * k + (b - 2) * k;
    }
  }

  lemma NegativeMultiple(b: int, k: int)
    requires b > 0 && k < 0
    ensures b * k <= -b
  {
    NonNegative(b, -k - 1);
    assert b * k == -b - b * (-k - 1);
  }

  /** The quotient is no larger than the dividend, and at most half of it for a larger divisor than 1. */
  lemma Quotient(a: int, b: int)
    requires a >= 0 && b != 0
    ensures b > 0 ==> 0 <= a / b <= a
    ensures b < 0 ==> -a <= a / b <= 0
    ensures b < -1 ==> -a <= 2 * (a / b)
  {
    var k := a / b;
    assert a == b * k + a % b && 0 <= a % b;
    if b > 0 {
      if k < 0 {
        NegativeMultiple(b, k);
      }
      Multiple(k, b, a);
    } else {
      assert b * k == (-b) * (-k);
      if k > 0 {
        NegativeMultiple(-b, -k);
      }
      Multiple(-k, -b, a);
    }
  }

  lemma QuotientFits(i: Int64, j: Int64)
    requires j != 0 && !(i == -TWO_63 && j == -1)
    ensures InRange(TruncDiv(i, j)) && InRange(i - j * TruncDiv(i, j))
  {
    TruncDivMeans(i, j);
    var a: int := if i >= 0 then i else 0 - i;
    Quotient(a, j);
  }

  /** Arithmetic with NULL is NULL. */
  lemma NullArithmetic(env: Env, op: BinaryOp, l: Expr, r: Expr, row: Row, v: Value, w: Value)
    requires Operands(env, l, r, row, v, w) && (v == Null || w == Null)
    requires op in [Plus, Minus, Star, Slash, Percent]
    ensures Eval(env, Binary(op, l, r), Some(row)) == Ok(Null)
  {
    OperationValue(env, op, l, r, row, v, w);
  }

  /** Floats are left to the library; a divisor of zero gives NULL. */
  lemma FloatArithmetic(env: Env, l: Expr, r: Expr, row: Row, x: real, y: real)
    requires Operands(env, l, r, row, Real(x), Real(y))
    ensures Eval(env, Binary(Plus, l, r), Some(row)) == Ok(Real(env.lib.add(x, y)))
    ensures Eval(env, Binary(Minus, l, r), Some(row)) == Ok(Real(env.lib.sub(x, y)))
    ensures Eval(env, Binary(Star, l, r), Some(row)) == Ok(Real(env.lib.mul(x, y)))
    ensures Eval(env, Binary(Slash, l, r), Some(row)) == Ok(if y == 0.0 then Null else Real(env.lib.div(x, y)))
  {
    OperationValue(env, Plus, l, r, row, Real(x), Real(y));
    OperationValue(env, Minus, l, r, row, Real(x), Real(y));
    OperationValue(env, Star, l, r, row, Real(x), Real(y));
    OperationValue(env, Slash, l, r, row, Real(x), Real(y));
  }

  /** The signs and ~ of an integer. */
  lemma IntegerSigned(env: Env, e: Expr, row: Row, i: Int64)
    requires Eval(env, e, Some(row)) == Ok(Int(i))
    ensures IsInt(Eval(env, Unary(Negate, e), Some(row)), 0 - i)
    ensures Eval(env, Unary(Positive, e), Some(row)) == Ok(Int(i))
    ensures IsInt(Eval(env, Unary(BitNot, e), Some(row)), -1 - i)
  {
    WrapMeans(0 - i);
    WrapMeans(-1 - i);
  }

  // ---- logic ----

  datatype Truth = True | False | Unknown

  /** NULL is unknown; integers and floats are true unless zero, texts unless empty, "0" or "false" in any case. */
  function TruthOf(v: Value): Truth {
    match v
    case Null => Unknown
    case Bool(b) => if b then True else False
    case Int(i) => if i == 0 then False else True
    case Real(r) => if r == 0.0 then False else True
    case Text(s) => if s == "" || s == "0" || IsFalse(s) then False else True
  }

  predicate IsFalse(s: string) {
    |s| == 5 && s[0] in "fF" && s[1] in "aA" && s[2] in "lL" && s[3] in "sS" && s[4] in "eE"
  }

  lemma ToBoolMeans(v: Value)
    ensures ToBool(v) <==> TruthOf(v).True?
  {
    if v.Text? {
      var lower := ToLower(v.s);
      if |v.s| == 5 {
        assert lower == [lower[0], lower[1], lower[2], lower[3], lower[4]];
      }
    }
  }

  /** AND is true if both are, false if one is false, otherwise unknown; OR is true if one is, false if both are
      false, otherwise unknown; NOT exchanges true and false. */
  lemma LogicMeans(env: Env, l: Expr, r: Expr, row: Row, v: Value, w: Value)
    requires Operands(env, l, r, row, v, w)
    ensures HasTruth(Eval(env, Binary(And, l, r), Some(row)),
      match (TruthOf(v), TruthOf(w))
      case (True, True) => True
      case (False, _) => False
      case (_, False) => False
      case _ => Unknown)
    ensures HasTruth(Eval(env, Binary(Or, l, r), Some(row)),
      match (TruthOf(v), TruthOf(w))
      case (False, False) => False
      case (True, _) => True
      case (_, True) => True
      case _ => Unknown)
    ensures HasTruth(Eval(env, Unary(Not, l), Some(row)),
      match TruthOf(v)
      case True => False
      case False => True
      case Unknown => Unknown)
  {
    ToBoolMeans(v);
    ToBoolMeans(w);
    OperationValue(env, And, l, r, row, v, w);
    OperationValue(env, Or, l, r, row, v, w);
  }

  /** The result is the boolean of that truth, NULL for unknown. */
  predicate HasTruth(result: Result<Value>, truth: Truth) {
    match truth
    case True => result == Ok(Bool(true))
    case False => result == Ok(Bool(false))
    case Unknown => result == Ok(Null)
  }

  /** A condition holds when it evaluates to something true. */
  lemma HoldsMeans(env: Env, e: Expr, row: Row)
    ensures Holds(env, e, row) <==> Eval(env, e, Some(row)).Ok? && TruthOf(Eval(env, e, Some(row)).value).True?
  {
    if Eval(env, e, Some(row)).Ok? {
      ToBoolMeans(Eval(env, e, Some(row)).value);
    }
  }

  // ---- BETWEEN, IN, CASE and tests ----

  predicate Evaluates(env: Env, e: Expr, row: Row, v: Value) {
    Eval(env, e, Some(row)) == Ok(v)
  }

  /** BETWEEN is >= AND <=, NOT BETWEEN its negation, with NULL bounds unknown. */
  lemma BetweenMeans(env: Env, item: Expr, low: Expr, high: Expr, row: Row, v: Value, a: Value, b: Value)
    requires Evaluates(env, item, row, v) && Evaluates(env, low, row, a) && Evaluates(env, high, row, b)
    ensures
      var above := if v == Null || a == Null then Unknown else if Compare(env.lib, v, a) >= 0 then True else False;
      var below := if v == Null || b == Null then Unknown else if Compare(env.lib, v, b) <= 0 then True else False;
      && HasTruth(Eval(env, Between(item, low, high, false), Some(row)),
           if above.False? || below.False? then False else if above.True? && below.True? then True else Unknown)
      && HasTruth(Eval(env, Between(item, low, high, true), Some(row)),
           if above.False? || below.False? then True else if above.True? && below.True? then False else Unknown)
  {
    assert Eval(env, Between(item, low, high, false), Some(row)) == Ok(BetweenValue(env.lib, v, a, b, false));
    assert Eval(env, Between(item, low, high, true), Some(row)) == Ok(BetweenValue(env.lib, v, a, b, true));
  }

  /** On integers. */
  lemma IntegerBetween(env: Env, item: Expr, low: Expr, high: Expr, row: Row, i: Int64, a: Int64, b: Int64)
    requires Evaluates(env, item, row, Int(i)) && Evaluates(env, low, row, Int(a)) && Evaluates(env, high, row, Int(b))
    requires KeepsOrder(env.lib, i, a) && KeepsOrder(env.lib, i, b)
    ensures Holds(env, Between(item, low, high, false), row) <==> a <= i <= b
    ensures Holds(env, Between(item, low, high, true), row) <==> i < a || b < i
  {
    BetweenMeans(env, item, low, high, row, Int(i), Int(a), Int(b));
  }

  ghost predicate AllEvaluate(env: Env, choices: seq<Expr>, row: Row, vs: seq<Value>) {
    |choices| == |vs| && forall k :: 0 <= k < |vs| ==> Evaluates(env, choices[k], row, vs[k])
  }

  ghost predicate SomeEqual(lib: Library, v: Value, vs: seq<Value>) {
    exists w <- vs :: w != Null && Compare(lib, v, w) == 0
  }

  /** IN is true if some choice is equal, otherwise unknown if the item or a choice is NULL, otherwise false;
      an empty list is false whatever the item. NOT IN is its negation. */
  lemma InMeans(env: Env, item: Expr, choices: seq<Expr>, negated: bool, row: Row, v: Value, vs: seq<Value>)
    requires Evaluates(env, item, row, v) && AllEvaluate(env, choices, row, vs)
    ensures HasTruth(Eval(env, In(item, choices, negated), Some(row)),
      if vs == [] then (if negated then True else False)
      else if v != Null && SomeEqual(env.lib, v, vs) then (if negated then False else True)
      else if v == Null || Null in vs then Unknown
      else if negated then True else False)
  {
    if v != Null {
      InFrom(env, choices, negated, false, row, v, vs);
    }
  }

  lemma {:induction false} InFrom(env: Env, choices: seq<Expr>, negated: bool, sawNull: bool, row: Row, v: Value,
      vs: seq<Value>)
    requires v != Null && AllEvaluate(env, choices, row, vs)
    ensures HasTruth(EvalIn(env, v, choices, negated, sawNull, Some(row)),
      if SomeEqual(env.lib, v, vs) then (if negated then False else True)
      else if sawNull || Null in vs then Unknown
      else if negated then True else False)
    decreases choices
  {
    if choices != [] {
      assert vs == [vs[0]] + vs[1..];
      assert Evaluates(env, choices[0], row, vs[0]);
      forall k | 0 <= k < |vs| - 1
        ensures Evaluates(env, choices[1..][k], row, vs[1..][k])
      {
        assert Evaluates(env, choices[k + 1], row, vs[k + 1]);
      }
      InFrom(env, choices[1..], negated, sawNull || vs[0] == Null, row, v, vs[1..]);
    }
  }

  /** A WHEN applies: its condition is true, or for a CASE with a subject equal to it. */
  predicate Applies(env: Env, e: Expr, k: nat, subject: Value, row: Row)
    requires e.Case? && k < |e.whens|
  {
    var condition := Eval(env, e.whens[k].condition, Some(row));
    condition.Ok? &&
    if e.subject.Some? then subject != Null && Compare(env.lib, subject, condition.value) == 0
    else TruthOf(condition.value).True?
  }

  ghost predicate NoneApplies(env: Env, e: Expr, k: nat, subject: Value, row: Row)
    requires e.Case? && k <= |e.whens|
  {
    forall j: nat :: j < k ==> Eval(env, e.whens[j].condition, Some(row)).Ok? && !Applies(env, e, j, subject, row)
  }

  /** CASE is the result of the first WHEN that applies, or of ELSE, or NULL. */
  lemma CaseMeans(env: Env, e: Expr, row: Row, k: nat, subject: Value)
    requires e.Case? && k <= |e.whens| && NoneApplies(env, e, k, subject, row)
    requires if e.subject.Some? then Evaluates(env, e.subject.value, row, subject) else subject == Null
    ensures k < |e.whens| && Applies(env, e, k, subject, row) ==>
      Eval(env, e, Some(row)) == Eval(env, e.whens[k].result, Some(row))
    ensures k == |e.whens| ==>
      Eval(env, e, Some(row)) == if e.orElse.Some? then Eval(env, e.orElse.value, Some(row)) else Ok(Null)
  {
    WhensSkipped(env, e, row, k, subject);
    if k < |e.whens| && Applies(env, e, k, subject, row) {
      ToBoolMeans(Eval(env, e.whens[k].condition, Some(row)).value);
    }
  }

  lemma {:induction false} WhensSkipped(env: Env, e: Expr, row: Row, k: nat, subject: Value)
    requires e.Case? && k <= |e.whens| && NoneApplies(env, e, k, subject, row)
    ensures EvalWhens(env, e, 0, subject, Some(row)) == EvalWhens(env, e, k, subject, Some(row))
  {
    if k > 0 {
      WhensSkipped(env, e, row, k - 1, subject);
      assert !Applies(env, e, k - 1, subject, row);
      ToBoolMeans(Eval(env, e.whens[k - 1].condition, Some(row)).value);
    }
  }

  /** IS NULL and IS DISTINCT FROM are never unknown. */
  lemma TestsMean(env: Env, l: Expr, r: Expr, row: Row, v: Value, w: Value)
    requires Operands(env, l, r, row, v, w)
    ensures Eval(env, IsNull(l, false), Some(row)) == Ok(Bool(v == Null))
    ensures Eval(env, IsNull(l, true), Some(row)) == Ok(Bool(v != Null))
    ensures
      var same := if v == Null || w == Null then v == Null && w == Null else Compare(env.lib, v, w) == 0;
      && Eval(env, IsDistinct(l, r, false), Some(row)) == Ok(Bool(!same))
      && Eval(env, IsDistinct(l, r, true), Some(row)) == Ok(Bool(same))
  {
  }

  /** || joins texts; LIKE and its negation; parentheses. */
  lemma TextTestsMean(env: Env, l: Expr, r: Expr, row: Row, v: Value, w: Value)
    requires Operands(env, l, r, row, v, w)
    ensures Eval(env, Binary(Concat, l, r), Some(row)) == Ok(Text(ToString(env.lib, v) + ToString(env.lib, w)))
    ensures Holds(env, Like(l, r, false), row) <==> env.like(ToString(env.lib, v), ToString(env.lib, w))
    ensures Holds(env, Like(l, r, true), row) <==> !env.like(ToString(env.lib, v), ToString(env.lib, w))
    ensures Eval(env, Paren(l), Some(row)) == Ok(v)
  {
    OperationValue(env, Concat, l, r, row, v, w);
  }

  // ---- columns ----

  /** A qualified name is looked up in the outer row, then in the row, then unqualified in the outer row, then in
      the row; an unqualified one in the row, then it is the clock, then looked up in the outer row; last comes the
      row id for its aliases. */
  lemma ColumnMeans(env: Env, tbl: string, col: string, row: Row)
    requires tbl != ""
    ensures
      var v := Eval(env, ColumnRef(tbl, col), Some(row));
      var bare, qual := Bare(col), Qual(tbl, col);
      if env.outer.Some? && qual in env.outer.value then v == Ok(env.outer.value[qual])
      else if qual in row then v == Ok(row[qual])
      else if env.outer.Some? && bare in env.outer.value then v == Ok(env.outer.value[bare])
      else if bare in row then v == Ok(row[bare])
      else if col in ["rowid", "oid", "_rowid_"] && Bare("_rowid_") in row then v == Ok(row[Bare("_rowid_")])
      else v == Ok(Null)
    ensures
      var v := Eval(env, ColumnRef("", col), Some(row));
      var bare := Bare(col);
      if bare in row then v == Ok(row[bare])
      else if env.currentTime(col).Some? then v == Ok(env.currentTime(col).value)
      else if env.outer.Some? && bare in env.outer.value then v == Ok(env.outer.value[bare])
      else if col in ["rowid", "oid", "_rowid_"] && Bare("_rowid_") in row then v == Ok(row[Bare("_rowid_")])
      else v == Ok(Null)
  {
  }
}
