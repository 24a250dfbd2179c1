/** The widths that INT2 and INTEGER promise: exactly when a value leaves the width reported for it. */
module ResultWidths {
  import opened Values
  import opened Expressions
  import opened ResultTypes

  predicate HasWidth(name: string) {
    name == "INT2" || name == "INTEGER"
  }

  function Least(name: string): Int64 {
    if name == "INT2" then -32768 else -2147483648
  }

  /** An integer of the width `name` promises, if it promises one. */
  predicate InWidth(name: string, v: Value) {
    HasWidth(name) && v.Int? ==> Least(name) <= v.i < -Least(name)
  }

  /** Every column the expression reads is within the width reported for it. */
  ghost predicate WideEnough(c: Context, refs: seq<Ref>, row: Option<Row>) {
    forall ref <- refs :: ColumnInWidth(c, ref, row)
  }

  predicate ColumnInWidth(c: Context, ref: Ref, row: Option<Row>) {
    var v := EvalColumnRef(c.env, ref.tbl, ref.col, row);
    v.Ok? ==> InWidth(ColumnType(c.resolve, ref.tbl, ref.col), v.value)
  }

  /** What inference and evaluation are run on: numbers as evalLiteral reads them, columns of their
      reported type and width, no call where it decides the type. */
  ghost predicate Sound(c: Context, e: Expr, row: Option<Row>) {
    && FloatLike(c.env.lib) && ReadsNumbers(c.env) && InScope(e)
    && WellTyped(c, TableRefs(e), row) && WideEnough(c, TableRefs(e), row)
  }

  /** The result a CASE chooses; none if it falls through without ELSE or a condition fails. */
  function Chosen(env: Env, e: Expr, k: nat, subject: Value, row: Option<Row>): (chosen: Option<Expr>)
    requires e.Case? && k <= |e.whens|
    ensures chosen.Some? ==> chosen.value < e
    decreases |e.whens| - k
  {
    if k == |e.whens| then e.orElse
    else
      var cond := Eval(env, e.whens[k].condition, row);
      if cond.Err? then None
      else if (if e.subject.Some? then subject != Null && Compare(env.lib, subject, cond.value) == 0
               else ToBool(cond.value)) then
        Some(e.whens[k].result)
      else Chosen(env, e, k + 1, subject, row)
  }

  function Subject(env: Env, e: Expr, row: Option<Row>): Value
    requires e.Case?
  {
    if e.subject.Some? && Eval(env, e.subject.value, row).Ok? then Eval(env, e.subject.value, row).value else Null
  }

  /** Whether what gives the expression its value, through parentheses, unary plus and the chosen
      branch of a CASE, is a negation of the least value of the reported width. */
  predicate NegatesLeast(c: Context, e: Expr, row: Option<Row>)
    decreases e
  {
    match e
    case Paren(inner) => NegatesLeast(c, inner, row)
    case Unary(Positive, operand) => NegatesLeast(c, operand, row)
    case Unary(Negate, operand) => Eval(c.env, operand, row) == Ok(Int(Least(InferType(c, operand))))
    case Case(_, _, _) =>
      var chosen := Chosen(c.env, e, 0, Subject(c.env, e, row), row);
      chosen.Some? && NegatesLeast(c, chosen.value, row)
    case _ => false
  }

  /** An integer within the width, or one above its greatest value when `over`. */
  predicate Lands(name: string, v: Value, over: bool) {
    if over then v == Int(-Least(name)) else v == Null || (v.Int? && InWidth(name, v))
  }

  /** Negating a value within the width leaves it exactly when the value is the least one, and brings
      back the one value that left. */
  lemma NegationWidth(lib: Library, name: string, v: Value, over: bool)
    requires HasWidth(name) && Lands(name, v, over)
    ensures Lands(name, UnaryValue(lib, Negate, v), v == Int(Least(name)))
    ensures InWidth(name, UnaryValue(lib, Negate, v)) <==> v != Int(Least(name))
  {
  }

  /** Width soundness, with its exact exception: a value reported as INT2 or INTEGER is NULL or an
      integer of that width, unless the least value of the width was negated; then it is the one
      integer just above the width. */
  lemma {:induction false} WidthSound(c: Context, e: Expr, row: Option<Row>)
    requires Sound(c, e, row) && HasWidth(InferType(c, e)) && Eval(c.env, e, row).Ok?
    ensures Lands(InferType(c, e), Eval(c.env, e, row).value, NegatesLeast(c, e, row))
    decreases e, 1
  {
    TypeSound(c, e, row);
    match e
    case Literal(_, _) =>
    case ColumnRef(tbl, col) => assert Ref(tbl, col) in TableRefs(e) && ColumnInWidth(c, Ref(tbl, col), row);
    case Paren(inner) => WidthSound(c, inner, row);
    case Unary(op, operand) =>
      if op.Negate? || op.Positive? {
        WidthSound(c, operand, row);
        NegationWidth(c.env.lib, InferType(c, operand), Eval(c.env, operand, row).value, NegatesLeast(c, operand, row));
      }
    case Case(_, _, _) => WidthOfCase(c, e, row);
    case Cast(item, target) =>
      ConstantCastFits(c, item, target, row);
    case _ => NoWidth(c, e);
  }

  /** Operators, tests and subqueries are reported without a width. */
  lemma NoWidth(c: Context, e: Expr)
    requires e.Binary? || e.In? || e.Between? || e.Like? || e.IsNull? || e.IsDistinct? || e.Subquery?
    ensures !HasWidth(InferType(c, e))
  {
  }

  lemma {:induction false} WidthOfCase(c: Context, e: Expr, row: Option<Row>)
    requires e.Case? && Sound(c, e, row) && HasWidth(InferType(c, e)) && Eval(c.env, e, row).Ok?
    ensures Lands(InferType(c, e), Eval(c.env, e, row).value, NegatesLeast(c, e, row))
    decreases e, 0
  {
    var subject := Subject(c.env, e, row);
    var chosen := Chosen(c.env, e, 0, subject, row);
    assert WhensAgree(c, e, 0, InferType(c, e));
    ChosenGives(c, e, 0, subject, row, InferType(c, e));
    if chosen.Some? {
      WidthSound(c, chosen.value, row);
    }
  }

  /** A CASE has the value of the result it chooses, which is of the reported type. */
  lemma {:induction false} ChosenGives(c: Context, e: Expr, k: nat, subject: Value, row: Option<Row>, name: string)
    requires e.Case? && k <= |e.whens|
    requires FloatLike(c.env.lib) && ReadsNumbers(c.env)
    requires ResultsInScope(e, k) && (e.orElse.Some? ==> InScope(e.orElse.value))
    requires WellTyped(c, RefsOfWhens(e, k), row) && WideEnough(c, RefsOfWhens(e, k), row)
    requires e.orElse.Some? ==>
      WellTyped(c, TableRefs(e.orElse.value), row) && WideEnough(c, TableRefs(e.orElse.value), row)
    requires WhensAgree(c, e, k, name) && (e.orElse.Some? ==> InferType(c, e.orElse.value) == name)
    requires EvalWhens(c.env, e, k, subject, row).Ok?
    ensures var chosen := Chosen(c.env, e, k, subject, row);
      if chosen.Some? then
        && Sound(c, chosen.value, row) && InferType(c, chosen.value) == name
        && EvalWhens(c.env, e, k, subject, row) == Eval(c.env, chosen.value, row)
      else EvalWhens(c.env, e, k, subject, row) == Ok(Null)
    decreases |e.whens| - k
  {
    if k < |e.whens| {
      var cond := Eval(c.env, e.whens[k].condition, row).value;
      if !(if e.subject.Some? then subject != Null && Compare(c.env.lib, subject, cond) == 0 else ToBool(cond)) {
        ChosenGives(c, e, k + 1, subject, row, name);
      }
    }
  }

  /** A negation of anything reported with a width keeps within it exactly when its operand does not
      have the least value. */
  lemma NegationInWidthIff(c: Context, operand: Expr, row: Option<Row>)
    requires Sound(c, operand, row) && HasWidth(InferType(c, operand)) && Eval(c.env, operand, row).Ok?
    ensures var e := Unary(Negate, operand);
      && InferType(c, e) == InferType(c, operand)
      && Eval(c.env, e, row).Ok?
      && (InWidth(InferType(c, e), Eval(c.env, e, row).value) <==>
          Eval(c.env, operand, row) != Ok(Int(Least(InferType(c, operand)))))
  {
    WidthSound(c, operand, row);
    NegationWidth(c.env.lib, InferType(c, operand), Eval(c.env, operand, row).value, NegatesLeast(c, operand, row));
  }

  // ---- the two failing casts ----

  function LeastCast(digits: string, target: string): Expr {
    Cast(Unary(Negate, Literal(NumberLit, digits)), target)
  }

  lemma LeastCastValue(c: Context, digits: string, n: int, target: string, row: Option<Row>)
    requires FloatLike(c.env.lib) && 0 < n <= 2147483648 && IntegerTarget(target)
    requires c.env.parseNumber(digits) == Ok(Int(n)) && c.env.lib.parseFloat(digits) == Some(n as real)
    ensures Eval(c.env, LeastCast(digits, target), row) == Ok(Int(-n))
    ensures Eval(c.env, Unary(Negate, LeastCast(digits, target)), row) == Ok(Int(n))
    ensures ConstantValue(c.env.lib, LeastCast(digits, target).item) == Some(-n as real)
  {
    var number := Literal(NumberLit, digits);
    assert Eval(c.env, number, row) == Ok(Int(n));
    assert Eval(c.env, Unary(Negate, number), row) == Ok(Int(-n));
    IntegerConversion(c.env, Int(-n), target);
    assert Truncates(c.env.lib, -n as real, -n, -n);
    assert ConstantValue(c.env.lib, number) == Some(n as real);
  }

  /** -(CAST(-32768 AS SMALLINT)) is reported as INT2 and is 32768. */
  lemma NegatedInt2Overflows(c: Context, row: Option<Row>)
    requires FloatLike(c.env.lib)
    requires c.env.parseNumber("32768") == Ok(Int(32768)) && c.env.lib.parseFloat("32768") == Some(32768.0)
    ensures var e := Unary(Negate, LeastCast("32768", "SMALLINT"));
      InferType(c, e) == "INT2" && Eval(c.env, e, row) == Ok(Int(32768)) && !InWidth("INT2", Int(32768))
  {
    LeastCastValue(c, "32768", 32768, "SMALLINT", row);
    assert InferType(c, LeastCast("32768", "SMALLINT")) == "INT2";
  }

  /** -(CAST(-2147483648 AS INTEGER)) is reported as INTEGER and is 2147483648. */
  lemma NegatedInt4Overflows(c: Context, row: Option<Row>)
    requires FloatLike(c.env.lib)
    requires c.env.parseNumber("2147483648") == Ok(Int(2147483648))
    requires c.env.lib.parseFloat("2147483648") == Some(2147483648.0)
    ensures var e := Unary(Negate, LeastCast("2147483648", "INTEGER"));
      InferType(c, e) == "INTEGER" && Eval(c.env, e, row) == Ok(Int(2147483648)) && !InWidth("INTEGER", Int(2147483648))
  {
    LeastCastValue(c, "2147483648", 2147483648, "INTEGER", row);
    assert InferType(c, LeastCast("2147483648", "INTEGER")) == "INTEGER";
  }
}
