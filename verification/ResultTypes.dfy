/** The type names reported for projection expressions, and the values those expressions produce.
    Type names are upper-case and trimmed. */
module ResultTypes {
  import opened Values
  import opened Expressions

  type Resolver = (string, string) -> Option<string>

  predicate IsIntegerType(name: string) {
    name in ["INTEGER", "INT", "TINYINT", "SMALLINT", "MEDIUMINT", "BIGINT", "INT2"]
  }

  predicate IsFloatType(name: string) {
    name in ["REAL", "FLOAT", "DOUBLE", "NUMERIC", "DECIMAL"]
  }

  predicate IsUnknownType(name: string) {
    name in ["", "ANY", "UNKNOWN", "NULL"]
  }

  // ---- inference ----

  /** A number written with a point or an exponent. */
  predicate FloatForm(text: string) {
    '.' in text || 'e' in text || 'E' in text
  }

  function ColumnType(resolve: Resolver, tbl: string, col: string): string {
    var declared := resolve(tbl, col);
    if declared.Some? && !IsUnknownType(declared.value) then declared.value
    else if IsRowIDColumn(col) then "BIGINT"
    else "TEXT"
  }

  function LiteralType(env: Env, kind: LiteralKind, text: string): string {
    match kind
    case NumberLit =>
      if FloatForm(text) then "DOUBLE"
      else
        var n := env.parseNumber(text);
        if n.Ok? && n.value.Int? && -2147483648 <= n.value.i <= 2147483647 then "INTEGER" else "BIGINT"
    case StringLit => "TEXT"
    case TrueLit => "BOOLEAN"
    case FalseLit => "BOOLEAN"
    case NullLit => "TEXT"
  }

  /** constantNumericValue. */
  function ConstantValue(lib: Library, e: Expr): Option<real> {
    match e
    case Paren(inner) => ConstantValue(lib, inner)
    case Unary(op, operand) =>
      if !op.Negate? && !op.Positive? then None
      else
        var x := ConstantValue(lib, operand);
        if x.Some? && op.Negate? then Some(0.0 - x.value) else x
    case Literal(kind, text) =>
      (match kind
       case NumberLit => lib.parseFloat(text)
       case StringLit => lib.parseFloat(text)
       case TrueLit => Some(1.0)
       case FalseLit => Some(0.0)
       case NullLit => None)
    case _ => None
  }

  predicate InRange(x: Option<real>, low: int, high: int) {
    x.Some? && low as real <= x.value <= high as real
  }

  /** castResultType, apart from array targets. `float4` tells whether a magnitude fits float32. */
  function CastType(lib: Library, float4: real -> bool, target: string, operand: Expr): string {
    var x := ConstantValue(lib, operand);
    if target == "SMALLINT" then (if InRange(x, -32768, 32767) then "INT2" else "BIGINT")
    else if target in ["INTEGER", "INT"] then (if InRange(x, -2147483648, 2147483647) then "INTEGER" else "BIGINT")
    else if target in ["TINYINT", "MEDIUMINT", "BIGINT"] then "BIGINT"
    else if target in ["REAL", "FLOAT"] then (if x.Some? && float4(x.value) then "REAL" else "DOUBLE")
    else if target in ["DOUBLE", "NUMERIC", "DECIMAL"] then "DOUBLE"
    else if target in ["BLOB", "JSONB", "REGCLASS", "REGTYPE", "OID", "NAME"] then target
    else "TEXT"
  }

  function ArithmeticType(left: string, right: string): string {
    if IsFloatType(left) || IsFloatType(right) then "DOUBLE"
    else if IsIntegerType(left) && IsIntegerType(right) then "BIGINT"
    else "TEXT"
  }

  function BinaryType(op: BinaryOp, left: string, right: string): string {
    if IsComparison(op) || op.And? || op.Or? then "BOOLEAN"
    else match op
      case Concat => if left == "JSONB" || right == "JSONB" then "JSONB" else "TEXT"
      case Bitwise(_) => "BIGINT"
      case Minus => if left == "JSONB" then "JSONB" else ArithmeticType(left, right)
      case _ => ArithmeticType(left, right)
  }

  function UnaryType(op: UnaryOp, operand: string): string {
    match op
    case Not => "BOOLEAN"
    case BitNot => "BIGINT"
    case _ =>
      if IsFloatType(operand) then "DOUBLE" else if IsIntegerType(operand) then operand else "TEXT"
  }

  /** What inference consults besides the expression. `calls` gives the type of a function call
      from its name and the type of its first argument. */
  datatype Context = Context(env: Env, resolve: Resolver, float4: real -> bool, calls: (string, string) -> string)

  /** inferExprType. */
  function InferType(c: Context, e: Expr): string
    decreases e, 1
  {
    match e
    case Literal(kind, text) => LiteralType(c.env, kind, text)
    case ColumnRef(tbl, col) => ColumnType(c.resolve, tbl, col)
    case Binary(op, left, right) => BinaryType(op, InferType(c, left), InferType(c, right))
    case Unary(op, operand) => UnaryType(op, InferType(c, operand))
    case Call(name, args) => c.calls(name, if args == [] then "TEXT" else InferType(c, args[0]))
    case Paren(inner) => InferType(c, inner)
    case Case(_, whens, orElse) =>
      if whens == [] then "TEXT"
      else if WhensAgree(c, e, 0, InferType(c, whens[0].result))
        && (orElse.Some? ==> InferType(c, orElse.value) == InferType(c, whens[0].result))
      then InferType(c, whens[0].result)
      else "TEXT"
    case In(_, _, _) => "BOOLEAN"
    case Between(_, _, _, _) => "BOOLEAN"
    case Like(_, _, _) => "BOOLEAN"
    case IsNull(_, _) => "BOOLEAN"
    case IsDistinct(_, _, _) => "BOOLEAN"
    case Cast(item, target) => CastType(c.env.lib, c.float4, target, item)
    case Subquery(_) => "TEXT"
  }

  predicate WhensAgree(c: Context, e: Expr, k: nat, name: string)
    requires e.Case? && k <= |e.whens|
    decreases e, 0, |e.whens| - k
  {
    k == |e.whens| || (InferType(c, e.whens[k].result) == name && WhensAgree(c, e, k + 1, name))
  }

  // ---- what a type name promises ----

  predicate Fits(name: string, v: Value) {
    && (name == "BOOLEAN" ==> v == Null || v.Bool?)
    && (IsIntegerType(name) ==> v == Null || v.Int?)
    && (IsFloatType(name) ==> v == Null || v.Int? || v.Real?)
  }

  /** What evalLiteral does with a number: an integer text is an int64; any other is the float it
      parses to, as an int64 when that is exact. Number tokens carry no sign. */
  ghost predicate ReadsNumbers(env: Env) {
    forall text :: ReadsNumber(env, text)
  }

  predicate ReadsNumber(env: Env, text: string) {
    var n, x := env.parseNumber(text), env.lib.parseFloat(text);
    n.Ok? ==>
      && x.Some?
      && ((n.value.Int? && n.value.i >= 0 && env.lib.intToFloat(n.value.i) == x.value)
          || (FloatForm(text) && n.value == Real(x.value)))
  }

  /** Every column the expression reads holds a value of the type reported for it. */
  ghost predicate WellTyped(c: Context, refs: seq<Ref>, row: Option<Row>) {
    forall ref <- refs :: ColumnFits(c, ref, row)
  }

  predicate ColumnFits(c: Context, ref: Ref, row: Option<Row>) {
    var v := EvalColumnRef(c.env, ref.tbl, ref.col, row);
    v.Ok? ==> Fits(ColumnType(c.resolve, ref.tbl, ref.col), v.value)
  }

  /** No function call, and no cast to NUMERIC or DECIMAL, in a place that decides the type. */
  predicate InScope(e: Expr)
    decreases e, 1
  {
    match e
    case Call(_, _) => false
    case Cast(_, target) => target !in ["NUMERIC", "DECIMAL"]
    case Paren(inner) => InScope(inner)
    case Binary(_, left, right) => InScope(left) && InScope(right)
    case Unary(_, operand) => InScope(operand)
    case Case(_, _, orElse) => ResultsInScope(e, 0) && (orElse.Some? ==> InScope(orElse.value))
    case _ => true
  }

  predicate ResultsInScope(e: Expr, k: nat)
    requires e.Case? && k <= |e.whens|
    decreases e, 0, |e.whens| - k
  {
    k == |e.whens| || (InScope(e.whens[k].result) && ResultsInScope(e, k + 1))
  }

  // ---- soundness ----

  lemma ArithmeticFits(lib: Library, op: BinaryOp, l: string, r: string, left: Value, right: Value)
    requires Fits(l, left) && Fits(r, right)
    requires Arithmetic(lib, op, left, right).Ok?
    ensures Fits(ArithmeticType(l, r), Arithmetic(lib, op, left, right).value)
  {
    var v := Arithmetic(lib, op, left, right).value;
    assert v == Null || v.Int? || v.Real?;
    if IsIntegerType(l) && IsIntegerType(r) {
      assert v == Null || v.Int?;
    }
    TypesApart(ArithmeticType(l, r));
  }

  /** No name is of two kinds. */
  lemma TypesApart(name: string)
    ensures !(IsIntegerType(name) && IsFloatType(name))
    ensures IsIntegerType(name) || IsFloatType(name) ==> name != "BOOLEAN" && name != "TEXT"
    ensures !IsIntegerType("BOOLEAN") && !IsFloatType("BOOLEAN")
    ensures !IsIntegerType("TEXT") && !IsFloatType("TEXT") && !IsIntegerType("JSONB") && !IsFloatType("JSONB")
    ensures IsIntegerType("BIGINT") && IsFloatType("DOUBLE")
  {
  }

  lemma BinaryFits(lib: Library, op: BinaryOp, l: string, r: string, left: Value, right: Value)
    requires Fits(l, left) && Fits(r, right)
    requires BinaryValue(lib, op, left, right).Ok?
    ensures Fits(BinaryType(op, l, r), BinaryValue(lib, op, left, right).value)
  {
    TypesApart(BinaryType(op, l, r));
    if op.Plus? || op.Minus? || op.Star? || op.Slash? || op.Percent? {
      ArithmeticFits(lib, op, l, r, left, right);
    }
  }

  lemma UnaryFits(lib: Library, op: UnaryOp, name: string, v: Value)
    requires Fits(name, v)
    ensures Fits(UnaryType(op, name), UnaryValue(lib, op, v))
  {
    TypesApart(name);
    TypesApart(UnaryType(op, name));
  }

  predicate IntegerTarget(target: string) {
    target in ["SMALLINT", "INTEGER", "INT", "TINYINT", "MEDIUMINT", "BIGINT"]
  }

  /** Only conversions to a kind of number are reported as one. */
  lemma CastKinds(lib: Library, float4: real -> bool, target: string, item: Expr)
    ensures CastType(lib, float4, target, item) != "BOOLEAN"
    ensures IsIntegerType(CastType(lib, float4, target, item)) ==> IntegerTarget(target)
    ensures IsFloatType(CastType(lib, float4, target, item)) ==>
      target in ["REAL", "FLOAT", "DOUBLE", "NUMERIC", "DECIMAL"]
  {
  }

  lemma IntegerConversion(env: Env, v: Value, target: string)
    requires IntegerTarget(target)
    ensures CastValue(env, v, target) == Ok(if v == Null then Null else Int(env.lib.floatToInt(ToFloat(env.lib, v))))
  {
    IntegerTargets(target);
  }

  lemma RealConversion(env: Env, v: Value, target: string)
    requires target in ["REAL", "FLOAT", "DOUBLE"]
    ensures CastValue(env, v, target).Ok?
    ensures var r := CastValue(env, v, target).value; r == Null || r.Int? || r.Real?
  {
    assert target[0..] == target;
    assert Contains(target, target);
  }

  lemma CastFits(c: Context, target: string, item: Expr, v: Value)
    requires target !in ["NUMERIC", "DECIMAL"]
    requires CastValue(c.env, v, target).Ok?
    ensures Fits(CastType(c.env.lib, c.float4, target, item), CastValue(c.env, v, target).value)
  {
    var name := CastType(c.env.lib, c.float4, target, item);
    CastKinds(c.env.lib, c.float4, target, item);
    TypesApart(name);
    if IsIntegerType(name) {
      IntegerConversion(c.env, v, target);
    } else if IsFloatType(name) {
      RealConversion(c.env, v, target);
    }
  }

  lemma IntegerTargets(target: string)
    requires IntegerTarget(target)
    ensures Contains(target, "INT")
  {
    assert "SMALLINT"[5..] == "INT" && "TINYINT"[4..] == "INT" && "MEDIUMINT"[6..] == "INT" && "BIGINT"[3..] == "INT";
    assert target[0..] == target;
  }

  /** On a well-typed row, an expression's value is of the kind its reported type promises. */
  lemma {:induction false} TypeSound(c: Context, e: Expr, row: Option<Row>)
    requires ReadsNumbers(c.env) && InScope(e) && WellTyped(c, TableRefs(e), row)
    ensures Eval(c.env, e, row).Ok? ==> Fits(InferType(c, e), Eval(c.env, e, row).value)
    decreases e, 1
  {
    match e
    case Literal(kind, text) =>
      TypesApart(LiteralType(c.env, kind, text));
      assert ReadsNumber(c.env, text);
    case ColumnRef(tbl, col) => assert Ref(tbl, col) in TableRefs(e) && ColumnFits(c, Ref(tbl, col), row);
    case Binary(op, left, right) => SoundBinary(c, e, row);
    case Unary(op, operand) =>
      TypeSound(c, operand, row);
      if Eval(c.env, operand, row).Ok? {
        UnaryFits(c.env.lib, op, InferType(c, operand), Eval(c.env, operand, row).value);
      }
    case Paren(inner) => TypeSound(c, inner, row);
    case Case(_, _, _) => SoundCase(c, e, row);
    case In(_, _, _) => SoundIn(c, e, row);
    case Cast(item, target) =>
      var v := Eval(c.env, item, row);
      if v.Ok? && CastValue(c.env, v.value, target).Ok? {
        CastFits(c, target, item, v.value);
      }
    case _ => SoundTest(c, e, row);
  }

  lemma {:induction false} SoundBinary(c: Context, e: Expr, row: Option<Row>)
    requires e.Binary? && ReadsNumbers(c.env) && InScope(e) && WellTyped(c, TableRefs(e), row)
    ensures Eval(c.env, e, row).Ok? ==> Fits(InferType(c, e), Eval(c.env, e, row).value)
    decreases e, 0
  {
    TypeSound(c, e.left, row);
    TypeSound(c, e.right, row);
    var l, r := Eval(c.env, e.left, row), Eval(c.env, e.right, row);
    if l.Ok? && r.Ok? && BinaryValue(c.env.lib, e.op, l.value, r.value).Ok? {
      BinaryFits(c.env.lib, e.op, InferType(c, e.left), InferType(c, e.right), l.value, r.value);
    }
  }

  /** BETWEEN, LIKE, IS NULL and IS DISTINCT are true, false or NULL. */
  lemma SoundTest(c: Context, e: Expr, row: Option<Row>)
    requires e.Between? || e.Like? || e.IsNull? || e.IsDistinct? || e.Subquery?
    ensures Eval(c.env, e, row).Ok? ==> Fits(InferType(c, e), Eval(c.env, e, row).value)
  {
    TypesApart("BOOLEAN");
    if e.Between? {
      var v, l, h := Eval(c.env, e.item, row), Eval(c.env, e.low, row), Eval(c.env, e.high, row);
      assert v.Ok? && l.Ok? && h.Ok? ==>
        Eval(c.env, e, row) == Ok(BetweenValue(c.env.lib, v.value, l.value, h.value, e.negated));
    }
  }

  lemma SoundIn(c: Context, e: Expr, row: Option<Row>)
    requires e.In?
    ensures Eval(c.env, e, row).Ok? ==> Fits(InferType(c, e), Eval(c.env, e, row).value)
  {
    TypesApart("BOOLEAN");
    var v := Eval(c.env, e.item, row);
    if v.Ok? {
      InIsBoolean(c.env, v.value, e.choices, e.negated, false, row);
    }
  }

  lemma {:induction false} InIsBoolean(env: Env, v: Value, choices: seq<Expr>, negated: bool, sawNull: bool,
      row: Option<Row>)
    ensures var r := EvalIn(env, v, choices, negated, sawNull, row); r.Ok? ==> r.value == Null || r.value.Bool?
    decreases choices
  {
    if choices != [] {
      InIsBoolean(env, v, choices[1..], negated, true, row);
      InIsBoolean(env, v, choices[1..], negated, sawNull, row);
    }
  }

  lemma {:induction false} SoundCase(c: Context, e: Expr, row: Option<Row>)
    requires e.Case? && ReadsNumbers(c.env) && InScope(e) && WellTyped(c, TableRefs(e), row)
    ensures Eval(c.env, e, row).Ok? ==> Fits(InferType(c, e), Eval(c.env, e, row).value)
    decreases e, 0, |e.whens| + 1
  {
    TypesApart("TEXT");
    var name := InferType(c, e);
    var subject := if e.subject.Some? then Eval(c.env, e.subject.value, row) else Ok(Null);
    if name != "TEXT" && subject.Ok? {
      assert WhensAgree(c, e, 0, name);
      SoundWhens(c, e, 0, subject.value, row, name);
    }
  }

  lemma {:induction false} SoundWhens(c: Context, e: Expr, k: nat, subject: Value, row: Option<Row>, name: string)
    requires e.Case? && k <= |e.whens| && ReadsNumbers(c.env)
    requires ResultsInScope(e, k) && (e.orElse.Some? ==> InScope(e.orElse.value))
    requires WellTyped(c, RefsOfWhens(e, k), row)
    requires e.orElse.Some? ==> WellTyped(c, TableRefs(e.orElse.value), row)
    requires WhensAgree(c, e, k, name) && (e.orElse.Some? ==> InferType(c, e.orElse.value) == name)
    ensures var v := EvalWhens(c.env, e, k, subject, row); v.Ok? ==> Fits(name, v.value)
    decreases e, 0, |e.whens| - k
  {
    if k == |e.whens| {
      if e.orElse.Some? {
        TypeSound(c, e.orElse.value, row);
      }
    } else {
      TypeSound(c, e.whens[k].result, row);
      SoundWhens(c, e, k + 1, subject, row, name);
    }
  }

  // ---- completeness ----

  /** The type reported for a leaf is a number type. */
  predicate NumberLeaf(c: Context, e: Expr) {
    (e.Literal? && e.kind.NumberLit?) || (e.ColumnRef? && IsNumberType(ColumnType(c.resolve, e.table, e.column)))
  }

  predicate IsNumberType(name: string) {
    IsIntegerType(name) || IsFloatType(name)
  }

  /** Arithmetic over number leaves. */
  predicate IsArithmetic(c: Context, e: Expr) {
    match e
    case Paren(inner) => IsArithmetic(c, inner)
    case Unary(op, operand) => (op.Negate? || op.Positive?) && IsArithmetic(c, operand)
    case Binary(op, left, right) =>
      (op.Plus? || op.Minus? || op.Star? || op.Slash? || op.Percent?) && IsArithmetic(c, left) && IsArithmetic(c, right)
    case _ => NumberLeaf(c, e)
  }

  /** Some leaf is a number with a point or exponent, or a column of a float type. */
  predicate HasFloatLeaf(c: Context, e: Expr) {
    match e
    case Paren(inner) => HasFloatLeaf(c, inner)
    case Unary(_, operand) => HasFloatLeaf(c, operand)
    case Binary(_, left, right) => HasFloatLeaf(c, left) || HasFloatLeaf(c, right)
    case Literal(_, text) => FloatForm(text)
    case ColumnRef(tbl, col) => IsFloatType(ColumnType(c.resolve, tbl, col))
    case _ => false
  }

  /** Arithmetic over numbers is reported as floating point exactly when some leaf is, and as an integer otherwise. */
  lemma {:induction false} ArithmeticReported(c: Context, e: Expr)
    requires IsArithmetic(c, e)
    ensures IsFloatType(InferType(c, e)) <==> HasFloatLeaf(c, e)
    ensures IsIntegerType(InferType(c, e)) <==> !HasFloatLeaf(c, e)
  {
    TypesApart(InferType(c, e));
    match e
    case Paren(inner) => ArithmeticReported(c, inner);
    case Unary(op, operand) => ArithmeticReported(c, operand);
    case Binary(op, left, right) =>
      ArithmeticReported(c, left);
      ArithmeticReported(c, right);
    case _ =>
  }

  /** An expression made of tests: comparisons, IN, BETWEEN, LIKE, IS, the truth values, joined by AND, OR and NOT. */
  predicate IsTest(e: Expr) {
    match e
    case Paren(inner) => IsTest(inner)
    case Unary(op, _) => op.Not?
    case Binary(op, _, _) => IsComparison(op) || op.And? || op.Or?
    case Literal(kind, _) => kind.TrueLit? || kind.FalseLit?
    case In(_, _, _) => true
    case Between(_, _, _, _) => true
    case Like(_, _, _) => true
    case IsNull(_, _) => true
    case IsDistinct(_, _, _) => true
    case _ => false
  }

  /** Tests are reported as BOOLEAN. */
  lemma {:induction false} TestReported(c: Context, e: Expr)
    requires IsTest(e)
    ensures InferType(c, e) == "BOOLEAN"
  {
    if e.Paren? {
      TestReported(c, e.inner);
    }
  }

  // ---- constant casts ----

  /** What float64 arithmetic and conversions do near the integers. */
  ghost predicate FloatLike(lib: Library) {
    && (forall i: Int64 :: -0x20_0000_0000_0000 <= i <= 0x20_0000_0000_0000 ==> lib.intToFloat(i) == i as real)
    && (forall i: Int64 :: i > -TWO_63 ==> lib.intToFloat(-i) == 0.0 - lib.intToFloat(i))
    && (forall x :: lib.sub(0.0, x) == 0.0 - x)
    && forall x, low: Int64, high: Int64 :: Truncates(lib, x, low, high)
  }

  predicate Truncates(lib: Library, x: real, low: Int64, high: Int64) {
    low as real <= x <= high as real ==> low <= lib.floatToInt(x) <= high
  }

  /** A constant operand evaluates to the number it was taken for. */
  lemma {:induction false} ConstantEvaluates(env: Env, e: Expr, row: Option<Row>)
    requires FloatLike(env.lib) && ReadsNumbers(env)
    requires ConstantValue(env.lib, e).Some? && Eval(env, e, row).Ok?
    ensures var v := Eval(env, e, row).value;
      && v != Null
      && ToFloat(env.lib, v) == ConstantValue(env.lib, e).value
      && (v.Int? ==> v.i > -TWO_63)
  {
    match e
    case Paren(inner) => ConstantEvaluates(env, inner, row);
    case Unary(op, operand) =>
      ConstantEvaluates(env, operand, row);
      SignedConstant(env.lib, op, Eval(env, operand, row).value);
    case Literal(_, text) => assert ReadsNumber(env, text);
  }

  lemma SignedConstant(lib: Library, op: UnaryOp, v: Value)
    requires FloatLike(lib) && (op.Negate? || op.Positive?)
    requires v != Null && (v.Int? ==> v.i > -TWO_63)
    ensures var r := UnaryValue(lib, op, v);
      && r != Null
      && ToFloat(lib, r) == (if op.Negate? then 0.0 - ToFloat(lib, v) else ToFloat(lib, v))
      && (r.Int? ==> r.i > -TWO_63)
  {
    if IsIntVal(v) {
      var i: Int64 := ToInt64(lib, v);
      assert Wrap(-i) == -i;
      assert lib.intToFloat(-i) == 0.0 - lib.intToFloat(i);
      assert v.Bool? ==> lib.intToFloat(i) == i as real;
    }
  }

  /** A cast reported as int2 or int4 yields a value of that width. */
  lemma ConstantCastFits(c: Context, item: Expr, target: string, row: Option<Row>)
    requires FloatLike(c.env.lib) && ReadsNumbers(c.env)
    requires CastType(c.env.lib, c.float4, target, item) in ["INT2", "INTEGER"]
    requires Eval(c.env, Cast(item, target), row).Ok?
    ensures var v, name := Eval(c.env, Cast(item, target), row).value, CastType(c.env.lib, c.float4, target, item);
      && v.Int?
      && (name == "INT2" ==> -32768 <= v.i <= 32767)
      && (name == "INTEGER" ==> -2147483648 <= v.i <= 2147483647)
  {
    CastKinds(c.env.lib, c.float4, target, item);
    ConstantEvaluates(c.env, item, row);
    IntegerConversion(c.env, Eval(c.env, item, row).value, target);
    var x := ConstantValue(c.env.lib, item).value;
    assert Truncates(c.env.lib, x, -32768, 32767) && Truncates(c.env.lib, x, -2147483648, 2147483647);
  }

  // ---- where the reported type promises too much ----

  lemma MissingLetter(text: string, part: string, letter: char)
    requires letter in part && letter !in text
    ensures !Contains(text, part)
  {
    var k :| 0 <= k < |part| && part[k] == letter;
    forall i | 0 <= i <= |text|
      ensures !(part <= text[i..])
    {
      if i + k < |text| {
        assert text[i..][k] == text[i + k] != letter;
      }
    }
  }

  lemma NoConversion(target: string)
    requires target in ["NUMERIC", "DECIMAL"]
    ensures !Contains(target, "INT") && !Contains(target, "REAL") && !Contains(target, "FLOAT")
    ensures !Contains(target, "DOUBLE") && !Contains(target, "TEXT") && !Contains(target, "CHAR")
  {
    if target == "NUMERIC" {
      MissingLetter(target, "INT", 'T');
      MissingLetter(target, "REAL", 'A');
      MissingLetter(target, "FLOAT", 'L');
      MissingLetter(target, "DOUBLE", 'D');
    } else {
      MissingLetter(target, "INT", 'N');
      MissingLetter(target, "REAL", 'R');
      MissingLetter(target, "FLOAT", 'F');
      MissingLetter(target, "DOUBLE", 'O');
    }
    MissingLetter(target, "TEXT", 'T');
    MissingLetter(target, "CHAR", 'H');
  }

  /** NUMERIC and DECIMAL casts are reported as DOUBLE but leave the value as it is, so the report
      is right exactly when the operand is a number or NULL already. */
  lemma NumericCastKeepsValue(env: Env, item: Expr, target: string, row: Option<Row>)
    requires target in ["NUMERIC", "DECIMAL"]
    requires forall v :: env.castOther(target, v) == Ok(v)
    ensures Eval(env, Cast(item, target), row) == Eval(env, item, row)
    ensures Eval(env, item, row).Ok? ==>
      var v := Eval(env, item, row).value;
      Fits("DOUBLE", Eval(env, Cast(item, target), row).value) <==> v == Null || v.Int? || v.Real?
  {
    NoConversion(target);
    TypesApart("DOUBLE");
  }
}
