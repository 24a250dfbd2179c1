/** Expression trees, their evaluation over one row, and what evaluation may look at.

    Column names and qualifiers are folded, except in modules that use Spelling. A row maps an unqualified name
    (`Bare`) or a qualified one (`Qual`) to a value, as storage.Row does with the
    keys "col" and "table.col".
 */
module Expressions {
  import opened Values

  datatype Key = Bare(col: string) | Qual(tbl: string, col: string)

  type Row = map<Key, Value>

  datatype LiteralKind = NumberLit | StringLit | NullLit | TrueLit | FalseLit

  datatype BinaryOp =
    | Eq | Neq | Lt | Lte | Gt | Gte
    | And | Or
    | Plus | Minus | Star | Slash | Percent | Concat
    | Bitwise(op: BitOp)

  datatype UnaryOp = Negate | Positive | Not | BitNot

  datatype Expr =
    | Literal(kind: LiteralKind, text: string)
    | ColumnRef(table: string, column: string)
    | Binary(op: BinaryOp, left: Expr, right: Expr)
    | Unary(uop: UnaryOp, operand: Expr)
    | Call(name: string, args: seq<Expr>)
    | Paren(inner: Expr)
    | Case(subject: Option<Expr>, whens: seq<When>, orElse: Option<Expr>)
    | In(item: Expr, choices: seq<Expr>, negated: bool)
    | Between(item: Expr, low: Expr, high: Expr, negated: bool)
    | Like(item: Expr, pattern: Expr, negated: bool)
    | IsNull(item: Expr, negated: bool)
    | IsDistinct(left: Expr, right: Expr, negated: bool)
    | Cast(item: Expr, target: string)
    | Subquery(query: nat)

  datatype When = When(condition: Expr, result: Expr)

  /** What evaluation reads besides the row: the outer row of a correlated query,
      the date/time keywords, and the functions defined elsewhere. */
  datatype Env = Env(
    lib: Library,
    outer: Option<Row>,
    parseNumber: string -> Result<Value>,
    currentTime: string -> Option<Value>,
    call: (string, seq<Value>) -> Result<Value>,
    like: (string, string) -> bool,
    castOther: (string, Value) -> Result<Value>,
    runSubquery: (nat, Option<Row>) -> Result<Value>)

  predicate IsRowIDColumn(name: string) {
    name == "rowid" || name == "oid" || name == "_rowid_"
  }

  // ---- evaluation ----

  function Find(row: Row, key: Key): Option<Value> {
    if key in row then Some(row[key]) else None
  }

  function FirstOf(a: Option<Value>, b: Option<Value>): Option<Value> {
    if a.Some? then a else b
  }

  function FindOuter(env: Env, key: Key): Option<Value> {
    if env.outer.Some? then Find(env.outer.value, key) else None
  }

  function EvalColumnRef(env: Env, tbl: string, col: string, arg: Option<Row>): Result<Value> {
    var time := if tbl == "" && (arg.None? || Bare(col) !in arg.value) then env.currentTime(col) else None;
    if time.Some? then Ok(time.value)
    else if arg.None? then Err("no row context for column")
    else
      var row := arg.value;
      var qualified :=
        if tbl == "" then None
        else FirstOf(FirstOf(FindOuter(env, Qual(tbl, col)), Find(row, Qual(tbl, col))), FindOuter(env, Bare(col)));
      var found := FirstOf(qualified, Find(row, Bare(col)));
      var outer := if tbl == "" then FindOuter(env, Bare(col)) else None;
      var rowid := if IsRowIDColumn(col) then Find(row, Bare("_rowid_")) else None;
      match FirstOf(FirstOf(found, outer), rowid)
      case Some(v) => Ok(v)
      case None => Ok(Null)
  }

  function EvalLiteral(env: Env, kind: LiteralKind, text: string): Result<Value> {
    match kind
    case NumberLit => env.parseNumber(text)
    case StringLit => Ok(Text(text))
    case NullLit => Ok(Null)
    case TrueLit => Ok(Bool(true))
    case FalseLit => Ok(Bool(false))
  }

  function CompareOp(op: BinaryOp, cmp: int): bool {
    match op
    case Eq => cmp == 0
    case Neq => cmp != 0
    case Lt => cmp < 0
    case Lte => cmp <= 0
    case Gt => cmp > 0
    case Gte => cmp >= 0
    case _ => false
  }

  predicate IsComparison(op: BinaryOp) {
    op.Eq? || op.Neq? || op.Lt? || op.Lte? || op.Gt? || op.Gte?
  }

  /** Integer division of Go: truncates toward zero, and wraps for the smallest integer over -1. */
  function QuotInt(a: Int64, b: Int64): Int64
    requires b != 0
  {
    Wrap(TruncDiv(a, b))
  }

  function TruncDiv(a: int, b: int): int
    requires b != 0
  {
    if a >= 0 then a / b else -((-a) / b)
  }

  function RemInt(a: Int64, b: Int64): Int64
    requires b != 0
  {
    Wrap(a - b * TruncDiv(a, b))
  }

  function Arithmetic(lib: Library, op: BinaryOp, left: Value, right: Value): Result<Value> {
    if left == Null || right == Null then Ok(Null)
    else if IsIntVal(left) && IsIntVal(right) then
      var a, b := ToInt64(lib, left), ToInt64(lib, right);
      match op
      case Plus => Ok(Int(Wrap(a + b)))
      case Minus => Ok(Int(Wrap(a - b)))
      case Star => Ok(Int(Wrap(a * b)))
      case Slash => if b == 0 then Ok(Null) else Ok(Int(QuotInt(a, b)))
      case Percent => if b == 0 then Ok(Null) else Ok(Int(RemInt(a, b)))
      case _ => Err("unsupported operator")
    else
      var x, y := ToFloat(lib, left), ToFloat(lib, right);
      match op
      case Plus => Ok(Real(lib.add(x, y)))
      case Minus => Ok(Real(lib.sub(x, y)))
      case Star => Ok(Real(lib.mul(x, y)))
      case Slash => if y == 0.0 then Ok(Null) else Ok(Real(lib.div(x, y)))
      case Percent =>
        var b := lib.floatToInt(y);
        if b == 0 then Err("integer divide by zero") else Ok(Int(RemInt(lib.floatToInt(x), b)))
      case _ => Err("unsupported operator")
  }

  function AndValue(left: Value, right: Value): Value {
    if left != Null && !ToBool(left) then Bool(false)
    else if right != Null && !ToBool(right) then Bool(false)
    else if left == Null || right == Null then Null
    else Bool(true)
  }

  function OrValue(left: Value, right: Value): Value {
    if left != Null && ToBool(left) then Bool(true)
    else if right != Null && ToBool(right) then Bool(true)
    else if left == Null || right == Null then Null
    else Bool(false)
  }

  function BinaryValue(lib: Library, op: BinaryOp, left: Value, right: Value): Result<Value> {
    if IsComparison(op) then
      if left == Null || right == Null then Ok(Null) else Ok(Bool(CompareOp(op, Compare(lib, left, right))))
    else
      match op
      case Bitwise(b) =>
        if left == Null || right == Null then Ok(Null)
        else Ok(Int(lib.bits(b, ToInt64(lib, left), ToInt64(lib, right))))
      case And => Ok(AndValue(left, right))
      case Or => Ok(OrValue(left, right))
      case Concat => Ok(Text(ToString(lib, left) + ToString(lib, right)))
      case _ => Arithmetic(lib, op, left, right)
  }

  function UnaryValue(lib: Library, op: UnaryOp, v: Value): Value {
    if v == Null then Null
    else
      var i: int := ToInt64(lib, v);
      match op
      case Negate => if IsIntVal(v) then Int(Wrap(-i)) else Real(lib.sub(0.0, ToFloat(lib, v)))
      case Positive => if IsIntVal(v) then Int(i) else Real(ToFloat(lib, v))
      case Not => Bool(!ToBool(v))
      case BitNot => Int(Wrap(-i - 1))
  }

  function BetweenValue(lib: Library, v: Value, low: Value, high: Value, negated: bool): Value {
    if negated then
      var less := if v == Null || low == Null then Null else Bool(Compare(lib, v, low) < 0);
      var greater := if v == Null || high == Null then Null else Bool(Compare(lib, v, high) > 0);
      if ToBool(less) || ToBool(greater) then Bool(true)
      else if less == Null || greater == Null then Null
      else Bool(false)
    else if v == Null then Null
    else if low == Null then
      if high != Null && Compare(lib, v, high) > 0 then Bool(false) else Null
    else if Compare(lib, v, low) < 0 then Bool(false)
    else if high == Null then Null
    else Bool(Compare(lib, v, high) <= 0)
  }

  predicate Contains(text: string, part: string) {
    exists i {:trigger text[i..]} :: 0 <= i <= |text| && part <= text[i..]
  }

  function CastValue(env: Env, v: Value, target: string): Result<Value> {
    if v == Null then Ok(Null)
    else if Contains(target, "INT") then Ok(Int(env.lib.floatToInt(ToFloat(env.lib, v))))
    else if Contains(target, "REAL") || Contains(target, "FLOAT") || Contains(target, "DOUBLE") then
      Ok(Real(ToFloat(env.lib, v)))
    else if Contains(target, "TEXT") || Contains(target, "CHAR") then Ok(Text(ToString(env.lib, v)))
    else env.castOther(target, v)
  }

  function Eval(env: Env, e: Expr, row: Option<Row>): Result<Value>
    decreases e, 1
  {
    match e
    case Literal(kind, text) => EvalLiteral(env, kind, text)
    case ColumnRef(tbl, col) => EvalColumnRef(env, tbl, col, row)
    case Binary(op, left, right) =>
      var l :- Eval(env, left, row);
      var r :- Eval(env, right, row);
      BinaryValue(env.lib, op, l, r)
    case Unary(op, operand) =>
      var v :- Eval(env, operand, row);
      Ok(UnaryValue(env.lib, op, v))
    case Call(name, args) =>
      var vs :- EvalAll(env, args, row);
      env.call(name, vs)
    case Paren(inner) => Eval(env, inner, row)
    case Case(subject, whens, orElse) =>
      var v :- if subject.Some? then Eval(env, subject.value, row) else Ok(Null);
      EvalWhens(env, e, 0, v, row)
    case In(item, choices, negated) =>
      var v :- Eval(env, item, row);
      if choices == [] then Ok(Bool(negated))
      else if v == Null then Ok(Null)
      else EvalIn(env, v, choices, negated, false, row)
    case Between(item, low, high, negated) =>
      var v :- Eval(env, item, row);
      var l :- Eval(env, low, row);
      var h :- Eval(env, high, row);
      Ok(BetweenValue(env.lib, v, l, h, negated))
    case Like(item, pattern, negated) =>
      var v :- Eval(env, item, row);
      var p :- Eval(env, pattern, row);
      Ok(Bool(env.like(ToString(env.lib, v), ToString(env.lib, p)) != negated))
    case IsNull(item, negated) =>
      var v :- Eval(env, item, row);
      Ok(Bool((v == Null) != negated))
    case IsDistinct(left, right, negated) =>
      var l :- Eval(env, left, row);
      var r :- Eval(env, right, row);
      var distinct :=
        if l == Null || r == Null then l != r else Compare(env.lib, l, r) != 0;
      Ok(Bool(distinct != negated))
    case Cast(item, target) =>
      var v :- Eval(env, item, row);
      CastValue(env, v, target)
    case Subquery(query) => env.runSubquery(query, row)
  }

  function EvalAll(env: Env, es: seq<Expr>, row: Option<Row>): (r: Result<seq<Value>>)
    ensures r.Ok? ==> |r.value| == |es|
    decreases es, 0
  {
    if es == [] then Ok([])
    else
      var v :- Eval(env, es[0], row);
      var vs :- EvalAll(env, es[1..], row);
      Ok([v] + vs)
  }

  /** The WHEN loop of a CASE from branch `k` on: the first matching branch decides. */
  function EvalWhens(env: Env, e: Expr, k: nat, subject: Value, row: Option<Row>): Result<Value>
    requires e.Case? && k <= |e.whens|
    decreases e, 0, |e.whens| - k
  {
    if k == |e.whens| then
      if e.orElse.Some? then Eval(env, e.orElse.value, row) else Ok(Null)
    else
      var w := e.whens[k];
      var cond :- Eval(env, w.condition, row);
      var matched :=
        if e.subject.Some? then subject != Null && Compare(env.lib, subject, cond) == 0 else ToBool(cond);
      if matched then Eval(env, w.result, row) else EvalWhens(env, e, k + 1, subject, row)
  }

  /** The value loop of IN: a match decides, otherwise a NULL choice makes the answer unknown. */
  function EvalIn(env: Env, v: Value, choices: seq<Expr>, negated: bool, sawNull: bool, row: Option<Row>): Result<Value>
    decreases choices, 0
  {
    if choices == [] then
      if sawNull then Ok(Null) else Ok(Bool(negated))
    else
      var c :- Eval(env, choices[0], row);
      if c == Null then EvalIn(env, v, choices[1..], negated, true, row)
      else if Compare(env.lib, v, c) == 0 then Ok(Bool(!negated))
      else EvalIn(env, v, choices[1..], negated, sawNull, row)
  }

  // ---- column references ----

  datatype Ref = Ref(tbl: string, col: string)

  /** collectTableColumnRefs: every column reference outside a subquery, in walk order. */
  function TableRefs(e: Expr): seq<Ref>
    decreases e, 1
  {
    match e
    case Literal(_, _) => []
    case ColumnRef(tbl, col) => [Ref(tbl, col)]
    case Binary(_, left, right) => TableRefs(left) + TableRefs(right)
    case Unary(_, operand) => TableRefs(operand)
    case Call(_, args) => RefsOfAll(args)
    case Paren(inner) => TableRefs(inner)
    case Case(subject, whens, orElse) =>
      (if subject.Some? then TableRefs(subject.value) else [])
      + RefsOfWhens(e, 0)
      + (if orElse.Some? then TableRefs(orElse.value) else [])
    case In(item, choices, _) => TableRefs(item) + RefsOfAll(choices)
    case Between(item, low, high, _) => TableRefs(item) + TableRefs(low) + TableRefs(high)
    case Like(item, pattern, _) => TableRefs(item) + TableRefs(pattern)
    case IsNull(item, _) => TableRefs(item)
    case IsDistinct(left, right, _) => TableRefs(left) + TableRefs(right)
    case Cast(item, _) => TableRefs(item)
    case Subquery(_) => []
  }

  function RefsOfAll(es: seq<Expr>): seq<Ref>
    decreases es, 0
  {
    if es == [] then [] else TableRefs(es[0]) + RefsOfAll(es[1..])
  }

  function RefsOfWhens(e: Expr, k: nat): seq<Ref>
    requires e.Case? && k <= |e.whens|
    decreases e, 0, |e.whens| - k
  {
    if k == |e.whens| then []
    else TableRefs(e.whens[k].condition) + TableRefs(e.whens[k].result) + RefsOfWhens(e, k + 1)
  }

  predicate HasSubquery(e: Expr)
    decreases e, 1
  {
    match e
    case Literal(_, _) => false
    case ColumnRef(_, _) => false
    case Binary(_, left, right) => HasSubquery(left) || HasSubquery(right)
    case Unary(_, operand) => HasSubquery(operand)
    case Call(_, args) => AnyHasSubquery(args)
    case Paren(inner) => HasSubquery(inner)
    case Case(subject, whens, orElse) =>
      (subject.Some? && HasSubquery(subject.value))
      || WhensHaveSubquery(e, 0)
      || (orElse.Some? && HasSubquery(orElse.value))
    case In(item, choices, _) => HasSubquery(item) || AnyHasSubquery(choices)
    case Between(item, low, high, _) => HasSubquery(item) || HasSubquery(low) || HasSubquery(high)
    case Like(item, pattern, _) => HasSubquery(item) || HasSubquery(pattern)
    case IsNull(item, _) => HasSubquery(item)
    case IsDistinct(left, right, _) => HasSubquery(left) || HasSubquery(right)
    case Cast(item, _) => HasSubquery(item)
    case Subquery(_) => true
  }

  predicate AnyHasSubquery(es: seq<Expr>)
    decreases es, 0
  {
    es != [] && (HasSubquery(es[0]) || AnyHasSubquery(es[1..]))
  }

  predicate WhensHaveSubquery(e: Expr, k: nat)
    requires e.Case? && k <= |e.whens|
    decreases e, 0, |e.whens| - k
  {
    k < |e.whens|
    && (HasSubquery(e.whens[k].condition) || HasSubquery(e.whens[k].result) || WhensHaveSubquery(e, k + 1))
  }

  const SUBQUERY_SENTINEL := "__subquery__"

  /** collectColumnRefs: the referenced names, with a sentinel when a subquery occurs. */
  function ColumnNames(e: Expr): seq<string> {
    NamesOf(TableRefs(e)) + (if HasSubquery(e) then [SUBQUERY_SENTINEL] else [])
  }

  function NamesOf(refs: seq<Ref>): seq<string> {
    seq(|refs|, k requires 0 <= k < |refs| => refs[k].col)
  }

  /** Which functions may be called, by name and number of arguments. */
  type Allowed = (string, nat) -> bool

  /** No subquery, and calls of allowed functions only. */
  predicate Stable(allowed: Allowed, e: Expr)
    decreases e, 1
  {
    match e
    case Literal(_, _) => true
    case ColumnRef(_, _) => true
    case Binary(_, left, right) => Stable(allowed, left) && Stable(allowed, right)
    case Unary(_, operand) => Stable(allowed, operand)
    case Call(name, args) => allowed(name, |args|) && AllStable(allowed, args)
    case Paren(inner) => Stable(allowed, inner)
    case Case(subject, whens, orElse) =>
      (subject.Some? ==> Stable(allowed, subject.value))
      && WhensStable(allowed, e, 0)
      && (orElse.Some? ==> Stable(allowed, orElse.value))
    case In(item, choices, _) => Stable(allowed, item) && AllStable(allowed, choices)
    case Between(item, low, high, _) => Stable(allowed, item) && Stable(allowed, low) && Stable(allowed, high)
    case Like(item, pattern, _) => Stable(allowed, item) && Stable(allowed, pattern)
    case IsNull(item, _) => Stable(allowed, item)
    case IsDistinct(left, right, _) => Stable(allowed, left) && Stable(allowed, right)
    case Cast(item, _) => Stable(allowed, item)
    case Subquery(_) => false
  }

  predicate AllStable(allowed: Allowed, es: seq<Expr>)
    decreases es, 0
  {
    es == [] || (Stable(allowed, es[0]) && AllStable(allowed, es[1..]))
  }

  predicate WhensStable(allowed: Allowed, e: Expr, k: nat)
    requires e.Case? && k <= |e.whens|
    decreases e, 0, |e.whens| - k
  {
    k == |e.whens|
    || (Stable(allowed, e.whens[k].condition) && Stable(allowed, e.whens[k].result) && WhensStable(allowed, e, k + 1))
  }

  function AnyFunction(): Allowed {
    (_, _) => true
  }

  /** Executors that differ at most in their outer row, clock, subqueries and functions not allowed. */
  ghost predicate SameFunctions(allowed: Allowed, e1: Env, e2: Env) {
    && e1.lib == e2.lib && e1.parseNumber == e2.parseNumber && e1.like == e2.like && e1.castOther == e2.castOther
    && forall name, args :: allowed(name, |args|) ==> e1.call(name, args) == e2.call(name, args)
  }

  /** In their environments the two rows answer every reference in `refs` alike. */
  ghost predicate SameLookups(e1: Env, e2: Env, refs: seq<Ref>, r1: Option<Row>, r2: Option<Row>) {
    forall ref <- refs :: EvalColumnRef(e1, ref.tbl, ref.col, r1) == EvalColumnRef(e2, ref.tbl, ref.col, r2)
  }

  /** Coincidence: an expression without subqueries cannot tell apart two rows, or a row and no
      row at all, that answer its column references alike; nor two executors whose allowed
      functions are the same, whatever their outer rows, clocks and subqueries. */
  lemma {:induction false} StableCoincidence(allowed: Allowed, e1: Env, e2: Env, e: Expr, r1: Option<Row>,
      r2: Option<Row>)
    requires SameFunctions(allowed, e1, e2)
    requires Stable(allowed, e)
    requires SameLookups(e1, e2, TableRefs(e), r1, r2)
    ensures Eval(e1, e, r1) == Eval(e2, e, r2)
    decreases e, 1
  {
    match e
    case Literal(_, _) =>
    case ColumnRef(tbl, col) => assert Ref(tbl, col) in TableRefs(e);
    case Call(_, args) => CoincidenceAll(allowed, e1, e2, args, r1, r2);
    case Case(_, _, _) => CoincidenceCase(allowed, e1, e2, e, r1, r2);
    case In(_, _, _) => CoincidenceIn(allowed, e1, e2, e, r1, r2);
    case Binary(_, _, _) => CoincidenceOperator(allowed, e1, e2, e, r1, r2);
    case Between(_, _, _, _) => CoincidenceBetween(allowed, e1, e2, e, r1, r2);
    case Like(_, _, _) => CoincidenceOperator(allowed, e1, e2, e, r1, r2);
    case IsDistinct(_, _, _) => CoincidenceOperator(allowed, e1, e2, e, r1, r2);
    case _ => CoincidenceOperand(allowed, e1, e2, e, r1, r2);
  }

  lemma {:induction false} CoincidenceOperand(allowed: Allowed, e1: Env, e2: Env, e: Expr, r1: Option<Row>,
      r2: Option<Row>)
    requires SameFunctions(allowed, e1, e2)
    requires (e.Unary? || e.Paren? || e.IsNull? || e.Cast?) && Stable(allowed, e)
    requires SameLookups(e1, e2, TableRefs(e), r1, r2)
    ensures Eval(e1, e, r1) == Eval(e2, e, r2)
    decreases e, 0
  {
    match e
    case Unary(_, operand) => StableCoincidence(allowed, e1, e2, operand, r1, r2);
    case Paren(inner) => StableCoincidence(allowed, e1, e2, inner, r1, r2);
    case IsNull(item, _) => StableCoincidence(allowed, e1, e2, item, r1, r2);
    case Cast(item, _) => StableCoincidence(allowed, e1, e2, item, r1, r2);
  }

  lemma {:induction false} CoincidenceOperator(allowed: Allowed, e1: Env, e2: Env, e: Expr, r1: Option<Row>,
      r2: Option<Row>)
    requires SameFunctions(allowed, e1, e2)
    requires (e.Binary? || e.Like? || e.IsDistinct?) && Stable(allowed, e)
    requires SameLookups(e1, e2, TableRefs(e), r1, r2)
    ensures Eval(e1, e, r1) == Eval(e2, e, r2)
    decreases e, 1, 0
  {
    match e
    case Binary(_, left, right) => CoincidencePair(allowed, e1, e2, e, left, right, r1, r2);
    case Like(item, pattern, _) => CoincidencePair(allowed, e1, e2, e, item, pattern, r1, r2);
    case IsDistinct(left, right, _) => CoincidencePair(allowed, e1, e2, e, left, right, r1, r2);
  }

  lemma {:induction false} CoincidenceBetween(allowed: Allowed, e1: Env, e2: Env, e: Expr, r1: Option<Row>,
      r2: Option<Row>)
    requires SameFunctions(allowed, e1, e2)
    requires e.Between? && Stable(allowed, e)
    requires SameLookups(e1, e2, TableRefs(e), r1, r2)
    ensures Eval(e1, e, r1) == Eval(e2, e, r2)
    decreases e, 1, 0
  {
    StableCoincidence(allowed, e1, e2, e.item, r1, r2);
    CoincidencePair(allowed, e1, e2, e, e.low, e.high, r1, r2);
  }

  lemma {:induction false} CoincidenceIn(allowed: Allowed, e1: Env, e2: Env, e: Expr, r1: Option<Row>, r2: Option<Row>)
    requires SameFunctions(allowed, e1, e2)
    requires e.In? && Stable(allowed, e)
    requires SameLookups(e1, e2, TableRefs(e), r1, r2)
    ensures Eval(e1, e, r1) == Eval(e2, e, r2)
    decreases e, 0
  {
    StableCoincidence(allowed, e1, e2, e.item, r1, r2);
    var v := Eval(e1, e.item, r1);
    if v.Ok? {
      CoincidenceChoices(allowed, e1, e2, v.value, e.choices, e.negated, false, r1, r2);
    }
  }

  lemma {:induction false} CoincidencePair(allowed: Allowed, e1: Env, e2: Env, e: Expr, a: Expr, b: Expr,
      r1: Option<Row>, r2: Option<Row>)
    requires SameFunctions(allowed, e1, e2)
    requires a < e && b < e
    requires Stable(allowed, a) && Stable(allowed, b)
    requires SameLookups(e1, e2, TableRefs(a) + TableRefs(b), r1, r2)
    ensures Eval(e1, a, r1) == Eval(e2, a, r2)
    ensures Eval(e1, b, r1) == Eval(e2, b, r2)
    decreases e, 0
  {
    LookupsApart(e1, e2, TableRefs(a), TableRefs(b), r1, r2);
    StableCoincidence(allowed, e1, e2, a, r1, r2);
    StableCoincidence(allowed, e1, e2, b, r1, r2);
  }

  lemma {:induction false} CoincidenceAll(allowed: Allowed, e1: Env, e2: Env, es: seq<Expr>, r1: Option<Row>,
      r2: Option<Row>)
    requires SameFunctions(allowed, e1, e2)
    requires AllStable(allowed, es)
    requires SameLookups(e1, e2, RefsOfAll(es), r1, r2)
    ensures EvalAll(e1, es, r1) == EvalAll(e2, es, r2)
    decreases es, 0
  {
    if es != [] {
      StableCoincidence(allowed, e1, e2, es[0], r1, r2);
      CoincidenceAll(allowed, e1, e2, es[1..], r1, r2);
    }
  }

  lemma {:induction false} CoincidenceChoices(allowed: Allowed, e1: Env, e2: Env, v: Value, es: seq<Expr>,
      negated: bool, sawNull: bool, r1: Option<Row>, r2: Option<Row>)
    requires SameFunctions(allowed, e1, e2)
    requires AllStable(allowed, es)
    requires SameLookups(e1, e2, RefsOfAll(es), r1, r2)
    ensures EvalIn(e1, v, es, negated, sawNull, r1) == EvalIn(e2, v, es, negated, sawNull, r2)
    decreases es, 0
  {
    if es != [] {
      StableCoincidence(allowed, e1, e2, es[0], r1, r2);
      CoincidenceChoices(allowed, e1, e2, v, es[1..], negated, true, r1, r2);
      CoincidenceChoices(allowed, e1, e2, v, es[1..], negated, sawNull, r1, r2);
    }
  }

  lemma {:induction false} CoincidenceCase(allowed: Allowed, e1: Env, e2: Env, e: Expr, r1: Option<Row>,
      r2: Option<Row>)
    requires SameFunctions(allowed, e1, e2)
    requires e.Case? && Stable(allowed, e)
    requires SameLookups(e1, e2, TableRefs(e), r1, r2)
    ensures Eval(e1, e, r1) == Eval(e2, e, r2)
    decreases e, 1, |e.whens| + 1
  {
    if e.subject.Some? {
      StableCoincidence(allowed, e1, e2, e.subject.value, r1, r2);
    }
    var v := if e.subject.Some? then Eval(e1, e.subject.value, r1) else Ok(Null);
    if v.Ok? {
      CoincidenceWhens(allowed, e1, e2, e, 0, v.value, r1, r2);
    }
  }

  lemma {:induction false} CoincidenceWhens(allowed: Allowed, e1: Env, e2: Env, e: Expr, k: nat, subject: Value,
      r1: Option<Row>, r2: Option<Row>)
    requires SameFunctions(allowed, e1, e2)
    requires e.Case? && k <= |e.whens|
    requires WhensStable(allowed, e, k) && (e.orElse.Some? ==> Stable(allowed, e.orElse.value))
    requires SameLookups(e1, e2, RefsOfWhens(e, k), r1, r2)
    requires e.orElse.Some? ==> SameLookups(e1, e2, TableRefs(e.orElse.value), r1, r2)
    ensures EvalWhens(e1, e, k, subject, r1) == EvalWhens(e2, e, k, subject, r2)
    decreases e, 1, |e.whens| - k
  {
    if k == |e.whens| {
      if e.orElse.Some? {
        StableCoincidence(allowed, e1, e2, e.orElse.value, r1, r2);
      }
    } else {
      var w := e.whens[k];
      LookupsApart(e1, e2, TableRefs(w.condition) + TableRefs(w.result), RefsOfWhens(e, k + 1), r1, r2);
      CoincidencePair(allowed, e1, e2, e, w.condition, w.result, r1, r2);
      CoincidenceWhens(allowed, e1, e2, e, k + 1, subject, r1, r2);
      WhenStep(e1, e2, e, k, subject, r1, r2);
    }
  }

  lemma WhenStep(e1: Env, e2: Env, e: Expr, k: nat, subject: Value, r1: Option<Row>, r2: Option<Row>)
    requires e.Case? && k < |e.whens| && e1.lib == e2.lib
    requires Eval(e1, e.whens[k].condition, r1) == Eval(e2, e.whens[k].condition, r2)
    requires Eval(e1, e.whens[k].result, r1) == Eval(e2, e.whens[k].result, r2)
    requires EvalWhens(e1, e, k + 1, subject, r1) == EvalWhens(e2, e, k + 1, subject, r2)
    ensures EvalWhens(e1, e, k, subject, r1) == EvalWhens(e2, e, k, subject, r2)
  {
  }

  lemma LookupsApart(e1: Env, e2: Env, a: seq<Ref>, b: seq<Ref>, r1: Option<Row>, r2: Option<Row>)
    requires SameLookups(e1, e2, a + b, r1, r2)
    ensures SameLookups(e1, e2, a, r1, r2) && SameLookups(e1, e2, b, r1, r2)
  {
    assert forall ref <- a :: ref in a + b;
    assert forall ref <- b :: ref in a + b;
  }

  lemma {:induction false} SubqueryFreeIsStable(e: Expr)
    requires !HasSubquery(e)
    ensures Stable(AnyFunction(), e)
    decreases e, 1
  {
    match e
    case Literal(_, _) =>
    case ColumnRef(_, _) =>
    case Binary(_, left, right) => SubqueryFreeIsStable(left); SubqueryFreeIsStable(right);
    case Unary(_, operand) => SubqueryFreeIsStable(operand);
    case Call(_, args) => SubqueryFreeAll(args);
    case Paren(inner) => SubqueryFreeIsStable(inner);
    case Case(subject, _, orElse) =>
      if subject.Some? {
        SubqueryFreeIsStable(subject.value);
      }
      if orElse.Some? {
        SubqueryFreeIsStable(orElse.value);
      }
      SubqueryFreeWhens(e, 0);
    case In(item, choices, _) => SubqueryFreeIsStable(item); SubqueryFreeAll(choices);
    case Between(item, low, high, _) =>
      SubqueryFreeIsStable(item);
      SubqueryFreeIsStable(low);
      SubqueryFreeIsStable(high);
    case Like(item, pattern, _) => SubqueryFreeIsStable(item); SubqueryFreeIsStable(pattern);
    case IsNull(item, _) => SubqueryFreeIsStable(item);
    case IsDistinct(left, right, _) => SubqueryFreeIsStable(left); SubqueryFreeIsStable(right);
    case Cast(item, _) => SubqueryFreeIsStable(item);
  }

  lemma {:induction false} SubqueryFreeAll(es: seq<Expr>)
    requires !AnyHasSubquery(es)
    ensures AllStable(AnyFunction(), es)
    decreases es, 0
  {
    if es != [] {
      SubqueryFreeIsStable(es[0]);
      SubqueryFreeAll(es[1..]);
    }
  }

  lemma {:induction false} SubqueryFreeWhens(e: Expr, k: nat)
    requires e.Case? && k <= |e.whens| && !WhensHaveSubquery(e, k)
    ensures WhensStable(AnyFunction(), e, k)
    decreases e, 0, |e.whens| - k
  {
    if k < |e.whens| {
      SubqueryFreeIsStable(e.whens[k].condition);
      SubqueryFreeIsStable(e.whens[k].result);
      SubqueryFreeWhens(e, k + 1);
    }
  }

  /** The same executor, except possibly for the outer row of a correlated query. */
  ghost predicate SameExecutor(e1: Env, e2: Env) {
    e2 == e1.(outer := e2.outer)
  }

  /** Coincidence for one executor, with any functions. */
  lemma Coincidence(e1: Env, e2: Env, e: Expr, r1: Option<Row>, r2: Option<Row>)
    requires SameExecutor(e1, e2)
    requires !HasSubquery(e)
    requires SameLookups(e1, e2, TableRefs(e), r1, r2)
    ensures Eval(e1, e, r1) == Eval(e2, e, r2)
  {
    SubqueryFreeIsStable(e);
    StableCoincidence(AnyFunction(), e1, e2, e, r1, r2);
  }

  /** A predicate for which collectColumnRefs reports nothing may be evaluated once, with no row. */
  lemma ReferenceFreeIsConstant(env: Env, e: Expr, row: Row)
    requires ColumnNames(e) == []
    ensures Eval(env, e, None) == Eval(env, e, Some(row))
  {
    assert |ColumnNames(e)| == |TableRefs(e)| + (if HasSubquery(e) then 1 else 0);
    Coincidence(env, env, e, None, Some(row));
  }

  // ---- conjunctions ----

  function SplitAnd(e: Expr): seq<Expr> {
    if e.Binary? && e.op == And then SplitAnd(e.left) + SplitAnd(e.right) else [e]
  }

  /** combineAND for a nonempty list: a left-nested conjunction. */
  function CombineAnd(clauses: seq<Expr>): Expr
    requires clauses != []
  {
    var n := |clauses| - 1;
    if n == 0 then clauses[0] else Binary(And, CombineAnd(clauses[..n]), clauses[n])
  }

  /** The predicate evaluates without error to a value WHERE accepts. */
  ghost predicate Holds(env: Env, e: Expr, row: Row) {
    Eval(env, e, Some(row)).Ok? && ToBool(Eval(env, e, Some(row)).value)
  }

  ghost predicate HoldsAll(env: Env, clauses: seq<Expr>, row: Row) {
    forall c <- clauses :: Holds(env, c, row)
  }

  ghost predicate NoneFails(env: Env, clauses: seq<Expr>, row: Row) {
    forall c <- clauses :: Eval(env, c, Some(row)).Ok?
  }

  lemma AndMeaning(env: Env, left: Expr, right: Expr, row: Row)
    ensures Eval(env, Binary(And, left, right), Some(row)).Ok?
       <==> Eval(env, left, Some(row)).Ok? && Eval(env, right, Some(row)).Ok?
    ensures Holds(env, Binary(And, left, right), row) <==> Holds(env, left, row) && Holds(env, right, row)
  {
  }

  /** Splitting a WHERE clause into conjuncts changes neither which rows it accepts nor
      which rows it fails on. */
  lemma {:induction false} SplitAndMeaning(env: Env, e: Expr, row: Row)
    ensures Eval(env, e, Some(row)).Ok? <==> NoneFails(env, SplitAnd(e), row)
    ensures Holds(env, e, row) <==> HoldsAll(env, SplitAnd(e), row)
  {
    if e.Binary? && e.op == And {
      SplitAndMeaning(env, e.left, row);
      SplitAndMeaning(env, e.right, row);
      AndMeaning(env, e.left, e.right, row);
    } else {
      assert SplitAnd(e)[0] == e;
    }
  }

  /** Joining conjuncts back into one predicate likewise. */
  lemma {:induction false} CombineAndMeaning(env: Env, clauses: seq<Expr>, row: Row)
    requires clauses != []
    ensures Eval(env, CombineAnd(clauses), Some(row)).Ok? <==> NoneFails(env, clauses, row)
    ensures Holds(env, CombineAnd(clauses), row) <==> HoldsAll(env, clauses, row)
  {
    var n := |clauses| - 1;
    if n == 0 {
      assert clauses == [clauses[0]];
    } else {
      CombineAndMeaning(env, clauses[..n], row);
      AndMeaning(env, CombineAnd(clauses[..n]), clauses[n], row);
      assert clauses == clauses[..n] + [clauses[n]];
    }
  }

  /** Every conjunct of a WHERE clause refers to columns the clause refers to. */
  lemma {:induction false} SplitAndRefs(e: Expr, c: Expr)
    requires c in SplitAnd(e)
    ensures HasSubquery(c) ==> HasSubquery(e)
    ensures forall ref <- TableRefs(c) :: ref in TableRefs(e)
  {
    if e.Binary? && e.op == And {
      if c in SplitAnd(e.left) {
        SplitAndRefs(e.left, c);
      } else {
        SplitAndRefs(e.right, c);
      }
    }
  }
}
