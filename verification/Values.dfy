/** The values that rows carry and the conversions every component shares.

    Calls into Go's standard library whose result is not the point (float
    formatting and parsing, float arithmetic, bit operations) are fields of
    `Library`, so a theorem about them holds for every choice of those functions.
 */
module Values {

  datatype Option<+T> = None | Some(value: T)

  datatype Result<+T> = Ok(value: T) | Err(error: string) {
    predicate IsFailure() {
      Err?
    }

    function PropagateFailure<U>(): Result<U>
      requires Err?
    {
      Err(error)
    }

    function Extract(): T
      requires Ok?
    {
      value
    }
  }

  const TWO_64 := 0x1_0000_0000_0000_0000
  const TWO_63 := 0x8000_0000_0000_0000

  type Int64 = i: int | -TWO_63 <= i < TWO_63

  /** Two's complement wrap-around of Go's int64 arithmetic. */
  function Wrap(i: int): Int64 {
    (i + TWO_63) % TWO_64 - TWO_63
  }

  datatype Value =
    | Null
    | Int(i: Int64)
    | Bool(b: bool)
    | Real(r: real)
    | Text(s: string)

  datatype BitOp = BitAnd | BitOr | ShiftLeft | ShiftRight

  datatype Library = Library(
    intToFloat: Int64 -> real,
    floatToInt: real -> Int64,
    parseFloat: string -> Option<real>,
    goText: real -> string,
    sqlText: real -> string,
    add: (real, real) -> real,
    sub: (real, real) -> real,
    mul: (real, real) -> real,
    div: (real, real) -> real,
    bits: (BitOp, Int64, Int64) -> Int64)

  /** Decimal digits of a natural number, most significant first. */
  function Digits(n: nat): string {
    if n < 10 then [DigitChar(n)] else Digits(n / 10) + [DigitChar(n % 10)]
  }

  function DigitChar(d: nat): char
    requires d < 10
  {
    '0' + d as char
  }

  /** strconv.FormatInt in base 10. */
  function FormatInt(i: int): string {
    if i < 0 then "-" + Digits(-i) else Digits(i)
  }

  lemma {:induction false} DigitsInjective(m: nat, n: nat)
    requires Digits(m) == Digits(n)
    ensures m == n
  {
    if m >= 10 && n >= 10 {
      var dm, dn := Digits(m), Digits(n);
      assert dm[..|dm| - 1] == Digits(m / 10) && dn[..|dn| - 1] == Digits(n / 10);
      assert dm[|dm| - 1] == DigitChar(m % 10) && dn[|dn| - 1] == DigitChar(n % 10);
      DigitsInjective(m / 10, n / 10);
    } else {
      DigitsNonEmpty(m / 10);
      DigitsNonEmpty(n / 10);
      assert m < 10 && n < 10;
      assert DigitChar(m) == DigitChar(n);
    }
  }

  lemma {:induction false} DigitsNonEmpty(n: nat)
    ensures 0 < |Digits(n)|
    ensures forall k :: 0 <= k < |Digits(n)| ==> '0' <= Digits(n)[k] <= '9'
  {
    if n >= 10 {
      DigitsNonEmpty(n / 10);
    }
  }

  /** Different integers have different decimal text. */
  lemma FormatIntInjective(i: int, j: int)
    requires FormatInt(i) == FormatInt(j)
    ensures i == j
  {
    var m, n := if i < 0 then -i else i, if j < 0 then -j else j;
    DigitsNonEmpty(m);
    DigitsNonEmpty(n);
    assert i < 0 <==> FormatInt(i)[0] == '-';
    assert j < 0 <==> FormatInt(j)[0] == '-';
    if i < 0 {
      assert FormatInt(i)[1..] == Digits(m) && FormatInt(j)[1..] == Digits(n);
    }
    DigitsInjective(m, n);
  }

  predicate IsIntVal(v: Value) {
    v.Int? || v.Bool?
  }

  function ToInt64(lib: Library, v: Value): Int64 {
    match v
    case Int(i) => i
    case Real(r) => lib.floatToInt(r)
    case Bool(b) => if b then 1 else 0
    case _ => 0
  }

  function ToFloat(lib: Library, v: Value): real {
    match v
    case Null => 0.0
    case Int(i) => lib.intToFloat(i)
    case Real(r) => r
    case Bool(b) => if b then 1.0 else 0.0
    case Text(s) => if lib.parseFloat(s).Some? then lib.parseFloat(s).value else 0.0
  }

  predicate ToBool(v: Value) {
    match v
    case Null => false
    case Bool(b) => b
    case Int(i) => i != 0
    case Real(r) => r != 0.0
    case Text(s) => s != "" && s != "0" && ToLower(s) != "false"
  }

  function ToLower(s: string): string {
    seq(|s|, k requires 0 <= k < |s| => LowerChar(s[k]))
  }

  function LowerChar(c: char): char {
    if 'A' <= c <= 'Z' then c - 'A' + 'a' else c
  }

  function ToString(lib: Library, v: Value): string {
    match v
    case Null => ""
    case Text(s) => s
    case Bool(b) => if b then "1" else "0"
    case Int(i) => FormatInt(i)
    case Real(r) => lib.sqlText(r)
  }

  /** fmt.Sprintf("%v", v), the text hash keys, group keys and DISTINCT keys are built from. */
  function Render(lib: Library, v: Value): string {
    match v
    case Null => "<nil>"
    case Text(s) => s
    case Bool(b) => if b then "true" else "false"
    case Int(i) => FormatInt(i)
    case Real(r) => lib.goText(r)
  }

  function ToNumeric(lib: Library, v: Value): Option<real> {
    match v
    case Int(i) => Some(lib.intToFloat(i))
    case Real(r) => Some(r)
    case Text(s) => lib.parseFloat(s)
    case _ => None
  }

  /** strings.Compare: lexicographic order of the code points. */
  function CompareText(a: string, b: string): int {
    if a == [] then (if b == [] then 0 else -1)
    else if b == [] then 1
    else if a[0] < b[0] then -1
    else if b[0] < a[0] then 1
    else CompareText(a[1..], b[1..])
  }

  function CompareReal(x: real, y: real): int {
    if x < y then -1 else if x > y then 1 else 0
  }

  function Compare(lib: Library, a: Value, b: Value): int {
    if a == Null && b == Null then 0
    else if a == Null then -1
    else if b == Null then 1
    else
      var x, y := ToNumeric(lib, a), ToNumeric(lib, b);
      if x.Some? && y.Some? then CompareReal(x.value, y.value)
      else CompareText(ToString(lib, a), ToString(lib, b))
  }

  lemma {:induction false} CompareTextAntisymmetric(a: string, b: string)
    ensures CompareText(a, b) == -CompareText(b, a)
    ensures CompareText(a, b) == 0 <==> a == b
    ensures -1 <= CompareText(a, b) <= 1
  {
    if a != [] && b != [] && a[0] == b[0] {
      CompareTextAntisymmetric(a[1..], b[1..]);
      assert a == [a[0]] + a[1..] && b == [b[0]] + b[1..];
    }
  }

  lemma {:induction false} CompareTextTransitive(a: string, b: string, c: string)
    requires CompareText(a, b) <= 0 && CompareText(b, c) <= 0
    ensures CompareText(a, c) <= 0
  {
    if a != [] && b != [] && c != [] && a[0] == b[0] == c[0] {
      CompareTextTransitive(a[1..], b[1..], c[1..]);
    }
  }
}
