/** Canonical spelling of jsonb numbers: exact decimals without exponent, trailing
    fractional zeros, or negative zero. */
module JsonbNumber {
  import opened Values

  const MAX_DIGITS := 131072

  // ---- decimal strings ----

  predicate IsDigit(c: char) {
    '0' <= c <= '9'
  }

  predicate AllDigits(s: string) {
    forall k :: 0 <= k < |s| ==> IsDigit(s[k])
  }

  function DigitsValue(s: string): nat
    requires AllDigits(s)
  {
    if s == "" then 0 else 10 * DigitsValue(s[..|s| - 1]) + (s[|s| - 1] - '0') as nat
  }

  function Pow10(n: nat): (p: nat)
    ensures p >= 1
  {
    if n == 0 then 1 else 10 * Pow10(n - 1)
  }

  function Zeros(n: nat): string {
    seq(n, _ => '0')
  }

  /** The exact value of mantissa `m` with `scale` fractional digits. */
  function Scaled(m: int, scale: int): real {
    if scale >= 0 then m as real / Pow10(scale) as real else (m * Pow10(-scale)) as real
  }

  // ---- parsing ----

  datatype Parsed = Parsed(negative: bool, digits: string, fraction: string, exponent: int)

  /** The end of the run of digits that starts at `i`. */
  function RunEnd(text: string, i: nat): (j: nat)
    requires i <= |text|
    ensures i <= j <= |text|
    ensures AllDigits(text[i..j])
    ensures j < |text| ==> !IsDigit(text[j])
    decreases |text| - i
  {
    if i < |text| && IsDigit(text[i]) then
      var j := RunEnd(text, i + 1);
      assert text[i..j] == [text[i]] + text[i + 1..j];
      j
    else i
  }

  /** strconv.Atoi on a 64-bit platform. */
  function Atoi(s: string): Option<int> {
    var signed := s != "" && (s[0] == '-' || s[0] == '+');
    var body := if signed then s[1..] else s;
    if body == "" || !AllDigits(body) then None
    else
      var value: int := DigitsValue(body);
      var n := if signed && s[0] == '-' then -value else value;
      if -TWO_63 <= n < TWO_63 then Some(n) else None
  }

  function ParseExponent(text: string, k: nat): Option<int>
    requires k <= |text|
  {
    if k < |text| && (text[k] == 'e' || text[k] == 'E') then Atoi(text[k + 1..])
    else if k != |text| then None
    else Some(0)
  }

  /** Sign, digits, optional fraction, optional exponent, and nothing after them. */
  function Parse(text: string): (p: Option<Parsed>)
    ensures p.Some? ==> Decimal(p.value)
  {
    var negative := text != "" && text[0] == '-';
    var start := if negative then 1 else 0;
    var i := RunEnd(text, start);
    if i == start then None else ParseTail(text, negative, text[start..i], i)
  }

  /** What follows the digits: optional fraction, optional exponent. */
  function ParseTail(text: string, negative: bool, digits: string, i: nat): (p: Option<Parsed>)
    requires i <= |text| && AllDigits(digits) && digits != ""
    ensures p.Some? ==> Decimal(p.value)
  {
    var dot := i < |text| && text[i] == '.';
    var k := if dot then RunEnd(text, i + 1) else i;
    var fraction := if dot then text[i + 1..k] else "";
    var exponent := ParseExponent(text, k);
    if exponent == None then None else Some(Parsed(negative, digits, fraction, exponent.value))
  }

  predicate Decimal(p: Parsed) {
    AllDigits(p.digits) && AllDigits(p.fraction) && p.digits != ""
  }

  function Mantissa(p: Parsed): nat
    requires Decimal(p)
  {
    DigitsValue(p.digits + p.fraction)
  }

  function Scale(p: Parsed): int {
    |p.fraction| - p.exponent
  }

  function ParsedValue(p: Parsed): real
    requires Decimal(p)
  {
    var v := Scaled(Mantissa(p), Scale(p));
    if p.negative then -v else v
  }

  /** The rational number a JSON number denotes. */
  function NumberValue(text: string): real
    requires Parse(text).Some?
  {
    ParsedValue(Parse(text).value)
  }

  // ---- the canonical text ----

  /** Drops trailing zeros of the mantissa while there are fractional digits left. */
  function Strip(m: nat, scale: nat): (r: (nat, nat))
    requires m > 0
    ensures r.0 > 0
    ensures r.1 > 0 ==> r.0 % 10 != 0
    ensures r.1 <= scale
    decreases m
  {
    if scale > 0 && m % 10 == 0 then Strip(m / 10, scale - 1) else (m, scale)
  }

  function Unsigned(m: nat, scale: nat): string {
    var rendered := Digits(m);
    if scale == 0 then rendered
    else if scale >= |rendered| then "0." + Zeros(scale - |rendered|) + rendered
    else rendered[..|rendered| - scale] + "." + rendered[|rendered| - scale..]
  }

  function Signed(negative: bool, m: nat, scale: nat): string {
    if negative then "-" + Unsigned(m, scale) else Unsigned(m, scale)
  }

  /** The mantissa and scale the canonical text spells, or the overflow error. */
  function Normalize(m: nat, scale: int): Result<(nat, nat)>
    requires m > 0
  {
    if scale <= 0 then
      if |Digits(m)| - scale > MAX_DIGITS then Err("jsonb number field overflow") else Ok((m * Pow10(-scale), 0))
    else
      var (m', s) := Strip(m, scale);
      if s >= |Digits(m')| && s > MAX_DIGITS then Err("jsonb number field overflow") else Ok((m', s))
  }

  function CanonicalParsed(p: Parsed): Result<string>
    requires Decimal(p)
  {
    if |p.digits + p.fraction| > MAX_DIGITS then Err("jsonb number field overflow")
    else if Mantissa(p) == 0 then Ok("0")
    else if Scale(p) >= TWO_63 then Err("scale out of range")
    else
      var n := Normalize(Mantissa(p), Scale(p));
      if n.Err? then Err(n.error) else Ok(Signed(p.negative, n.value.0, n.value.1))
  }

  /** canonicalJSONBNumber. Where the scale would not fit int64 the source reports an overflow
      or stops in strings.Repeat; either way it returns no text. */
  function CanonicalNumber(text: string): Result<string> {
    var p := Parse(text);
    if p == None then Err("invalid input syntax for type jsonb") else CanonicalParsed(p.value)
  }

  // ---- facts about decimal strings ----

  lemma {:induction false} DigitsOfValue(m: nat)
    ensures AllDigits(Digits(m)) && Digits(m) != ""
    ensures DigitsValue(Digits(m)) == m
  {
    if m >= 10 {
      DigitsOfValue(m / 10);
      assert Digits(m)[..|Digits(m)| - 1] == Digits(m / 10);
    } else {
      assert Digits(m)[..0] == "";
    }
  }

  lemma AppendDigit(x: int, p: int, y: int, d: int)
    ensures 10 * (x * p + y) + d == x * (10 * p) + (10 * y + d)
  {
  }

  lemma TenFold(m: int, q: int)
    ensures m * (10 * q) == m * q * 10
  {
  }

  lemma {:induction false} ValueAppend(a: string, b: string)
    requires AllDigits(a) && AllDigits(b)
    ensures AllDigits(a + b)
    ensures DigitsValue(a + b) == DigitsValue(a) * Pow10(|b|) + DigitsValue(b)
  {
    if b == "" {
      assert a + b == a;
    } else {
      var n := |b| - 1;
      ValueAppend(a, b[..n]);
      assert (a + b)[..|a + b| - 1] == a + b[..n];
      AppendDigit(DigitsValue(a), Pow10(n), DigitsValue(b[..n]), (b[n] - '0') as nat);
    }
  }

  lemma {:induction false} ZerosValue(n: nat)
    ensures AllDigits(Zeros(n)) && DigitsValue(Zeros(n)) == 0
  {
    if n > 0 {
      ZerosValue(n - 1);
      assert Zeros(n)[..n - 1] == Zeros(n - 1);
    }
  }

  lemma TimesTen(m: nat)
    requires m > 0
    ensures Digits(m * 10) == Digits(m) + "0"
  {
    assert m * 10 / 10 == m && m * 10 % 10 == 0;
  }

  lemma {:induction false} TimesPow10(m: nat, k: nat)
    requires m > 0
    ensures m * Pow10(k) > 0
    ensures Digits(m * Pow10(k)) == Digits(m) + Zeros(k)
  {
    if k == 0 {
      assert Zeros(0) == "";
    } else {
      TimesPow10(m, k - 1);
      TimesTen(m * Pow10(k - 1));
      TenFold(m, Pow10(k - 1));
      assert Zeros(k) == Zeros(k - 1) + "0";
    }
  }

  lemma LastDigit(m: nat)
    requires m > 0
    ensures Digits(m)[|Digits(m)| - 1] == '0' <==> m % 10 == 0
    ensures m % 10 == 0 ==> |Digits(m)| > 1 && Digits(m)[..|Digits(m)| - 1] == Digits(m / 10)
  {
    DigitsNonEmpty(m / 10);
  }

  // ---- scaling ----

  lemma ScaledShift(m: int, scale: int)
    ensures Scaled(m * 10, scale + 1) == Scaled(m, scale)
  {
    if scale >= 0 {
      var p := Pow10(scale) as real;
      assert Pow10(scale + 1) as real == 10.0 * p;
      assert (m * 10) as real == 10.0 * m as real;
      assert 10.0 * m as real / (10.0 * p) == m as real / p;
    } else if scale == -1 {
    } else {
      assert Pow10(-scale) == 10 * Pow10(-scale - 1);
      assert m * 10 * Pow10(-scale - 1) == m * Pow10(-scale);
    }
  }

  lemma {:induction false} StripValue(m: nat, scale: nat)
    requires m > 0
    ensures Scaled(Strip(m, scale).0, Strip(m, scale).1) == Scaled(m, scale)
    decreases m
  {
    if scale > 0 && m % 10 == 0 {
      StripValue(m / 10, scale - 1);
      ScaledShift(m / 10, scale - 1);
    }
  }

  lemma NormalizeValue(m: nat, scale: int)
    requires m > 0 && Normalize(m, scale).Ok?
    ensures
      var (m', s) := Normalize(m, scale).value;
      m' > 0 && Scaled(m', s) == Scaled(m, scale) && (s > 0 ==> m' % 10 != 0)
  {
    if scale <= 0 {
      TimesPow10(m, -scale);
    } else {
      StripValue(m, scale);
    }
  }

  /** Two normal forms of one value are the same. */
  lemma NormalUnique(m1: nat, s1: nat, m2: nat, s2: nat)
    requires s1 > 0 ==> m1 % 10 != 0
    requires s2 > 0 ==> m2 % 10 != 0
    requires Scaled(m1, s1) == Scaled(m2, s2)
    ensures m1 == m2 && s1 == s2
  {
    CrossMultiply(m1, s1, m2, s2);
    if s1 <= s2 {
      Cancel(m1, s1, m2, s2);
    } else {
      Cancel(m2, s2, m1, s1);
    }
  }

  lemma CrossReals(a: real, p: real, b: real, q: real)
    requires p > 0.0 && q > 0.0 && a / p == b / q
    ensures a * q == b * p
  {
    var x := a / p;
    assert a == x * p;
    assert b == x * q;
    assert x * p * q == x * q * p;
  }

  lemma RealProduct(x: int, y: int)
    ensures (x * y) as real == x as real * y as real
  {
  }

  lemma CrossMultiply(m1: nat, s1: nat, m2: nat, s2: nat)
    requires Scaled(m1, s1) == Scaled(m2, s2)
    ensures m1 * Pow10(s2) == m2 * Pow10(s1)
  {
    var p, q := Pow10(s1), Pow10(s2);
    CrossReals(m1 as real, p as real, m2 as real, q as real);
    RealProduct(m1, q);
    RealProduct(m2, p);
  }

  lemma {:induction false} Cancel(m1: nat, s1: nat, m2: nat, s2: nat)
    requires s1 <= s2 && (s2 > 0 ==> m2 % 10 != 0)
    requires m1 * Pow10(s2) == m2 * Pow10(s1)
    ensures m1 == m2 && s1 == s2
  {
    if s1 > 0 {
      TenFold(m1, Pow10(s2 - 1));
      TenFold(m2, Pow10(s1 - 1));
      Cancel(m1, s1 - 1, m2, s2 - 1);
    } else if s2 > 0 {
      TenFold(m1, Pow10(s2 - 1));
    }
  }

  // ---- the canonical text parses back ----

  lemma {:induction false} RunEndExact(text: string, i: nat, j: nat)
    requires i <= j <= |text| && AllDigits(text[i..j])
    requires j < |text| ==> !IsDigit(text[j])
    ensures RunEnd(text, i) == j
    decreases j - i
  {
    if i < j {
      assert text[i] == text[i..j][0];
      assert text[i + 1..j] == text[i..j][1..];
      RunEndExact(text, i + 1, j);
    }
  }

  function SignText(negative: bool): string {
    if negative then "-" else ""
  }

  lemma ParsePlain(negative: bool, a: string)
    requires AllDigits(a) && a != ""
    ensures Parse(SignText(negative) + a) == Some(Parsed(negative, a, "", 0))
  {
    var text, start := SignText(negative) + a, |SignText(negative)|;
    assert text[start..|text|] == a;
    assert !negative ==> text[0] == a[0] && IsDigit(a[0]);
    RunEndExact(text, start, |text|);
  }

  lemma ParsePoint(negative: bool, a: string, b: string)
    requires AllDigits(a) && a != "" && AllDigits(b)
    ensures Parse(SignText(negative) + a + "." + b) == Some(Parsed(negative, a, b, 0))
  {
    var text, start := SignText(negative) + a + "." + b, |SignText(negative)|;
    var i := start + |a|;
    assert text[start..i] == a;
    assert !negative ==> text[0] == a[0] && IsDigit(a[0]);
    assert text[i] == '.';
    RunEndExact(text, start, i);
    assert text[i + 1..|text|] == b;
    RunEndExact(text, i + 1, |text|);
  }

  lemma SignedInteger(negative: bool, m: nat)
    requires m > 0
    ensures Parse(Signed(negative, m, 0)) == Some(Parsed(negative, Digits(m), "", 0))
    ensures Digits(m) + "" == Digits(m) && AllDigits(Digits(m)) && DigitsValue(Digits(m)) == m
  {
    DigitsOfValue(m);
    ParsePlain(negative, Digits(m));
    assert Signed(negative, m, 0) == SignText(negative) + Digits(m);
  }

  lemma Append3(a: string, b: string, c: string, d: string)
    ensures a + (b + c + d) == a + b + c + d
    ensures a + b + c + d == a + b + (c + d)
  {
  }

  lemma SmallText(negative: bool, m: nat, scale: nat)
    requires 0 < scale && scale >= |Digits(m)|
    ensures Signed(negative, m, scale) == SignText(negative) + "0" + "." + (Zeros(scale - |Digits(m)|) + Digits(m))
  {
    var tail := Zeros(scale - |Digits(m)|) + Digits(m);
    assert Unsigned(m, scale) == "0" + "." + tail;
    SignedIs(negative, m, scale);
    Append3(SignText(negative), "0", ".", tail);
  }

  lemma SignedIs(negative: bool, m: nat, scale: nat)
    ensures Signed(negative, m, scale) == SignText(negative) + Unsigned(m, scale)
  {
    assert "" + Unsigned(m, scale) == Unsigned(m, scale);
  }

  lemma SplitText(m: nat, scale: nat, a: string, b: string)
    requires 0 < scale < |Digits(m)|
    requires a == Digits(m)[..|Digits(m)| - scale] && b == Digits(m)[|Digits(m)| - scale..]
    ensures Unsigned(m, scale) == a + "." + b && a + b == Digits(m)
  {
  }

  lemma PointedText(sign: string, a: string, b: string, text: string)
    requires text == a + "." + b
    ensures sign + text == sign + a + "." + b
  {
    Append3(sign, a, ".", b);
  }

  lemma SmallValue(m: nat, zeros: nat)
    ensures
      var b := Zeros(zeros) + Digits(m);
      AllDigits(b) && AllDigits("0" + b) && DigitsValue("0" + b) == m
  {
    DigitsOfValue(m);
    ZerosValue(zeros);
    ValueAppend(Zeros(zeros), Digits(m));
    ValueAppend("0", Zeros(zeros) + Digits(m));
    assert "0"[..0] == "";
  }

  lemma SignedSmall(negative: bool, m: nat, scale: nat) returns (b: string)
    requires m > 0 && 0 < scale && scale >= |Digits(m)|
    ensures |b| == scale && AllDigits(b) && AllDigits("0" + b) && DigitsValue("0" + b) == m
    ensures Parse(Signed(negative, m, scale)) == Some(Parsed(negative, "0", b, 0))
  {
    b := Zeros(scale - |Digits(m)|) + Digits(m);
    SmallValue(m, scale - |Digits(m)|);
    SmallText(negative, m, scale);
    ParsePoint(negative, "0", b);
  }

  lemma SignedSplit(negative: bool, m: nat, scale: nat) returns (a: string, b: string)
    requires m > 0 && 0 < scale < |Digits(m)|
    ensures |b| == scale && AllDigits(a) && a != "" && AllDigits(b) && a + b == Digits(m)
    ensures Parse(Signed(negative, m, scale)) == Some(Parsed(negative, a, b, 0))
  {
    a, b := Digits(m)[..|Digits(m)| - scale], Digits(m)[|Digits(m)| - scale..];
    DigitsOfValue(m);
    SplitText(m, scale, a, b);
    SignedIs(negative, m, scale);
    PointedText(SignText(negative), a, b, Unsigned(m, scale));
    ParsePoint(negative, a, b);
  }

  /** What the text of a sign, mantissa and scale parses to. */
  ghost predicate Spells(p: Parsed, negative: bool, m: nat, scale: nat) {
    && Decimal(p)
    && p.negative == negative && |p.fraction| == scale && p.exponent == 0
    && Mantissa(p) == m
    && |p.digits + p.fraction| == if scale >= |Digits(m)| then scale + 1 else |Digits(m)|
  }

  lemma SignedParses(negative: bool, m: nat, scale: nat) returns (p: Parsed)
    requires m > 0
    ensures Parse(Signed(negative, m, scale)) == Some(p) && Spells(p, negative, m, scale)
  {
    DigitsOfValue(m);
    if scale == 0 {
      SignedInteger(negative, m);
      p := Parsed(negative, Digits(m), "", 0);
    } else if scale >= |Digits(m)| {
      var b := SignedSmall(negative, m, scale);
      p := Parsed(negative, "0", b, 0);
    } else {
      var a, b := SignedSplit(negative, m, scale);
      p := Parsed(negative, a, b, 0);
    }
  }

  // ---- theorems ----

  lemma ZeroParses()
    ensures Parse("0") == Some(Parsed(false, "0", "", 0))
    ensures Mantissa(Parsed(false, "0", "", 0)) == 0
  {
    ParsePlain(false, "0");
    assert SignText(false) + "0" == "0";
    assert "0" + "" == "0" && "0"[..0] == "";
  }

  lemma CanonicalParsedKeepsValue(p: Parsed) returns (q: Parsed)
    requires Decimal(p) && CanonicalParsed(p).Ok?
    ensures Parse(CanonicalParsed(p).value) == Some(q)
    ensures ParsedValue(q) == ParsedValue(p)
  {
    if Mantissa(p) == 0 {
      ZeroParses();
      q := Parsed(false, "0", "", 0);
      ZeroOnlyForZero(0, Scale(p));
      ZeroOnlyForZero(0, 0);
    } else {
      NormalizeValue(Mantissa(p), Scale(p));
      var (m, s) := Normalize(Mantissa(p), Scale(p)).value;
      q := SignedParses(p.negative, m, s);
    }
  }

  /** Canonicalization keeps the exact value. */
  lemma CanonicalKeepsValue(text: string)
    requires CanonicalNumber(text).Ok?
    ensures Parse(CanonicalNumber(text).value).Some?
    ensures NumberValue(CanonicalNumber(text).value) == NumberValue(text)
  {
    var q := CanonicalParsedKeepsValue(Parse(text).value);
  }

  lemma EqualValuesSameText(p: Parsed, q: Parsed)
    requires Decimal(p) && Decimal(q) && CanonicalParsed(p).Ok? && CanonicalParsed(q).Ok?
    requires ParsedValue(p) == ParsedValue(q)
    ensures CanonicalParsed(p) == CanonicalParsed(q)
  {
    ZeroOnlyForZero(Mantissa(p), Scale(p));
    ZeroOnlyForZero(Mantissa(q), Scale(q));
    if Mantissa(p) != 0 {
      assert p.negative == q.negative;
      NormalizeValue(Mantissa(p), Scale(p));
      NormalizeValue(Mantissa(q), Scale(q));
      var (m, s) := Normalize(Mantissa(p), Scale(p)).value;
      var (n, t) := Normalize(Mantissa(q), Scale(q)).value;
      NormalUnique(m, s, n, t);
    }
  }

  /** Two numbers that canonicalize get the same text exactly when they are equal. */
  lemma CanonicalIffEqual(x: string, y: string)
    requires CanonicalNumber(x).Ok? && CanonicalNumber(y).Ok?
    ensures CanonicalNumber(x).value == CanonicalNumber(y).value <==> NumberValue(x) == NumberValue(y)
  {
    if NumberValue(x) == NumberValue(y) {
      EqualValuesSameText(Parse(x).value, Parse(y).value);
    } else {
      CanonicalKeepsValue(x);
      CanonicalKeepsValue(y);
    }
  }

  lemma ZeroOnlyForZero(m: nat, scale: int)
    ensures Scaled(m, scale) >= 0.0
    ensures Scaled(m, scale) == 0.0 <==> m == 0
  {
    if scale >= 0 {
      var p := Pow10(scale) as real;
      assert m as real == Scaled(m, scale) * p;
      assert m as real / p >= 0.0;
    } else {
      assert m > 0 ==> m * Pow10(-scale) > 0;
    }
  }

  lemma {:induction false} DigitsShorter(ds: string)
    requires AllDigits(ds) && ds != ""
    ensures |Digits(DigitsValue(ds))| <= |ds|
  {
    var n := |ds| - 1;
    var v := DigitsValue(ds);
    assert v / 10 == DigitsValue(ds[..n]);
    if n > 0 {
      DigitsShorter(ds[..n]);
    }
  }

  lemma {:induction false} StripShorter(m: nat, scale: nat)
    requires m > 0
    ensures |Digits(Strip(m, scale).0)| <= |Digits(m)|
    decreases m
  {
    if scale > 0 && m % 10 == 0 {
      LastDigit(m);
      StripShorter(m / 10, scale - 1);
    }
  }

  lemma NormalizeBounds(m: nat, scale: int)
    requires m > 0 && |Digits(m)| <= MAX_DIGITS && Normalize(m, scale).Ok?
    ensures
      var (m', s) := Normalize(m, scale).value;
      |Digits(m')| <= MAX_DIGITS && s <= MAX_DIGITS
  {
    if scale <= 0 {
      TimesPow10(m, -scale);
    } else {
      StripShorter(m, scale);
    }
  }

  /** The number of fractional digits of a number. */
  function FractionDigits(text: string): nat
    requires Parse(text).Some?
  {
    |Parse(text).value.fraction|
  }

  lemma SecondPass(p: Parsed) returns (q: Parsed)
    requires Decimal(p) && CanonicalParsed(p).Ok?
    ensures Parse(CanonicalParsed(p).value) == Some(q)
    ensures |q.fraction| <= MAX_DIGITS
    ensures CanonicalParsed(q) ==
      if |q.fraction| == MAX_DIGITS then Err("jsonb number field overflow") else CanonicalParsed(p)
  {
    if Mantissa(p) == 0 {
      ZeroParses();
      q := Parsed(false, "0", "", 0);
    } else {
      var m, s := NormalOf(p);
      q := SignedParses(p.negative, m, s);
      AgainNormal(q, p.negative, m, s);
    }
  }

  /** The normal form behind a canonical text: within bounds and without trailing zeros to strip. */
  lemma NormalOf(p: Parsed) returns (m: nat, s: nat)
    requires Decimal(p) && Mantissa(p) != 0 && CanonicalParsed(p).Ok?
    ensures m > 0 && |Digits(m)| <= MAX_DIGITS && s <= MAX_DIGITS && (s > 0 ==> m % 10 != 0)
    ensures CanonicalParsed(p).value == Signed(p.negative, m, s)
  {
    NormalizeValue(Mantissa(p), Scale(p));
    DigitsShorter(p.digits + p.fraction);
    NormalizeBounds(Mantissa(p), Scale(p));
    var n := Normalize(Mantissa(p), Scale(p)).value;
    m, s := n.0, n.1;
  }

  lemma AgainNormal(q: Parsed, negative: bool, m: nat, s: nat)
    requires Spells(q, negative, m, s)
    requires m > 0 && |Digits(m)| <= MAX_DIGITS && s <= MAX_DIGITS && (s > 0 ==> m % 10 != 0)
    ensures CanonicalParsed(q) ==
      if s == MAX_DIGITS then Err("jsonb number field overflow") else Ok(Signed(negative, m, s))
  {
    StableNormal(m, s);
  }

  lemma StableNormal(m: nat, s: nat)
    requires m > 0 && |Digits(m)| <= MAX_DIGITS && s <= MAX_DIGITS && (s > 0 ==> m % 10 != 0)
    ensures Normalize(m, s) == Ok((m, s))
  {
  }

  /** A second pass changes nothing, except that a canonical text with exactly the maximal
      number of fractional digits is rejected: its leading zero is counted as one more. */
  lemma CanonicalIdempotent(text: string)
    requires CanonicalNumber(text).Ok?
    ensures
      var c := CanonicalNumber(text).value;
      && Parse(c).Some?
      && FractionDigits(c) <= MAX_DIGITS
      && CanonicalNumber(c) ==
        if FractionDigits(c) == MAX_DIGITS then Err("jsonb number field overflow") else Ok(c)
  {
    var q := SecondPass(Parse(text).value);
  }

  lemma LimitDigits()
    ensures AllDigits("131072") && DigitsValue("131072") == MAX_DIGITS
  {
    assert "131072"[..5] == "13107" && "13107"[..4] == "1310" && "1310"[..3] == "131";
    assert "131"[..2] == "13" && "13"[..1] == "1" && "1"[..0] == "";
    assert DigitsValue("1") == 1 && DigitsValue("13") == 13 && DigitsValue("131") == 131;
    assert DigitsValue("1310") == 1310 && DigitsValue("13107") == 13107;
  }

  lemma LimitParses()
    ensures Parse("1e-131072") == Some(Parsed(false, "1", "", -MAX_DIGITS))
  {
    var text := "1e-131072";
    RunEndExact(text, 0, 1);
    assert text[0..1] == "1" && text[2..] == "-131072" && "-131072"[1..] == "131072";
    LimitDigits();
    assert Atoi(text[2..]) == Some(-MAX_DIGITS);
  }

  /** 1e-131072 has a canonical text, which is then rejected. */
  lemma SecondPassRejects()
    ensures CanonicalNumber("1e-131072") == Ok(Signed(false, 1, MAX_DIGITS))
    ensures CanonicalNumber(Signed(false, 1, MAX_DIGITS)) == Err("jsonb number field overflow")
  {
    LimitParses();
    assert "1" + "" == "1" && "1"[..0] == "";
    assert Digits(1) == "1";
    assert Mantissa(Parsed(false, "1", "", -MAX_DIGITS)) == 1;
    assert Normalize(1, MAX_DIGITS) == Ok((1, MAX_DIGITS));
    var b := SignedSmall(false, 1, MAX_DIGITS);
    CanonicalIdempotent("1e-131072");
  }

  // ---- the loops ----

  method ParseFraction(text: string, i: nat) returns (fraction: string, end: nat)
    requires i <= |text|
    ensures end == (if i < |text| && text[i] == '.' then RunEnd(text, i + 1) else i)
    ensures fraction == if i < |text| && text[i] == '.' then text[i + 1..end] else ""
  {
    fraction, end := "", i;
    if i < |text| && text[i] == '.' {
      end := SkipDigits(text, i + 1);
      fraction := text[i + 1..end];
    }
  }

  method ParseNumber(text: string) returns (res: Option<Parsed>)
    ensures res == Parse(text)
  {
    var negative, i := false, 0;
    if i < |text| && text[i] == '-' {
      negative, i := true, i + 1;
    }
    var start := i;
    i := SkipDigits(text, i);
    if i == start {
      return None;
    }
    res := ParseRest(text, negative, text[start..i], i);
  }

  method ParseRest(text: string, negative: bool, digits: string, i: nat) returns (res: Option<Parsed>)
    requires i <= |text| && AllDigits(digits) && digits != ""
    ensures res == ParseTail(text, negative, digits, i)
  {
    var fraction, end := ParseFraction(text, i);
    var exponent := ParseExponent(text, end);
    if exponent == None {
      return None;
    }
    return Some(Parsed(negative, digits, fraction, exponent.value));
  }

  /** canonicalJSONBNumber as it runs: `rendered` and `scale` are rewritten in place. */
  method CanonicalizeNumber(text: string) returns (res: Result<string>)
    ensures res == CanonicalNumber(text)
  {
    var parsed := ParseNumber(text);
    if parsed == None {
      return Err("invalid input syntax for type jsonb");
    }
    res := CanonicalizeParsed(parsed.value);
  }

  method CanonicalizeParsed(p: Parsed) returns (res: Result<string>)
    requires Decimal(p)
    ensures res == CanonicalParsed(p)
  {
    var allDigits := p.digits + p.fraction;
    if |allDigits| > MAX_DIGITS {
      return Err("jsonb number field overflow");
    }
    var mantissa := DigitsValue(allDigits);
    if mantissa == 0 {
      return Ok("0");
    }
    var scale := |p.fraction| - p.exponent;
    if scale >= TWO_63 {
      return Err("scale out of range");
    }
    var unsigned := RenderScaled(mantissa, scale);
    if unsigned.Err? {
      return unsigned;
    }
    return Ok(if p.negative then "-" + unsigned.value else unsigned.value);
  }

  method RenderScaled(mantissa: nat, scale0: int) returns (res: Result<string>)
    requires mantissa > 0
    ensures res ==
      var n := Normalize(mantissa, scale0);
      if n.Err? then Err(n.error) else Ok(Unsigned(n.value.0, n.value.1))
  {
    var scale := scale0;
    var rendered := Digits(mantissa);
    if scale <= 0 {
      if |rendered| - scale > MAX_DIGITS {
        return Err("jsonb number field overflow");
      }
      TimesPow10(mantissa, -scale);
      rendered := rendered + Zeros(-scale);
    } else {
      rendered, scale := StripZeros(mantissa, scale);
      if scale >= |rendered| {
        if scale > MAX_DIGITS {
          return Err("jsonb number field overflow");
        }
        rendered := "0." + Zeros(scale - |rendered|) + rendered;
      } else if scale > 0 {
        rendered := rendered[..|rendered| - scale] + "." + rendered[|rendered| - scale..];
      }
    }
    return Ok(rendered);
  }

  method SkipDigits(text: string, start: nat) returns (i: nat)
    requires start <= |text|
    ensures i == RunEnd(text, start)
  {
    i := start;
    while i < |text| && IsDigit(text[i])
      invariant start <= i <= |text|
      invariant RunEnd(text, start) == RunEnd(text, i)
    {
      i := i + 1;
    }
  }

  method StripZeros(mantissa: nat, scale0: nat) returns (rendered: string, scale: nat)
    requires mantissa > 0
    ensures (rendered, scale) == (Digits(Strip(mantissa, scale0).0), Strip(mantissa, scale0).1)
  {
    rendered, scale := Digits(mantissa), scale0;
    ghost var m := mantissa;
    LastDigit(m);
    while scale > 0 && |rendered| > 1 && rendered[|rendered| - 1] == '0'
      invariant m > 0 && rendered == Digits(m)
      invariant rendered[|rendered| - 1] == '0' <==> m % 10 == 0
      invariant m % 10 == 0 ==> |rendered| > 1 && rendered[..|rendered| - 1] == Digits(m / 10)
      invariant Strip(m, scale) == Strip(mantissa, scale0)
      decreases scale
    {
      rendered := rendered[..|rendered| - 1];
      scale := scale - 1;
      m := m / 10;
      LastDigit(m);
    }
  }
}
