/** The rational number that the text of a jsonb number denotes. */
module NumberMeaning {
  import opened Values
  import opened JsonbNumber
  import opened ArrayMeaning

  // ---- scales ----

  /** Each unit of the scale is a factor of ten. */
  lemma OneShift(m: nat, scale: int)
    ensures Scaled(m, scale - 1) == 10.0 * Scaled(m, scale)
  {
    if scale > 0 {
      TenthPart(m as real, Pow10(scale - 1) as real);
    } else {
      TenFold(m, Pow10(-scale));
      RealProduct(m * Pow10(-scale), 10);
      assert scale == 0 ==> m as real / 1.0 == m as real;
    }
  }

  lemma TenthPart(r: real, p: real)
    requires p > 0.0
    ensures r / p == 10.0 * (r / (10.0 * p))
  {
    var y := r / (10.0 * p);
    assert r == y * (10.0 * p);
    assert r == 10.0 * y * p;
  }

  // ---- what a text denotes ----

  /** The digits before the point and the digits behind it as a fraction, with the sign. */
  function Unshifted(p: Parts): real
    requires AllDigits(p.whole) && AllDigits(p.fraction)
  {
    var size := DigitsValue(p.whole) as real + DigitsValue(p.fraction) as real / Pow10(|p.fraction|) as real;
    if p.sign == "-" then 0.0 - size else size
  }

  /** The exponent written, which an int64 must hold. */
  ghost predicate Exponent(p: Parts, x: Int64) {
    if p.e == "" then x == 0 else IntegerSpelled(p.expSign + p.exponent, p.expSign, p.exponent, x)
  }

  lemma EndsParse(text: string, p: Parts, i: nat, j: nat, x: Int64)
    requires |p.sign| < i <= |text| && i <= j <= |text|
    requires text[0] == '-' <==> p.sign == "-"
    requires p.sign == "" || p.sign == "-"
    requires RunEnd(text, |p.sign|) == i && text[|p.sign|..i] == p.whole
    requires p.point == "." <==> i < |text| && text[i] == '.'
    requires if p.point == "." then i < j && RunEnd(text, i + 1) == j && text[i + 1..j] == p.fraction
             else j == i && p.fraction == ""
    requires ParseExponent(text, j) == Some(x)
    ensures Parse(text) == Some(Parsed(p.sign == "-", p.whole, p.fraction, x))
  {
  }

  lemma SignFirst(text: string, p: Parts, i: nat, j: nat)
    requires NumericParts(p) && p.whole != "" && Head(text, p, i, j)
    ensures text != "" && (text[0] == '-' <==> p.sign == "-")
  {
    if p.sign == "-" {
      assert text[0] == text[..1][0];
    } else {
      assert text[0] == text[0..i][0] == p.whole[0];
    }
  }

  lemma TextParses(text: string, p: Parts, i: nat, j: nat, x: Int64)
    requires NumericParts(p) && p.whole != "" && Exponent(p, x) && Head(text, p, i, j) && Tail(text, p, j)
    ensures Parse(text) == Some(Parsed(p.sign == "-", p.whole, p.fraction, x))
  {
    TailEnds(text, p, j);
    HeadEnds(text, p, i, j);
    SignFirst(text, p, i, j);
    ExponentParsed(text, p, j, x);
    PointIs(p);
    EndsParse(text, p, i, j, x);
  }

  lemma PointIs(p: Parts)
    requires NumericParts(p)
    ensures if p.point == "." then |p.point| == 1 else |p.point| + |p.fraction| == 0
    ensures p.sign == "" || p.sign == "-"
  {
  }

  lemma PartsParse(p: Parts, x: Int64)
    requires NumericParts(p) && p.whole != "" && Exponent(p, x)
    ensures Parse(Joined(p)) == Some(Parsed(p.sign == "-", p.whole, p.fraction, x))
  {
    var i := |p.sign| + |p.whole|;
    JoinedSplits(p);
    TextParses(Joined(p), p, i, i + |p.point| + |p.fraction|, x);
  }

  lemma ExponentParsed(text: string, p: Parts, j: nat, x: Int64)
    requires NumericParts(p) && Tail(text, p, j) && Exponent(p, x)
    ensures ParseExponent(text, j) == Some(x)
  {
    if p.e != "" {
      TailCut(text, j, p.e, p.expSign, p.exponent);
      assert text[j + 1..] == text[j..][1..] == p.expSign + p.exponent;
      AtoiMeans(p.expSign + p.exponent, p.expSign, p.exponent, x);
    } else {
      assert text[j..] == "";
    }
  }

  lemma JoinedValue(p: Parts, x: Int64)
    requires NumericParts(p) && p.whole != "" && Exponent(p, x)
    ensures Parse(Joined(p)).Some?
    ensures NumberValue(Joined(p)) == ParsedValue(Parsed(p.sign == "-", p.whole, p.fraction, x))
  {
    PartsParse(p, x);
  }

  lemma ParsedPlain(p: Parts)
    requires AllDigits(p.whole) && AllDigits(p.fraction) && p.whole != ""
    ensures ParsedValue(Parsed(p.sign == "-", p.whole, p.fraction, 0)) == Unshifted(p)
  {
    ValueAppend(p.whole, p.fraction);
    Separate(DigitsValue(p.whole), Pow10(|p.fraction|), DigitsValue(p.fraction));
  }

  lemma ParsedShifts(p: Parsed, q: Parsed)
    requires Decimal(p) && q == p.(exponent := p.exponent + 1)
    ensures ParsedValue(q) == 10.0 * ParsedValue(p)
  {
    ValueAppend(p.digits, p.fraction);
    OneShift(Mantissa(p), Scale(p));
  }

  /** Without exponent, or with exponent zero, the value is the decimal's. */
  lemma PlainMeans(p: Parts)
    requires NumericParts(p) && p.whole != "" && Exponent(p, 0)
    ensures Parse(Joined(p)).Some?
    ensures NumberValue(Joined(p)) == Unshifted(p)
  {
    JoinedValue(p, 0);
    ParsedPlain(p);
  }

  /** Each unit of the exponent is a factor of ten, so that the value is the decimal's times that power of ten. */
  lemma ExponentShifts(p: Parts, q: Parts, x: Int64, y: Int64)
    requires NumericParts(p) && NumericParts(q) && p.whole != "" && Exponent(p, x) && Exponent(q, y)
    requires q.sign == p.sign && q.whole == p.whole && q.fraction == p.fraction && y == x + 1
    ensures Parse(Joined(p)).Some? && Parse(Joined(q)).Some?
    ensures NumberValue(Joined(q)) == 10.0 * NumberValue(Joined(p))
  {
    JoinedValue(p, x);
    JoinedValue(q, y);
    ParsedShifts(Parsed(p.sign == "-", p.whole, p.fraction, x), Parsed(p.sign == "-", p.whole, p.fraction, y));
  }

  lemma Separate(w: nat, q: nat, f: nat)
    requires q > 0
    ensures (w * q + f) as real / q as real == w as real + f as real / q as real
  {
    RealProduct(w, q);
    var u := f as real / q as real;
    assert f as real == u * q as real;
    assert (w * q + f) as real == (w as real + u) * q as real;
  }
}
