/** PostgreSQL array literals: parsing, printing, and the canonical text of typed arrays. */
module ArrayLiteral {
  import opened Values
  import opened JsonbNumber

  type Element = Option<string>

  // ---- white space ----

  /** The white space inside array text that separates elements. */
  predicate IsArraySpace(c: char) {
    c == ' ' || c == '\t' || c == '\n' || c == '\r'
  }

  /** Unicode white space, which strings.TrimSpace removes. */
  predicate IsSpace(c: char) {
    || IsArraySpace(c) || c == '\U{B}' || c == '\U{C}' || c == '\U{85}' || c == '\U{A0}' || c == '\U{1680}'
    || '\U{2000}' <= c <= '\U{200A}' || c == '\U{2028}' || c == '\U{2029}' || c == '\U{202F}' || c == '\U{205F}'
    || c == '\U{3000}'
  }

  function TrimLeft(s: string): string {
    if s != "" && IsSpace(s[0]) then TrimLeft(s[1..]) else s
  }

  function TrimRight(s: string): string {
    if s != "" && IsSpace(s[|s| - 1]) then TrimRight(s[..|s| - 1]) else s
  }

  function TrimSpace(s: string): string {
    TrimRight(TrimLeft(s))
  }

  function SkipSpaces(s: string): (r: string)
    ensures |r| <= |s|
  {
    if s != "" && IsArraySpace(s[0]) then SkipSpaces(s[1..]) else s
  }

  predicate IsNullWord(s: string) {
    ToLower(s) == "null"
  }

  // ---- printing ----

  predicate Delimits(c: char) {
    c == '{' || c == '}' || c == ',' || c == '\"' || c == '\\' || IsArraySpace(c)
  }

  predicate NeedsQuote(text: string) {
    text == "" || IsNullWord(text) || exists k :: 0 <= k < |text| && Delimits(text[k])
  }

  function EscapeQuoted(text: string): string {
    if text == "" then ""
    else (if text[0] == '\"' || text[0] == '\\' then ['\\', text[0]] else [text[0]]) + EscapeQuoted(text[1..])
  }

  function FormatElement(x: Element): string {
    match x
    case None => "NULL"
    case Some(text) => if NeedsQuote(text) then "\"" + EscapeQuoted(text) + "\"" else text
  }

  function FormatInner(xs: seq<Element>): string {
    if xs == [] then ""
    else if |xs| == 1 then FormatElement(xs[0])
    else FormatElement(xs[0]) + "," + FormatInner(xs[1..])
  }

  /** formatArrayLiteral. */
  function FormatArray(xs: seq<Element>): string {
    "{" + FormatInner(xs) + "}"
  }

  // ---- parsing ----

  /** The content of a quoted element, from behind its opening quote, and the text behind it. */
  function ParseQuoted(rest: string): (r: Result<(string, string)>)
    ensures r.Ok? ==> |r.value.1| < |rest|
  {
    if rest == "" then Err("unterminated quoted element")
    else if rest[0] == '\\' then
      if |rest| == 1 then Err("trailing backslash in quoted element")
      else
        var (text, after) :- ParseQuoted(rest[2..]);
        Ok(([rest[1]] + text, after))
    else if rest[0] == '\"' then Ok(("", rest[1..]))
    else
      var (text, after) :- ParseQuoted(rest[1..]);
      Ok(([rest[0]] + text, after))
  }

  /** The raw text of a bare element and the text behind it. */
  function ParseBare(rest: string): (r: Result<(string, string)>)
    ensures r.Ok? ==> |r.value.1| <= |rest|
  {
    if rest == "" || rest[0] == ',' then Ok(("", rest))
    else if rest[0] == '{' || rest[0] == '}' || rest[0] == '\"' then Err("malformed array element")
    else
      var (text, after) :- ParseBare(rest[1..]);
      Ok(([rest[0]] + text, after))
  }

  function BareValue(text: string): Result<Element> {
    var raw := TrimSpace(text);
    if raw == "" then Err("empty array element")
    else if IsNullWord(raw) then Ok(None)
    else Ok(Some(raw))
  }

  function ParseElement(rest: string): (r: Result<(Element, string)>)
    ensures r.Ok? ==> |r.value.1| <= |rest|
  {
    var s := SkipSpaces(rest);
    if s == "" then Err("missing } after comma")
    else if s[0] == '\"' then
      var (text, after) :- ParseQuoted(s[1..]);
      Ok((Some(text), SkipSpaces(after)))
    else if s[0] == '{' then Err("multidimensional arrays are not supported")
    else
      var (text, after) :- ParseBare(s);
      var x :- BareValue(text);
      Ok((x, after))
  }

  function ParseList(rest: string): Result<seq<Element>>
    decreases |rest|
  {
    var (x, after) :- ParseElement(rest);
    if after == "" then Ok([x])
    else if after[0] != ',' then Err("expected , between elements")
    else if |after| == 1 then Err("trailing comma")
    else
      var xs :- ParseList(after[1..]);
      Ok([x] + xs)
  }

  /** parseArrayLiteral. */
  function ParseArray(text: string): Result<seq<Element>> {
    var s := TrimSpace(text);
    if |s| < 2 || s[0] != '{' || s[|s| - 1] != '}' then Err("array text must be enclosed in {}")
    else
      var inner := s[1..|s| - 1];
      if TrimSpace(inner) == "" then Ok([]) else ParseList(inner)
  }

  // ---- printed text parses back ----

  lemma {:induction false} QuotedBack(text: string, rest: string)
    ensures ParseQuoted(EscapeQuoted(text) + "\"" + rest) == Ok((text, rest))
  {
    if text == "" {
      assert "" + "\"" + rest == ['\"'] + rest;
      assert (['\"'] + rest)[1..] == rest;
    } else {
      QuotedBack(text[1..], rest);
      var head := if text[0] == '\"' || text[0] == '\\' then ['\\', text[0]] else [text[0]];
      var tail := EscapeQuoted(text[1..]) + "\"" + rest;
      assert EscapeQuoted(text) + "\"" + rest == head + tail;
      assert (head + tail)[|head|..] == tail;
      assert text == [text[0]] + text[1..];
    }
  }

  lemma {:induction false} BareBack(text: string, rest: string)
    requires forall k :: 0 <= k < |text| ==> !Delimits(text[k])
    requires rest == "" || rest[0] == ','
    ensures ParseBare(text + rest) == Ok((text, rest))
  {
    if text == "" {
      assert "" + rest == rest;
    } else {
      BareBack(text[1..], rest);
      assert (text + rest)[1..] == text[1..] + rest;
      assert text == [text[0]] + text[1..];
    }
  }

  /** What parsing makes of one printed element. */
  function ElementBack(x: Element): Result<Element> {
    match x
    case None => Ok(None)
    case Some(text) => if NeedsQuote(text) then Ok(x) else BareValue(text)
  }

  lemma ElementParsesBack(x: Element, rest: string)
    requires rest == "" || rest[0] == ','
    ensures ParseElement(FormatElement(x) + rest) ==
      (var back := ElementBack(x); if back.Err? then Err(back.error) else Ok((back.value, rest)))
  {
    match x
    case None =>
      BareBack("NULL", rest);
      NullWordBare();
    case Some(text) =>
      var s := FormatElement(x) + rest;
      if NeedsQuote(text) {
        QuotedBack(text, rest);
        assert s == "\"" + (EscapeQuoted(text) + "\"" + rest);
        assert s[1..] == EscapeQuoted(text) + "\"" + rest;
      } else {
        BareBack(text, rest);
        assert !Delimits(text[0]) && s[0] == text[0];
      }
  }

  lemma NullWordBare()
    ensures BareValue("NULL") == Ok(None)
  {
    assert TrimLeft("NULL") == "NULL" && TrimRight("NULL") == "NULL";
    assert ToLower("NULL") == "null";
  }

  /** What parsing makes of a printed list: the first error, or every element. */
  function ListBack(xs: seq<Element>): Result<seq<Element>> {
    if xs == [] then Ok([])
    else
      var x :- ElementBack(xs[0]);
      var rest :- ListBack(xs[1..]);
      Ok([x] + rest)
  }

  lemma {:induction false} ListParsesBack(xs: seq<Element>)
    requires xs != []
    ensures ParseList(FormatInner(xs)) == ListBack(xs)
  {
    if |xs| == 1 {
      ElementParsesBack(xs[0], "");
      assert FormatElement(xs[0]) + "" == FormatElement(xs[0]);
      assert xs[1..] == [];
      assert ListBack(xs[1..]) == Ok([]);
      assert forall x: Element :: [x] + [] == [x];
    } else {
      var rest := "," + FormatInner(xs[1..]);
      ElementParsesBack(xs[0], rest);
      assert FormatInner(xs) == FormatElement(xs[0]) + rest;
      assert rest[1..] == FormatInner(xs[1..]);
      ListParsesBack(xs[1..]);
      InnerNonEmpty(xs[1..]);
    }
  }

  lemma InnerNonEmpty(xs: seq<Element>)
    requires xs != []
    ensures FormatInner(xs) != ""
  {
  }

  /** The printer quotes the element, or trimming does not change it. */
  predicate Survives(x: Element) {
    x == None || NeedsQuote(x.value) || TrimSpace(x.value) == x.value
  }

  lemma {:induction false} ListBackSame(xs: seq<Element>)
    ensures ListBack(xs) == Ok(xs) <==> forall x <- xs :: Survives(x)
  {
    if xs != [] {
      ListBackSame(xs[1..]);
      assert xs == [xs[0]] + xs[1..];
      assert ElementBack(xs[0]) == Ok(xs[0]) <==> Survives(xs[0]);
      var x, rest := ElementBack(xs[0]), ListBack(xs[1..]);
      if x.Ok? && rest.Ok? {
        assert ([x.value] + rest.value)[1..] == rest.value;
      }
    }
  }

  lemma {:induction false} TrimRightKeepsFirst(s: string)
    requires s != "" && !IsSpace(s[0])
    ensures TrimRight(s) != "" && TrimRight(s)[0] == s[0]
  {
    if IsSpace(s[|s| - 1]) {
      TrimRightKeepsFirst(s[..|s| - 1]);
    }
  }

  lemma BracedTrim(inner: string)
    ensures TrimSpace("{" + inner + "}") == "{" + inner + "}"
  {
    var s := "{" + inner + "}";
    assert s[0] == '{' && s[|s| - 1] == '}';
  }

  lemma InnerNotBlank(xs: seq<Element>)
    requires xs != [] && Survives(xs[0])
    ensures TrimSpace(FormatInner(xs)) != ""
  {
    var head := FormatElement(xs[0]);
    assert head != "" && !IsSpace(head[0]) by {
      if xs[0].Some? && !NeedsQuote(xs[0].value) {
        TrimmedHead(xs[0].value);
      }
    }
    assert FormatInner(xs)[0] == head[0];
    TrimRightKeepsFirst(FormatInner(xs));
  }

  lemma {:induction false} TrimShorter(s: string)
    ensures |TrimRight(s)| <= |s| && (|TrimRight(s)| == |s| ==> TrimRight(s) == s)
    ensures |TrimLeft(s)| <= |s| && (|TrimLeft(s)| == |s| ==> TrimLeft(s) == s)
    ensures forall k :: 0 <= k < |TrimRight(s)| ==> TrimRight(s)[k] in s
    ensures forall k :: 0 <= k < |TrimLeft(s)| ==> TrimLeft(s)[k] in s
  {
    if s != "" {
      TrimShorter(s[1..]);
      TrimShorter(s[..|s| - 1]);
    }
  }

  lemma TrimmedHead(s: string)
    requires s != "" && TrimSpace(s) == s
    ensures !IsSpace(s[0])
  {
    TrimShorter(s);
    TrimShorter(TrimLeft(s));
    if IsSpace(s[0]) {
      TrimShorter(s[1..]);
    }
  }

  lemma ParseBraced(xs: seq<Element>)
    ensures ParseArray(FormatArray(xs)) ==
      if TrimSpace(FormatInner(xs)) == "" then Ok([]) else ListBack(xs)
  {
    var inner := FormatInner(xs);
    BracedTrim(inner);
    assert ("{" + inner + "}")[1..|inner| + 1] == inner;
    if xs != [] {
      ListParsesBack(xs);
    }
  }

  /** A printed array parses back to its elements exactly when none of them is a bare text with
      white space at an end that the printer does not quote. */
  lemma RoundTrip(xs: seq<Element>)
    ensures ParseArray(FormatArray(xs)) == Ok(xs) <==> forall x <- xs :: Survives(x)
  {
    ParseBraced(xs);
    ListBackSame(xs);
    if xs != [] && Survives(xs[0]) {
      InnerNotBlank(xs);
    }
  }

  // ---- canonical text of typed arrays ----

  datatype ElementKind = TextKind | IntegerKind | NumericKind | BooleanKind

  /** parseArrayBoolean. */
  function ParseBoolean(raw: string): Option<bool> {
    var word := ToLower(TrimSpace(raw));
    if word in {"t", "true", "1", "y", "yes", "on"} then Some(true)
    else if word in {"f", "false", "0", "n", "no", "off"} then Some(false)
    else None
  }

  function SkipChar(text: string, i: nat, a: char, b: char): nat
    requires i <= |text|
    ensures i <= SkipChar(text, i, a, b) <= |text|
  {
    if i < |text| && (text[i] == a || text[i] == b) then i + 1 else i
  }

  /** The whole text is a decimal: a sign, digits around an optional point, an optional exponent. */
  predicate IsNumeric(text: string) {
    var start := SkipChar(text, 0, '-', '-');
    var i := RunEnd(text, start);
    var point := i < |text| && text[i] == '.';
    var j := if point then RunEnd(text, i + 1) else i;
    var digits := (i - start) + (if point then j - (i + 1) else 0);
    if digits == 0 then false
    else if j < |text| && (text[j] == 'e' || text[j] == 'E') then
      var k := SkipChar(text, j + 1, '+', '-');
      RunEnd(text, k) == |text| && k < |text|
    else j == |text|
  }

  /** normalizeNumericArrayElement. */
  function NormalizeNumeric(raw: string): Option<string> {
    var trimmed := TrimSpace(raw);
    var text := if trimmed != "" && trimmed[0] == '+' then trimmed[1..] else trimmed;
    if text != "" && IsNumeric(text) then Some(text) else None
  }

  /** canonicalArrayElement, without the floating-point kind. */
  function CanonicalElement(x: Element, kind: ElementKind): Result<Element> {
    if x == None then Ok(None)
    else
      match kind
      case TextKind => Ok(x)
      case IntegerKind =>
        var n := Atoi(TrimSpace(x.value));
        if n.Some? then Ok(Some(FormatInt(n.value))) else Err("invalid input syntax")
      case NumericKind =>
        var text := NormalizeNumeric(x.value);
        if text.Some? then Ok(text) else Err("invalid input syntax")
      case BooleanKind =>
        var b := ParseBoolean(x.value);
        if b.Some? then Ok(Some(if b.value then "t" else "f")) else Err("invalid input syntax")
  }

  function CanonicalElements(xs: seq<Element>, kind: ElementKind): Result<seq<Element>> {
    if xs == [] then Ok([])
    else
      var x :- CanonicalElement(xs[0], kind);
      var rest :- CanonicalElements(xs[1..], kind);
      Ok([x] + rest)
  }

  /** canonicalArrayText. */
  function CanonicalArray(text: string, kind: ElementKind): Result<string> {
    var xs :- ParseArray(text);
    var ys :- CanonicalElements(xs, kind);
    Ok(FormatArray(ys))
  }

  predicate SpaceFree(s: string) {
    forall k :: 0 <= k < |s| ==> !IsSpace(s[k])
  }

  lemma SpaceFreeTrim(s: string)
    requires SpaceFree(s)
    ensures TrimSpace(s) == s
  {
  }

  lemma DigitsSpaceFree(s: string)
    requires AllDigits(s)
    ensures SpaceFree(s)
  {
  }

  lemma NegativeStable(m: nat)
    requires 0 < m <= TWO_63
    ensures SpaceFree("-" + Digits(m)) && Atoi("-" + Digits(m)) == Some(0 - m)
  {
    DigitsOfValue(m);
    DigitsSpaceFree(Digits(m));
    SignSpaceFree(Digits(m));
    assert ("-" + Digits(m))[1..] == Digits(m);
  }

  lemma PositiveStable(m: nat)
    requires m < TWO_63
    ensures SpaceFree(Digits(m)) && Atoi(Digits(m)) == Some(m)
  {
    DigitsOfValue(m);
    DigitsSpaceFree(Digits(m));
    assert IsDigit(Digits(m)[0]);
  }

  lemma IntegerStable(n: Int64)
    ensures SpaceFree(FormatInt(n)) && Atoi(FormatInt(n)) == Some(n)
  {
    if n < 0 {
      NegativeStable(-(n as int));
    } else {
      PositiveStable(n);
    }
  }

  lemma SignSpaceFree(s: string)
    requires SpaceFree(s)
    ensures SpaceFree("-" + s)
  {
  }

  lemma NumericSpaceFree(text: string)
    requires IsNumeric(text)
    ensures SpaceFree(text) && text[0] != '+'
  {
    var start := SkipChar(text, 0, '-', '-');
    var i := RunEnd(text, start);
    var point := i < |text| && text[i] == '.';
    var j := if point then RunEnd(text, i + 1) else i;
    forall k | 0 <= k < |text|
      ensures !IsSpace(text[k])
    {
      if start <= k < i {
        assert text[k] == text[start..i][k - start];
      } else if i < k < j {
        assert text[k] == text[i + 1..j][k - (i + 1)];
      } else if j < k {
        var e := SkipChar(text, j + 1, '+', '-');
        if e <= k {
          assert text[k] == text[e..|text|][k - e];
        }
      }
    }
    if start < i {
      assert text[start] == text[start..i][0];
    }
  }

  lemma CanonicalElementStable(x: Element, kind: ElementKind)
    requires kind != TextKind && CanonicalElement(x, kind).Ok?
    ensures
      var y := CanonicalElement(x, kind).value;
      Survives(y) && CanonicalElement(y, kind) == Ok(y)
  {
    var y := CanonicalElement(x, kind).value;
    if y.Some? {
      match kind
      case IntegerKind =>
        IntegerStable(Atoi(TrimSpace(x.value)).value);
        SpaceFreeTrim(y.value);
      case NumericKind =>
        NumericSpaceFree(y.value);
        SpaceFreeTrim(y.value);
      case BooleanKind =>
        SpaceFreeTrim(y.value);
        assert ToLower("t") == "t" && ToLower("f") == "f";
    }
  }

  lemma {:induction false} CanonicalElementsStable(xs: seq<Element>, kind: ElementKind)
    requires kind != TextKind && CanonicalElements(xs, kind).Ok?
    ensures
      var ys := CanonicalElements(xs, kind).value;
      (forall y <- ys :: Survives(y)) && CanonicalElements(ys, kind) == Ok(ys)
  {
    if xs != [] {
      CanonicalElementStable(xs[0], kind);
      CanonicalElementsStable(xs[1..], kind);
      var ys := CanonicalElements(xs, kind).value;
      assert ys[1..] == CanonicalElements(xs[1..], kind).value;
      assert ys == [ys[0]] + ys[1..];
    }
  }

  /** For integer, boolean and NUMERIC arrays the canonical text is its own canonical text. */
  lemma CanonicalIdempotent(text: string, kind: ElementKind)
    requires kind != TextKind && CanonicalArray(text, kind).Ok?
    ensures CanonicalArray(CanonicalArray(text, kind).value, kind) == CanonicalArray(text, kind)
  {
    var xs := ParseArray(text).value;
    CanonicalElementsStable(xs, kind);
    RoundTrip(CanonicalElements(xs, kind).value);
  }

  lemma {:induction false} AllTextKept(xs: seq<Element>)
    ensures CanonicalElements(xs, TextKind) == Ok(xs)
  {
    if xs != [] {
      AllTextKept(xs[1..]);
      assert xs == [xs[0]] + xs[1..];
    }
  }

  lemma BareShrinks(text: string)
    requires !NeedsQuote(text) && BareValue(text).Ok?
    ensures |FormatElement(BareValue(text).value)| <= |text|
    ensures TrimSpace(text) != text ==> |FormatElement(BareValue(text).value)| < |text|
  {
    var raw := TrimSpace(text);
    TrimShorter(text);
    TrimShorter(TrimLeft(text));
    if IsNullWord(raw) {
      assert |ToLower(raw)| == |raw|;
    } else {
      forall k | 0 <= k < |raw|
        ensures !Delimits(raw[k])
      {
        assert raw[k] in TrimLeft(text);
        var j :| 0 <= j < |TrimLeft(text)| && TrimLeft(text)[j] == raw[k];
        assert raw[k] in text;
      }
    }
  }

  lemma {:induction false} ListShrinks(xs: seq<Element>)
    requires ListBack(xs).Ok?
    ensures |ListBack(xs).value| == |xs|
    ensures |FormatInner(ListBack(xs).value)| <= |FormatInner(xs)|
    ensures (exists x <- xs :: !Survives(x)) ==> |FormatInner(ListBack(xs).value)| < |FormatInner(xs)|
  {
    if xs != [] {
      var ys := ListBack(xs).value;
      assert ys[0] == ElementBack(xs[0]).value && ys[1..] == ListBack(xs[1..]).value;
      ListShrinks(xs[1..]);
      if xs[0].Some? && !NeedsQuote(xs[0].value) {
        BareShrinks(xs[0].value);
      }
      assert xs == [xs[0]] + xs[1..];
    }
  }

  /** For text arrays it is so exactly when every element survives printing. */
  lemma TextCanonicalIdempotent(xs: seq<Element>)
    ensures CanonicalArray(FormatArray(xs), TextKind) == Ok(FormatArray(xs)) <==> forall x <- xs :: Survives(x)
  {
    ParseBraced(xs);
    RoundTrip(xs);
    var back := ParseArray(FormatArray(xs));
    if back.Ok? {
      AllTextKept(back.value);
      if exists x <- xs :: !Survives(x) {
        if TrimSpace(FormatInner(xs)) == "" {
          InnerNonEmpty(xs);
          assert |FormatArray([])| == 2;
        } else {
          ListShrinks(xs);
        }
      }
    }
  }

  /** A concrete element the round trip loses: a vertical tab in front of a letter. */
  lemma VerticalTabLost()
    ensures !Survives(Some("\U{B}a"))
    ensures ParseArray(FormatArray([Some("\U{B}a")])) != Ok([Some("\U{B}a")])
  {
    var text := "\U{B}a";
    assert text[0] == '\U{B}' && text[1] == 'a';
    assert ToLower(text)[0] != 'n';
    assert TrimLeft(text) == TrimLeft(text[1..]);
    TrimShorter(text[1..]);
    TrimShorter(TrimLeft(text));
    RoundTrip([Some(text)]);
    assert [Some(text)][0] == Some(text);
  }

  // ---- the loops ----

  function RestInner(xs: seq<Element>, i: nat): string
    requires i <= |xs|
  {
    if i == |xs| then "" else (if i > 0 then "," else "") + FormatInner(xs[i..])
  }

  lemma RestStep(xs: seq<Element>, i: nat)
    requires i < |xs|
    ensures RestInner(xs, i) == (if i > 0 then "," else "") + FormatElement(xs[i]) + RestInner(xs, i + 1)
  {
    assert xs[i..][1..] == xs[i + 1..];
    if i + 1 == |xs| {
      assert FormatInner(xs[i..]) == FormatElement(xs[i]);
    }
  }

  lemma Regroup(done: string, comma: string, piece: string, rest: string)
    ensures done + (comma + piece + rest) == done + comma + piece + rest
    ensures done + "" == done
  {
  }

  /** formatArrayLiteral as it runs: a builder fed element by element. */
  method FormatArrayLiteral(xs: seq<Element>) returns (text: string)
    ensures text == FormatArray(xs)
  {
    var b := "";
    assert xs[0..] == xs;
    for i := 0 to |xs|
      invariant b + RestInner(xs, i) == FormatInner(xs)
    {
      RestStep(xs, i);
      Regroup(b, if i > 0 then "," else "", FormatElement(xs[i]), RestInner(xs, i + 1));
      if i > 0 {
        b := b + ",";
      }
      b := b + FormatElement(xs[i]);
    }
    text := "{" + b + "}";
  }

  method SkipFrom(inner: string, start: nat) returns (i: nat)
    requires start <= |inner|
    ensures start <= i <= |inner| && inner[i..] == SkipSpaces(inner[start..])
  {
    i := start;
    while i < |inner| && IsArraySpace(inner[i])
      invariant start <= i <= |inner|
      invariant SkipSpaces(inner[i..]) == SkipSpaces(inner[start..])
    {
      assert inner[i..][1..] == inner[i + 1..];
      i := i + 1;
    }
  }

  function Prefixed(text: string, r: Result<(string, string)>): Result<(string, string)> {
    if r.Err? then r else Ok((text + r.value.0, r.value.1))
  }

  lemma NothingBefore(r: Result<(string, string)>, xs: Result<seq<Element>>)
    ensures Prefixed("", r) == r
    ensures Following([], xs) == xs
  {
    if r.Ok? {
      assert "" + r.value.0 == r.value.0;
    }
    if xs.Ok? {
      assert [] + xs.value == xs.value;
    }
  }

  /** The quoted branch of the parser, from behind the opening quote. */
  method ScanQuoted(inner: string, start: nat) returns (res: Result<string>, i: nat)
    requires start <= |inner|
    ensures start <= i <= |inner|
    ensures ParseQuoted(inner[start..]) == if res.Err? then Err(res.error) else Ok((res.value, inner[i..]))
  {
    i := start;
    var b := "";
    NothingBefore(ParseQuoted(inner[start..]), Ok([]));
    while i < |inner|
      invariant start <= i <= |inner|
      invariant ParseQuoted(inner[start..]) == Prefixed(b, ParseQuoted(inner[i..]))
    {
      var c := inner[i];
      assert inner[i..][1..] == inner[i + 1..];
      if c == '\\' {
        if i + 1 >= |inner| {
          return Err("trailing backslash in quoted element"), i;
        }
        assert inner[i..][2..] == inner[i + 2..];
        PrefixMore(b, inner[i + 1], ParseQuoted(inner[i + 2..]));
        b := b + [inner[i + 1]];
        i := i + 2;
        continue;
      }
      if c == '\"' {
        assert b + "" == b;
        return Ok(b), i + 1;
      }
      PrefixMore(b, c, ParseQuoted(inner[i + 1..]));
      b := b + [c];
      i := i + 1;
    }
    res := Err("unterminated quoted element");
  }

  lemma PrefixMore(b: string, c: char, r: Result<(string, string)>)
    ensures r.Ok? ==> b + ([c] + r.value.0) == b + [c] + r.value.0
  {
  }

  /** The bare branch of the parser. */
  method ScanBare(inner: string, start: nat) returns (res: Result<string>, i: nat)
    requires start <= |inner|
    ensures start <= i <= |inner|
    ensures ParseBare(inner[start..]) == if res.Err? then Err(res.error) else Ok((res.value, inner[i..]))
  {
    i := start;
    assert inner[start..i] == "";
    NothingBefore(ParseBare(inner[start..]), Ok([]));
    while i < |inner| && inner[i] != ','
      invariant start <= i <= |inner|
      invariant ParseBare(inner[start..]) == Prefixed(inner[start..i], ParseBare(inner[i..]))
    {
      assert inner[i..][1..] == inner[i + 1..];
      if inner[i] == '{' || inner[i] == '}' || inner[i] == '\"' {
        return Err("malformed array element"), i;
      }
      PrefixMore(inner[start..i], inner[i], ParseBare(inner[i + 1..]));
      assert inner[start..i + 1] == inner[start..i] + [inner[i]];
      i := i + 1;
    }
    assert inner[start..i] + "" == inner[start..i];
    res := Ok(inner[start..i]);
  }

  method ScanElement(inner: string, start: nat) returns (res: Result<Element>, i: nat)
    requires start <= |inner|
    ensures start <= i <= |inner|
    ensures ParseElement(inner[start..]) == if res.Err? then Err(res.error) else Ok((res.value, inner[i..]))
  {
    i := SkipFrom(inner, start);
    if i >= |inner| {
      return Err("missing } after comma"), i;
    }
    if inner[i] == '\"' {
      assert inner[i..][1..] == inner[i + 1..];
      var quoted;
      quoted, i := ScanQuoted(inner, i + 1);
      if quoted.Err? {
        return Err(quoted.error), i;
      }
      i := SkipFrom(inner, i);
      return Ok(Some(quoted.value)), i;
    }
    if inner[i] == '{' {
      return Err("multidimensional arrays are not supported"), i;
    }
    var bare;
    bare, i := ScanBare(inner, i);
    if bare.Err? {
      return Err(bare.error), i;
    }
    res := BareValue(bare.value);
  }

  function Following(xs: seq<Element>, r: Result<seq<Element>>): Result<seq<Element>> {
    if r.Err? then r else Ok(xs + r.value)
  }

  /** parseArrayLiteral as it runs: one index over the text between the braces. */
  method ParseArrayLiteral(text: string) returns (res: Result<seq<Element>>)
    ensures res == ParseArray(text)
  {
    var s := TrimSpace(text);
    if |s| < 2 || s[0] != '{' || s[|s| - 1] != '}' {
      return Err("array text must be enclosed in {}");
    }
    var inner := s[1..|s| - 1];
    if TrimSpace(inner) == "" {
      return Ok([]);
    }
    var elements: seq<Element> := [];
    var i := 0;
    assert inner[0..] == inner;
    NothingBefore(Ok(("", "")), ParseList(inner));
    while true
      invariant 0 <= i <= |inner|
      invariant ParseList(inner) == Following(elements, ParseList(inner[i..]))
      decreases |inner| - i
    {
      ghost var before, at := elements, i;
      var x;
      x, i := ScanElement(inner, i);
      if x.Err? {
        return Err(x.error);
      }
      elements := elements + [x.value];
      if i >= |inner| {
        return Ok(elements);
      }
      if inner[i] != ',' {
        return Err("expected , between elements");
      }
      i := i + 1;
      assert inner[i - 1..][1..] == inner[i..];
      if i >= |inner| {
        return Err("trailing comma");
      }
      FollowingMore(before, x.value, ParseList(inner[i..]));
    }
  }

  lemma FollowingMore(xs: seq<Element>, x: Element, r: Result<seq<Element>>)
    ensures r.Ok? ==> xs + ([x] + r.value) == xs + [x] + r.value
  {
  }
}
