/** What the canonical text of a typed array element denotes. */
module ArrayMeaning {
  import opened Values
  import opened JsonbNumber
  import opened ArrayLiteral

  // ---- trimming ----

  ghost predicate Blank(s: string) {
    forall k :: 0 <= k < |s| ==> IsSpace(s[k])
  }

  /** `word` is what white space surrounds in `text`. */
  ghost predicate Trims(text: string, word: string) {
    && (word != "" ==> !IsSpace(word[0]) && !IsSpace(word[|word| - 1]))
    && exists before, behind :: Surrounds(text, before, word, behind)
  }

  ghost predicate Surrounds(text: string, before: string, word: string, behind: string) {
    text == before + word + behind && Blank(before) && Blank(behind)
  }

  lemma {:induction false} TrimLeftSplits(s: string) returns (before: string)
    ensures s == before + TrimLeft(s) && Blank(before)
    ensures TrimLeft(s) != "" ==> !IsSpace(TrimLeft(s)[0])
  {
    before := "";
    if s != "" && IsSpace(s[0]) {
      var more := TrimLeftSplits(s[1..]);
      before := [s[0]] + more;
    }
  }

  lemma {:induction false} TrimRightSplits(s: string) returns (behind: string)
    ensures s == TrimRight(s) + behind && Blank(behind)
    ensures TrimRight(s) != "" ==> !IsSpace(TrimRight(s)[|TrimRight(s)| - 1])
  {
    behind := "";
    if s != "" && IsSpace(s[|s| - 1]) {
      var more := TrimRightSplits(s[..|s| - 1]);
      behind := more + [s[|s| - 1]];
    }
  }

  lemma {:induction false} TrimLeftDrops(before: string, s: string)
    requires Blank(before)
    ensures TrimLeft(before + s) == TrimLeft(s)
  {
    if before == "" {
      assert before + s == s;
    } else {
      assert (before + s)[1..] == before[1..] + s;
      TrimLeftDrops(before[1..], s);
    }
  }

  lemma {:induction false} TrimRightDrops(s: string, behind: string)
    requires Blank(behind)
    ensures TrimRight(s + behind) == TrimRight(s)
  {
    if behind == "" {
      assert s + behind == s;
    } else {
      var n := |behind| - 1;
      assert (s + behind)[..|s + behind| - 1] == s + behind[..n];
      TrimRightDrops(s, behind[..n]);
    }
  }

  lemma TrimmedIs(text: string, before: string, word: string, behind: string)
    requires Surrounds(text, before, word, behind)
    requires word != "" ==> !IsSpace(word[0]) && !IsSpace(word[|word| - 1])
    ensures TrimSpace(text) == word
  {
    assert text == before + (word + behind);
    TrimLeftDrops(before, word + behind);
    if word == "" {
      assert word + behind == behind && behind + "" == behind;
      TrimLeftDrops(behind, "");
    } else {
      TrimRightDrops(word, behind);
    }
  }

  /** strings.TrimSpace takes off the white space at both ends and nothing else. */
  lemma TrimMeans(text: string, word: string)
    ensures TrimSpace(text) == word <==> Trims(text, word)
  {
    if Trims(text, word) {
      var before, behind :| Surrounds(text, before, word, behind);
      TrimmedIs(text, before, word, behind);
    }
    if TrimSpace(text) == word {
      var before := TrimLeftSplits(text);
      var behind := TrimRightSplits(TrimLeft(text));
      assert word + behind == TrimLeft(text) && before + word + behind == text;
      assert Surrounds(text, before, word, behind);
      if word != "" {
        assert TrimLeft(text)[0] == word[0];
      }
    }
  }

  // ---- booleans ----

  /** The same word up to the case of ASCII letters. */
  ghost predicate SameWord(word: string, lower: string) {
    |word| == |lower| &&
    forall k :: 0 <= k < |word| ==>
      word[k] == lower[k] || ('a' <= lower[k] <= 'z' && 'A' <= word[k] <= 'Z' && word[k] - 'A' == lower[k] - 'a')
  }

  predicate LowerCase(s: string) {
    forall k :: 0 <= k < |s| ==> !('A' <= s[k] <= 'Z')
  }

  lemma LowerMeans(word: string, lower: string)
    requires LowerCase(lower)
    ensures ToLower(word) == lower <==> SameWord(word, lower)
  {
    if SameWord(word, lower) {
      assert forall k :: 0 <= k < |word| ==> LowerChar(word[k]) == lower[k];
      assert ToLower(word) == lower;
    }
    if ToLower(word) == lower {
      assert forall k :: 0 <= k < |word| ==> lower[k] == LowerChar(word[k]);
    }
  }

  /** The words for a truth value that PostgreSQL accepts. */
  ghost predicate TruthWord(lower: string, value: bool) {
    if value then lower == "t" || lower == "true" || lower == "y" || lower == "yes" || lower == "on" || lower == "1"
    else lower == "f" || lower == "false" || lower == "n" || lower == "no" || lower == "off" || lower == "0"
  }

  ghost predicate BooleanDenotes(text: string, value: bool) {
    exists word, lower :: Spells(text, word, lower, value)
  }

  ghost predicate Spells(text: string, word: string, lower: string, value: bool) {
    Trims(text, word) && SameWord(word, lower) && TruthWord(lower, value)
  }

  lemma LowerIsLower(word: string)
    ensures LowerCase(ToLower(word))
  {
    var lower := ToLower(word);
    forall k | 0 <= k < |lower|
      ensures !('A' <= lower[k] <= 'Z')
    {
      assert lower[k] == LowerChar(word[k]);
    }
  }

  lemma TruthWordsAreLower(lower: string, value: bool)
    requires TruthWord(lower, value)
    ensures LowerCase(lower)
  {
  }

  lemma ParsedWord(text: string, value: bool)
    ensures ParseBoolean(text) == Some(value) <==> TruthWord(ToLower(TrimSpace(text)), value)
  {
  }

  lemma BooleanMeans(text: string, value: bool)
    ensures ParseBoolean(text) == Some(value) <==> BooleanDenotes(text, value)
  {
    ParsedWord(text, value);
    var word := TrimSpace(text);
    TrimMeans(text, word);
    LowerIsLower(word);
    LowerMeans(word, ToLower(word));
    if TruthWord(ToLower(word), value) {
      assert Spells(text, word, ToLower(word), value);
    }
    if BooleanDenotes(text, value) {
      var word', lower :| Spells(text, word', lower, value);
      TrimMeans(text, word');
      TruthWordsAreLower(lower, value);
      LowerMeans(word', lower);
    }
  }

  // ---- integers ----

  /** An optional sign and digits, whose value is `n`. */
  ghost predicate IntegerSpelled(word: string, sign: string, digits: string, n: int) {
    && word == sign + digits && digits != "" && AllDigits(digits)
    && ((n == DigitsValue(digits) && (sign == "" || sign == "+")) || (n == 0 - DigitsValue(digits) && sign == "-"))
  }

  ghost predicate IntegerDenotes(text: string, n: int) {
    exists word, sign, digits :: Trims(text, word) && IntegerSpelled(word, sign, digits, n)
  }

  lemma AtoiMeans(word: string, sign: string, digits: string, n: Int64)
    requires IntegerSpelled(word, sign, digits, n)
    ensures Atoi(word) == Some(n)
  {
    if sign == "" {
      assert word == digits && IsDigit(word[0]);
    } else {
      assert word[1..] == digits;
    }
  }

  lemma AtoiSpelled(word: string, n: int) returns (sign: string, digits: string)
    requires Atoi(word) == Some(n)
    ensures IntegerSpelled(word, sign, digits, n)
  {
    if word[0] == '-' || word[0] == '+' {
      sign, digits := [word[0]], word[1..];
    } else {
      sign, digits := "", word;
    }
  }

  lemma IntegerMeans(text: string, n: Int64)
    ensures Atoi(TrimSpace(text)) == Some(n) <==> IntegerDenotes(text, n)
  {
    if Atoi(TrimSpace(text)) == Some(n) {
      TrimMeans(text, TrimSpace(text));
      var sign, digits := AtoiSpelled(TrimSpace(text), n);
    }
    if IntegerDenotes(text, n) {
      var word, sign, digits :| Trims(text, word) && IntegerSpelled(word, sign, digits, n);
      TrimMeans(text, word);
      AtoiMeans(word, sign, digits, n);
    }
  }

  // ---- numerics ----

  /** A sign, digits around an optional point, and an optional exponent. */
  datatype Parts = Parts(sign: string, whole: string, point: string, fraction: string, e: string, expSign: string,
                         exponent: string)

  function Joined(p: Parts): string {
    p.sign + p.whole + p.point + p.fraction + p.e + p.expSign + p.exponent
  }

  ghost predicate NumericParts(p: Parts) {
    && (p.sign == "" || p.sign == "-")
    && AllDigits(p.whole) && AllDigits(p.fraction) && p.whole + p.fraction != ""
    && (p.point == "." || (p.point == "" && p.fraction == ""))
    && AllDigits(p.exponent)
    && (p.expSign == "" || p.expSign == "+" || p.expSign == "-")
    && (if p.e == "" then p.expSign == "" && p.exponent == "" else (p.e == "e" || p.e == "E") && p.exponent != "")
  }

  /** Where the digits around the point end in a text. */
  ghost predicate Head(text: string, p: Parts, i: nat, j: nat) {
    && i == |p.sign| + |p.whole| && j == i + |p.point| + |p.fraction| <= |text|
    && text[..|p.sign|] == p.sign && text[|p.sign|..i] == p.whole
    && text[i..i + |p.point|] == p.point && text[i + |p.point|..j] == p.fraction
  }

  /** The exponent takes the rest. */
  ghost predicate Tail(text: string, p: Parts, j: nat) {
    && j <= |text| && text[j..] == p.e + p.expSign + p.exponent
  }

  lemma JoinedSplits(p: Parts)
    ensures
      var i := |p.sign| + |p.whole|;
      var j := i + |p.point| + |p.fraction|;
      Head(Joined(p), p, i, j) && Tail(Joined(p), p, j)
  {
  }

  lemma HeadEnds(text: string, p: Parts, i: nat, j: nat)
    requires NumericParts(p) && Head(text, p, i, j)
    requires j < |text| ==> !IsDigit(text[j]) && text[j] != '.'
    ensures text != "" && SkipChar(text, 0, '-', '-') == |p.sign| && RunEnd(text, |p.sign|) == i
    ensures p.point == "." <==> i < |text| && text[i] == '.'
    ensures p.point == "." ==> RunEnd(text, i + 1) == j
  {
    assert p.sign == "-" ==> text[0] == text[..1][0];
    assert p.point == "." ==> text[i] == text[i..i + 1][0];
    assert p.whole != "" ==> text[|p.sign|] == p.whole[0];
    RunEndExact(text, |p.sign|, i);
    if p.point == "." {
      RunEndExact(text, i + 1, j);
    }
  }

  lemma ExponentEnds(text: string, j: nat, k: nat)
    requires j < k < |text| && AllDigits(text[k..|text|])
    requires k == j + 1 || (k == j + 2 && (text[j + 1] == '+' || text[j + 1] == '-'))
    ensures SkipChar(text, j + 1, '+', '-') == k && RunEnd(text, k) == |text|
  {
    assert text[k] == text[k..|text|][0];
    RunEndExact(text, k, |text|);
  }

  lemma TailCut(text: string, j: nat, e: string, expSign: string, exponent: string)
    requires j <= |text| && text[j..] == e + expSign + exponent && |e| == 1 && |expSign| <= 1 && exponent != ""
    ensures
      var k := j + 1 + |expSign|;
      && k < |text| && text[j] == e[0] && text[k..|text|] == exponent
      && (expSign != "" ==> text[j + 1] == expSign[0])
  {
    var k := j + 1 + |expSign|;
    assert text[j] == text[j..][0] && text[j + 1] == text[j..][1];
    assert text[k..|text|] == text[j..][k - j..];
  }

  lemma TailEnds(text: string, p: Parts, j: nat)
    requires NumericParts(p) && Tail(text, p, j)
    ensures j < |text| ==> !IsDigit(text[j]) && text[j] != '.'
    ensures ExponentFollows(text, j)
  {
    if p.e != "" {
      TailCut(text, j, p.e, p.expSign, p.exponent);
      ExponentEnds(text, j, j + 1 + |p.expSign|);
    } else {
      assert text[j..] == "";
    }
  }

  /** Nothing follows, or an exponent does. */
  ghost predicate ExponentFollows(text: string, j: nat) {
    && j <= |text|
    && if j < |text| && (text[j] == 'e' || text[j] == 'E') then
        var k := SkipChar(text, j + 1, '+', '-');
        RunEnd(text, k) == |text| && k < |text|
      else j == |text|
  }

  lemma EndsAreNumeric(text: string, start: nat, i: nat, j: nat)
    requires start <= i <= |text| && SkipChar(text, 0, '-', '-') == start && RunEnd(text, start) == i
    requires if i < |text| && text[i] == '.' then i < j && RunEnd(text, i + 1) == j && (start < i || i + 1 < j)
             else i == j && start < i
    requires ExponentFollows(text, j)
    ensures IsNumeric(text)
  {
  }

  lemma PartsAreNumeric(p: Parts)
    requires NumericParts(p)
    ensures IsNumeric(Joined(p)) && Joined(p) != ""
  {
    var i := |p.sign| + |p.whole|;
    var j := i + |p.point| + |p.fraction|;
    JoinedSplits(p);
    TailEnds(Joined(p), p, j);
    HeadEnds(Joined(p), p, i, j);
    EndsAreNumeric(Joined(p), |p.sign|, i, j);
  }

  lemma FourCuts(text: string, start: nat, i: nat, k: nat, j: nat)
    requires start <= i <= k <= j <= |text|
    ensures text[..j] == text[..start] + text[start..i] + text[i..k] + text[k..j]
  {
  }

  lemma NumericHasHead(text: string) returns (start: nat, i: nat, k: nat, j: nat)
    requires IsNumeric(text) && text != ""
    ensures start <= i <= k <= j <= |text|
    ensures start == 0 || (start == 1 && text[0] == '-')
    ensures AllDigits(text[start..i]) && AllDigits(text[k..j]) && (start < i || k < j)
    ensures (k == i + 1 && text[i] == '.') || (k == i && k == j)
    ensures ExponentFollows(text, j)
  {
    start := SkipChar(text, 0, '-', '-');
    i := RunEnd(text, start);
    if i < |text| && text[i] == '.' {
      k := i + 1;
      j := RunEnd(text, i + 1);
    } else {
      k, j := i, i;
      assert text[i..i] == "";
    }
  }

  lemma ExponentParts(text: string, j: nat) returns (e: string, expSign: string, exponent: string)
    requires j < |text| && ExponentFollows(text, j)
    ensures text[j..] == e + expSign + exponent && (e == "e" || e == "E")
    ensures (expSign == "" || expSign == "+" || expSign == "-") && AllDigits(exponent) && exponent != ""
  {
    var k := SkipChar(text, j + 1, '+', '-');
    e, expSign, exponent := [text[j]], text[j + 1..k], text[k..|text|];
  }

  lemma NumericHasParts(text: string) returns (p: Parts)
    requires IsNumeric(text) && text != ""
    ensures NumericParts(p) && text == Joined(p)
  {
    var start, i, k, j := NumericHasHead(text);
    FourCuts(text, start, i, k, j);
    var e, expSign, exponent := "", "", "";
    if j < |text| {
      e, expSign, exponent := ExponentParts(text, j);
    } else {
      assert text[j..] == "";
    }
    p := Parts(text[..start], text[start..i], text[i..k], text[k..j], e, expSign, exponent);
    CutParts(text, start, i, k, j, p);
    JoinHalves(text, j, p);
  }

  lemma CutParts(text: string, start: nat, i: nat, k: nat, j: nat, p: Parts)
    requires start <= i <= k <= j <= |text|
    requires start == 0 || (start == 1 && text[0] == '-')
    requires (k == i + 1 && text[i] == '.') || (k == i && k == j)
    requires start < i || k < j
    requires p.sign == text[..start] && p.whole == text[start..i] && p.point == text[i..k] && p.fraction == text[k..j]
    ensures p.sign == "" || p.sign == "-"
    ensures p.point == "." || (p.point == "" && p.fraction == "")
    ensures p.whole + p.fraction != ""
  {
    assert |p.whole + p.fraction| == (i - start) + (j - k);
  }

  lemma JoinHalves(text: string, j: nat, p: Parts)
    requires j <= |text| && text[..j] == p.sign + p.whole + p.point + p.fraction
    requires text[j..] == p.e + p.expSign + p.exponent
    ensures text == Joined(p)
  {
    assert text == text[..j] + text[j..];
  }

  /** Between white space, and behind one optional plus sign, the text `y` of a decimal. */
  ghost predicate NumericDenotes(text: string, y: string) {
    exists word, p :: NumericSpelled(text, word, p, y)
  }

  ghost predicate NumericSpelled(text: string, word: string, p: Parts, y: string) {
    Trims(text, word) && NumericParts(p) && y == Joined(p) && (word == y || word == "+" + y)
  }

  lemma DenotedNormalizes(text: string, word: string, p: Parts, y: string)
    requires NumericSpelled(text, word, p, y)
    ensures NormalizeNumeric(text) == Some(y)
  {
    TrimMeans(text, word);
    PartsAreNumeric(p);
    NumericSpaceFree(y);
    assert ("+" + y)[1..] == y;
  }

  lemma NormalizedDenotes(text: string, y: string)
    requires NormalizeNumeric(text) == Some(y)
    ensures NumericDenotes(text, y)
  {
    var word := TrimSpace(text);
    TrimMeans(text, word);
    var p := NumericHasParts(y);
    assert word == y || word == "+" + y;
    assert NumericSpelled(text, word, p, y);
  }

  lemma NumericMeans(text: string, y: string)
    ensures NormalizeNumeric(text) == Some(y) <==> NumericDenotes(text, y)
  {
    if NormalizeNumeric(text) == Some(y) {
      NormalizedDenotes(text, y);
    }
    if NumericDenotes(text, y) {
      var word, p :| NumericSpelled(text, word, p, y);
      DenotedNormalizes(text, word, p, y);
    }
  }

  // ---- canonical elements ----

  /** What canonical text an element of each kind has by what its own text denotes. */
  ghost predicate Denotes(x: Element, kind: ElementKind, y: Element) {
    match (x, y)
    case (None, None) => true
    case (Some(text), Some(canonical)) =>
      (match kind
       case TextKind => canonical == text
       case BooleanKind =>
         (canonical == "t" && BooleanDenotes(text, true)) || (canonical == "f" && BooleanDenotes(text, false))
       case IntegerKind => exists n: Int64 :: IntegerDenotes(text, n) && canonical == FormatInt(n)
       case NumericKind => NumericDenotes(text, canonical))
    case _ => false
  }

  /** An element has this canonical text exactly when its own text denotes the value. */
  lemma CanonicalElementMeans(x: Element, kind: ElementKind, y: Element)
    ensures CanonicalElement(x, kind) == Ok(y) <==> Denotes(x, kind, y)
  {
    if x.Some? && y.Some? {
      match kind
      case BooleanKind =>
        BooleanMeans(x.value, true);
        BooleanMeans(x.value, false);
      case NumericKind => NumericMeans(x.value, y.value);
      case IntegerKind => IntegerElementMeans(x.value, y.value);
      case TextKind =>
    }
  }

  lemma IntegerElementMeans(text: string, y: string)
    ensures CanonicalElement(Some(text), IntegerKind) == Ok(Some(y))
       <==> exists n: Int64 :: IntegerDenotes(text, n) && y == FormatInt(n)
  {
    forall n: Int64
      ensures Atoi(TrimSpace(text)) == Some(n) <==> IntegerDenotes(text, n)
    {
      IntegerMeans(text, n);
    }
    var parsed := Atoi(TrimSpace(text));
    if parsed.Some? {
      var n: Int64 := parsed.value;
      assert IntegerDenotes(text, n);
    }
  }

  /** The canonical text of an array lists, place by place, what its elements denote. */
  lemma {:induction false} CanonicalElementsMean(xs: seq<Element>, kind: ElementKind, ys: seq<Element>)
    ensures CanonicalElements(xs, kind) == Ok(ys)
       <==> |xs| == |ys| && forall k | 0 <= k < |xs| :: Denotes(xs[k], kind, ys[k])
  {
    if xs != [] && ys != [] {
      CanonicalElementMeans(xs[0], kind, ys[0]);
      CanonicalElementsMean(xs[1..], kind, ys[1..]);
      assert ys == [ys[0]] + ys[1..];
      assert forall k | 1 <= k < |xs| :: xs[k] == xs[1..][k - 1];
      assert |xs| == |ys| ==> forall k | 1 <= k < |ys| :: ys[k] == ys[1..][k - 1];
    }
  }
}
