/** A reader of JSON texts after the grammar of RFC 8259, and that it reads back what the printer prints. */
module JsonbReader {
  import opened Values
  import opened JsonbNumber
  import opened Json
  import opened JsonbPrinter
  import opened TextOrdering

  // ---- the grammar ----

  /** Insignificant white space (section 2). */
  predicate IsSpace(c: char) {
    c == ' ' || c == '\t' || c == '\n' || c == '\r'
  }

  function SkipSpace(s: string): (rest: string)
    ensures |rest| <= |s|
  {
    if s != "" && IsSpace(s[0]) then SkipSpace(s[1..]) else s
  }

  /** The character a two-character escape stands for (section 7). */
  function Unescaped(letter: char): Option<char> {
    if letter == '\"' then Some('\"')
    else if letter == '\\' then Some('\\')
    else if letter == '/' then Some('/')
    else if letter == 'b' then Some(8 as char)
    else if letter == 'f' then Some(12 as char)
    else if letter == 'n' then Some(10 as char)
    else if letter == 'r' then Some(13 as char)
    else if letter == 't' then Some(9 as char)
    else None
  }

  function HexValue(c: char): Option<nat> {
    if '0' <= c <= '9' then Some((c - '0') as nat)
    else if 'a' <= c <= 'f' then Some(10 + (c - 'a') as nat)
    else if 'A' <= c <= 'F' then Some(10 + (c - 'A') as nat)
    else None
  }

  /** Four hexadecimal digits. */
  function Hex4(s: string): (code: Option<nat>)
    requires |s| >= 4
    ensures code.Some? ==> code.value < 0x1_0000
  {
    match (HexValue(s[0]), HexValue(s[1]), HexValue(s[2]), HexValue(s[3]))
    case (Some(a), Some(b), Some(c), Some(d)) =>
      if a < 16 && b < 16 && c < 16 && d < 16 then Some(4096 * a + 256 * b + 16 * c + d) else None
    case _ => None
  }

  predicate IsScalar(code: nat) {
    code < 0xD800 || 0xE000 <= code < 0x11_0000
  }

  /** The character after `\u`, which may take a second escape for its low surrogate, and what follows. */
  function ReadCode(s: string): (read: Option<(char, string)>)
    ensures read.Some? ==> |read.value.1| < |s|
  {
    if |s| < 4 then None
    else
      match Hex4(s)
      case None => None
      case Some(code) =>
        if IsScalar(code) then Some((code as char, s[4..]))
        else if code < 0xDC00 && |s| >= 10 && s[4] == '\\' && s[5] == 'u' then
          match Hex4(s[6..])
          case None => None
          case Some(low) =>
            if 0xDC00 <= low < 0xE000 then
              var both := 0x1_0000 + (code - 0xD800) * 0x400 + (low - 0xDC00);
              if IsScalar(both) then Some((both as char, s[10..])) else None
            else None
        else None
  }

  /** The characters up to the closing quotation mark, and what follows it. */
  function ReadChars(s: string): (read: Option<(string, string)>)
    ensures read.Some? ==> |read.value.1| < |s|
    decreases |s|
  {
    if s == "" then None
    else if s[0] == '\"' then Some(("", s[1..]))
    else if s[0] < ' ' then None
    else if s[0] != '\\' then Prepend(s[0], ReadChars(s[1..]))
    else if |s| == 1 then None
    else if s[1] == 'u' then
      match ReadCode(s[2..])
      case None => None
      case Some((c, rest)) => Prepend(c, ReadChars(rest))
    else
      match Unescaped(s[1])
      case None => None
      case Some(c) => Prepend(c, ReadChars(s[2..]))
  }

  function Prepend(c: char, read: Option<(string, string)>): Option<(string, string)> {
    match read
    case None => None
    case Some((chars, rest)) => Some(([c] + chars, rest))
  }

  /** A number (section 6): an integer without leading zeros, a fraction, an exponent. */
  predicate IsNumber(s: string) {
    var body := if s != "" && s[0] == '-' then s[1..] else s;
    var i := RunEnd(body, 0);
    && i > 0 && (i == 1 || body[0] != '0')
    && IsFraction(body[i..])
  }

  predicate IsFraction(s: string) {
    if s != "" && s[0] == '.' then
      var i := RunEnd(s, 1);
      i > 1 && IsExponent(s[i..])
    else IsExponent(s)
  }

  predicate IsExponent(s: string) {
    s == "" ||
    ((s[0] == 'e' || s[0] == 'E') &&
      var digits := if |s| > 1 && (s[1] == '+' || s[1] == '-') then s[2..] else s[1..];
      digits != "" && AllDigits(digits))
  }

  predicate InNumber(c: char) {
    IsDigit(c) || c == '-' || c == '+' || c == '.' || c == 'e' || c == 'E'
  }

  /** How many characters at the start may belong to a number. */
  function NumberEnd(s: string): (i: nat)
    ensures i <= |s|
  {
    if s != "" && InNumber(s[0]) then 1 + NumberEnd(s[1..]) else 0
  }

  /** A value (section 3) and what follows it. */
  function ReadValue(text: string): (read: Option<(Node, string)>)
    ensures read.Some? ==> |read.value.1| < |text|
    decreases |text|, 1
  {
    var s := SkipSpace(text);
    if s == "" then None
    else if s[0] == '[' then ReadArray(s[1..])
    else if s[0] == '{' then ReadObject(s[1..])
    else ReadScalar(s)
  }

  function ReadScalar(s: string): (read: Option<(Node, string)>)
    requires s != ""
    ensures read.Some? ==> |read.value.1| < |s|
  {
    if s[0] == '\"' then
      match ReadChars(s[1..])
      case None => None
      case Some((chars, rest)) => Some((JString(chars), rest))
    else if "null" <= s then Some((JNull, s[4..]))
    else if "true" <= s then Some((JBool(true), s[4..]))
    else if "false" <= s then Some((JBool(false), s[5..]))
    else
      var i := NumberEnd(s);
      if i > 0 && IsNumber(s[..i]) then Some((JNumber(s[..i]), s[i..])) else None
  }

  /** The rest of an array after its opening bracket. */
  function ReadArray(s: string): (read: Option<(Node, string)>)
    ensures read.Some? ==> |read.value.1| < |s|
    decreases |s|, 3
  {
    var inner := SkipSpace(s);
    if inner != "" && inner[0] == ']' then Some((JArray([]), inner[1..]))
    else
      match ReadElements(s)
      case None => None
      case Some((items, rest)) => Some((JArray(items), rest))
  }

  /** The rest of an object after its opening brace. */
  function ReadObject(s: string): (read: Option<(Node, string)>)
    ensures read.Some? ==> |read.value.1| < |s|
    decreases |s|, 3
  {
    var inner := SkipSpace(s);
    if inner != "" && inner[0] == '}' then Some((JObject(map[]), inner[1..]))
    else
      match ReadMembers(s)
      case None => None
      case Some((members, rest)) => Some((JObject(members), rest))
  }

  /** Values separated by commas up to the closing bracket (section 5). */
  function ReadElements(text: string): (read: Option<(seq<Node>, string)>)
    ensures read.Some? ==> |read.value.1| < |text|
    decreases |text|, 2
  {
    match ReadValue(text)
    case None => None
    case Some((item, after)) =>
      var s := SkipSpace(after);
      if s == "" then None
      else if s[0] == ']' then Some(([item], s[1..]))
      else if s[0] != ',' then None
      else
        match ReadElements(s[1..])
        case None => None
        case Some((items, rest)) => Some(([item] + items, rest))
  }

  /** Members separated by commas up to the closing brace (section 4); of members with one name the last counts. */
  function ReadMembers(text: string): (read: Option<(map<string, Node>, string)>)
    ensures read.Some? ==> |read.value.1| < |text|
    decreases |text|, 2
  {
    match ReadName(text)
    case None => None
    case Some((name, value)) =>
      match ReadValue(value)
      case None => None
      case Some((item, after)) =>
        var s := SkipSpace(after);
        if s == "" then None
        else if s[0] == '}' then Some((map[name := item], s[1..]))
        else if s[0] != ',' then None
        else
          match ReadMembers(s[1..])
          case None => None
          case Some((members, rest)) => Some((map[name := item] + members, rest))
  }

  /** A member's name and colon. */
  function ReadName(text: string): (read: Option<(string, string)>)
    ensures read.Some? ==> |read.value.1| < |text|
  {
    var s := SkipSpace(text);
    if s == "" || s[0] != '\"' then None
    else
      match ReadChars(s[1..])
      case None => None
      case Some((name, after)) =>
        var colon := SkipSpace(after);
        if colon == "" || colon[0] != ':' then None else Some((name, colon[1..]))
  }

  // ---- reading back strings ----

  lemma HexDigits(d: nat)
    requires d < 16
    ensures HexValue(HEX[d]) == Some(d)
  {
  }

  lemma ControlReads(c: char, rest: string)
    requires ShortEscape(c) == None && c < ' '
    ensures ReadChars(EscapeChar(c) + rest) == Prepend(c, ReadChars(rest))
  {
    var s := EscapeChar(c) + rest;
    HexDigits(c as int / 16);
    HexDigits(c as int % 16);
    HexDigits(0);
    assert s[2..][4..] == rest;
    assert Hex4(s[2..]) == Some(c as nat);
  }

  /** Reading one escaped character. */
  lemma EscapeReads(c: char, rest: string)
    ensures ReadChars(EscapeChar(c) + rest) == Prepend(c, ReadChars(rest))
  {
    var s := EscapeChar(c) + rest;
    if ShortEscape(c).Some? {
      assert s[2..] == rest;
      assert Unescaped(s[1]) == Some(c);
    } else if c < ' ' {
      ControlReads(c, rest);
    } else {
      assert s[1..] == rest;
    }
  }

  lemma {:induction false} CharsRead(s: string, rest: string)
    ensures ReadChars(StringThen(s, rest)) == Some((s, rest))
  {
    if s == "" {
      assert ("\"" + rest)[1..] == rest;
    } else {
      EscapeReads(s[0], StringThen(s[1..], rest));
      CharsRead(s[1..], rest);
      assert [s[0]] + s[1..] == s;
    }
  }

  /** A printed string denotes, by the grammar's table of escapes, the string. */
  lemma StringReads(s: string, rest: string)
    ensures (PrintString(s) + rest)[0] == '\"' && ReadChars((PrintString(s) + rest)[1..]) == Some((s, rest))
  {
    AfterQuote(s, rest);
    StringThenMeaning(s, rest);
    CharsRead(s, rest);
  }

  // ---- reading back numbers ----

  lemma {:induction false} DigitsLead(m: nat)
    requires m > 0
    ensures Digits(m) != "" && Digits(m)[0] != '0'
  {
    if m >= 10 {
      DigitsLead(m / 10);
    }
  }

  lemma WholeIsNumber(negative: bool, a: string)
    requires a != "" && AllDigits(a) && (|a| == 1 || a[0] != '0')
    ensures IsNumber(SignText(negative) + a)
  {
    assert a[0..|a|] == a && a[|a|..] == "";
    assert negative ==> (SignText(negative) + a)[1..] == a;
    assert !negative ==> SignText(negative) + a == a && IsDigit(a[0]);
    RunEndExact(a, 0, |a|);
  }

  lemma PointedIsNumber(negative: bool, a: string, b: string)
    requires a != "" && AllDigits(a) && (|a| == 1 || a[0] != '0') && b != "" && AllDigits(b)
    ensures IsNumber(SignText(negative) + (a + ("." + b)))
  {
    var body := a + ("." + b);
    assert body[0..|a|] == a && body[|a|..] == "." + b;
    assert negative ==> (SignText(negative) + body)[1..] == body;
    assert !negative ==> SignText(negative) + body == body && IsDigit(body[0]);
    RunEndExact(body, 0, |a|);
    PointIsFraction(b);
  }

  lemma PointIsFraction(b: string)
    requires b != "" && AllDigits(b)
    ensures IsFraction("." + b)
  {
    var s := "." + b;
    assert s[1..|s|] == b && s[|s|..] == "";
    RunEndExact(s, 1, |s|);
  }

  lemma SmallIsNumber(negative: bool, m: nat, scale: nat)
    requires m > 0 && 0 < scale && scale >= |Digits(m)|
    ensures IsNumber(Signed(negative, m, scale))
  {
    var b := Zeros(scale - |Digits(m)|) + Digits(m);
    SmallValue(m, scale - |Digits(m)|);
    DigitsLead(m);
    SmallText(negative, m, scale);
    PointedTextIsNumber(Signed(negative, m, scale), negative, "0", b);
  }

  lemma PointedTextIsNumber(text: string, negative: bool, a: string, b: string)
    requires text == SignText(negative) + a + "." + b
    requires a != "" && AllDigits(a) && (|a| == 1 || a[0] != '0') && b != "" && AllDigits(b)
    ensures IsNumber(text)
  {
    Regrouped(SignText(negative), a, b);
    PointedIsNumber(negative, a, b);
  }

  lemma SplitIsNumber(negative: bool, m: nat, scale: nat)
    requires m > 0 && 0 < scale < |Digits(m)|
    ensures IsNumber(Signed(negative, m, scale))
  {
    var a, b := Digits(m)[..|Digits(m)| - scale], Digits(m)[|Digits(m)| - scale..];
    DigitsOfValue(m);
    DigitsLead(m);
    SplitText(m, scale, a, b);
    SignedIs(negative, m, scale);
    PointedText(SignText(negative), a, b, Unsigned(m, scale));
    PointedTextIsNumber(Signed(negative, m, scale), negative, a, b);
  }

  lemma SignedIsNumber(negative: bool, m: nat, scale: nat)
    requires m > 0
    ensures IsNumber(Signed(negative, m, scale))
  {
    if scale == 0 {
      DigitsLead(m);
      DigitsOfValue(m);
      SignedIs(negative, m, scale);
      WholeIsNumber(negative, Digits(m));
    } else if scale >= |Digits(m)| {
      SmallIsNumber(negative, m, scale);
    } else {
      SplitIsNumber(negative, m, scale);
    }
  }

  lemma Regrouped(sign: string, a: string, b: string)
    ensures sign + a + "." + b == sign + (a + ("." + b))
  {
  }

  /** A canonical text is a number of the grammar. */
  lemma CanonicalIsNumber(text: string)
    requires CanonicalNumber(text).Ok?
    ensures IsNumber(CanonicalNumber(text).value)
  {
    var p := Parse(text).value;
    if Mantissa(p) == 0 {
      WholeIsNumber(false, "0");
    } else {
      NormalizeValue(Mantissa(p), Scale(p));
      var n := Normalize(Mantissa(p), Scale(p)).value;
      SignedIsNumber(p.negative, n.0, n.1);
    }
  }

  lemma {:induction false} NumberEnds(text: string, rest: string)
    requires (forall k :: 0 <= k < |text| ==> NumberChar(text[k])) && Delimited(rest)
    ensures NumberEnd(text + rest) == |text|
  {
    if text == "" {
      assert text + rest == rest;
    } else {
      assert (text + rest)[1..] == text[1..] + rest;
      NumberEnds(text[1..], rest);
    }
  }

  lemma NumberReads(text: string, rest: string)
    requires NumberText(text) && IsNumber(text) && Delimited(rest)
    ensures ReadValue(text + rest) == Some((JNumber(text), rest))
  {
    NumberEnds(text, rest);
    assert (text + rest)[0] == text[0];
    NumberScalar(text + rest, text, rest);
  }

  lemma NumberScalar(s: string, text: string, rest: string)
    requires text != "" && s == text + rest && NumberEnd(s) == |text| && IsNumber(text) && NumberChar(s[0])
    ensures ReadScalar(s) == Some((JNumber(text), rest))
  {
    assert s[..|text|] == text && s[|text|..] == rest;
  }

  // ---- reading back documents ----

  /** Two documents with the same structure, strings and literals, and numbers of equal value. */
  ghost predicate SameDocument(a: Node, b: Node)
    decreases a
  {
    match a
    case JNumber(x) => b.JNumber? && Parse(x).Some? && Parse(b.text).Some? && NumberValue(x) == NumberValue(b.text)
    case JArray(items) =>
      b.JArray? && |items| == |b.items| && forall k | 0 <= k < |items| :: SameDocument(items[k], b.items[k])
    case JObject(members) =>
      && b.JObject? && members.Keys == b.members.Keys
      && forall key <- members :: SameDocument(members[key], b.members[key])
    case _ => a == b
  }

  /** Where numbers canonicalize this is jsonb equality. */
  lemma {:induction false} SameIsEquivalent(a: Node, b: Node)
    requires Printable(a) && Printable(b)
    ensures SameDocument(a, b) <==> Equivalent(a, b)
    decreases a
  {
    match a
    case JArray(items) =>
      if b.JArray? && |items| == |b.items| {
        forall k | 0 <= k < |items|
          ensures SameDocument(items[k], b.items[k]) <==> Equivalent(items[k], b.items[k])
        {
          SameIsEquivalent(items[k], b.items[k]);
        }
      }
    case JObject(members) =>
      if b.JObject? && members.Keys == b.members.Keys {
        forall key <- members
          ensures SameDocument(members[key], b.members[key]) <==> Equivalent(members[key], b.members[key])
        {
          SameIsEquivalent(members[key], b.members[key]);
        }
      }
    case _ =>
  }

  /** No printed document starts with white space or a closing bracket. */
  lemma PrintedStart(n: Node, rest: string)
    requires Print(n).Ok?
    ensures
      var s := Print(n).value + rest;
      s != "" && !IsSpace(s[0]) && s[0] != ']'
  {
    PrintedKind(n, rest);
  }

  lemma ScalarReads(n: Node, rest: string) returns (m: Node)
    requires Print(n).Ok? && Delimited(rest) && !n.JArray? && !n.JObject?
    ensures ReadValue(Print(n).value + rest) == Some((m, rest)) && SameDocument(m, n)
  {
    var s := Print(n).value + rest;
    assert s[|Print(n).value|..] == rest;
    m := n;
    match n
    case JNumber(text) =>
      m := JNumber(CanonicalNumber(text).value);
      CanonicalIsNumberText(text);
      CanonicalIsNumber(text);
      NumberReads(m.text, rest);
      CanonicalKeepsValue(text);
    case JString(chars) =>
      StringReads(chars, rest);
    case _ =>
  }

  lemma ArrayReads(s: string, read: seq<Node>, rest: string)
    requires s != "" && s[0] == '[' && s[1..] != "" && !IsSpace(s[1]) && s[1] != ']'
    requires ReadElements(s[1..]) == Some((read, rest))
    ensures ReadValue(s) == Some((JArray(read), rest))
  {
  }

  lemma EmptyReads(rest: string)
    ensures ReadValue("[" + ("]" + rest)) == Some((JArray([]), rest))
    ensures ReadValue("{" + ("}" + rest)) == Some((JObject(map[]), rest))
  {
    var s, t := "[" + ("]" + rest), "{" + ("}" + rest);
    assert s[1..] == "]" + rest && s[1..][1..] == rest;
    assert t[1..] == "}" + rest && t[1..][1..] == rest;
  }

  lemma ObjectReads(s: string, read: map<string, Node>, rest: string)
    requires s != "" && s[0] == '{' && s[1..] != "" && s[1] == '\"'
    requires ReadMembers(s[1..]) == Some((read, rest))
    ensures ReadValue(s) == Some((JObject(read), rest))
  {
  }

  /** A printed document followed by a delimiter reads back, by the grammar alone, as the same document, and the
      delimiter is left. */
  lemma {:induction false} PrintReads(n: Node, rest: string) returns (m: Node)
    requires Print(n).Ok? && Delimited(rest)
    ensures ReadValue(Print(n).value + rest) == Some((m, rest)) && SameDocument(m, n)
    decreases n, 1
  {
    var s := Print(n).value + rest;
    match n
    case JArray(items) =>
      ArrayText(n, rest);
      if items == [] {
        m := n;
        EmptyReads(rest);
        assert s == "[" + ("]" + rest);
      } else {
        var read := ItemsRead(items, true, rest);
        PrintedStart(items[0], ItemsThen(items[1..], false, "]" + rest));
        m := JArray(read);
        ArrayReads(s, read, rest);
      }
    case JObject(members) =>
      m := ObjectRead(n, rest);
    case _ =>
      m := ScalarReads(n, rest);
  }

  lemma {:induction false} ObjectRead(n: Node, rest: string) returns (m: Node)
    requires n.JObject? && Print(n).Ok?
    ensures ReadValue(Print(n).value + rest) == Some((m, rest)) && SameDocument(m, n)
    decreases n, 0
  {
    var keys := SortedKeys(n.members.Keys);
    if keys == [] {
      m := n;
      EmptyReads(rest);
      assert Print(n).value + rest == "{" + ("}" + rest);
      assert n.members == map[];
    } else {
      ObjectText(n, rest);
      var read := MembersRead(n, keys, true, rest);
      m := JObject(read);
      ObjectReads(Print(n).value + rest, read, rest);
    }
  }

  lemma {:induction false} ItemsRead(items: seq<Node>, first: bool, rest: string) returns (read: seq<Node>)
    requires items != [] && PrintItems(items, first).Ok?
    ensures
      var s := ItemsThen(items, first, "]" + rest);
      ReadElements(if first then s else s[1..]) == Some((read, rest))
    ensures AllSame(read, items)
    decreases items, 0
  {
    var value, after := Print(items[0]).value, ItemsThen(items[1..], false, "]" + rest);
    ItemsDelimited(items[1..], rest);
    var item := PrintReads(items[0], after);
    AfterComma(first, value + after);
    if |items| == 1 {
      read := [item];
      LastElement(value, item, rest);
    } else {
      var others := ItemsRead(items[1..], false, rest);
      read := [item] + others;
      NextElement(value, item, after, others, rest);
      SameExtend(item, others, items);
    }
  }

  ghost predicate AllSame(as_: seq<Node>, bs: seq<Node>) {
    |as_| == |bs| && forall k | 0 <= k < |as_| :: SameDocument(as_[k], bs[k])
  }

  lemma SameExtend(item: Node, others: seq<Node>, items: seq<Node>)
    requires items != [] && SameDocument(item, items[0]) && AllSame(others, items[1..])
    ensures AllSame([item] + others, items)
  {
    assert forall k | 1 <= k < |items| :: items[k] == items[1..][k - 1];
  }

  lemma LastElement(value: string, item: Node, rest: string)
    requires ReadValue(value + ("]" + rest)) == Some((item, "]" + rest))
    ensures ReadElements(value + ("]" + rest)) == Some(([item], rest))
  {
    assert ("]" + rest)[1..] == rest;
  }

  lemma NextElement(value: string, item: Node, after: string, others: seq<Node>, rest: string)
    requires ReadValue(value + after) == Some((item, after))
    requires after != "" && after[0] == ',' && ReadElements(after[1..]) == Some((others, rest))
    ensures ReadElements(value + after) == Some(([item] + others, rest))
  {
  }

  lemma AfterComma(first: bool, s: string)
    ensures var t := (if first then "" else ",") + s; (if first then t else t[1..]) == s
  {
  }

  lemma {:induction false} MembersRead(n: Node, keys: seq<string>, first: bool, rest: string)
      returns (read: map<string, Node>)
    requires n.JObject? && forall k <- keys :: k in n.members
    requires keys != [] && PrintMembers(n, keys, first).Ok?
    ensures
      var s := MembersThen(n, keys, first, "}" + rest);
      ReadMembers(if first then s else s[1..]) == Some((read, rest))
    ensures MembersSame(read, n.members, keys)
    decreases n, 0, |keys|
  {
    var after := MembersThen(n, keys[1..], false, "}" + rest);
    MembersDelimited(n, keys[1..], rest);
    var item := PrintReads(n.members[keys[0]], after);
    MemberText(n, keys, first, "}" + rest);
    if |keys| == 1 {
      read := map[keys[0] := item];
      LastReads(keys[0], Print(n.members[keys[0]]).value, item, rest);
    } else {
      var others := MembersRead(n, keys[1..], false, rest);
      read := map[keys[0] := item] + others;
      NextReads(keys[0], Print(n.members[keys[0]]).value, item, after, others, rest);
      MembersExtend(item, others, n.members, keys);
    }
  }

  /** `read` has a same document under each of the keys and nothing else. */
  ghost predicate MembersSame(read: map<string, Node>, members: map<string, Node>, keys: seq<string>) {
    && (forall k :: k in read <==> k in keys)
    && forall k <- read :: k in members && SameDocument(read[k], members[k])
  }

  lemma MembersExtend(item: Node, others: map<string, Node>, members: map<string, Node>, keys: seq<string>)
    requires keys != [] && keys[0] in members && SameDocument(item, members[keys[0]])
    requires MembersSame(others, members, keys[1..])
    ensures MembersSame(map[keys[0] := item] + others, members, keys)
  {
    assert keys == [keys[0]] + keys[1..];
  }

  /** A member's name, colon and value, and what follows. */
  function Member(name: string, value: string, after: string): string {
    PrintString(name) + (":" + (value + after))
  }

  lemma MemberText(n: Node, keys: seq<string>, first: bool, rest: string)
    requires n.JObject? && forall k <- keys :: k in n.members
    requires keys != [] && PrintMembers(n, keys, first).Ok?
    ensures
      var s := MembersThen(n, keys, first, rest);
      (if first then s else s[1..]) ==
      Member(keys[0], Print(n.members[keys[0]]).value, MembersThen(n, keys[1..], false, rest))
  {
    var value := Print(n.members[keys[0]]).value + MembersThen(n, keys[1..], false, rest);
    KeyPartThen(keys[0], first, value);
    AfterComma(first, PrintString(keys[0]) + (":" + value));
  }

  lemma LastReads(name: string, value: string, item: Node, rest: string)
    requires ReadValue(value + ("}" + rest)) == Some((item, "}" + rest))
    ensures ReadMembers(Member(name, value, "}" + rest)) == Some((map[name := item], rest))
  {
    NameReads(name, value + ("}" + rest));
    assert ("}" + rest)[1..] == rest;
  }

  lemma NextReads(name: string, value: string, item: Node, after: string, others: map<string, Node>, rest: string)
    requires ReadValue(value + after) == Some((item, after))
    requires after != "" && after[0] == ',' && ReadMembers(after[1..]) == Some((others, rest))
    ensures ReadMembers(Member(name, value, after)) == Some((map[name := item] + others, rest))
  {
    NameReads(name, value + after);
  }

  lemma NameReads(name: string, value: string)
    ensures ReadName(PrintString(name) + (":" + value)) == Some((name, value))
  {
    StringReads(name, ":" + value);
    assert (":" + value)[1..] == value;
  }

  /** A stored document's text is a JSON text that denotes the document. */
  lemma TextDenotes(n: Node) returns (m: Node)
    requires Print(n).Ok?
    ensures ReadValue(Print(n).value) == Some((m, "")) && SameDocument(m, n)
    ensures Printable(m) ==> Equivalent(m, n)
  {
    m := PrintReads(n, "");
    assert Print(n).value + "" == Print(n).value;
    PrintsWhenPrintable(n);
    if Printable(m) {
      SameIsEquivalent(m, n);
    }
  }

  /** The members of a printed object stand in the order of their keys, each once. */
  lemma {:induction false} KeysAscend(keys: set<string>, i: nat, j: nat)
    requires i < j < |SortedKeys(keys)|
    ensures LexLess(SortedKeys(keys)[i], SortedKeys(keys)[j])
  {
    var least := Least(keys);
    var others := keys - {least};
    if i > 0 {
      KeysAscend(others, i - 1, j - 1);
    } else {
      assert SortedKeys(others)[j - 1] in others;
      TextOrder(least, SortedKeys(keys)[j]);
    }
  }
}
