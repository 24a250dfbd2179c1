/** The canonical text of a jsonb document and why comparing texts compares documents. */
module JsonbPrinter {
  import opened Values
  import opened JsonbNumber
  import opened Json

  // ---- sorted keys ----

  lemma {:induction false} LeastExists(keys: set<string>) returns (least: string)
    requires keys != {}
    ensures least in keys && forall k <- keys :: CompareText(least, k) <= 0
  {
    var k :| k in keys;
    if keys == {k} {
      least := k;
      CompareTextAntisymmetric(k, k);
    } else {
      var m := LeastExists(keys - {k});
      CompareTextAntisymmetric(k, m);
      CompareTextAntisymmetric(k, k);
      least := if CompareText(k, m) <= 0 then k else m;
      forall j | j in keys
        ensures CompareText(least, j) <= 0
      {
        if j != k && least == k {
          CompareTextTransitive(k, m, j);
        }
      }
    }
  }

  function Least(keys: set<string>): (least: string)
    requires keys != {}
    ensures least in keys && forall k <- keys :: CompareText(least, k) <= 0
  {
    assert exists least <- keys :: forall k <- keys :: CompareText(least, k) <= 0 by {
      var least := LeastExists(keys);
    }
    assert forall a, b | a in keys && b in keys && CompareText(a, b) <= 0 && CompareText(b, a) <= 0 :: a == b by {
      forall a, b | a in keys && b in keys && CompareText(a, b) <= 0 && CompareText(b, a) <= 0
        ensures a == b
      {
        CompareTextAntisymmetric(a, b);
      }
    }
    var least :| least in keys && forall k <- keys :: CompareText(least, k) <= 0;
    least
  }

  /** sort.Strings of an object's keys. */
  function SortedKeys(keys: set<string>): (sorted: seq<string>)
    ensures forall k :: k in sorted <==> k in keys
  {
    if keys == {} then [] else [Least(keys)] + SortedKeys(keys - {Least(keys)})
  }

  // ---- strings ----

  const HEX := "0123456789abcdef"

  /** The letter of a two-character escape, for the characters that have one. */
  function ShortEscape(c: char): Option<char> {
    match c
    case '\"' => Some('\"')
    case '\\' => Some('\\')
    case '\n' => Some('n')
    case '\r' => Some('r')
    case '\t' => Some('t')
    case _ =>
      if c == '\U{8}' then Some('b') else if c == '\U{C}' then Some('f') else None
  }

  function EscapeChar(c: char): string {
    if ShortEscape(c).Some? then ['\\', ShortEscape(c).value]
    else if c < ' ' then ['\\', 'u', '0', '0', HEX[c as int / 16], HEX[c as int % 16]]
    else [c]
  }

  function Escape(s: string): string {
    if s == "" then "" else EscapeChar(s[0]) + Escape(s[1..])
  }

  function PrintString(s: string): string {
    "\"" + Escape(s) + "\""
  }

  // ---- documents ----

  function Print(n: Node): Result<string>
    decreases n, 1
  {
    match n
    case JNull => Ok("null")
    case JBool(b) => Ok(if b then "true" else "false")
    case JNumber(text) => CanonicalNumber(text)
    case JString(s) => Ok(PrintString(s))
    case JArray(items) =>
      var body :- PrintItems(items, true);
      Ok("[" + body + "]")
    case JObject(members) =>
      var body :- PrintMembers(n, SortedKeys(members.Keys), true);
      Ok("{" + body + "}")
  }

  /** Items separated by commas; `first` says that no item precedes them. */
  function PrintItems(items: seq<Node>, first: bool): Result<string>
    decreases items, 0
  {
    if items == [] then Ok("")
    else
      var head :- Print(items[0]);
      var tail :- PrintItems(items[1..], false);
      Ok((if first then "" else ",") + head + tail)
  }

  function PrintMembers(n: Node, keys: seq<string>, first: bool): Result<string>
    requires n.JObject? && forall k <- keys :: k in n.members
    decreases n, 0, |keys|
  {
    if keys == [] then Ok("")
    else
      var head :- Print(n.members[keys[0]]);
      var tail :- PrintMembers(n, keys[1..], false);
      Ok(KeyPart(keys[0], first) + head + tail)
  }

  function KeyPart(key: string, first: bool): string {
    (if first then "" else ",") + PrintString(key) + ":"
  }

  // ---- a document prints exactly when its numbers do ----

  lemma {:induction false} PrintsWhenPrintable(n: Node)
    ensures Print(n).Ok? <==> Printable(n)
    decreases n, 1
  {
    match n
    case JArray(items) => ItemsPrint(items, true);
    case JObject(members) => MembersPrint(n, SortedKeys(members.Keys), true);
    case _ =>
  }

  lemma {:induction false} ItemsPrint(items: seq<Node>, first: bool)
    ensures PrintItems(items, first).Ok? <==> forall k | 0 <= k < |items| :: Printable(items[k])
    decreases items, 0
  {
    if items != [] {
      PrintsWhenPrintable(items[0]);
      ItemsPrint(items[1..], false);
      assert forall k | 1 <= k < |items| :: items[k] == items[1..][k - 1];
    }
  }

  lemma {:induction false} MembersPrint(n: Node, keys: seq<string>, first: bool)
    requires n.JObject? && forall k <- keys :: k in n.members
    ensures PrintMembers(n, keys, first).Ok? <==> forall k <- keys :: Printable(n.members[k])
    decreases n, 0, |keys|
  {
    if keys != [] {
      PrintsWhenPrintable(n.members[keys[0]]);
      MembersPrint(n, keys[1..], false);
      assert keys == [keys[0]] + keys[1..];
    }
  }

  // ---- unique readability ----

  /** What may follow a value: nothing, or a character no number contains. */
  predicate Delimited(rest: string) {
    rest == "" || rest[0] == ',' || rest[0] == ']' || rest[0] == '}'
  }

  lemma ShortEscapeInjective(c: char, d: char)
    requires ShortEscape(c).Some? && ShortEscape(c) == ShortEscape(d)
    ensures c == d
  {
  }

  lemma ControlInjective(c: char, d: char)
    requires c < ' ' && d < ' '
    requires HEX[c as int / 16] == HEX[d as int / 16] && HEX[c as int % 16] == HEX[d as int % 16]
    ensures c == d
  {
    assert forall i, j | 0 <= i < j < 16 :: HEX[i] != HEX[j];
    assert c as int / 16 == d as int / 16 && c as int % 16 == d as int % 16;
    assert c as int == 16 * (c as int / 16) + c as int % 16;
    assert d as int == 16 * (d as int / 16) + d as int % 16;
  }

  lemma EscapeHead(c: char, rest: string)
    ensures (EscapeChar(c) + rest)[0] != '\"'
    ensures (EscapeChar(c) + rest)[0] == '\\' <==> ShortEscape(c).Some? || c < ' '
    ensures ShortEscape(c).Some? ==> (EscapeChar(c) + rest)[1] == ShortEscape(c).value != 'u'
    ensures ShortEscape(c) == None && c < ' ' ==>
      var x := EscapeChar(c) + rest;
      x[1] == 'u' && x[4] == HEX[c as int / 16] && x[5] == HEX[c as int % 16]
    ensures ShortEscape(c) == None && c >= ' ' ==> (EscapeChar(c) + rest)[0] == c
  {
  }

  /** Escapes form a prefix code. */
  lemma EscapeCode(c: char, d: char, u: string, v: string)
    requires EscapeChar(c) + u == EscapeChar(d) + v
    ensures c == d && u == v
  {
    EscapeHead(c, u);
    EscapeHead(d, v);
    if ShortEscape(c).Some? {
      ShortEscapeInjective(c, d);
    } else if c < ' ' {
      ControlInjective(c, d);
    }
    assert u == (EscapeChar(c) + u)[|EscapeChar(c)|..] && v == (EscapeChar(c) + v)[|EscapeChar(c)|..];
  }

  /** The rest of a printed string and the text after it. */
  function StringThen(s: string, rest: string): string {
    if s == "" then "\"" + rest else EscapeChar(s[0]) + StringThen(s[1..], rest)
  }

  lemma {:induction false} StringThenMeaning(s: string, rest: string)
    ensures Escape(s) + "\"" + rest == StringThen(s, rest)
  {
    if s != "" {
      StringThenMeaning(s[1..], rest);
      assert Escape(s) + "\"" + rest == EscapeChar(s[0]) + (Escape(s[1..]) + "\"" + rest);
    }
  }

  /** A printed string ends where it says it ends. */
  lemma {:induction false} StringThenUnique(s: string, t: string, x: string, y: string)
    requires StringThen(s, x) == StringThen(t, y)
    ensures s == t && x == y
  {
    if s == "" && t == "" {
      assert x == ("\"" + x)[1..] && y == ("\"" + y)[1..];
    } else if s == "" {
      EscapeHead(t[0], StringThen(t[1..], y));
    } else if t == "" {
      EscapeHead(s[0], StringThen(s[1..], x));
    } else {
      EscapeCode(s[0], t[0], StringThen(s[1..], x), StringThen(t[1..], y));
      StringThenUnique(s[1..], t[1..], x, y);
      assert s == [s[0]] + s[1..] && t == [t[0]] + t[1..];
    }
  }

  lemma AfterQuote(s: string, x: string)
    ensures (PrintString(s) + x)[1..] == Escape(s) + "\"" + x
  {
  }

  lemma StringUnique(s: string, t: string, x: string, y: string)
    requires PrintString(s) + x == PrintString(t) + y
    ensures s == t && x == y
  {
    AfterQuote(s, x);
    AfterQuote(t, y);
    StringThenMeaning(s, x);
    StringThenMeaning(t, y);
    StringThenUnique(s, t, x, y);
  }

  // ---- numbers ----

  predicate NumberChar(c: char) {
    IsDigit(c) || c == '-' || c == '.'
  }

  predicate NumberText(s: string) {
    s != "" && forall k :: 0 <= k < |s| ==> NumberChar(s[k])
  }

  lemma UnsignedNumberText(m: nat, scale: nat)
    requires m > 0
    ensures NumberText(Unsigned(m, scale))
  {
    DigitsOfValue(m);
  }

  lemma CanonicalIsNumberText(text: string)
    requires CanonicalNumber(text).Ok?
    ensures NumberText(CanonicalNumber(text).value)
  {
    CanonicalParsedIsNumberText(Parse(text).value);
  }

  lemma CanonicalParsedIsNumberText(p: Parsed)
    requires Decimal(p) && CanonicalParsed(p).Ok?
    ensures NumberText(CanonicalParsed(p).value)
  {
    if Mantissa(p) != 0 {
      NormalizeValue(Mantissa(p), Scale(p));
      var (m, s) := Normalize(Mantissa(p), Scale(p)).value;
      UnsignedNumberText(m, s);
    }
  }

  /** A number ends at the first character that cannot belong to one. */
  lemma NumberUnique(p: string, q: string, x: string, y: string)
    requires NumberText(p) && NumberText(q) && Delimited(x) && Delimited(y)
    requires p + x == q + y
    ensures p == q && x == y
  {
    var l, r := p + x, q + y;
    assert x != "" ==> l[|p|] == x[0];
    assert y != "" ==> r[|q|] == y[0];
    assert forall k | 0 <= k < |p| :: l[k] == p[k];
    assert forall k | 0 <= k < |q| :: r[k] == q[k];
    assert |p| == |q|;
    assert p == l[..|p|] && q == r[..|q|];
    assert x == l[|p|..] && y == r[|q|..];
  }

  // ---- documents ----

  /** The first character of a printed document tells its kind. */
  function Kind(n: Node): char
  {
    match n
    case JNull => 'n'
    case JBool(b) => if b then 't' else 'f'
    case JNumber(_) => '0'
    case JString(_) => '\"'
    case JArray(_) => '['
    case JObject(_) => '{'
  }

  lemma PrintedKind(n: Node, rest: string)
    requires Print(n).Ok?
    ensures Print(n).value != ""
    ensures Kind(n) == if NumberChar((Print(n).value + rest)[0]) then '0' else (Print(n).value + rest)[0]
  {
    if n.JNumber? {
      CanonicalIsNumberText(n.text);
    }
  }

  /** Printed items and the text after them. */
  function ItemsThen(items: seq<Node>, first: bool, rest: string): string
    requires PrintItems(items, first).Ok?
  {
    if items == [] then rest
    else (if first then "" else ",") + (Print(items[0]).value + ItemsThen(items[1..], false, rest))
  }

  lemma Regroup(a: string, b: string, c: string, d: string)
    ensures a + b + c + d == a + (b + (c + d))
  {
  }

  /** Taking the opening bracket off a bracketed text. */
  lemma Unwrap(open: string, body: string, close: string, x: string)
    requires |open| == 1
    ensures (open + body + close + x)[1..] == body + (close + x)
  {
  }

  lemma KeyPartThen(key: string, first: bool, rest: string)
    ensures KeyPart(key, first) + rest == (if first then "" else ",") + (PrintString(key) + (":" + rest))
  {
  }

  lemma {:induction false} ItemsThenMeaning(items: seq<Node>, first: bool, rest: string)
    requires PrintItems(items, first).Ok?
    ensures PrintItems(items, first).value + rest == ItemsThen(items, first, rest)
  {
    if items != [] {
      ItemsThenMeaning(items[1..], false, rest);
      Regroup(if first then "" else ",", Print(items[0]).value, PrintItems(items[1..], false).value, rest);
    }
  }

  /** Printed members and the text after them. */
  function MembersThen(n: Node, keys: seq<string>, first: bool, rest: string): string
    requires n.JObject? && forall k <- keys :: k in n.members
    requires PrintMembers(n, keys, first).Ok?
  {
    if keys == [] then rest
    else KeyPart(keys[0], first) + (Print(n.members[keys[0]]).value + MembersThen(n, keys[1..], false, rest))
  }

  lemma {:induction false} MembersThenMeaning(n: Node, keys: seq<string>, first: bool, rest: string)
    requires n.JObject? && forall k <- keys :: k in n.members
    requires PrintMembers(n, keys, first).Ok?
    ensures PrintMembers(n, keys, first).value + rest == MembersThen(n, keys, first, rest)
  {
    if keys != [] {
      MembersThenMeaning(n, keys[1..], false, rest);
      Regroup(KeyPart(keys[0], first), Print(n.members[keys[0]]).value, PrintMembers(n, keys[1..], false).value, rest);
    }
  }

  /** Reading a document back: its text, followed by a delimiter, determines it. */
  lemma {:induction false} PrintUnique(a: Node, b: Node, x: string, y: string)
    requires Print(a).Ok? && Print(b).Ok? && Delimited(x) && Delimited(y)
    requires Print(a).value + x == Print(b).value + y
    ensures Equivalent(a, b) && x == y
    decreases a, 1
  {
    PrintedKind(a, x);
    PrintedKind(b, y);
    assert Kind(a) == Kind(b);
    match a
    case JNumber(text) =>
      CanonicalIsNumberText(text);
      CanonicalIsNumberText(b.text);
      NumberUnique(Print(a).value, Print(b).value, x, y);
      CanonicalIffEqual(text, b.text);
    case JString(s) =>
      StringUnique(s, b.s, x, y);
    case JArray(items) =>
      ArrayText(a, x);
      ArrayText(b, y);
      ItemsUnique(items, b.items, true, x, y);
    case JObject(members) =>
      ObjectText(a, x);
      ObjectText(b, y);
      MembersUnique(a, SortedKeys(members.Keys), b, SortedKeys(b.members.Keys), true, x, y);
      SameKeys(members.Keys, b.members.Keys);
    case _ =>
      DropPrefix(Print(a).value, x, y);
  }

  lemma DropPrefix(p: string, x: string, y: string)
    requires p + x == p + y
    ensures x == y
  {
    assert x == (p + x)[|p|..] && y == (p + y)[|p|..];
  }

  lemma SameKeys(ks: set<string>, ls: set<string>)
    requires SortedKeys(ks) == SortedKeys(ls)
    ensures ks == ls
  {
    assert forall k :: k in ks <==> k in SortedKeys(ks);
  }

  lemma ArrayText(a: Node, x: string)
    requires a.JArray? && Print(a).Ok?
    ensures (Print(a).value + x)[1..] == ItemsThen(a.items, true, "]" + x)
  {
    ItemsThenMeaning(a.items, true, "]" + x);
    Unwrap("[", PrintItems(a.items, true).value, "]", x);
  }

  lemma ObjectText(a: Node, x: string)
    requires a.JObject? && Print(a).Ok?
    ensures (Print(a).value + x)[1..] == MembersThen(a, SortedKeys(a.members.Keys), true, "}" + x)
  {
    var keys := SortedKeys(a.members.Keys);
    MembersThenMeaning(a, keys, true, "}" + x);
    Unwrap("{", PrintMembers(a, keys, true).value, "}", x);
  }

  lemma {:induction false} ItemsUnique(as_: seq<Node>, bs: seq<Node>, first: bool, x: string, y: string)
    requires PrintItems(as_, first).Ok? && PrintItems(bs, first).Ok?
    requires ItemsThen(as_, first, "]" + x) == ItemsThen(bs, first, "]" + y)
    ensures |as_| == |bs| && (forall k | 0 <= k < |as_| :: Equivalent(as_[k], bs[k])) && x == y
    decreases as_, 0
  {
    if as_ == [] && bs == [] {
      DropPrefix("]", x, y);
    } else if as_ == [] {
      ItemsHead(bs, first, "]" + y);
    } else if bs == [] {
      ItemsHead(as_, first, "]" + x);
    } else {
      var u, v := ItemsThen(as_[1..], false, "]" + x), ItemsThen(bs[1..], false, "]" + y);
      DropPrefix(if first then "" else ",", Print(as_[0]).value + u, Print(bs[0]).value + v);
      ItemsDelimited(as_[1..], x);
      ItemsDelimited(bs[1..], y);
      PrintUnique(as_[0], bs[0], u, v);
      ItemsUnique(as_[1..], bs[1..], false, x, y);
      forall k | 0 <= k < |as_|
        ensures Equivalent(as_[k], bs[k])
      {
        if k > 0 {
          assert as_[k] == as_[1..][k - 1] && bs[k] == bs[1..][k - 1];
        }
      }
    }
  }

  lemma ItemsDelimited(items: seq<Node>, x: string)
    requires PrintItems(items, false).Ok?
    ensures Delimited(ItemsThen(items, false, "]" + x))
  {
  }

  lemma ItemsHead(items: seq<Node>, first: bool, rest: string)
    requires items != [] && PrintItems(items, first).Ok?
    ensures ItemsThen(items, first, rest)[0] != ']'
  {
    PrintedKind(items[0], ItemsThen(items[1..], false, rest));
  }

  lemma {:induction false} MembersUnique(a: Node, ks: seq<string>, b: Node, ls: seq<string>, first: bool, x: string,
      y: string)
    requires a.JObject? && (forall k <- ks :: k in a.members)
    requires b.JObject? && (forall k <- ls :: k in b.members)
    requires PrintMembers(a, ks, first).Ok? && PrintMembers(b, ls, first).Ok?
    requires MembersThen(a, ks, first, "}" + x) == MembersThen(b, ls, first, "}" + y)
    ensures ks == ls && (forall k <- ks :: Equivalent(a.members[k], b.members[k])) && x == y
    decreases a, 0, |ks|
  {
    if ks == [] && ls == [] {
      DropPrefix("}", x, y);
    } else if ks == [] {
      MembersHead(b, ls, first, "}" + y);
    } else if ls == [] {
      MembersHead(a, ks, first, "}" + x);
    } else {
      var u, v := MembersThen(a, ks[1..], false, "}" + x), MembersThen(b, ls[1..], false, "}" + y);
      var s, t := Print(a.members[ks[0]]).value + u, Print(b.members[ls[0]]).value + v;
      KeyPartThen(ks[0], first, s);
      KeyPartThen(ls[0], first, t);
      DropPrefix(if first then "" else ",", PrintString(ks[0]) + (":" + s), PrintString(ls[0]) + (":" + t));
      StringUnique(ks[0], ls[0], ":" + s, ":" + t);
      DropPrefix(":", s, t);
      MembersDelimited(a, ks[1..], x);
      MembersDelimited(b, ls[1..], y);
      PrintUnique(a.members[ks[0]], b.members[ls[0]], u, v);
      MembersUnique(a, ks[1..], b, ls[1..], false, x, y);
      assert ks == [ks[0]] + ks[1..] && ls == [ls[0]] + ls[1..];
    }
  }

  lemma MembersDelimited(n: Node, keys: seq<string>, x: string)
    requires n.JObject? && (forall k <- keys :: k in n.members)
    requires PrintMembers(n, keys, false).Ok?
    ensures Delimited(MembersThen(n, keys, false, "}" + x))
  {
  }

  lemma MembersHead(n: Node, keys: seq<string>, first: bool, rest: string)
    requires n.JObject? && (forall k <- keys :: k in n.members)
    requires keys != [] && PrintMembers(n, keys, first).Ok?
    ensures MembersThen(n, keys, first, rest)[0] != '}'
  {
  }

  // ---- equivalent documents print alike ----

  lemma {:induction false} EquivalentPrintAlike(a: Node, b: Node)
    requires Equivalent(a, b)
    ensures Print(a) == Print(b)
    decreases a, 1
  {
    match a
    case JNumber(x) => CanonicalIffEqual(x, b.text);
    case JArray(items) => ItemsPrintAlike(items, b.items, true);
    case JObject(members) => MembersPrintAlike(a, b, SortedKeys(members.Keys), true);
    case _ =>
  }

  lemma {:induction false} ItemsPrintAlike(as_: seq<Node>, bs: seq<Node>, first: bool)
    requires |as_| == |bs| && forall k | 0 <= k < |as_| :: Equivalent(as_[k], bs[k])
    ensures PrintItems(as_, first) == PrintItems(bs, first)
    decreases as_, 0
  {
    if as_ != [] {
      EquivalentPrintAlike(as_[0], bs[0]);
      ItemsPrintAlike(as_[1..], bs[1..], false);
    }
  }

  lemma {:induction false} MembersPrintAlike(a: Node, b: Node, keys: seq<string>, first: bool)
    requires Equivalent(a, b) && a.JObject? && forall k <- keys :: k in a.members
    ensures PrintMembers(a, keys, first) == PrintMembers(b, keys, first)
    decreases a, 0, |keys|
  {
    if keys != [] {
      EquivalentPrintAlike(a.members[keys[0]], b.members[keys[0]]);
      MembersPrintAlike(a, b, keys[1..], false);
    }
  }

  /** jsonb equality: two documents that print have the same text exactly when they are equal
      up to the spelling of numbers. */
  lemma SameTextIffEquivalent(a: Node, b: Node)
    requires Print(a).Ok? && Print(b).Ok?
    ensures Print(a).value == Print(b).value <==> Equivalent(a, b)
  {
    if Print(a).value == Print(b).value {
      PrintUnique(a, b, "", "");
    }
    if Equivalent(a, b) {
      EquivalentPrintAlike(a, b);
    }
  }

  // ---- the writer ----

  /** The byte buffer the writer appends to. */
  class Buffer {
    var text: string

    constructor ()
      ensures text == ""
    {
      text := "";
    }

    method Write(s: string)
      modifies this
      ensures text == old(text) + s
    {
      text := text + s;
    }
  }

  /** Regrouping after one more piece has been written. */
  lemma OneMore(start: string, done: string, piece: string, tail: string)
    ensures start + done + piece == start + (done + piece)
    ensures done + (piece + tail) == done + piece + tail
  {
  }

  method WriteEscaped(buf: Buffer, value: string)
    modifies buf
    ensures buf.text == old(buf.text) + Escape(value)
  {
    ghost var start, done := buf.text, "";
    for k := 0 to |value|
      invariant buf.text == start + done
      invariant done + Escape(value[k..]) == Escape(value)
    {
      assert value[k..][1..] == value[k + 1..];
      OneMore(start, done, EscapeChar(value[k]), Escape(value[k + 1..]));
      buf.Write(EscapeChar(value[k]));
      done := done + EscapeChar(value[k]);
    }
  }

  method WriteText(buf: Buffer, value: string)
    modifies buf
    ensures buf.text == old(buf.text) + PrintString(value)
  {
    buf.Write("\"");
    WriteEscaped(buf, value);
    buf.Write("\"");
    assert old(buf.text) + "\"" + Escape(value) + "\"" == old(buf.text) + ("\"" + Escape(value) + "\"");
  }

  /** writeJSONBNode without the pretty form: appends the canonical text, or reports a number
      that has none. */
  method WriteNode(buf: Buffer, n: Node) returns (ok: bool)
    modifies buf
    ensures ok == Print(n).Ok?
    ensures ok ==> buf.text == old(buf.text) + Print(n).value
    decreases n, 1
  {
    match n
    case JNull =>
      buf.Write("null");
      ok := true;
    case JBool(b) =>
      buf.Write(if b then "true" else "false");
      ok := true;
    case JNumber(text) =>
      var canonical := CanonicalizeNumber(text);
      ok := canonical.Ok?;
      if ok {
        buf.Write(canonical.value);
      }
    case JString(s) =>
      WriteText(buf, s);
      ok := true;
    case JArray(items) =>
      if items == [] {
        buf.Write("[]");
        return true;
      }
      ok := WriteItems(buf, n);
    case JObject(members) =>
      if members == map[] {
        buf.Write("{}");
        return true;
      }
      ok := WriteMembers(buf, n);
  }

  method WriteItems(buf: Buffer, n: Node) returns (ok: bool)
    requires n.JArray?
    modifies buf
    ensures ok == Print(n).Ok?
    ensures ok ==> buf.text == old(buf.text) + Print(n).value
    decreases n, 0
  {
    var items := n.items;
    buf.Write("[");
    ghost var start, done, all := buf.text, "", PrintItems(items, true);
    assert items[0..] == items;
    for i := 0 to |items|
      invariant all.Ok? <==> PrintItems(items[i..], i == 0).Ok?
      invariant all.Ok? ==> buf.text == start + done
      invariant all.Ok? ==> done + PrintItems(items[i..], i == 0).value == all.value
    {
      assert items[i..][1..] == items[i + 1..];
      ok := WriteItem(buf, n, i);
      if !ok {
        return;
      }
      if all.Ok? {
        ghost var piece := (if i == 0 then "" else ",") + Print(items[i]).value;
        OneMore(start, done, piece, PrintItems(items[i + 1..], false).value);
        done := done + piece;
      }
    }
    buf.Write("]");
    ok := true;
    Bracketed(old(buf.text), "[", done, "]");
  }

  lemma Bracketed(before: string, open: string, body: string, close: string)
    ensures before + open + body + close == before + (open + body + close)
    ensures body + "" == body
  {
  }

  method WriteItem(buf: Buffer, n: Node, i: nat) returns (ok: bool)
    requires n.JArray? && i < |n.items|
    modifies buf
    ensures ok == Print(n.items[i]).Ok?
    ensures ok ==> buf.text == old(buf.text) + ((if i == 0 then "" else ",") + Print(n.items[i]).value)
    decreases n.items[i], 2
  {
    if i > 0 {
      buf.Write(",");
    }
    ok := WriteNode(buf, n.items[i]);
  }

  method WriteMembers(buf: Buffer, n: Node) returns (ok: bool)
    requires n.JObject?
    modifies buf
    ensures ok == Print(n).Ok?
    ensures ok ==> buf.text == old(buf.text) + Print(n).value
    decreases n, 0
  {
    var keys := SortedKeys(n.members.Keys);
    buf.Write("{");
    ghost var start, done, all := buf.text, "", PrintMembers(n, keys, true);
    assert keys[0..] == keys;
    for i := 0 to |keys|
      invariant MembersWritten(n, keys, i, all, start, done, buf.text)
    {
      ghost var before := buf.text;
      assert keys[i] in keys && keys[i] in n.members;
      ok := WriteMember(buf, n, keys[i], i == 0);
      MembersNext(n, keys, i, all, start, done, before, ok, buf.text);
      if !ok {
        return;
      }
      done := done + (KeyPart(keys[i], i == 0) + Print(n.members[keys[i]]).value);
    }
    buf.Write("}");
    ok := true;
    Bracketed(old(buf.text), "{", done, "}");
  }

  /** Of the members printing as `all` the first `i` have been written as `done` after `start`. */
  ghost predicate MembersWritten(n: Node, keys: seq<string>, i: nat, all: Result<string>, start: string, done: string,
      text: string)
    requires n.JObject?
  {
    && i <= |keys| && (forall k <- keys :: k in n.members)
    && (all.Ok? <==> PrintMembers(n, keys[i..], i == 0).Ok?)
    && (all.Ok? ==> text == start + done && done + PrintMembers(n, keys[i..], i == 0).value == all.value)
  }

  lemma MembersNext(n: Node, keys: seq<string>, i: nat, all: Result<string>, start: string, done: string,
      before: string, ok: bool, text: string)
    requires n.JObject? && i < |keys| && MembersWritten(n, keys, i, all, start, done, before)
    requires keys[i] in keys
    requires ok == Print(n.members[keys[i]]).Ok?
    requires ok ==> text == before + (KeyPart(keys[i], i == 0) + Print(n.members[keys[i]]).value)
    ensures !ok ==> all.Err?
    ensures ok ==> MembersWritten(n, keys, i + 1, all, start,
      done + (KeyPart(keys[i], i == 0) + Print(n.members[keys[i]]).value), text)
  {
    MembersStep(n, keys, i);
    if all.Ok? {
      var piece := KeyPart(keys[i], i == 0) + Print(n.members[keys[i]]).value;
      OneMore(start, done, piece, PrintMembers(n, keys[i + 1..], false).value);
    }
  }

  lemma MembersStep(n: Node, keys: seq<string>, i: nat)
    requires n.JObject? && (forall k <- keys :: k in n.members) && i < |keys|
    ensures keys[i] in keys
    ensures PrintMembers(n, keys[i..], i == 0) ==
      var head, tail := Print(n.members[keys[i]]), PrintMembers(n, keys[i + 1..], false);
      if head.Err? then Err(head.error)
      else if tail.Err? then Err(tail.error)
      else Ok(KeyPart(keys[i], i == 0) + head.value + tail.value)
  {
    assert keys[i..][1..] == keys[i + 1..];
  }

  method WriteMember(buf: Buffer, n: Node, key: string, first: bool) returns (ok: bool)
    requires n.JObject? && key in n.members
    modifies buf
    ensures ok == Print(n.members[key]).Ok?
    ensures ok ==> buf.text == old(buf.text) + (KeyPart(key, first) + Print(n.members[key]).value)
    decreases n.members[key], 2
  {
    WriteKey(buf, key, first);
    ok := WriteNode(buf, n.members[key]);
    if ok {
      OneMore(old(buf.text), KeyPart(key, first), Print(n.members[key]).value, "");
    }
  }

  method WriteKey(buf: Buffer, key: string, first: bool)
    modifies buf
    ensures buf.text == old(buf.text) + KeyPart(key, first)
  {
    if !first {
      buf.Write(",");
    }
    WriteText(buf, key);
    buf.Write(":");
    KeyText(old(buf.text), if first then "" else ",", PrintString(key));
  }

  lemma KeyText(start: string, comma: string, key: string)
    ensures start + comma + key + ":" == start + (comma + key + ":")
    ensures start + "" == start
  {
  }
}
