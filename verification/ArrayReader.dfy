/** A reader of PostgreSQL array literals that keeps every character, and that it reads back what is printed. */
module ArrayReader {
  import opened Values
  import opened ArrayLiteral

  // ---- the grammar ----

  predicate Ends(c: char) {
    c == ',' || c == '}' || c == '{' || c == '\"' || c == '\\'
  }

  /** How many characters of an unquoted element stand at the start. */
  function BareLength(s: string): (n: nat)
    ensures n <= |s|
  {
    if s == "" || Ends(s[0]) then 0 else 1 + BareLength(s[1..])
  }

  /** The characters up to the closing quotation mark, a backslash standing for the one behind it, and what follows. */
  function ReadQuoted(s: string): (read: Option<(string, string)>)
    ensures read.Some? ==> |read.value.1| < |s|
  {
    if s == "" then None
    else if s[0] == '\"' then Some(("", s[1..]))
    else if s[0] == '\\' then (if |s| == 1 then None else Prepended(s[1], ReadQuoted(s[2..])))
    else Prepended(s[0], ReadQuoted(s[1..]))
  }

  function Prepended(c: char, read: Option<(string, string)>): Option<(string, string)> {
    match read
    case None => None
    case Some((chars, rest)) => Some(([c] + chars, rest))
  }

  /** An element and what follows: quoted text, the word NULL, or text as it stands. */
  function ReadElement(s: string): (read: Option<(Element, string)>)
    ensures read.Some? ==> |read.value.1| < |s|
  {
    if s != "" && s[0] == '\"' then
      match ReadQuoted(s[1..])
      case None => None
      case Some((chars, rest)) => Some((Some(chars), rest))
    else
      var n := BareLength(s);
      if n == 0 then None else Some((if s[..n] == "NULL" then None else Some(s[..n]), s[n..]))
  }

  /** Elements separated by commas up to the closing brace, which must end the text. */
  function ReadElements(s: string): Option<seq<Element>>
    decreases |s|
  {
    match ReadElement(s)
    case None => None
    case Some((x, rest)) =>
      if rest == "}" then Some([x])
      else if rest != "" && rest[0] == ',' then
        match ReadElements(rest[1..])
        case None => None
        case Some(xs) => Some([x] + xs)
      else None
  }

  function ReadArray(s: string): Option<seq<Element>> {
    if s == "{}" then Some([])
    else if s != "" && s[0] == '{' then ReadElements(s[1..])
    else None
  }

  // ---- reading back ----

  lemma {:induction false} QuotedReads(text: string, rest: string)
    ensures ReadQuoted(EscapeQuoted(text) + ("\"" + rest)) == Some((text, rest))
  {
    if text == "" {
      assert EscapeQuoted(text) + ("\"" + rest) == "\"" + rest;
      assert ("\"" + rest)[1..] == rest;
    } else {
      QuotedReads(text[1..], rest);
      EscapedReads(text[0], EscapeQuoted(text[1..]) + ("\"" + rest));
      QuotedText(text, "\"" + rest);
      assert [text[0]] + text[1..] == text;
    }
  }

  lemma QuotedText(text: string, rest: string)
    requires text != ""
    ensures EscapeQuoted(text) + rest ==
      (if text[0] == '\"' || text[0] == '\\' then ['\\', text[0]] else [text[0]]) + (EscapeQuoted(text[1..]) + rest)
  {
  }

  lemma EscapedReads(c: char, after: string)
    ensures ReadQuoted((if c == '\"' || c == '\\' then ['\\', c] else [c]) + after) == Prepended(c, ReadQuoted(after))
  {
    var s := (if c == '\"' || c == '\\' then ['\\', c] else [c]) + after;
    if c == '\"' || c == '\\' {
      assert s[2..] == after;
    } else {
      assert s[1..] == after;
    }
  }

  lemma {:induction false} BareEnds(text: string, rest: string)
    requires forall k :: 0 <= k < |text| ==> !Ends(text[k])
    requires rest != "" && Ends(rest[0])
    ensures BareLength(text + rest) == |text|
  {
    if text == "" {
      assert text + rest == rest;
    } else {
      assert (text + rest)[1..] == text[1..] + rest;
      BareEnds(text[1..], rest);
    }
  }

  lemma BareReads(text: string, rest: string)
    requires text != "" && (forall k :: 0 <= k < |text| ==> !Ends(text[k]))
    requires rest != "" && Ends(rest[0])
    ensures ReadElement(text + rest) == Some((if text == "NULL" then None else Some(text), rest))
  {
    BareEnds(text, rest);
    var s := text + rest;
    assert s[0] == text[0];
    assert s[..|text|] == text && s[|text|..] == rest;
  }

  lemma QuotedElementReads(text: string, rest: string)
    requires NeedsQuote(text)
    ensures ReadElement(FormatElement(Some(text)) + rest) == Some((Some(text), rest))
  {
    var s := FormatElement(Some(text)) + rest;
    QuotedReads(text, rest);
    assert s[0] == '\"' && s[1..] == EscapeQuoted(text) + ("\"" + rest);
  }

  lemma BareIsOpen(text: string)
    requires !NeedsQuote(text)
    ensures text != "" && text != "NULL" && forall k :: 0 <= k < |text| ==> !Ends(text[k])
  {
    assert ToLower("NULL") == "null";
    assert forall k :: 0 <= k < |text| ==> !Delimits(text[k]);
  }

  /** A printed element reads back as itself up to a delimiter. */
  lemma ElementReads(x: Element, rest: string)
    requires rest != "" && Ends(rest[0])
    ensures ReadElement(FormatElement(x) + rest) == Some((x, rest))
  {
    if x == None {
      BareReads("NULL", rest);
    } else if NeedsQuote(x.value) {
      QuotedElementReads(x.value, rest);
    } else {
      BareIsOpen(x.value);
      BareReads(x.value, rest);
    }
  }

  lemma InnerText(xs: seq<Element>)
    requires |xs| > 1
    ensures FormatInner(xs) + "}" == FormatElement(xs[0]) + ("," + (FormatInner(xs[1..]) + "}"))
  {
    Regroup(FormatElement(xs[0]), ",", FormatInner(xs[1..]), "}");
  }

  lemma Regroup(a: string, b: string, c: string, d: string)
    ensures a + b + c + d == a + (b + (c + d))
  {
  }

  lemma LastReads(xs: seq<Element>)
    requires |xs| == 1
    ensures ReadElements(FormatInner(xs) + "}") == Some(xs)
  {
    ElementReads(xs[0], "}");
    assert xs == [xs[0]];
  }

  lemma NextReads(x: Element, xs: seq<Element>, inner: string)
    requires ReadElements(inner) == Some(xs)
    ensures ReadElements(FormatElement(x) + ("," + inner)) == Some([x] + xs)
  {
    var rest := "," + inner;
    ElementReads(x, rest);
    assert rest[1..] == inner && rest != "}";
  }

  lemma StepReads(xs: seq<Element>, inner: string)
    requires |xs| > 1 && inner == FormatInner(xs[1..]) + "}" && ReadElements(inner) == Some(xs[1..])
    ensures ReadElements(FormatInner(xs) + "}") == Some(xs)
  {
    InnerText(xs);
    NextReads(xs[0], xs[1..], inner);
    assert [xs[0]] + xs[1..] == xs;
  }

  lemma {:induction false} InnerReads(xs: seq<Element>)
    requires xs != []
    ensures ReadElements(FormatInner(xs) + "}") == Some(xs)
  {
    if |xs| == 1 {
      LastReads(xs);
    } else {
      InnerReads(xs[1..]);
      StepReads(xs, FormatInner(xs[1..]) + "}");
    }
  }

  /** Every printed array denotes its elements: a reader that trims nothing reads all of them back. */
  lemma PrintedReads(xs: seq<Element>)
    ensures ReadArray(FormatArray(xs)) == Some(xs)
  {
    if xs == [] {
      assert FormatArray(xs) == "{}";
    } else {
      InnerReads(xs);
      var inner := FormatInner(xs) + "}";
      assert FormatArray(xs) == "{" + inner && FormatArray(xs)[1..] == inner;
      assert inner != "}";
    }
  }
}
