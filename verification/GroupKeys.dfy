/** The key of a group: the renderings of its columns, joined by a separator. */
module GroupKeys {
  import opened Collections

  function Join(parts: seq<string>): string {
    if parts == [] then ""
    else if |parts| == 1 then parts[0]
    else parts[0] + "|" + Join(parts[1..])
  }

  ghost predicate SeparatorFree(parts: seq<string>) {
    forall p <- parts :: '|' !in p
  }

  /** A joined key has the separators between its parts and those inside them. */
  lemma {:induction false} JoinSeparators(s: seq<string>)
    requires s != []
    ensures multiset(Join(s))['|'] >= |s| - 1
    ensures multiset(Join(s))['|'] == |s| - 1 <==> SeparatorFree(s)
  {
    if |s| == 1 {
      assert s == [s[0]];
    } else {
      JoinSeparators(s[1..]);
      assert s == [s[0]] + s[1..];
      assert SeparatorFree(s) <==> '|' !in s[0] && SeparatorFree(s[1..]);
      assert Join(s) == s[0] + "|" + Join(s[1..]) && multiset("|")['|'] == 1;
    }
  }

  lemma {:induction false} FreeJoinsApart(s: seq<string>, t: seq<string>)
    requires |s| == |t| && SeparatorFree(s) && SeparatorFree(t)
    requires Join(s) == Join(t)
    ensures s == t
  {
    if |s| > 1 {
      assert s[0] in s && t[0] in t;
      SplitAt('|', s[0], t[0], Join(s[1..]), Join(t[1..]));
      FreeJoinsApart(s[1..], t[1..]);
      assert s == [s[0]] + s[1..] && t == [t[0]] + t[1..];
    }
  }

  /** A list of renderings without the separator has a key of its own among the lists of its length. */
  lemma JoinApart(s: seq<string>, t: seq<string>)
    requires |s| == |t| && SeparatorFree(s) && Join(s) == Join(t)
    ensures s == t
  {
    if s != [] {
      JoinSeparators(s);
      JoinSeparators(t);
      FreeJoinsApart(s, t);
    }
  }

  /** With a separator inside a rendering, rows that differ in two neighbouring columns share a key, and
      so a group. */
  lemma {:induction false} JoinMerges(before: seq<string>, a: string, b: string, c: string, after: seq<string>)
    ensures Join(before + [a + "|" + b, c] + after) == Join(before + [a, b + "|" + c] + after)
    ensures before + [a + "|" + b, c] + after != before + [a, b + "|" + c] + after
  {
    var s, t := before + [a + "|" + b, c] + after, before + [a, b + "|" + c] + after;
    assert s[|before|] == a + "|" + b && t[|before|] == a && |a + "|" + b| > |a|;
    if before == [] {
      assert s[1..] == [c] + after && t[1..] == [b + "|" + c] + after;
      JoinHead(c, after);
      JoinHead(b + "|" + c, after);
      var rest := JoinTail(after);
      assert (a + "|" + b) + "|" + (c + rest) == a + "|" + ((b + "|" + c) + rest);
    } else {
      JoinMerges(before[1..], a, b, c, after);
      assert s[1..] == before[1..] + [a + "|" + b, c] + after && t[1..] == before[1..] + [a, b + "|" + c] + after;
    }
  }

  function JoinTail(parts: seq<string>): string {
    if parts == [] then "" else "|" + Join(parts)
  }

  lemma JoinHead(part: string, rest: seq<string>)
    ensures Join([part] + rest) == part + JoinTail(rest)
  {
    assert ([part] + rest)[1..] == rest;
  }

  /** No other list of the same length has the key. */
  ghost predicate HasOwnKey(s: seq<string>) {
    forall t: seq<string> :: |t| == |s| && Join(t) == Join(s) ==> t == s
  }

  lemma InnerSeparatorMerges(s: seq<string>, i: nat, k: nat)
    requires |s| > 1 && i < |s| && k < |s[i]| && s[i][k] == '|'
    ensures !HasOwnKey(s)
  {
    var a, b := s[i][..k], s[i][k + 1..];
    assert s[i] == a + "|" + b;
    if i + 1 < |s| {
      var before, after := s[..i], s[i + 2..];
      assert s == before + [a + "|" + b, s[i + 1]] + after;
      JoinMerges(before, a, b, s[i + 1], after);
      assert |before + [a, b + "|" + s[i + 1]] + after| == |s|;
    } else {
      var before := s[..i - 1];
      assert s == before + [s[i - 1], a + "|" + b] + [];
      JoinMerges(before, s[i - 1], a, b, []);
      assert |before + [s[i - 1] + "|" + a, b] + []| == |s|;
    }
  }

  /** A list of renderings has a key of its own exactly when it is a single column or none of its
      renderings contains the separator. */
  lemma OwnKeyIff(s: seq<string>)
    ensures HasOwnKey(s) <==> |s| <= 1 || SeparatorFree(s)
  {
    if SeparatorFree(s) {
      forall t: seq<string> | |t| == |s| && Join(t) == Join(s)
        ensures t == s
      {
        JoinApart(s, t);
      }
    } else if |s| > 1 {
      var i :| 0 <= i < |s| && '|' in s[i];
      var k :| 0 <= k < |s[i]| && s[i][k] == '|';
      InnerSeparatorMerges(s, i, k);
    } else {
      assert s == [s[0]];
      forall t: seq<string> | |t| == |s| && Join(t) == Join(s)
        ensures t == s
      {
        assert t == [t[0]];
      }
    }
  }
}
