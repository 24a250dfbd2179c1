/** jsonb containment (@>), concatenation (||) and jsonb_strip_nulls. */
module JsonbContains {
  import opened Values
  import opened JsonbNumber
  import opened Json

  predicate IsScalar(n: Node) {
    !n.JArray? && !n.JObject?
  }

  predicate SameCanonical(x: string, y: string) {
    CanonicalNumber(x).Ok? && CanonicalNumber(y).Ok? && CanonicalNumber(x).value == CanonicalNumber(y).value
  }

  /** jsonbContains: an array contains a scalar when some element does, at any depth; array
      elements are matched regardless of order and multiplicity. */
  predicate Contains(container: Node, candidate: Node)
    decreases container, 1
  {
    if IsScalar(candidate) && container.JArray? then AnyContains(container.items, candidate)
    else
      match candidate
      case JObject(wanted) =>
        container.JObject?
        && forall key <- wanted :: key in container.members && Contains(container.members[key], wanted[key])
      case JArray(wanted) =>
        container.JArray? && forall k | 0 <= k < |wanted| :: AnyContains(container.items, wanted[k])
      case JNull => container.JNull?
      case JBool(b) => container == JBool(b)
      case JString(s) => container == JString(s)
      case JNumber(text) => container.JNumber? && SameCanonical(container.text, text)
  }

  predicate AnyContains(items: seq<Node>, candidate: Node)
    decreases items, 0
  {
    exists k | 0 <= k < |items| :: Contains(items[k], candidate)
  }

  // ---- a preorder ----

  /** Only documents whose numbers canonicalize are contained anywhere. */
  lemma {:induction false} ContainedIsPrintable(container: Node, candidate: Node)
    requires Contains(container, candidate)
    ensures Printable(candidate)
    decreases container
  {
    if IsScalar(candidate) && container.JArray? {
      assert AnyContains(container.items, candidate);
      var k :| 0 <= k < |container.items| && Contains(container.items[k], candidate);
      ContainedIsPrintable(container.items[k], candidate);
    } else if candidate.JObject? {
      forall key | key in candidate.members
        ensures Printable(candidate.members[key])
      {
        ContainedIsPrintable(container.members[key], candidate.members[key]);
      }
    } else if candidate.JArray? {
      forall k | 0 <= k < |candidate.items|
        ensures Printable(candidate.items[k])
      {
        assert AnyContains(container.items, candidate.items[k]);
        var j :| 0 <= j < |container.items| && Contains(container.items[j], candidate.items[k]);
        ContainedIsPrintable(container.items[j], candidate.items[k]);
      }
    }
  }

  /** Equal documents contain each other. */
  lemma {:induction false} EquivalentContain(a: Node, b: Node)
    requires Equivalent(a, b)
    ensures Contains(a, b) && Contains(b, a)
    decreases a
  {
    match a
    case JNumber(x) => CanonicalIffEqual(x, b.text);
    case JArray(items) =>
      forall k | 0 <= k < |items|
        ensures AnyContains(items, b.items[k]) && AnyContains(b.items, items[k])
      {
        EquivalentContain(items[k], b.items[k]);
      }
    case JObject(members) =>
      forall key | key in members
        ensures Contains(members[key], b.members[key]) && Contains(b.members[key], members[key])
      {
        EquivalentContain(members[key], b.members[key]);
      }
    case _ =>
  }

  lemma {:induction false} EquivalentSelf(a: Node)
    requires Printable(a)
    ensures Equivalent(a, a)
  {
    match a
    case JArray(items) =>
      forall k | 0 <= k < |items| { EquivalentSelf(items[k]); }
    case JObject(members) =>
      forall key | key in members { EquivalentSelf(members[key]); }
    case _ =>
  }

  /** Containment is reflexive exactly on documents whose numbers canonicalize. */
  lemma ContainsReflexive(a: Node)
    ensures Contains(a, a) <==> Printable(a)
  {
    if Printable(a) {
      EquivalentSelf(a);
      EquivalentContain(a, a);
    }
    if Contains(a, a) {
      ContainedIsPrintable(a, a);
    }
  }

  lemma {:induction false} ContainsTransitive(a: Node, b: Node, c: Node)
    requires Contains(a, b) && Contains(b, c)
    ensures Contains(a, c)
    decreases a
  {
    if a.JArray? && b.JArray? {
      if IsScalar(c) {
        assert AnyContains(b.items, c);
        var i :| 0 <= i < |b.items| && Contains(b.items[i], c);
        assert AnyContains(a.items, b.items[i]);
        var j :| 0 <= j < |a.items| && Contains(a.items[j], b.items[i]);
        ContainsTransitive(a.items[j], b.items[i], c);
      } else {
        forall k | 0 <= k < |c.items|
          ensures AnyContains(a.items, c.items[k])
        {
          assert AnyContains(b.items, c.items[k]);
          var i :| 0 <= i < |b.items| && Contains(b.items[i], c.items[k]);
          assert AnyContains(a.items, b.items[i]);
          var j :| 0 <= j < |a.items| && Contains(a.items[j], b.items[i]);
          ContainsTransitive(a.items[j], b.items[i], c.items[k]);
        }
      }
    } else if a.JArray? {
      var j :| 0 <= j < |a.items| && Contains(a.items[j], b);
      ContainsTransitive(a.items[j], b, c);
    } else if c.JObject? {
      forall key | key in c.members
        ensures key in a.members && Contains(a.members[key], c.members[key])
      {
        ContainsTransitive(a.members[key], b.members[key], c.members[key]);
      }
    }
  }

  /** Containment cannot tell equal documents apart. */
  lemma ContainsRespectsEquality(a: Node, a': Node, b: Node, b': Node)
    requires Equivalent(a, a') && Equivalent(b, b')
    ensures Contains(a, b) <==> Contains(a', b')
  {
    EquivalentContain(a, a');
    EquivalentContain(b, b');
    if Contains(a, b) {
      ContainsTransitive(a', a, b);
      ContainsTransitive(a', b, b');
    }
    if Contains(a', b') {
      ContainsTransitive(a, a', b');
      ContainsTransitive(a, b', b);
    }
  }

  // ---- leaves ----

  /** A scalar equal to `leaf` lies under these member keys, through any array elements. */
  ghost predicate Holds(n: Node, keys: seq<string>, leaf: Node)
    decreases n
  {
    match n
    case JArray(items) => exists k | 0 <= k < |items| :: Holds(items[k], keys, leaf)
    case JObject(members) => keys != [] && keys[0] in members && Holds(members[keys[0]], keys[1..], leaf)
    case _ => keys == [] && Equivalent(n, leaf)
  }

  /** Containing a scalar is holding one of equal value under no key. */
  lemma {:induction false} ContainsScalarIff(a: Node, leaf: Node)
    requires IsScalar(leaf)
    ensures Contains(a, leaf) <==> Holds(a, [], leaf)
    decreases a
  {
    match a
    case JArray(items) =>
      forall k | 0 <= k < |items|
        ensures Contains(items[k], leaf) <==> Holds(items[k], [], leaf)
      {
        ContainsScalarIff(items[k], leaf);
      }
    case JNumber(text) =>
      if leaf.JNumber? && CanonicalNumber(text).Ok? && CanonicalNumber(leaf.text).Ok? {
        CanonicalIffEqual(text, leaf.text);
      }
    case _ =>
  }

  lemma {:induction false} EquivalentHolds(a: Node, b: Node, leaf: Node)
    requires IsScalar(b) && Holds(a, [], b) && Equivalent(b, leaf)
    ensures Holds(a, [], leaf)
    decreases a
  {
    if a.JArray? {
      var k :| 0 <= k < |a.items| && Holds(a.items[k], [], b);
      EquivalentHolds(a.items[k], b, leaf);
    }
  }

  /** Every scalar of the contained document lies, with equal value and under the same keys, in the container. */
  lemma {:induction false} ContainedLeaves(a: Node, b: Node, keys: seq<string>, leaf: Node)
    requires Contains(a, b) && Holds(b, keys, leaf)
    ensures Holds(a, keys, leaf)
    decreases b
  {
    match b
    case JArray(items) =>
      var k :| 0 <= k < |items| && Holds(items[k], keys, leaf);
      assert AnyContains(a.items, items[k]);
      var j :| 0 <= j < |a.items| && Contains(a.items[j], items[k]);
      ContainedLeaves(a.items[j], items[k], keys, leaf);
    case JObject(members) =>
      ContainedLeaves(a.members[keys[0]], members[keys[0]], keys[1..], leaf);
    case _ =>
      ContainsScalarIff(a, b);
      EquivalentHolds(a, b, leaf);
  }

  // ---- concatenation ----

  function AsArray(n: Node): seq<Node> {
    if n.JArray? then n.items else [n]
  }

  /** jsonbConcatNodes: objects merge with the right one winning, everything else is joined as arrays. */
  function Concat(left: Node, right: Node): Node {
    if left.JObject? && right.JObject? then JObject(left.members + right.members)
    else JArray(AsArray(left) + AsArray(right))
  }

  /** Two objects give each key of either, with the right one's value where it has the key. */
  lemma ConcatMembers(left: map<string, Node>, right: map<string, Node>, key: string)
    ensures
      var joined := Concat(JObject(left), JObject(right));
      && joined.JObject?
      && (key in joined.members <==> key in left || key in right)
      && (key in right ==> joined.members[key] == right[key])
      && (key in left && key !in right ==> joined.members[key] == left[key])
  {
  }

  /** The elements an operand brings to an array: its own, or itself. */
  ghost predicate Brings(n: Node, items: seq<Node>, from: nat, to: nat) {
    && from <= to <= |items|
    && (n.JArray? ==> to - from == |n.items| && forall k | 0 <= k < |n.items| :: items[from + k] == n.items[k])
    && (!n.JArray? ==> to - from == 1 && items[from] == n)
  }

  /** Otherwise the left operand's elements come first and the right operand's follow. */
  lemma ConcatElements(left: Node, right: Node) returns (middle: nat)
    requires !(left.JObject? && right.JObject?)
    ensures Concat(left, right).JArray?
    ensures
      var items := Concat(left, right).items;
      Brings(left, items, 0, middle) && Brings(right, items, middle, |items|)
  {
    middle := |AsArray(left)|;
  }

  /** Grouping matters exactly when an object in the middle has an object on one side only. */
  lemma ConcatAssociativeIff(a: Node, b: Node, c: Node)
    ensures Concat(Concat(a, b), c) == Concat(a, Concat(b, c)) <==>
            (b.JObject? ==> (a.JObject? <==> c.JObject?))
  {
    var l, r := Concat(Concat(a, b), c), Concat(a, Concat(b, c));
    if b.JObject? && a.JObject? && !c.JObject? {
      assert |l.items| == 1 + |AsArray(c)| && |r.items| == 2 + |AsArray(c)|;
    } else if b.JObject? && !a.JObject? && c.JObject? {
      assert |l.items| == |AsArray(a)| + 2 && |r.items| == |AsArray(a)| + 1;
    } else if b.JObject? && a.JObject? {
      assert l.members == r.members;
    } else {
      assert l.items == r.items;
    }
  }

  lemma ConcatContains(a: Node, b: Node)
    requires Printable(b) && (b.JObject? ==> a.JObject?)
    ensures Contains(Concat(a, b), b)
  {
    var joined := Concat(a, b);
    match b
    case JObject(members) =>
      forall key | key in members
        ensures Contains(joined.members[key], members[key])
      {
        ContainsReflexive(members[key]);
      }
    case JArray(items) =>
      forall k | 0 <= k < |items|
        ensures AnyContains(joined.items, items[k])
      {
        ContainsReflexive(items[k]);
        assert joined.items[|AsArray(a)| + k] == items[k];
      }
    case _ =>
      ContainsReflexive(b);
      assert joined.items[|AsArray(a)|] == b;
  }

  /** `a || b` contains `b`, except when wrapping an object next to a non-object hides it in an array. */
  lemma ConcatContainsRight(a: Node, b: Node)
    ensures Contains(Concat(a, b), b) <==> Printable(b) && (b.JObject? ==> a.JObject?)
  {
    if Contains(Concat(a, b), b) {
      ContainedIsPrintable(Concat(a, b), b);
    }
    if Printable(b) && (b.JObject? ==> a.JObject?) {
      ConcatContains(a, b);
    }
  }

  // ---- jsonb_strip_nulls ----

  function StripNulls(n: Node): Node {
    match n
    case JObject(members) => JObject(map key | key in members && members[key] != JNull :: StripNulls(members[key]))
    case JArray(items) => JArray(seq(|items|, k requires 0 <= k < |items| => StripNulls(items[k])))
    case _ => n
  }

  /** No object member at any depth is null. */
  predicate NullFree(n: Node) {
    match n
    case JObject(members) => forall key <- members :: members[key] != JNull && NullFree(members[key])
    case JArray(items) => forall k | 0 <= k < |items| :: NullFree(items[k])
    case _ => true
  }

  lemma {:induction false} StripNullsIsNullFree(n: Node)
    ensures NullFree(StripNulls(n))
    ensures StripNulls(n) == JNull <==> n == JNull
  {
    match n
    case JObject(members) =>
      forall key | key in members { StripNullsIsNullFree(members[key]); }
    case JArray(items) =>
      forall k | 0 <= k < |items| { StripNullsIsNullFree(items[k]); }
    case _ =>
  }

  lemma {:induction false} StripNullsPrintable(n: Node)
    ensures Printable(StripNulls(n)) <==> Printable(n)
  {
    match n
    case JObject(members) =>
      forall key | key in members && members[key] != JNull
        ensures key in StripNulls(n).members
        ensures Printable(StripNulls(n).members[key]) <==> Printable(members[key])
      {
        StripNullsPrintable(members[key]);
      }
      if Printable(StripNulls(n)) {
        assert forall key | key in members && members[key] != JNull :: Printable(StripNulls(n).members[key]);
      }
    case JArray(items) =>
      forall k | 0 <= k < |items|
        ensures Printable(StripNulls(n).items[k]) <==> Printable(items[k])
      {
        StripNullsPrintable(items[k]);
      }
    case _ =>
  }

  lemma {:induction false} ContainsStripped(n: Node)
    requires Printable(n)
    ensures Contains(n, StripNulls(n))
  {
    match n
    case JObject(members) =>
      forall key | key in members { ContainsStripped(members[key]); }
    case JArray(items) =>
      forall k | 0 <= k < |items|
        ensures AnyContains(items, StripNulls(n).items[k])
      {
        ContainsStripped(items[k]);
      }
    case _ => ContainsReflexive(n);
  }

  /** A document contains its null-stripped form exactly when its numbers canonicalize. */
  lemma ContainsStrippedExactly(n: Node)
    ensures Contains(n, StripNulls(n)) <==> Printable(n)
  {
    StripNullsPrintable(n);
    if Printable(n) {
      ContainsStripped(n);
    }
    if Contains(n, StripNulls(n)) {
      ContainedIsPrintable(n, StripNulls(n));
    }
  }

  /** Stripping loses no scalar but null, and moves none. */
  lemma {:induction false} StripKeepsLeaves(n: Node, keys: seq<string>, leaf: Node)
    requires leaf != JNull
    ensures Holds(StripNulls(n), keys, leaf) <==> Holds(n, keys, leaf)
    decreases n
  {
    match n
    case JObject(members) =>
      if keys != [] && keys[0] in members {
        StripKeepsLeaves(members[keys[0]], keys[1..], leaf);
      }
    case JArray(items) =>
      var stripped := StripNulls(n).items;
      forall k | 0 <= k < |items|
        ensures Holds(stripped[k], keys, leaf) <==> Holds(items[k], keys, leaf)
      {
        StripKeepsLeaves(items[k], keys, leaf);
      }
    case _ =>
  }

  /** Stripping changes nothing on documents without null members, so a second pass is idle. */
  lemma {:induction false} NullFreeUnchanged(n: Node)
    requires NullFree(n)
    ensures StripNulls(n) == n
  {
    match n
    case JObject(members) =>
      forall key | key in members { NullFreeUnchanged(members[key]); }
    case JArray(items) =>
      forall k | 0 <= k < |items| { NullFreeUnchanged(items[k]); }
    case _ =>
  }
}
