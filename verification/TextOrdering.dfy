/** The order of texts, character by character. */
module TextOrdering {
  import opened Values

  /** `a` is before `b` in a dictionary: where they first differ its character is less, or it ends there. */
  ghost predicate LexLess(a: string, b: string) {
    exists k: nat :: FirstDifference(a, b, k)
  }

  ghost predicate FirstDifference(a: string, b: string, k: nat) {
    && k <= |a| && k < |b| && a[..k] == b[..k]
    && (k < |a| ==> a[k] < b[k])
  }

  lemma {:induction false} CompareTextMeans(a: string, b: string)
    ensures CompareText(a, b) < 0 ==> LexLess(a, b)
    ensures CompareText(a, b) == 0 <==> a == b
    ensures CompareText(a, b) > 0 ==> LexLess(b, a)
  {
    CompareTextAntisymmetric(a, b);
    if a == [] || b == [] || a[0] != b[0] {
      assert a[..0] == b[..0];
      assert CompareText(a, b) < 0 ==> FirstDifference(a, b, 0);
      assert CompareText(a, b) > 0 ==> FirstDifference(b, a, 0);
    } else {
      CompareTextMeans(a[1..], b[1..]);
      if CompareText(a, b) < 0 {
        ExtendDifference(a, b);
      } else if CompareText(a, b) > 0 {
        ExtendDifference(b, a);
      }
    }
  }

  lemma ExtendDifference(a: string, b: string)
    requires a != [] && b != [] && a[0] == b[0] && LexLess(a[1..], b[1..])
    ensures LexLess(a, b)
  {
    var k: nat :| FirstDifference(a[1..], b[1..], k);
    assert a[..k + 1] == [a[0]] + a[1..][..k] && b[..k + 1] == [b[0]] + b[1..][..k];
    assert FirstDifference(a, b, k + 1);
  }

  lemma DifferencesApart(a: string, b: string, k: nat, m: nat)
    requires FirstDifference(a, b, k)
    ensures !FirstDifference(b, a, m) && a != b
  {
    if k < m && m <= |a| && m <= |b| {
      assert a[..m][k] == a[k] && b[..m][k] == b[k];
    } else if m < k {
      assert a[..k][m] == a[m] && b[..k][m] == b[m];
    }
  }

  lemma LexAsymmetric(a: string, b: string)
    requires LexLess(a, b)
    ensures !LexLess(b, a) && a != b
  {
    var k: nat :| FirstDifference(a, b, k);
    forall m: nat
      ensures !FirstDifference(b, a, m) && a != b
    {
      DifferencesApart(a, b, k, m);
    }
  }

  /** strings.Compare is the order of a dictionary. */
  lemma TextOrder(a: string, b: string)
    ensures CompareText(a, b) < 0 <==> LexLess(a, b)
    ensures CompareText(a, b) > 0 <==> LexLess(b, a)
    ensures CompareText(a, b) == 0 <==> a == b
  {
    CompareTextMeans(a, b);
    if LexLess(a, b) {
      LexAsymmetric(a, b);
    }
    if LexLess(b, a) {
      LexAsymmetric(b, a);
    }
  }
}
