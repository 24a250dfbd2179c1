/** The row order of ORDER BY: orderByLess on precomputed keys. */
module SortOrder {
  import opened Values

  datatype NullsOrder = NullsDefault | NullsFirst | NullsLast

  datatype OrderItem = OrderItem(desc: bool, nulls: NullsOrder)

  /** One value for each ORDER BY item. */
  type SortKey = seq<Value>

  predicate NullsComeFirst(item: OrderItem) {
    match item.nulls
    case NullsDefault => !item.desc
    case NullsFirst => true
    case NullsLast => false
  }

  /** orderByLess from item `i` on. */
  function OrderByLess(lib: Library, orderBy: seq<OrderItem>, a: SortKey, b: SortKey, i: nat): bool
    requires |a| == |b| == |orderBy| && i <= |orderBy|
    decreases |orderBy| - i
  {
    if i == |orderBy| then false
    else if a[i] == Null && b[i] == Null then OrderByLess(lib, orderBy, a, b, i + 1)
    else if a[i] == Null then NullsComeFirst(orderBy[i])
    else if b[i] == Null then !NullsComeFirst(orderBy[i])
    else
      var cmp := Compare(lib, a[i], b[i]);
      if cmp != 0 then (if orderBy[i].desc then cmp > 0 else cmp < 0)
      else OrderByLess(lib, orderBy, a, b, i + 1)
  }

  /** A column whose non-NULL values are all numbers, or all texts that are not. */
  predicate Fits(lib: Library, numeric: bool, v: Value) {
    v == Null || ToNumeric(lib, v).Some? == numeric
  }

  predicate KeyFits(lib: Library, numeric: seq<bool>, key: SortKey) {
    |key| == |numeric| && forall i :: 0 <= i < |key| ==> Fits(lib, numeric[i], key[i])
  }

  // ---- within a homogeneous column ----

  lemma CompareAntisymmetric(lib: Library, a: Value, b: Value)
    ensures Compare(lib, a, b) == -Compare(lib, b, a)
    ensures -1 <= Compare(lib, a, b) <= 1
  {
    CompareTextAntisymmetric(ToString(lib, a), ToString(lib, b));
  }

  lemma CompareTransitive(lib: Library, numeric: bool, a: Value, b: Value, c: Value)
    requires a != Null && b != Null && c != Null
    requires Fits(lib, numeric, a) && Fits(lib, numeric, b) && Fits(lib, numeric, c)
    requires Compare(lib, a, b) <= 0 && Compare(lib, b, c) <= 0
    ensures Compare(lib, a, c) <= 0
    ensures Compare(lib, a, c) == 0 ==> Compare(lib, a, b) == 0 && Compare(lib, b, c) == 0
  {
    if !numeric {
      var s, t, u := ToString(lib, a), ToString(lib, b), ToString(lib, c);
      CompareTextTransitive(s, t, u);
      CompareTextAntisymmetric(s, t);
      CompareTextAntisymmetric(t, u);
      CompareTextAntisymmetric(s, u);
    }
  }

  /** The three-way form of one item. */
  function ItemCompare(lib: Library, item: OrderItem, a: Value, b: Value): int {
    if a == Null && b == Null then 0
    else if a == Null then (if NullsComeFirst(item) then -1 else 1)
    else if b == Null then (if NullsComeFirst(item) then 1 else -1)
    else if item.desc then Compare(lib, b, a)
    else Compare(lib, a, b)
  }

  lemma ItemAntisymmetric(lib: Library, item: OrderItem, a: Value, b: Value)
    ensures ItemCompare(lib, item, a, b) == -ItemCompare(lib, item, b, a)
  {
    CompareAntisymmetric(lib, a, b);
  }

  lemma ItemTransitive(lib: Library, item: OrderItem, numeric: bool, a: Value, b: Value, c: Value)
    requires Fits(lib, numeric, a) && Fits(lib, numeric, b) && Fits(lib, numeric, c)
    requires ItemCompare(lib, item, a, b) <= 0 && ItemCompare(lib, item, b, c) <= 0
    ensures ItemCompare(lib, item, a, c) <= 0
    ensures ItemCompare(lib, item, a, c) == 0 ==> ItemCompare(lib, item, a, b) == 0 && ItemCompare(lib, item, b, c) == 0
  {
    if a != Null && b != Null && c != Null {
      if item.desc {
        CompareTransitive(lib, numeric, c, b, a);
      } else {
        CompareTransitive(lib, numeric, a, b, c);
      }
    }
  }

  lemma LessStep(lib: Library, orderBy: seq<OrderItem>, a: SortKey, b: SortKey, i: nat)
    requires |a| == |b| == |orderBy| && i < |orderBy|
    ensures var cmp := ItemCompare(lib, orderBy[i], a[i], b[i]);
      OrderByLess(lib, orderBy, a, b, i) == if cmp != 0 then cmp < 0 else OrderByLess(lib, orderBy, a, b, i + 1)
  {
    CompareAntisymmetric(lib, a[i], b[i]);
  }

  // ---- which row comes first, by the values ----

  /** Both NULL, or equal. */
  predicate Alike(lib: Library, v: Value, w: Value) {
    (v == Null && w == Null) || (v != Null && w != Null && Compare(lib, v, w) == 0)
  }

  /** Two keys differ first in item `i`. */
  ghost predicate DifferFirst(lib: Library, a: SortKey, b: SortKey, i: nat) {
    i < |a| && i < |b| && !Alike(lib, a[i], b[i]) && forall j :: 0 <= j < i ==> Alike(lib, a[j], b[j])
  }

  /** NULL before a value: if the item says so, or says nothing and is ascending. A value before NULL: if the
      item says NULLS LAST, or says nothing and is descending. Of two values the lesser comes first in an
      ascending item, the greater in a descending one. */
  predicate ComesFirst(lib: Library, item: OrderItem, v: Value, w: Value) {
    if v == Null then item.nulls.NullsFirst? || (item.nulls.NullsDefault? && !item.desc)
    else if w == Null then item.nulls.NullsLast? || (item.nulls.NullsDefault? && item.desc)
    else if item.desc then Compare(lib, v, w) > 0
    else Compare(lib, v, w) < 0
  }

  lemma {:induction false} LessFrom(lib: Library, orderBy: seq<OrderItem>, a: SortKey, b: SortKey, i: nat, from: nat)
    requires |a| == |b| == |orderBy| && from <= i && DifferFirst(lib, a, b, i)
    ensures OrderByLess(lib, orderBy, a, b, from) <==> ComesFirst(lib, orderBy[i], a[i], b[i])
    decreases i - from
  {
    if from < i {
      assert Alike(lib, a[from], b[from]);
      LessFrom(lib, orderBy, a, b, i, from + 1);
    }
  }

  lemma {:induction false} AlikeFrom(lib: Library, orderBy: seq<OrderItem>, a: SortKey, b: SortKey, from: nat)
    requires |a| == |b| == |orderBy| && from <= |orderBy|
    requires forall j :: 0 <= j < |a| ==> Alike(lib, a[j], b[j])
    ensures !OrderByLess(lib, orderBy, a, b, from)
    decreases |orderBy| - from
  {
    if from < |orderBy| {
      assert Alike(lib, a[from], b[from]);
      AlikeFrom(lib, orderBy, a, b, from + 1);
    }
  }

  /** orderByLess: the first item in which the keys differ decides, by its direction and NULLS option. */
  lemma LessMeans(lib: Library, orderBy: seq<OrderItem>, a: SortKey, b: SortKey)
    requires |a| == |b| == |orderBy|
    ensures forall i: nat :: DifferFirst(lib, a, b, i) ==>
      (OrderByLess(lib, orderBy, a, b, 0) <==> ComesFirst(lib, orderBy[i], a[i], b[i]))
    ensures (forall j :: 0 <= j < |a| ==> Alike(lib, a[j], b[j])) ==> !OrderByLess(lib, orderBy, a, b, 0)
  {
    forall i: nat | DifferFirst(lib, a, b, i)
      ensures OrderByLess(lib, orderBy, a, b, 0) <==> ComesFirst(lib, orderBy[i], a[i], b[i])
    {
      LessFrom(lib, orderBy, a, b, i, 0);
    }
    if forall j :: 0 <= j < |a| ==> Alike(lib, a[j], b[j]) {
      AlikeFrom(lib, orderBy, a, b, 0);
    }
  }

  lemma DiffersSymmetric(lib: Library, a: SortKey, b: SortKey, i: nat)
    requires |a| == |b|
    ensures DifferFirst(lib, a, b, i) <==> DifferFirst(lib, b, a, i)
  {
    forall j | 0 <= j < |a|
      ensures Alike(lib, a[j], b[j]) <==> Alike(lib, b[j], a[j])
    {
      CompareAntisymmetric(lib, a[j], b[j]);
    }
  }

  /** The key may stand before the other one. */
  ghost predicate MayPrecede(lib: Library, orderBy: seq<OrderItem>, a: SortKey, b: SortKey)
    requires |a| == |b| == |orderBy|
  {
    forall i: nat :: DifferFirst(lib, a, b, i) ==> ComesFirst(lib, orderBy[i], a[i], b[i])
  }

  /** A row that does not sort before another may stand after it. */
  lemma NotLessMayFollow(lib: Library, orderBy: seq<OrderItem>, a: SortKey, b: SortKey)
    requires |a| == |b| == |orderBy| && !OrderByLess(lib, orderBy, b, a, 0)
    ensures MayPrecede(lib, orderBy, a, b)
  {
    LessMeans(lib, orderBy, b, a);
    forall i: nat | DifferFirst(lib, a, b, i)
      ensures ComesFirst(lib, orderBy[i], a[i], b[i])
    {
      DiffersSymmetric(lib, a, b, i);
      CompareAntisymmetric(lib, a[i], b[i]);
      assert !ComesFirst(lib, orderBy[i], b[i], a[i]);
    }
  }

  // ---- orderByLess is a strict weak order ----

  lemma {:induction false} LessAsymmetric(lib: Library, orderBy: seq<OrderItem>, a: SortKey, b: SortKey, i: nat)
    requires |a| == |b| == |orderBy| && i <= |orderBy|
    ensures !(OrderByLess(lib, orderBy, a, b, i) && OrderByLess(lib, orderBy, b, a, i))
    decreases |orderBy| - i
  {
    if i < |orderBy| {
      LessStep(lib, orderBy, a, b, i);
      LessStep(lib, orderBy, b, a, i);
      ItemAntisymmetric(lib, orderBy[i], a[i], b[i]);
      LessAsymmetric(lib, orderBy, a, b, i + 1);
    }
  }

  /** With homogeneous columns, "not after" is transitive. */
  lemma {:induction false} NotAfterTransitive(lib: Library, orderBy: seq<OrderItem>, numeric: seq<bool>,
      a: SortKey, b: SortKey, c: SortKey, i: nat)
    requires KeyFits(lib, numeric, a) && KeyFits(lib, numeric, b) && KeyFits(lib, numeric, c)
    requires |numeric| == |orderBy| && i <= |orderBy|
    requires !OrderByLess(lib, orderBy, b, a, i) && !OrderByLess(lib, orderBy, c, b, i)
    ensures !OrderByLess(lib, orderBy, c, a, i)
    decreases |orderBy| - i
  {
    if i < |orderBy| {
      var item := orderBy[i];
      LessStep(lib, orderBy, b, a, i);
      LessStep(lib, orderBy, c, b, i);
      LessStep(lib, orderBy, c, a, i);
      ItemAntisymmetric(lib, item, a[i], b[i]);
      ItemAntisymmetric(lib, item, b[i], c[i]);
      ItemAntisymmetric(lib, item, a[i], c[i]);
      ItemTransitive(lib, item, numeric[i], a[i], b[i], c[i]);
      if ItemCompare(lib, item, a[i], c[i]) == 0 {
        NotAfterTransitive(lib, orderBy, numeric, a, b, c, i + 1);
      }
    }
  }

  /** A column mixing numbers with other texts can order three values in a circle. */
  lemma MixedColumnCycles(lib: Library)
    requires lib.intToFloat(2) < lib.intToFloat(10) && lib.parseFloat("1a") == None
    ensures var orderBy := [OrderItem(false, NullsDefault)];
      && OrderByLess(lib, orderBy, [Int(2)], [Int(10)], 0)
      && OrderByLess(lib, orderBy, [Int(10)], [Text("1a")], 0)
      && OrderByLess(lib, orderBy, [Text("1a")], [Int(2)], 0)
  {
    assert FormatInt(2) == "2" && FormatInt(10) == "10";
    assert CompareText("10", "1a") == CompareText("0", "a") == -1 by {
      assert "10"[1..] == "0" && "1a"[1..] == "a";
    }
    assert CompareText("1a", "2") == -1;
  }
}
