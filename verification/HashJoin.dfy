/** INNER and LEFT JOIN by hashing rendered keys, against the nested loop over the same rows. Names are as
    they are spelled: keys and merged rows compare them exactly, the condition finds them up to case. */
module HashJoin {
  import opened Values
  import opened Expressions
  import opened KeyRendering
  import opened Spelling

  datatype Kind = Inner | Left

  datatype Source = Source(name: string, alias: string)

  // ---- merged rows ----

  function QualifiedKeys(row: Row, alias: string): set<Key> {
    if alias == "" then {} else set k | k in row.Keys && k.Bare? :: Qual(alias, k.col)
  }

  function AllKeys(left: Row, right: Row, leftAlias: string, rightAlias: string): set<Key> {
    left.Keys + right.Keys + QualifiedKeys(left, leftAlias) + QualifiedKeys(right, rightAlias)
  }

  /** mergeRows: an unqualified column of the left row wins, a qualified one of the right row. */
  function MergeRows(left: Row, right: Row, leftAlias: string, rightAlias: string): (merged: Row)
    ensures merged.Keys == AllKeys(left, right, leftAlias, rightAlias)
  {
    map k | k in AllKeys(left, right, leftAlias, rightAlias) ::
      if k.Bare? then (if k in left then left[k] else right[k])
      else if k in QualifiedKeys(right, rightAlias) then right[Bare(k.col)]
      else if k in right then right[k]
      else if k in QualifiedKeys(left, leftAlias) then left[Bare(k.col)]
      else left[k]
  }

  // ---- key extraction ----

  function LeftKey(ref: Ref, left: Source, right: Source): Option<Key> {
    if ref.tbl == "" || ref.tbl == left.alias || ref.tbl == left.name then Some(Bare(ref.col))
    else if ref.tbl != right.alias && ref.tbl != right.name then Some(Qual(ref.tbl, ref.col))
    else None
  }

  function RightKey(ref: Ref, right: Source): Option<Key> {
    if ref.tbl == "" || ref.tbl == right.alias || ref.tbl == right.name then Some(Bare(ref.col)) else None
  }

  /** The reference each key stands for is kept beside it. */
  datatype JoinKeys = JoinKeys(left: Key, leftRef: Ref, right: Key, rightRef: Ref)

  function KeysFor(l: Ref, r: Ref, left: Source, right: Source): Option<JoinKeys> {
    match (LeftKey(l, left, right), RightKey(r, right))
    case (Some(lk), Some(rk)) => Some(JoinKeys(lk, l, rk, r))
    case _ => None
  }

  /** extractEqualityJoinKeys: `column = column`, either way round. */
  function ExtractKeys(condition: Expr, left: Source, right: Source): (keys: Option<JoinKeys>)
    ensures keys.Some? ==> IsColumnEquality(condition)
  {
    if IsColumnEquality(condition) then
      var l := Ref(condition.left.table, condition.left.column);
      var r := Ref(condition.right.table, condition.right.column);
      var straight := KeysFor(l, r, left, right);
      if straight.Some? then straight else KeysFor(r, l, left, right)
    else None
  }

  // ---- what a join is ----

  function MatchesOf(left: Row, rights: seq<Row>, matches: (Row, Row) -> bool, merge: (Row, Row) -> Row): seq<Row> {
    if rights == [] then []
    else
      var n := |rights| - 1;
      MatchesOf(left, rights[..n], matches, merge) + (if matches(left, rights[n]) then [merge(left, rights[n])] else [])
  }

  function LeftRows(kind: Kind, left: Row, found: seq<Row>, merge: (Row, Row) -> Row, nullRight: Row): seq<Row> {
    if found == [] && kind.Left? then [merge(left, nullRight)] else found
  }

  /** The rows of a join whose pairs `matches` selects: left rows in order, and for each its
      right rows in order, or one NULL-extended row for a LEFT JOIN without a match. */
  function JoinRows(kind: Kind, lefts: seq<Row>, rights: seq<Row>, matches: (Row, Row) -> bool,
      merge: (Row, Row) -> Row, nullRight: Row): seq<Row>
  {
    if lefts == [] then []
    else
      var n := |lefts| - 1;
      JoinRows(kind, lefts[..n], rights, matches, merge, nullRight)
        + LeftRows(kind, lefts[n], MatchesOf(lefts[n], rights, matches, merge), merge, nullRight)
  }

  function Merging(leftAlias: string, rightAlias: string): (Row, Row) -> Row {
    (left, right) => MergeRows(left, right, leftAlias, rightAlias)
  }

  /** joinKeyString; a missing key has a text of its own. */
  function HashKey(lib: Library, row: Row, key: Key): string {
    if key in row then Render(lib, row[key]) else "\0"
  }

  function SameHash(lib: Library, keys: JoinKeys): (Row, Row) -> bool {
    (left, right) => HashKey(lib, left, keys.left) == HashKey(lib, right, keys.right)
  }

  predicate IsColumnEquality(condition: Expr) {
    condition.Binary? && condition.op == Eq && condition.left.ColumnRef? && condition.right.ColumnRef?
  }

  /** An ON condition that equates two columns, as a function of the merged row. */
  function Testing(reader: Reader, condition: Expr): Row -> Result<Value>
    requires IsColumnEquality(condition)
  {
    var l := Ref(condition.left.table, condition.left.column);
    var r := Ref(condition.right.table, condition.right.column);
    row => BinaryValue(reader.env.lib, Eq, ReadRef(reader, l, row), ReadRef(reader, r, row))
  }

  function TestHolds(test: Row -> Result<Value>, merge: (Row, Row) -> Row): (Row, Row) -> bool {
    (left, right) => test(merge(left, right)).Ok? && ToBool(test(merge(left, right)).value)
  }

  ghost predicate NoneFails(left: Row, rights: seq<Row>, test: Row -> Result<Value>, merge: (Row, Row) -> Row) {
    forall r <- rights :: test(merge(left, r)).Ok?
  }

  /** The ON condition fails on no pair. */
  ghost predicate NeverFails(test: Row -> Result<Value>, merge: (Row, Row) -> Row, lefts: seq<Row>, rights: seq<Row>) {
    forall l <- lefts :: NoneFails(l, rights, test, merge)
  }

  lemma NeverFailsNext(test: Row -> Result<Value>, merge: (Row, Row) -> Row, lefts: seq<Row>, i: nat, rights: seq<Row>)
    requires i < |lefts|
    ensures NeverFails(test, merge, lefts[..i + 1], rights)
       <==> NeverFails(test, merge, lefts[..i], rights) && NoneFails(lefts[i], rights, test, merge)
    ensures NeverFails(test, merge, lefts, rights) ==> NoneFails(lefts[i], rights, test, merge)
  {
    assert lefts[..i + 1] == lefts[..i] + [lefts[i]];
    assert lefts[i] in lefts;
  }

  lemma JoinRowsNext(kind: Kind, lefts: seq<Row>, i: nat, rights: seq<Row>, matches: (Row, Row) -> bool,
      merge: (Row, Row) -> Row, nullRight: Row)
    requires i < |lefts|
    ensures JoinRows(kind, lefts[..i + 1], rights, matches, merge, nullRight)
         == JoinRows(kind, lefts[..i], rights, matches, merge, nullRight)
          + LeftRows(kind, lefts[i], MatchesOf(lefts[i], rights, matches, merge), merge, nullRight)
  {
    assert lefts[..i + 1][..i] == lefts[..i];
  }

  // ---- the two algorithms ----

  method HashPath(lib: Library, kind: Kind, lefts: seq<Row>, rights: seq<Row>, keys: JoinKeys,
      merge: (Row, Row) -> Row, nullRight: Row)
    returns (result: seq<Row>)
    ensures result == JoinRows(kind, lefts, rights, SameHash(lib, keys), merge, nullRight)
  {
    var hashTable := BuildTable(lib, rights, keys.right);
    result := [];
    for i := 0 to |lefts|
      invariant result == JoinRows(kind, lefts[..i], rights, SameHash(lib, keys), merge, nullRight)
    {
      var left := lefts[i];
      var k := HashKey(lib, left, keys.left);
      var bucket := if k in hashTable then hashTable[k] else [];
      BucketMatches(lib, left, rights, keys, merge);
      assert bucket == Bucket(lib, rights, keys.right, k);
      JoinRowsNext(kind, lefts, i, rights, SameHash(lib, keys), merge, nullRight);
      if bucket == [] && kind.Left? {
        result := result + [merge(left, nullRight)];
      } else {
        var merged := EmitBucket(left, bucket, merge);
        result := result + merged;
      }
    }
    assert lefts[..|lefts|] == lefts;
  }

  method EmitBucket(left: Row, bucket: seq<Row>, merge: (Row, Row) -> Row) returns (merged: seq<Row>)
    ensures merged == MergeAll(left, bucket, merge)
  {
    merged := [];
    for j := 0 to |bucket|
      invariant merged == MergeAll(left, bucket[..j], merge)
    {
      assert bucket[..j + 1][..j] == bucket[..j];
      merged := merged + [merge(left, bucket[j])];
    }
    assert bucket[..|bucket|] == bucket;
  }

  function Bucket(lib: Library, rights: seq<Row>, key: Key, k: string): seq<Row> {
    if rights == [] then []
    else
      var n := |rights| - 1;
      Bucket(lib, rights[..n], key, k) + (if HashKey(lib, rights[n], key) == k then [rights[n]] else [])
  }

  function MergeAll(left: Row, rights: seq<Row>, merge: (Row, Row) -> Row): (merged: seq<Row>)
    ensures |merged| == |rights|
  {
    if rights == [] then []
    else
      var n := |rights| - 1;
      MergeAll(left, rights[..n], merge) + [merge(left, rights[n])]
  }

  /** A bucket holds the right rows the probing row matches, in order. */
  lemma {:induction false} BucketMatches(lib: Library, left: Row, rights: seq<Row>, keys: JoinKeys,
      merge: (Row, Row) -> Row)
    ensures MatchesOf(left, rights, SameHash(lib, keys), merge)
         == MergeAll(left, Bucket(lib, rights, keys.right, HashKey(lib, left, keys.left)), merge)
  {
    if rights != [] {
      var n := |rights| - 1;
      var k := HashKey(lib, left, keys.left);
      BucketMatches(lib, left, rights[..n], keys, merge);
      var before := Bucket(lib, rights[..n], keys.right, k);
      assert (before + [rights[n]])[..|before|] == before;
      assert before + [] == before;
    }
  }

  method BuildTable(lib: Library, rights: seq<Row>, key: Key) returns (table: map<string, seq<Row>>)
    ensures forall k: string ::
      if k in table then table[k] == Bucket(lib, rights, key, k) else Bucket(lib, rights, key, k) == []
  {
    table := map[];
    for i := 0 to |rights|
      invariant forall k: string ::
        if k in table then table[k] == Bucket(lib, rights[..i], key, k) else Bucket(lib, rights[..i], key, k) == []
    {
      assert rights[..i + 1][..i] == rights[..i];
      var k := HashKey(lib, rights[i], key);
      table := table[k := (if k in table then table[k] else []) + [rights[i]]];
    }
    assert rights[..|rights|] == rights;
  }

  method NestedLoop(kind: Kind, lefts: seq<Row>, rights: seq<Row>, test: Row -> Result<Value>,
      merge: (Row, Row) -> Row, nullRight: Row)
    returns (result: Result<seq<Row>>)
    ensures result.Ok? <==> NeverFails(test, merge, lefts, rights)
    ensures result.Ok? ==> result.value == JoinRows(kind, lefts, rights, TestHolds(test, merge), merge, nullRight)
  {
    ghost var holds := TestHolds(test, merge);
    var rows: seq<Row> := [];
    for i := 0 to |lefts|
      invariant rows == JoinRows(kind, lefts[..i], rights, holds, merge, nullRight)
      invariant NeverFails(test, merge, lefts[..i], rights)
    {
      JoinRowsNext(kind, lefts, i, rights, holds, merge, nullRight);
      var found := ScanRight(lefts[i], rights, test, merge);
      NeverFailsNext(test, merge, lefts, i, rights);
      if found.Err? {
        return Err(found.error);
      }
      if found.value == [] && kind.Left? {
        rows := rows + [merge(lefts[i], nullRight)];
      } else {
        rows := rows + found.value;
      }
    }
    assert lefts[..|lefts|] == lefts;
    result := Ok(rows);
  }

  method ScanRight(left: Row, rights: seq<Row>, test: Row -> Result<Value>, merge: (Row, Row) -> Row)
    returns (found: Result<seq<Row>>)
    ensures found.Ok? <==> NoneFails(left, rights, test, merge)
    ensures found.Ok? ==> found.value == MatchesOf(left, rights, TestHolds(test, merge), merge)
  {
    var rows: seq<Row> := [];
    for j := 0 to |rights|
      invariant rows == MatchesOf(left, rights[..j], TestHolds(test, merge), merge)
      invariant forall k :: 0 <= k < j ==> test(merge(left, rights[k])).Ok?
    {
      assert rights[..j + 1][..j] == rights[..j];
      var merged := merge(left, rights[j]);
      var v := test(merged);
      if v.Err? {
        assert rights[j] in rights;
        return Err(v.error);
      }
      if ToBool(v.value) {
        rows := rows + [merged];
      }
    }
    assert rights[..|rights|] == rights;
    found := Ok(rows);
  }

  // ---- when they agree ----

  /** Any two ways of selecting pairs that agree on every pair give the same join. */
  lemma {:induction false} SameMatches(left: Row, rights: seq<Row>, m: (Row, Row) -> bool, n: (Row, Row) -> bool,
      merge: (Row, Row) -> Row)
    requires forall r <- rights :: m(left, r) == n(left, r)
    ensures MatchesOf(left, rights, m, merge) == MatchesOf(left, rights, n, merge)
  {
    if rights != [] {
      var last := |rights| - 1;
      assert forall r <- rights[..last] :: r in rights;
      SameMatches(left, rights[..last], m, n, merge);
      assert rights[last] in rights;
    }
  }

  lemma {:induction false} SameJoin(kind: Kind, lefts: seq<Row>, rights: seq<Row>, m: (Row, Row) -> bool,
      n: (Row, Row) -> bool, merge: (Row, Row) -> Row, nullRight: Row)
    requires forall l, r | l in lefts && r in rights :: m(l, r) == n(l, r)
    ensures JoinRows(kind, lefts, rights, m, merge, nullRight) == JoinRows(kind, lefts, rights, n, merge, nullRight)
  {
    if lefts != [] {
      var last := |lefts| - 1;
      assert forall l <- lefts[..last] :: l in lefts;
      SameJoin(kind, lefts[..last], rights, m, n, merge, nullRight);
      assert lefts[last] in lefts;
      SameMatches(lefts[last], rights, m, n, merge);
    }
  }

  lemma {:induction false} MatchesMember(left: Row, rights: seq<Row>, m: (Row, Row) -> bool, merge: (Row, Row) -> Row,
      row: Row)
    ensures row in MatchesOf(left, rights, m, merge) <==> exists r <- rights :: m(left, r) && merge(left, r) == row
  {
    if rights != [] {
      var last := |rights| - 1;
      MatchesMember(left, rights[..last], m, merge, row);
      assert rights == rights[..last] + [rights[last]];
    }
  }

  /** A row of a join is a matching pair merged, or a NULL-extended left row. */
  lemma {:induction false} JoinMember(kind: Kind, lefts: seq<Row>, rights: seq<Row>, m: (Row, Row) -> bool,
      merge: (Row, Row) -> Row, nullRight: Row, row: Row)
    ensures row in JoinRows(kind, lefts, rights, m, merge, nullRight) ==>
      || (exists l <- lefts, r <- rights :: m(l, r) && merge(l, r) == row)
      || (kind.Left? && exists l <- lefts :: merge(l, nullRight) == row)
    ensures (exists l <- lefts, r <- rights :: m(l, r) && merge(l, r) == row)
      ==> row in JoinRows(kind, lefts, rights, m, merge, nullRight)
  {
    if lefts != [] {
      var last := |lefts| - 1;
      var left := lefts[last];
      assert left in lefts && forall l <- lefts[..last] :: l in lefts;
      JoinMember(kind, lefts[..last], rights, m, merge, nullRight, row);
      MatchesMember(left, rights, m, merge, row);
      assert lefts == lefts[..last] + [left];
    }
  }

  /** Whether a pair is selected can be told from the merged row. */
  ghost predicate Tells(m: (Row, Row) -> bool, merge: (Row, Row) -> Row, lefts: seq<Row>, rights: seq<Row>) {
    forall l, r | l in lefts && r in rights :: TellsPair(m, merge, lefts, rights, l, r)
  }

  ghost predicate TellsPair(m: (Row, Row) -> bool, merge: (Row, Row) -> Row, lefts: seq<Row>, rights: seq<Row>, l: Row,
      r: Row)
  {
    forall l', r' | l' in lefts && r' in rights && merge(l', r') == merge(l, r) :: m(l', r') == m(l, r)
  }

  ghost predicate SamePairs(m: (Row, Row) -> bool, n: (Row, Row) -> bool, lefts: seq<Row>, rights: seq<Row>) {
    forall l, r | l in lefts && r in rights :: m(l, r) == n(l, r)
  }

  ghost predicate NotExtended(merge: (Row, Row) -> Row, lefts: seq<Row>, nullRight: Row, row: Row) {
    forall l <- lefts :: merge(l, nullRight) != row
  }

  /** No selected pair looks like a NULL-extended row. */
  ghost predicate MatchesApart(m: (Row, Row) -> bool, merge: (Row, Row) -> Row, lefts: seq<Row>, rights: seq<Row>,
      nullRight: Row)
  {
    forall l, r | l in lefts && r in rights && m(l, r) :: NotExtended(merge, lefts, nullRight, merge(l, r))
  }

  /** Two selections that merged rows tell give the same join exactly when they select the same pairs. */
  lemma SelectionsIff(kind: Kind, lefts: seq<Row>, rights: seq<Row>, merge: (Row, Row) -> Row, nullRight: Row,
      m: (Row, Row) -> bool, n: (Row, Row) -> bool)
    requires Tells(m, merge, lefts, rights) && Tells(n, merge, lefts, rights)
    requires kind.Left? ==>
      MatchesApart(m, merge, lefts, rights, nullRight) && MatchesApart(n, merge, lefts, rights, nullRight)
    ensures JoinRows(kind, lefts, rights, m, merge, nullRight) == JoinRows(kind, lefts, rights, n, merge, nullRight)
       <==> SamePairs(m, n, lefts, rights)
  {
    if SamePairs(m, n, lefts, rights) {
      SameJoin(kind, lefts, rights, m, n, merge, nullRight);
    } else {
      var l, r :| l in lefts && r in rights && m(l, r) != n(l, r);
      assert TellsPair(m, merge, lefts, rights, l, r) && TellsPair(n, merge, lefts, rights, l, r);
      if m(l, r) {
        OnlyOnce(kind, lefts, rights, merge, nullRight, m, n, l, r);
      } else {
        OnlyOnce(kind, lefts, rights, merge, nullRight, n, m, l, r);
      }
    }
  }

  /** A pair that only one selection takes is a row of that join and not of the other. */
  lemma OnlyOnce(kind: Kind, lefts: seq<Row>, rights: seq<Row>, merge: (Row, Row) -> Row, nullRight: Row,
      m: (Row, Row) -> bool, n: (Row, Row) -> bool, l: Row, r: Row)
    requires l in lefts && r in rights && m(l, r) && !n(l, r)
    requires TellsPair(n, merge, lefts, rights, l, r)
    requires kind.Left? ==> NotExtended(merge, lefts, nullRight, merge(l, r))
    ensures JoinRows(kind, lefts, rights, m, merge, nullRight) != JoinRows(kind, lefts, rights, n, merge, nullRight)
  {
    JoinMember(kind, lefts, rights, m, merge, nullRight, merge(l, r));
    JoinMember(kind, lefts, rights, n, merge, nullRight, merge(l, r));
  }

  // ---- what the condition accepts ----

  function RefExpr(ref: Ref): Expr {
    ColumnRef(ref.tbl, ref.col)
  }

  lemma ExtractedShape(condition: Expr, from: Source, to: Source, keys: JoinKeys)
    requires ExtractKeys(condition, from, to) == Some(keys)
    ensures condition == Binary(Eq, RefExpr(keys.leftRef), RefExpr(keys.rightRef))
         || condition == Binary(Eq, RefExpr(keys.rightRef), RefExpr(keys.leftRef))
  {
  }

  /** Equal and neither of them NULL. */
  predicate Accepts(lib: Library, a: Value, b: Value) {
    a != Null && b != Null && Compare(lib, a, b) == 0
  }

  lemma EqualityValue(reader: Reader, l: Ref, r: Ref, row: Row)
    ensures var a, b := ReadRef(reader, l, row), ReadRef(reader, r, row);
      Testing(reader, Binary(Eq, RefExpr(l), RefExpr(r)))(row)
      == Ok(if a == Null || b == Null then Null else Bool(Compare(reader.env.lib, a, b) == 0))
  {
    var a, b := ReadRef(reader, l, row), ReadRef(reader, r, row);
    assert a != Null && b != Null ==>
      BinaryValue(reader.env.lib, Eq, a, b) == Ok(Bool(Compare(reader.env.lib, a, b) == 0));
  }

  /** On any row an extracted condition has a value, and accepts the row exactly when the values its
      two references have there are equal and not NULL. */
  lemma ConditionAccepts(reader: Reader, condition: Expr, from: Source, to: Source, keys: JoinKeys, row: Row)
    requires ExtractKeys(condition, from, to) == Some(keys)
    ensures var test := Testing(reader, condition)(row);
      test.Ok? && (ToBool(test.value) <==>
        Accepts(reader.env.lib, ReadRef(reader, keys.leftRef, row), ReadRef(reader, keys.rightRef, row)))
  {
    ExtractedShape(condition, from, to, keys);
    CompareZeroSymmetric(reader.env.lib, ReadRef(reader, keys.leftRef, row), ReadRef(reader, keys.rightRef, row));
    EqualityValue(reader, keys.leftRef, keys.rightRef, row);
    EqualityValue(reader, keys.rightRef, keys.leftRef, row);
  }

  // ---- the exact condition ----

  /** The rendered keys of a pair are equal exactly when the values the condition reads from the
      merged row are equal and not NULL. */
  predicate PairAgrees(reader: Reader, keys: JoinKeys, merge: (Row, Row) -> Row, left: Row, right: Row) {
    HashKey(reader.env.lib, left, keys.left) == HashKey(reader.env.lib, right, keys.right) <==>
    Accepts(reader.env.lib, ReadRef(reader, keys.leftRef, merge(left, right)),
      ReadRef(reader, keys.rightRef, merge(left, right)))
  }

  ghost predicate PairsAgree(reader: Reader, keys: JoinKeys, merge: (Row, Row) -> Row, lefts: seq<Row>,
      rights: seq<Row>)
  {
    forall l, r | l in lefts && r in rights :: PairAgrees(reader, keys, merge, l, r)
  }

  /** An extracted ON condition never fails, and the hash path returns the nested loop's row sequence
      exactly when every pair of a left and a right row agrees: for all rows, NULL keys, missing keys
      and chained references included, whose merged row tells whether the rendered keys are equal. A
      LEFT JOIN needs matched pairs not to look like NULL-extended rows. */
  lemma HashIsNestedIff(reader: Reader, kind: Kind, condition: Expr, from: Source, to: Source, keys: JoinKeys,
      lefts: seq<Row>, rights: seq<Row>, merge: (Row, Row) -> Row, nullRight: Row)
    requires ExtractKeys(condition, from, to) == Some(keys)
    requires Tells(SameHash(reader.env.lib, keys), merge, lefts, rights)
    requires kind.Left? ==>
      && MatchesApart(SameHash(reader.env.lib, keys), merge, lefts, rights, nullRight)
      && MatchesApart(TestHolds(Testing(reader, condition), merge), merge, lefts, rights, nullRight)
    ensures NeverFails(Testing(reader, condition), merge, lefts, rights)
    ensures
      JoinRows(kind, lefts, rights, SameHash(reader.env.lib, keys), merge, nullRight)
      == JoinRows(kind, lefts, rights, TestHolds(Testing(reader, condition), merge), merge, nullRight)
      <==> PairsAgree(reader, keys, merge, lefts, rights)
  {
    var hash, holds := SameHash(reader.env.lib, keys), TestHolds(Testing(reader, condition), merge);
    forall l, r | l in lefts && r in rights
      ensures Testing(reader, condition)(merge(l, r)).Ok?
      ensures hash(l, r) == holds(l, r) <==> PairAgrees(reader, keys, merge, l, r)
    {
      ConditionAccepts(reader, condition, from, to, keys, merge(l, r));
    }
    assert Tells(holds, merge, lefts, rights);
    SelectionsIff(kind, lefts, rights, merge, nullRight, hash, holds);
  }

  // ---- when merged rows tell the keys ----

  /** The column of a merged row that shows the left key. */
  function Shown(key: Key, leftAlias: string): Key {
    if key.Bare? && leftAlias != "" then Qual(leftAlias, key.col) else key
  }

  /** The merged row shows both keys: no row already has the column qualified by an alias that merging
      adds and, in a chain, where the left columns get no qualifier, the right row does not supply an
      unqualified column that the left row lacks. */
  predicate Told(keys: JoinKeys, left: Row, right: Row, leftAlias: string, rightAlias: string) {
    var shown := Shown(keys.left, leftAlias);
    && rightAlias != "" && leftAlias != rightAlias
    && keys.right.Bare? && Qual(rightAlias, keys.right.col) !in left && Qual(rightAlias, keys.right.col) !in right
    && (shown.Bare? ==> shown in left || shown !in right)
    && (shown.Qual? ==> shown !in right && shown.tbl != rightAlias)
    && (shown.Qual? ==> if keys.left.Bare? then shown !in left else shown.tbl != leftAlias)
  }

  lemma ToldShows(lib: Library, keys: JoinKeys, left: Row, right: Row, leftAlias: string, rightAlias: string)
    requires Told(keys, left, right, leftAlias, rightAlias)
    ensures var merged := MergeRows(left, right, leftAlias, rightAlias);
      && HashKey(lib, merged, Shown(keys.left, leftAlias)) == HashKey(lib, left, keys.left)
      && HashKey(lib, merged, Qual(rightAlias, keys.right.col)) == HashKey(lib, right, keys.right)
  {
    var shown := Shown(keys.left, leftAlias);
    assert Qual(rightAlias, keys.right.col) in QualifiedKeys(right, rightAlias) <==> keys.right in right;
    assert Qual(rightAlias, keys.right.col) !in QualifiedKeys(left, leftAlias);
    if shown.Qual? {
      assert shown !in QualifiedKeys(right, rightAlias);
      assert keys.left.Bare? ==> (shown in QualifiedKeys(left, leftAlias) <==> keys.left in left);
    }
  }

  ghost predicate AllTold(keys: JoinKeys, lefts: seq<Row>, rights: seq<Row>, leftAlias: string, rightAlias: string) {
    forall l, r | l in lefts && r in rights :: Told(keys, l, r, leftAlias, rightAlias)
  }

  lemma ToldTells(lib: Library, keys: JoinKeys, lefts: seq<Row>, rights: seq<Row>, leftAlias: string,
      rightAlias: string)
    requires AllTold(keys, lefts, rights, leftAlias, rightAlias)
    ensures Tells(SameHash(lib, keys), Merging(leftAlias, rightAlias), lefts, rights)
  {
    forall l, r | l in lefts && r in rights
      ensures var merged := MergeRows(l, r, leftAlias, rightAlias);
        SameHash(lib, keys)(l, r) == (HashKey(lib, merged, Shown(keys.left, leftAlias))
          == HashKey(lib, merged, Qual(rightAlias, keys.right.col)))
    {
      assert Told(keys, l, r, leftAlias, rightAlias);
      ToldShows(lib, keys, l, r, leftAlias, rightAlias);
    }
  }

  /** Every column is NULL, and none is qualified by the right alias. */
  predicate NullsOnly(nullRight: Row, rightAlias: string) {
    forall k <- nullRight :: nullRight[k] == Null && (k.Qual? ==> k.tbl != rightAlias)
  }

  predicate Unqualified(left: Row, rightAlias: string) {
    forall k <- left :: k.Qual? ==> k.tbl != rightAlias
  }

  predicate HasValue(row: Row) {
    exists k <- row :: k.Bare? && row[k] != Null
  }

  lemma ValueShows(left: Row, other: Row, right: Row, nullRight: Row, leftAlias: string, rightAlias: string)
    requires rightAlias != "" && leftAlias != rightAlias
    requires Unqualified(other, rightAlias) && NullsOnly(nullRight, rightAlias) && HasValue(right)
    ensures MergeRows(left, right, leftAlias, rightAlias) != MergeRows(other, nullRight, leftAlias, rightAlias)
  {
    var k :| k in right && k.Bare? && right[k] != Null;
    var shown := Qual(rightAlias, k.col);
    assert shown in QualifiedKeys(right, rightAlias);
    assert MergeRows(left, right, leftAlias, rightAlias)[shown] == right[k];
    assert shown !in other && shown !in nullRight && shown !in QualifiedKeys(other, leftAlias);
    assert shown in QualifiedKeys(nullRight, rightAlias) ==> nullRight[Bare(shown.col)] == Null;
  }

  /** No matched right row is all NULL. */
  ghost predicate MatchesHaveValues(m: (Row, Row) -> bool, lefts: seq<Row>, rights: seq<Row>) {
    forall l, r | l in lefts && r in rights && m(l, r) :: HasValue(r)
  }

  lemma ValuesApart(m: (Row, Row) -> bool, lefts: seq<Row>, rights: seq<Row>, nullRight: Row, leftAlias: string,
      rightAlias: string)
    requires rightAlias != "" && leftAlias != rightAlias
    requires forall l <- lefts :: Unqualified(l, rightAlias)
    requires NullsOnly(nullRight, rightAlias)
    requires MatchesHaveValues(m, lefts, rights)
    ensures MatchesApart(m, Merging(leftAlias, rightAlias), lefts, rights, nullRight)
  {
    forall l, r, other | l in lefts && r in rights && m(l, r) && other in lefts
      ensures MergeRows(l, r, leftAlias, rightAlias) != MergeRows(other, nullRight, leftAlias, rightAlias)
    {
      assert HasValue(r) && Unqualified(other, rightAlias);
      ValueShows(l, other, r, nullRight, leftAlias, rightAlias);
    }
  }

  /** The same for the rows of a join: the hash path returns the nested loop's row sequence exactly
      when every pair agrees. */
  lemma JoinPathsAgreeIff(reader: Reader, kind: Kind, condition: Expr, from: Source, to: Source, keys: JoinKeys,
      lefts: seq<Row>, rights: seq<Row>, leftAlias: string, rightAlias: string, nullRight: Row)
    requires ExtractKeys(condition, from, to) == Some(keys)
    requires AllTold(keys, lefts, rights, leftAlias, rightAlias)
    requires kind.Left? ==>
      && rightAlias != "" && leftAlias != rightAlias
      && (forall l <- lefts :: Unqualified(l, rightAlias))
      && NullsOnly(nullRight, rightAlias)
      && MatchesHaveValues(SameHash(reader.env.lib, keys), lefts, rights)
      && MatchesHaveValues(TestHolds(Testing(reader, condition), Merging(leftAlias, rightAlias)), lefts, rights)
    ensures var merge := Merging(leftAlias, rightAlias);
      JoinRows(kind, lefts, rights, SameHash(reader.env.lib, keys), merge, nullRight)
      == JoinRows(kind, lefts, rights, TestHolds(Testing(reader, condition), merge), merge, nullRight)
      <==> PairsAgree(reader, keys, merge, lefts, rights)
  {
    var merge := Merging(leftAlias, rightAlias);
    var hash, holds := SameHash(reader.env.lib, keys), TestHolds(Testing(reader, condition), merge);
    ToldTells(reader.env.lib, keys, lefts, rights, leftAlias, rightAlias);
    if kind.Left? {
      ValuesApart(hash, lefts, rights, nullRight, leftAlias, rightAlias);
      ValuesApart(holds, lefts, rights, nullRight, leftAlias, rightAlias);
    }
    HashIsNestedIff(reader, kind, condition, from, to, keys, lefts, rights, merge, nullRight);
  }

  // ---- what the references read ----

  /** Both references are qualified and spelled as in the rows; the left one names a column of the left row,
      whose value `read` it is, the right one the extracted key column of the right row. */
  predicate Qualified(reader: Reader, keys: JoinKeys, left: Row, right: Row, leftAlias: string, rightAlias: string,
      read: Value)
  {
    var l, r := keys.leftRef, keys.rightRef;
    && l.tbl != "" && l.tbl != rightAlias && Qual(l.tbl, l.col) !in right
    && (if leftAlias == l.tbl && Bare(l.col) in left then read == left[Bare(l.col)]
        else Qual(l.tbl, l.col) in left && read == left[Qual(l.tbl, l.col)])
    && keys.right == Bare(r.col) && keys.right in right
    && r.tbl == rightAlias != ""
    && FindSpelledOuter(reader, Qual(l.tbl, l.col)).None? && FindSpelledOuter(reader, Qual(r.tbl, r.col)).None?
  }

  lemma QualifiedLookups(reader: Reader, keys: JoinKeys, left: Row, right: Row, leftAlias: string, rightAlias: string,
      read: Value)
    requires Qualified(reader, keys, left, right, leftAlias, rightAlias, read)
    ensures var merged := MergeRows(left, right, leftAlias, rightAlias);
      ReadRef(reader, keys.leftRef, merged) == read && ReadRef(reader, keys.rightRef, merged) == right[keys.right]
  {
    var merged := MergeRows(left, right, leftAlias, rightAlias);
    var l, r := keys.leftRef, keys.rightRef;
    assert Qual(r.tbl, r.col) in QualifiedKeys(right, rightAlias);
    assert merged[Qual(r.tbl, r.col)] == right[keys.right];
    assert Qual(l.tbl, l.col) !in QualifiedKeys(right, rightAlias);
    assert Qual(l.tbl, l.col) in merged && merged[Qual(l.tbl, l.col)] == read by {
      if leftAlias == l.tbl && Bare(l.col) in left {
        assert Qual(l.tbl, l.col) in QualifiedKeys(left, leftAlias);
      } else {
        assert Qual(l.tbl, l.col) !in QualifiedKeys(left, leftAlias);
      }
    }
  }

  /** The condition compares `read` with the right key, the hash path the extracted left key. They
      differ in a chain a JOIN b JOIN c ON b.id = c.bid, where the extracted key is the unqualified
      `id`, which is a's, and `read` is b's. */
  lemma ChainAgreesIff(reader: Reader, keys: JoinKeys, left: Row, right: Row, leftAlias: string, rightAlias: string,
      read: Value)
    requires Qualified(reader, keys, left, right, leftAlias, rightAlias, read) && keys.left in left
    ensures PairAgrees(reader, keys, Merging(leftAlias, rightAlias), left, right)
       <==> (Render(reader.env.lib, left[keys.left]) == Render(reader.env.lib, right[keys.right])
             <==> Accepts(reader.env.lib, read, right[keys.right]))
  {
    QualifiedLookups(reader, keys, left, right, leftAlias, rightAlias, read);
  }

  /** Both join keys are there as they are spelled, and the condition's references read them from the merged row. */
  predicate Aligned(reader: Reader, keys: JoinKeys, left: Row, right: Row, leftAlias: string, rightAlias: string) {
    keys.left in left && Qualified(reader, keys, left, right, leftAlias, rightAlias, left[keys.left])
  }

  lemma AlignedLookups(reader: Reader, keys: JoinKeys, left: Row, right: Row, leftAlias: string, rightAlias: string)
    requires Aligned(reader, keys, left, right, leftAlias, rightAlias)
    ensures var merged := MergeRows(left, right, leftAlias, rightAlias);
      && ReadRef(reader, keys.leftRef, merged) == left[keys.left]
      && ReadRef(reader, keys.rightRef, merged) == right[keys.right]
  {
    QualifiedLookups(reader, keys, left, right, leftAlias, rightAlias, left[keys.left]);
  }

  /** On an aligned pair the condition compares the two keys; it is NULL if one of them is. */
  lemma ConditionComparesKeys(reader: Reader, condition: Expr, from: Source, to: Source, keys: JoinKeys,
      left: Row, right: Row, leftAlias: string, rightAlias: string)
    requires ExtractKeys(condition, from, to) == Some(keys)
    requires Aligned(reader, keys, left, right, leftAlias, rightAlias)
    ensures Testing(reader, condition)(MergeRows(left, right, leftAlias, rightAlias))
         == Ok(if left[keys.left] == Null || right[keys.right] == Null then Null
               else Bool(Compare(reader.env.lib, left[keys.left], right[keys.right]) == 0))
  {
    var merged := MergeRows(left, right, leftAlias, rightAlias);
    ExtractedShape(condition, from, to, keys);
    QualifiedLookups(reader, keys, left, right, leftAlias, rightAlias, left[keys.left]);
    CompareZeroSymmetric(reader.env.lib, left[keys.left], right[keys.right]);
    EqualityValue(reader, keys.leftRef, keys.rightRef, merged);
    EqualityValue(reader, keys.rightRef, keys.leftRef, merged);
  }

  /** An aligned pair agrees exactly when its keys, if neither is NULL, render alike if and only if they
      compare equal, and, if one is, render apart. NULL renders as "<nil>", so two NULL keys never agree. */
  lemma AlignedAgreesIff(reader: Reader, keys: JoinKeys, left: Row, right: Row, leftAlias: string, rightAlias: string)
    requires Aligned(reader, keys, left, right, leftAlias, rightAlias)
    ensures var a, b := left[keys.left], right[keys.right];
      PairAgrees(reader, keys, Merging(leftAlias, rightAlias), left, right) <==>
        if a == Null || b == Null then Render(reader.env.lib, a) != Render(reader.env.lib, b)
        else RendersLikeCompare(reader.env.lib, a, b)
  {
    QualifiedLookups(reader, keys, left, right, leftAlias, rightAlias, left[keys.left]);
  }

  ghost predicate AllAligned(reader: Reader, keys: JoinKeys, lefts: seq<Row>, rights: seq<Row>, leftAlias: string,
      rightAlias: string)
  {
    forall l, r | l in lefts && r in rights :: Aligned(reader, keys, l, r, leftAlias, rightAlias)
  }

  /** Aligned pairs tell their keys through the references. */
  lemma AlignedTells(reader: Reader, keys: JoinKeys, lefts: seq<Row>, rights: seq<Row>, leftAlias: string,
      rightAlias: string)
    requires AllAligned(reader, keys, lefts, rights, leftAlias, rightAlias)
    ensures Tells(SameHash(reader.env.lib, keys), Merging(leftAlias, rightAlias), lefts, rights)
  {
    forall l, r | l in lefts && r in rights
      ensures var merged := MergeRows(l, r, leftAlias, rightAlias);
        SameHash(reader.env.lib, keys)(l, r) == (Render(reader.env.lib, ReadRef(reader, keys.leftRef, merged))
          == Render(reader.env.lib, ReadRef(reader, keys.rightRef, merged)))
    {
      assert Aligned(reader, keys, l, r, leftAlias, rightAlias);
      QualifiedLookups(reader, keys, l, r, leftAlias, rightAlias, l[keys.left]);
    }
  }

  // ---- outside the condition ----

  /** Two NULL keys render alike, so the hash path joins them; the condition is NULL. */
  lemma NullKeysJoin(reader: Reader)
    requires reader.env.outer == None
    ensures var keys := JoinKeys(Bare("k"), Ref("a", "k"), Bare("k"), Ref("b", "k"));
      var condition := Binary(Eq, ColumnRef("a", "k"), ColumnRef("b", "k"));
      var row: Row := map[Bare("k") := Null];
      && ExtractKeys(condition, Source("a", "a"), Source("b", "b")) == Some(keys)
      && SameHash(reader.env.lib, keys)(row, row)
      && !TestHolds(Testing(reader, condition), Merging("a", "b"))(row, row)
  {
    var row: Row := map[Bare("k") := Null];
    var keys := JoinKeys(Bare("k"), Ref("a", "k"), Bare("k"), Ref("b", "k"));
    var condition := Binary(Eq, ColumnRef("a", "k"), ColumnRef("b", "k"));
    ConditionComparesKeys(reader, condition, Source("a", "a"), Source("b", "b"), keys, row, row, "a", "b");
  }

  /** Why a LEFT JOIN needs matched right rows not to be all NULL: here the hash path matches two NULL
      keys, the condition does not, and the NULL-extended row is the same row. */
  lemma AllNullRowHidesMatch(m: (Row, Row) -> bool, n: (Row, Row) -> bool, left: Row)
    ensures var nulls: Row := map[Bare("k") := Null];
      JoinRows(Left, [left], [nulls], m, Merging("a", "b"), nulls)
        == JoinRows(Left, [left], [nulls], n, Merging("a", "b"), nulls)
  {
    var nulls: Row := map[Bare("k") := Null];
    var merge := Merging("a", "b");
    assert [left][..0] == [] && [nulls][..0] == [];
    forall p: (Row, Row) -> bool
      ensures JoinRows(Left, [left], [nulls], p, merge, nulls) == [merge(left, nulls)]
    {
      assert MatchesOf(left, [nulls], p, merge) == if p(left, nulls) then [merge(left, nulls)] else [];
    }
  }

  /** In a chain a JOIN b JOIN c ON b.id = c.bid the key taken from the left row is the unqualified
      `id`, so the hash path misses pairs the condition accepts whenever a's and b's `id` differ. */
  lemma ChainReadsFirstTable(reader: Reader, left: Row, right: Row, i: Int64, j: Int64)
    requires reader.env.outer == None && i != j
    requires Bare("id") in left && left[Bare("id")] == Int(i)
    requires Qual("b", "id") in left && left[Qual("b", "id")] == Int(j)
    requires Bare("bid") in right && right[Bare("bid")] == Int(j) && Qual("b", "id") !in right
    ensures var keys := JoinKeys(Bare("id"), Ref("b", "id"), Bare("bid"), Ref("c", "bid"));
      var condition := Binary(Eq, ColumnRef("b", "id"), ColumnRef("c", "bid"));
      && ExtractKeys(condition, Source("b", "b"), Source("c", "c")) == Some(keys)
      && !SameHash(reader.env.lib, keys)(left, right)
      && TestHolds(Testing(reader, condition), Merging("", "c"))(left, right)
  {
    var keys := JoinKeys(Bare("id"), Ref("b", "id"), Bare("bid"), Ref("c", "bid"));
    var condition := Binary(Eq, ColumnRef("b", "id"), ColumnRef("c", "bid"));
    var merged := MergeRows(left, right, "", "c");
    QualifiedLookups(reader, keys, left, right, "", "c", Int(j));
    ConditionAccepts(reader, condition, Source("b", "b"), Source("c", "c"), keys, merged);
    if FormatInt(i) == FormatInt(j) {
      FormatIntInjective(i, j);
    }
  }

  // ---- names spelled in another case ----

  /** A key that its row does not have as it is spelled hashes to a text of its own, whatever the condition reads
      up to case: with one such key the pair agrees exactly when the condition does not accept it, unless the
      other key renders as that text; with two exactly when it does. */
  lemma MisspelledAgreesIff(reader: Reader, keys: JoinKeys, merge: (Row, Row) -> Row, left: Row, right: Row)
    requires keys.left !in left || keys.right !in right
    ensures
      var accepted := Accepts(reader.env.lib, ReadRef(reader, keys.leftRef, merge(left, right)),
        ReadRef(reader, keys.rightRef, merge(left, right)));
      var other := if keys.left in left then Some(left[keys.left]) else Find(right, keys.right);
      PairAgrees(reader, keys, merge, left, right) <==>
        (accepted <==> (other.Some? ==> Render(reader.env.lib, other.value) == "\0"))
  {
  }

  /** The spellings used below are of two columns in two tables. */
  ghost predicate FoldsCase(reader: Reader) {
    && Folds(reader) && reader.env.outer == None
    && reader.fold("ID") == reader.fold("id") && reader.fold("AID") == reader.fold("aid")
    && reader.fold("a") != reader.fold("b")
  }

  lemma SpelledMerge(left: Value, right: Value)
    ensures MergeRows(map[Bare("id") := left], map[Bare("aid") := right], "a", "b")
         == map[Bare("id") := left, Bare("aid") := right, Qual("a", "id") := left, Qual("b", "aid") := right]
  {
  }

  /** A qualified reference finds its column up to case. */
  lemma FindsUpToCase(reader: Reader, row: Row, key: Key, only: Key)
    requires Folds(reader) && only in row && SameName(reader, only, key)
    requires forall k <- row :: SameName(reader, k, key) ==> k == only
    ensures FindSpelled(reader, row, key) == Some(row[only])
  {
    assert Meets(reader, row, key);
  }

  lemma ReadsUpToCase(reader: Reader, left: Value, right: Value)
    requires FoldsCase(reader)
    ensures var merged := MergeRows(map[Bare("id") := left], map[Bare("aid") := right], "a", "b");
      && ReadRef(reader, Ref("a", "ID"), merged) == left
      && ReadRef(reader, Ref("b", "AID"), merged) == right && ReadRef(reader, Ref("b", "aid"), merged) == right
  {
    var merged := MergeRows(map[Bare("id") := left], map[Bare("aid") := right], "a", "b");
    SpelledMerge(left, right);
    FindsUpToCase(reader, merged, Qual("a", "ID"), Qual("a", "id"));
    FindsUpToCase(reader, merged, Qual("b", "AID"), Qual("b", "aid"));
  }

  lemma AcceptsUpToCase(reader: Reader, left: Value, right: Value, aid: string)
    requires FoldsCase(reader) && (aid == "aid" || aid == "AID")
    ensures TestHolds(Testing(reader, Binary(Eq, ColumnRef("a", "ID"), ColumnRef("b", aid))), Merging("a", "b"))
              (map[Bare("id") := left], map[Bare("aid") := right])
       <==> Accepts(reader.env.lib, left, right)
  {
    ReadsUpToCase(reader, left, right);
    EqualityValue(reader, Ref("a", "ID"), Ref("b", aid),
      MergeRows(map[Bare("id") := left], map[Bare("aid") := right], "a", "b"));
  }

  /** a JOIN b ON a.ID = b.aid, the columns being id and aid: the hash path finds no match for any left row, the
      condition accepts the equal ones. */
  lemma MisspelledKeyMisses(reader: Reader, i: Int64)
    requires FoldsCase(reader)
    ensures var keys := JoinKeys(Bare("ID"), Ref("a", "ID"), Bare("aid"), Ref("b", "aid"));
      var condition := Binary(Eq, ColumnRef("a", "ID"), ColumnRef("b", "aid"));
      var left, right: Row := map[Bare("id") := Int(i)], map[Bare("aid") := Int(i)];
      && ExtractKeys(condition, Source("a", "a"), Source("b", "b")) == Some(keys)
      && !SameHash(reader.env.lib, keys)(left, right)
      && TestHolds(Testing(reader, condition), Merging("a", "b"))(left, right)
  {
    AcceptsUpToCase(reader, Int(i), Int(i), "aid");
    NotNul(i);
  }

  lemma NotNul(i: int)
    ensures FormatInt(i) != "\0"
  {
    DigitsNonEmpty(if i < 0 then -i else i);
  }

  /** ON a.ID = b.AID: the hash path joins every pair. */
  lemma MisspelledKeysMultiply(reader: Reader, i: Int64, j: Int64)
    requires FoldsCase(reader) && reader.env.lib.intToFloat(i) != reader.env.lib.intToFloat(j)
    ensures var keys := JoinKeys(Bare("ID"), Ref("a", "ID"), Bare("AID"), Ref("b", "AID"));
      var condition := Binary(Eq, ColumnRef("a", "ID"), ColumnRef("b", "AID"));
      var left, right: Row := map[Bare("id") := Int(i)], map[Bare("aid") := Int(j)];
      && ExtractKeys(condition, Source("a", "a"), Source("b", "b")) == Some(keys)
      && SameHash(reader.env.lib, keys)(left, right)
      && !TestHolds(Testing(reader, condition), Merging("a", "b"))(left, right)
  {
    AcceptsUpToCase(reader, Int(i), Int(j), "AID");
  }
}
