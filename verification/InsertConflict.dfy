/** Conflict resolution of INSERT over a keyed table with unique indexes. */
module InsertConflict {
  import opened Values

  type Record = map<string, Value>

  type Key = seq<Value>

  /** A uniqueness constraint gives a row its key, or none when a component is missing or NULL. */
  type KeyOf = Record -> Option<Key>

  datatype Index = Index(key: KeyOf, unique: bool, onReplace: bool)

  datatype Schema = Schema(primaryKey: KeyOf, indexes: seq<Index>)

  /** The rows of a table under their primary keys. */
  type Rows = map<Key, Record>

  datatype Mode = Plain | OrIgnore | OrReplace | DoNothing

  // ---- columns ----

  /** The key a list of columns gives a row. */
  function ColumnKey(columns: seq<string>): KeyOf {
    row =>
      if forall c <- columns :: c in row && row[c] != Null
      then Some(seq(|columns|, i requires 0 <= i < |columns| => if columns[i] in row then row[columns[i]] else Null))
      else None
  }

  // ---- conflicts ----

  predicate SameKey(key: KeyOf, a: Record, b: Record) {
    key(a).Some? && key(a) == key(b)
  }

  /** Two rows share the key of a list of columns exactly when both have all of them, none of them NULL,
      and the same values. A NULL conflicts with nothing. */
  lemma SameColumnsIff(columns: seq<string>, a: Record, b: Record)
    ensures SameKey(ColumnKey(columns), a, b)
       <==> forall c <- columns :: c in a && c in b && a[c] != Null && a[c] == b[c]
  {
    if SameKey(ColumnKey(columns), a, b) {
      forall c <- columns
        ensures a[c] == b[c]
      {
        var i :| 0 <= i < |columns| && columns[i] == c;
        assert ColumnKey(columns)(a).value[i] == a[c] && ColumnKey(columns)(b).value[i] == b[c];
      }
    }
    if forall c <- columns :: c in a && c in b && a[c] != Null && a[c] == b[c] {
      var s, t := ColumnKey(columns)(a).value, ColumnKey(columns)(b).value;
      forall i | 0 <= i < |columns|
        ensures s[i] == t[i]
      {
        assert columns[i] in columns;
      }
      assert s == t;
    }
  }

  ghost predicate UniqueIndex(schema: Schema, index: Index) {
    index in schema.indexes && index.unique
  }

  /** Two rows that cannot be in the table together. */
  ghost predicate Conflicts(schema: Schema, a: Record, b: Record) {
    SameKey(schema.primaryKey, a, b) || exists index :: UniqueIndex(schema, index) && SameKey(index.key, a, b)
  }

  /** Every row sits under its primary key. */
  ghost predicate Keyed(schema: Schema, rows: Rows) {
    forall pk :: pk in rows ==> schema.primaryKey(rows[pk]) == Some(pk)
  }

  /** The primary key and the unique indexes hold. */
  ghost predicate Unique(schema: Schema, rows: Rows) {
    Keyed(schema, rows) && forall p, q :: p in rows && q in rows && p != q ==> !Conflicts(schema, rows[p], rows[q])
  }

  // ---- what the statements do ----

  /** The constraints whose conflicting rows are replaced: all for OR REPLACE, otherwise the
      unique indexes declared ON CONFLICT REPLACE. */
  ghost predicate ReplacesOn(schema: Schema, replace: bool, key: KeyOf) {
    || (replace && key == schema.primaryKey)
    || exists index :: UniqueIndex(schema, index) && (replace || index.onReplace) && index.key == key
  }

  ghost predicate Displaced(schema: Schema, replace: bool, candidate: Record, row: Record) {
    exists key :: ReplacesOn(schema, replace, key) && SameKey(key, candidate, row)
  }

  ghost function Remaining(schema: Schema, replace: bool, rows: Rows, candidate: Record): Rows {
    map pk | pk in rows && !Displaced(schema, replace, candidate, rows[pk]) :: rows[pk]
  }

  ghost predicate HasConflict(schema: Schema, rows: Rows, candidate: Record) {
    exists pk :: pk in rows && Conflicts(schema, candidate, rows[pk])
  }

  ghost predicate Skips(schema: Schema, mode: Mode, rows: Rows, candidate: Record) {
    (mode.OrIgnore? || mode.DoNothing?) && HasConflict(schema, rows, candidate)
  }

  /** The outcome of inserting one row. */
  ghost function Apply(schema: Schema, mode: Mode, rows: Rows, candidate: Record): Result<Rows> {
    if Skips(schema, mode, rows, candidate) then Ok(rows)
    else
      var rest := Remaining(schema, mode.OrReplace?, rows, candidate);
      if schema.primaryKey(candidate).None? then Err("NOT NULL constraint failed")
      else if HasConflict(schema, rest, candidate) then Err("UNIQUE constraint failed")
      else Ok(rest[schema.primaryKey(candidate).value := candidate])
  }

  lemma ConflictsSymmetric(schema: Schema, a: Record, b: Record)
    requires Conflicts(schema, a, b)
    ensures Conflicts(schema, b, a)
  {
    if !SameKey(schema.primaryKey, a, b) {
      var index :| UniqueIndex(schema, index) && SameKey(index.key, a, b);
      assert SameKey(index.key, b, a);
    }
  }

  /** Whatever an insert does, it keeps the constraints. */
  lemma ApplyKeepsUnique(schema: Schema, mode: Mode, rows: Rows, candidate: Record)
    requires Unique(schema, rows) && Apply(schema, mode, rows, candidate).Ok?
    ensures Unique(schema, Apply(schema, mode, rows, candidate).value)
  {
    if !Skips(schema, mode, rows, candidate) {
      var rest := Remaining(schema, mode.OrReplace?, rows, candidate);
      var pk := schema.primaryKey(candidate).value;
      var after := rest[pk := candidate];
      forall p, q | p in after && q in after && p != q
        ensures !Conflicts(schema, after[p], after[q])
      {
        if p == pk {
          assert q in rest;
        } else if q == pk {
          assert p in rest;
          if Conflicts(schema, after[p], after[q]) {
            ConflictsSymmetric(schema, after[p], after[q]);
          }
        }
      }
    }
  }

  /** OR REPLACE deletes exactly the conflicting rows, so the insert itself meets none. */
  lemma ReplaceDisplacesConflicts(schema: Schema, rows: Rows, candidate: Record)
    ensures forall row :: Displaced(schema, true, candidate, row) <==> Conflicts(schema, candidate, row)
    ensures !HasConflict(schema, Remaining(schema, true, rows, candidate), candidate)
    ensures Apply(schema, OrReplace, rows, candidate).Ok? <==> schema.primaryKey(candidate).Some?
  {
    forall row
      ensures Displaced(schema, true, candidate, row) <==> Conflicts(schema, candidate, row)
    {
      if Conflicts(schema, candidate, row) {
        if SameKey(schema.primaryKey, candidate, row) {
          assert ReplacesOn(schema, true, schema.primaryKey);
        } else {
          var index :| UniqueIndex(schema, index) && SameKey(index.key, candidate, row);
          assert ReplacesOn(schema, true, index.key);
        }
      }
    }
  }

  /** A run of OR REPLACE inserts that all have a primary key. */
  ghost function ReplaceRun(schema: Schema, rows: Rows, candidates: seq<Record>): Rows
    requires forall c <- candidates :: schema.primaryKey(c).Some?
  {
    if candidates == [] then rows
    else
      var n := |candidates| - 1;
      var before := ReplaceRun(schema, rows, candidates[..n]);
      Remaining(schema, true, before, candidates[n])[schema.primaryKey(candidates[n]).value := candidates[n]]
  }

  /** The row was there and no candidate displaced it, or it is a candidate that no later one
      displaced. */
  ghost predicate Survives(schema: Schema, rows: Rows, candidates: seq<Record>, row: Record) {
    || ((exists pk :: pk in rows && rows[pk] == row) && forall c <- candidates :: !Conflicts(schema, c, row))
    || exists i :: LastWord(schema, candidates, row, i)
  }

  ghost predicate LastWord(schema: Schema, candidates: seq<Record>, row: Record, i: nat) {
    && i < |candidates| && candidates[i] == row
    && forall j :: i < j < |candidates| ==> !Conflicts(schema, candidates[j], row)
  }

  ghost predicate Holds(rows: Rows, row: Record) {
    exists pk :: pk in rows && rows[pk] == row
  }

  /** After any run of OR REPLACE inserts the table holds exactly the surviving rows. */
  lemma {:induction false} ReplaceRunHolds(schema: Schema, rows: Rows, candidates: seq<Record>, row: Record)
    requires Unique(schema, rows)
    requires forall c <- candidates :: schema.primaryKey(c).Some?
    ensures Unique(schema, ReplaceRun(schema, rows, candidates))
    ensures Holds(ReplaceRun(schema, rows, candidates), row) <==> Survives(schema, rows, candidates, row)
  {
    if candidates != [] {
      var n := |candidates| - 1;
      var last, earlier := candidates[n], candidates[..n];
      assert candidates == earlier + [last] && last in candidates;
      assert forall c <- earlier :: c in candidates;
      ReplaceRunHolds(schema, rows, earlier, row);
      OneReplace(schema, ReplaceRun(schema, rows, earlier), last, row);
      SurvivesStep(schema, rows, earlier, last, row);
    }
  }

  lemma OneReplace(schema: Schema, rows: Rows, candidate: Record, row: Record)
    requires Unique(schema, rows) && schema.primaryKey(candidate).Some?
    ensures var after := Remaining(schema, true, rows, candidate)[schema.primaryKey(candidate).value := candidate];
      && Unique(schema, after)
      && (Holds(after, row) <==> row == candidate || (Holds(rows, row) && !Conflicts(schema, candidate, row)))
  {
    ReplaceDisplacesConflicts(schema, rows, candidate);
    ApplyKeepsUnique(schema, OrReplace, rows, candidate);
    var pk := schema.primaryKey(candidate).value;
    var after := Remaining(schema, true, rows, candidate)[pk := candidate];
    if row == candidate {
      assert pk in after && after[pk] == row;
    } else if Holds(rows, row) && !Conflicts(schema, candidate, row) {
      var p :| p in rows && rows[p] == row;
      assert schema.primaryKey(row) == Some(p);
      assert p in after && after[p] == row;
    }
  }

  lemma SurvivesStep(schema: Schema, rows: Rows, earlier: seq<Record>, last: Record, row: Record)
    requires schema.primaryKey(last).Some?
    ensures Survives(schema, rows, earlier + [last], row)
       <==> row == last || (Survives(schema, rows, earlier, row) && !Conflicts(schema, last, row))
  {
    var all, n := earlier + [last], |earlier|;
    assert all[n] == last && last in all;
    assert forall c :: c in all <==> c in earlier || c == last;
    if row == last {
      assert LastWord(schema, all, row, n);
    } else {
      forall i: nat
        ensures LastWord(schema, all, row, i) <==> LastWord(schema, earlier, row, i) && !Conflicts(schema, last, row)
      {
        assert forall j :: 0 <= j < n ==> all[j] == earlier[j];
      }
    }
  }

  // ---- what the modes mean ----

  /** Some row of the table conflicts with the candidate. */
  ghost predicate Meets(schema: Schema, rows: Rows, candidate: Record) {
    exists row :: Holds(rows, row) && Conflicts(schema, candidate, row)
  }

  /** The candidate shares the key of a unique index declared ON CONFLICT REPLACE. */
  ghost predicate MeetsReplacing(schema: Schema, candidate: Record, row: Record) {
    exists index :: UniqueIndex(schema, index) && index.onReplace && SameKey(index.key, candidate, row)
  }

  /** `after` holds the candidate and the rows of `rows` that are not dropped. */
  ghost predicate Gains(rows: Rows, candidate: Record, dropped: Record -> bool, after: Rows) {
    forall row :: Holds(after, row) <==> row == candidate || (Holds(rows, row) && !dropped(row))
  }

  /** What each mode promises of one row: whether it succeeds, whether it inserts, what the table then holds. */
  ghost predicate Promised(schema: Schema, mode: Mode, rows: Rows, candidate: Record, ok: bool, inserted: bool,
      after: Rows)
  {
    var hasKey := schema.primaryKey(candidate).Some?;
    match mode
    case OrIgnore => IgnoresConflict(schema, rows, candidate, ok, inserted, after)
    case DoNothing => IgnoresConflict(schema, rows, candidate, ok, inserted, after)
    case OrReplace =>
      && (ok <==> hasKey)
      && (ok ==> inserted && Gains(rows, candidate, row => Conflicts(schema, candidate, row), after))
    case Plain =>
      && (ok <==> hasKey && forall row :: Holds(rows, row) && Conflicts(schema, candidate, row) ==>
            MeetsReplacing(schema, candidate, row))
      && (ok ==> inserted && Gains(rows, candidate, row => Conflicts(schema, candidate, row), after))
  }

  ghost predicate IgnoresConflict(schema: Schema, rows: Rows, candidate: Record, ok: bool, inserted: bool, after: Rows)
  {
    if Meets(schema, rows, candidate) then ok && !inserted && after == rows
    else
      && (ok <==> schema.primaryKey(candidate).Some?)
      && (ok ==> inserted && Gains(rows, candidate, row => false, after))
  }

  lemma MeetsIsConflict(schema: Schema, rows: Rows, candidate: Record)
    ensures Meets(schema, rows, candidate) <==> HasConflict(schema, rows, candidate)
  {
    if HasConflict(schema, rows, candidate) {
      var pk :| pk in rows && Conflicts(schema, candidate, rows[pk]);
      assert Holds(rows, rows[pk]);
    }
  }

  lemma ReplacingDisplaces(schema: Schema, candidate: Record, row: Record)
    ensures Displaced(schema, false, candidate, row) <==> MeetsReplacing(schema, candidate, row)
    ensures Displaced(schema, false, candidate, row) ==> Conflicts(schema, candidate, row)
  {
    if MeetsReplacing(schema, candidate, row) {
      var index :| UniqueIndex(schema, index) && index.onReplace && SameKey(index.key, candidate, row);
      assert ReplacesOn(schema, false, index.key);
    }
  }

  /** What is held after the rows displaced are gone and the candidate is in. */
  lemma InsertedHolds(schema: Schema, replace: bool, rows: Rows, candidate: Record, row: Record)
    requires Unique(schema, rows) && schema.primaryKey(candidate).Some?
    requires !HasConflict(schema, Remaining(schema, replace, rows, candidate), candidate)
    ensures
      var after := Remaining(schema, replace, rows, candidate)[schema.primaryKey(candidate).value := candidate];
      Holds(after, row) <==> row == candidate || (Holds(rows, row) && !Displaced(schema, replace, candidate, row))
  {
    var pk := schema.primaryKey(candidate).value;
    var rest := Remaining(schema, replace, rows, candidate);
    var after := rest[pk := candidate];
    if row == candidate {
      assert pk in after && after[pk] == row;
    } else if Holds(rows, row) && !Displaced(schema, replace, candidate, row) {
      var p :| p in rows && rows[p] == row;
      assert p in rest && schema.primaryKey(row) == Some(p);
      assert !Conflicts(schema, candidate, rest[p]);
      assert p in after && after[p] == row;
    }
  }

  /** After the displaced rows are gone a conflict is left exactly when some conflicting row was not displaced. */
  lemma RemainingConflict(schema: Schema, replace: bool, rows: Rows, candidate: Record)
    ensures HasConflict(schema, Remaining(schema, replace, rows, candidate), candidate)
       <==> exists row :: Holds(rows, row) && Conflicts(schema, candidate, row)
                          && !Displaced(schema, replace, candidate, row)
  {
    var rest := Remaining(schema, replace, rows, candidate);
    if HasConflict(schema, rest, candidate) {
      var pk :| pk in rest && Conflicts(schema, candidate, rest[pk]);
      assert Holds(rows, rest[pk]);
    }
    if row :| Holds(rows, row) && Conflicts(schema, candidate, row) && !Displaced(schema, replace, candidate, row) {
      var pk :| pk in rows && rows[pk] == row;
      assert pk in rest;
    }
  }

  /** The one-row meaning keeps what the mode promises. */
  lemma ApplyPromised(schema: Schema, mode: Mode, rows: Rows, candidate: Record)
    requires Unique(schema, rows)
    ensures
      var result := Apply(schema, mode, rows, candidate);
      Promised(schema, mode, rows, candidate, result.Ok?, !Skips(schema, mode, rows, candidate),
               if result.Ok? then result.value else rows)
  {
    MeetsIsConflict(schema, rows, candidate);
    if !Skips(schema, mode, rows, candidate) {
      var replace := mode.OrReplace?;
      RemainingConflict(schema, replace, rows, candidate);
      ReplaceDisplacesConflicts(schema, rows, candidate);
      forall row
        ensures !replace ==> (Displaced(schema, replace, candidate, row) <==> MeetsReplacing(schema, candidate, row))
        ensures Displaced(schema, replace, candidate, row) ==> Conflicts(schema, candidate, row)
      {
        ReplacingDisplaces(schema, candidate, row);
      }
      if Apply(schema, mode, rows, candidate).Ok? {
        forall row {
          InsertedHolds(schema, replace, rows, candidate, row);
        }
      }
    }
  }

  // ---- the table ----

  /** One uniqueness constraint to look a candidate up in. */
  datatype Matcher = PrimaryKey | OnIndex(index: Index)

  class Table {
    const schema: Schema
    var rows: Rows

    constructor (schema: Schema)
      ensures this.schema == schema && rows == map[] && Valid()
    {
      this.schema, rows := schema, map[];
    }

    ghost predicate Valid()
      reads this
    {
      Unique(schema, rows)
    }

    ghost function KeyFor(m: Matcher): KeyOf {
      match m
      case PrimaryKey => schema.primaryKey
      case OnIndex(index) => index.key
    }

    /** The matchers of the primary key, for OR REPLACE, and of the first `n` indexes. */
    ghost predicate Listed(replace: bool, n: nat, m: Matcher) {
      || (replace && m == PrimaryKey)
      || exists j: nat :: j < n && j < |schema.indexes| && ListedAt(replace, j, m)
    }

    ghost predicate ListedAt(replace: bool, j: nat, m: Matcher)
      requires j < |schema.indexes|
    {
      var index := schema.indexes[j];
      index.unique && (replace || index.onReplace) && m == OnIndex(index)
    }

    /** insertConflictMatchers. */
    method InsertConflictMatchers(replace: bool) returns (matchers: seq<Matcher>)
      ensures forall key :: ReplacesOn(schema, replace, key) <==> exists m <- matchers :: KeyFor(m) == key
    {
      matchers := if replace then [PrimaryKey] else [];
      for i := 0 to |schema.indexes|
        invariant forall m <- matchers :: Listed(replace, i, m)
        invariant forall m :: Listed(replace, i, m) ==> m in matchers
      {
        var index := schema.indexes[i];
        if index.unique && (replace || index.onReplace) {
          matchers := matchers + [OnIndex(index)];
          assert ListedAt(replace, i, OnIndex(index));
        }
      }
      forall m <- matchers
        ensures ReplacesOn(schema, replace, KeyFor(m))
      {
        if m.OnIndex? {
          var j: nat :| j < |schema.indexes| && ListedAt(replace, j, m);
          assert UniqueIndex(schema, schema.indexes[j]);
        }
      }
      forall key | ReplacesOn(schema, replace, key)
        ensures exists m <- matchers :: KeyFor(m) == key
      {
        if replace && key == schema.primaryKey {
          assert Listed(replace, |schema.indexes|, PrimaryKey) && KeyFor(PrimaryKey) == key;
        } else {
          var index :| UniqueIndex(schema, index) && (replace || index.onReplace) && index.key == key;
          var j: nat :| j < |schema.indexes| && schema.indexes[j] == index;
          assert ListedAt(replace, j, OnIndex(index)) && KeyFor(OnIndex(index)) == key;
        }
      }
    }

    /** matcherConflicts: the primary keys of the rows sharing the candidate's key. A candidate
        without one conflicts with nothing. */
    method MatcherConflicts(m: Matcher, candidate: Record) returns (found: set<Key>)
      requires Valid()
      ensures forall pk :: pk in found <==> pk in rows && SameKey(KeyFor(m), candidate, rows[pk])
    {
      match m
      case PrimaryKey =>
        var pk := schema.primaryKey(candidate);
        if pk.None? {
          return {};
        }
        found := if pk.value in rows then {pk.value} else {};
        assert forall p :: p in rows ==> schema.primaryKey(rows[p]) == Some(p);
      case OnIndex(index) =>
        var key := index.key(candidate);
        if key.None? {
          return {};
        }
        found := SelectByIndexKey(index, key.value);
    }

    /** The exact index lookup of the storage layer. */
    method SelectByIndexKey(index: Index, key: Key) returns (found: set<Key>)
      ensures forall pk :: pk in found <==> pk in rows && index.key(rows[pk]) == Some(key)
    {
      found := set pk | pk in rows && index.key(rows[pk]) == Some(key);
    }

    /** hasAnyInsertConflict. */
    method HasAnyInsertConflict(candidate: Record) returns (conflict: bool)
      requires Valid()
      ensures conflict <==> HasConflict(schema, rows, candidate)
    {
      var byKey := MatcherConflicts(PrimaryKey, candidate);
      if byKey != {} {
        var pk :| pk in byKey;
        assert Conflicts(schema, candidate, rows[pk]);
        return true;
      }
      for i := 0 to |schema.indexes|
        invariant forall j: nat :: j < i && schema.indexes[j].unique ==> NoneShares(schema.indexes[j].key, candidate)
      {
        var index := schema.indexes[i];
        if index.unique {
          var found := MatcherConflicts(OnIndex(index), candidate);
          if found != {} {
            var pk :| pk in found;
            assert UniqueIndex(schema, index) && Conflicts(schema, candidate, rows[pk]);
            return true;
          }
        }
      }
      conflict := false;
      forall index | UniqueIndex(schema, index)
        ensures NoneShares(index.key, candidate)
      {
        var j: nat :| j < |schema.indexes| && schema.indexes[j] == index;
      }
      assert NoneShares(schema.primaryKey, candidate);
    }

    ghost predicate NoneShares(key: KeyOf, candidate: Record)
      reads this
    {
      forall pk :: pk in rows ==> !SameKey(key, candidate, rows[pk])
    }

    /** The conflicting rows of every matcher. */
    method CollectConflicts(candidate: Record, replace: bool) returns (toDelete: set<Key>)
      requires Valid()
      ensures forall pk :: pk in toDelete <==> pk in rows && Displaced(schema, replace, candidate, rows[pk])
    {
      var matchers := InsertConflictMatchers(replace);
      toDelete := {};
      for i := 0 to |matchers|
        invariant forall pk :: pk in toDelete <==>
          pk in rows && exists m <- matchers[..i] :: SameKey(KeyFor(m), candidate, rows[pk])
      {
        assert matchers[..i + 1] == matchers[..i] + [matchers[i]];
        var found := MatcherConflicts(matchers[i], candidate);
        toDelete := toDelete + found;
      }
      assert matchers[..|matchers|] == matchers;
      forall pk | pk in rows
        ensures (exists m <- matchers :: SameKey(KeyFor(m), candidate, rows[pk])) <==>
          Displaced(schema, replace, candidate, rows[pk])
      {
        MatchersDisplace(replace, matchers, candidate, rows[pk]);
      }
    }

    lemma MatchersDisplace(replace: bool, matchers: seq<Matcher>, candidate: Record, row: Record)
      requires forall key :: ReplacesOn(schema, replace, key) <==> exists m <- matchers :: KeyFor(m) == key
      ensures (exists m <- matchers :: SameKey(KeyFor(m), candidate, row)) <==>
        Displaced(schema, replace, candidate, row)
    {
      if exists m <- matchers :: SameKey(KeyFor(m), candidate, row) {
        var m :| m in matchers && SameKey(KeyFor(m), candidate, row);
        assert ReplacesOn(schema, replace, KeyFor(m));
      }
      if Displaced(schema, replace, candidate, row) {
        var key :| ReplacesOn(schema, replace, key) && SameKey(key, candidate, row);
        var m :| m in matchers && KeyFor(m) == key;
      }
    }

    /** resolveInsertConflicts: collects the conflicting rows, then deletes them by primary key. */
    method ResolveInsertConflicts(candidate: Record, replace: bool)
      requires Valid()
      modifies this
      ensures rows == Remaining(schema, replace, old(rows), candidate) && Valid()
    {
      var toDelete := CollectConflicts(candidate, replace);
      var pending := toDelete;
      while pending != {}
        invariant pending <= toDelete && toDelete <= old(rows).Keys
        invariant rows == old(rows) - (toDelete - pending)
        decreases pending
      {
        var pk :| pk in pending;
        rows := rows - {pk};
        pending := pending - {pk};
      }
    }

    /** InsertWithRowID: rejects a missing primary key and any conflict. */
    method InsertWithRowID(row: Record) returns (result: Result<()>)
      requires Valid()
      modifies this
      ensures Valid()
      ensures result.Ok? <==> schema.primaryKey(row).Some? && !HasConflict(schema, old(rows), row)
      ensures rows == if result.Ok? then old(rows)[schema.primaryKey(row).value := row] else old(rows)
    {
      var pk := schema.primaryKey(row);
      if pk.None? {
        return Err("NOT NULL constraint failed");
      }
      var conflict := HasAnyInsertConflict(row);
      if conflict {
        return Err("UNIQUE constraint failed");
      }
      rows := rows[pk.value := row];
      forall p, q | p in rows && q in rows && p != q
        ensures !Conflicts(schema, rows[p], rows[q])
      {
        if q == pk.value && Conflicts(schema, rows[p], rows[q]) {
          ConflictsSymmetric(schema, rows[p], rows[q]);
        }
      }
      result := Ok(());
    }

    /** insertOneRow for a statement without a conflict target. */
    method InsertOneRow(mode: Mode, row: Record) returns (result: Result<bool>)
      requires Valid()
      modifies this
      ensures Valid()
      ensures result.Ok? <==> Apply(schema, mode, old(rows), row).Ok?
      ensures result.Ok? ==> rows == Apply(schema, mode, old(rows), row).value
      ensures result.Ok? ==> (result.value <==> !Skips(schema, mode, old(rows), row))
      ensures Promised(schema, mode, old(rows), row, result.Ok?, result.Ok? && result.value, rows)
    {
      ApplyPromised(schema, mode, rows, row);
      if mode.OrIgnore? || mode.DoNothing? {
        var conflict := HasAnyInsertConflict(row);
        if conflict {
          return Ok(false);
        }
      }
      ResolveInsertConflicts(row, mode.OrReplace?);
      var inserted := InsertWithRowID(row);
      if inserted.Err? {
        return Err(inserted.error);
      }
      result := Ok(true);
    }

    /** All rows of an INSERT statement, or none of them. */
    method ExecuteInsert(mode: Mode, values: seq<Record>) returns (result: Result<nat>)
      requires Valid()
      modifies this
      ensures Valid()
      ensures result.Err? ==> rows == old(rows)
      ensures result.Ok? <==> ApplyAll(schema, mode, old(rows), values).Ok?
      ensures result.Ok? ==> rows == ApplyAll(schema, mode, old(rows), values).value
    {
      var saved, count := rows, 0;
      for i := 0 to |values|
        invariant Valid() && ApplyAll(schema, mode, saved, values[..i]) == Ok(rows)
      {
        assert values[..i + 1][..i] == values[..i];
        var one := InsertOneRow(mode, values[i]);
        if one.Err? {
          FailsForGood(schema, mode, saved, values, i + 1);
          rows := saved;
          return Err(one.error);
        }
        if one.value {
          count := count + 1;
        }
      }
      assert values[..|values|] == values;
      result := Ok(count);
    }
  }

  ghost function ApplyAll(schema: Schema, mode: Mode, rows: Rows, values: seq<Record>): Result<Rows> {
    if values == [] then Ok(rows)
    else
      var n := |values| - 1;
      var before :- ApplyAll(schema, mode, rows, values[..n]);
      Apply(schema, mode, before, values[n])
  }

  lemma {:induction false} FailsForGood(schema: Schema, mode: Mode, rows: Rows, values: seq<Record>, i: nat)
    requires i <= |values| && ApplyAll(schema, mode, rows, values[..i]).Err?
    ensures ApplyAll(schema, mode, rows, values).Err?
    decreases |values|
  {
    if i < |values| {
      var n := |values| - 1;
      assert values[..n][..i] == values[..i];
      FailsForGood(schema, mode, rows, values[..n], i);
    } else {
      assert values[..i] == values;
    }
  }

  /** The candidate is in, or a row that was there before it is in its way. */
  ghost predicate FirstCome(schema: Schema, rows: Rows, values: seq<Record>, after: Rows, i: nat)
    requires i < |values|
  {
    Holds(after, values[i]) ||
    exists row :: Holds(after, row) && Conflicts(schema, values[i], row) && (Holds(rows, row) || row in values[..i])
  }

  /** A run of OR IGNORE or DO NOTHING inserts keeps every row, adds candidates only, and leaves a candidate out only
      for a row that came before it. */
  lemma {:induction false} IgnoreRunHolds(schema: Schema, mode: Mode, rows: Rows, values: seq<Record>)
    requires mode.OrIgnore? || mode.DoNothing?
    requires Unique(schema, rows) && ApplyAll(schema, mode, rows, values).Ok?
    ensures
      var after := ApplyAll(schema, mode, rows, values).value;
      && Unique(schema, after)
      && (forall row :: Holds(rows, row) ==> Holds(after, row))
      && (forall row :: Holds(after, row) ==> Holds(rows, row) || row in values)
      && (forall i: nat :: i < |values| ==> FirstCome(schema, rows, values, after, i))
  {
    if values != [] {
      var n := |values| - 1;
      var last, earlier := values[n], values[..n];
      var before, after := ApplyAll(schema, mode, rows, earlier).value, ApplyAll(schema, mode, rows, values).value;
      assert values == earlier + [last];
      IgnoreRunHolds(schema, mode, rows, earlier);
      ApplyKeepsUnique(schema, mode, before, last);
      ApplyPromised(schema, mode, before, last);
      KeepsHeld(schema, mode, before, last);
      forall i: nat | i < |values|
        ensures FirstCome(schema, rows, values, after, i)
      {
        if i < n {
          assert FirstCome(schema, rows, earlier, before, i);
          assert values[i] == earlier[i] && values[..i] == earlier[..i];
        } else if Meets(schema, before, last) {
          var row :| Holds(before, row) && Conflicts(schema, last, row);
          assert values[..n] == earlier;
        }
      }
    }
  }

  lemma KeepsHeld(schema: Schema, mode: Mode, rows: Rows, candidate: Record)
    requires mode.OrIgnore? || mode.DoNothing?
    requires Unique(schema, rows) && Apply(schema, mode, rows, candidate).Ok?
    ensures
      var after := Apply(schema, mode, rows, candidate).value;
      && (forall row :: Holds(rows, row) ==> Holds(after, row))
      && (forall row :: Holds(after, row) ==> Holds(rows, row) || row == candidate)
      && (Holds(after, candidate) || Meets(schema, rows, candidate))
  {
    ApplyPromised(schema, mode, rows, candidate);
  }
}
