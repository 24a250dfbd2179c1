/** Column references as they are spelled: a name is looked up exactly and, failing that, up to case. */
module Spelling {
  import opened Values
  import opened Expressions

  /** `fold` identifies the spellings of a name, as strings.EqualFold does; of several keys of a row that
      spell one name `choose` is the one the iteration over the Go map meets first. */
  datatype Reader = Reader(env: Env, fold: string -> string, choose: (Row, Key) -> Option<Key>)

  function FoldKey(reader: Reader, k: Key): Key {
    match k
    case Bare(col) => Bare(reader.fold(col))
    case Qual(tbl, col) => Qual(reader.fold(tbl), reader.fold(col))
  }

  predicate SameName(reader: Reader, a: Key, b: Key) {
    FoldKey(reader, a) == FoldKey(reader, b)
  }

  /** The iteration meets a key exactly if some key spells the name. */
  ghost predicate Meets(reader: Reader, row: Row, key: Key) {
    var met := reader.choose(row, key);
    if met.Some? then met.value in row && SameName(reader, met.value, key)
    else forall k <- row :: !SameName(reader, k, key)
  }

  /** What folding and iterating do. */
  ghost predicate Folds(reader: Reader) {
    && (forall name :: reader.fold(name) == "" <==> name == "")
    && reader.fold("_rowid_") == "_rowid_"
    && forall row, key :: Meets(reader, row, key)
  }

  function FindSpelled(reader: Reader, row: Row, key: Key): Option<Value> {
    if key in row then Some(row[key])
    else
      var met := reader.choose(row, key);
      if met.Some? then Find(row, met.value) else None
  }

  function FindSpelledOuter(reader: Reader, key: Key): Option<Value> {
    if reader.env.outer.Some? then FindSpelled(reader, reader.env.outer.value, key) else None
  }

  /** evalColumnRef on a row. */
  function ReadRef(reader: Reader, ref: Ref, row: Row): Value {
    var bare, qual := Bare(ref.col), Qual(ref.tbl, ref.col);
    var unseen := ref.tbl == "" && FindSpelled(reader, row, bare).None?;
    var time := if unseen then reader.env.currentTime(reader.fold(ref.col)) else None;
    var exact := FirstOf(FindSpelledOuter(reader, qual), FindSpelled(reader, row, qual));
    var qualified := if ref.tbl == "" then None else FirstOf(exact, FindSpelledOuter(reader, bare));
    var found := FirstOf(qualified, FindSpelled(reader, row, bare));
    var outer := if ref.tbl == "" then FindSpelledOuter(reader, bare) else None;
    var rowid := if IsRowIDColumn(reader.fold(ref.col)) then Find(row, Bare("_rowid_")) else None;
    if time.Some? then time.value
    else
      match FirstOf(FirstOf(found, outer), rowid)
      case Some(v) => v
      case None => Null
  }

  // ---- rows in which every name has one spelling ----

  /** No two keys spell one name, and the row id is spelled as INSERT spells it. */
  ghost predicate Unmixed(reader: Reader, row: Row) {
    && (forall a, b | a in row && b in row :: SameName(reader, a, b) ==> a == b)
    && forall k <- row :: FoldKey(reader, k) == Bare("_rowid_") ==> k == Bare("_rowid_")
  }

  /** The row under folded names. */
  ghost function Folded(reader: Reader, row: Row): (folded: Row)
    requires Unmixed(reader, row)
    ensures forall k <- row :: FoldKey(reader, k) in folded && folded[FoldKey(reader, k)] == row[k]
    ensures forall f <- folded :: exists k <- row :: FoldKey(reader, k) == f
  {
    map k | k in row :: FoldKey(reader, k) := row[k]
  }

  ghost function FoldedOuter(reader: Reader): Option<Row>
    requires reader.env.outer.Some? ==> Unmixed(reader, reader.env.outer.value)
  {
    if reader.env.outer.Some? then Some(Folded(reader, reader.env.outer.value)) else None
  }

  lemma FindsFolded(reader: Reader, row: Row, key: Key)
    requires Folds(reader) && Unmixed(reader, row)
    ensures FindSpelled(reader, row, key) == Find(Folded(reader, row), FoldKey(reader, key))
  {
    assert Meets(reader, row, key);
  }

  /** Where every name has one spelling, a reference reads what the folded one reads from the folded row: so
      names may be taken as folded. */
  lemma ReadsFolded(reader: Reader, ref: Ref, row: Row)
    requires Folds(reader) && Unmixed(reader, row)
    requires reader.env.outer.Some? ==> Unmixed(reader, reader.env.outer.value)
    ensures Ok(ReadRef(reader, ref, row)) ==
      EvalColumnRef(reader.env.(outer := FoldedOuter(reader)), reader.fold(ref.tbl), reader.fold(ref.col),
        Some(Folded(reader, row)))
  {
    var bare, qual := Bare(ref.col), Qual(ref.tbl, ref.col);
    FindsFolded(reader, row, bare);
    FindsFolded(reader, row, qual);
    if reader.env.outer.Some? {
      FindsFolded(reader, reader.env.outer.value, bare);
      FindsFolded(reader, reader.env.outer.value, qual);
    }
    RowIDFolded(reader, row);
  }

  lemma RowIDFolded(reader: Reader, row: Row)
    requires Folds(reader) && Unmixed(reader, row)
    ensures Find(row, Bare("_rowid_")) == Find(Folded(reader, row), Bare("_rowid_"))
  {
    assert FoldKey(reader, Bare("_rowid_")) == Bare("_rowid_");
  }
}
