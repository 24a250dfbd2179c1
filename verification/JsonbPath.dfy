/** Path access to jsonb documents: lookup, jsonb_set, jsonb_insert and removal. */
module JsonbPath {
  import opened Values
  import opened JsonbNumber
  import opened Json

  datatype Step = KeyStep(key: string) | IndexStep(index: int)

  /** A text[] path element is `Dynamic`: whether it is a key or an index depends on the
      container it meets. Steps of a $ path are fixed. */
  datatype Seg = Dynamic(element: string) | Fixed(step: Step)

  datatype Resolution = Resolved(step: Step) | Unresolved | Malformed

  /** resolveJSONBPathSegment; `strict` makes a non-integer element on an array an error. */
  function Resolve(seg: Seg, container: Node, strict: bool): Resolution {
    if seg.Fixed? then Resolved(seg.step)
    else
      match container
      case JObject(_) => Resolved(KeyStep(seg.element))
      case JArray(_) =>
        var index := Atoi(seg.element);
        if index.Some? then Resolved(IndexStep(index.value))
        else if strict then Malformed
        else Unresolved
      case _ => Unresolved
  }

  /** A negative index counts from the end. */
  function FromEnd(index: int, length: nat): int {
    if index < 0 then index + length else index
  }

  // ---- lookup ----

  function LookupStep(cur: Node, seg: Seg): Option<Node> {
    match Resolve(seg, cur, false)
    case Resolved(IndexStep(index)) =>
      if !cur.JArray? then None
      else
        var idx := FromEnd(index, |cur.items|);
        if idx < 0 || idx >= |cur.items| then None else Some(cur.items[idx])
    case Resolved(KeyStep(key)) =>
      if cur.JObject? && key in cur.members then Some(cur.members[key]) else None
    case _ => None
  }

  function Lookup(root: Node, segs: seq<Seg>): Option<Node> {
    if segs == [] then Some(root)
    else
      var child := LookupStep(root, segs[0]);
      if child == None then None else Lookup(child.value, segs[1..])
  }

  /** jsonLookupE as it runs: a cursor that descends one step at a time. */
  method Walk(root: Node, segs: seq<Seg>) returns (found: Option<Node>)
    ensures found == Lookup(root, segs)
  {
    var cur := root;
    for i := 0 to |segs|
      invariant Lookup(root, segs) == Lookup(cur, segs[i..])
    {
      var next := LookupStep(cur, segs[i]);
      assert segs[i..][1..] == segs[i + 1..];
      if next == None {
        return None;
      }
      cur := next.value;
    }
    return Some(cur);
  }

  // ---- one step of a mutation ----

  predicate IsContainer(n: Node) {
    n.JObject? || n.JArray?
  }

  /** jsonbPathChild: an existing child, no child, or an error. */
  function PathChild(n: Node, step: Step): Result<Option<Node>> {
    match n
    case JObject(members) =>
      if step.IndexStep? then Err("jsonb path element does not identify an object key")
      else Ok(if step.key in members then Some(members[step.key]) else None)
    case JArray(items) =>
      if step.KeyStep? then Err("jsonb path element does not identify an array index")
      else
        var index := FromEnd(step.index, |items|);
        Ok(if 0 <= index < |items| then Some(items[index]) else None)
    case _ => Err("cannot walk a jsonb path through a scalar")
  }

  function ReplaceChild(n: Node, step: Step, child: Node): Result<Node> {
    match n
    case JObject(members) =>
      if step.IndexStep? then Err("jsonb path element does not identify an object key")
      else Ok(JObject(members[step.key := child]))
    case JArray(items) =>
      if step.KeyStep? then Err("jsonb path element does not identify an array index")
      else
        var index := FromEnd(step.index, |items|);
        if 0 <= index < |items| then Ok(JArray(items[index := child]))
        else Err("jsonb path array index is out of range")
    case _ => Err("cannot write a jsonb path through a scalar")
  }

  // ---- jsonb_set ----

  function SetLast(n: Node, step: Step, value: Node, create: bool): Result<Node> {
    match n
    case JObject(members) =>
      if step.IndexStep? then Err("path element is not an object key")
      else if step.key !in members && !create then Ok(n)
      else Ok(JObject(members[step.key := value]))
    case JArray(items) =>
      if step.KeyStep? then Err("path element is not an integer")
      else
        var index := FromEnd(step.index, |items|);
        if index < 0 then Ok(if create then JArray([value] + items) else n)
        else if index >= |items| then Ok(if create then JArray(items + [value]) else n)
        else Ok(JArray(items[index := value]))
    case _ => Err("cannot set path in scalar")
  }

  /** jsonbSetPG. */
  function Set(n: Node, segs: seq<Seg>, value: Node, create: bool): Result<Node>
    decreases |segs|
  {
    if segs == [] then Ok(n)
    else
      match Resolve(segs[0], n, true)
      case Malformed => Err("path element is not an integer")
      case Unresolved => Err("cannot set path in scalar")
      case Resolved(step) =>
        if |segs| == 1 then SetLast(n, step, value, create)
        else
          var child :- PathChild(n, step);
          if child == None || !IsContainer(child.value) then Ok(n)
          else
            var updated :- Set(child.value, segs[1..], value, create);
            ReplaceChild(n, step, updated)
  }

  // ---- jsonb_insert ----

  function Clamp(index: int, length: nat, after: bool): nat {
    var at := if index < 0 then 0 else if index > length then length else index;
    if after && at < length then at + 1 else at
  }

  function InsertLast(n: Node, step: Step, value: Node, after: bool): Result<Node> {
    match n
    case JObject(members) =>
      if step.IndexStep? then Err("path element is not an object key")
      else if step.key in members then Err("cannot replace existing key")
      else Ok(JObject(members[step.key := value]))
    case JArray(items) =>
      if step.KeyStep? then Err("path element is not an integer")
      else
        var at := Clamp(FromEnd(step.index, |items|), |items|, after);
        Ok(JArray(items[..at] + [value] + items[at..]))
    case _ => Err("cannot set path in scalar")
  }

  /** jsonbInsertPG. */
  function Insert(n: Node, segs: seq<Seg>, value: Node, after: bool): Result<Node>
    decreases |segs|
  {
    if segs == [] then Ok(n)
    else
      match Resolve(segs[0], n, true)
      case Malformed => Err("path element is not an integer")
      case Unresolved => Err("cannot set path in scalar")
      case Resolved(step) =>
        if |segs| == 1 then InsertLast(n, step, value, after)
        else
          var child :- PathChild(n, step);
          if child == None || !IsContainer(child.value) then Ok(n)
          else
            var updated :- Insert(child.value, segs[1..], value, after);
            ReplaceChild(n, step, updated)
  }

  // ---- #- ----

  /** jsonRemove. */
  function Remove(root: Node, segs: seq<Seg>): Result<Node>
    decreases |segs|
  {
    if segs == [] then Ok(root)
    else
      match Resolve(segs[0], root, true)
      case Malformed => Err("path element is not an integer")
      case Unresolved => Ok(root)
      case Resolved(IndexStep(index)) =>
        if !root.JArray? then Ok(root)
        else
          var idx := FromEnd(index, |root.items|);
          if idx < 0 || idx >= |root.items| then Ok(root)
          else if |segs| == 1 then Ok(JArray(root.items[..idx] + root.items[idx + 1..]))
          else
            var child :- Remove(root.items[idx], segs[1..]);
            Ok(JArray(root.items[idx := child]))
      case Resolved(KeyStep(key)) =>
        if !root.JObject? then Ok(root)
        else if |segs| == 1 then Ok(JObject(root.members - {key}))
        else if key !in root.members then Ok(root)
        else
          var child :- Remove(root.members[key], segs[1..]);
          Ok(JObject(root.members[key := child]))
  }

  // ---- text[] paths ----

  ghost predicate TextPath(segs: seq<Seg>) {
    forall k :: 0 <= k < |segs| ==> segs[k].Dynamic?
  }

  /** What jsonb_set can put a value at: all but the last step lead through containers, and the
      last names a place that exists, or one that creating it makes addressable. */
  predicate Reaches(n: Node, segs: seq<Seg>, create: bool)
    requires segs != []
    decreases |segs|
  {
    match Resolve(segs[0], n, false)
    case Resolved(KeyStep(key)) =>
      n.JObject? &&
      if |segs| == 1 then key in n.members || create
      else key in n.members && Reaches(n.members[key], segs[1..], create)
    case Resolved(IndexStep(index)) =>
      n.JArray? &&
      var idx, length := FromEnd(index, |n.items|), |n.items|;
      if |segs| == 1 then 0 <= idx < length || (create && (idx == length || idx == -1))
      else 0 <= idx < length && Reaches(n.items[idx], segs[1..], create)
    case _ => false
  }

  /** Replacing a child keeps how steps resolve, so the child can be found again. */
  lemma ReplacedChildFound(n: Node, seg: Seg, step: Step, child: Node, updated: Node)
    requires seg.Dynamic? && Resolve(seg, n, true) == Resolved(step)
    requires PathChild(n, step) == Ok(Some(child))
    ensures ReplaceChild(n, step, updated).Ok?
    ensures Resolve(seg, ReplaceChild(n, step, updated).value, true) == Resolved(step)
    ensures PathChild(ReplaceChild(n, step, updated).value, step) == Ok(Some(updated))
    ensures LookupStep(n, seg) == Some(child)
    ensures LookupStep(ReplaceChild(n, step, updated).value, seg) == Some(updated)
    ensures ReplaceChild(n, step, child) == Ok(n)
  {
    match n
    case JObject(members) => assert members[step.key := child] == members;
    case JArray(items) => assert items[FromEnd(step.index, |items|) := child] == items;
    case _ =>
  }

  lemma ReplaceTwice(n: Node, step: Step, updated: Node, other: Node)
    requires ReplaceChild(n, step, updated).Ok?
    ensures ReplaceChild(ReplaceChild(n, step, updated).value, step, other) == ReplaceChild(n, step, other)
  {
    match n
    case JObject(members) =>
      assert members[step.key := updated][step.key := other] == members[step.key := other];
    case JArray(items) =>
      var index := FromEnd(step.index, |items|);
      assert items[index := updated][index := other] == items[index := other];
    case _ =>
  }

  /** Below the first step a mutation works on the child and writes it back. */
  ghost predicate Descends(n: Node, segs: seq<Seg>, step: Step, child: Node) {
    && |segs| > 1 && segs[0].Dynamic?
    && Resolve(segs[0], n, true) == Resolved(step)
    && PathChild(n, step) == Ok(Some(child))
    && IsContainer(child)
  }

  lemma SetDescends(n: Node, segs: seq<Seg>, step: Step, child: Node, value: Node, create: bool)
    requires Descends(n, segs, step, child)
    ensures Set(n, segs, value, create) ==
      var updated := Set(child, segs[1..], value, create);
      if updated.Err? then Err(updated.error) else ReplaceChild(n, step, updated.value)
    ensures Reaches(n, segs, create) == Reaches(child, segs[1..], create)
  {
  }

  lemma GetAfterSetLast(n: Node, seg: Seg, value: Node, create: bool)
    requires seg.Dynamic? && Set(n, [seg], value, create).Ok?
    ensures Lookup(Set(n, [seg], value, create).value, [seg]) == Some(value) <==> Reaches(n, [seg], create)
  {
    var result := Set(n, [seg], value, create).value;
    assert Lookup(result, [seg]) == LookupStep(result, seg);
  }

  /** Get after set: a successful jsonb_set can be read back exactly when it reached its place. */
  lemma {:induction false} GetAfterSet(n: Node, segs: seq<Seg>, value: Node, create: bool)
    requires segs != [] && TextPath(segs)
    requires Set(n, segs, value, create).Ok?
    ensures Lookup(Set(n, segs, value, create).value, segs) == Some(value) <==> Reaches(n, segs, create)
    decreases |segs|
  {
    if |segs| == 1 {
      assert segs == [segs[0]];
      GetAfterSetLast(n, segs[0], value, create);
    } else {
      var step := Resolve(segs[0], n, true).step;
      var child := PathChild(n, step).value;
      if child.Some? && IsContainer(child.value) {
        var updated := Set(child.value, segs[1..], value, create).value;
        ReplacedChildFound(n, segs[0], step, child.value, updated);
        GetAfterSet(child.value, segs[1..], value, create);
      }
    }
  }

  /** Set of what was got changes nothing. */
  lemma {:induction false} SetOfGot(n: Node, segs: seq<Seg>, old_: Node, create: bool)
    requires TextPath(segs) && Lookup(n, segs) == Some(old_)
    ensures Set(n, segs, old_, create) == Ok(n)
    decreases |segs|
  {
    if segs != [] {
      var step := Resolve(segs[0], n, true).step;
      var child := LookupStep(n, segs[0]).value;
      ReplacedChildFound(n, segs[0], step, child, child);
      if |segs| == 1 {
        assert segs[1..] == [];
        assert SetLast(n, step, child, create) == ReplaceChild(n, step, child);
      } else {
        LookupThroughContainer(child, segs[1..], old_);
        SetOfGot(child, segs[1..], old_, create);
      }
    }
  }

  lemma LookupThroughContainer(n: Node, segs: seq<Seg>, found: Node)
    requires TextPath(segs) && segs != [] && Lookup(n, segs) == Some(found)
    ensures IsContainer(n)
  {
  }

  /** What jsonb_set passes over: a step before the last leads nowhere or to a scalar, or the last
      place is absent and is not to be created. */
  predicate PassesOver(n: Node, segs: seq<Seg>, create: bool)
    requires segs != []
    decreases |segs|
  {
    match Resolve(segs[0], n, false)
    case Resolved(KeyStep(key)) =>
      n.JObject? &&
      if |segs| == 1 then key !in n.members && !create
      else key !in n.members || !IsContainer(n.members[key]) || PassesOver(n.members[key], segs[1..], create)
    case Resolved(IndexStep(index)) =>
      n.JArray? &&
      var idx, length := FromEnd(index, |n.items|), |n.items|;
      if |segs| == 1 then !(0 <= idx < length) && !create
      else !(0 <= idx < length) || !IsContainer(n.items[idx]) || PassesOver(n.items[idx], segs[1..], create)
    case _ => false
  }

  /** A successful jsonb_set that does not reach its place changes nothing exactly when it passes over;
      otherwise it has added an element at the far end of an array. */
  lemma {:induction false} UnreachedSet(n: Node, segs: seq<Seg>, value: Node, create: bool)
    requires segs != [] && TextPath(segs)
    requires Set(n, segs, value, create).Ok? && !Reaches(n, segs, create)
    ensures Set(n, segs, value, create).value == n <==> PassesOver(n, segs, create)
    decreases |segs|
  {
    if |segs| > 1 {
      var step := Resolve(segs[0], n, true).step;
      var child := PathChild(n, step).value;
      if child.Some? && IsContainer(child.value) {
        SetDescends(n, segs, step, child.value, value, create);
        UnreachedSet(child.value, segs[1..], value, create);
        var updated := Set(child.value, segs[1..], value, create).value;
        ReplacedChildFound(n, segs[0], step, child.value, updated);
      }
    }
  }

  /** Setting twice is setting once with the second value exactly when the place is reached or passed
      over: a set that added an element at the far end of an array adds another. */
  lemma SetTwice(n: Node, segs: seq<Seg>, v: Node, w: Node, create: bool)
    requires segs != [] && TextPath(segs)
    requires Set(n, segs, v, create).Ok?
    ensures Set(Set(n, segs, v, create).value, segs, w, create) == Set(n, segs, w, create)
       <==> Reaches(n, segs, create) || PassesOver(n, segs, create)
  {
    SetTwiceOrUnchanged(n, segs, v, w, create);
    if !Reaches(n, segs, create) {
      UnreachedSet(n, segs, v, create);
    }
  }

  lemma {:induction false} SetTwiceOrUnchanged(n: Node, segs: seq<Seg>, v: Node, w: Node, create: bool)
    requires segs != [] && TextPath(segs)
    requires Set(n, segs, v, create).Ok?
    ensures Set(Set(n, segs, v, create).value, segs, w, create) == Set(n, segs, w, create)
       <==> Reaches(n, segs, create) || Set(n, segs, v, create).value == n
    decreases |segs|
  {
    if |segs| == 1 {
      assert segs == [segs[0]];
      SetLastTwice(n, segs[0], v, w, create);
    } else {
      var step := Resolve(segs[0], n, true).step;
      var child := PathChild(n, step).value;
      if child.Some? && IsContainer(child.value) {
        SetDescends(n, segs, step, child.value, v, create);
        SetTwiceOrUnchanged(child.value, segs[1..], v, w, create);
        SetTwiceBelow(n, segs, step, child.value, v, w, create);
      }
    }
  }

  lemma SetTwiceBelow(n: Node, segs: seq<Seg>, step: Step, child: Node, v: Node, w: Node, create: bool)
    requires Descends(n, segs, step, child)
    requires Set(child, segs[1..], v, create).Ok?
    ensures
      var below := Set(child, segs[1..], v, create).value;
      var above := Set(n, segs, v, create);
      && above.Ok?
      && (Set(above.value, segs, w, create) == Set(n, segs, w, create)
          <==> Set(below, segs[1..], w, create) == Set(child, segs[1..], w, create))
      && (above.value == n <==> below == child)
      && Reaches(n, segs, create) == Reaches(child, segs[1..], create)
  {
    var rest := segs[1..];
    var below := Set(child, rest, v, create).value;
    SetDescends(n, segs, step, child, v, create);
    SetDescends(n, segs, step, child, w, create);
    ReplacedChildFound(n, segs[0], step, child, below);
    var above := ReplaceChild(n, step, below).value;
    SetKeepsContainer(child, rest, v, create);
    SetDescends(above, segs, step, below, w, create);
    SetSucceedsAlike(child, rest, v, w, create);
    var direct, again := Set(child, rest, w, create).value, Set(below, rest, w, create);
    ReplacedChildFound(n, segs[0], step, child, direct);
    if again.Ok? {
      ReplaceTwice(n, step, below, again.value);
      ReplacedChildFound(n, segs[0], step, child, again.value);
    }
  }

  lemma SetLastTwice(n: Node, seg: Seg, v: Node, w: Node, create: bool)
    requires seg.Dynamic? && Set(n, [seg], v, create).Ok?
    ensures Set(Set(n, [seg], v, create).value, [seg], w, create) == Set(n, [seg], w, create)
       <==> Reaches(n, [seg], create) || Set(n, [seg], v, create).value == n
  {
    var step := Resolve(seg, n, true).step;
    match n
    case JObject(members) =>
      assert members[step.key := v][step.key := w] == members[step.key := w];
    case JArray(items) =>
      var idx := FromEnd(step.index, |items|);
      var first := SetLast(n, step, v, create).value;
      if 0 <= idx < |items| {
        assert items[idx := v][idx := w] == items[idx := w];
      } else if create {
        var second := SetLast(first, step, w, create).value;
        assert |first.items| == |items| + 1;
        if idx == |items| {
          assert (items + [v])[idx := w] == items + [w];
        } else if idx == -1 {
          assert ([v] + items)[0 := w] == [w] + items;
        } else {
          assert |second.items| == |items| + 2;
          assert |SetLast(n, step, w, create).value.items| == |items| + 1;
        }
      }
    case _ =>
  }

  lemma SetKeepsContainer(n: Node, segs: seq<Seg>, v: Node, create: bool)
    requires IsContainer(n) && Set(n, segs, v, create).Ok?
    ensures IsContainer(Set(n, segs, v, create).value)
  {
  }

  /** Whether jsonb_set fails does not depend on the value. */
  lemma {:induction false} SetSucceedsAlike(n: Node, segs: seq<Seg>, v: Node, w: Node, create: bool)
    ensures Set(n, segs, v, create).Ok? <==> Set(n, segs, w, create).Ok?
    decreases |segs|
  {
    if |segs| > 1 && Resolve(segs[0], n, true).Resolved? {
      var child := PathChild(n, Resolve(segs[0], n, true).step);
      if child.Ok? && child.value.Some? {
        SetSucceedsAlike(child.value.value, segs[1..], v, w, create);
      }
    }
  }

  // ---- untouched paths ----

  datatype Place = AtKey(key: string) | AtIndex(index: int) | Nowhere

  function PlaceOf(n: Node, seg: Seg): Place {
    match Resolve(seg, n, false)
    case Resolved(KeyStep(key)) => AtKey(key)
    case Resolved(IndexStep(index)) => if n.JArray? then AtIndex(FromEnd(index, |n.items|)) else Nowhere
    case _ => Nowhere
  }

  /** `p` leads to a value of the document, and at some step `q` turns elsewhere. */
  predicate Diverges(n: Node, p: seq<Seg>, q: seq<Seg>)
    decreases |p|
  {
    && p != [] && q != []
    && LookupStep(n, p[0]).Some?
    && (PlaceOf(n, p[0]) == PlaceOf(n, q[0]) ==> Diverges(LookupStep(n, p[0]).value, p[1..], q[1..]))
  }

  /** Setting at one path leaves every path that diverges from it alone. */
  lemma {:induction false} SetLeavesOthers(n: Node, p: seq<Seg>, q: seq<Seg>, value: Node, create: bool)
    requires TextPath(p) && TextPath(q)
    requires Lookup(n, p).Some? && Diverges(n, p, q)
    requires Set(n, p, value, create).Ok?
    ensures Lookup(Set(n, p, value, create).value, q) == Lookup(n, q)
    decreases |p|
  {
    var step := Resolve(p[0], n, true).step;
    var child := LookupStep(n, p[0]).value;
    if |p| == 1 {
      assert p == [p[0]];
      assert SetLast(n, step, value, create) == ReplaceChild(n, step, value);
      OtherPlaceKept(n, p[0], q[0], step, child, value);
    } else {
      LookupThroughContainer(child, p[1..], Lookup(n, p).value);
      SetDescends(n, p, step, child, value, create);
      var updated := Set(child, p[1..], value, create).value;
      OtherPlaceKept(n, p[0], q[0], step, child, updated);
      if PlaceOf(n, p[0]) == PlaceOf(n, q[0]) {
        SetLeavesOthers(child, p[1..], q[1..], value, create);
      }
    }
  }

  lemma OtherPlaceKept(n: Node, seg: Seg, other: Seg, step: Step, child: Node, updated: Node)
    requires seg.Dynamic? && other.Dynamic? && Resolve(seg, n, true) == Resolved(step)
    requires LookupStep(n, seg) == Some(child)
    ensures PathChild(n, step) == Ok(Some(child)) && ReplaceChild(n, step, updated).Ok?
    ensures
      var result := ReplaceChild(n, step, updated).value;
      if PlaceOf(n, seg) == PlaceOf(n, other)
      then LookupStep(n, other) == Some(child) && LookupStep(result, other) == Some(updated)
      else LookupStep(result, other) == LookupStep(n, other)
  {
  }

  // ---- insert and remove ----

  /** What `#-` takes back after jsonb_insert: an object key, an index up to the length, or the
      index just before the front. Any other negative index names the displaced element. */
  predicate Undoes(n: Node, segs: seq<Seg>, value: Node)
    requires segs != []
    decreases |segs|
  {
    match Resolve(segs[0], n, false)
    case Resolved(KeyStep(key)) =>
      !n.JObject? || |segs| == 1 || key !in n.members || !IsContainer(n.members[key])
      || Undoes(n.members[key], segs[1..], value)
    case Resolved(IndexStep(index)) =>
      !n.JArray? ||
      var idx, length := FromEnd(index, |n.items|), |n.items|;
      if |segs| == 1 then
        0 <= index <= length || idx == -1 || (index < 0 <= idx && n.items[idx] == value)
      else
        idx < 0 || idx >= length || !IsContainer(n.items[idx]) || Undoes(n.items[idx], segs[1..], value)
    case _ => true
  }

  /** `#-` undoes jsonb_insert exactly on the places `Undoes` describes. */
  lemma {:induction false} RemoveUndoesInsert(n: Node, segs: seq<Seg>, value: Node)
    requires segs != [] && TextPath(segs)
    requires Insert(n, segs, value, false).Ok?
    ensures Remove(Insert(n, segs, value, false).value, segs) == Ok(n) <==> Undoes(n, segs, value)
    decreases |segs|
  {
    if |segs| == 1 {
      assert segs == [segs[0]];
      RemoveUndoesInsertLast(n, segs[0], value);
    } else {
      var step := Resolve(segs[0], n, true).step;
      var child := PathChild(n, step).value;
      if child.Some? && IsContainer(child.value) {
        InsertDescends(n, segs, step, child.value, value);
        RemoveUndoesInsert(child.value, segs[1..], value);
        var updated := Insert(child.value, segs[1..], value, false).value;
        ReplacedChildFound(n, segs[0], step, child.value, updated);
        RemoveDescends(ReplaceChild(n, step, updated).value, segs, step, updated);
        var back := Remove(updated, segs[1..]);
        if back.Ok? {
          ReplaceTwice(n, step, updated, back.value);
          ReplacedChildFound(n, segs[0], step, child.value, back.value);
        }
      } else if child.Some? {
        ReplacedChildFound(n, segs[0], step, child.value, child.value);
        RemoveDescends(n, segs, step, child.value);
        RemoveFromScalar(child.value, segs[1..]);
      }
    }
  }

  lemma InsertDescends(n: Node, segs: seq<Seg>, step: Step, child: Node, value: Node)
    requires Descends(n, segs, step, child)
    ensures Insert(n, segs, value, false) ==
      var updated := Insert(child, segs[1..], value, false);
      if updated.Err? then Err(updated.error) else ReplaceChild(n, step, updated.value)
    ensures Undoes(n, segs, value) == Undoes(child, segs[1..], value)
  {
  }

  lemma RemoveDescends(n: Node, segs: seq<Seg>, step: Step, child: Node)
    requires |segs| > 1 && segs[0].Dynamic?
    requires Resolve(segs[0], n, true) == Resolved(step) && PathChild(n, step) == Ok(Some(child))
    ensures Remove(n, segs) ==
      var left := Remove(child, segs[1..]);
      if left.Err? then Err(left.error) else ReplaceChild(n, step, left.value)
  {
  }

  lemma RemoveFromScalar(n: Node, segs: seq<Seg>)
    requires !IsContainer(n) && TextPath(segs)
    ensures Remove(n, segs) == Ok(n)
  {
  }

  lemma RemoveUndoesInsertLast(n: Node, seg: Seg, value: Node)
    requires seg.Dynamic? && Insert(n, [seg], value, false).Ok?
    ensures Remove(Insert(n, [seg], value, false).value, [seg]) == Ok(n) <==> Undoes(n, [seg], value)
  {
    var step := Resolve(seg, n, true).step;
    match n
    case JObject(members) =>
      assert members[step.key := value] - {step.key} == members;
    case JArray(items) =>
      SpliceOut(items, step.index, value);
    case _ =>
  }

  /** Inserting at an index and removing at the same index of the longer array. */
  lemma SpliceOut(items: seq<Node>, index: int, value: Node)
    ensures
      var at := Clamp(FromEnd(index, |items|), |items|, false);
      var idx := FromEnd(index, |items| + 1);
      var grown := items[..at] + [value] + items[at..];
      (0 <= idx <= |items| ==> (grown[..idx] + grown[idx + 1..] == items <==>
        idx == at || (idx == at + 1 && items[at] == value)))
      && |grown| == |items| + 1
      && 0 <= at <= |items|
  {
    var at := Clamp(FromEnd(index, |items|), |items|, false);
    var idx := FromEnd(index, |items| + 1);
    var grown := items[..at] + [value] + items[at..];
    if 0 <= idx <= |items| {
      var back := grown[..idx] + grown[idx + 1..];
      if idx == at {
        assert back == items;
      } else {
        assert idx == at + 1;
        assert back == items[..at] + [value] + items[at + 1..];
        assert items == items[..at] + [items[at]] + items[at + 1..];
        assert back[at] == value;
      }
    }
  }

  /** jsonb_insert at -1 puts the value before the last element; `#-` at -1 then removes that element. */
  lemma NegativeInsertNotUndone(a: Node, b: Node, value: Node)
    requires value != b
    ensures var segs := [Dynamic("-1")];
      && Insert(JArray([a, b]), segs, value, false) == Ok(JArray([a, value, b]))
      && Remove(JArray([a, value, b]), segs) == Ok(JArray([a, value]))
      && !Undoes(JArray([a, b]), segs, value)
  {
    assert "-1"[1..] == "1" && "1"[..0] == "";
    assert Atoi("-1") == Some(-1);
    var pair, grown := [a, b], [a, value, b];
    assert Resolve(Dynamic("-1"), JArray(pair), true) == Resolved(IndexStep(-1));
    assert Resolve(Dynamic("-1"), JArray(grown), true) == Resolved(IndexStep(-1));
    assert pair[..1] + [value] + pair[1..] == grown;
    assert grown[..2] + grown[3..] == [a, value];
  }

  // ---- where a value is found ----

  /** `grown` is `items` with `value` put in at `at`. */
  ghost predicate Spliced(items: seq<Node>, at: nat, value: Node, grown: seq<Node>) {
    && |grown| == |items| + 1 && at <= |items|
    && grown[at] == value
    && (forall k | 0 <= k < at :: grown[k] == items[k])
    && (forall k | at <= k < |items| :: grown[k + 1] == items[k])
  }

  /** The value stands right before or after the element the index names; an index outside the array names
      its nearer end, where `after` still passes the first element. */
  ghost predicate Beside(items: seq<Node>, index: int, value: Node, after: bool, grown: seq<Node>, at: nat) {
    var named := if index < 0 then index + |items| else index;
    && Spliced(items, at, value, grown)
    && (0 <= named < |items| && !after ==> at == named && grown[at + 1] == items[named])
    && (0 <= named < |items| && after ==> at == named + 1 && grown[at - 1] == items[named])
    && (named >= |items| ==> at == |items|)
    && (named < 0 ==> at == if after && items != [] then 1 else 0)
  }

  lemma InsertBeside(items: seq<Node>, seg: Seg, index: int, value: Node, after: bool)
      returns (grown: seq<Node>, at: nat)
    requires Resolve(seg, JArray(items), true) == Resolved(IndexStep(index))
    ensures Insert(JArray(items), [seg], value, after) == Ok(JArray(grown))
    ensures Beside(items, index, value, after, grown, at)
  {
    at := Clamp(FromEnd(index, |items|), |items|, after);
    grown := items[..at] + [value] + items[at..];
  }

  lemma LookupIsReached(n: Node, p: seq<Seg>)
    requires p != [] && TextPath(p) && Lookup(n, p).Some?
    ensures Reaches(n, p, false)
    decreases |p|
  {
    if |p| > 1 {
      LookupIsReached(LookupStep(n, p[0]).value, p[1..]);
    }
  }

  /** A mutation below a parent is made on the parent and set in its place. */
  ghost predicate ThroughParent(n: Node, p: seq<Seg>, parent: Result<Node>, whole: Result<Node>)
  {
    whole == if parent.Err? then parent else Set(n, p, parent.value, false)
  }

  /** `p` leads to the container `parent` and `last` goes on from it. */
  ghost predicate Leads(n: Node, p: seq<Seg>, parent: Node, last: Seg) {
    p != [] && TextPath(p) && last.Dynamic? && Lookup(n, p) == Some(parent) && IsContainer(parent)
  }

  lemma LeadsDown(n: Node, p: seq<Seg>, parent: Node, last: Seg) returns (child: Node)
    requires Leads(n, p, parent, last)
    ensures LookupStep(n, p[0]) == Some(child) && IsContainer(child)
    ensures Descends(n, p + [last], Resolve(p[0], n, true).step, child)
    ensures (p + [last])[0] == p[0] && (p + [last])[1..] == p[1..] + [last]
    ensures |p| == 1 ==> child == parent && p[1..] + [last] == [last]
    ensures |p| > 1 ==> Leads(child, p[1..], parent, last)
  {
    child := LookupStep(n, p[0]).value;
    assert Lookup(n, p) == Lookup(child, p[1..]);
    if |p| > 1 {
      LookupThroughContainer(child, p[1..], parent);
    }
  }

  lemma {:induction false} InsertThroughParent(n: Node, p: seq<Seg>, parent: Node, last: Seg, value: Node, after: bool)
    requires Leads(n, p, parent, last)
    ensures ThroughParent(n, p, Insert(parent, [last], value, after), Insert(n, p + [last], value, after))
    decreases |p|
  {
    var child := LeadsDown(n, p, parent, last);
    if |p| > 1 {
      InsertThroughParent(child, p[1..], parent, last, value, after);
    }
  }

  lemma {:induction false} RemoveThroughParent(n: Node, p: seq<Seg>, parent: Node, last: Seg)
    requires Leads(n, p, parent, last)
    ensures ThroughParent(n, p, Remove(parent, [last]), Remove(n, p + [last]))
    decreases |p|
  {
    var child := LeadsDown(n, p, parent, last);
    if |p| > 1 {
      RemoveThroughParent(child, p[1..], parent, last);
    }
  }

  lemma {:induction false} SetThroughParent(n: Node, p: seq<Seg>, parent: Node, last: Seg, value: Node, create: bool)
    requires Leads(n, p, parent, last)
    ensures ThroughParent(n, p, Set(parent, [last], value, create), Set(n, p + [last], value, create))
    decreases |p|
  {
    var child := LeadsDown(n, p, parent, last);
    if |p| > 1 {
      SetThroughParent(child, p[1..], parent, last, value, create);
    }
  }

  /** After a mutation through a parent the path to the parent finds the changed parent, and every path that
      diverges from it finds what it found. */
  lemma ParentChanged(n: Node, p: seq<Seg>, parent: Node, last: Seg, changed: Node, whole: Result<Node>)
    requires Leads(n, p, parent, last) && ThroughParent(n, p, Ok(changed), whole)
    ensures whole.Ok? && Lookup(whole.value, p) == Some(changed)
    ensures forall q | TextPath(q) && Diverges(n, p, q) :: Lookup(whole.value, q) == Lookup(n, q)
  {
    LookupIsReached(n, p);
    SetOfGot(n, p, parent, false);
    SetSucceedsAlike(n, p, parent, changed, false);
    GetAfterSet(n, p, changed, false);
    forall q | TextPath(q) && Diverges(n, p, q)
      ensures Lookup(whole.value, q) == Lookup(n, q)
    {
      SetLeavesOthers(n, p, q, changed, false);
    }
  }

  /** jsonb_insert into an array anywhere in a document: the path to the array finds it with the value beside the
      element named, and diverging paths find what they found. */
  lemma InsertedBeside(n: Node, p: seq<Seg>, items: seq<Node>, last: Seg, index: int, value: Node, after: bool)
      returns (grown: seq<Node>, at: nat)
    requires Leads(n, p, JArray(items), last)
    requires Resolve(last, JArray(items), true) == Resolved(IndexStep(index))
    ensures Beside(items, index, value, after, grown, at)
    ensures
      var whole := Insert(n, p + [last], value, after);
      && whole.Ok? && Lookup(whole.value, p) == Some(JArray(grown))
      && forall q | TextPath(q) && Diverges(n, p, q) :: Lookup(whole.value, q) == Lookup(n, q)
  {
    grown, at := InsertBeside(items, last, index, value, after);
    InsertThroughParent(n, p, JArray(items), last, value, after);
    ParentChanged(n, p, JArray(items), last, JArray(grown), Insert(n, p + [last], value, after));
  }

  /** jsonb_insert into an object adds an absent key and refuses a present one, whatever `after` says. */
  lemma InsertedKey(n: Node, p: seq<Seg>, members: map<string, Node>, last: Seg, value: Node, after: bool)
    requires Leads(n, p, JObject(members), last)
    ensures
      var whole := Insert(n, p + [last], value, after);
      && (whole.Err? <==> last.element in members)
      && (whole.Ok? ==> Lookup(whole.value, p) == Some(JObject(members + map[last.element := value])))
  {
    InsertThroughParent(n, p, JObject(members), last, value, after);
    if last.element !in members {
      var changed := JObject(members[last.element := value]);
      assert members + map[last.element := value] == members[last.element := value];
      ParentChanged(n, p, JObject(members), last, changed, Insert(n, p + [last], value, after));
    }
  }

  /** What `#-` leaves of a container: all but the child named. */
  ghost predicate WithoutChild(n: Node, seg: Seg, left: Node) {
    match PlaceOf(n, seg)
    case AtKey(key) =>
      && n.JObject? && left.JObject?
      && left.members.Keys == n.members.Keys - {key}
      && forall k <- left.members :: left.members[k] == n.members[k]
    case AtIndex(index) =>
      n.JArray? && left.JArray? &&
      if 0 <= index < |n.items| then Spliced(left.items, index, n.items[index], n.items) else left == n
    case Nowhere => left == n
  }

  lemma RemovesLast(parent: Node, last: Seg)
    requires IsContainer(parent) && last.Dynamic?
    ensures Remove(parent, [last]).Ok? <==> Resolve(last, parent, true) != Malformed
    ensures Remove(parent, [last]).Ok? ==> WithoutChild(parent, last, Remove(parent, [last]).value)
  {
  }

  /** `#-` anywhere in a document takes out the one child named. */
  lemma RemovedChild(n: Node, p: seq<Seg>, parent: Node, last: Seg) returns (left: Node)
    requires Leads(n, p, parent, last)
    ensures Remove(n, p + [last]).Ok? <==> Resolve(last, parent, true) != Malformed
    ensures Remove(n, p + [last]).Ok? ==>
      var whole := Remove(n, p + [last]).value;
      && WithoutChild(parent, last, left) && Lookup(whole, p) == Some(left)
      && forall q | TextPath(q) && Diverges(n, p, q) :: Lookup(whole, q) == Lookup(n, q)
  {
    left := parent;
    RemoveThroughParent(n, p, parent, last);
    RemovesLast(parent, last);
    if Remove(parent, [last]).Ok? {
      left := Remove(parent, [last]).value;
      ParentChanged(n, p, parent, last, left, Remove(n, p + [last]));
    }
  }

  /** jsonb_set outside an array's indices adds the value at the nearer end when it may create. */
  lemma SetAddsAtEnd(n: Node, p: seq<Seg>, items: seq<Node>, last: Seg, index: int, value: Node)
    requires Leads(n, p, JArray(items), last)
    requires Resolve(last, JArray(items), true) == Resolved(IndexStep(index))
    requires index < -|items| || index >= |items|
    ensures
      var whole := Set(n, p + [last], value, true);
      && whole.Ok?
      && Lookup(whole.value, p) == Some(JArray(if index < 0 then [value] + items else items + [value]))
      && forall q | TextPath(q) && Diverges(n, p, q) :: Lookup(whole.value, q) == Lookup(n, q)
  {
    SetThroughParent(n, p, JArray(items), last, value, true);
    var changed := JArray(if index < 0 then [value] + items else items + [value]);
    ParentChanged(n, p, JArray(items), last, changed, Set(n, p + [last], value, true));
  }
}
