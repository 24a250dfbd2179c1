/** Deterministic object identifiers of the emulated catalog: FNV-1a, then linear probing. */
module CatalogOids {
  import opened Collections

  type Bytes = seq<bv8>

  const FIRST := 16384
  const LAST := 0x7fff_ffff
  const COUNT := LAST - FIRST + 1

  /** fnv1a32 over a Go string. */
  function Fnv1a32(text: Bytes): bv32 {
    if text == [] then 2166136261
    else
      var k := |text| - 1;
      FnvStep(Fnv1a32(text[..k]), text[k])
  }

  function FnvStep(hash: bv32, b: bv8): bv32 {
    (hash ^ (b as bv32)) * 16777619
  }

  method HashBytes(text: Bytes) returns (hash: bv32)
    ensures hash == Fnv1a32(text)
  {
    hash := 2166136261;
    for i := 0 to |text|
      invariant hash == Fnv1a32(text[..i])
    {
      assert text[..i + 1][..i] == text[..i];
      hash := FnvStep(hash, text[i]);
    }
    assert text[..|text|] == text;
  }

  /** Published values of the 32-bit FNV-1a hash: of no bytes, of "a" and of "foobar". */
  lemma PublishedHashes()
    ensures Fnv1a32([]) == 0x811c9dc5
    ensures Fnv1a32([0x61]) == 0xe40c292c
    ensures Fnv1a32([0x66, 0x6f, 0x6f, 0x62, 0x61, 0x72]) == 0xbf9cf968
  {
    FnvNext([], [0x61], 0xe40c292c);
    FnvNext([], [0x66], 0xe30c2799);
    FnvNext([0x66], [0x66, 0x6f], 0x6222e842);
    FnvNext([0x66, 0x6f], [0x66, 0x6f, 0x6f], 0xa9f37ed7);
    FnvNext([0x66, 0x6f, 0x6f], [0x66, 0x6f, 0x6f, 0x62], 0x3f5076ef);
    FnvNext([0x66, 0x6f, 0x6f, 0x62], [0x66, 0x6f, 0x6f, 0x62, 0x61], 0x39aaa18a);
    FnvNext([0x66, 0x6f, 0x6f, 0x62, 0x61], [0x66, 0x6f, 0x6f, 0x62, 0x61, 0x72], 0xbf9cf968);
  }

  /** One byte more. */
  lemma FnvNext(text: Bytes, longer: Bytes, hash: bv32)
    requires |longer| == |text| + 1 && longer[..|text|] == text
    requires hash == FnvStep(Fnv1a32(text), longer[|text|])
    ensures Fnv1a32(longer) == hash
  {
  }

  /** The prefix "pizzasql:" of every hashed owner. */
  const SALT: Bytes := [0x70, 0x69, 0x7a, 0x7a, 0x61, 0x73, 0x71, 0x6c, 0x3a]

  function Lift(hash: int): int {
    var oid := hash % 0x8000_0000;
    if oid < FIRST then oid + FIRST else oid
  }

  /** Where probing starts for an owner. */
  function Start(owner: Bytes): (oid: int)
    ensures FIRST <= oid <= LAST
  {
    Lift(Fnv1a32(SALT + owner) as int)
  }

  method FirstProbe(owner: Bytes) returns (oid: int)
    ensures oid == Start(owner)
  {
    var hash := HashBytes(SALT + owner);
    oid := (hash as int) % 0x8000_0000;
    if oid < FIRST {
      oid := oid + FIRST;
    }
  }

  /** The `k`-th probe after `start`, wrapping around the range. */
  function Probe(start: int, k: nat): (oid: int)
    ensures FIRST <= oid <= LAST
  {
    FIRST + (start - FIRST + k) % COUNT
  }

  lemma ProbeNext(start: int, k: nat)
    requires FIRST <= start <= LAST
    ensures Probe(start, 0) == start
    ensures Probe(start, k + 1) == if Probe(start, k) + 1 > LAST then FIRST else Probe(start, k) + 1
  {
  }

  lemma ProbeReaches(start: int, oid: int) returns (k: nat)
    requires FIRST <= start <= LAST && FIRST <= oid <= LAST
    ensures k < COUNT && Probe(start, k) == oid
  {
    k := if oid >= start then oid - start else oid - start + COUNT;
  }

  /** The first `k` probes of `owner` are taken by others. */
  ghost predicate TakenUpTo(owners: map<int, Bytes>, owner: Bytes, k: nat) {
    TakenFrom(owners, owner, Start(owner), k)
  }

  ghost predicate TakenFrom(owners: map<int, Bytes>, owner: Bytes, start: int, k: nat) {
    forall j: nat :: j < k ==> Probe(start, j) in owners && owners[Probe(start, j)] != owner
  }

  ghost predicate PlacedAt(owners: map<int, Bytes>, oid: int, k: nat)
    requires oid in owners
  {
    k < COUNT && oid == Probe(Start(owners[oid]), k) && TakenUpTo(owners, owners[oid], k)
  }

  /** Every assigned OID is the first probe its owner could have. */
  ghost predicate Placed(owners: map<int, Bytes>) {
    forall oid <- owners :: exists k: nat :: PlacedAt(owners, oid, k)
  }

  ghost predicate Assigned(owners: map<int, Bytes>, owner: Bytes) {
    exists oid :: oid in owners && owners[oid] == owner
  }

  /** Nobody owns two OIDs. */
  lemma OneOidEach(owners: map<int, Bytes>, a: int, b: int)
    requires Placed(owners) && a in owners && b in owners && owners[a] == owners[b]
    ensures a == b
  {
    var j: nat :| PlacedAt(owners, a, j);
    var k: nat :| PlacedAt(owners, b, k);
    assert j < k ==> Probe(Start(owners[b]), j) == a;
    assert k < j ==> Probe(Start(owners[a]), k) == b;
  }

  /** An owner has the OID its hash is lifted to, exactly when no other owner has it: so OIDs differ from
      the hashes only where hashes collide. */
  lemma AtHashIff(owners: map<int, Bytes>, oid: int)
    requires Placed(owners) && oid in owners
    ensures oid == Start(owners[oid]) <==> (Start(owners[oid]) in owners ==> owners[Start(owners[oid])] == owners[oid])
  {
    var k: nat :| PlacedAt(owners, oid, k);
    AtFirstProbeIff(owners, oid, Start(owners[oid]), k);
  }

  lemma AtFirstProbeIff(owners: map<int, Bytes>, oid: int, start: int, k: nat)
    requires FIRST <= start <= LAST && oid in owners
    requires oid == Probe(start, k) && TakenFrom(owners, owners[oid], start, k)
    ensures oid == start <==> (start in owners ==> owners[start] == owners[oid])
  {
    assert Probe(start, 0) == start;
    if k > 0 {
      assert Probe(start, 0) in owners && owners[Probe(start, 0)] != owners[oid];
    }
  }

  function Span(lo: int, n: nat): (s: set<int>)
    ensures forall i :: i in s <==> lo <= i < lo + n
    ensures |s| == n
  {
    if n == 0 then {} else Span(lo, n - 1) + {lo + n - 1}
  }

  /** While fewer than all OIDs are assigned one is free. */
  lemma SomeFree(owners: map<int, Bytes>) returns (oid: int)
    requires |owners| < COUNT
    ensures FIRST <= oid <= LAST && oid !in owners
  {
    var all := Span(FIRST, COUNT);
    if all <= owners.Keys {
      SubsetSize(all, owners.Keys);
    }
    oid :| oid in all && oid !in owners;
  }

  class Snapshot {
    var oidOwners: map<int, Bytes>

    ghost predicate Valid()
      reads this
    {
      Placed(oidOwners)
    }

    constructor ()
      ensures Valid() && oidOwners == map[]
    {
      oidOwners := map[];
    }

    /** allocateOID for one owner. It stops because some probe is free or already the owner's. */
    method Allocate(owner: Bytes) returns (oid: int)
      requires Valid()
      requires Assigned(oidOwners, owner) || |oidOwners| < COUNT
      modifies this
      ensures Valid()
      ensures FIRST <= oid <= LAST
      ensures oidOwners == old(oidOwners)[oid := owner]
      ensures if Assigned(old(oidOwners), owner)
        then oid in old(oidOwners) && old(oidOwners)[oid] == owner && oidOwners == old(oidOwners)
        else oid !in old(oidOwners)
    {
      oid := FirstProbe(owner);
      ghost var stop := Stop(owner);
      ghost var k;
      oid, k := ProbeFrom(owner, oid, stop);
      Claim(owner, oid, k);
    }

    ghost predicate Usable(oid: int, owner: Bytes)
      reads this
    {
      oid !in oidOwners || oidOwners[oid] == owner
    }

    /** The probing loop; it stops at the latest where an OID is known to be usable. */
    method ProbeFrom(owner: Bytes, first: int, ghost stop: nat) returns (oid: int, ghost k: nat)
      requires FIRST <= first <= LAST && stop < COUNT && Usable(Probe(first, stop), owner)
      ensures k < COUNT && oid == Probe(first, k) && TakenFrom(oidOwners, owner, first, k) && Usable(oid, owner)
    {
      oid, k := first, 0;
      ProbeNext(first, 0);
      while oid in oidOwners && oidOwners[oid] != owner
        invariant oid == Probe(first, k) && k <= stop
        invariant TakenFrom(oidOwners, owner, first, k)
        decreases stop - k
      {
        ProbeNext(first, k);
        oid := oid + 1;
        if oid > LAST {
          oid := FIRST;
        }
        k := k + 1;
      }
    }

    /** Writes the owner at its first usable probe. */
    method Claim(owner: Bytes, oid: int, ghost k: nat)
      requires Valid() && k < COUNT && oid == Probe(Start(owner), k) && TakenUpTo(oidOwners, owner, k)
      requires Usable(oid, owner)
      modifies this
      ensures Valid() && oidOwners == old(oidOwners)[oid := owner]
      ensures Assigned(old(oidOwners), owner) <==> oid in old(oidOwners)
    {
      Settle(oidOwners, owner, oid, k);
      oidOwners := oidOwners[oid := owner];
    }

    ghost method Stop(owner: Bytes) returns (k: nat)
      requires Valid()
      requires Assigned(oidOwners, owner) || |oidOwners| < COUNT
      ensures k < COUNT
      ensures Usable(Probe(Start(owner), k), owner)
    {
      if Assigned(oidOwners, owner) {
        var oid :| oid in oidOwners && oidOwners[oid] == owner;
        k :| PlacedAt(oidOwners, oid, k);
      } else {
        var oid := SomeFree(oidOwners);
        k := ProbeReaches(Start(owner), oid);
      }
    }

    /** Any sequence of requests: an owner always gets the same OID, two owners never share one. */
    method AllocateAll(requests: seq<Bytes>) returns (oids: seq<int>)
      requires Valid()
      requires |oidOwners| + |requests| <= COUNT
      modifies this
      ensures Valid()
      ensures |oids| == |requests|
      ensures forall i :: 0 <= i < |oids| ==> FIRST <= oids[i] <= LAST
      ensures forall i, j :: 0 <= i < |oids| && 0 <= j < |oids| ==> (oids[i] == oids[j] <==> requests[i] == requests[j])
      ensures forall oid <- old(oidOwners) :: oid in oidOwners && oidOwners[oid] == old(oidOwners)[oid]
    {
      oids := [];
      for i := 0 to |requests|
        invariant Valid() && |oids| == i
        invariant |oidOwners| + |requests| - i <= COUNT
        invariant forall j :: 0 <= j < i ==> FIRST <= oids[j] <= LAST
        invariant forall j :: 0 <= j < i ==> oids[j] in oidOwners && oidOwners[oids[j]] == requests[j]
        invariant forall oid <- old(oidOwners) :: oid in oidOwners && oidOwners[oid] == old(oidOwners)[oid]
      {
        ghost var before := oidOwners;
        var oid := Allocate(requests[i]);
        assert |oidOwners| <= |before| + 1;
        oids := oids + [oid];
      }
      forall i, j | 0 <= i < |oids| && 0 <= j < |oids| && requests[i] == requests[j]
        ensures oids[i] == oids[j]
      {
        OneOidEach(oidOwners, oids[i], oids[j]);
      }
    }
  }

  lemma Settle(owners: map<int, Bytes>, owner: Bytes, oid: int, k: nat)
    requires Placed(owners) && k < COUNT && oid == Probe(Start(owner), k) && TakenUpTo(owners, owner, k)
    requires oid !in owners || owners[oid] == owner
    ensures Placed(owners[oid := owner])
    ensures Assigned(owners, owner) <==> oid in owners
  {
    var after := owners[oid := owner];
    assert PlacedAt(after, oid, k);
    forall o | o in owners && o != oid
      ensures exists j: nat :: PlacedAt(after, o, j)
    {
      var j: nat :| PlacedAt(owners, o, j);
      assert owners[o] != owner by {
        if owners[o] == owner {
          SoleOwner(owners, owner, oid, k, o, j);
        }
      }
      assert PlacedAt(after, o, j);
    }
    if Assigned(owners, owner) {
      var o :| o in owners && owners[o] == owner;
      if o != oid {
        var j: nat :| PlacedAt(owners, o, j);
        SoleOwner(owners, owner, oid, k, o, j);
      }
    }
  }

  /** The first usable probe of an owner that already has an OID is that OID. */
  lemma SoleOwner(owners: map<int, Bytes>, owner: Bytes, oid: int, k: nat, o: int, j: nat)
    requires k < COUNT && oid == Probe(Start(owner), k) && TakenUpTo(owners, owner, k)
    requires oid !in owners || owners[oid] == owner
    requires o in owners && owners[o] == owner && PlacedAt(owners, o, j)
    ensures o == oid
  {
    assert Probe(Start(owner), j) == o && Probe(Start(owner), k) == oid;
    assert !(j < k) && !(k < j);
  }
}
