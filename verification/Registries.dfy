/** The registries of identifiers for shared regions and for realms: fixed tables of slots,
    with candidates taken from a wrapping counter until one is not in use. */
module Registries {

  /** A slot of a table; `owner` is the physical address of an RD. */
  datatype Slot = Slot(owner: nat, id: nat, inUse: bool)

  const FREE := Slot(0, 0, false)

  /** The identifiers in use. */
  function Ids(s: seq<Slot>): set<nat> { set i | 0 <= i < |s| && s[i].inUse :: s[i].id }

  /** Identifiers in use are bytes other than zero, and distinct. */
  ghost predicate Unique(s: seq<Slot>) {
    && (forall i | 0 <= i < |s| && s[i].inUse :: 0 < s[i].id < 256)
    && (forall i, j | 0 <= i < j < |s| && s[i].inUse && s[j].inUse :: s[i].id != s[j].id)
  }

  predicate Full(s: seq<Slot>) { forall i | 0 <= i < |s| :: s[i].inUse }

  /** A table that is not full has fewer identifiers than slots. */
  lemma {:induction false} IdsBound(s: seq<Slot>)
    ensures |Ids(s)| <= |s| && (!Full(s) ==> |Ids(s)| < |s|)
  {
    if s != [] {
      var n := |s| - 1;
      IdsBound(s[..n]);
      assert Ids(s) == Ids(s[..n]) + (if s[n].inUse then {s[n].id} else {});
      if !Full(s) && s[n].inUse {
        var i :| 0 <= i < |s| && !s[i].inUse;
        assert !s[..n][i].inUse;
      }
    }
  }

  predicate Distinct(s: seq<nat>) { forall i, j | 0 <= i < j < |s| :: s[i] != s[j] }

  /** Pigeonhole: distinct elements of a set are at most as many as it has. */
  lemma {:induction false} DistinctFit(s: seq<nat>, u: set<nat>)
    requires Distinct(s) && forall i | 0 <= i < |s| :: s[i] in u
    ensures |s| <= |u|
  {
    if s != [] {
      var n := |s| - 1;
      DistinctFit(s[..n], u - {s[n]});
    }
  }

  // ------------------------------------------------------------ region identifiers

  const REGIONS := 64

  /** Candidate `k` from counter `c`: the non-zero bytes in turn. */
  function Candidate(c: nat, k: nat): nat { ((if c == 0 then 1 else c) - 1 + k) % 255 + 1 }

  lemma CandidateNext(c: nat, n: nat, c2: nat)
    requires c < 256 && c2 < 256 && Candidate(c2, 0) == Candidate(c, n)
    ensures Candidate(c2, 1) == Candidate(c, n + 1)
  {}

  lemma CandidatesDiffer(c: nat, i: nat, j: nat)
    requires c < 256 && i < j < 255
    ensures Candidate(c, i) != Candidate(c, j)
  {}

  class RegionIds {
    const slots: array<Slot>
    var counter: nat

    ghost predicate Valid()
      reads this, slots
    {
      slots.Length == REGIONS && counter < 256 && Unique(slots[..])
    }

    constructor ()
      ensures Valid() && forall i | 0 <= i < REGIONS :: slots[i] == FREE
    {
      slots := new Slot[REGIONS](i => FREE);
      counter := 1;
    }

    method FindFreeSlot() returns (slot: int)
      requires Valid()
      ensures slot < 0 <==> Full(slots[..])
      ensures slot >= 0 ==> slot < slots.Length && !slots[slot].inUse
    {
      for i := 0 to REGIONS
        invariant forall k | 0 <= k < i :: slots[k].inUse
      {
        if !slots[i].inUse { return i; }
      }
      return -1;
    }

    method Collides(id: nat) returns (yes: bool)
      requires Valid()
      ensures yes <==> id in Ids(slots[..])
    {
      for i := 0 to REGIONS
        invariant forall k | 0 <= k < i :: !(slots[k].inUse && slots[k].id == id)
      {
        if slots[i].inUse && slots[i].id == id {
          assert slots[..][i].inUse;
          return true;
        }
      }
      return false;
    }

    /** The next candidate; the counter is a byte and skips zero. */
    method NextCandidate() returns (id: nat)
      requires counter < 256
      modifies this`counter
      ensures id == Candidate(old(counter), 0) && 0 < id < 256 && counter < 256
      ensures Candidate(counter, 0) == Candidate(old(counter), 1)
    {
      id := counter;
      counter := (counter + 1) % 256;
      if id == 0 {
        id := counter;
        counter := (counter + 1) % 256;
      }
    }

    /** In a table with a free slot, the first candidate that is not in use comes before the
        limit on the number of tries. */
    method FindId() returns (id: nat)
      requires Valid() && !Full(slots[..])
      modifies this`counter
      ensures counter < 256 && 0 < id < 256 && id !in Ids(slots[..])
    {
      ghost var c, tried := counter, [];
      IdsBound(slots[..]);
      id := NextCandidate();
      var tries := 1;
      var clash := Collides(id);
      hide Candidate, Unique;
      while clash
        invariant Valid() && |tried| + 1 == tries <= REGIONS && 0 < id < 256 && clash == (id in Ids(slots[..]))
        invariant id == Candidate(c, |tried|)
        invariant forall i | 0 <= i < |tried| :: tried[i] == Candidate(c, i) && tried[i] in Ids(slots[..])
        invariant Candidate(counter, 0) == Candidate(c, |tried| + 1)
        decreases REGIONS - tries
      {
        tried := tried + [id];
        CandidateNext(c, |tried|, counter);
        id := NextCandidate();
        tries := tries + 1;
        if tries > REGIONS {
          TooMany(c, tried, Ids(slots[..]));
          assert false;
        }
        clash := Collides(id);
      }
    }

    /** Fails exactly when all slots are in use; otherwise the identifier is new. */
    method Assign(owner: nat) returns (ok: bool, id: nat)
      requires Valid()
      modifies this`counter, slots
      ensures Valid()
      ensures ok <==> !Full(old(slots[..]))
      ensures ok ==> 0 < id < 256 && id !in old(Ids(slots[..])) && Ids(slots[..]) == old(Ids(slots[..])) + {id}
      ensures ok ==> exists k ::
                0 <= k < REGIONS && !old(slots[..])[k].inUse && slots[..] == old(slots[..])[k := Slot(owner, id, true)]
      ensures !ok ==> slots[..] == old(slots[..])
    {
      id := 0;
      var slot := FindFreeSlot();
      if slot < 0 { return false, 0; }
      ghost var s := slots[..];
      id := FindId();
      slots[slot] := Slot(owner, id, true);
      assert slots[..] == s[slot := Slot(owner, id, true)];
      NewUnique(s, slot, Slot(owner, id, true));
      ok := true;
    }

    /** Releases the slot of the identifier; fails exactly when it is not in use. */
    method Remove(id: nat) returns (ok: bool)
      requires Valid()
      modifies slots
      ensures Valid()
      ensures ok <==> id in old(Ids(slots[..]))
      ensures Ids(slots[..]) == old(Ids(slots[..])) - {id}
      ensures forall k | 0 <= k < REGIONS && old(slots[..])[k].id != id :: slots[k] == old(slots[..])[k]
    {
      ghost var s := slots[..];
      for i := 0 to REGIONS
        invariant slots[..] == s && forall k | 0 <= k < i :: !(s[k].inUse && s[k].id == id)
      {
        if slots[i].inUse && slots[i].id == id {
          slots[i] := FREE;
          assert slots[..] == s[i := FREE] && s[i].inUse;
          FreedIds(s, i);
          return true;
        }
      }
      assert id !in Ids(s);
      return false;
    }
  }

  lemma TooMany(c: nat, tried: seq<nat>, u: set<nat>)
    requires c < 256 && |tried| <= 255 && forall i | 0 <= i < |tried| :: tried[i] == Candidate(c, i) && tried[i] in u
    ensures |tried| <= |u|
  {
    forall i, j | 0 <= i < j < |tried| ensures tried[i] != tried[j] { CandidatesDiffer(c, i, j); }
    DistinctFit(tried, u);
  }

  lemma NewUnique(s: seq<Slot>, k: nat, x: Slot)
    requires Unique(s) && k < |s| && !s[k].inUse && x.inUse && 0 < x.id < 256 && x.id !in Ids(s)
    ensures Unique(s[k := x]) && Ids(s[k := x]) == Ids(s) + {x.id}
  {
    var t := s[k := x];
    assert t[k].id in Ids(t);
    forall i | 0 <= i < |s| && s[i].inUse ensures s[i].id in Ids(t) && s[i].id in Ids(s) { assert t[i].inUse; }
  }

  lemma FreedIds(s: seq<Slot>, k: nat)
    requires Unique(s) && k < |s| && s[k].inUse
    ensures Unique(s[k := FREE]) && Ids(s[k := FREE]) == Ids(s) - {s[k].id} && s[k].id in Ids(s)
  {
    var t := s[k := FREE];
    forall i | 0 <= i < |s| && s[i].inUse && i != k ensures s[i].id in Ids(t) && s[i].id != s[k].id {
      assert t[i].inUse;
    }
  }

  // ------------------------------------------------------------ realm tags

  const REALMS := 10
  const TRIES := 16
  const DEFAULTS := 10

  function DefaultTag(i: nat): nat { 0x11 * (i + 1) }

  /** The exclusive-or of a byte with 0xF0. */
  function Flip(c: nat): nat
    requires c < 256
  {
    (15 - c / 16) * 16 + c % 16
  }

  /** The tag generated from index `i` into the default tags and counter `c`, and the values after. */
  function Generated(i: nat, c: nat): (nat, nat, nat)
    requires c < 256
  {
    if i < DEFAULTS then (DefaultTag(i), i + 1, c)
    else (if Flip(c) == 0 then 1 else Flip(c), i, (c + 1) % 256)
  }

  /** Tag number `k` from there. */
  function TagNo(i: nat, c: nat, k: nat): nat
    requires c < 256
  {
    if i + k < DEFAULTS then DefaultTag(i + k)
    else
      var d := (c + (if i < DEFAULTS then i + k - DEFAULTS else k)) % 256;
      if Flip(d) == 0 then 1 else Flip(d)
  }

  /** Where to look for ten different tags among the next sixteen: the counter value 0xF0, for
      which 1 replaces the exclusive-or, is left out. */
  function Pick(i: nat, c: nat, k: nat): nat
    requires c < 256
  {
    if i < DEFAULTS then k else if k < (0xF0 + 256 - c) % 256 then k else k + 1
  }

  lemma FlipInjective(a: nat, b: nat)
    requires a < 256 && b < 256 && Flip(a) == Flip(b)
    ensures a == b
  {}

  lemma PicksDiffer(i: nat, c: nat, j: nat, k: nat)
    requires c < 256 && i <= DEFAULTS && (i < DEFAULTS ==> c == 1) && j < k < REALMS
    ensures Pick(i, c, k) < TRIES && TagNo(i, c, Pick(i, c, j)) != TagNo(i, c, Pick(i, c, k))
  {
    if i == DEFAULTS {
      LatePick(c, j);
      LatePick(c, k);
      LatePicksDiffer(c, j, k);
      var a, b := (c + Pick(i, c, j)) % 256, (c + Pick(i, c, k)) % 256;
      hide Flip, Pick;
      if Flip(a) == Flip(b) { FlipInjective(a, b); }
    } else {
      EarlyTag(i, j);
      EarlyTag(i, k);
    }
  }

  /** Before the default tags are used up, the exclusive-ors that follow them are 0xF1 and up. */
  lemma EarlyTag(i: nat, k: nat)
    requires i < DEFAULTS && k < REALMS
    ensures TagNo(i, 1, k) == if i + k < DEFAULTS then DefaultTag(i + k) else 0xF1 + (i + k - DEFAULTS)
  {}

  lemma LatePick(c: nat, k: nat)
    requires c < 256 && k < REALMS
    ensures var d := (c + Pick(DEFAULTS, c, k)) % 256;
            d != 0xF0 && Flip(d) != 0 && TagNo(DEFAULTS, c, Pick(DEFAULTS, c, k)) == Flip(d)
  {}

  lemma LatePicksDiffer(c: nat, j: nat, k: nat)
    requires c < 256 && j < k < REALMS
    ensures (c + Pick(DEFAULTS, c, j)) % 256 != (c + Pick(DEFAULTS, c, k)) % 256
  {}

  /** Sixteen tags in a row are not all among nine. */
  lemma TooManyTags(i: nat, c: nat, tried: seq<nat>, u: set<nat>)
    requires c < 256 && i <= DEFAULTS && (i < DEFAULTS ==> c == 1) && |tried| == TRIES
    requires forall k | 0 <= k < TRIES :: tried[k] == TagNo(i, c, k) && tried[k] in u
    ensures |u| >= REALMS
  {
    forall k | 0 <= k < REALMS ensures Pick(i, c, k) < TRIES {
      if k == 0 { PicksDiffer(i, c, 0, 1); } else { PicksDiffer(i, c, 0, k); }
    }
    var p := seq(REALMS, k requires 0 <= k < REALMS => TagNo(i, c, Pick(i, c, k)));
    hide Pick, TagNo;
    forall j, k | 0 <= j < k < REALMS ensures p[j] != p[k] { PicksDiffer(i, c, j, k); }
    forall k | 0 <= k < REALMS ensures p[k] in u { assert tried[Pick(i, c, k)] in u; }
    DistinctFit(p, u);
  }

  /** The owners of slots in use are distinct. */
  ghost predicate UniqueOwners(s: seq<Slot>) {
    forall i, j | 0 <= i < j < |s| && s[i].inUse && s[j].inUse :: s[i].owner != s[j].owner
  }

  predicate HasTag(s: seq<Slot>, rd: nat) { exists i :: 0 <= i < |s| && s[i].inUse && s[i].owner == rd }

  class RealmTags {
    const slots: array<Slot>
    var next: nat
    var counter: nat

    ghost predicate Valid()
      reads this, slots
    {
      && slots.Length == REALMS && Unique(slots[..]) && UniqueOwners(slots[..])
      && counter < 256 && next <= DEFAULTS && (next < DEFAULTS ==> counter == 1)
    }

    constructor ()
      ensures Valid() && forall i | 0 <= i < REALMS :: slots[i] == FREE
    {
      slots := new Slot[REALMS](i => FREE);
      next, counter := 0, 1;
    }

    method FindSlot(rd: nat) returns (slot: int)
      requires Valid()
      ensures slot < 0 <==> !HasTag(slots[..], rd)
      ensures slot >= 0 ==> slot < REALMS && slots[slot].inUse && slots[slot].owner == rd
    {
      for i := 0 to REALMS
        invariant forall k | 0 <= k < i :: !(slots[k].inUse && slots[k].owner == rd)
      {
        if slots[i].inUse && slots[i].owner == rd {
          assert slots[..][i].inUse;
          return i;
        }
      }
      return -1;
    }

    method FindFreeSlot() returns (slot: int)
      requires Valid()
      ensures slot < 0 <==> Full(slots[..])
      ensures slot >= 0 ==> slot < REALMS && !slots[slot].inUse
    {
      for i := 0 to REALMS
        invariant forall k | 0 <= k < i :: slots[k].inUse
      {
        if !slots[i].inUse { return i; }
      }
      return -1;
    }

    method FindTag(tag: nat) returns (slot: int)
      requires Valid()
      ensures slot < 0 <==> tag !in Ids(slots[..])
      ensures slot >= 0 ==> slot < REALMS && slots[slot].inUse && slots[slot].id == tag
    {
      for i := 0 to REALMS
        invariant forall k | 0 <= k < i :: !(slots[k].inUse && slots[k].id == tag)
      {
        if slots[i].inUse && slots[i].id == tag {
          assert slots[..][i].inUse;
          return i;
        }
      }
      return -1;
    }

    method GenerateNext() returns (tag: nat)
      requires counter < 256 && next <= DEFAULTS
      modifies this`next, this`counter
      ensures (tag, next, counter) == Generated(old(next), old(counter)) && 0 < tag < 256 && counter < 256
      ensures next <= DEFAULTS
    {
      if next < DEFAULTS {
        tag := DefaultTag(next);
        next := next + 1;
      } else {
        tag := Flip(counter);
        counter := (counter + 1) % 256;
        if tag == 0 { tag := 1; }
      }
    }

    /** A free tag is found within the limit on the number of tries. */
    method FindNewTag() returns (tag: nat)
      requires Valid() && !Full(slots[..])
      modifies this`next, this`counter
      ensures Valid() && 0 < tag < 256 && tag !in Ids(slots[..])
    {
      ghost var i, c, tried := next, counter, [];
      IdsBound(slots[..]);
      TagStep(i, c, 0);
      tag := NextTag(i, c, 0);
      var tries := 1;
      var slot := FindTag(tag);
      hide *;
      while slot >= 0
        invariant Valid() && |tried| + 1 == tries <= TRIES && 0 < tag < 256
        invariant slot >= 0 <==> tag in Ids(slots[..])
        invariant tag == TagNo(i, c, |tried|) && (next, counter) == StateAfter(i, c, |tried| + 1)
        invariant forall k | 0 <= k < |tried| :: tried[k] == TagNo(i, c, k) && tried[k] in Ids(slots[..])
        decreases TRIES - tries
      {
        tried := tried + [tag];
        tag := NextTag(i, c, |tried|);
        tries := tries + 1;
        if tries > TRIES {
          TooManyTags(i, c, tried, Ids(slots[..]));
          assert false;
        }
        slot := FindTag(tag);
      }
    }

    /** Tag number `k` since index `i` and counter `c`. */
    method NextTag(ghost i: nat, ghost c: nat, ghost k: nat) returns (tag: nat)
      requires Valid() && c < 256 && i <= DEFAULTS && (i < DEFAULTS ==> c == 1)
      requires (next, counter) == StateAfter(i, c, k)
      modifies this`next, this`counter
      ensures Valid() && 0 < tag < 256 && tag == TagNo(i, c, k) && (next, counter) == StateAfter(i, c, k + 1)
    {
      TagStep(i, c, k);
      hide Unique, UniqueOwners, TagNo, Flip, DefaultTag;
      tag := GenerateNext();
    }

    /** Fails exactly when the realm has a tag or all slots are in use; otherwise the tag is
        new, and stands in a slot of its own. */
    method Assign(rd: nat) returns (ok: bool, tag: nat)
      requires Valid()
      modifies this`next, this`counter, slots
      ensures Valid()
      ensures ok <==> !HasTag(old(slots[..]), rd) && !Full(old(slots[..]))
      ensures ok ==> 0 < tag < 256 && tag !in old(Ids(slots[..]))
      ensures ok ==> exists k ::
                0 <= k < REALMS && !old(slots[..])[k].inUse && slots[..] == old(slots[..])[k := Slot(rd, tag, true)]
      ensures !ok ==> slots[..] == old(slots[..])
    {
      tag := 0;
      ghost var s := slots[..];
      var has := FindSlot(rd);
      if has >= 0 { return false, 0; }
      var slot := FindFreeSlot();
      if slot < 0 { return false, 0; }
      tag := FindNewTag();
      slots[slot] := Slot(rd, tag, true);
      assert slots[..] == s[slot := Slot(rd, tag, true)];
      NewUnique(s, slot, Slot(rd, tag, true));
      NewOwner(s, slot, Slot(rd, tag, true));
      ok := true;
    }

    method TagOf(rd: nat) returns (ok: bool, tag: nat)
      requires Valid()
      ensures ok <==> HasTag(slots[..], rd)
      ensures ok ==> tag in Ids(slots[..]) && Owns(slots[..], rd, tag)
      ensures ok ==> forall rd' | Owns(slots[..], rd', tag) :: rd' == rd
    {
      tag := 0;
      var slot := FindSlot(rd);
      ok := slot >= 0;
      if ok {
        tag := slots[slot].id;
        assert slots[..][slot] == Slot(rd, tag, true);
        OwnsOne(slots[..]);
      }
    }

    /** The inverse lookup. */
    method OwnerOf(tag: nat) returns (ok: bool, rd: nat)
      requires Valid()
      ensures ok <==> tag in Ids(slots[..])
      ensures ok ==> HasTag(slots[..], rd) && Owns(slots[..], rd, tag)
      ensures ok ==> forall tag' | Owns(slots[..], rd, tag') :: tag' == tag
    {
      rd := 0;
      if tag == 0 {
        assert tag !in Ids(slots[..]);
        return false, 0;
      }
      var slot := FindTag(tag);
      ok := slot >= 0;
      if ok {
        rd := slots[slot].owner;
        assert slots[..][slot] == Slot(rd, tag, true);
        OwnsOne(slots[..]);
      }
    }

    method Remove(rd: nat) returns (ok: bool)
      requires Valid()
      modifies slots
      ensures Valid() && ok == HasTag(old(slots[..]), rd) && !HasTag(slots[..], rd)
      ensures forall rd', tag' | rd' != rd :: Owns(slots[..], rd', tag') <==> Owns(old(slots[..]), rd', tag')
    {
      ghost var s := slots[..];
      var slot := FindSlot(rd);
      ok := slot >= 0;
      if ok {
        slots[slot] := FREE;
        assert slots[..] == s[slot := FREE];
        FreedIds(s, slot);
        forall rd', tag' | rd' != rd ensures Owns(slots[..], rd', tag') <==> Owns(s, rd', tag') {
          if Owns(s, rd', tag') {
            var i :| 0 <= i < |s| && s[i] == Slot(rd', tag', true);
            assert slots[..][i] == s[i];
          }
        }
      }
    }
  }

  /** The slot of realm `rd` has tag `tag`. */
  predicate Owns(s: seq<Slot>, rd: nat, tag: nat) { Slot(rd, tag, true) in s }

  /** A realm has one tag and a tag one realm. */
  lemma OwnsOne(s: seq<Slot>)
    requires Unique(s) && UniqueOwners(s)
    ensures forall rd, tag, rd', tag' | Owns(s, rd, tag) && Owns(s, rd', tag') :: rd == rd' <==> tag == tag'
  {}

  lemma NewOwner(s: seq<Slot>, k: nat, x: Slot)
    requires UniqueOwners(s) && k < |s| && !s[k].inUse && !HasTag(s, x.owner)
    ensures UniqueOwners(s[k := x])
  {}

  /** Index and counter after `k` tags. */
  function StateAfter(i: nat, c: nat, k: nat): (nat, nat)
    requires c < 256
  {
    if i + k <= DEFAULTS then (i + k, c)
    else (DEFAULTS, (c + (if i < DEFAULTS then i + k - DEFAULTS else k)) % 256)
  }

  lemma TagStep(i: nat, c: nat, k: nat)
    requires c < 256 && i <= DEFAULTS
    ensures var (i1, c1) := StateAfter(i, c, k);
            c1 < 256 && Generated(i1, c1) == (TagNo(i, c, k), StateAfter(i, c, k + 1).0, StateAfter(i, c, k + 1).1)
  {
    hide Flip, DefaultTag;
    if i + k >= DEFAULTS {
      var n := if i < DEFAULTS then i + k - DEFAULTS else k;
      NextByte(c, n);
    }
  }

  lemma NextByte(c: nat, n: nat)
    ensures ((c + n) % 256 + 1) % 256 == (c + (n + 1)) % 256
  {}
}
