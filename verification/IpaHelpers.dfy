/** The helpers for walks on behalf of a running REC and for memory shared between realms:
    RIPAS queries, address translation, and the mapping and unmapping of a page of another
    realm, whose bearing on the reference counts depends on what they overwrite. */
module IpaHelpers {
  import opened S2Geometry
  import opened S2tte
  import opened RealmGeometry
  import opened Rtt
  import opened RttSteps
  import opened RttFlat
  import opened RttInvariants
  import opened RttCommands
  import opened DataCommands
  import opened RttQueries
  import opened RttLeaves
  import opened RecCommands
  import opened Rmm

  // ------------------------------------------------------------ mapping a page of another realm

  ghost predicate PageWalk(m: Machine, rd: Addr, ipa: Addr, w: WalkResult) {
    Reached(m, rd, PAGE_LEVEL, ipa, w) && AtEntry(m, w.table, w.idx)
  }

  /** map_ipa_to_pa: overwrites the page entry, whatever it was, and takes a reference. */
  function MapIpa(m: Machine, w: WalkResult, pa: Addr): Machine
    requires w.table in m.tables && w.table in m.gs && w.idx < |m.tables[w.table]|
  {
    if w.level != PAGE_LEVEL then m
    else m.(tables := m.tables[w.table := m.tables[w.table][w.idx := AssignedEntry(Ram, pa)]],
            gs := m.gs[w.table := m.gs[w.table].(refcount := m.gs[w.table].refcount + 1)])
  }

  /** unmap_ipa_from_rd: a protected page becomes unassigned and loses its reference. */
  function UnmapIpa(m: Machine, w: WalkResult): Machine
    requires w.table in m.tables && w.table in m.gs && w.idx < |m.tables[w.table]|
  {
    var e := m.tables[w.table][w.idx];
    if w.level != PAGE_LEVEL || !e.AssignedEntry? then m
    else SetEntry(m, w.table, w.idx, UnassignedEntry(RipasLeft(e.ripas)))
  }

  /** Mapping keeps the reference counts right if and only if the page was not assigned. */
  lemma MapIpaCounts(m: Machine, rd: Addr, ipa: Addr, w: WalkResult, pa: Addr)
    requires PageWalk(m, rd, ipa, w)
    ensures CountsInv(MapIpa(m, w, pa)) <==> w.level != PAGE_LEVEL || !PageAt(m, rd, ipa).Assigned?
  {
    ReachedFacts(m, rd, PAGE_LEVEL, ipa, w);
    var m2, e := MapIpa(m, w, pa), m.tables[w.table][w.idx];
    if w.level == PAGE_LEVEL {
      assert RefcountOk(m, w.table);
      CountUpdate(m.tables[w.table], w.idx, AssignedEntry(Ram, pa));
      assert PageAt(m, rd, ipa).Assigned? <==> e.AssignedEntry?;
      hide Count, Inv, Walk;
      assert RefcountOk(m2, w.table) <==> !e.Counted();
      if !e.Counted() {
        forall t | t in m2.place ensures RefcountOk(m2, t) { CountOther(m, t); }
      }
    }
  }

  lemma CountOther(m: Machine, t: Addr)
    requires Inv(m) && t in m.place
    ensures RefcountOk(m, t)
  {}

  /** A page that maps an aligned address keeps the whole table invariant in that case. */
  lemma MapIpaInv(m: Machine, rd: Addr, ipa: Addr, w: WalkResult, pa: Addr)
    requires PageWalk(m, rd, ipa, w) && pa % PAGE == 0 && pa < OutputSize(m.realms[rd].fmt)
    requires w.level == PAGE_LEVEL ==> !PageAt(m, rd, ipa).Assigned?
    ensures Inv(MapIpa(m, w, pa))
  {
    ReachedFacts(m, rd, PAGE_LEVEL, ipa, w);
    if w.level == PAGE_LEVEL {
      var e := AssignedEntry(Ram, pa);
      EntryFacts(m, w.table, w.idx);
      assert !m.tables[w.table][w.idx].Counted();
      SetEntryInv(m, w.table, w.idx, e);
      hide Inv, Walk;
      assert MapIpa(m, w, pa) == SetEntry(m, w.table, w.idx, e);
    }
  }

  /** Unmapping always keeps the table invariant. */
  lemma UnmapIpaInv(m: Machine, rd: Addr, ipa: Addr, w: WalkResult)
    requires PageWalk(m, rd, ipa, w)
    ensures Inv(UnmapIpa(m, w))
  {
    ReachedFacts(m, rd, PAGE_LEVEL, ipa, w);
    var e := m.tables[w.table][w.idx];
    if w.level == PAGE_LEVEL && e.AssignedEntry? {
      SetEntryInv(m, w.table, w.idx, UnassignedEntry(RipasLeft(e.ripas)));
    }
  }

  /** map_ipa_to_pa maps exactly the page of the address, if it is mapped at page level, to the given
      memory, as RAM; unmap_ipa_from_rd unmaps exactly the page, if it is assigned there, leaving
      EMPTY as it was and anything else DESTROYED. No other page of any realm changes. */
  lemma HelpersFlat(m: Machine, rd: Addr, ipa: Addr, w: WalkResult, pa: Addr, rd': Addr, b: Addr)
    requires PageWalk(m, rd, ipa, w) && Mapped(m, rd', b)
    ensures Mapped(m, rd, ipa)
    ensures var hit := rd' == rd && b / PAGE == ipa / PAGE && LeafLevel(m, rd, ipa) == 3;
            var m2 := MapIpa(m, w, pa);
            && Mapped(m2, rd', b)
            && PageAt(m2, rd', b) == (if hit then Assigned(Ram, pa + b % PAGE) else PageAt(m, rd', b))
    ensures var page := PageAt(m, rd, ipa);
            var hit := rd' == rd && b / PAGE == ipa / PAGE && LeafLevel(m, rd, ipa) == 3 && page.Assigned?;
            var m2 := UnmapIpa(m, w);
            && Mapped(m2, rd', b)
            && PageAt(m2, rd', b) == (if hit then Unassigned(if page.ripas.Empty? then Empty else Destroyed)
                                      else PageAt(m, rd', b))
  {
    WalkStops(m, rd, PAGE_LEVEL, ipa, w);
    var e := m.tables[w.table][w.idx];
    hide Inv, Walk, Geometry, Flat, Idx, ValidEntry, LeafLevel, IpaSize;
    if w.level == PAGE_LEVEL {
      FlatSet(m, rd, PAGE_LEVEL, ipa, w, AssignedEntry(Ram, pa), rd', b);
      assert MapIpa(m, w, pa).tables == SetEntry(m, w.table, w.idx, AssignedEntry(Ram, pa)).tables;
      if e.AssignedEntry? { FlatSet(m, rd, PAGE_LEVEL, ipa, w, UnassignedEntry(RipasLeft(e.ripas)), rd', b); }
    }
  }

  /** Mapping the same page twice loses count: it takes two references for one entry. */
  lemma MapTwiceMiscounts(m: Machine, rd: Addr, ipa: Addr, w: WalkResult, pa: Addr)
    requires PageWalk(m, rd, ipa, w) && w.level == PAGE_LEVEL && !PageAt(m, rd, ipa).Assigned?
    ensures var m2 := MapIpa(MapIpa(m, w, pa), w, pa);
            w.table in m2.gs && w.table in m2.tables && m2.gs[w.table].refcount == Count(m2.tables[w.table]) + 1
  {
    ReachedFacts(m, rd, PAGE_LEVEL, ipa, w);
    EntryFacts(m, w.table, w.idx);
    var e := AssignedEntry(Ram, pa);
    CountUpdate(m.tables[w.table], w.idx, e);
    CountUpdate(m.tables[w.table][w.idx := e], w.idx, e);
    assert !m.tables[w.table][w.idx].Counted();
    hide Inv, Count, Walk;
  }

  // ------------------------------------------------------------ as carried out

  method MapIpaToPa(s: Monitor, rd: Addr, pa: Addr, ipa: Addr)
    requires Inv(s.State()) && Mapped(s.State(), rd, ipa) && forall t | t in s.place :: t !in s.locks
    modifies s`locks, s`tables, s`gs
    ensures s.locks == old(s.locks)
    ensures old(PageWalk(s.State(), rd, ipa, RealmWalk(s.tables, s.realms[rd], PAGE_LEVEL, ipa)))
    ensures s.State() == MapIpa(old(s.State()), old(RealmWalk(s.tables, s.realms[rd], PAGE_LEVEL, ipa)), pa)
  {
    ghost var m := s.State();
    hide Walk, Count, Inv, Geometry, InIpa, Idx;
    var w := s.WalkRealm(rd, ipa, PAGE_LEVEL, true);
    if w.level == PAGE_LEVEL {
      RoomForMore(m, w);
      s.WriteEntry(w.table, w.idx, AssignedEntry(Ram, pa));
      s.RefcountInc(w.table, 1);
    }
    s.Unlock(w.table);
  }

  /** The count of a good table stays within the width of its field, mapped twice or not. */
  lemma RoomForMore(m: Machine, w: WalkResult)
    requires AtEntry(m, w.table, w.idx)
    ensures m.gs[w.table].refcount + 1 <= REFCOUNT_MAX
  {
    EntryFacts(m, w.table, w.idx);
    CountBounds(m.tables[w.table]);
  }

  method UnmapIpaFromRd(s: Monitor, rd: Addr, ipa: Addr)
    requires Inv(s.State()) && Mapped(s.State(), rd, ipa) && forall t | t in s.place :: t !in s.locks
    modifies s`locks, s`tables, s`gs
    ensures s.locks == old(s.locks)
    ensures old(PageWalk(s.State(), rd, ipa, RealmWalk(s.tables, s.realms[rd], PAGE_LEVEL, ipa)))
    ensures s.State() == UnmapIpa(old(s.State()), old(RealmWalk(s.tables, s.realms[rd], PAGE_LEVEL, ipa)))
  {
    ghost var m := s.State();
    hide Walk, Count, Inv, Geometry, InIpa, Idx;
    var w := s.WalkRealm(rd, ipa, PAGE_LEVEL, true);
    var e := s.tables[w.table][w.idx];
    if w.level == PAGE_LEVEL && e.AssignedEntry? {
      FreeEntry(s.tables[w.table], w.idx);
      s.WriteEntry(w.table, w.idx, UnassignedEntry(if e.ripas.Empty? then Empty else Destroyed));
      s.RefcountDec(w.table, 1);
      assert s.gs == UnmapIpa(m, w).gs;
    }
    s.Unlock(w.table);
  }

  /** realm_ipa_get_ripas: scans the table of the walk while the RIPAS stays the same. */
  method ScanRipas(es: seq<Entry>, index: nat, level: int, start: Addr, end: Addr) returns (q: StateGet)
    requires MIN_LEVEL <= level <= PAGE_LEVEL && index < |es| && start < end
    ensures q == StateGetAt(es, index, level, start, end)
  {
    var span := Span(level);
    var base := start / span * span;
    var addr, i, ripas := base, index, Empty;
    ghost var r := if es[index].HasRipas() then es[index].ripas else Empty;
    hide Span;
    while i < |es|
      invariant index <= i <= |es| && addr == base + (i - index) * span
      invariant addr == base <==> i == index
      invariant i > index ==>
                  && es[index].HasRipas() && ripas == r
                  && RunEnd(es, index, level, base, end, r) == RunEnd(es, i, level, addr, end, r)
    {
      if !es[i].HasRipas() { break; }
      if addr == base { ripas := es[i].ripas; } else if es[i].ripas != ripas { break; }
      assert addr + span == base + (i + 1 - index) * span;
      assert (i + 1 - index) * span >= span by { MulLe(1, i + 1 - index, span); }
      addr := addr + span;
      i := i + 1;
      if addr >= end { break; }
    }
    if addr == base { return StateGetError; }
    return StateGetOk(if addr > end then end else addr, ripas);
  }
}
