/** The part of the invariant that speaks about flat maps: protected and unprotected
    addresses do not mix, and DATA granules and protected mappings are in bijection. */
module RttInvariants {
  import opened S2Geometry
  import opened S2tte
  import opened RealmGeometry
  import opened Rtt
  import opened RttSteps
  import opened RttFlat

  predicate NsPage(p: Page) { p.UnassignedNs? || p.AssignedNs? }

  /** `ipa` is an address of realm `rd`. */
  predicate Mapped(m: Machine, rd: Addr, ipa: Addr) {
    rd in m.realms && ValidRealm(m.realms[rd]) && InIpa(m.realms[rd], ipa)
  }

  function PageAt(m: Machine, rd: Addr, ipa: Addr): Page
    requires Mapped(m, rd, ipa)
  {
    Flat(m.tables, m.realms[rd], ipa)
  }

  /** Protected addresses never map non-secure memory, unprotected ones map nothing else. */
  predicate ParOk(m: Machine, rd: Addr, ipa: Addr)
    requires Mapped(m, rd, ipa)
  {
    var p := PageAt(m, rd, ipa);
    p != NoPage && (NsPage(p) <==> !InPar(m.realms[rd], ipa))
  }

  /** A protected mapping of a page is of a DATA granule that records it as its owner. */
  predicate MappingOk(m: Machine, rd: Addr, ipa: Addr)
    requires Mapped(m, rd, ipa)
  {
    var p := PageAt(m, rd, ipa);
    p.Assigned? && ipa % PAGE == 0 ==>
      && p.pa in m.gs && m.gs[p.pa].state.DataState?
      && p.pa in m.owner && m.owner[p.pa] == Owner(rd, ipa)
  }

  /** A DATA granule is mapped where its owner says. */
  predicate OwnerOk(m: Machine, a: Addr) {
    && a in m.owner
    && Mapped(m, m.owner[a].rd, m.owner[a].ipa) && m.owner[a].ipa % PAGE == 0
    && var p := PageAt(m, m.owner[a].rd, m.owner[a].ipa); p.Assigned? && p.pa == a
  }

  ghost predicate FlatInv(m: Machine) {
    && (forall rd, ipa {:trigger ParOk(m, rd, ipa)} | Mapped(m, rd, ipa) :: ParOk(m, rd, ipa))
    && (forall rd, ipa {:trigger MappingOk(m, rd, ipa)} | Mapped(m, rd, ipa) :: MappingOk(m, rd, ipa))
    && (forall a {:trigger OwnerOk(m, a)} | a in m.gs && m.gs[a].state.DataState? :: OwnerOk(m, a))
  }

  ghost predicate FullInv(m: Machine) { Inv(m) && FlatInv(m) }

  /** The same protected mapping, or none, on the same side of the PAR boundary. */
  predicate Compatible(p: Page, q: Page) {
    && (p.Assigned? <==> q.Assigned?) && (p.Assigned? ==> q.pa == p.pa)
    && (NsPage(p) <==> NsPage(q)) && (p == NoPage <==> q == NoPage)
  }

  /** A step that keeps every mapping compatible keeps the flat invariant. */
  lemma CompatibleInv(m: Machine, m2: Machine)
    requires FlatInv(m) && m2.realms == m.realms && m2.owner == m.owner
    requires forall a | a in m.gs && m.gs[a].state.DataState? :: a in m2.gs && m2.gs[a].state.DataState?
    requires forall a | a in m2.gs && m2.gs[a].state.DataState? :: a in m.gs && m.gs[a].state.DataState?
    requires forall rd, ipa | Mapped(m, rd, ipa) :: Compatible(PageAt(m, rd, ipa), PageAt(m2, rd, ipa))
    ensures FlatInv(m2)
  {
    hide Flat, ValidRealm, InIpa, InPar;
    forall rd, ipa | Mapped(m2, rd, ipa) ensures ParOk(m2, rd, ipa) && MappingOk(m2, rd, ipa) {
      assert Mapped(m, rd, ipa) && ParOk(m, rd, ipa) && MappingOk(m, rd, ipa);
      assert Compatible(PageAt(m, rd, ipa), PageAt(m2, rd, ipa));
    }
    forall a | a in m2.gs && m2.gs[a].state.DataState? ensures OwnerOk(m2, a) {
      assert OwnerOk(m, a);
      assert Compatible(PageAt(m, m.owner[a].rd, m.owner[a].ipa), PageAt(m2, m.owner[a].rd, m.owner[a].ipa));
    }
  }

  // ------------------------------------------------------------ DATA granules come and go

  /** Map the unmapped granule `data` at `ipa`. */
  ghost predicate CanMap(m: Machine, rd: Addr, ipa: Addr, w: WalkResult, r: Ripas, data: Addr) {
    && FullInv(m) && Reached(m, rd, PAGE_LEVEL, ipa, w) && w.level == PAGE_LEVEL && ipa % PAGE == 0
    && AtEntry(m, w.table, w.idx) && m.tables[w.table][w.idx].UnassignedEntry?
    && data in m.gs && m.gs[data].state.Delegated? && data < OutputSize(m.realms[rd].fmt)
  }

  function MapData(m: Machine, w: WalkResult, rd: Addr, ipa: Addr, r: Ripas, data: Addr): Machine
    requires w.table in m.tables && w.table in m.gs && w.idx < |m.tables[w.table]| && data in m.gs
  {
    var m1 := SetEntry(m, w.table, w.idx, AssignedEntry(r, data));
    m1.(gs := m1.gs[data := Granule(DataState, 0, false)], owner := m.owner[data := Owner(rd, ipa)])
  }

  lemma MapDataInv(m: Machine, rd: Addr, ipa: Addr, w: WalkResult, r: Ripas, data: Addr)
    requires CanMap(m, rd, ipa, w, r, data)
    ensures Inv(MapData(m, w, rd, ipa, r, data))
  {
    ReachedFacts(m, rd, PAGE_LEVEL, ipa, w);
    assert GranuleOk(m, data) && GranuleOk(m, w.table);
    var e := AssignedEntry(r, data);
    assert ValidEntry(m.realms[rd].fmt, e, PAGE_LEVEL);
    SetEntryInv(m, w.table, w.idx, e);
    StateChange(SetEntry(m, w.table, w.idx, e), data, Granule(DataState, 0, false), m.owner[data := Owner(rd, ipa)]);
  }

  /** Changing a granule that is neither table, RD nor REC, and owners, keeps the tables good. */
  lemma StateChange(m: Machine, a: Addr, g: Granule, owner: map<Addr, Owner>)
    requires Inv(m) && a in m.gs && a !in m.place && a !in m.realms && a !in m.recs
    requires !g.state.RttState? && !g.state.RdState? && !g.state.RecState? && g.refcount == 0
    requires g.state.Delegated? ==> g.zero
    ensures Inv(m.(gs := m.gs[a := g], owner := owner))
  {
    var m2 := m.(gs := m.gs[a := g], owner := owner);
    StateChangeTables(m, m2);
    hide TableOk, RootsOk;
    assert CountsInv(m2) by {
      forall t | t in m2.place ensures RefcountOk(m2, t) { assert RefcountOk(m, t); }
    }
    assert GranulesInv(m2) by {
      forall x | x in m2.gs ensures GranuleOk(m2, x) { assert GranuleOk(m, x); }
    }
  }

  /** Tables are as good in a state that differs in granules, RECs and owners only. */
  lemma StateChangeTables(m: Machine, m2: Machine)
    requires TablesInv(m) && RootsInv(m)
    requires m2.tables == m.tables && m2.realms == m.realms && m2.place == m.place
    ensures TablesInv(m2) && RootsInv(m2)
  {
    hide ValidEntry, NumRootRtts, Lsb;
    forall t | t in m2.place ensures TableOk(m2, t) {
      assert TableOk(m, t);
      forall i: nat | i < ENTRIES ensures EntryOk(m2, t, i) { assert EntryOk(m, t, i); }
    }
    forall rd | rd in m2.realms ensures RootsOk(m2, rd) { assert RootsOk(m, rd); }
  }

  /** Mapping a granule changes one page of one realm: the one it is mapped at. */
  lemma MapDataFlat(m: Machine, rd: Addr, ipa: Addr, w: WalkResult, r: Ripas, data: Addr, rd': Addr, b: Addr)
    requires CanMap(m, rd, ipa, w, r, data) && Mapped(m, rd', b)
    ensures var m2 := MapData(m, w, rd, ipa, r, data);
            Mapped(m2, rd', b) && PageAt(m2, rd', b)
            == if rd' == rd && ipa <= b < ipa + PAGE then Assigned(r, data + (b - ipa)) else PageAt(m, rd', b)
    ensures PageAt(m, rd, ipa) == Unassigned(m.tables[w.table][w.idx].ripas)
  {
    FlatSet(m, rd, PAGE_LEVEL, ipa, w, AssignedEntry(r, data), rd', b);
    EntryRange(ipa, b, PAGE_LEVEL);
  }

  lemma MapDataFlatInv(m: Machine, rd: Addr, ipa: Addr, w: WalkResult, r: Ripas, data: Addr)
    requires CanMap(m, rd, ipa, w, r, data)
    ensures FlatInv(MapData(m, w, rd, ipa, r, data))
  {
    var m2 := MapData(m, w, rd, ipa, r, data);
    hide Flat, ValidRealm, InIpa, CanMap, SetEntry;
    forall rd', b | Mapped(m2, rd', b) ensures ParOk(m2, rd', b) && MappingOk(m2, rd', b) {
      MapDataPage(m, rd, ipa, w, r, data, rd', b);
    }
    forall a | a in m2.gs && m2.gs[a].state.DataState? ensures OwnerOk(m2, a) {
      MapDataOwner(m, rd, ipa, w, r, data, a);
    }
  }

  lemma MapDataPage(m: Machine, rd: Addr, ipa: Addr, w: WalkResult, r: Ripas, data: Addr, rd': Addr, b: Addr)
    requires CanMap(m, rd, ipa, w, r, data) && Mapped(m, rd', b)
    ensures var m2 := MapData(m, w, rd, ipa, r, data);
            Mapped(m2, rd', b) && ParOk(m2, rd', b) && MappingOk(m2, rd', b)
  {
    var m2 := MapData(m, w, rd, ipa, r, data);
    MapDataFlat(m, rd, ipa, w, r, data, rd', b);
    var rr := m.realms[rd];
    assert ParOk(m, rd', b) && MappingOk(m, rd', b) && ParOk(m, rd, ipa);
    hide Flat, Inv, FlatInv, AtEntry, ParSize, IpaSize, NumRootRtts, Lsb, Span;
    if b % PAGE == 0 { PagesApart(ipa, b); }
    if rd' == rd && ipa <= b < ipa + PAGE {
      EntryRange(ipa, b, PAGE_LEVEL);
      ParOnBoundary(rr.ipaBits, rr.start, |rr.roots|, ipa, b, PAGE_LEVEL);
    }
  }

  lemma MapDataOwner(m: Machine, rd: Addr, ipa: Addr, w: WalkResult, r: Ripas, data: Addr, a: Addr)
    requires CanMap(m, rd, ipa, w, r, data)
    requires a in MapData(m, w, rd, ipa, r, data).gs && MapData(m, w, rd, ipa, r, data).gs[a].state.DataState?
    ensures OwnerOk(MapData(m, w, rd, ipa, r, data), a)
  {
    if a == data {
      hide Flat, Inv, FlatInv;
      MapDataFlat(m, rd, ipa, w, r, data, rd, ipa);
    } else {
      assert OwnerOk(m, a);
      hide Flat, Inv, FlatInv, ValidRealm, InIpa;
      var o := m.owner[a];
      MapDataFlat(m, rd, ipa, w, r, data, o.rd, o.ipa);
      PagesApart(ipa, o.ipa);
    }
  }

  /** Unmap the DATA granule mapped by page entry `w` for `ipa`, leaving RIPAS `r`. */
  ghost predicate CanUnmap(m: Machine, rd: Addr, ipa: Addr, w: WalkResult) {
    && FullInv(m) && Reached(m, rd, PAGE_LEVEL, ipa, w) && w.level == PAGE_LEVEL && ipa % PAGE == 0
    && AtEntry(m, w.table, w.idx) && m.tables[w.table][w.idx].AssignedEntry?
  }

  function UnmapData(m: Machine, w: WalkResult, r: Ripas): Machine
    requires w.table in m.tables && w.table in m.gs && w.idx < |m.tables[w.table]|
    requires m.tables[w.table][w.idx].AssignedEntry? && m.tables[w.table][w.idx].pa in m.gs
  {
    var m1 := SetEntry(m, w.table, w.idx, UnassignedEntry(r));
    m1.(gs := m1.gs[m.tables[w.table][w.idx].pa := Granule(Delegated, 0, true)])
  }

  /** The granule to unmap is the DATA granule that `ipa` owns. */
  lemma UnmapTarget(m: Machine, rd: Addr, ipa: Addr, w: WalkResult)
    requires CanUnmap(m, rd, ipa, w)
    ensures var pa := m.tables[w.table][w.idx].pa;
            && pa in m.gs && m.gs[pa].state.DataState? && pa in m.owner && m.owner[pa] == Owner(rd, ipa)
            && pa !in m.place && pa !in m.realms && pa !in m.recs && pa != w.table
            && PageAt(m, rd, ipa) == Assigned(m.tables[w.table][w.idx].ripas, pa)
  {
    ReachedFacts(m, rd, PAGE_LEVEL, ipa, w);
    assert MappingOk(m, rd, ipa);
    var pa := m.tables[w.table][w.idx].pa;
    assert GranuleOk(m, pa) && GranuleOk(m, w.table);
  }

  lemma UnmapDataInv(m: Machine, rd: Addr, ipa: Addr, w: WalkResult, r: Ripas)
    requires CanUnmap(m, rd, ipa, w)
    ensures m.tables[w.table][w.idx].pa in m.gs && Inv(UnmapData(m, w, r))
  {
    UnmapTarget(m, rd, ipa, w);
    ReachedFacts(m, rd, PAGE_LEVEL, ipa, w);
    SetEntryInv(m, w.table, w.idx, UnassignedEntry(r));
    StateChange(SetEntry(m, w.table, w.idx, UnassignedEntry(r)), m.tables[w.table][w.idx].pa,
                Granule(Delegated, 0, true), m.owner);
  }

  /** Unmapping changes one page of one realm. */
  lemma UnmapDataFlat(m: Machine, rd: Addr, ipa: Addr, w: WalkResult, r: Ripas, rd': Addr, b: Addr)
    requires CanUnmap(m, rd, ipa, w) && Mapped(m, rd', b)
    ensures m.tables[w.table][w.idx].pa in m.gs
    ensures var m2 := UnmapData(m, w, r);
            Mapped(m2, rd', b) && PageAt(m2, rd', b)
            == if rd' == rd && ipa <= b < ipa + PAGE then Unassigned(r) else PageAt(m, rd', b)
  {
    UnmapTarget(m, rd, ipa, w);
    FlatSet(m, rd, PAGE_LEVEL, ipa, w, UnassignedEntry(r), rd', b);
    EntryRange(ipa, b, PAGE_LEVEL);
  }

  lemma UnmapDataPage(m: Machine, rd: Addr, ipa: Addr, w: WalkResult, r: Ripas, rd': Addr, b: Addr)
    requires CanUnmap(m, rd, ipa, w) && Mapped(m, rd', b) && m.tables[w.table][w.idx].pa in m.gs
    ensures var m2 := UnmapData(m, w, r);
            Mapped(m2, rd', b) && ParOk(m2, rd', b) && MappingOk(m2, rd', b)
  {
    UnmapDataFlat(m, rd, ipa, w, r, rd', b);
    UnmapTarget(m, rd, ipa, w);
    var rr := m.realms[rd];
    assert ParOk(m, rd', b) && MappingOk(m, rd', b) && ParOk(m, rd, ipa);
    hide Flat, Inv, FlatInv, AtEntry, ParSize, IpaSize, NumRootRtts, Lsb, Span;
    if b % PAGE == 0 { PagesApart(ipa, b); }
    if rd' == rd && ipa <= b < ipa + PAGE {
      EntryRange(ipa, b, PAGE_LEVEL);
      ParOnBoundary(rr.ipaBits, rr.start, |rr.roots|, ipa, b, PAGE_LEVEL);
    }
  }

  lemma UnmapDataFlatInv(m: Machine, rd: Addr, ipa: Addr, w: WalkResult, r: Ripas)
    requires CanUnmap(m, rd, ipa, w) && m.tables[w.table][w.idx].pa in m.gs
    ensures FlatInv(UnmapData(m, w, r))
  {
    var m2 := UnmapData(m, w, r);
    UnmapTarget(m, rd, ipa, w);
    hide Flat, ValidRealm, InIpa;
    forall rd', b | Mapped(m2, rd', b) ensures ParOk(m2, rd', b) && MappingOk(m2, rd', b) {
      UnmapDataPage(m, rd, ipa, w, r, rd', b);
    }
    forall a | a in m2.gs && m2.gs[a].state.DataState? ensures OwnerOk(m2, a) {
      assert OwnerOk(m, a);
      var o := m.owner[a];
      UnmapDataFlat(m, rd, ipa, w, r, o.rd, o.ipa);
      PagesApart(ipa, o.ipa);
    }
  }

  lemma PagesApart(a: Addr, b: Addr)
    requires a % PAGE == 0 && b % PAGE == 0
    ensures a <= b < a + PAGE ==> a == b
  {}
}
