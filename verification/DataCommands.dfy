/** Mapping and unmapping of protected DATA granules and of non-secure memory. */
module DataCommands {
  import opened S2Geometry
  import opened S2tte
  import opened RealmGeometry
  import opened Rtt
  import opened RttSteps
  import opened RttFlat
  import opened RttInvariants
  import opened RttCommands

  // ------------------------------------------------------------ non-secure memory

  /** The descriptor a host passes to RTT_MAP_UNPROTECTED; `reserved` tells whether
      a bit outside the address and the host-controlled attributes is set. */
  datatype HostDesc = HostDesc(pa: Addr, attrs: NsAttrs, reserved: bool)

  predicate HostDescValid(f: Format, d: HostDesc, level: int)
    requires MIN_BLOCK_LEVEL <= level <= PAGE_LEVEL
  {
    && !d.reserved && Aligned(d.pa, level) && d.pa < OutputSize(f)
    && d.attrs.memattr <= MEMATTR_MAX && d.attrs.ap < 4 && d.attrs.memattr != MEMATTR_RESERVED
  }

  /** The entry for a valid descriptor; without FEAT_S2FWB the RMM sets all attribute bits. */
  function HostEntry(f: Format, d: HostDesc): Entry {
    AssignedNsEntry(d.pa, if f.fwb then d.attrs else d.attrs.(memattr := MEMATTR_MAX))
  }

  ghost function MapNs(m: Machine, rd: Addr, ipa: Addr, level: int, d: HostDesc): Reply
    requires Inv(m)
  {
    if !(MIN_BLOCK_LEVEL <= level <= PAGE_LEVEL) || !Is(m, rd, RdState) then Fail(m, ErrorInput)
    else
      RdIsRealm(m, rd);
      var r := m.realms[rd];
      if !HostDescValid(r.fmt, d, level) || !ValidMapCmd(r, ipa, level) || InPar(r, ipa) then Fail(m, ErrorInput)
      else if level < r.start then Fail(m, AssertionFailure)
      else
        var w := RealmWalk(m.tables, r, level, ipa);
        RealmWalkPlace(m, rd, level, ipa);
        EntryFacts(m, w.table, w.idx);
        if w.level != level then Fail(m, ErrorRtt(w.level))
        else if !m.tables[w.table][w.idx].UnassignedNsEntry? then Fail(m, ErrorRtt(level))
        else Reply(SetEntry(m, w.table, w.idx, HostEntry(r.fmt, d)), Success, 0, 0)
  }

  ghost function UnmapNs(m: Machine, rd: Addr, ipa: Addr, level: int): Reply
    requires Inv(m)
  {
    if !(MIN_BLOCK_LEVEL <= level <= PAGE_LEVEL) || !Is(m, rd, RdState) then Fail(m, ErrorInput)
    else
      RdIsRealm(m, rd);
      var r := m.realms[rd];
      if !ValidMapCmd(r, ipa, level) || InPar(r, ipa) then Fail(m, ErrorInput)
      else if level < r.start then Fail(m, AssertionFailure)
      else
        var w := RealmWalk(m.tables, r, level, ipa);
        RealmWalkPlace(m, rd, level, ipa);
        EntryFacts(m, w.table, w.idx);
        var es := m.tables[w.table];
        if w.level != level || !es[w.idx].AssignedNsEntry? then
          Reply(m, ErrorRtt(w.level), SkipNonLive(es, w.idx, w.level, ipa), 0)
        else
          var m2 := SetEntry(m, w.table, w.idx, UnassignedNsEntry);
          Reply(m2, Success, SkipNonLive(m2.tables[w.table], w.idx, w.level, ipa), 0)
  }

  /** The common shape of the two: a non-secure leaf of `level` is overwritten by `e`. */
  ghost predicate NsStep(m: Machine, rd: Addr, ipa: Addr, level: int, w: WalkResult, e: Entry) {
    && MIN_BLOCK_LEVEL <= level <= PAGE_LEVEL && Reached(m, rd, level, ipa, w) && w.level == level
    && AtEntry(m, w.table, w.idx) && m.tables[w.table][w.idx].Ns() && e.Ns()
    && m.place[w.table].rd == rd && Level(m, w.table) == level
    && ValidEntry(m.realms[rd].fmt, e, level) && Aligned(ipa, level)
  }

  lemma NsStepInv(m: Machine, rd: Addr, ipa: Addr, level: int, w: WalkResult, e: Entry)
    requires FullInv(m) && NsStep(m, rd, ipa, level, w, e)
    ensures FullInv(SetEntry(m, w.table, w.idx, e))
  {
    var m2 := SetEntry(m, w.table, w.idx, e);
    hide Flat, TableOk, FlatInv;
    SetEntryInv(m, w.table, w.idx, e);
    assert GranuleOk(m, w.table);
    forall rd', b | Mapped(m, rd', b) ensures Compatible(PageAt(m, rd', b), PageAt(m2, rd', b)) {
      NsStepFlat(m, rd, ipa, level, w, e, rd', b);
    }
    hide Inv, NsStep;
    CompatibleInv(m, m2);
  }

  /** Only the range of the entry changes, from and to non-secure pages. */
  lemma NsStepFlat(m: Machine, rd: Addr, ipa: Addr, level: int, w: WalkResult, e: Entry, rd': Addr, b: Addr)
    requires Inv(m) && NsStep(m, rd, ipa, level, w, e) && Mapped(m, rd', b)
    ensures var m2 := SetEntry(m, w.table, w.idx, e);
            var hit := rd' == rd && ipa <= b < ipa + Span(level);
            && Mapped(m2, rd', b)
            && PageAt(m2, rd', b) == (if hit then PageOf(e, level, b) else PageAt(m, rd', b))
            && (hit ==> PageAt(m, rd', b) == PageOf(m.tables[w.table][w.idx], level, b))
  {
    EntryRange(ipa, b, level);
    FlatSet(m, rd, level, ipa, w, e, rd', b);
    if rd' == rd && SameEntry(ipa, b, level) {
      HitsExactly(m, rd, level, ipa, w, rd', PAGE_LEVEL, b);
    }
  }

  lemma MapNsStep(m: Machine, rd: Addr, ipa: Addr, level: int, d: HostDesc)
    requires Inv(m) && MapNs(m, rd, ipa, level, d).status.Success?
    ensures rd in m.realms && ValidRealm(m.realms[rd]) && InIpa(m.realms[rd], ipa)
    ensures m.realms[rd].start <= level <= PAGE_LEVEL && !InPar(m.realms[rd], ipa)
    ensures var w := RealmWalk(m.tables, m.realms[rd], level, ipa);
            && NsStep(m, rd, ipa, level, w, HostEntry(m.realms[rd].fmt, d))
            && m.tables[w.table][w.idx] == UnassignedNsEntry
            && MapNs(m, rd, ipa, level, d).m == SetEntry(m, w.table, w.idx, HostEntry(m.realms[rd].fmt, d))
  {
    RdIsRealm(m, rd);
    ReachedFacts(m, rd, level, ipa, RealmWalk(m.tables, m.realms[rd], level, ipa));
  }

  lemma UnmapNsStep(m: Machine, rd: Addr, ipa: Addr, level: int)
    requires Inv(m) && UnmapNs(m, rd, ipa, level).status.Success?
    ensures rd in m.realms && ValidRealm(m.realms[rd]) && InIpa(m.realms[rd], ipa)
    ensures m.realms[rd].start <= level <= PAGE_LEVEL && !InPar(m.realms[rd], ipa)
    ensures var w := RealmWalk(m.tables, m.realms[rd], level, ipa);
            && NsStep(m, rd, ipa, level, w, UnassignedNsEntry)
            && m.tables[w.table][w.idx].AssignedNsEntry?
            && UnmapNs(m, rd, ipa, level).m == SetEntry(m, w.table, w.idx, UnassignedNsEntry)
  {
    RdIsRealm(m, rd);
    ReachedFacts(m, rd, level, ipa, RealmWalk(m.tables, m.realms[rd], level, ipa));
  }

  /** RTT_MAP_UNPROTECTED maps the unprotected range contiguously with the attributes
      the host gave, over addresses that mapped nothing, and changes no other address. */
  lemma MapNsFlat(m: Machine, rd: Addr, ipa: Addr, level: int, d: HostDesc, rd': Addr, b: Addr)
    requires Inv(m) && MapNs(m, rd, ipa, level, d).status.Success? && Mapped(m, rd', b)
    ensures rd in m.realms && MIN_LEVEL <= level <= PAGE_LEVEL && !InPar(m.realms[rd], ipa)
    ensures var m2 := MapNs(m, rd, ipa, level, d).m;
            var hit := rd' == rd && ipa <= b < ipa + Span(level);
            && Mapped(m2, rd', b)
            && PageAt(m2, rd', b) == (if hit then AssignedNs(d.pa + (b - ipa), HostEntry(m.realms[rd].fmt, d).attrs)
                                      else PageAt(m, rd', b))
            && (hit ==> PageAt(m, rd', b) == UnassignedNs)
  {
    MapNsStep(m, rd, ipa, level, d);
    hide Inv, Flat, MapNs;
    var w := RealmWalk(m.tables, m.realms[rd], level, ipa);
    NsStepFlat(m, rd, ipa, level, w, HostEntry(m.realms[rd].fmt, d), rd', b);
    OffsetInEntry(ipa, b, level);
  }

  lemma OffsetInEntry(base: Addr, b: Addr, level: int)
    requires MIN_LEVEL <= level <= PAGE_LEVEL && Aligned(base, level)
    ensures base <= b < base + Span(level) ==> b % Span(level) == b - base
  {}

  lemma UnmapNsFlat(m: Machine, rd: Addr, ipa: Addr, level: int, rd': Addr, b: Addr)
    requires Inv(m) && UnmapNs(m, rd, ipa, level).status.Success? && Mapped(m, rd', b)
    ensures rd in m.realms && MIN_LEVEL <= level <= PAGE_LEVEL && !InPar(m.realms[rd], ipa)
    ensures var m2 := UnmapNs(m, rd, ipa, level).m;
            var hit := rd' == rd && ipa <= b < ipa + Span(level);
            && Mapped(m2, rd', b)
            && PageAt(m2, rd', b) == (if hit then UnassignedNs else PageAt(m, rd', b))
            && (hit ==> PageAt(m, rd', b).AssignedNs?)
  {
    UnmapNsStep(m, rd, ipa, level);
    hide Inv, Flat, UnmapNs;
    NsStepFlat(m, rd, ipa, level, RealmWalk(m.tables, m.realms[rd], level, ipa), UnassignedNsEntry, rd', b);
  }

  lemma NsInv(m: Machine, rd: Addr, ipa: Addr, level: int, d: HostDesc)
    requires FullInv(m)
    ensures FullInv(MapNs(m, rd, ipa, level, d).m) && FullInv(UnmapNs(m, rd, ipa, level).m)
  {
    if MapNs(m, rd, ipa, level, d).status.Success? {
      MapNsStep(m, rd, ipa, level, d);
      NsStepInv(m, rd, ipa, level, RealmWalk(m.tables, m.realms[rd], level, ipa), HostEntry(m.realms[rd].fmt, d));
    }
    if UnmapNs(m, rd, ipa, level).status.Success? {
      UnmapNsStep(m, rd, ipa, level);
      NsStepInv(m, rd, ipa, level, RealmWalk(m.tables, m.realms[rd], level, ipa), UnassignedNsEntry);
    }
  }

  /** The two commands run into the walk's assertion on the level exactly when they are
      valid but ask for a level above the starting level, which for accepted geometries
      means level 1 of a realm that starts at level 2. */
  lemma NsAssertion(m: Machine, rd: Addr, ipa: Addr, level: int, d: HostDesc)
    requires Inv(m) && Is(m, rd, RdState) && rd in m.realms
    ensures MapNs(m, rd, ipa, level, d).status.AssertionFailure? <==>
              level == 1 && m.realms[rd].start == 2
              && HostDescValid(m.realms[rd].fmt, d, level) && ValidMapCmd(m.realms[rd], ipa, level)
              && !InPar(m.realms[rd], ipa)
    ensures UnmapNs(m, rd, ipa, level).status.AssertionFailure? <==>
              level == 1 && m.realms[rd].start == 2
              && ValidMapCmd(m.realms[rd], ipa, level) && !InPar(m.realms[rd], ipa)
  {
    RdIsRealm(m, rd);
  }

  /** Such realms exist: 33 address bits from level 2, and the first unprotected gigabyte. */
  lemma NsAssertionReachable(f: Format, roots: seq<Addr>, paWidth: nat)
    requires |roots| == 8
    ensures NumRootRtts(33, 2) == 8
    ensures var r := Realm(f, 33, 2, roots, New);
            && ValidateIpaBitsAndSl(33, 2, f.lpa2, paWidth) && ValidRealm(r)
            && ValidMapCmd(r, 0x1_0000_0000, 1) && !InPar(r, 0x1_0000_0000)
            && HostDescValid(f, HostDesc(0, NsAttrs(0, 0), false), 1)
  {
    AcceptedGeometry(33, 2, f.lpa2, paWidth);
    SpanIsPow2(2);
    Pow2Add(12, 21);
    Pow2Add(3, 9);
    Pow2Small();
  }

  // ------------------------------------------------------------ DATA granules

  /** DATA_CREATE copies a non-secure page, which may fault; DATA_CREATE_UNKNOWN does not. */
  datatype DataSource = Unknown | Copy(readOk: bool)

  /** The RIPAS field of an unassigned entry. */
  function RipasField(e: Entry): Ripas { if e.UnassignedEntry? then e.ripas else Empty }

  ghost function DataCreate(m: Machine, rd: Addr, data: Addr, ipa: Addr, src: DataSource): Reply
    requires Inv(m)
  {
    if !Is(m, data, Delegated) || !Is(m, rd, RdState) then Fail(m, ErrorInput)
    else
      RdIsRealm(m, rd);
      var r := m.realms[rd];
      if src.Copy? && r.state != New then Fail(m, ErrorRealm)
      else if !InPar(r, ipa) || !ValidMapAddr(r, ipa, PAGE_LEVEL) || data >= OutputSize(r.fmt) then Fail(m, ErrorInput)
      else
        var w := RealmWalk(m.tables, r, PAGE_LEVEL, ipa);
        RealmWalkPlace(m, rd, PAGE_LEVEL, ipa);
        EntryFacts(m, w.table, w.idx);
        var e := m.tables[w.table][w.idx];
        if w.level != PAGE_LEVEL then Fail(m, ErrorRtt(w.level))
        else if !e.UnassignedEntry? && !e.UnassignedNsEntry? then Fail(m, ErrorRtt(PAGE_LEVEL))
        else if src.Copy? && !src.readOk then Fail(m, ErrorInput)
        else Reply(MapData(m, w, rd, ipa, if src.Copy? then Ram else RipasField(e), data), Success, 0, 0)
  }

  lemma DataCreateStep(m: Machine, rd: Addr, data: Addr, ipa: Addr, src: DataSource)
    requires FullInv(m) && DataCreate(m, rd, data, ipa, src).status.Success?
    ensures Mapped(m, rd, ipa)
    ensures var w := RealmWalk(m.tables, m.realms[rd], PAGE_LEVEL, ipa);
            && w.table in m.tables && w.idx < |m.tables[w.table]|
            && var r := if src.Copy? then Ram else RipasField(m.tables[w.table][w.idx]);
            && CanMap(m, rd, ipa, w, r, data)
            && DataCreate(m, rd, data, ipa, src).m == MapData(m, w, rd, ipa, r, data)
  {
    RdIsRealm(m, rd);
    var w := RealmWalk(m.tables, m.realms[rd], PAGE_LEVEL, ipa);
    ReachedFacts(m, rd, PAGE_LEVEL, ipa, w);
    assert ParOk(m, rd, ipa);
    assert PageAt(m, rd, ipa) == PageOf(m.tables[w.table][w.idx], PAGE_LEVEL, ipa);
  }

  /** DATA_CREATE maps exactly the requested page, which was unassigned, to the granule;
      the page becomes RAM, or keeps its RIPAS if the content is unknown. */
  lemma DataCreateFlat(m: Machine, rd: Addr, data: Addr, ipa: Addr, src: DataSource, rd': Addr, b: Addr)
    requires FullInv(m) && DataCreate(m, rd, data, ipa, src).status.Success? && Mapped(m, rd', b)
    ensures Mapped(m, rd, ipa) && PageAt(m, rd, ipa).Unassigned?
    ensures var m2 := DataCreate(m, rd, data, ipa, src).m;
            Mapped(m2, rd', b) && PageAt(m2, rd', b)
            == if rd' == rd && ipa <= b < ipa + PAGE
               then Assigned(if src.Copy? then Ram else PageAt(m, rd, ipa).ripas, data + (b - ipa))
               else PageAt(m, rd', b)
  {
    DataCreateStep(m, rd, data, ipa, src);
    var w := RealmWalk(m.tables, m.realms[rd], PAGE_LEVEL, ipa);
    var r := if src.Copy? then Ram else RipasField(m.tables[w.table][w.idx]);
    hide DataCreate, Flat, FullInv;
    MapDataFlat(m, rd, ipa, w, r, data, rd', b);
  }

  lemma DataCreateInv(m: Machine, rd: Addr, data: Addr, ipa: Addr, src: DataSource)
    requires FullInv(m)
    ensures FullInv(DataCreate(m, rd, data, ipa, src).m)
  {
    if DataCreate(m, rd, data, ipa, src).status.Success? {
      DataCreateStep(m, rd, data, ipa, src);
      var w := RealmWalk(m.tables, m.realms[rd], PAGE_LEVEL, ipa);
      var r := if src.Copy? then Ram else RipasField(m.tables[w.table][w.idx]);
      MapDataInv(m, rd, ipa, w, r, data);
      MapDataFlatInv(m, rd, ipa, w, r, data);
    }
  }

  /** The RIPAS that remains when a granule is taken away: its content is lost. */
  function RipasLeft(r: Ripas): Ripas { if r.Ram? then Destroyed else r }

  ghost function DataDestroy(m: Machine, rd: Addr, ipa: Addr): Reply
    requires FullInv(m)
  {
    if !Is(m, rd, RdState) then Fail(m, ErrorInput)
    else
      RdIsRealm(m, rd);
      var r := m.realms[rd];
      if !InPar(r, ipa) || !ValidMapAddr(r, ipa, PAGE_LEVEL) then Fail(m, ErrorInput)
      else
        var w := RealmWalk(m.tables, r, PAGE_LEVEL, ipa);
        ReachedFacts(m, rd, PAGE_LEVEL, ipa, w);
        var es := m.tables[w.table];
        if w.level != PAGE_LEVEL then Reply(m, ErrorRtt(w.level), 0, SkipNonLive(es, w.idx, w.level, ipa))
        else if !es[w.idx].AssignedEntry? then Reply(m, ErrorRtt(PAGE_LEVEL), 0, SkipNonLive(es, w.idx, w.level, ipa))
        else
          UnmapTarget(m, rd, ipa, w);
          var m2 := UnmapData(m, w, RipasLeft(es[w.idx].ripas));
          Reply(m2, Success, es[w.idx].pa, SkipNonLive(m2.tables[w.table], w.idx, w.level, ipa))
  }

  lemma DataDestroyStep(m: Machine, rd: Addr, ipa: Addr)
    requires FullInv(m) && DataDestroy(m, rd, ipa).status.Success?
    ensures Mapped(m, rd, ipa)
    ensures var w := RealmWalk(m.tables, m.realms[rd], PAGE_LEVEL, ipa);
            && CanUnmap(m, rd, ipa, w) && m.tables[w.table][w.idx].pa in m.gs
            && DataDestroy(m, rd, ipa).out == m.tables[w.table][w.idx].pa
            && DataDestroy(m, rd, ipa).m == UnmapData(m, w, RipasLeft(m.tables[w.table][w.idx].ripas))
  {
    RdIsRealm(m, rd);
    var w := RealmWalk(m.tables, m.realms[rd], PAGE_LEVEL, ipa);
    ReachedFacts(m, rd, PAGE_LEVEL, ipa, w);
    UnmapTarget(m, rd, ipa, w);
  }

  /** DATA_DESTROY unmaps exactly the requested page and returns the granule it mapped,
      wiped; RAM becomes DESTROYED, other RIPAS values stay. */
  lemma DataDestroyFlat(m: Machine, rd: Addr, ipa: Addr, rd': Addr, b: Addr)
    requires FullInv(m) && DataDestroy(m, rd, ipa).status.Success? && Mapped(m, rd', b)
    ensures var q := DataDestroy(m, rd, ipa);
            && Mapped(m, rd, ipa) && PageAt(m, rd, ipa).Assigned? && PageAt(m, rd, ipa).pa == q.out
            && q.out in q.m.gs && q.m.gs[q.out] == Granule(Delegated, 0, true)
            && Mapped(q.m, rd', b) && PageAt(q.m, rd', b)
               == if rd' == rd && ipa <= b < ipa + PAGE then Unassigned(RipasLeft(PageAt(m, rd, ipa).ripas))
                  else PageAt(m, rd', b)
  {
    DataDestroyStep(m, rd, ipa);
    var w := RealmWalk(m.tables, m.realms[rd], PAGE_LEVEL, ipa);
    UnmapTarget(m, rd, ipa, w);
    hide DataDestroy, Flat, FullInv;
    UnmapDataFlat(m, rd, ipa, w, RipasLeft(m.tables[w.table][w.idx].ripas), rd', b);
  }

  lemma DataDestroyInv(m: Machine, rd: Addr, ipa: Addr)
    requires FullInv(m)
    ensures FullInv(DataDestroy(m, rd, ipa).m)
  {
    if DataDestroy(m, rd, ipa).status.Success? {
      DataDestroyStep(m, rd, ipa);
      var w := RealmWalk(m.tables, m.realms[rd], PAGE_LEVEL, ipa);
      var r := RipasLeft(m.tables[w.table][w.idx].ripas);
      UnmapDataInv(m, rd, ipa, w, r);
      UnmapDataFlatInv(m, rd, ipa, w, r);
    }
  }
}
