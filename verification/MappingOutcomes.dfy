/** What the commands on mappings answer: exactly when they succeed, what they report otherwise,
    and how far the host may skip. */
module MappingOutcomes {
  import opened S2Geometry
  import opened S2tte
  import opened RealmGeometry
  import opened Rtt
  import opened RttSteps
  import opened RttFlat
  import opened RttInvariants
  import opened RttCommands
  import opened RttLeaves
  import opened CommandOutcomes
  import opened DataCommands
  import opened RipasCommands

  // ------------------------------------------------------------ non-secure memory

  /** `ipa` and `level` name an entry for unprotected addresses of realm `rd`. */
  ghost predicate NamesNs(m: Machine, rd: Addr, ipa: Addr, level: int) {
    && Is(m, rd, RdState) && Mapped(m, rd, ipa) && 1 <= level <= 3 && ipa % Span(level) == 0
    && ParSize(m.realms[rd].ipaBits) <= ipa
  }

  lemma NamesNsIs(m: Machine, rd: Addr, ipa: Addr, level: int)
    requires Inv(m)
    ensures NamesNs(m, rd, ipa, level) <==>
              && Is(m, rd, RdState) && rd in m.realms && ValidRealm(m.realms[rd])
              && ValidMapCmd(m.realms[rd], ipa, level) && !InPar(m.realms[rd], ipa)
    ensures NamesNs(m, rd, ipa, level) && m.realms[rd].start <= level ==>
              var w, l := RealmWalk(m.tables, m.realms[rd], level, ipa), LeafLevel(m, rd, ipa);
              && Reached(m, rd, level, ipa, w) && AtEntry(m, w.table, w.idx)
              && MIN_LEVEL <= w.level == (if l < level then l else level)
              && (m.tables[w.table][w.idx].TableEntry? <==> l > level)
              && (l <= level ==> PageAt(m, rd, ipa) == PageOf(m.tables[w.table][w.idx], w.level, ipa))
              && SkipsTo(m, rd, ipa, w.level, SkipNonLive(m.tables[w.table], w.idx, w.level, ipa))
  {
    if NamesNs(m, rd, ipa, level) && m.realms[rd].start <= level {
      var w := RealmWalk(m.tables, m.realms[rd], level, ipa);
      WalkStops(m, rd, level, ipa, w);
      hide SkipsTo;
      SkipReport(m, rd, level, ipa, w);
    }
  }

  /** RTT_MAP_UNPROTECTED succeeds exactly if the descriptor is valid and the address is unmapped
      at the level that is asked for; otherwise it reports the level at which it is mapped, if that
      is further up, or the level asked for. */
  lemma MapNsOutcome(m: Machine, rd: Addr, ipa: Addr, level: int, d: HostDesc)
    requires Inv(m)
    ensures var q := MapNs(m, rd, ipa, level, d);
            var valid := NamesNs(m, rd, ipa, level) && HostDescValid(m.realms[rd].fmt, d, level);
            && (q.status.Success? <==>
                  && valid && m.realms[rd].start <= level
                  && LeafLevel(m, rd, ipa) == level && PageAt(m, rd, ipa) == UnassignedNs)
            && (!valid ==> q == Fail(m, ErrorInput))
            && (valid && m.realms[rd].start <= level && !q.status.Success? ==>
                  q == Fail(m, ErrorRtt(if LeafLevel(m, rd, ipa) < level then LeafLevel(m, rd, ipa) else level)))
  {
    NamesNsIs(m, rd, ipa, level);
    if Is(m, rd, RdState) { RdIsRealm(m, rd); }
    hide Inv, Walk, Geometry, SetEntry, SkipsTo, Flat, HostDescValid;
  }

  /** RTT_UNMAP_UNPROTECTED succeeds exactly if the address is mapped at the level that is asked
      for; otherwise it reports where the walk ended. In both cases the host learns how far it may
      skip. */
  lemma UnmapNsOutcome(m: Machine, rd: Addr, ipa: Addr, level: int)
    requires Inv(m)
    ensures var q := UnmapNs(m, rd, ipa, level);
            var valid := NamesNs(m, rd, ipa, level);
            && (q.status.Success? <==>
                  && valid && m.realms[rd].start <= level
                  && LeafLevel(m, rd, ipa) == level && PageAt(m, rd, ipa).AssignedNs?)
            && (!valid ==> q == Fail(m, ErrorInput))
            && (valid && m.realms[rd].start <= level && !q.status.Success? ==>
                  var l := if LeafLevel(m, rd, ipa) < level then LeafLevel(m, rd, ipa) else level;
                  && q == Reply(m, ErrorRtt(l), q.out, 0)
                  && MIN_LEVEL <= l <= PAGE_LEVEL && SkipsTo(m, rd, ipa, l, q.out))
  {
    NamesNsIs(m, rd, ipa, level);
    if Is(m, rd, RdState) { RdIsRealm(m, rd); }
    hide Inv, Walk, Geometry, SetEntry, SkipsTo, Flat, SkipNonLive;
  }

  /** Both commands leave all granules alone, and every address mapped at its level; after an
      unmapping the host may skip to the next live entry of the table, or to its end. */
  lemma NsLevels(m: Machine, rd: Addr, ipa: Addr, level: int, d: HostDesc, rd': Addr, b: Addr)
    requires Inv(m) && Mapped(m, rd', b)
    ensures var q := MapNs(m, rd, ipa, level, d);
            q.m.gs == m.gs && Mapped(q.m, rd', b) && LeafLevel(q.m, rd', b) == LeafLevel(m, rd', b)
    ensures var q := UnmapNs(m, rd, ipa, level);
            q.m.gs == m.gs && Mapped(q.m, rd', b) && LeafLevel(q.m, rd', b) == LeafLevel(m, rd', b)
  {
    if MapNs(m, rd, ipa, level, d).status.Success? {
      MapNsStep(m, rd, ipa, level, d);
      NsStepLevels(m, rd, ipa, level, RealmWalk(m.tables, m.realms[rd], level, ipa), HostEntry(m.realms[rd].fmt, d),
          rd', b);
    }
    if UnmapNs(m, rd, ipa, level).status.Success? {
      UnmapNsStep(m, rd, ipa, level);
      NsStepLevels(m, rd, ipa, level, RealmWalk(m.tables, m.realms[rd], level, ipa), UnassignedNsEntry, rd', b);
    }
    hide Inv, Walk, Geometry, SetEntry, NsStep;
  }

  lemma NsStepLevels(m: Machine, rd: Addr, ipa: Addr, level: int, w: WalkResult, e: Entry, rd': Addr, b: Addr)
    requires NsStep(m, rd, ipa, level, w, e) && Mapped(m, rd', b)
    ensures var m2 := SetEntry(m, w.table, w.idx, e);
            && m2.gs == m.gs && Mapped(m2, rd', b) && LeafLevel(m2, rd', b) == LeafLevel(m, rd', b)
            && m2.realms == m.realms && RealmWalk(m2.tables, m.realms[rd], level, ipa) == w
  {
    assert RefcountOk(m, w.table);
    LevelSet(m, SetEntry(m, w.table, w.idx, e), w.table, w.idx, e, rd', PAGE_LEVEL, b);
    LevelSet(m, SetEntry(m, w.table, w.idx, e), w.table, w.idx, e, rd, level, ipa);
  }

  lemma UnmapNsSkip(m: Machine, rd: Addr, ipa: Addr, level: int)
    requires FullInv(m) && UnmapNs(m, rd, ipa, level).status.Success?
    ensures var q := UnmapNs(m, rd, ipa, level);
            && Mapped(q.m, rd, ipa) && MIN_LEVEL <= level <= PAGE_LEVEL && SkipsTo(q.m, rd, ipa, level, q.out)
            && q.out > ipa
  {
    UnmapNsStep(m, rd, ipa, level);
    NsInv(m, rd, ipa, level, HostDesc(0, NsAttrs(0, 0), false));
    var q := UnmapNs(m, rd, ipa, level);
    var w := RealmWalk(m.tables, m.realms[rd], level, ipa);
    NsStepLevels(m, rd, ipa, level, w, UnassignedNsEntry, rd, ipa);
    UnmapNsTop(m, rd, ipa, level);
    hide UnmapNs, FlatInv, Walk, Geometry, SkipsTo, SkipNonLive, LiveAt, NsStep;
    SkipReport(q.m, rd, level, ipa, w);
    LiveEntry(q.m, rd, level, ipa, w);
    LeafNotLive(q.m, rd, ipa, level, q.out);
  }

  lemma UnmapNsTop(m: Machine, rd: Addr, ipa: Addr, level: int)
    requires Inv(m) && UnmapNs(m, rd, ipa, level).status.Success?
    ensures var q := UnmapNs(m, rd, ipa, level);
            && rd in m.realms && ValidRealm(m.realms[rd]) && InIpa(m.realms[rd], ipa)
            && m.realms[rd].start <= level <= PAGE_LEVEL
            && var w := RealmWalk(m.tables, m.realms[rd], level, ipa);
            && MIN_LEVEL <= w.level == level && w.table in q.m.tables && w.idx < |q.m.tables[w.table]|
            && q.m.tables[w.table][w.idx] == UnassignedNsEntry
            && q.out == SkipNonLive(q.m.tables[w.table], w.idx, w.level, ipa)
  {
    UnmapNsStep(m, rd, ipa, level);
    RdIsRealm(m, rd);
    hide Inv, Walk, Geometry, SkipNonLive;
  }

  // ------------------------------------------------------------ DATA granules

  /** `ipa` is a protected page of realm `rd`. */
  ghost predicate NamesPage(m: Machine, rd: Addr, ipa: Addr) {
    Is(m, rd, RdState) && Mapped(m, rd, ipa) && ipa % PAGE == 0 && ipa < ParSize(m.realms[rd].ipaBits)
  }

  lemma NamesPageIs(m: Machine, rd: Addr, ipa: Addr)
    requires FullInv(m)
    ensures NamesPage(m, rd, ipa) <==>
              && Is(m, rd, RdState) && rd in m.realms && ValidRealm(m.realms[rd])
              && InPar(m.realms[rd], ipa) && ValidMapAddr(m.realms[rd], ipa, PAGE_LEVEL)
    ensures NamesPage(m, rd, ipa) ==>
              var w := RealmWalk(m.tables, m.realms[rd], PAGE_LEVEL, ipa);
              && Reached(m, rd, PAGE_LEVEL, ipa, w) && AtEntry(m, w.table, w.idx)
              && MIN_LEVEL <= w.level == LeafLevel(m, rd, ipa) <= PAGE_LEVEL
              && !m.tables[w.table][w.idx].TableEntry? && !NsPage(PageAt(m, rd, ipa))
              && PageAt(m, rd, ipa) == PageOf(m.tables[w.table][w.idx], w.level, ipa)
              && SkipsTo(m, rd, ipa, w.level, SkipNonLive(m.tables[w.table], w.idx, w.level, ipa))
  {
    if NamesPage(m, rd, ipa) {
      var w := RealmWalk(m.tables, m.realms[rd], PAGE_LEVEL, ipa);
      WalkStops(m, rd, PAGE_LEVEL, ipa, w);
      assert ParOk(m, rd, ipa);
      hide SkipsTo;
      SkipReport(m, rd, PAGE_LEVEL, ipa, w);
    }
  }

  /** DATA_CREATE succeeds exactly if the granule is delegated and addressable, the page is mapped
      at page level and unassigned, and, where content is copied, the realm is new and the source
      can be read; each failure has its own condition. */
  lemma DataCreateOutcome(m: Machine, rd: Addr, data: Addr, ipa: Addr, src: DataSource)
    requires FullInv(m)
    ensures var q := DataCreate(m, rd, data, ipa, src);
            var granules := Is(m, data, Delegated) && Is(m, rd, RdState);
            var isNew := src.Copy? ==> rd in m.realms && m.realms[rd].state == New;
            var valid := NamesPage(m, rd, ipa) && data < OutputSize(m.realms[rd].fmt);
            && (q.status.Success? <==>
                  && granules && isNew && valid && LeafLevel(m, rd, ipa) == 3 && PageAt(m, rd, ipa).Unassigned?
                  && (src.Copy? ==> src.readOk))
            && (!granules ==> q == Fail(m, ErrorInput))
            && (granules && !isNew ==> q == Fail(m, ErrorRealm))
            && (granules && isNew && !valid ==> q == Fail(m, ErrorInput))
            && (granules && isNew && valid && !q.status.Success? ==>
                  q == Fail(m, if LeafLevel(m, rd, ipa) < 3 || !PageAt(m, rd, ipa).Unassigned?
                               then ErrorRtt(LeafLevel(m, rd, ipa)) else ErrorInput))
  {
    NamesPageIs(m, rd, ipa);
    if Is(m, rd, RdState) { RdIsRealm(m, rd); }
    hide FullInv, Walk, Geometry, MapData, SkipsTo, Flat, ParSize;
  }

  /** After it exactly the granule changed its state, to DATA, and every address is mapped at the
      level it was. */
  lemma DataCreateLevels(m: Machine, rd: Addr, data: Addr, ipa: Addr, src: DataSource, rd': Addr, b: Addr, a: Addr)
    requires FullInv(m) && DataCreate(m, rd, data, ipa, src).status.Success? && Mapped(m, rd', b) && a in m.gs
    ensures var m2 := DataCreate(m, rd, data, ipa, src).m;
            && Mapped(m2, rd', b) && LeafLevel(m2, rd', b) == LeafLevel(m, rd', b)
            && a in m2.gs && m2.gs[a].state == (if a == data then DataState else m.gs[a].state)
  {
    DataCreateStep(m, rd, data, ipa, src);
    var w := RealmWalk(m.tables, m.realms[rd], PAGE_LEVEL, ipa);
    var r := if src.Copy? then Ram else RipasField(m.tables[w.table][w.idx]);
    var m2 := DataCreate(m, rd, data, ipa, src).m;
    hide DataCreate, FullInv, Walk, Geometry;
    RootStart(m, rd', b);
    LevelSet(m, m2, w.table, w.idx, AssignedEntry(r, data), rd', PAGE_LEVEL, b);
  }

  lemma RootStart(m: Machine, rd: Addr, b: Addr)
    requires Mapped(m, rd, b)
    ensures MIN_LEVEL <= m.realms[rd].start <= PAGE_LEVEL
  {}

  /** DATA_DESTROY succeeds exactly if the page is mapped at page level and assigned; otherwise it
      reports the level at which it is mapped, and how far the host may skip. */
  lemma DataDestroyOutcome(m: Machine, rd: Addr, ipa: Addr)
    requires FullInv(m)
    ensures var q := DataDestroy(m, rd, ipa);
            var valid := NamesPage(m, rd, ipa);
            && (q.status.Success? <==> valid && LeafLevel(m, rd, ipa) == 3 && PageAt(m, rd, ipa).Assigned?)
            && (!valid ==> q == Fail(m, ErrorInput))
            && (valid && !q.status.Success? ==>
                  && q == Reply(m, ErrorRtt(LeafLevel(m, rd, ipa)), 0, q.top)
                  && MIN_LEVEL <= LeafLevel(m, rd, ipa) <= PAGE_LEVEL
                  && SkipsTo(m, rd, ipa, LeafLevel(m, rd, ipa), q.top))
  {
    NamesPageIs(m, rd, ipa);
    if Is(m, rd, RdState) { RdIsRealm(m, rd); }
    hide FullInv, Walk, Geometry, UnmapData, SkipsTo, Flat, SkipNonLive;
  }

  /** After a successful one exactly the granule of the page, which is returned, was released,
      every address is mapped at the level it was, and the host may skip to the next live entry of
      the table, or to its end. */
  lemma DataDestroyLevels(m: Machine, rd: Addr, ipa: Addr, rd': Addr, b: Addr, a: Addr)
    requires FullInv(m) && DataDestroy(m, rd, ipa).status.Success? && Mapped(m, rd', b) && a in m.gs
    ensures var q := DataDestroy(m, rd, ipa);
            && Mapped(q.m, rd', b) && LeafLevel(q.m, rd', b) == LeafLevel(m, rd', b)
            && Is(m, q.out, DataState) && a in q.m.gs
            && (if a == q.out then q.m.gs[a] == Granule(Delegated, 0, true) else q.m.gs[a].state == m.gs[a].state)
            && Mapped(q.m, rd, ipa) && SkipsTo(q.m, rd, ipa, 3, q.top) && q.top > ipa
  {
    DataDestroyStep(m, rd, ipa);
    DataDestroyInv(m, rd, ipa);
    DataDestroyTop(m, rd, ipa);
    var q := DataDestroy(m, rd, ipa);
    var w := RealmWalk(m.tables, m.realms[rd], PAGE_LEVEL, ipa);
    var e := UnassignedEntry(RipasLeft(m.tables[w.table][w.idx].ripas));
    UnmapTarget(m, rd, ipa, w);
    RootStart(m, rd', b);
    RootStart(m, rd, ipa);
    hide DataDestroy, FlatInv, Walk, Geometry, SkipsTo, SkipNonLive, LiveAt;
    LevelSet(m, q.m, w.table, w.idx, e, rd', PAGE_LEVEL, b);
    LevelSet(m, q.m, w.table, w.idx, e, rd, PAGE_LEVEL, ipa);
    SkipReport(q.m, rd, PAGE_LEVEL, ipa, w);
    LiveEntry(q.m, rd, PAGE_LEVEL, ipa, w);
    LeafNotLive(q.m, rd, ipa, 3, q.top);
  }

  lemma DataDestroyTop(m: Machine, rd: Addr, ipa: Addr)
    requires FullInv(m) && DataDestroy(m, rd, ipa).status.Success?
    ensures var q := DataDestroy(m, rd, ipa);
            && Mapped(m, rd, ipa) && MIN_LEVEL <= m.realms[rd].start <= PAGE_LEVEL
            && var w := RealmWalk(m.tables, m.realms[rd], PAGE_LEVEL, ipa);
            && w.level == PAGE_LEVEL && w.table in q.m.tables && w.idx < |q.m.tables[w.table]|
            && !q.m.tables[w.table][w.idx].Live()
            && q.top == SkipNonLive(q.m.tables[w.table], w.idx, w.level, ipa)
  {
    DataDestroyStep(m, rd, ipa);
    RdIsRealm(m, rd);
    ReachedFacts(m, rd, PAGE_LEVEL, ipa, RealmWalk(m.tables, m.realms[rd], PAGE_LEVEL, ipa));
    hide FullInv, Walk, Geometry, SkipNonLive;
  }

  // ------------------------------------------------------------ there and back

  /** RTT_UNMAP_UNPROTECTED right after RTT_MAP_UNPROTECTED restores the state exactly. */
  lemma MapThenUnmapNs(m: Machine, rd: Addr, ipa: Addr, level: int, d: HostDesc)
    requires FullInv(m) && MapNs(m, rd, ipa, level, d).status.Success?
    ensures FullInv(MapNs(m, rd, ipa, level, d).m)
    ensures var q := UnmapNs(MapNs(m, rd, ipa, level, d).m, rd, ipa, level); q.status.Success? && q.m == m
  {
    MapNsStep(m, rd, ipa, level, d);
    NsInv(m, rd, ipa, level, d);
    MapNsOutcome(m, rd, ipa, level, d);
    MapNsFlat(m, rd, ipa, level, d, rd, ipa);
    NsLevels(m, rd, ipa, level, d, rd, ipa);
    var m1, e := MapNs(m, rd, ipa, level, d).m, HostEntry(m.realms[rd].fmt, d);
    var w := RealmWalk(m.tables, m.realms[rd], level, ipa);
    NsStepLevels(m, rd, ipa, level, w, e, rd, ipa);
    hide MapNs, FlatInv, Walk, Geometry, Flat, LeafLevel, UnmapNs, NsStep;
    UnmapNsOutcome(m1, rd, ipa, level);
    UnmapNsStep(m1, rd, ipa, level);
    SetTwice(m, w.table, w.idx, e, UnassignedNsEntry);
  }

  lemma SetTwice(m: Machine, t: Addr, i: nat, e: Entry, e': Entry)
    requires t in m.tables && t in m.gs && i < |m.tables[t]| && m.tables[t][i] == e' && !e.Counted() && !e'.Counted()
    ensures SetEntry(SetEntry(m, t, i, e), t, i, e') == m
  {
    assert m.tables[t][i := e][i := e'] == m.tables[t];
  }

  /** DATA_DESTROY right after DATA_CREATE succeeds and returns the granule; every granule is in the
      state it was, and every page maps what it did, except that the one concerned is DESTROYED if
      it was RAM in between. */
  lemma DataThereAndBack(m: Machine, rd: Addr, data: Addr, ipa: Addr, src: DataSource, rd': Addr, b: Addr, a: Addr)
    requires FullInv(m) && DataCreate(m, rd, data, ipa, src).status.Success? && Mapped(m, rd', b) && a in m.gs
    ensures FullInv(DataCreate(m, rd, data, ipa, src).m) && Mapped(m, rd, ipa) && PageAt(m, rd, ipa).Unassigned?
    ensures var q := DataDestroy(DataCreate(m, rd, data, ipa, src).m, rd, ipa);
            && q.status.Success? && q.out == data && a in q.m.gs && q.m.gs[a].state == m.gs[a].state
            && Mapped(q.m, rd', b) && PageAt(q.m, rd', b) ==
                 if rd' == rd && ipa <= b < ipa + PAGE then
                   Unassigned(if src.Copy? || PageAt(m, rd, ipa).ripas == Ram then Destroyed
                       else PageAt(m, rd, ipa).ripas)
                 else PageAt(m, rd', b)
  {
    DataCreateInv(m, rd, data, ipa, src);
    DataCreateOutcome(m, rd, data, ipa, src);
    DataCreateLevels(m, rd, data, ipa, src, rd, ipa, rd);
    DataCreateLevels(m, rd, data, ipa, src, rd, ipa, a);
    DataCreateFlat(m, rd, data, ipa, src, rd, ipa);
    DataCreateFlat(m, rd, data, ipa, src, rd', b);
    DataCreateStep(m, rd, data, ipa, src);
    var m1 := DataCreate(m, rd, data, ipa, src).m;
    hide DataCreate, FullInv, Walk, Geometry, Flat, LeafLevel, DataDestroy;
    DataDestroyOutcome(m1, rd, ipa);
    DataDestroyFlat(m1, rd, ipa, rd', b);
    DataDestroyLevels(m1, rd, ipa, rd', b, a);
  }
}
