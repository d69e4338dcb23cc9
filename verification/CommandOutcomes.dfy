/** What each command on the tables of a realm answers, in terms of what the realm's addresses map
    to and at which level: exactly when it succeeds, what it reports otherwise, and how far the
    host may skip. */
module CommandOutcomes {
  import opened S2Geometry
  import opened S2tte
  import opened RealmGeometry
  import opened Rtt
  import opened RttSteps
  import opened RttFlat
  import opened RttInvariants
  import opened RttCommands
  import opened RttLeaves
  import opened RttQueries
  import opened DataCommands
  import opened RipasCommands

  // ------------------------------------------------------------ the skip address

  /** `top` is how far a host that asked about `ipa` may skip: the address itself if its entry of
      `level` is live; otherwise the next live entry of that table, or the end of the table. No
      page on the way is live. */
  ghost predicate SkipsTo(m: Machine, rd: Addr, ipa: Addr, level: int, top: Addr)
    requires Mapped(m, rd, ipa) && MIN_LEVEL <= level <= PAGE_LEVEL
  {
    && ipa <= top <= TableEnd(ipa, level)
    && (top == ipa <==> LiveAt(m, rd, ipa, level))
    && (forall b | ipa <= b < top && Mapped(m, rd, b) :: !LivePage(PageAt(m, rd, b)))
    && (ipa < top < TableEnd(ipa, level) && Mapped(m, rd, top) ==> Aligned(top, level) && LiveAt(m, rd, top, level))
  }

  /** The entry that a walk found is live exactly if a table or a mapping is there. */
  lemma LiveEntry(m: Machine, rd: Addr, target: int, ipa: Addr, w: WalkResult)
    requires Reached(m, rd, target, ipa, w)
    ensures Mapped(m, rd, ipa) && AtEntry(m, w.table, w.idx) && MIN_LEVEL <= w.level <= target <= PAGE_LEVEL
    ensures m.tables[w.table][w.idx].Live() <==> LiveAt(m, rd, ipa, w.level)
  {
    WalkStops(m, rd, target, ipa, w);
  }

  lemma MultipleAligned(a: Addr, level: int, j: nat)
    requires MIN_LEVEL <= level <= PAGE_LEVEL && j < ENTRIES
    ensures var x := a / Span(level - 1) * Span(level - 1) + j * Span(level);
            Aligned(x, level) && SameEntry(a, x, level - 1) && x / Span(level) == a / Span(level - 1) * ENTRIES + j
  {
    var s, n, q := Span(level), Span(level - 1), a / Span(level - 1);
    SpanStep(level);
    var x := q * n + j * s;
    assert x == (q * ENTRIES + j) * s;
    DivUnique(x, s, q * ENTRIES + j, 0);
    MulLe(j + 1, ENTRIES, s);
    DivUnique(x, n, q, j * s);
  }

  /** The entry that is skipped to is found by the walk for its address. */
  lemma SkippedEntry(m: Machine, rd: Addr, target: int, ipa: Addr, w: WalkResult, j: nat, top: Addr)
    requires Reached(m, rd, target, ipa, w) && MIN_LEVEL <= w.level <= PAGE_LEVEL
    requires Mapped(m, rd, top) && SameEntry(ipa, top, w.level - 1) && Idx(top, w.level) == j
    ensures EntryAt(m.tables, w.table, j).Live() <==> LiveAt(m, rd, top, w.level)
  {
    hide Inv, Idx, Walk, Geometry, SameEntry;
    Sibling(m, rd, target, ipa, w, top);
    LiveEntry(m, rd, w.level, top, WalkResult(w.table, Idx(top, w.level), w.level));
  }

  lemma SkippedIndex(ipa: Addr, level: int, j: nat, top: Addr)
    requires MIN_LEVEL <= level <= PAGE_LEVEL && j < ENTRIES && top < MAX_ADDR && ipa < MAX_ADDR
    requires top == ipa / Span(level - 1) * Span(level - 1) + j * Span(level)
    ensures Idx(top, level) == j && SameEntry(ipa, top, level - 1)
  {
    MultipleAligned(ipa, level, j);
    if level == MIN_LEVEL {
      TopIndex(top);
      assert ipa / Span(level - 1) == 0;
    } else {
      DivUnique(top / Span(level), ENTRIES, ipa / Span(level - 1), j);
    }
  }

  /** The skip result in a table: the entry `j` at it, or the end of the table. */
  lemma SkipBounds(es: seq<Entry>, ipa: Addr, level: int) returns (j: nat)
    requires MIN_LEVEL <= level <= PAGE_LEVEL && |es| == ENTRIES && ipa < MAX_ADDR
    ensures var i := Idx(ipa, level);
            var top := SkipNonLive(es, i, level, ipa);
            && ipa <= top <= TableEnd(ipa, level) && (top == ipa <==> es[i].Live()) && j <= ENTRIES
            && (ipa < top < TableEnd(ipa, level) ==>
                  && Aligned(top, level) && j < ENTRIES && es[j].Live()
                  && top == ipa / Span(level - 1) * Span(level - 1) + j * Span(level))
  {
    var i := Idx(ipa, level);
    j := FirstLive(es, i + 1);
    EntryAddress(ipa, level, ENTRIES);
    EntryEnd(ipa, level, ENTRIES - i);
    EntryEnd(ipa, level, j - i);
    EntryAddress(ipa, level, j);
    MulLe(j, ENTRIES, Span(level));
    if j < ENTRIES { MultipleAligned(ipa, level, j); }
    hide Idx, Span, FirstLive, Aligned;
  }

  /** What s2tt_skip_non_live_entries reports for the entry that a walk found. */
  lemma SkipReport(m: Machine, rd: Addr, target: int, ipa: Addr, w: WalkResult)
    requires Reached(m, rd, target, ipa, w)
    ensures Mapped(m, rd, ipa) && AtEntry(m, w.table, w.idx) && MIN_LEVEL <= w.level <= target <= PAGE_LEVEL
    ensures SkipsTo(m, rd, ipa, w.level, SkipNonLive(m.tables[w.table], w.idx, w.level, ipa))
  {
    LiveEntry(m, rd, target, ipa, w);
    ReachedFacts(m, rd, target, ipa, w);
    var es, level := m.tables[w.table], w.level;
    var top := SkipNonLive(es, w.idx, level, ipa);
    hide Inv, Walk, Flat, Idx, Geometry, LiveAt, SkipNonLive, Span, TableEnd, Reached, IpaSize;
    var j := SkipBounds(es, ipa, level);
    forall b | ipa <= b < top && Mapped(m, rd, b) ensures !LivePage(PageAt(m, rd, b)) {
      SkipNonLiveFlat(m, rd, target, ipa, w, b);
    }
    if ipa < top < TableEnd(ipa, level) && Mapped(m, rd, top) {
      RootInBounds(m.realms[rd].ipaBits, m.realms[rd].start, |m.realms[rd].roots|, top);
      SkippedIndex(ipa, level, j, top);
      SkippedEntry(m, rd, target, ipa, w, j, top);
    }
  }

  // ------------------------------------------------------------ RTT_CREATE

  /** `ipa` and `level` name a table of realm `rd` other than a root table. */
  ghost predicate NamesTable(m: Machine, rd: Addr, ipa: Addr, level: int) {
    && Is(m, rd, RdState) && Mapped(m, rd, ipa)
    && m.realms[rd].start < level <= 3 && ipa % Span(level - 1) == 0
  }

  lemma NamesTableIs(m: Machine, rd: Addr, ipa: Addr, level: int)
    requires Inv(m)
    ensures NamesTable(m, rd, ipa, level) <==>
              Is(m, rd, RdState) && rd in m.realms && ValidRealm(m.realms[rd])
              && ValidStructureCmd(m.realms[rd], ipa, level)
    ensures NamesTable(m, rd, ipa, level) ==>
              var w := RealmWalk(m.tables, m.realms[rd], level - 1, ipa);
              && Reached(m, rd, level - 1, ipa, w)
              && MIN_LEVEL <= w.level <= level - 1 && AtEntry(m, w.table, w.idx)
              && w.level == (if LeafLevel(m, rd, ipa) < level - 1 then LeafLevel(m, rd, ipa) else level - 1)
              && (m.tables[w.table][w.idx].TableEntry? <==> LeafLevel(m, rd, ipa) >= level)
  {
    if NamesTable(m, rd, ipa, level) {
      WalkStops(m, rd, level - 1, ipa, RealmWalk(m.tables, m.realms[rd], level - 1, ipa));
    }
  }

  /** RTT_CREATE succeeds exactly if the granule is delegated and addressable, and the address is
      mapped one level above the table that is asked for; it reports where the address is mapped
      if that is further up, or that there is a table already. */
  lemma RttCreateOutcome(m: Machine, rd: Addr, rtt: Addr, ipa: Addr, level: int)
    requires Inv(m)
    ensures var q := RttCreate(m, rd, rtt, ipa, level);
            var valid := NamesTable(m, rd, ipa, level) && Is(m, rtt, Delegated) && rtt < OutputSize(m.realms[rd].fmt);
            && (q.status.Success? <==> valid && LeafLevel(m, rd, ipa) == level - 1)
            && (!valid ==> q == Fail(m, ErrorInput))
            && (valid && LeafLevel(m, rd, ipa) < level - 1 ==> q == Fail(m, ErrorRtt(LeafLevel(m, rd, ipa))))
            && (valid && LeafLevel(m, rd, ipa) >= level ==> q == Fail(m, ErrorRtt(level - 1)))
  {
    NamesTableIs(m, rd, ipa, level);
    if Is(m, rd, RdState) { RdIsRealm(m, rd); }
    hide Inv, Walk, Geometry, AddTable, Unfold;
  }

  /** After it, exactly the addresses of the new table are mapped at its level, and exactly the
      granule changed its state. */
  lemma RttCreateLevels(m: Machine, rd: Addr, rtt: Addr, ipa: Addr, level: int, rd': Addr, b: Addr, a: Addr)
    requires Inv(m) && RttCreate(m, rd, rtt, ipa, level).status.Success? && Mapped(m, rd', b) && a in m.gs
    ensures MIN_LEVEL < level <= PAGE_LEVEL
    ensures var m2 := RttCreate(m, rd, rtt, ipa, level).m;
            && Mapped(m2, rd', b) && a in m2.gs
            && LeafLevel(m2, rd', b) == (if rd' == rd && ipa <= b < ipa + Span(level - 1) then level
                                         else LeafLevel(m, rd', b))
            && m2.gs[a].state == (if a == rtt then RttState else m.gs[a].state)
  {
    RttCreateStep(m, rd, rtt, ipa, level);
    var w := RealmWalk(m.tables, m.realms[rd], level - 1, ipa);
    var content := Unfold(m.tables[w.table][w.idx], level);
    RealmWalkAdd(m, w.table, w.idx, rtt, content, rd', b);
    AddTableFresh(m, w.table, w.idx, rtt, content);
    hide RttCreate, Inv, Walk, Geometry, Idx, CanAdd, Unfold, Count;
    EntryRange(ipa, b, level - 1);
    HitsExactly(m, rd, level - 1, ipa, w, rd', PAGE_LEVEL, b);
  }

  // ------------------------------------------------------------ the entries of one table

  /** The address of entry `k` of the table that `ipa` and `level` name. */
  lemma EntryOfTable(m: Machine, rd: Addr, ipa: Addr, level: int, k: nat) returns (b: Addr)
    requires Inv(m) && NamesTable(m, rd, ipa, level) && LeafLevel(m, rd, ipa) >= level && k < ENTRIES
    ensures b == ipa + k * Span(level) < ipa + Span(level - 1) && SameEntry(ipa, b, level - 1) && Mapped(m, rd, b)
    ensures Idx(b, level) == k && b % Span(level) == 0 && b % Span(level - 1) == k * Span(level)
  {
    b := ipa + k * Span(level);
    var r := m.realms[rd];
    assert ipa == ipa / Span(level - 1) * Span(level - 1);
    MultipleAligned(ipa, level, k);
    SpanStep(level);
    MulLe(k + 1, ENTRIES, Span(level));
    DivUnique(b, Span(level - 1), ipa / Span(level - 1), k * Span(level));
    hide Inv, Geometry, Idx, NumRootRtts, IpaSize;
    ParOnBoundary(r.ipaBits, r.start, |r.roots|, ipa, b, level - 1);
    RootInBounds(r.ipaBits, r.start, |r.roots|, ipa);
    RootInBounds(r.ipaBits, r.start, |r.roots|, b);
    SkippedIndex(ipa, level, k, b);
  }

  /** Entry `Idx(b, level)` of that table says what `b` maps to, or names a further table. */
  lemma EntrySays(m: Machine, rd: Addr, ipa: Addr, level: int, n: Addr, b: Addr)
    requires Inv(m) && NamesTable(m, rd, ipa, level) && Mapped(m, rd, b) && SameEntry(ipa, b, level - 1)
    requires EntryOfParent(m, rd, ipa, level) == TableEntry(n)
    ensures n in m.tables && |m.tables[n]| == ENTRIES && level <= LeafLevel(m, rd, b) <= PAGE_LEVEL
    ensures var e := m.tables[n][Idx(b, level)];
            && ValidEntry(m.realms[rd].fmt, e, level) && (e.TableEntry? <==> LeafLevel(m, rd, b) > level)
            && (!e.TableEntry? ==> PageAt(m, rd, b) == PageOf(e, level, b))
  {
    NamesTableIs(m, rd, ipa, level);
    var w := RealmWalk(m.tables, m.realms[rd], level - 1, ipa);
    hide Inv, Walk, Geometry, Idx, Flat, SameEntry;
    TableBelow(m, rd, ipa, w, n, level, b);
    WalkStops(m, rd, level, b, WalkResult(n, Idx(b, level), level));
  }

  /** The entry one level up, where the table hangs. */
  ghost function EntryOfParent(m: Machine, rd: Addr, ipa: Addr, level: int): Entry
    requires NamesTable(m, rd, ipa, level)
  {
    var w := RealmWalk(m.tables, m.realms[rd], level - 1, ipa);
    EntryAt(m.tables, w.table, w.idx)
  }

  // ------------------------------------------------------------ RTT_DESTROY

  /** Every address of the table is mapped by an entry of it, and none is protected memory. */
  ghost predicate Unreferenced(m: Machine, rd: Addr, ipa: Addr, level: int)
    requires MIN_LEVEL < level <= PAGE_LEVEL
  {
    forall b: Addr | Mapped(m, rd, b) && ipa <= b < ipa + Span(level - 1) ::
      LeafLevel(m, rd, b) == level && !PageAt(m, rd, b).Assigned?
  }

  lemma CountIsUnreferenced(m: Machine, rd: Addr, ipa: Addr, level: int, n: Addr)
    requires Inv(m) && NamesTable(m, rd, ipa, level) && LeafLevel(m, rd, ipa) >= level
    requires EntryOfParent(m, rd, ipa, level) == TableEntry(n)
    ensures n in m.tables && n in m.gs && (m.gs[n].refcount == 0 <==> Unreferenced(m, rd, ipa, level))
  {
    NamesTableIs(m, rd, ipa, level);
    AtTableFacts(m, rd, ipa, level, RealmWalk(m.tables, m.realms[rd], level - 1, ipa), n);
    var es := m.tables[n];
    CountBounds(es);
    hide Inv, Walk, Geometry, Idx, Flat, SameEntry, Count, LeafLevel, EntryOfParent, TableOk, NamesTable;
    if Count(es) == 0 {
      forall b: Addr | Mapped(m, rd, b) && ipa <= b < ipa + Span(level - 1)
        ensures LeafLevel(m, rd, b) == level && !PageAt(m, rd, b).Assigned?
      {
        InTable(m, rd, ipa, level, b);
        EntrySays(m, rd, ipa, level, n, b);
        assert !es[Idx(b, level)].Counted();
      }
    }
    if Unreferenced(m, rd, ipa, level) {
      forall k | 0 <= k < ENTRIES ensures !es[k].Counted() {
        var b := EntryOfTable(m, rd, ipa, level, k);
        EntrySays(m, rd, ipa, level, n, b);
      }
    }
  }

  lemma InTable(m: Machine, rd: Addr, ipa: Addr, level: int, b: Addr)
    requires NamesTable(m, rd, ipa, level) && ipa <= b < ipa + Span(level - 1)
    ensures SameEntry(ipa, b, level - 1) && MIN_LEVEL < level <= PAGE_LEVEL
  {
    EntryRange(ipa, b, level - 1);
  }

  /** RTT_DESTROY succeeds exactly if there is such a table and its addresses are mapped by its own
      entries, none to protected memory. Without the table it reports the level at which the
      address is mapped and how far the host may skip; a table in use is reported as such. */
  lemma RttDestroyOutcome(m: Machine, rd: Addr, ipa: Addr, level: int)
    requires Inv(m)
    ensures var q := RttDestroy(m, rd, ipa, level);
            var valid := NamesTable(m, rd, ipa, level);
            && (q.status.Success? <==>
                  valid && LeafLevel(m, rd, ipa) >= level && Unreferenced(m, rd, ipa, level))
            && (!valid ==> q == Fail(m, ErrorInput))
            && (valid && LeafLevel(m, rd, ipa) < level ==>
                  && MIN_LEVEL <= LeafLevel(m, rd, ipa) <= PAGE_LEVEL
                  && q == Reply(m, ErrorRtt(LeafLevel(m, rd, ipa)), 0, q.top)
                  && SkipsTo(m, rd, ipa, LeafLevel(m, rd, ipa), q.top))
            && (valid && LeafLevel(m, rd, ipa) >= level && !q.status.Success? ==>
                  q == Reply(m, ErrorRtt(level), 0, ipa))
  {
    NamesTableIs(m, rd, ipa, level);
    if Is(m, rd, RdState) { RdIsRealm(m, rd); }
    if NamesTable(m, rd, ipa, level) {
      var w := RealmWalk(m.tables, m.realms[rd], level - 1, ipa);
      if LeafLevel(m, rd, ipa) >= level {
        CountIsUnreferenced(m, rd, ipa, level, m.tables[w.table][w.idx].pa);
      } else {
        SkipReport(m, rd, level - 1, ipa, w);
        WalkStops(m, rd, PAGE_LEVEL, ipa, RealmWalk(m.tables, m.realms[rd], PAGE_LEVEL, ipa));
      }
    }
    hide Inv, Walk, Geometry, DropTable, SkipsTo, Unreferenced, SkipNonLive, Flat;
  }

  /** Dropping a table maps exactly its addresses one level up, where the walk finds the new leaf. */
  lemma DropLevels(m: Machine, rd: Addr, ipa: Addr, level: int, w: WalkResult, n: Addr, e: Entry, rd': Addr, b: Addr)
    requires AtTable(m, rd, ipa, level, w, n) && CanDrop(m, w.table, w.idx, n, e) && Mapped(m, rd', b)
    ensures MIN_LEVEL < level <= PAGE_LEVEL
    ensures var m2 := DropTable(m, w.table, w.idx, n, e);
            var hit := rd' == rd && ipa <= b < ipa + Span(level - 1);
            && Mapped(m2, rd', b)
            && LeafLevel(m2, rd', b) == (if hit then level - 1 else LeafLevel(m, rd', b))
            && (hit ==> RealmWalk(m2.tables, m2.realms[rd'], PAGE_LEVEL, b) == w)
  {
    RealmWalkDrop(m, w.table, w.idx, n, e, rd', b);
    hide Inv, Walk, Geometry, Idx, CanDrop, Count;
    EntryRange(ipa, b, level - 1);
    DropHits(m, rd, level - 1, ipa, w, n, e, rd', b);
  }

  lemma DropStates(m: Machine, t: Addr, i: nat, n: Addr, e: Entry, a: Addr)
    requires t in m.tables && t in m.gs && i < |m.tables[t]| && n in m.gs && n != t && a in m.gs
    ensures var m2 := DropTable(m, t, i, n, e);
            a in m2.gs && (if a == n then m2.gs[a] == Granule(Delegated, 0, true) else m2.gs[a].state == m.gs[a].state)
  {}

  /** After a successful RTT_DESTROY exactly the addresses of the table are mapped one level up,
      exactly its granule, which is returned, was released, and the host may skip to the next live
      entry of the table above, or to its end. */
  lemma RttDestroyLevels(m: Machine, rd: Addr, ipa: Addr, level: int, rd': Addr, b: Addr, a: Addr)
    requires FullInv(m) && RttDestroy(m, rd, ipa, level).status.Success? && Mapped(m, rd', b) && a in m.gs
    ensures MIN_LEVEL < level <= PAGE_LEVEL
    ensures var q := RttDestroy(m, rd, ipa, level);
            && Is(m, q.out, RttState) && a in q.m.gs
            && (if a == q.out then q.m.gs[a] == Granule(Delegated, 0, true) else q.m.gs[a].state == m.gs[a].state)
            && Mapped(q.m, rd', b)
            && LeafLevel(q.m, rd', b) == (if rd' == rd && ipa <= b < ipa + Span(level - 1) then level - 1
                                          else LeafLevel(m, rd', b))
            && Mapped(q.m, rd, ipa) && SkipsTo(q.m, rd, ipa, level - 1, q.top) && q.top > ipa
  {
    RttDestroyStep(m, rd, ipa, level);
    RttDestroyInv(m, rd, ipa, level);
    RttDestroySkip(m, rd, ipa, level);
    var q := RttDestroy(m, rd, ipa, level);
    var w := RealmWalk(m.tables, m.realms[rd], level - 1, ipa);
    var e := DestroyedLeaf(m.realms[rd], ipa);
    hide RttDestroy, Walk, Geometry, FlatInv, Count, SkipNonLive, SkipsTo, LiveAt;
    assert GranuleOk(m, q.out);
    DropStates(m, w.table, w.idx, q.out, e, a);
    DropLevels(m, rd, ipa, level, w, q.out, e, rd', b);
    DropLevels(m, rd, ipa, level, w, q.out, e, rd, ipa);
    SkipReport(q.m, rd, PAGE_LEVEL, ipa, w);
    LiveEntry(q.m, rd, PAGE_LEVEL, ipa, w);
    LeafNotLive(q.m, rd, ipa, level - 1, q.top);
  }

  lemma LeafNotLive(m: Machine, rd: Addr, ipa: Addr, level: int, top: Addr)
    requires Mapped(m, rd, ipa) && MIN_LEVEL <= level <= PAGE_LEVEL && SkipsTo(m, rd, ipa, level, top)
    requires !LiveAt(m, rd, ipa, level)
    ensures top > ipa
  {}

  lemma RttDestroySkip(m: Machine, rd: Addr, ipa: Addr, level: int)
    requires Inv(m) && RttDestroy(m, rd, ipa, level).status.Success?
    ensures var q := RttDestroy(m, rd, ipa, level);
            && rd in m.realms && ValidRealm(m.realms[rd]) && ValidStructureCmd(m.realms[rd], ipa, level)
            && var w := RealmWalk(m.tables, m.realms[rd], level - 1, ipa);
            && MIN_LEVEL <= w.level <= PAGE_LEVEL && w.table in q.m.tables && w.idx < |q.m.tables[w.table]|
            && !q.m.tables[w.table][w.idx].Live()
            && q.top == SkipNonLive(q.m.tables[w.table], w.idx, w.level, ipa)
  {
    RttDestroyStep(m, rd, ipa, level);
    RdIsRealm(m, rd);
    var w := RealmWalk(m.tables, m.realms[rd], level - 1, ipa);
    ReachedFacts(m, rd, level - 1, ipa, w);
    hide Inv, Walk, Geometry, SkipNonLive, Count;
  }

  // ------------------------------------------------------------ RTT_FOLD

  /** Every address of the table is mapped by an entry of it, as leaf `e` one level up would. */
  ghost predicate MappedAs(m: Machine, rd: Addr, ipa: Addr, level: int, e: Entry)
    requires MIN_LEVEL < level <= PAGE_LEVEL
  {
    forall b: Addr | Mapped(m, rd, b) && ipa <= b < ipa + Span(level - 1) ::
      LeafLevel(m, rd, b) == level && PageAt(m, rd, b) == PageOf(e, level - 1, b)
  }

  /** A leaf that can exist one level up maps all addresses of the table as they are. */
  ghost predicate Uniform(m: Machine, rd: Addr, ipa: Addr, level: int, e: Entry)
    requires MIN_LEVEL < level <= PAGE_LEVEL && rd in m.realms
  {
    !e.TableEntry? && ValidEntry(m.realms[rd].fmt, e, level - 1) && MappedAs(m, rd, ipa, level, e)
  }

  /** Every entry of the table is a table or protected memory. */
  ghost predicate FullyReferenced(m: Machine, rd: Addr, ipa: Addr, level: int)
    requires MIN_LEVEL < level <= PAGE_LEVEL
  {
    forall b: Addr | Mapped(m, rd, b) && ipa <= b < ipa + Span(level - 1) ::
      LeafLevel(m, rd, b) > level || PageAt(m, rd, b).Assigned?
  }

  /** One contiguous non-secure mapping, aligned as a block one level up. */
  predicate NsLeaf(e: Entry, level: int)
    requires MIN_LEVEL < level <= PAGE_LEVEL
  {
    e.AssignedNsEntry? && Aligned(e.pa, level - 1)
  }

  /** An entry that maps its range as a leaf one level up would is the entry of its unfolding. */
  lemma EntryByPage(e: Entry, leaf: Entry, k: nat, level: int, b: Addr)
    requires MIN_LEVEL < level <= PAGE_LEVEL && !e.TableEntry? && !leaf.TableEntry?
    requires b % Span(level) == 0 && b % Span(level - 1) == k * Span(level)
    requires PageOf(e, level, b) == PageOf(leaf, level - 1, b)
    ensures e == SubEntry(leaf, k, level)
  {}

  lemma UnfoldIsMapped(m: Machine, rd: Addr, ipa: Addr, level: int, n: Addr, e: Entry)
    requires Inv(m) && NamesTable(m, rd, ipa, level) && LeafLevel(m, rd, ipa) >= level && !e.TableEntry?
    requires EntryOfParent(m, rd, ipa, level) == TableEntry(n) && n in m.tables && |m.tables[n]| == ENTRIES
    ensures m.tables[n] == Unfold(e, level) <==> MappedAs(m, rd, ipa, level, e)
  {
    var es := m.tables[n];
    hide Inv, Walk, Geometry, Idx, Flat, SameEntry, Count, LeafLevel, EntryOfParent, NamesTable;
    if es == Unfold(e, level) {
      forall b: Addr | Mapped(m, rd, b) && ipa <= b < ipa + Span(level - 1)
        ensures LeafLevel(m, rd, b) == level && PageAt(m, rd, b) == PageOf(e, level - 1, b)
      {
        InTable(m, rd, ipa, level, b);
        EntrySays(m, rd, ipa, level, n, b);
        SubEntryPage(e, b, level);
        assert es[Idx(b, level)] == SubEntry(e, Idx(b, level), level);
      }
    }
    if MappedAs(m, rd, ipa, level, e) {
      forall k: nat | k < ENTRIES ensures es[k] == SubEntry(e, k, level) {
        var b := EntryOfTable(m, rd, ipa, level, k);
        EntrySays(m, rd, ipa, level, n, b);
        EntryByPage(es[k], e, k, level, b);
      }
      assert es == Unfold(e, level);
    }
  }

  lemma FullIsReferenced(m: Machine, rd: Addr, ipa: Addr, level: int, n: Addr)
    requires Inv(m) && NamesTable(m, rd, ipa, level) && LeafLevel(m, rd, ipa) >= level
    requires EntryOfParent(m, rd, ipa, level) == TableEntry(n) && n in m.tables && |m.tables[n]| == ENTRIES
    ensures Count(m.tables[n]) == ENTRIES <==> FullyReferenced(m, rd, ipa, level)
  {
    var es := m.tables[n];
    CountBounds(es);
    hide Inv, Walk, Geometry, Idx, Flat, SameEntry, Count, LeafLevel, EntryOfParent, NamesTable;
    if Count(es) == ENTRIES {
      forall b: Addr | Mapped(m, rd, b) && ipa <= b < ipa + Span(level - 1)
        ensures LeafLevel(m, rd, b) > level || PageAt(m, rd, b).Assigned?
      {
        InTable(m, rd, ipa, level, b);
        EntrySays(m, rd, ipa, level, n, b);
        assert es[Idx(b, level)].Counted();
      }
    }
    if FullyReferenced(m, rd, ipa, level) {
      forall k | 0 <= k < ENTRIES ensures es[k].Counted() {
        var b := EntryOfTable(m, rd, ipa, level, k);
        EntrySays(m, rd, ipa, level, n, b);
      }
    }
  }

  /** What RTT_FOLD looks for in the entries, in terms of what the addresses map to. */
  lemma FoldIsUniform(m: Machine, rd: Addr, ipa: Addr, level: int, n: Addr)
    requires Inv(m) && NamesTable(m, rd, ipa, level) && LeafLevel(m, rd, ipa) >= level
    requires EntryOfParent(m, rd, ipa, level) == TableEntry(n)
    ensures n in m.tables && |m.tables[n]| == ENTRIES
    ensures FoldEntry(m.realms[rd].fmt, m.tables[n], level).Some? <==> exists e :: Uniform(m, rd, ipa, level, e)
    ensures NsBlock(m.tables[n], level) <==> exists e :: NsLeaf(e, level) && MappedAs(m, rd, ipa, level, e)
    ensures Count(m.tables[n]) == ENTRIES <==> FullyReferenced(m, rd, ipa, level)
  {
    NamesTableIs(m, rd, ipa, level);
    AtTableFacts(m, rd, ipa, level, RealmWalk(m.tables, m.realms[rd], level - 1, ipa), n);
    var es := m.tables[n];
    hide Inv, Walk, Geometry, LeafLevel, EntryOfParent, TableOk, NamesTable, AtTable, MappedAs, Count, ValidEntry,
        Unfold;
    FullIsReferenced(m, rd, ipa, level, n);
    forall e: Entry | !e.TableEntry?
      ensures es == Unfold(e, level) <==> MappedAs(m, rd, ipa, level, e)
      ensures es == Unfold(e, level) ==> es[0] == e
    {
      UnfoldIsMapped(m, rd, ipa, level, n, e);
      UnfoldFirst(e, level);
    }
    if FoldEntry(m.realms[rd].fmt, es, level).Some? { assert Uniform(m, rd, ipa, level, es[0]); }
    if NsBlock(es, level) { assert NsLeaf(es[0], level) && MappedAs(m, rd, ipa, level, es[0]); }
  }

  lemma UnfoldFirst(e: Entry, level: int)
    requires MIN_LEVEL < level <= PAGE_LEVEL
    ensures Unfold(e, level)[0] == e
  {
    assert SubEntry(e, 0, level) == e;
  }

  /** RTT_FOLD succeeds exactly if there is such a table and a leaf one level up would map all its
      addresses as they are. Otherwise it reports the level at which the address is mapped, or
      the table that cannot be folded; where no block can exist one level up, a table that is
      fully referenced or one non-secure mapping counts as one that belongs one level up. */
  lemma RttFoldOutcome(m: Machine, rd: Addr, ipa: Addr, level: int)
    requires Inv(m)
    ensures var q := RttFold(m, rd, ipa, level);
            var valid := NamesTable(m, rd, ipa, level);
            && (q.status.Success? <==>
                  valid && LeafLevel(m, rd, ipa) >= level && exists e :: Uniform(m, rd, ipa, level, e))
            && (!valid ==> q == Fail(m, ErrorInput))
            && (valid && LeafLevel(m, rd, ipa) < level ==> q == Fail(m, ErrorRtt(LeafLevel(m, rd, ipa))))
            && (valid && LeafLevel(m, rd, ipa) >= level && !q.status.Success? ==>
                  var large := level <= 1 && (FullyReferenced(m, rd, ipa, level)
                                              || exists e :: NsLeaf(e, level) && MappedAs(m, rd, ipa, level, e));
                  q == Fail(m, ErrorRtt(if large then level - 1 else level)))
  {
    NamesTableIs(m, rd, ipa, level);
    if Is(m, rd, RdState) { RdIsRealm(m, rd); }
    if NamesTable(m, rd, ipa, level) && LeafLevel(m, rd, ipa) >= level {
      var w := RealmWalk(m.tables, m.realms[rd], level - 1, ipa);
      FoldIsUniform(m, rd, ipa, level, m.tables[w.table][w.idx].pa);
    }
    hide Inv, Walk, Geometry, DropTable, Uniform, FoldEntry, Flat, NsBlock, FullyReferenced, MappedAs, Count, NsLeaf;
  }

  /** After a successful RTT_FOLD exactly the addresses of the table are mapped one level up, and
      exactly its granule, which is returned, was released. */
  lemma RttFoldLevels(m: Machine, rd: Addr, ipa: Addr, level: int, rd': Addr, b: Addr, a: Addr)
    requires Inv(m) && RttFold(m, rd, ipa, level).status.Success? && Mapped(m, rd', b) && a in m.gs
    ensures MIN_LEVEL < level <= PAGE_LEVEL
    ensures var q := RttFold(m, rd, ipa, level);
            && Is(m, q.out, RttState) && a in q.m.gs
            && (if a == q.out then q.m.gs[a] == Granule(Delegated, 0, true) else q.m.gs[a].state == m.gs[a].state)
            && Mapped(q.m, rd', b)
            && LeafLevel(q.m, rd', b) == (if rd' == rd && ipa <= b < ipa + Span(level - 1) then level - 1
                                          else LeafLevel(m, rd', b))
  {
    RttFoldStep(m, rd, ipa, level);
    var n := RttFold(m, rd, ipa, level).out;
    var w := RealmWalk(m.tables, m.realms[rd], level - 1, ipa);
    var e := FoldEntry(m.realms[rd].fmt, m.tables[n], level).value;
    AtTableFacts(m, rd, ipa, level, w, n);
    assert GranuleOk(m, n);
    hide RttFold, Walk, Geometry, Count, FoldEntry, TableOk;
    DropStates(m, w.table, w.idx, n, e, a);
    DropLevels(m, rd, ipa, level, w, n, e, rd', b);
  }
}
