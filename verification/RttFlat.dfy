/** What each change of the tables does to the flat map of every realm. */
module RttFlat {
  import opened S2Geometry
  import opened S2tte
  import opened RealmGeometry
  import opened Rtt
  import opened RttSteps

  // ------------------------------------------------------------ walks of one state

  /** Addresses of one leaf take the same walk to it. */
  lemma {:induction false} WalkAgree(ts: Tables, t: Addr, level: int, target: int, a: Addr, b: Addr)
    requires MIN_LEVEL <= level <= target <= PAGE_LEVEL && a < MAX_ADDR && b < MAX_ADDR
    requires MIN_LEVEL <= Walk(ts, t, level, target, a).level <= PAGE_LEVEL
    requires SameEntry(a, b, Walk(ts, t, level, target, a).level)
    ensures Walk(ts, t, level, target, b) == Walk(ts, t, level, target, a)
    decreases target - level
  {
    hide Idx, SameEntry;
    WalkLevel(ts, t, level, target, a);
    SameEntryUp(a, b, Walk(ts, t, level, target, a).level, level);
    EntryInTable(a, b, level);
    var e := EntryAt(ts, t, Idx(a, level));
    if level < target && e.TableEntry? {
      WalkAgree(ts, e.pa, level + 1, target, a, b);
    }
  }

  /** A walk that stopped at a leaf would not have gone further. */
  lemma {:induction false} WalkDeeper(ts: Tables, t: Addr, level: int, target: int, ipa: Addr)
    requires MIN_LEVEL <= level <= target <= PAGE_LEVEL
    ensures var w := Walk(ts, t, level, target, ipa);
            MIN_LEVEL <= w.level <= PAGE_LEVEL
            && Walk(ts, t, level, PAGE_LEVEL, ipa)
               == if w.level < PAGE_LEVEL && EntryAt(ts, w.table, w.idx).TableEntry?
                  then Walk(ts, EntryAt(ts, w.table, w.idx).pa, w.level + 1, PAGE_LEVEL, ipa)
                  else w
    decreases target - level
  {
    hide Idx;
    var e := EntryAt(ts, t, Idx(ipa, level));
    if level < target && e.TableEntry? {
      WalkDeeper(ts, e.pa, level + 1, target, ipa);
    }
  }

  lemma RealmWalkAgree(ts: Tables, r: Realm, target: int, a: Addr, b: Addr)
    requires ValidRealm(r) && InIpa(r, a) && InIpa(r, b) && r.start <= target <= PAGE_LEVEL
    requires MIN_LEVEL <= RealmWalk(ts, r, target, a).level <= PAGE_LEVEL
    requires SameEntry(a, b, RealmWalk(ts, r, target, a).level)
    ensures RealmWalk(ts, r, target, b) == RealmWalk(ts, r, target, a)
  {
    hide Idx, Walk;
    RootInBounds(r.ipaBits, r.start, |r.roots|, a);
    RootInBounds(r.ipaBits, r.start, |r.roots|, b);
    WalkLevel(ts, RootFor(r, a), r.start, target, a);
    SameEntryUp(a, b, RealmWalk(ts, r, target, a).level, r.start - 1);
    WalkAgree(ts, RootFor(r, a), r.start, target, a, b);
  }

  /** `w` is where the walk for `a` in realm `rd` to `target` ends. */
  ghost predicate Reached(m: Machine, rd: Addr, target: int, a: Addr, w: WalkResult) {
    && Inv(m) && rd in m.realms && ValidRealm(m.realms[rd]) && InIpa(m.realms[rd], a)
    && m.realms[rd].start <= target <= PAGE_LEVEL
    && w == RealmWalk(m.tables, m.realms[rd], target, a)
  }

  lemma ReachedFacts(m: Machine, rd: Addr, target: int, a: Addr, w: WalkResult)
    requires Reached(m, rd, target, a, w)
    ensures AtEntry(m, w.table, w.idx) && m.place[w.table].rd == rd && Level(m, w.table) == w.level
    ensures MIN_LEVEL <= m.realms[rd].start <= w.level <= target && w.idx == Idx(a, w.level)
    ensures m.place[w.table].path == Route(m.realms[rd], a, w.level)
    ensures w.level < target ==> !m.tables[w.table][w.idx].TableEntry?
    ensures EntryAt(m.tables, w.table, w.idx) == m.tables[w.table][w.idx]
    ensures ValidEntry(m.realms[rd].fmt, m.tables[w.table][w.idx], w.level) && a < MAX_ADDR
  {
    RealmWalkPlace(m, rd, target, a);
    hide Idx;
    EntryFacts(m, w.table, w.idx);
    RootInBounds(m.realms[rd].ipaBits, m.realms[rd].start, |m.realms[rd].roots|, a);
  }

  lemma RootPlace(m: Machine, rd: Addr, b: Addr)
    requires Inv(m) && rd in m.realms && ValidRealm(m.realms[rd]) && InIpa(m.realms[rd], b)
    ensures var root := RootFor(m.realms[rd], b);
            root in m.place && m.place[root] == Place(rd, [RootIdx(b, m.realms[rd].start)], rd)
  {
    assert RootsOk(m, rd);
    RootInBounds(m.realms[rd].ipaBits, m.realms[rd].start, |m.realms[rd].roots|, b);
  }

  /** Exactly the addresses of the same realm in the range of an entry reach it. */
  lemma HitsExactly(m: Machine, rd: Addr, target: int, a: Addr, w: WalkResult, rd': Addr, target': int, b: Addr)
    requires Reached(m, rd, target, a, w)
    requires rd' in m.realms && ValidRealm(m.realms[rd']) && InIpa(m.realms[rd'], b)
    requires m.realms[rd'].start <= target' <= PAGE_LEVEL
    requires target' == target || (target' > target && !EntryAt(m.tables, w.table, w.idx).TableEntry?)
    requires MIN_LEVEL <= w.level <= PAGE_LEVEL
    ensures (var w' := RealmWalk(m.tables, m.realms[rd'], target', b); w'.table == w.table && w'.idx == w.idx)
            <==> rd' == rd && SameEntry(a, b, w.level)
    ensures rd' == rd && SameEntry(a, b, w.level) ==> RealmWalk(m.tables, m.realms[rd'], target', b) == w
  {
    var r, r' := m.realms[rd], m.realms[rd'];
    var w' := RealmWalk(m.tables, r', target', b);
    ReachedFacts(m, rd, target, a, w);
    ReachedFacts(m, rd', target', b, w');
    if w'.table == w.table && w'.idx == w.idx {
      SameRoute(r, a, b, w.level);
      EntryInTable(a, b, w.level);
    }
    if rd' == rd && SameEntry(a, b, w.level) {
      RealmWalkAgree(m.tables, r, target, a, b);
      if target' > target {
        WalkLeafStable(m.tables, RootFor(r, b), r.start, target, target', b);
      }
    }
  }

  lemma {:induction false} WalkLeafStable(ts: Tables, t: Addr, level: int, target: int, target': int, ipa: Addr)
    requires MIN_LEVEL <= level <= target <= target' <= PAGE_LEVEL
    requires var w := Walk(ts, t, level, target, ipa); !EntryAt(ts, w.table, w.idx).TableEntry?
    ensures Walk(ts, t, level, target', ipa) == Walk(ts, t, level, target, ipa)
    decreases target - level
  {
    hide Idx;
    var e := EntryAt(ts, t, Idx(ipa, level));
    if level < target && e.TableEntry? {
      WalkLeafStable(ts, e.pa, level + 1, target, target', ipa);
    }
  }

  lemma {:induction false} WalkCut(ts: Tables, t: Addr, level: int, target: int, ipa: Addr)
    requires MIN_LEVEL <= level <= target <= PAGE_LEVEL
    ensures var w := Walk(ts, t, level, target, ipa);
            level <= w.level <= target && Walk(ts, t, level, w.level, ipa) == w
    decreases target - level
  {
    hide Idx;
    var e := EntryAt(ts, t, Idx(ipa, level));
    if level < target && e.TableEntry? {
      WalkCut(ts, e.pa, level + 1, target, ipa);
    }
  }

  /** Addresses of one table take the same walk to it. */
  lemma {:induction false} WalkToTable(ts: Tables, t: Addr, level: int, target: int, a: Addr, b: Addr)
    requires MIN_LEVEL <= level <= target <= PAGE_LEVEL && a < MAX_ADDR && b < MAX_ADDR
    requires Walk(ts, t, level, target, a).level == target && SameEntry(a, b, target - 1)
    ensures Walk(ts, t, level, target, b) == WalkResult(Walk(ts, t, level, target, a).table, Idx(b, target), target)
    decreases target - level
  {
    hide Idx, SameEntry;
    var e := EntryAt(ts, t, Idx(a, level));
    if level < target {
      SameEntryUp(a, b, target - 1, level);
      EntryInTable(a, b, level);
      WalkToTable(ts, e.pa, level + 1, target, a, b);
    }
  }

  /** The walk for another address of the table that `a` reaches arrives at that table. */
  lemma Sibling(m: Machine, rd: Addr, target: int, a: Addr, w: WalkResult, b: Addr)
    requires Reached(m, rd, target, a, w) && InIpa(m.realms[rd], b)
    requires MIN_LEVEL <= w.level <= PAGE_LEVEL && SameEntry(a, b, w.level - 1)
    ensures Reached(m, rd, w.level, b, WalkResult(w.table, Idx(b, w.level), w.level))
  {
    var r := m.realms[rd];
    RootInBounds(r.ipaBits, r.start, |r.roots|, a);
    RootInBounds(r.ipaBits, r.start, |r.roots|, b);
    WalkCut(m.tables, RootFor(r, a), r.start, target, a);
    hide Idx, Walk, SameEntry, Inv;
    SameEntryUp(a, b, w.level - 1, r.start - 1);
    assert RootFor(r, a) == RootFor(r, b) by { SameRoot(a, b, r.start); }
    WalkToTable(m.tables, RootFor(r, a), r.start, w.level, a, b);
  }

  lemma SameRoot(a: Addr, b: Addr, start: int)
    requires MIN_LEVEL <= start <= PAGE_LEVEL && SameEntry(a, b, start - 1)
    ensures RootIdx(a, start) == RootIdx(b, start)
  {}

  // ------------------------------------------------------------ overwriting a leaf

  lemma {:induction false} WalkSet(m: Machine, t: Addr, i: nat, e: Entry, t': Addr, level: int, target: int, ipa: Addr)
    requires t in m.tables && t in m.gs && i < |m.tables[t]|
    requires !m.tables[t][i].TableEntry? && !e.TableEntry?
    requires MIN_LEVEL <= level <= target <= PAGE_LEVEL
    ensures Walk(SetEntry(m, t, i, e).tables, t', level, target, ipa) == Walk(m.tables, t', level, target, ipa)
    decreases target - level
  {
    hide Idx;
    var e' := EntryAt(m.tables, t', Idx(ipa, level));
    if level < target && e'.TableEntry? {
      WalkSet(m, t, i, e, e'.pa, level + 1, target, ipa);
    }
  }

  /** Overwriting a leaf changes the flat map of its range and nothing else. */
  lemma FlatSet(m: Machine, rd: Addr, target: int, a: Addr, w: WalkResult, e: Entry, rd': Addr, b: Addr)
    requires Reached(m, rd, target, a, w) && AtEntry(m, w.table, w.idx)
    requires !m.tables[w.table][w.idx].TableEntry? && !e.TableEntry? && MIN_LEVEL <= w.level <= PAGE_LEVEL
    requires rd' in m.realms && ValidRealm(m.realms[rd']) && InIpa(m.realms[rd'], b)
    ensures Flat(SetEntry(m, w.table, w.idx, e).tables, m.realms[rd'], b)
            == if rd' == rd && SameEntry(a, b, w.level) then PageOf(e, w.level, b)
               else Flat(m.tables, m.realms[rd'], b)
  {
    var r' := m.realms[rd'];
    var m2 := SetEntry(m, w.table, w.idx, e);
    HitsExactly(m, rd, target, a, w, rd', PAGE_LEVEL, b);
    WalkSet(m, w.table, w.idx, e, RootFor(r', b), r'.start, PAGE_LEVEL, b);
    var w' := RealmWalk(m.tables, r', PAGE_LEVEL, b);
    assert RealmWalk(m2.tables, r', PAGE_LEVEL, b) == w';
    ReachedFacts(m, rd', PAGE_LEVEL, b, w');
  }

  // ------------------------------------------------------------ a new table

  lemma {:induction false} WalkAdd(m: Machine, t: Addr, i: nat, n: Addr, content: seq<Entry>, t': Addr, ipa: Addr)
    requires CanAdd(m, t, i, n, content)
    requires t' in m.place && m.place[t'].rd in m.realms && MIN_LEVEL <= Level(m, t') <= PAGE_LEVEL
    ensures var w := Walk(m.tables, t', Level(m, t'), PAGE_LEVEL, ipa);
            && MIN_LEVEL <= w.level <= PAGE_LEVEL
            && (w.table == t && w.idx == i ==> w.level < PAGE_LEVEL)
            && Walk(AddTable(m, t, i, n, content).tables, t', Level(m, t'), PAGE_LEVEL, ipa)
               == if w.table == t && w.idx == i then WalkResult(n, Idx(ipa, w.level + 1), w.level + 1) else w
    decreases PAGE_LEVEL - Level(m, t')
  {
    var m2 := AddTable(m, t, i, n, content);
    var level := Level(m, t');
    var j := Idx(ipa, level);
    AddTableFresh(m, t, i, n, content);
    EntryFacts(m, t', j);
    hide Idx, Inv, TableOk, Geometry, Count, ValidEntry, Recount;
    var e := m.tables[t'][j];
    if level < PAGE_LEVEL && e.TableEntry? {
      WalkAdd(m, t, i, n, content, e.pa, ipa);
    } else if t' == t && j == i {
      assert EntryAt(m2.tables, t, i) == TableEntry(n);
      assert !EntryAt(m2.tables, n, Idx(ipa, level + 1)).TableEntry?;
    }
  }

  lemma RealmWalkAdd(m: Machine, t: Addr, i: nat, n: Addr, content: seq<Entry>, rd': Addr, b: Addr)
    requires CanAdd(m, t, i, n, content)
    requires rd' in m.realms && ValidRealm(m.realms[rd']) && InIpa(m.realms[rd'], b)
    ensures var w := RealmWalk(m.tables, m.realms[rd'], PAGE_LEVEL, b);
            && AtEntry(m, w.table, w.idx) && m.place[w.table].rd == rd' && Level(m, w.table) == w.level
            && MIN_LEVEL <= w.level <= PAGE_LEVEL && (w.table == t && w.idx == i ==> w.level < PAGE_LEVEL)
            && RealmWalk(AddTable(m, t, i, n, content).tables, m.realms[rd'], PAGE_LEVEL, b)
               == if w.table == t && w.idx == i then WalkResult(n, Idx(b, w.level + 1), w.level + 1) else w
  {
    var w := RealmWalk(m.tables, m.realms[rd'], PAGE_LEVEL, b);
    ReachedFacts(m, rd', PAGE_LEVEL, b, w);
    RootPlace(m, rd', b);
    hide Idx, Inv, CanAdd, NumRootRtts, Lsb, Count, Walk, Route;
    WalkAdd(m, t, i, n, content, RootFor(m.realms[rd'], b), b);
  }

  lemma AddedEntries(m: Machine, t: Addr, i: nat, n: Addr, content: seq<Entry>, t': Addr, j: nat)
    requires CanAdd(m, t, i, n, content) && j < ENTRIES
    ensures n != t && EntryAt(AddTable(m, t, i, n, content).tables, n, j) == content[j]
    ensures t' in m.place && (t', j) != (t, i) ==>
              EntryAt(AddTable(m, t, i, n, content).tables, t', j) == EntryAt(m.tables, t', j)
  {
    AddTableFresh(m, t, i, n, content);
  }

  /** Unfolding a leaf leaves the flat map of every realm unchanged. */
  lemma FlatAdd(m: Machine, t: Addr, i: nat, n: Addr, rd': Addr, b: Addr)
    requires AtEntry(m, t, i) && m.place[t].rd in m.realms && MIN_LEVEL <= Level(m, t) < PAGE_LEVEL
    requires CanAdd(m, t, i, n, Unfold(m.tables[t][i], Level(m, t) + 1))
    requires rd' in m.realms && ValidRealm(m.realms[rd']) && InIpa(m.realms[rd'], b)
    ensures Flat(AddTable(m, t, i, n, Unfold(m.tables[t][i], Level(m, t) + 1)).tables, m.realms[rd'], b)
            == Flat(m.tables, m.realms[rd'], b)
  {
    var e := m.tables[t][i];
    var content := Unfold(e, Level(m, t) + 1);
    RealmWalkAdd(m, t, i, n, content, rd', b);
    var w := RealmWalk(m.tables, m.realms[rd'], PAGE_LEVEL, b);
    hide Idx, CanAdd, NumRootRtts, Lsb, Count, Walk, SubEntry, PageOf, TablesInv, CountsInv, RootsInv, GranulesInv,
        AddTable;
    if w.table == t && w.idx == i {
      AddedEntries(m, t, i, n, content, t, Idx(b, w.level + 1));
      SubEntryPage(e, b, w.level + 1);
    } else {
      AddedEntries(m, t, i, n, content, w.table, w.idx);
    }
  }

  // ------------------------------------------------------------ dropping a table

  lemma {:induction false} WalkDrop(m: Machine, t: Addr, i: nat, n: Addr, e: Entry, t': Addr, ipa: Addr)
    requires CanDrop(m, t, i, n, e)
    requires t' in m.place && t' != n && m.place[t'].rd in m.realms && MIN_LEVEL <= Level(m, t') <= PAGE_LEVEL
    ensures var w := Walk(m.tables, t', Level(m, t'), PAGE_LEVEL, ipa);
            Walk(DropTable(m, t, i, n, e).tables, t', Level(m, t'), PAGE_LEVEL, ipa)
            == if w.table == n then WalkResult(t, i, Level(m, t)) else w
    decreases PAGE_LEVEL - Level(m, t')
  {
    var m2 := DropTable(m, t, i, n, e);
    var level := Level(m, t');
    var j := Idx(ipa, level);
    EntryFacts(m, t', j);
    var e' := m.tables[t'][j];
    if e' == TableEntry(n) && level < PAGE_LEVEL {
      OneParent(m, t, i, t', j, n);
    }
    hide Idx, Inv, TableOk, Geometry, Count, ValidEntry, Recount;
    if level < PAGE_LEVEL && e'.TableEntry? {
      if e'.pa == n {
        assert !EntryAt(m.tables, n, Idx(ipa, level + 1)).TableEntry?;
      } else {
        WalkDrop(m, t, i, n, e, e'.pa, ipa);
      }
    }
  }

  lemma RealmWalkDrop(m: Machine, t: Addr, i: nat, n: Addr, e: Entry, rd': Addr, b: Addr)
    requires CanDrop(m, t, i, n, e)
    requires rd' in m.realms && ValidRealm(m.realms[rd']) && InIpa(m.realms[rd'], b)
    ensures var w := RealmWalk(m.tables, m.realms[rd'], PAGE_LEVEL, b);
            && AtEntry(m, w.table, w.idx) && MIN_LEVEL <= w.level <= PAGE_LEVEL
            && !(w.table == t && w.idx == i)
            && RealmWalk(DropTable(m, t, i, n, e).tables, m.realms[rd'], PAGE_LEVEL, b)
               == if w.table == n then WalkResult(t, i, Level(m, t)) else w
  {
    var w := RealmWalk(m.tables, m.realms[rd'], PAGE_LEVEL, b);
    ReachedFacts(m, rd', PAGE_LEVEL, b, w);
    RootPlace(m, rd', b);
    EntryFacts(m, t, i);
    hide Idx, Inv, NumRootRtts, Lsb, Count, Walk, Route, TableOk;
    WalkDrop(m, t, i, n, e, RootFor(m.realms[rd'], b), b);
  }

  /** Dropping a table gives its range the meaning of the new leaf and changes nothing else. */
  lemma FlatDrop(m: Machine, rd: Addr, target: int, a: Addr, w: WalkResult, n: Addr, e: Entry, rd': Addr, b: Addr)
    requires Reached(m, rd, target, a, w) && MIN_LEVEL <= target < PAGE_LEVEL && w.level == target
    requires CanDrop(m, w.table, w.idx, n, e)
    requires rd' in m.realms && ValidRealm(m.realms[rd']) && InIpa(m.realms[rd'], b)
    ensures Flat(DropTable(m, w.table, w.idx, n, e).tables, m.realms[rd'], b)
            == if rd' == rd && SameEntry(a, b, target) then PageOf(e, target, b)
               else Flat(m.tables, m.realms[rd'], b)
    ensures rd' == rd && SameEntry(a, b, target) ==>
              Flat(m.tables, m.realms[rd'], b) == PageOf(EntryAt(m.tables, n, Idx(b, target + 1)), target + 1, b)
  {
    ReachedFacts(m, rd, target, a, w);
    RealmWalkDrop(m, w.table, w.idx, n, e, rd', b);
    DropHits(m, rd, target, a, w, n, e, rd', b);
    hide Idx, Inv, NumRootRtts, Lsb, Count, Walk, Route, TableOk, PageOf, SameEntry;
  }

  /** The addresses that reach table `n` are those of the entry that names it. */
  lemma DropHits(m: Machine, rd: Addr, target: int, a: Addr, w: WalkResult, n: Addr, e: Entry, rd': Addr, b: Addr)
    requires Reached(m, rd, target, a, w) && MIN_LEVEL <= target < PAGE_LEVEL && w.level == target
    requires CanDrop(m, w.table, w.idx, n, e)
    requires rd' in m.realms && ValidRealm(m.realms[rd']) && InIpa(m.realms[rd'], b)
    ensures var w' := RealmWalk(m.tables, m.realms[rd'], PAGE_LEVEL, b);
            w'.table == n <==> rd' == rd && SameEntry(a, b, target)
    ensures rd' == rd && SameEntry(a, b, target) ==>
              RealmWalk(m.tables, m.realms[rd'], PAGE_LEVEL, b) == WalkResult(n, Idx(b, target + 1), target + 1)
  {
    hide Idx, NumRootRtts, Lsb, Count, Walk, Route, TableOk, SameEntry, TablesInv, CountsInv, RootsInv, GranulesInv;
    if RealmWalk(m.tables, m.realms[rd'], PAGE_LEVEL, b).table == n {
      DropReached(m, rd, target, a, w, n, e, rd', b);
    }
    if rd' == rd && SameEntry(a, b, target) {
      ReachesDropped(m, rd, target, a, w, n, e, b);
    }
  }

  lemma DropReached(m: Machine, rd: Addr, target: int, a: Addr, w: WalkResult, n: Addr, e: Entry, rd': Addr, b: Addr)
    requires Reached(m, rd, target, a, w) && MIN_LEVEL <= target < PAGE_LEVEL && w.level == target
    requires CanDrop(m, w.table, w.idx, n, e)
    requires rd' in m.realms && ValidRealm(m.realms[rd']) && InIpa(m.realms[rd'], b)
    requires RealmWalk(m.tables, m.realms[rd'], PAGE_LEVEL, b).table == n
    ensures rd' == rd && SameEntry(a, b, target)
  {
    ReachedFacts(m, rd, target, a, w);
    ReachedFacts(m, rd', PAGE_LEVEL, b, RealmWalk(m.tables, m.realms[rd'], PAGE_LEVEL, b));
    EntryFacts(m, w.table, w.idx);
    hide Idx, Inv, NumRootRtts, Lsb, Count, Walk, TableOk, SameEntry;
    SplitRoute(m.realms[rd], a, b, target, w.idx);
  }

  lemma ReachesDropped(m: Machine, rd: Addr, target: int, a: Addr, w: WalkResult, n: Addr, e: Entry, b: Addr)
    requires Reached(m, rd, target, a, w) && MIN_LEVEL <= target < PAGE_LEVEL && w.level == target
    requires CanDrop(m, w.table, w.idx, n, e) && InIpa(m.realms[rd], b) && SameEntry(a, b, target)
    ensures RealmWalk(m.tables, m.realms[rd], PAGE_LEVEL, b) == WalkResult(n, Idx(b, target + 1), target + 1)
  {
    var r := m.realms[rd];
    hide Idx, Inv, NumRootRtts, Lsb, Count, TableOk, SameEntry;
    RealmWalkAgree(m.tables, r, target, a, b);
    WalkDeeper(m.tables, RootFor(r, b), r.start, target, b);
    assert !EntryAt(m.tables, n, Idx(b, target + 1)).TableEntry?;
  }

  lemma SplitRoute(r: Realm, a: Addr, b: Addr, level: int, i: nat)
    requires MIN_LEVEL <= r.start <= level < PAGE_LEVEL && a < MAX_ADDR && b < MAX_ADDR
    requires i == Idx(a, level) && Route(r, b, level + 1) == Route(r, a, level) + [i]
    ensures SameEntry(a, b, level)
  {
    var p := Route(r, a, level);
    assert (p + [i])[..|p|] == p && (p + [i])[|p|] == i;
    assert (Route(r, b, level) + [Idx(b, level)])[..|p|] == Route(r, b, level);
    SameRoute(r, a, b, level);
    EntryInTable(a, b, level);
  }
}
