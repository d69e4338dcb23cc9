/** The RMI commands on realm translation tables as functions of the state, the flat map
    operation each refines, and the invariant over every run of them. */
module RttCommands {
  import opened S2Geometry
  import opened S2tte
  import opened RealmGeometry
  import opened Rtt
  import opened RttSteps
  import opened RttFlat
  import opened RttInvariants

  /** The status codes, and `AssertionFailure` for commands that run into an assertion. */
  datatype Status = Success | ErrorInput | ErrorRealm | ErrorRec | ErrorRtt(level: int) | AssertionFailure

  /** The next state, the status and the output values of a command. */
  datatype Reply = Reply(m: Machine, status: Status, out: Addr, top: Addr)

  function Fail(m: Machine, s: Status): Reply { Reply(m, s, 0, 0) }

  predicate Is(m: Machine, a: Addr, s: GranuleState) { a in m.gs && m.gs[a].state == s }

  lemma RdIsRealm(m: Machine, rd: Addr)
    requires Inv(m) && Is(m, rd, RdState)
    ensures rd in m.realms && ValidRealm(m.realms[rd])
  {
    assert GranuleOk(m, rd) && RootsOk(m, rd);
  }

  /** The address is in the realm and aligned to an entry of `level`. */
  predicate ValidMapAddr(r: Realm, ipa: Addr, level: int)
    requires MIN_LEVEL <= level <= PAGE_LEVEL
  {
    InIpa(r, ipa) && Aligned(ipa, level)
  }

  /** Structure commands operate on all tables but the root. */
  predicate ValidStructureCmd(r: Realm, ipa: Addr, level: int)
    requires ValidRealm(r)
  {
    r.start + 1 <= level <= PAGE_LEVEL && ValidMapAddr(r, ipa, level - 1)
  }

  predicate ValidMapCmd(r: Realm, ipa: Addr, level: int) {
    MIN_BLOCK_LEVEL <= level <= PAGE_LEVEL && ValidMapAddr(r, ipa, level)
  }

  // ------------------------------------------------------------ RTT_CREATE

  ghost function RttCreate(m: Machine, rd: Addr, rtt: Addr, ipa: Addr, level: int): Reply
    requires Inv(m)
  {
    if !Is(m, rd, RdState) || !Is(m, rtt, Delegated) then Fail(m, ErrorInput)
    else
      RdIsRealm(m, rd);
      var r := m.realms[rd];
      if !ValidStructureCmd(r, ipa, level) || rtt >= OutputSize(r.fmt) then Fail(m, ErrorInput)
      else
        var w := RealmWalk(m.tables, r, level - 1, ipa);
        RealmWalkPlace(m, rd, level - 1, ipa);
        EntryFacts(m, w.table, w.idx);
        var e := m.tables[w.table][w.idx];
        if w.level != level - 1 then Fail(m, ErrorRtt(w.level))
        else if e.TableEntry? then Fail(m, ErrorRtt(level - 1))
        else Reply(AddTable(m, w.table, w.idx, rtt, Unfold(e, level)), Success, 0, 0)
  }

  lemma UnfoldValid(f: Format, e: Entry, level: int)
    requires MIN_LEVEL < level <= PAGE_LEVEL && !e.TableEntry? && ValidEntry(f, e, level - 1)
    ensures Leaves(Unfold(e, level))
    ensures forall k | 0 <= k < ENTRIES :: ValidEntry(f, Unfold(e, level)[k], level)
  {
    forall k | 0 <= k < ENTRIES
      ensures ValidEntry(f, Unfold(e, level)[k], level) && !Unfold(e, level)[k].TableEntry?
    {
      SubEntryValid(f, e, k, level);
    }
  }

  lemma RttCreateStep(m: Machine, rd: Addr, rtt: Addr, ipa: Addr, level: int)
    requires Inv(m) && RttCreate(m, rd, rtt, ipa, level).status.Success?
    ensures rd in m.realms && ValidRealm(m.realms[rd]) && ValidStructureCmd(m.realms[rd], ipa, level)
    ensures MIN_LEVEL <= m.realms[rd].start <= level - 1 < PAGE_LEVEL && InIpa(m.realms[rd], ipa)
    ensures RttCreate(m, rd, rtt, ipa, level).m.realms == m.realms
    ensures var w := RealmWalk(m.tables, m.realms[rd], level - 1, ipa);
            && Reached(m, rd, level - 1, ipa, w) && w.level == level - 1
            && w.table in m.tables && w.table in m.gs && w.idx < |m.tables[w.table]| && w.table in m.place
            && rtt in m.gs
            && AtEntry(m, w.table, w.idx) && m.place[w.table].rd == rd && Level(m, w.table) == w.level
            && CanAdd(m, w.table, w.idx, rtt, Unfold(m.tables[w.table][w.idx], level))
            && RttCreate(m, rd, rtt, ipa, level).m
               == AddTable(m, w.table, w.idx, rtt, Unfold(m.tables[w.table][w.idx], level))
  {
    RdIsRealm(m, rd);
    var r := m.realms[rd];
    var w := RealmWalk(m.tables, r, level - 1, ipa);
    ReachedFacts(m, rd, level - 1, ipa, w);
    UnfoldValid(r.fmt, m.tables[w.table][w.idx], level);
  }

  /** A successful RTT_CREATE leaves the flat map of every realm unchanged: every address
      keeps its HIPAS, RIPAS, physical address and non-secure attributes. */
  lemma RttCreateFlat(m: Machine, rd: Addr, rtt: Addr, ipa: Addr, level: int, rd': Addr, b: Addr)
    requires Inv(m) && RttCreate(m, rd, rtt, ipa, level).status.Success? && Mapped(m, rd', b)
    ensures var m2 := RttCreate(m, rd, rtt, ipa, level).m;
            Mapped(m2, rd', b) && PageAt(m2, rd', b) == PageAt(m, rd', b)
  {
    hide *;
    RttCreateStep(m, rd, rtt, ipa, level);
    var w := RealmWalk(m.tables, m.realms[rd], level - 1, ipa);
    var m2 := RttCreate(m, rd, rtt, ipa, level).m;
    SameRealms(m, m2, rd', b);
    FlatAdd(m, w.table, w.idx, rtt, rd', b);
  }

  lemma SameRealms(m: Machine, m2: Machine, rd: Addr, b: Addr)
    requires Mapped(m, rd, b) && m2.realms == m.realms
    ensures rd in m.realms && ValidRealm(m.realms[rd]) && InIpa(m.realms[rd], b) && Mapped(m2, rd, b)
    ensures PageAt(m, rd, b) == Flat(m.tables, m.realms[rd], b) && PageAt(m2, rd, b) == Flat(m2.tables, m.realms[rd], b)
  {}

  lemma RttCreateInv(m: Machine, rd: Addr, rtt: Addr, ipa: Addr, level: int)
    requires FullInv(m)
    ensures FullInv(RttCreate(m, rd, rtt, ipa, level).m)
  {
    var q := RttCreate(m, rd, rtt, ipa, level);
    if q.status.Success? {
      RttCreateStep(m, rd, rtt, ipa, level);
      var w := RealmWalk(m.tables, m.realms[rd], level - 1, ipa);
      var content := Unfold(m.tables[w.table][w.idx], level);
      hide Flat, RttCreate, FlatInv;
      AddTableInv(m, w.table, w.idx, rtt, content);
      forall rd', b | Mapped(m, rd', b) ensures Compatible(PageAt(m, rd', b), PageAt(q.m, rd', b)) {
        RttCreateFlat(m, rd, rtt, ipa, level, rd', b);
      }
      hide Inv, CanAdd;
      CompatibleInv(m, q.m);
    }
  }

  // ------------------------------------------------------------ RTT_FOLD

  datatype Option<T> = None | Some(value: T)

  /** The leaf of `level - 1` whose unfolding is the table `es` of `level`, if there is one. */
  function FoldEntry(f: Format, es: seq<Entry>, level: int): Option<Entry>
    requires MIN_LEVEL < level <= PAGE_LEVEL && |es| == ENTRIES
  {
    if !es[0].TableEntry? && ValidEntry(f, es[0], level - 1) && es == Unfold(es[0], level) then Some(es[0])
    else None
  }

  /** The table is a contiguous non-secure mapping with equal attributes, which at level 1
      cannot be folded because the block would be too large. */
  predicate NsBlock(es: seq<Entry>, level: int)
    requires MIN_LEVEL < level <= PAGE_LEVEL && |es| == ENTRIES
  {
    es[0].AssignedNsEntry? && Aligned(es[0].pa, level - 1) && es == Unfold(es[0], level)
  }

  ghost function RttFold(m: Machine, rd: Addr, ipa: Addr, level: int): Reply
    requires Inv(m)
  {
    if !Is(m, rd, RdState) then Fail(m, ErrorInput)
    else
      RdIsRealm(m, rd);
      var r := m.realms[rd];
      if !ValidStructureCmd(r, ipa, level) then Fail(m, ErrorInput)
      else
        var w := RealmWalk(m.tables, r, level - 1, ipa);
        RealmWalkPlace(m, rd, level - 1, ipa);
        EntryFacts(m, w.table, w.idx);
        var e := m.tables[w.table][w.idx];
        if w.level != level - 1 then Fail(m, ErrorRtt(w.level))
        else if !e.TableEntry? then Fail(m, ErrorRtt(level - 1))
        else
          var es := m.tables[e.pa];
          match FoldEntry(r.fmt, es, level)
          case Some(leaf) => Reply(DropTable(m, w.table, w.idx, e.pa, leaf), Success, e.pa, 0)
          case None =>
            if level <= MIN_BLOCK_LEVEL && (Count(es) == ENTRIES || NsBlock(es, level))
            then Fail(m, ErrorRtt(level - 1)) else Fail(m, ErrorRtt(level))
  }

  /** The walk of a structure command has arrived at the entry that names table `n`. */
  ghost predicate AtTable(m: Machine, rd: Addr, ipa: Addr, level: int, w: WalkResult, n: Addr) {
    && rd in m.realms && ValidRealm(m.realms[rd]) && ValidStructureCmd(m.realms[rd], ipa, level)
    && Reached(m, rd, level - 1, ipa, w) && w.level == level - 1
    && AtEntry(m, w.table, w.idx) && m.tables[w.table][w.idx] == TableEntry(n)
    && m.place[w.table].rd == rd && Level(m, w.table) == level - 1
    && n in m.tables && n in m.gs && |m.tables[n]| == ENTRIES && n != w.table
  }

  lemma AtTableFacts(m: Machine, rd: Addr, ipa: Addr, level: int, w: WalkResult, n: Addr)
    requires Inv(m) && rd in m.realms && ValidRealm(m.realms[rd]) && ValidStructureCmd(m.realms[rd], ipa, level)
    requires w == RealmWalk(m.tables, m.realms[rd], level - 1, ipa) && w.level == level - 1
    requires EntryAt(m.tables, w.table, w.idx) == TableEntry(n)
    ensures AtTable(m, rd, ipa, level, w, n) && RefcountOk(m, n) && TableOk(m, n)
  {
    ReachedFacts(m, rd, level - 1, ipa, w);
    EntryFacts(m, w.table, w.idx);
    assert RefcountOk(m, n);
  }

  lemma RttFoldStep(m: Machine, rd: Addr, ipa: Addr, level: int)
    requires Inv(m) && RttFold(m, rd, ipa, level).status.Success?
    ensures rd in m.realms && ValidRealm(m.realms[rd]) && ValidStructureCmd(m.realms[rd], ipa, level)
    ensures var w := RealmWalk(m.tables, m.realms[rd], level - 1, ipa);
            var n := RttFold(m, rd, ipa, level).out;
            && AtTable(m, rd, ipa, level, w, n)
            && FoldEntry(m.realms[rd].fmt, m.tables[n], level).Some?
            && var leaf := FoldEntry(m.realms[rd].fmt, m.tables[n], level).value;
            && m.tables[n] == Unfold(leaf, level) && CanDrop(m, w.table, w.idx, n, leaf)
            && RttFold(m, rd, ipa, level).m == DropTable(m, w.table, w.idx, n, leaf)
  {
    RdIsRealm(m, rd);
    var r := m.realms[rd];
    var w := RealmWalk(m.tables, r, level - 1, ipa);
    ReachedFacts(m, rd, level - 1, ipa, w);
    var n := m.tables[w.table][w.idx].pa;
    AtTableFacts(m, rd, ipa, level, w, n);
    UnfoldValid(r.fmt, m.tables[n][0], level);
  }

  /** A successful RTT_FOLD leaves the flat map of every realm unchanged. */
  lemma RttFoldFlat(m: Machine, rd: Addr, ipa: Addr, level: int, rd': Addr, b: Addr)
    requires Inv(m) && RttFold(m, rd, ipa, level).status.Success? && Mapped(m, rd', b)
    ensures var m2 := RttFold(m, rd, ipa, level).m;
            Mapped(m2, rd', b) && PageAt(m2, rd', b) == PageAt(m, rd', b)
  {
    RttFoldStep(m, rd, ipa, level);
    var w := RealmWalk(m.tables, m.realms[rd], level - 1, ipa);
    var n := RttFold(m, rd, ipa, level).out;
    var leaf := FoldEntry(m.realms[rd].fmt, m.tables[n], level).value;
    hide RttFold, Flat, Inv, FoldEntry;
    FlatDrop(m, rd, level - 1, ipa, w, n, leaf, rd', b);
    SubEntryPage(leaf, b, level);
  }

  lemma RttFoldInv(m: Machine, rd: Addr, ipa: Addr, level: int)
    requires FullInv(m)
    ensures FullInv(RttFold(m, rd, ipa, level).m)
  {
    var q := RttFold(m, rd, ipa, level);
    if q.status.Success? {
      RttFoldStep(m, rd, ipa, level);
      assert GranuleOk(m, q.out);
      var w := RealmWalk(m.tables, m.realms[rd], level - 1, ipa);
      var leaf := FoldEntry(m.realms[rd].fmt, m.tables[q.out], level).value;
      hide Flat, RttFold, FlatInv, FoldEntry, TableOk;
      DropTableInv(m, w.table, w.idx, q.out, leaf);
      forall rd', b | Mapped(m, rd', b) ensures Compatible(PageAt(m, rd', b), PageAt(q.m, rd', b)) {
        RttFoldFlat(m, rd, ipa, level, rd', b);
      }
      hide CanDrop;
      CompatibleInv(m, q.m);
    }
  }

  // ------------------------------------------------------------ RTT_DESTROY

  /** The first live entry from index `i`, or the end of the table. */
  function FirstLive(es: seq<Entry>, i: nat): (j: nat)
    requires i <= |es|
    ensures i <= j <= |es|
    ensures forall k | i <= k < j :: !es[k].Live()
    ensures j < |es| ==> es[j].Live()
    decreases |es| - i
  {
    if i == |es| || es[i].Live() then i else FirstLive(es, i + 1)
  }

  /** The address of the first live entry of the table from that of `addr` on. */
  function SkipNonLive(es: seq<Entry>, i: nat, level: int, addr: Addr): Addr
    requires MIN_LEVEL <= level <= PAGE_LEVEL && i < |es|
  {
    if es[i].Live() then addr
    else addr / Span(level) * Span(level) + (FirstLive(es, i + 1) - i) * Span(level)
  }

  function DestroyedLeaf(r: Realm, ipa: Addr): Entry {
    if InPar(r, ipa) then UnassignedEntry(Destroyed) else UnassignedNsEntry
  }

  ghost function RttDestroy(m: Machine, rd: Addr, ipa: Addr, level: int): Reply
    requires Inv(m)
  {
    if !Is(m, rd, RdState) then Fail(m, ErrorInput)
    else
      RdIsRealm(m, rd);
      var r := m.realms[rd];
      if !ValidStructureCmd(r, ipa, level) then Fail(m, ErrorInput)
      else
        var w := RealmWalk(m.tables, r, level - 1, ipa);
        RealmWalkPlace(m, rd, level - 1, ipa);
        EntryFacts(m, w.table, w.idx);
        var es := m.tables[w.table];
        if w.level != level - 1 || !es[w.idx].TableEntry? then
          Reply(m, ErrorRtt(w.level), 0, SkipNonLive(es, w.idx, w.level, ipa))
        else if m.gs[es[w.idx].pa].refcount != 0 then Reply(m, ErrorRtt(level), 0, ipa)
        else
          var m2 := DropTable(m, w.table, w.idx, es[w.idx].pa, DestroyedLeaf(r, ipa));
          Reply(m2, Success, es[w.idx].pa, SkipNonLive(m2.tables[w.table], w.idx, w.level, ipa))
  }

  lemma RttDestroyStep(m: Machine, rd: Addr, ipa: Addr, level: int)
    requires Inv(m) && RttDestroy(m, rd, ipa, level).status.Success?
    ensures rd in m.realms && ValidRealm(m.realms[rd]) && ValidStructureCmd(m.realms[rd], ipa, level)
    ensures var w := RealmWalk(m.tables, m.realms[rd], level - 1, ipa);
            var n := RttDestroy(m, rd, ipa, level).out;
            && AtTable(m, rd, ipa, level, w, n) && Count(m.tables[n]) == 0
            && CanDrop(m, w.table, w.idx, n, DestroyedLeaf(m.realms[rd], ipa))
            && RttDestroy(m, rd, ipa, level).m == DropTable(m, w.table, w.idx, n, DestroyedLeaf(m.realms[rd], ipa))
  {
    RdIsRealm(m, rd);
    var r := m.realms[rd];
    var w := RealmWalk(m.tables, r, level - 1, ipa);
    ReachedFacts(m, rd, level - 1, ipa, w);
    var n := m.tables[w.table][w.idx].pa;
    AtTableFacts(m, rd, ipa, level, w, n);
    CountBounds(m.tables[n]);
  }

  /** A successful RTT_DESTROY changes the range of the table only, where no protected
      mapping was live: it becomes DESTROYED inside the PAR, unmapped outside. */
  lemma RttDestroyFlat(m: Machine, rd: Addr, ipa: Addr, level: int, rd': Addr, b: Addr)
    requires Inv(m) && RttDestroy(m, rd, ipa, level).status.Success? && Mapped(m, rd', b)
    ensures rd in m.realms && MIN_LEVEL < level <= PAGE_LEVEL
    ensures var m2 := RttDestroy(m, rd, ipa, level).m;
            var hit := rd' == rd && ipa <= b < ipa + Span(level - 1);
            && Mapped(m2, rd', b)
            && PageAt(m2, rd', b) == (if !hit then PageAt(m, rd', b)
                                      else if InPar(m.realms[rd], ipa) then Unassigned(Destroyed) else UnassignedNs)
            && (hit ==> !PageAt(m, rd', b).Assigned? && (InPar(m.realms[rd], b) <==> InPar(m.realms[rd], ipa)))
  {
    RttDestroyStep(m, rd, ipa, level);
    var r := m.realms[rd];
    var w := RealmWalk(m.tables, r, level - 1, ipa);
    var n := RttDestroy(m, rd, ipa, level).out;
    CountBounds(m.tables[n]);
    hide RttDestroy, Flat, Inv, Count;
    FlatDrop(m, rd, level - 1, ipa, w, n, DestroyedLeaf(r, ipa), rd', b);
    EntryRange(ipa, b, level - 1);
    if rd' == rd && SameEntry(ipa, b, level - 1) {
      ParOnBoundary(r.ipaBits, r.start, |r.roots|, ipa, b, level - 1);
    }
  }

  lemma RttDestroyInv(m: Machine, rd: Addr, ipa: Addr, level: int)
    requires FullInv(m)
    ensures FullInv(RttDestroy(m, rd, ipa, level).m)
  {
    var q := RttDestroy(m, rd, ipa, level);
    if q.status.Success? {
      RttDestroyStep(m, rd, ipa, level);
      assert GranuleOk(m, q.out);
      var w := RealmWalk(m.tables, m.realms[rd], level - 1, ipa);
      hide Flat, RttDestroy, TableOk;
      DropTableInv(m, w.table, w.idx, q.out, DestroyedLeaf(m.realms[rd], ipa));
      forall rd', b | Mapped(m, rd', b) ensures Compatible(PageAt(m, rd', b), PageAt(q.m, rd', b)) {
        assert ParOk(m, rd', b);
        RttDestroyFlat(m, rd, ipa, level, rd', b);
      }
      hide CanDrop, FlatInv;
      CompatibleInv(m, q.m);
    }
  }

  // ------------------------------------------------------------ unfolding and folding back

  /** A walk that does not go below the level of `t` does not see a table added below `t`. */
  lemma {:induction false} WalkAddAbove(m: Machine, t: Addr, i: nat, n: Addr, content: seq<Entry>, t': Addr,
      target: int, ipa: Addr)
    requires CanAdd(m, t, i, n, content)
    requires t' in m.place && m.place[t'].rd in m.realms && MIN_LEVEL <= Level(m, t') <= target <= Level(m, t)
    ensures Walk(AddTable(m, t, i, n, content).tables, t', Level(m, t'), target, ipa)
            == Walk(m.tables, t', Level(m, t'), target, ipa)
    decreases target - Level(m, t')
  {
    var j := Idx(ipa, Level(m, t'));
    AddTableFresh(m, t, i, n, content);
    EntryFacts(m, t', j);
    hide Idx, Inv, TableOk, Geometry, Count, ValidEntry, Recount;
    var e := m.tables[t'][j];
    if Level(m, t') < target && e.TableEntry? {
      WalkAddAbove(m, t, i, n, content, e.pa, target, ipa);
    }
  }

  /** The state that remains when a table is added and dropped again. */
  lemma AddThenDrop(m: Machine, t: Addr, i: nat, n: Addr, content: seq<Entry>)
    requires CanAdd(m, t, i, n, content)
    ensures n != t && DropTable(AddTable(m, t, i, n, content), t, i, n, m.tables[t][i]) == m
  {
    AddTableFresh(m, t, i, n, content);
    EntryFacts(m, t, i);
    assert GranuleOk(m, n);
    CountUpdate(m.tables[t], i, TableEntry(n));
    if m.tables[t][i].Counted() {
      CountBounds(m.tables[t]);
    }
    assert n in m.gs && m.gs[n] == Granule(Delegated, 0, true) && t in m.tables && i < |m.tables[t]| && t in m.gs;
    hide Count, TableOk, Inv, CanAdd, Geometry, GranuleOk, EntryOk, ValidEntry;
    AddedAndDropped(m, t, i, n, content);
  }

  lemma AddedAndDropped(m: Machine, t: Addr, i: nat, n: Addr, content: seq<Entry>)
    requires t in m.tables && t in m.gs && t in m.place && i < |m.tables[t]| && n != t && n !in m.place
    requires n !in m.tables
    requires n in m.gs && m.gs[n] == Granule(Delegated, 0, true) && (m.tables[t][i].Counted() ==> m.gs[t].refcount > 0)
    ensures DropTable(AddTable(m, t, i, n, content), t, i, n, m.tables[t][i]) == m
  {
    var m1 := AddTable(m, t, i, n, content);
    var m2 := DropTable(m1, t, i, n, m.tables[t][i]);
    assert m1.tables[t][i := m.tables[t][i]] == m.tables[t];
    assert m2.tables == m.tables;
    assert m2.gs[t] == m.gs[t] && m2.gs[n] == m.gs[n];
    assert m2.gs == m.gs;
    assert m2.place == m.place;
  }

  /** RTT_FOLD right after RTT_CREATE always succeeds and restores the state exactly:
      the parent entry, both reference counts and the zeroed DELEGATED granule. */
  lemma CreateThenFold(m: Machine, rd: Addr, rtt: Addr, ipa: Addr, level: int)
    requires Inv(m) && RttCreate(m, rd, rtt, ipa, level).status.Success?
    ensures Inv(RttCreate(m, rd, rtt, ipa, level).m)
    ensures RttFold(RttCreate(m, rd, rtt, ipa, level).m, rd, ipa, level) == Reply(m, Success, rtt, 0)
  {
    RttCreateStep(m, rd, rtt, ipa, level);
    var r := m.realms[rd];
    var w := RealmWalk(m.tables, r, level - 1, ipa);
    var e := m.tables[w.table][w.idx];
    var m1 := RttCreate(m, rd, rtt, ipa, level).m;
    AddTableInv(m, w.table, w.idx, rtt, Unfold(e, level));
    AddThenDrop(m, w.table, w.idx, rtt, Unfold(e, level));
    CreatedWalk(m, rd, rtt, ipa, level);
    CreatedFold(m, rd, rtt, ipa, level);
    assert GranuleOk(m, rd) && GranuleOk(m, rtt);
    hide RttCreate, Inv, CanAdd, Unfold, FoldEntry, DropTable, Walk, Geometry, Aligned, IpaSize;
    assert Is(m1, rd, RdState);
  }

  lemma CreatedWalk(m: Machine, rd: Addr, rtt: Addr, ipa: Addr, level: int)
    requires Inv(m) && RttCreate(m, rd, rtt, ipa, level).status.Success?
    ensures rd in m.realms && ValidRealm(m.realms[rd]) && ValidStructureCmd(m.realms[rd], ipa, level)
    ensures var m1 := RttCreate(m, rd, rtt, ipa, level).m;
            var w := RealmWalk(m.tables, m.realms[rd], level - 1, ipa);
            && RealmWalk(m1.tables, m.realms[rd], level - 1, ipa) == w && m1.realms == m.realms
            && w.table in m1.tables && w.idx < |m1.tables[w.table]|
            && m1.tables[w.table][w.idx] == TableEntry(rtt)
  {
    RttCreateStep(m, rd, rtt, ipa, level);
    var r := m.realms[rd];
    var w := RealmWalk(m.tables, r, level - 1, ipa);
    RootPlace(m, rd, ipa);
    AddTableFresh(m, w.table, w.idx, rtt, Unfold(m.tables[w.table][w.idx], level));
    hide RttCreate, Inv, CanAdd, Unfold, Walk;
    WalkAddAbove(m, w.table, w.idx, rtt, Unfold(m.tables[w.table][w.idx], level), RootFor(r, ipa), level - 1, ipa);
  }

  lemma CreatedFold(m: Machine, rd: Addr, rtt: Addr, ipa: Addr, level: int)
    requires Inv(m) && RttCreate(m, rd, rtt, ipa, level).status.Success?
    ensures rd in m.realms && ValidRealm(m.realms[rd]) && ValidStructureCmd(m.realms[rd], ipa, level)
    ensures var m1 := RttCreate(m, rd, rtt, ipa, level).m;
            var w := RealmWalk(m.tables, m.realms[rd], level - 1, ipa);
            && rtt in m1.tables && |m1.tables[rtt]| == ENTRIES && w.table in m.tables && w.idx < |m.tables[w.table]|
            && FoldEntry(m.realms[rd].fmt, m1.tables[rtt], level) == Some(m.tables[w.table][w.idx])
  {
    RttCreateStep(m, rd, rtt, ipa, level);
    var r := m.realms[rd];
    var w := RealmWalk(m.tables, r, level - 1, ipa);
    ReachedFacts(m, rd, level - 1, ipa, w);
    var e := m.tables[w.table][w.idx];
    assert Unfold(e, level)[0] == SubEntry(e, 0, level) == e;
  }
}
