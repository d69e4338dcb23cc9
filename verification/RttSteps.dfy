/** The three ways in which commands change the tables: overwrite a leaf, hang a new
    table below an entry, drop a table. Each keeps the invariant and has an exact
    effect on the flat map of every realm. */
module RttSteps {
  import opened S2Geometry
  import opened S2tte
  import opened RealmGeometry
  import opened Rtt

  /** Entry `i` of table `t` lies on table `t`'s level. */
  ghost predicate AtEntry(m: Machine, t: Addr, i: nat) {
    Inv(m) && t in m.place && t in m.tables && t in m.gs && i < |m.tables[t]| == ENTRIES
  }

  function Delta(e: Entry): nat { if e.Counted() then 1 else 0 }

  /** The reference count of a table whose entry `was` becomes `e`. */
  function Recount(ref: nat, was: Entry, e: Entry): nat
  {
    if ref + Delta(e) >= Delta(was) then ref + Delta(e) - Delta(was) else 0
  }

  function SetEntry(m: Machine, t: Addr, i: nat, e: Entry): Machine
    requires t in m.tables && t in m.gs && i < |m.tables[t]|
  {
    m.(tables := m.tables[t := m.tables[t][i := e]],
       gs := m.gs[t := m.gs[t].(refcount := Recount(m.gs[t].refcount, m.tables[t][i], e))])
  }

  /** Hang table `n` with `content` below entry `i` of `t`. */
  function AddTable(m: Machine, t: Addr, i: nat, n: Addr, content: seq<Entry>): Machine
    requires t in m.tables && t in m.gs && i < |m.tables[t]| && t in m.place && n in m.gs
  {
    var m1 := SetEntry(m, t, i, TableEntry(n));
    m1.(tables := m1.tables[n := content],
        gs := m1.gs[n := Granule(RttState, Count(content), false)],
        place := m.place[n := Place(m.place[t].rd, m.place[t].path + [i], t)])
  }

  /** Replace entry `i` of `t`, which names table `n`, by `e`; wipe and release `n`. */
  function DropTable(m: Machine, t: Addr, i: nat, n: Addr, e: Entry): Machine
    requires t in m.tables && t in m.gs && i < |m.tables[t]| && n in m.gs && n != t
  {
    var m1 := SetEntry(m, t, i, e);
    m1.(tables := m1.tables - {n},
        gs := m1.gs[n := Granule(Delegated, 0, true)],
        place := m.place - {n})
  }

  /** The table that unfolds leaf `e` of `level - 1`. */
  function Unfold(e: Entry, level: int): (es: seq<Entry>)
    requires MIN_LEVEL < level <= PAGE_LEVEL
    ensures |es| == ENTRIES
  {
    seq(ENTRIES, k requires 0 <= k < ENTRIES => SubEntry(e, k, level))
  }

  predicate Leaves(es: seq<Entry>) { forall k | 0 <= k < |es| :: !es[k].TableEntry? }

  lemma InvParts(m: Machine)
    requires TablesInv(m) && CountsInv(m) && RootsInv(m) && GranulesInv(m)
    ensures Inv(m)
  {}

  // ------------------------------------------------------------ invariant: overwriting a leaf

  lemma SetEntryTable(m: Machine, t: Addr, i: nat, e: Entry, t': Addr)
    requires AtEntry(m, t, i) && !m.tables[t][i].TableEntry? && !e.TableEntry?
    requires m.place[t].rd in m.realms && MIN_LEVEL <= Level(m, t) <= PAGE_LEVEL
    requires ValidEntry(m.realms[m.place[t].rd].fmt, e, Level(m, t))
    requires t' in m.place
    ensures TableOk(SetEntry(m, t, i, e), t')
  {
    hide ValidEntry, NumRootRtts, Lsb, Count, CountsInv, RootsInv, GranulesInv, Recount;
    var m2 := SetEntry(m, t, i, e);
    assert TableOk(m, t');
    forall j: nat | j < ENTRIES ensures EntryOk(m2, t', j) {
      assert EntryOk(m, t', j);
    }
  }

  lemma SetEntryInv(m: Machine, t: Addr, i: nat, e: Entry)
    requires AtEntry(m, t, i) && !m.tables[t][i].TableEntry? && !e.TableEntry?
    requires m.place[t].rd in m.realms && MIN_LEVEL <= Level(m, t) <= PAGE_LEVEL
    requires ValidEntry(m.realms[m.place[t].rd].fmt, e, Level(m, t))
    ensures Inv(SetEntry(m, t, i, e))
  {
    hide ValidEntry, Geometry, Count, TableOk;
    var m2 := SetEntry(m, t, i, e);
    forall t' | t' in m2.place ensures TableOk(m2, t') {
      SetEntryTable(m, t, i, e, t');
    }
    EntryFacts(m, t, i);
    CountUpdate(m.tables[t], i, e);
    forall t' | t' in m2.place ensures RefcountOk(m2, t') {
      assert RefcountOk(m, t');
    }
    forall rd | rd in m2.realms ensures RootsOk(m2, rd) {
      assert RootsOk(m, rd);
    }
    forall a | a in m2.gs ensures GranuleOk(m2, a) {
      assert GranuleOk(m, a);
    }
  }

  // ------------------------------------------------------------ invariant: a new table

  ghost predicate CanAdd(m: Machine, t: Addr, i: nat, n: Addr, content: seq<Entry>) {
    && AtEntry(m, t, i) && !m.tables[t][i].TableEntry?
    && n in m.gs && m.gs[n].state.Delegated?
    && m.place[t].rd in m.realms && MIN_LEVEL <= Level(m, t) < PAGE_LEVEL
    && n < OutputSize(m.realms[m.place[t].rd].fmt)
    && |content| == ENTRIES && Leaves(content)
    && (forall k | 0 <= k < ENTRIES :: ValidEntry(m.realms[m.place[t].rd].fmt, content[k], Level(m, t) + 1))
  }

  lemma AddTableFresh(m: Machine, t: Addr, i: nat, n: Addr, content: seq<Entry>)
    requires CanAdd(m, t, i, n, content)
    ensures n !in m.place && n != t && n !in m.realms && n !in m.recs && Aligned(n, PAGE_LEVEL)
  {
    assert GranuleOk(m, n) && GranuleOk(m, t);
  }

  lemma AddTableNew(m: Machine, t: Addr, i: nat, n: Addr, content: seq<Entry>)
    requires CanAdd(m, t, i, n, content)
    ensures TableOk(AddTable(m, t, i, n, content), n)
  {
    var m2 := AddTable(m, t, i, n, content);
    AddTableFresh(m, t, i, n, content);
    EntryFacts(m, t, i);
    hide ValidEntry, NumRootRtts, Lsb, Count, Inv, Recount;
    var path := m.place[t].path;
    assert (path + [i])[..|path|] == path;
    forall j: nat | j < ENTRIES ensures EntryOk(m2, n, j) {
      assert EntryAt(m2.tables, n, j) == content[j];
    }
  }

  lemma AddTableOther(m: Machine, t: Addr, i: nat, n: Addr, content: seq<Entry>, t': Addr)
    requires CanAdd(m, t, i, n, content) && t' in m.place
    ensures t' in AddTable(m, t, i, n, content).place && TableOk(AddTable(m, t, i, n, content), t')
  {
    var m2 := AddTable(m, t, i, n, content);
    AddTableFresh(m, t, i, n, content);
    assert TableOk(m, t');
    assert ValidEntry(m.realms[m.place[t].rd].fmt, TableEntry(n), Level(m, t));
    hide ValidEntry, NumRootRtts, Lsb, Count, CountsInv, RootsInv, GranulesInv, Recount;
    forall j: nat | j < ENTRIES ensures EntryOk(m2, t', j) {
      assert EntryOk(m, t', j);
    }
  }

  lemma AddTableCounts(m: Machine, t: Addr, i: nat, n: Addr, content: seq<Entry>)
    requires CanAdd(m, t, i, n, content)
    ensures CountsInv(AddTable(m, t, i, n, content))
  {
    var m2 := AddTable(m, t, i, n, content);
    AddTableFresh(m, t, i, n, content);
    EntryFacts(m, t, i);
    CountUpdate(m.tables[t], i, TableEntry(n));
    hide ValidEntry, Geometry, Count, TableOk, GranuleOk;
    forall t' | t' in m2.place ensures RefcountOk(m2, t') {
      if t' != n { assert RefcountOk(m, t'); }
    }
  }

  lemma AddTableRoots(m: Machine, t: Addr, i: nat, n: Addr, content: seq<Entry>)
    requires CanAdd(m, t, i, n, content)
    ensures RootsInv(AddTable(m, t, i, n, content))
  {
    var m2 := AddTable(m, t, i, n, content);
    AddTableFresh(m, t, i, n, content);
    EntryFacts(m, t, i);
    hide ValidEntry, Geometry, Count, TableOk, GranuleOk, CountsInv, Recount;
    forall rd | rd in m2.realms ensures RootsOk(m2, rd) {
      assert RootsOk(m, rd);
    }
  }

  lemma AddTableGranules(m: Machine, t: Addr, i: nat, n: Addr, content: seq<Entry>)
    requires CanAdd(m, t, i, n, content)
    ensures GranulesInv(AddTable(m, t, i, n, content))
  {
    var m2 := AddTable(m, t, i, n, content);
    AddTableFresh(m, t, i, n, content);
    EntryFacts(m, t, i);
    hide ValidEntry, Geometry, Count, TableOk, Aligned, CountsInv, RootsInv, Recount;
    forall a | a in m2.gs ensures GranuleOk(m2, a) {
      assert GranuleOk(m, a);
    }
  }

  lemma AddTableInv(m: Machine, t: Addr, i: nat, n: Addr, content: seq<Entry>)
    requires CanAdd(m, t, i, n, content)
    ensures Inv(AddTable(m, t, i, n, content))
  {
    var m2 := AddTable(m, t, i, n, content);
    AddTableCounts(m, t, i, n, content);
    AddTableRoots(m, t, i, n, content);
    AddTableGranules(m, t, i, n, content);
    hide Inv, TableOk, CountsInv, RootsInv, GranulesInv;
    assert TablesInv(m2) by {
      forall t' | t' in m2.place ensures TableOk(m2, t') {
        if t' == n {
          AddTableNew(m, t, i, n, content);
        } else {
          AddTableOther(m, t, i, n, content, t');
        }
      }
    }
    assert Inv(m2) by {
      InvParts(m2);
    }
  }

  // ------------------------------------------------------------ invariant: dropping a table

  ghost predicate CanDrop(m: Machine, t: Addr, i: nat, n: Addr, e: Entry) {
    && AtEntry(m, t, i) && m.tables[t][i] == TableEntry(n) && !e.TableEntry?
    && n in m.tables && Leaves(m.tables[n]) && n in m.gs && n != t
    && m.place[t].rd in m.realms && MIN_LEVEL <= Level(m, t) < PAGE_LEVEL
    && ValidEntry(m.realms[m.place[t].rd].fmt, e, Level(m, t))
  }

  /** A table hangs below exactly one entry. */
  lemma OneParent(m: Machine, t: Addr, i: nat, t': Addr, j: nat, n: Addr)
    requires Inv(m) && t in m.place && t' in m.place && i < ENTRIES && j < ENTRIES
    requires EntryAt(m.tables, t, i) == EntryAt(m.tables, t', j) == TableEntry(n)
    ensures t == t' && i == j
  {
    EntryFacts(m, t, i);
    EntryFacts(m, t', j);
    var p := m.place[t].path;
    assert (p + [i])[|p|] == (p + [j])[|p|];
  }

  lemma DropTablePlace(m: Machine, t: Addr, i: nat, n: Addr, e: Entry, t': Addr)
    requires CanDrop(m, t, i, n, e) && t' in m.place && t' != n
    ensures t' in DropTable(m, t, i, n, e).place && PlaceOk(DropTable(m, t, i, n, e), t')
  {
    hide ValidEntry, NumRootRtts, Lsb, Count, CountsInv, RootsInv, Recount, GranuleOk, EntryOk;
    assert TableOk(m, t') && TableOk(m, n);
    var p := m.place[t'];
    if |p.path| > 1 {
      assert EntryAt(m.tables, p.parent, p.path[|p.path| - 1]) == TableEntry(t');
      assert p.parent != n;
    }
  }

  lemma DropTableOther(m: Machine, t: Addr, i: nat, n: Addr, e: Entry, t': Addr)
    requires CanDrop(m, t, i, n, e) && t' in m.place && t' != n
    ensures t' in DropTable(m, t, i, n, e).place && TableOk(DropTable(m, t, i, n, e), t')
  {
    var m2 := DropTable(m, t, i, n, e);
    DropTablePlace(m, t, i, n, e, t');
    assert TableOk(m, t') && TableOk(m, t);
    hide ValidEntry, NumRootRtts, Lsb, Count, CountsInv, RootsInv, Recount, GranuleOk;
    forall j: nat | j < ENTRIES ensures EntryOk(m2, t', j) {
      assert EntryOk(m, t', j);
      if EntryAt(m.tables, t', j) == TableEntry(n) {
        OneParent(m, t, i, t', j, n);
      }
    }
  }

  lemma DropTableCounts(m: Machine, t: Addr, i: nat, n: Addr, e: Entry)
    requires CanDrop(m, t, i, n, e)
    ensures CountsInv(DropTable(m, t, i, n, e))
  {
    var m2 := DropTable(m, t, i, n, e);
    assert GranuleOk(m, n) && GranuleOk(m, t);
    EntryFacts(m, t, i);
    CountUpdate(m.tables[t], i, e);
    hide ValidEntry, Geometry, Count, TableOk, GranuleOk;
    forall t' | t' in m2.place ensures RefcountOk(m2, t') {
      assert RefcountOk(m, t');
    }
  }

  lemma DropTableRoots(m: Machine, t: Addr, i: nat, n: Addr, e: Entry)
    requires CanDrop(m, t, i, n, e)
    ensures RootsInv(DropTable(m, t, i, n, e))
  {
    var m2 := DropTable(m, t, i, n, e);
    assert GranuleOk(m, n) && GranuleOk(m, t);
    EntryFacts(m, t, i);
    hide ValidEntry, Geometry, Count, TableOk, GranuleOk, CountsInv, Recount;
    forall rd | rd in m2.realms ensures RootsOk(m2, rd) {
      assert RootsOk(m, rd);
    }
  }

  lemma DropTableGranules(m: Machine, t: Addr, i: nat, n: Addr, e: Entry)
    requires CanDrop(m, t, i, n, e)
    ensures GranulesInv(DropTable(m, t, i, n, e))
  {
    var m2 := DropTable(m, t, i, n, e);
    assert GranuleOk(m, n) && GranuleOk(m, t);
    EntryFacts(m, t, i);
    hide ValidEntry, Geometry, Count, TableOk, Aligned, CountsInv, RootsInv, Recount;
    forall a | a in m2.gs ensures GranuleOk(m2, a) {
      assert GranuleOk(m, a);
    }
  }

  lemma DropTableInv(m: Machine, t: Addr, i: nat, n: Addr, e: Entry)
    requires CanDrop(m, t, i, n, e)
    ensures Inv(DropTable(m, t, i, n, e))
  {
    var m2 := DropTable(m, t, i, n, e);
    DropTableCounts(m, t, i, n, e);
    DropTableRoots(m, t, i, n, e);
    DropTableGranules(m, t, i, n, e);
    hide Inv, TableOk, CountsInv, RootsInv, GranulesInv;
    assert TablesInv(m2) by {
      forall t' | t' in m2.place ensures TableOk(m2, t') {
        DropTableOther(m, t, i, n, e, t');
      }
    }
    assert Inv(m2) by {
      InvParts(m2);
    }
  }
}
