/** Realm translation tables of all realms: the state that the RMI commands change,
    the walk, the flat map it defines and the invariant of every reachable state. */
module Rtt {
  import opened S2Geometry
  import opened S2tte
  import opened RealmGeometry

  datatype GranuleState = NsState | Delegated | RdState | RecState | RecAux | DataState | RttState

  /** `zero`: the granule contains only zeroes. */
  datatype Granule = Granule(state: GranuleState, refcount: nat, zero: bool)

  datatype RealmState = New | Active | SystemOff

  datatype Realm = Realm(fmt: Format, ipaBits: nat, start: int, roots: seq<Addr>, state: RealmState)

  /** A RIPAS change that a realm asked for; none is pending when `base == top`. */
  datatype RipasRequest = RipasRequest(base: Addr, top: Addr, addr: Addr, ripas: Ripas, changeDestroyed: bool)

  datatype Rec = Rec(rd: Addr, aux: seq<Addr>, request: RipasRequest)

  /** Where a table hangs: in realm `rd`, below entry `path[|path| - 1]` of table `parent`;
      `path[0]` numbers the concatenated root table and the rest are entry indices. */
  datatype Place = Place(rd: Addr, path: seq<nat>, parent: Addr)

  /** The address of a realm that a DATA granule is mapped at. */
  datatype Owner = Owner(rd: Addr, ipa: Addr)

  /** `place` and `owner` are auxiliary: no command reads them. */
  datatype Machine = Machine(
    gs: map<Addr, Granule>,
    tables: map<Addr, seq<Entry>>,
    realms: map<Addr, Realm>,
    recs: map<Addr, Rec>,
    place: map<Addr, Place>,
    owner: map<Addr, Owner>)

  type Tables = map<Addr, seq<Entry>>

  // ------------------------------------------------------------ the walk

  datatype WalkResult = WalkResult(table: Addr, idx: nat, level: int)

  function EntryAt(ts: Tables, t: Addr, i: nat): Entry {
    if t in ts && i < |ts[t]| then ts[t][i] else UnassignedEntry(Empty)
  }

  /** From table `t` of `level`, follow `ipa` to a leaf or to level `target`. */
  function Walk(ts: Tables, t: Addr, level: int, target: int, ipa: Addr): WalkResult
    requires MIN_LEVEL <= level <= target <= PAGE_LEVEL
    decreases target - level
  {
    var i := Idx(ipa, level);
    var e := EntryAt(ts, t, i);
    if level == target || !e.TableEntry? then WalkResult(t, i, level)
    else Walk(ts, e.pa, level + 1, target, ipa)
  }

  predicate ValidRealm(r: Realm) { Geometry(r.ipaBits, r.start, |r.roots|) }

  predicate InIpa(r: Realm, ipa: Addr) { ipa < IpaSize(r.ipaBits) }

  predicate InPar(r: Realm, ipa: Addr) { ipa < ParSize(r.ipaBits) }

  function RootFor(r: Realm, ipa: Addr): Addr
    requires ValidRealm(r) && InIpa(r, ipa)
  {
    RootInBounds(r.ipaBits, r.start, |r.roots|, ipa);
    r.roots[RootIdx(ipa, r.start)]
  }

  function RealmWalk(ts: Tables, r: Realm, target: int, ipa: Addr): WalkResult
    requires ValidRealm(r) && InIpa(r, ipa) && r.start <= target <= PAGE_LEVEL
  {
    Walk(ts, RootFor(r, ipa), r.start, target, ipa)
  }

  /** The flat map: what address `ipa` of the realm maps to. */
  function Flat(ts: Tables, r: Realm, ipa: Addr): Page
    requires ValidRealm(r) && InIpa(r, ipa)
  {
    var w := RealmWalk(ts, r, PAGE_LEVEL, ipa);
    WalkLevel(ts, RootFor(r, ipa), r.start, PAGE_LEVEL, ipa);
    PageOf(EntryAt(ts, w.table, w.idx), w.level, ipa)
  }

  lemma {:induction false} WalkLevel(ts: Tables, t: Addr, level: int, target: int, ipa: Addr)
    requires MIN_LEVEL <= level <= target <= PAGE_LEVEL
    ensures var w := Walk(ts, t, level, target, ipa);
            && level <= w.level <= target && w.idx == Idx(ipa, w.level)
            && (w.level < target ==> !EntryAt(ts, w.table, w.idx).TableEntry?)
    decreases target - level
  {
    var e := EntryAt(ts, t, Idx(ipa, level));
    if level < target && e.TableEntry? {
      WalkLevel(ts, e.pa, level + 1, target, ipa);
    }
  }

  // ------------------------------------------------------------ the invariant

  function Count(es: seq<Entry>): nat {
    if es == [] then 0 else (if es[|es| - 1].Counted() then 1 else 0) + Count(es[..|es| - 1])
  }

  /** The path of the table of `level` that maps `ipa`. */
  function Route(r: Realm, ipa: Addr, level: int): (p: seq<nat>)
    requires MIN_LEVEL <= r.start <= level <= PAGE_LEVEL
    ensures |p| == 1 + level - r.start
    decreases level
  {
    if level == r.start then [RootIdx(ipa, r.start)]
    else Route(r, ipa, level - 1) + [Idx(ipa, level - 1)]
  }

  function Level(m: Machine, t: Addr): int
    requires t in m.place && m.place[t].rd in m.realms
  {
    m.realms[m.place[t].rd].start + |m.place[t].path| - 1
  }

  /** A table entry at `(t, i)` names `child`, which records that place. */
  predicate ChildOk(m: Machine, t: Addr, i: nat, child: Addr)
    requires t in m.place
  {
    child in m.place && m.place[child] == Place(m.place[t].rd, m.place[t].path + [i], t)
  }

  predicate EntryOk(m: Machine, t: Addr, i: nat)
    requires t in m.place && m.place[t].rd in m.realms && MIN_LEVEL <= Level(m, t) <= PAGE_LEVEL
  {
    var e := EntryAt(m.tables, t, i);
    && ValidEntry(m.realms[m.place[t].rd].fmt, e, Level(m, t))
    && (e.TableEntry? ==> ChildOk(m, t, i, e.pa))
  }

  /** A root table is one its realm lists; any other hangs below its parent. */
  predicate PlaceOk(m: Machine, t: Addr)
    requires t in m.place
  {
    var p := m.place[t];
    && p.rd in m.realms
    && ValidRealm(m.realms[p.rd])
    && |p.path| >= 1
    && Level(m, t) <= PAGE_LEVEL
    && (if |p.path| == 1 then
          p.path[0] < |m.realms[p.rd].roots| && m.realms[p.rd].roots[p.path[0]] == t
        else
          && p.parent in m.place
          && m.place[p.parent].rd == p.rd
          && m.place[p.parent].path == p.path[..|p.path| - 1]
          && EntryAt(m.tables, p.parent, p.path[|p.path| - 1]) == TableEntry(t))
  }

  predicate TableOk(m: Machine, t: Addr)
    requires t in m.place
  {
    && PlaceOk(m, t)
    && t in m.tables && |m.tables[t]| == ENTRIES
    && (forall i: nat | i < ENTRIES :: EntryOk(m, t, i))
  }

  predicate RefcountOk(m: Machine, t: Addr) {
    t in m.gs && t in m.tables && m.gs[t].refcount == Count(m.tables[t])
  }

  predicate RootsOk(m: Machine, rd: Addr)
    requires rd in m.realms
  {
    var r := m.realms[rd];
    && ValidRealm(r)
    && (forall k: nat | k < |r.roots| :: r.roots[k] in m.place && m.place[r.roots[k]] == Place(rd, [k], rd))
  }

  /** A granule is a table, an RD or a REC exactly when the state says so; RTT granules
      are counted, DELEGATED ones unreferenced and zero. */
  predicate GranuleOk(m: Machine, a: Addr)
    requires a in m.gs
  {
    var g := m.gs[a];
    && Aligned(a, PAGE_LEVEL) && a < MAX_ADDR
    && (g.state.RttState? <==> a in m.place)
    && (g.state.RdState? <==> a in m.realms)
    && (g.state.RecState? <==> a in m.recs)
    && (g.state.Delegated? ==> g.zero)
    && (g.state.RttState? || g.state.RdState? || g.refcount == 0)
  }

  ghost predicate TablesInv(m: Machine) {
    forall t {:trigger TableOk(m, t)} | t in m.place :: TableOk(m, t)
  }

  ghost predicate CountsInv(m: Machine) {
    forall t {:trigger RefcountOk(m, t)} | t in m.place :: RefcountOk(m, t)
  }

  ghost predicate RootsInv(m: Machine) {
    forall rd {:trigger RootsOk(m, rd)} | rd in m.realms :: RootsOk(m, rd)
  }

  ghost predicate GranulesInv(m: Machine) {
    && m.tables.Keys == m.place.Keys <= m.gs.Keys
    && m.realms.Keys <= m.gs.Keys && m.recs.Keys <= m.gs.Keys
    && (forall a {:trigger GranuleOk(m, a)} | a in m.gs :: GranuleOk(m, a))
    && (forall a {:trigger m.recs[a]} | a in m.recs :: m.recs[a].rd in m.realms)
  }

  ghost predicate Inv(m: Machine) {
    TablesInv(m) && CountsInv(m) && RootsInv(m) && GranulesInv(m)
  }

  // ------------------------------------------------------------ counting

  lemma {:induction false} CountUpdate(es: seq<Entry>, i: nat, e: Entry)
    requires i < |es|
    ensures Count(es[i := e]) == Count(es) - (if es[i].Counted() then 1 else 0) + (if e.Counted() then 1 else 0)
  {
    var n := |es| - 1;
    if i == n {
      assert es[i := e][..n] == es[..n];
    } else {
      CountUpdate(es[..n], i, e);
      assert es[i := e][..n] == es[..n][i := e];
    }
  }

  lemma {:induction false} CountBounds(es: seq<Entry>)
    ensures Count(es) <= |es|
    ensures Count(es) == 0 <==> forall i | 0 <= i < |es| :: !es[i].Counted()
    ensures Count(es) == |es| <==> forall i | 0 <= i < |es| :: es[i].Counted()
  {
    if es != [] {
      var n := |es| - 1;
      CountBounds(es[..n]);
      if Count(es) == 0 {
        forall i | 0 <= i < |es| ensures !es[i].Counted() {
          if i < n { assert es[..n][i] == es[i]; }
        }
      }
      if Count(es) == |es| {
        forall i | 0 <= i < |es| ensures es[i].Counted() {
          if i < n { assert es[..n][i] == es[i]; }
        }
      }
      if forall i | 0 <= i < |es| :: !es[i].Counted() {
        forall i | 0 <= i < n ensures !es[..n][i].Counted() {
          assert es[..n][i] == es[i];
        }
      }
      if forall i | 0 <= i < |es| :: es[i].Counted() {
        forall i | 0 <= i < n ensures es[..n][i].Counted() {
          assert es[..n][i] == es[i];
        }
      }
    }
  }

  // ------------------------------------------------------------ walking a good state

  /** Entry `i` of table `t` is well formed, and the table it may name is one level down. */
  lemma EntryFacts(m: Machine, t: Addr, i: nat)
    requires Inv(m) && t in m.place && i < ENTRIES
    ensures TableOk(m, t) && m.place[t].rd in m.realms && ValidRealm(m.realms[m.place[t].rd])
    ensures t in m.tables && t in m.gs && m.gs[t].state.RttState? && m.gs[t].refcount == Count(m.tables[t])
    ensures |m.place[t].path| >= 1 && MIN_LEVEL <= m.realms[m.place[t].rd].start <= Level(m, t) <= PAGE_LEVEL
    ensures |m.tables[t]| == ENTRIES && EntryAt(m.tables, t, i) == m.tables[t][i]
    ensures ValidEntry(m.realms[m.place[t].rd].fmt, m.tables[t][i], Level(m, t))
    ensures var e := m.tables[t][i]; e.TableEntry? ==>
              && ChildOk(m, t, i, e.pa) && TableOk(m, e.pa)
              && Level(m, e.pa) == Level(m, t) + 1 <= PAGE_LEVEL
              && e.pa in m.gs && m.gs[e.pa].state.RttState? && e.pa != t
  {
    hide NumRootRtts, Lsb, ValidEntry, Count;
    assert TableOk(m, t) && RefcountOk(m, t) && GranuleOk(m, t);
    assert EntryOk(m, t, i);
    var e := m.tables[t][i];
    if e.TableEntry? {
      assert TableOk(m, e.pa) && GranuleOk(m, e.pa);
    }
  }

  /** A walk stays in the realm, on the route of the address. */
  lemma {:induction false} WalkPlace(m: Machine, rd: Addr, t: Addr, target: int, ipa: Addr)
    requires Inv(m) && t in m.place && m.place[t].rd == rd && rd in m.realms
    requires |m.place[t].path| >= 1 && MIN_LEVEL <= m.realms[rd].start && Level(m, t) <= target <= PAGE_LEVEL
    requires m.place[t].path == Route(m.realms[rd], ipa, Level(m, t))
    ensures var w := Walk(m.tables, t, Level(m, t), target, ipa);
            && w.table in m.place && m.place[w.table].rd == rd && Level(m, w.table) == w.level
            && Level(m, t) <= w.level <= target && w.idx == Idx(ipa, w.level)
            && m.place[w.table].path == Route(m.realms[rd], ipa, w.level)
            && (w.level < target ==> !EntryAt(m.tables, w.table, w.idx).TableEntry?)
    decreases target - Level(m, t)
  {
    hide Idx, TableOk, Inv, Geometry, ValidEntry, Count, RootIdx;
    var level := Level(m, t);
    var i := Idx(ipa, level);
    EntryFacts(m, t, i);
    var e := m.tables[t][i];
    if level < target && e.TableEntry? {
      WalkPlace(m, rd, e.pa, target, ipa);
    }
  }

  lemma RealmWalkPlace(m: Machine, rd: Addr, target: int, ipa: Addr)
    requires Inv(m) && rd in m.realms && InIpa(m.realms[rd], ipa)
    requires ValidRealm(m.realms[rd]) && m.realms[rd].start <= target <= PAGE_LEVEL
    ensures var w := RealmWalk(m.tables, m.realms[rd], target, ipa);
            && w.table in m.place && m.place[w.table].rd == rd && Level(m, w.table) == w.level
            && m.realms[rd].start <= w.level <= target && w.idx == Idx(ipa, w.level)
            && m.place[w.table].path == Route(m.realms[rd], ipa, w.level)
            && (w.level < target ==> !EntryAt(m.tables, w.table, w.idx).TableEntry?)
  {
    var r := m.realms[rd];
    assert RootsOk(m, rd);
    var root := RootFor(r, ipa);
    RootInBounds(r.ipaBits, r.start, |r.roots|, ipa);
    hide Idx, TableOk;
    assert m.place[root] == Place(rd, [RootIdx(ipa, r.start)], rd);
    WalkPlace(m, rd, root, target, ipa);
  }

  /** Two addresses have the same route to `level` exactly when one entry of
      `level - 1` maps both. */
  lemma {:induction false} SameRoute(r: Realm, a: Addr, b: Addr, level: int)
    requires MIN_LEVEL <= r.start <= level <= PAGE_LEVEL && a < MAX_ADDR && b < MAX_ADDR
    ensures Route(r, a, level) == Route(r, b, level) <==> SameEntry(a, b, level - 1)
    decreases level
  {
    if level > r.start {
      SameRoute(r, a, b, level - 1);
      EntryInTable(a, b, level - 1);
      var ra, rb := Route(r, a, level - 1), Route(r, b, level - 1);
      assert Route(r, a, level) == ra + [Idx(a, level - 1)];
      assert Route(r, b, level) == rb + [Idx(b, level - 1)];
      if Route(r, a, level) == Route(r, b, level) {
        assert (ra + [Idx(a, level - 1)])[..|ra|] == ra && (rb + [Idx(b, level - 1)])[..|rb|] == rb;
        assert (ra + [Idx(a, level - 1)])[|ra|] == (rb + [Idx(b, level - 1)])[|rb|];
      }
    }
  }
}
