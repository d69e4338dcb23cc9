/** Granules, realms and RECs come and go: GRANULE_DELEGATE and UNDELEGATE, REALM_CREATE,
    ACTIVATE and DESTROY, REC_CREATE and REC_DESTROY. */
module RealmCommands {
  import opened S2Geometry
  import opened S2tte
  import opened RealmGeometry
  import opened Rtt
  import opened RttSteps
  import opened RttFlat
  import opened RttInvariants
  import opened RttCommands
  import opened RipasCommands

  /** A step on granules that are no tables, and on RECs. */
  lemma OtherGranules(m: Machine, m2: Machine)
    requires FullInv(m) && m2 == m.(gs := m2.gs, recs := m2.recs)
    requires forall t | t in m.place :: t in m2.gs && m2.gs[t] == m.gs[t]
    requires forall a | a in m.gs && m.gs[a].state.DataState? :: a in m2.gs && m2.gs[a].state.DataState?
    requires forall a | a in m2.gs && m2.gs[a].state.DataState? :: a in m.gs && m.gs[a].state.DataState?
    requires GranulesInv(m2)
    ensures FullInv(m2)
  {
    assert Inv(m2) by {
      StateChangeTables(m, m2);
      hide TableOk, RootsOk, GranuleOk;
      forall t | t in m2.place ensures RefcountOk(m2, t) { assert RefcountOk(m, t); }
    }
    hide Inv, Flat, FlatInv, GranuleOk;
    assert FlatInv(m2) by { CompatibleInv(m, m2); }
  }

  // ------------------------------------------------------------ delegation

  /** `el3Ok`: EL3 agreed to change the physical address space of the granule. */
  function GranuleDelegate(m: Machine, a: Addr, el3Ok: bool): Reply {
    if !Is(m, a, NsState) || !el3Ok then Fail(m, ErrorInput)
    else Reply(m.(gs := m.gs[a := m.gs[a].(state := Delegated, zero := true)]), Success, 0, 0)
  }

  /** The host may write to the granule from now on. */
  function GranuleUndelegate(m: Machine, a: Addr): Reply {
    if !Is(m, a, Delegated) then Fail(m, ErrorInput)
    else Reply(m.(gs := m.gs[a := m.gs[a].(state := NsState, zero := false)]), Success, 0, 0)
  }

  lemma DelegateInv(m: Machine, a: Addr, el3Ok: bool)
    requires FullInv(m)
    ensures FullInv(GranuleDelegate(m, a, el3Ok).m) && FullInv(GranuleUndelegate(m, a).m)
  {
    hide FullInv;
    if Is(m, a, NsState) { Redelegate(m, a, Granule(Delegated, 0, true)); }
    if Is(m, a, Delegated) { Redelegate(m, a, Granule(NsState, 0, false)); }
  }

  lemma Redelegate(m: Machine, a: Addr, g: Granule)
    requires FullInv(m) && (Is(m, a, NsState) || Is(m, a, Delegated))
    requires g == Granule(NsState, 0, false) || g == Granule(Delegated, 0, true)
    ensures m.gs[a].refcount == 0 && FullInv(m.(gs := m.gs[a := g]))
  {
    assert GranuleOk(m, a);
    var m2 := m.(gs := m.gs[a := g]);
    forall x | x in m.gs ensures GranuleOk(m2, x) { assert GranuleOk(m, x); }
    hide Flat, FlatInv, TablesInv, CountsInv, RootsInv, GranuleOk;
    OtherGranules(m, m2);
  }

  // ------------------------------------------------------------ REALM_CREATE

  /** The parameters of a realm; `otherOk` stands for the checks on debug, SVE, PMU, hash
      algorithm and VMID, which have no bearing on the tables. */
  datatype RealmParams = RealmParams(fmt: Format, ipaBits: nat, start: int, rttBase: Addr, numStart: nat, otherOk: bool)

  predicate ValidParams(p: RealmParams, paWidth: nat) {
    && p.otherOk && ValidateIpaBitsAndSl(p.ipaBits, p.start, p.fmt.lpa2, paWidth)
    && NumRootRtts(p.ipaBits, p.start) == p.numStart
  }

  function RootAddr(p: RealmParams, k: nat): Addr { p.rttBase + k * PAGE }

  predicate IsRoot(p: RealmParams, a: Addr) {
    p.rttBase <= a && (a - p.rttBase) % PAGE == 0 && (a - p.rttBase) / PAGE < p.numStart
  }

  function RootNumber(p: RealmParams, a: Addr): nat
    requires IsRoot(p, a)
  {
    (a - p.rttBase) / PAGE
  }

  lemma RootAddrs(p: RealmParams, k: nat)
    ensures k < p.numStart ==> IsRoot(p, RootAddr(p, k)) && RootNumber(p, RootAddr(p, k)) == k
  {}

  lemma RootIsAddr(p: RealmParams, a: Addr)
    requires IsRoot(p, a)
    ensures RootAddr(p, RootNumber(p, a)) == a
  {}

  /** Entry `i` of root table `k`: RAM that is not there yet inside the PAR, unmapped
      non-secure memory up to the end of the IPA space, and zero beyond it. */
  function InitialEntry(ipaBits: nat, start: int, k: nat, i: nat): Entry
    requires MIN_LEVEL <= start <= PAGE_LEVEL
  {
    var ipa := (k * ENTRIES + i) * Span(start);
    if ParSize(ipaBits) <= ipa < IpaSize(ipaBits) then UnassignedNsEntry else UnassignedEntry(Empty)
  }

  function InitialTable(ipaBits: nat, start: int, k: nat): (es: seq<Entry>)
    requires MIN_LEVEL <= start <= PAGE_LEVEL
    ensures |es| == ENTRIES
  {
    seq(ENTRIES, i requires 0 <= i < ENTRIES => InitialEntry(ipaBits, start, k, i))
  }

  function NewRealm(p: RealmParams): (r: Realm)
    ensures |r.roots| == p.numStart
  {
    Realm(p.fmt, p.ipaBits, p.start, seq(p.numStart, k requires 0 <= k < p.numStart => RootAddr(p, k)), New)
  }

  function AddRealm(m: Machine, rd: Addr, p: RealmParams): Machine
    requires MIN_LEVEL <= p.start <= PAGE_LEVEL
  {
    Machine(
      map a | a in m.gs :: if a == rd then Granule(RdState, 0, false)
                           else if IsRoot(p, a) then Granule(RttState, 0, false) else m.gs[a],
      map t | t in m.gs && (t in m.tables || IsRoot(p, t)) ::
        if IsRoot(p, t) then InitialTable(p.ipaBits, p.start, RootNumber(p, t)) else m.tables[t],
      m.realms[rd := NewRealm(p)],
      m.recs,
      map t | t in m.gs && (t in m.place || IsRoot(p, t)) ::
        if IsRoot(p, t) then Place(rd, [RootNumber(p, t)], rd) else m.place[t],
      m.owner)
  }

  ghost function RealmCreate(m: Machine, rd: Addr, p: RealmParams, paWidth: nat): Reply {
    if || !ValidParams(p, paWidth)
       || p.rttBase <= rd < p.rttBase + p.numStart * PAGE
       || !Is(m, rd, Delegated) || !(forall k: nat | k < p.numStart :: Is(m, RootAddr(p, k), Delegated))
    then Fail(m, ErrorInput)
    else Reply(AddRealm(m, rd, p), Success, 0, 0)
  }

  ghost predicate CanAddRealm(m: Machine, rd: Addr, p: RealmParams, paWidth: nat) {
    FullInv(m) && RealmCreate(m, rd, p, paWidth).status.Success?
  }

  /** The new granules were in no use, and the realm is well formed. */
  lemma FreshRealm(m: Machine, rd: Addr, p: RealmParams, paWidth: nat, a: Addr)
    requires CanAddRealm(m, rd, p, paWidth)
    ensures ValidRealm(NewRealm(p)) && !IsRoot(p, rd) && MIN_LEVEL <= p.start <= PAGE_LEVEL
    ensures Is(m, rd, Delegated) && rd !in m.place && rd !in m.realms && rd !in m.recs
    ensures IsRoot(p, a) ==> Is(m, a, Delegated) && a !in m.place && a !in m.realms && a !in m.recs
    ensures RealmCreate(m, rd, p, paWidth).m == AddRealm(m, rd, p)
  {
    AcceptedGeometry(p.ipaBits, p.start, p.fmt.lpa2, paWidth);
    assert GranuleOk(m, rd);
    if IsRoot(p, rd) {
      RootIsAddr(p, rd);
      MulLe(RootNumber(p, rd) + 1, p.numStart, PAGE);
      assert false;
    }
    if IsRoot(p, a) {
      RootIsAddr(p, a);
      assert GranuleOk(m, a);
    }
  }

  lemma {:induction false} CountNone(es: seq<Entry>)
    requires forall i | 0 <= i < |es| :: !es[i].Counted()
    ensures Count(es) == 0
  {
    CountBounds(es);
  }

  lemma AddRealmTable(m: Machine, rd: Addr, p: RealmParams, paWidth: nat, t: Addr)
    requires CanAddRealm(m, rd, p, paWidth) && MIN_LEVEL <= p.start <= PAGE_LEVEL && t in AddRealm(m, rd, p).place
    ensures TableOk(AddRealm(m, rd, p), t) && RefcountOk(AddRealm(m, rd, p), t)
  {
    var m2 := AddRealm(m, rd, p);
    FreshRealm(m, rd, p, paWidth, t);
    if IsRoot(p, t) {
      RootIsAddr(p, t);
      hide Inv, FlatInv, RealmCreate, NumRootRtts, Lsb, IsRoot, ParSize, IpaSize, Span;
      CountNone(InitialTable(p.ipaBits, p.start, RootNumber(p, t)));
      assert PlaceOk(m2, t);
    } else {
      AddRealmOld(m, rd, p, paWidth, t);
    }
  }

  lemma AddRealmOld(m: Machine, rd: Addr, p: RealmParams, paWidth: nat, t: Addr)
    requires CanAddRealm(m, rd, p, paWidth) && MIN_LEVEL <= p.start <= PAGE_LEVEL && t in m.place
    ensures t in AddRealm(m, rd, p).place && TableOk(AddRealm(m, rd, p), t) && RefcountOk(AddRealm(m, rd, p), t)
  {
    var m2 := AddRealm(m, rd, p);
    FreshRealm(m, rd, p, paWidth, t);
    assert TableOk(m, t) && RefcountOk(m, t) && GranuleOk(m, t);
    hide FlatInv, RealmCreate, NumRootRtts, Lsb, IsRoot, ValidEntry, InitialTable, Count, CountsInv, RootsInv;
    AddRealmPlace(m, rd, p, paWidth, t);
    forall i: nat | i < ENTRIES ensures EntryOk(m2, t, i) {
      assert EntryOk(m, t, i);
      var e := EntryAt(m.tables, t, i);
      if e.TableEntry? { AddRealmKeeps(m, rd, p, paWidth, e.pa); }
    }
  }

  /** What was a table stays the same table. */
  lemma AddRealmKeeps(m: Machine, rd: Addr, p: RealmParams, paWidth: nat, t: Addr)
    requires CanAddRealm(m, rd, p, paWidth) && MIN_LEVEL <= p.start <= PAGE_LEVEL && t in m.place
    ensures var m2 := AddRealm(m, rd, p);
            && t in m2.place && m2.place[t] == m.place[t] && t in m.tables && t in m2.tables
            && m2.tables[t] == m.tables[t]
            && m.place[t].rd in m.realms && m.place[t].rd != rd && !IsRoot(p, t) && t != rd
  {
    FreshRealm(m, rd, p, paWidth, t);
    assert TableOk(m, t) && GranuleOk(m, t);
  }

  lemma AddRealmPlace(m: Machine, rd: Addr, p: RealmParams, paWidth: nat, t: Addr)
    requires CanAddRealm(m, rd, p, paWidth) && MIN_LEVEL <= p.start <= PAGE_LEVEL && t in m.place
    ensures t in AddRealm(m, rd, p).place && PlaceOk(AddRealm(m, rd, p), t)
  {
    AddRealmKeeps(m, rd, p, paWidth, t);
    assert TableOk(m, t);
    var q := m.place[t];
    hide Inv, FlatInv, RealmCreate, Geometry, IsRoot, EntryOk, InitialTable;
    if |q.path| > 1 { AddRealmKeeps(m, rd, p, paWidth, q.parent); }
  }

  lemma AddRealmRoots(m: Machine, rd: Addr, p: RealmParams, paWidth: nat, x: Addr)
    requires CanAddRealm(m, rd, p, paWidth) && MIN_LEVEL <= p.start <= PAGE_LEVEL && x in AddRealm(m, rd, p).realms
    ensures RootsOk(AddRealm(m, rd, p), x)
  {
    var m2 := AddRealm(m, rd, p);
    FreshRealm(m, rd, p, paWidth, x);
    if x == rd {
      forall k: nat | k < p.numStart
        ensures RootAddr(p, k) in m2.place && m2.place[RootAddr(p, k)] == Place(rd, [k], rd)
      {
        RootAddrs(p, k);
        FreshRealm(m, rd, p, paWidth, RootAddr(p, k));
      }
    } else {
      var r := m.realms[x];
      assert RootsOk(m, x);
      forall k: nat | k < |r.roots| ensures r.roots[k] in m2.place && m2.place[r.roots[k]] == Place(x, [k], x) {
        AddRealmKeeps(m, rd, p, paWidth, r.roots[k]);
      }
    }
  }

  lemma AddRealmGranules(m: Machine, rd: Addr, p: RealmParams, paWidth: nat)
    requires CanAddRealm(m, rd, p, paWidth) && MIN_LEVEL <= p.start <= PAGE_LEVEL
    ensures GranulesInv(AddRealm(m, rd, p))
  {
    var m2 := AddRealm(m, rd, p);
    forall a | a in m2.gs ensures GranuleOk(m2, a) {
      FreshRealm(m, rd, p, paWidth, a);
      assert GranuleOk(m, a);
    }
    FreshRealm(m, rd, p, paWidth, rd);
    hide GranuleOk, RealmCreate, FlatInv, TablesInv, CountsInv, RootsInv, IsRoot, InitialTable, ValidRealm;
    assert m2.tables.Keys == m2.place.Keys;
  }

  lemma AddRealmInv(m: Machine, rd: Addr, p: RealmParams, paWidth: nat)
    requires CanAddRealm(m, rd, p, paWidth) && MIN_LEVEL <= p.start <= PAGE_LEVEL
    ensures Inv(AddRealm(m, rd, p))
  {
    var m2 := AddRealm(m, rd, p);
    hide CanAddRealm, TableOk, RefcountOk, RootsOk, GranuleOk, GranulesInv, AddRealm;
    AddRealmGranules(m, rd, p, paWidth);
    forall t | t in m2.place ensures TableOk(m2, t) && RefcountOk(m2, t) { AddRealmTable(m, rd, p, paWidth, t); }
    forall x | x in m2.realms ensures RootsOk(m2, x) { AddRealmRoots(m, rd, p, paWidth, x); }
  }

  /** Walks of the realms that were there see the same tables. */
  lemma {:induction false} WalkKept(m: Machine, ts: Tables, t: Addr, target: int, ipa: Addr)
    requires Inv(m) && t in m.place && m.place[t].rd in m.realms && MIN_LEVEL <= Level(m, t) <= target <= PAGE_LEVEL
    requires forall x | x in m.place && m.place[x].rd == m.place[t].rd :: EntryListKept(m, ts, x)
    ensures Walk(ts, t, Level(m, t), target, ipa) == Walk(m.tables, t, Level(m, t), target, ipa)
    ensures var w := Walk(m.tables, t, Level(m, t), target, ipa);
            EntryAt(ts, w.table, w.idx) == EntryAt(m.tables, w.table, w.idx)
    decreases target - Level(m, t)
  {
    var i := Idx(ipa, Level(m, t));
    EntryFacts(m, t, i);
    hide Inv, TableOk, Geometry, Idx, ValidEntry, Count;
    assert EntryListKept(m, ts, t);
    var e := m.tables[t][i];
    if Level(m, t) < target && e.TableEntry? {
      WalkKept(m, ts, e.pa, target, ipa);
    }
  }

  predicate EntryListKept(m: Machine, ts: Tables, x: Addr) {
    x in m.tables && x in ts && ts[x] == m.tables[x]
  }

  lemma FlatKept(m: Machine, ts: Tables, rd: Addr, ipa: Addr)
    requires Inv(m) && Mapped(m, rd, ipa)
    requires forall x | x in m.place && m.place[x].rd == rd :: EntryListKept(m, ts, x)
    ensures Flat(ts, m.realms[rd], ipa) == PageAt(m, rd, ipa)
  {
    var r := m.realms[rd];
    RootPlace(m, rd, ipa);
    hide Inv, Walk, Geometry;
    WalkKept(m, ts, RootFor(r, ipa), PAGE_LEVEL, ipa);
  }

  /** The entry of the root tables for an address. */
  lemma InitialIndex(ipa: Addr, ipaBits: nat, start: int, n: nat)
    requires Geometry(ipaBits, start, n) && ipa < IpaSize(ipaBits)
    ensures RootIdx(ipa, start) * ENTRIES + Idx(ipa, start) == ipa / Span(start)
  {
    RootInBounds(ipaBits, start, n, ipa);
    SpanStep(start);
    DivMod(ipa, Span(start), ENTRIES);
    if start == MIN_LEVEL {
      TopIndex(ipa);
      DivUnique(ipa / Span(start), ENTRIES, 0, ipa / Span(start));
    }
  }

  lemma InitialPage(ipa: Addr, ipaBits: nat, start: int, n: nat)
    requires Geometry(ipaBits, start, n) && ipa < IpaSize(ipaBits)
    ensures InitialEntry(ipaBits, start, RootIdx(ipa, start), Idx(ipa, start))
            == if ipa < ParSize(ipaBits) then UnassignedEntry(Empty) else UnassignedNsEntry
  {
    InitialIndex(ipa, ipaBits, start, n);
    var s := Span(start);
    var base := ipa / s * s;
    DivUnique(base, s, ipa / s, 0);
    hide Span, Idx, RootIdx, IpaSize, ParSize;
    ParOnBoundary(ipaBits, start, n, base, ipa, start);
  }

  /** A new realm: every protected address is unassigned and EMPTY, every other address
      unmapped; no other realm changes. */
  lemma RealmCreateFlat(m: Machine, rd: Addr, p: RealmParams, paWidth: nat, rd': Addr, b: Addr)
    requires CanAddRealm(m, rd, p, paWidth) && Mapped(RealmCreate(m, rd, p, paWidth).m, rd', b)
    ensures var m2 := RealmCreate(m, rd, p, paWidth).m;
            && (rd' != rd ==> Mapped(m, rd', b) && PageAt(m2, rd', b) == PageAt(m, rd', b))
            && (rd' == rd ==> PageAt(m2, rd', b) == if b < ParSize(p.ipaBits) then Unassigned(Empty) else UnassignedNs)
  {
    var m2 := AddRealm(m, rd, p);
    FreshRealm(m, rd, p, paWidth, rd);
    if rd' == rd {
      NewRealmPage(m, rd, p, paWidth, b);
    } else {
      hide Flat, Inv, FlatInv, RealmCreate, IsRoot, InitialTable, Geometry;
      forall x | x in m.place && m.place[x].rd == rd' ensures EntryListKept(m, m2.tables, x) {
        AddRealmKeeps(m, rd, p, paWidth, x);
      }
      FlatKept(m, m2.tables, rd', b);
    }
  }

  lemma NewRealmPage(m: Machine, rd: Addr, p: RealmParams, paWidth: nat, b: Addr)
    requires CanAddRealm(m, rd, p, paWidth) && ValidRealm(NewRealm(p)) && InIpa(NewRealm(p), b)
    ensures Flat(AddRealm(m, rd, p).tables, NewRealm(p), b) == if b < ParSize(p.ipaBits) then Unassigned(Empty)
            else UnassignedNs
  {
    var k := RootIdx(b, p.start);
    RootInBounds(p.ipaBits, p.start, p.numStart, b);
    RootAddrs(p, k);
    FreshRealm(m, rd, p, paWidth, RootAddr(p, k));
    hide Inv, FlatInv, RealmCreate, IsRoot, Geometry, InitialEntry, Idx, RootIdx, Span;
    assert RootFor(NewRealm(p), b) == RootAddr(p, k);
    InitialPage(b, p.ipaBits, p.start, p.numStart);
  }

  lemma RealmCreateInv(m: Machine, rd: Addr, p: RealmParams, paWidth: nat)
    requires FullInv(m)
    ensures FullInv(RealmCreate(m, rd, p, paWidth).m)
  {
    var m2 := RealmCreate(m, rd, p, paWidth).m;
    if RealmCreate(m, rd, p, paWidth).status.Success? {
      FreshRealm(m, rd, p, paWidth, rd);
      AddRealmInv(m, rd, p, paWidth);
      hide Flat, Inv, RealmCreate, IsRoot, InitialTable, ValidRealm, InIpa;
      forall x, b | Mapped(m2, x, b) ensures ParOk(m2, x, b) && MappingOk(m2, x, b) {
        RealmCreatePage(m, rd, p, paWidth, x, b);
      }
      forall a | a in m2.gs && m2.gs[a].state.DataState? ensures OwnerOk(m2, a) {
        RealmCreateOwner(m, rd, p, paWidth, a);
      }
    }
  }

  lemma RealmCreatePage(m: Machine, rd: Addr, p: RealmParams, paWidth: nat, x: Addr, b: Addr)
    requires CanAddRealm(m, rd, p, paWidth) && Mapped(RealmCreate(m, rd, p, paWidth).m, x, b)
    ensures var m2 := RealmCreate(m, rd, p, paWidth).m; ParOk(m2, x, b) && MappingOk(m2, x, b)
  {
    FreshRealm(m, rd, p, paWidth, rd);
    RealmCreateFlat(m, rd, p, paWidth, x, b);
    if x != rd {
      assert ParOk(m, x, b) && MappingOk(m, x, b);
      var q := PageAt(m, x, b);
      FreshRealm(m, rd, p, paWidth, if q.Assigned? then q.pa else rd);
      hide Flat, Inv, FlatInv, RealmCreate, IsRoot, InitialTable, ValidRealm;
    }
  }

  lemma RealmCreateOwner(m: Machine, rd: Addr, p: RealmParams, paWidth: nat, a: Addr)
    requires CanAddRealm(m, rd, p, paWidth) && Is(RealmCreate(m, rd, p, paWidth).m, a, DataState)
    ensures OwnerOk(RealmCreate(m, rd, p, paWidth).m, a)
  {
    FreshRealm(m, rd, p, paWidth, rd);
    assert OwnerOk(m, a);
    var o := m.owner[a];
    hide Flat, Inv, FlatInv, IsRoot, InitialTable;
    assert Mapped(AddRealm(m, rd, p), o.rd, o.ipa);
    RealmCreateFlat(m, rd, p, paWidth, o.rd, o.ipa);
  }

  // ------------------------------------------------------------ REALM_ACTIVATE

  function SetRealmState(m: Machine, rd: Addr, s: RealmState): Machine
    requires rd in m.realms
  {
    m.(realms := m.realms[rd := m.realms[rd].(state := s)])
  }

  ghost function RealmActivate(m: Machine, rd: Addr): Reply
    requires Inv(m)
  {
    if !Is(m, rd, RdState) then Fail(m, ErrorInput)
    else
      RdIsRealm(m, rd);
      if m.realms[rd].state != New then Fail(m, ErrorRealm)
      else Reply(SetRealmState(m, rd, Active), Success, 0, 0)
  }

  lemma SetRealmStateInv(m: Machine, rd: Addr, s: RealmState)
    requires FullInv(m) && rd in m.realms
    ensures FullInv(SetRealmState(m, rd, s))
  {
    var m2 := SetRealmState(m, rd, s);
    assert Inv(m2) by {
      SetRealmStateTables(m, rd, s);
      hide TableOk, RootsOk, Geometry, Count;
      forall t | t in m2.place ensures RefcountOk(m2, t) { assert RefcountOk(m, t); }
      forall x | x in m2.gs ensures GranuleOk(m2, x) { assert GranuleOk(m, x); }
    }
    hide Inv, Walk, Geometry, RootFor;
    forall x, b | Mapped(m2, x, b) ensures ParOk(m2, x, b) && MappingOk(m2, x, b) {
      assert Mapped(m, x, b) && ParOk(m, x, b) && MappingOk(m, x, b);
      SetRealmStateFlat(m, rd, s, x, b);
    }
    forall a | a in m2.gs && m2.gs[a].state.DataState? ensures OwnerOk(m2, a) {
      assert OwnerOk(m, a);
      SetRealmStateFlat(m, rd, s, m.owner[a].rd, m.owner[a].ipa);
    }
  }

  lemma SetRealmStateTables(m: Machine, rd: Addr, s: RealmState)
    requires TablesInv(m) && RootsInv(m) && rd in m.realms
    ensures TablesInv(SetRealmState(m, rd, s)) && RootsInv(SetRealmState(m, rd, s))
  {
    hide ValidEntry, NumRootRtts, Lsb;
    var m2 := SetRealmState(m, rd, s);
    forall t | t in m2.place ensures TableOk(m2, t) {
      assert TableOk(m, t);
      forall i: nat | i < ENTRIES ensures EntryOk(m2, t, i) { assert EntryOk(m, t, i); }
    }
    forall x | x in m2.realms ensures RootsOk(m2, x) { assert RootsOk(m, x); }
  }

  /** The state of a realm has no bearing on its flat map. */
  lemma SetRealmStateFlat(m: Machine, rd: Addr, s: RealmState, x: Addr, b: Addr)
    requires rd in m.realms && Mapped(m, x, b)
    ensures Mapped(SetRealmState(m, rd, s), x, b)
    ensures PageAt(SetRealmState(m, rd, s), x, b) == PageAt(m, x, b)
  {}

  // ------------------------------------------------------------ REALM_DESTROY

  /** The reference counts of the root tables, added up. */
  function TotalRefcount(m: Machine, roots: seq<Addr>): nat
    requires forall k | 0 <= k < |roots| :: roots[k] in m.gs
  {
    if roots == [] then 0 else m.gs[roots[0]].refcount + TotalRefcount(m, roots[1..])
  }

  lemma {:induction false} TotalZero(m: Machine, roots: seq<Addr>)
    requires forall k | 0 <= k < |roots| :: roots[k] in m.gs
    ensures TotalRefcount(m, roots) == 0 <==> forall k | 0 <= k < |roots| :: m.gs[roots[k]].refcount == 0
  {
    if roots != [] {
      TotalZero(m, roots[1..]);
      if TotalRefcount(m, roots) == 0 {
        forall k | 0 <= k < |roots| ensures m.gs[roots[k]].refcount == 0 {
          if k > 0 { assert roots[1..][k - 1] == roots[k]; }
        }
      }
    }
  }

  function DropRealm(m: Machine, rd: Addr): Machine
    requires rd in m.realms
  {
    var roots := m.realms[rd].roots;
    Machine(
      map a | a in m.gs :: if a == rd || a in roots then Granule(Delegated, 0, true) else m.gs[a],
      map t | t in m.tables && t !in roots :: m.tables[t],
      m.realms - {rd},
      m.recs,
      map t | t in m.place && t !in roots :: m.place[t],
      m.owner)
  }

  lemma RootsAreGranules(m: Machine, rd: Addr)
    requires Inv(m) && rd in m.realms
    ensures forall k | 0 <= k < |m.realms[rd].roots| :: m.realms[rd].roots[k] in m.gs
  {
    assert RootsOk(m, rd);
  }

  ghost function RealmDestroy(m: Machine, rd: Addr): Reply
    requires Inv(m)
  {
    if !Is(m, rd, RdState) then Fail(m, ErrorInput)
    else if m.gs[rd].refcount != 0 then Fail(m, ErrorRealm)
    else
      RdIsRealm(m, rd);
      RootsAreGranules(m, rd);
      if TotalRefcount(m, m.realms[rd].roots) != 0 then Fail(m, ErrorRealm)
      else Reply(DropRealm(m, rd), Success, 0, 0)
  }

  /** The realm has no REC, and no root table of it refers to anything. */
  ghost predicate Idle(m: Machine, rd: Addr) {
    && FullInv(m) && rd in m.realms && RootsOk(m, rd)
    && (forall a {:trigger m.recs[a]} | a in m.recs :: m.recs[a].rd != rd)
    && (forall k: nat | k < |m.realms[rd].roots| :: RootUnused(m, m.realms[rd].roots[k]))
  }

  predicate RootUnused(m: Machine, t: Addr) { t in m.tables && Count(m.tables[t]) == 0 }

  lemma DestroyIdle(m: Machine, rd: Addr)
    requires FullInv(m) && RealmDestroy(m, rd).status.Success?
    requires forall a {:trigger m.recs[a]} | a in m.recs :: m.recs[a].rd != rd
    ensures Idle(m, rd) && RealmDestroy(m, rd).m == DropRealm(m, rd)
  {
    RdIsRealm(m, rd);
    var roots := m.realms[rd].roots;
    RootsAreGranules(m, rd);
    TotalZero(m, roots);
    assert RootsOk(m, rd);
    forall k: nat | k < |roots| ensures RootUnused(m, roots[k]) { assert RefcountOk(m, roots[k]); }
  }

  /** An idle realm has no tables but the root tables. */
  lemma {:induction false} OnlyRoots(m: Machine, rd: Addr, t: Addr)
    requires Idle(m, rd) && t in m.place && m.place[t].rd == rd
    ensures |m.place[t].path| == 1 && t in m.realms[rd].roots && t in m.tables && Count(m.tables[t]) == 0
    decreases |m.place[t].path|
  {
    assert TableOk(m, t);
    var q := m.place[t];
    hide Inv, FlatInv, Geometry, EntryOk, RootsOk;
    if |q.path| == 1 {
      assert RootUnused(m, m.realms[rd].roots[q.path[0]]);
    } else {
      assert EntryAt(m.tables, q.parent, q.path[|q.path| - 1]) == TableEntry(t);
      OnlyRoots(m, rd, q.parent);
      CountBounds(m.tables[q.parent]);
      assert false;
    }
  }

  /** No address of an idle realm maps a DATA granule. */
  lemma IdleMapsNothing(m: Machine, rd: Addr, ipa: Addr)
    requires Idle(m, rd) && Mapped(m, rd, ipa)
    ensures !PageAt(m, rd, ipa).Assigned?
  {
    var w := RealmWalk(m.tables, m.realms[rd], PAGE_LEVEL, ipa);
    ReachedFacts(m, rd, PAGE_LEVEL, ipa, w);
    hide FlatInv, Inv, Walk;
    OnlyRoots(m, rd, w.table);
    CountBounds(m.tables[w.table]);
  }

  /** A successful REALM_DESTROY leaves no table, REC or DATA granule of the realm behind:
      its root tables were all its tables, and every DATA granule belongs to another realm. */
  lemma RealmDestroyLeavesNothing(m: Machine, rd: Addr, a: Addr)
    requires FullInv(m) && RealmDestroy(m, rd).status.Success?
    requires forall a {:trigger m.recs[a]} | a in m.recs :: m.recs[a].rd != rd
    ensures var m2 := RealmDestroy(m, rd).m;
            && rd in m.realms && rd !in m2.realms && rd in m2.gs && m2.gs[rd] == Granule(Delegated, 0, true)
            && (a in m2.place ==> m2.place[a].rd != rd)
            && (a in m.place && m.place[a].rd == rd ==> a in m2.gs && m2.gs[a] == Granule(Delegated, 0, true))
            && (a in m2.gs && m2.gs[a].state.DataState? ==> a in m2.owner && m2.owner[a].rd != rd)
  {
    DestroyIdle(m, rd);
    if a in m.place && m.place[a].rd == rd {
      OnlyRoots(m, rd, a);
    }
    if Is(m, a, DataState) {
      assert OwnerOk(m, a);
      if m.owner[a].rd == rd { IdleMapsNothing(m, rd, m.owner[a].ipa); }
    }
  }

  lemma DropRealmKeeps(m: Machine, rd: Addr, t: Addr)
    requires Idle(m, rd) && t in m.place && m.place[t].rd != rd
    ensures var m2 := DropRealm(m, rd);
            && t in m2.place && m2.place[t] == m.place[t] && t in m.tables && t in m2.tables
            && m2.tables[t] == m.tables[t]
            && t in m2.gs && m2.gs[t] == m.gs[t] && t != rd
            && m.place[t].rd in m2.realms && m2.realms[m.place[t].rd] == m.realms[m.place[t].rd]
            && t !in m.realms[rd].roots
  {
    assert TableOk(m, t) && GranuleOk(m, t);
  }

  lemma DropRealmTable(m: Machine, rd: Addr, t: Addr)
    requires Idle(m, rd) && t in m.place && m.place[t].rd != rd
    ensures t in DropRealm(m, rd).place && TableOk(DropRealm(m, rd), t) && RefcountOk(DropRealm(m, rd), t)
  {
    var m2 := DropRealm(m, rd);
    DropRealmKeeps(m, rd, t);
    assert TableOk(m, t) && RefcountOk(m, t);
    DropRealmPlace(m, rd, t);
    hide FlatInv, NumRootRtts, Lsb, ValidEntry, Count, CountsInv, RootsInv, RootsOk;
    forall i: nat | i < ENTRIES ensures EntryOk(m2, t, i) {
      assert EntryOk(m, t, i);
      var e := EntryAt(m.tables, t, i);
      if e.TableEntry? { DropRealmKeeps(m, rd, e.pa); }
    }
  }

  lemma DropRealmPlace(m: Machine, rd: Addr, t: Addr)
    requires Idle(m, rd) && t in m.place && m.place[t].rd != rd
    ensures t in DropRealm(m, rd).place && PlaceOk(DropRealm(m, rd), t)
  {
    DropRealmKeeps(m, rd, t);
    assert TableOk(m, t);
    var q := m.place[t];
    hide Inv, FlatInv, Geometry, EntryOk, RootsOk;
    if |q.path| > 1 { DropRealmKeeps(m, rd, q.parent); }
  }

  lemma DropRealmRoots(m: Machine, rd: Addr, x: Addr)
    requires Idle(m, rd) && x in m.realms && x != rd
    ensures x in DropRealm(m, rd).realms && RootsOk(DropRealm(m, rd), x)
  {
    var m2 := DropRealm(m, rd);
    assert RootsOk(m, x);
    var r := m.realms[x];
    hide FlatInv, Inv, Geometry;
    forall k: nat | k < |r.roots| ensures r.roots[k] in m2.place && m2.place[r.roots[k]] == Place(x, [k], x) {
      DropRealmKeeps(m, rd, r.roots[k]);
    }
  }

  lemma DropRealmGranules(m: Machine, rd: Addr)
    requires Idle(m, rd)
    ensures GranulesInv(DropRealm(m, rd))
  {
    var m2 := DropRealm(m, rd);
    var roots := m.realms[rd].roots;
    forall a | a in m2.gs ensures GranuleOk(m2, a) {
      assert GranuleOk(m, a);
      if a in roots {
        var k :| 0 <= k < |roots| && roots[k] == a;
        assert m.place[roots[k]] == Place(rd, [k], rd);
      }
    }
    hide GranuleOk, FlatInv, TablesInv, CountsInv, RootsInv, ValidRealm;
    assert m2.tables.Keys == m2.place.Keys;
  }

  lemma DropRealmInv(m: Machine, rd: Addr)
    requires Idle(m, rd)
    ensures Inv(DropRealm(m, rd))
  {
    var m2 := DropRealm(m, rd);
    DropRealmGranules(m, rd);
    hide TableOk, RefcountOk, GranuleOk, GranulesInv, FullInv, RootsOk;
    forall t | t in m2.place ensures TableOk(m2, t) && RefcountOk(m2, t) {
      if m.place[t].rd == rd { OnlyRoots(m, rd, t); }
      DropRealmTable(m, rd, t);
    }
    forall x | x in m2.realms ensures RootsOk(m2, x) { DropRealmRoots(m, rd, x); }
  }

  /** No other realm changes. */
  lemma DropRealmFlat(m: Machine, rd: Addr, x: Addr, b: Addr)
    requires Idle(m, rd) && x != rd && Mapped(m, x, b)
    ensures Mapped(DropRealm(m, rd), x, b) && PageAt(DropRealm(m, rd), x, b) == PageAt(m, x, b)
  {
    var m2 := DropRealm(m, rd);
    hide Flat, Inv, FlatInv, Geometry, RootsOk;
    forall t | t in m.place && m.place[t].rd == x ensures EntryListKept(m, m2.tables, t) {
      DropRealmKeeps(m, rd, t);
    }
    FlatKept(m, m2.tables, x, b);
  }

  lemma DropRealmPages(m: Machine, rd: Addr, x: Addr, b: Addr)
    requires Idle(m, rd) && x != rd && Mapped(m, x, b)
    ensures var m2 := DropRealm(m, rd); Mapped(m2, x, b) && ParOk(m2, x, b) && MappingOk(m2, x, b)
  {
    DropRealmFlat(m, rd, x, b);
    assert ParOk(m, x, b) && MappingOk(m, x, b);
    var q := PageAt(m, x, b);
    if q.Assigned? && b % PAGE == 0 {
      assert GranuleOk(m, q.pa) && GranuleOk(m, rd);
      if q.pa in m.realms[rd].roots { RootsAreTables(m, rd, q.pa); }
    }
  }

  lemma RootsAreTables(m: Machine, rd: Addr, a: Addr)
    requires Inv(m) && rd in m.realms && a in m.realms[rd].roots
    ensures Is(m, a, RttState)
  {
    assert RootsOk(m, rd);
    var k :| 0 <= k < |m.realms[rd].roots| && m.realms[rd].roots[k] == a;
    assert GranuleOk(m, m.realms[rd].roots[k]);
  }

  lemma DropRealmFlatInv(m: Machine, rd: Addr)
    requires Idle(m, rd)
    ensures FlatInv(DropRealm(m, rd))
  {
    var m2 := DropRealm(m, rd);
    assert forall a | a in m2.gs && m2.gs[a].state.DataState? :: a in m.gs && m.gs[a].state.DataState?;
    hide Flat, Inv, RootsOk, InIpa;
    forall x, b | Mapped(m2, x, b) ensures ParOk(m2, x, b) && MappingOk(m2, x, b) {
      DropRealmPages(m, rd, x, b);
    }
    forall a | a in m2.gs && m2.gs[a].state.DataState? ensures OwnerOk(m2, a) {
      assert OwnerOk(m, a);
      if m.owner[a].rd == rd { IdleMapsNothing(m, rd, m.owner[a].ipa); }
      DropRealmFlat(m, rd, m.owner[a].rd, m.owner[a].ipa);
    }
  }
}
