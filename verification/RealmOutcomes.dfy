/** What the commands on granules, realms and RECs answer, exactly when they succeed, and what
    creating and destroying in turn restores. */
module RealmOutcomes {
  import opened S2Geometry
  import opened S2tte
  import opened RealmGeometry
  import opened Rtt
  import opened RttSteps
  import opened RttFlat
  import opened RttInvariants
  import opened RttCommands
  import opened RttLeaves
  import opened RipasCommands
  import opened RealmCommands
  import opened RecCommands

  // ------------------------------------------------------------ granules

  /** Only `a` may differ, and is now `g`. */
  predicate OnlyGranule(m: Machine, m2: Machine, a: Addr, g: Granule) {
    && m2 == m.(gs := m2.gs) && m2.gs.Keys == m.gs.Keys && a in m2.gs && m2.gs[a] == g
    && forall x | x in m.gs && x != a :: m2.gs[x] == m.gs[x]
  }

  /** GRANULE_DELEGATE succeeds exactly for a granule of the host that EL3 hands over, which is then
      DELEGATED, unreferenced and wiped; GRANULE_UNDELEGATE exactly for a DELEGATED one, which is
      then the host's. Nothing else changes. */
  lemma DelegateOutcome(m: Machine, a: Addr, el3Ok: bool)
    requires FullInv(m)
    ensures var q := GranuleDelegate(m, a, el3Ok);
            && (q.status.Success? <==> a in m.gs && m.gs[a].state == NsState && el3Ok)
            && (q.status.Success? ==> OnlyGranule(m, q.m, a, Granule(Delegated, 0, true)))
            && (!q.status.Success? ==> q == Fail(m, ErrorInput))
    ensures var q := GranuleUndelegate(m, a);
            && (q.status.Success? <==> a in m.gs && m.gs[a].state == Delegated)
            && (q.status.Success? ==> OnlyGranule(m, q.m, a, Granule(NsState, 0, false)))
            && (!q.status.Success? ==> q == Fail(m, ErrorInput))
  {
    if a in m.gs { assert GranuleOk(m, a); }
  }

  // ------------------------------------------------------------ REALM_CREATE

  /** REALM_CREATE succeeds exactly if the address space fits the tables that the parameters ask
      for, the root tables are as many as it needs, and all granules are DELEGATED, the RD being
      none of the root tables. */
  lemma RealmCreateOutcome(m: Machine, rd: Addr, p: RealmParams, paWidth: nat)
    ensures var q := RealmCreate(m, rd, p, paWidth);
            && (q.status.Success? <==>
                  && p.otherOk
                  && 32 <= p.ipaBits <= (if p.fmt.lpa2 then 52 else 48)
                  && (if p.fmt.lpa2 then -1 else 0) <= p.start <= 3
                  && (p.start == 0 ==> 44 <= paWidth)
                  && Span(p.start) < IpaSize(p.ipaBits) <= LargestIpa(p.start, p.fmt.lpa2)
                  && (p.numStart - 1) * Span(p.start - 1) < IpaSize(p.ipaBits) <= p.numStart * Span(p.start - 1)
                  && Is(m, rd, Delegated) && !(p.rttBase <= rd < p.rttBase + p.numStart * PAGE)
                  && forall k: nat | k < p.numStart :: Is(m, RootAddr(p, k), Delegated))
            && (!q.status.Success? ==> q == Fail(m, ErrorInput))
  {
    AcceptedExactly(p.ipaBits, p.start, p.fmt.lpa2, paWidth);
    if MIN_LEVEL <= p.start <= PAGE_LEVEL { RootsNeeded(p.ipaBits, p.start, p.numStart); }
    hide Span, LargestIpa, IpaSize, NumRootRtts, InconsistentSl;
  }

  /** A new realm is new, has the geometry it was asked for, and maps every address at its starting
      level; exactly the RD and the root tables changed their state. */
  lemma RealmCreateLevels(m: Machine, rd: Addr, p: RealmParams, paWidth: nat, b: Addr, a: Addr)
    requires CanAddRealm(m, rd, p, paWidth) && a in m.gs
    ensures var m2 := RealmCreate(m, rd, p, paWidth).m;
            && rd in m2.realms && m2.realms[rd].state == New && m2.realms - {rd} == m.realms
            && m2.realms[rd].ipaBits == p.ipaBits && m2.realms[rd].start == p.start && m2.realms[rd].fmt == p.fmt
            && |m2.realms[rd].roots| == p.numStart
            && (forall k | 0 <= k < p.numStart :: m2.realms[rd].roots[k] == p.rttBase + k * PAGE)
            && (b < IpaSize(p.ipaBits) ==> Mapped(m2, rd, b) && LeafLevel(m2, rd, b) == p.start)
            && a in m2.gs
            && m2.gs[a].state == (if a == rd then RdState
                                  else if exists k :: 0 <= k < p.numStart && a == p.rttBase + k * PAGE then RttState
                                  else m.gs[a].state)
  {
    FreshRealm(m, rd, p, paWidth, rd);
    FreshRealm(m, rd, p, paWidth, a);
    var m2 := RealmCreate(m, rd, p, paWidth).m;
    if IsRoot(p, a) { RootIsAddr(p, a); }
    forall k: nat | k < p.numStart ensures IsRoot(p, p.rttBase + k * PAGE) { RootAddrs(p, k); }
    hide Inv, FlatInv, Geometry, RealmCreate, IsRoot, InitialTable, IpaSize;
    if b < IpaSize(p.ipaBits) { NewRealmLevel(m, rd, p, paWidth, b); }
  }

  lemma NewRealmLevel(m: Machine, rd: Addr, p: RealmParams, paWidth: nat, b: Addr)
    requires CanAddRealm(m, rd, p, paWidth) && ValidRealm(NewRealm(p)) && InIpa(NewRealm(p), b)
    requires MIN_LEVEL <= p.start <= PAGE_LEVEL
    ensures Mapped(AddRealm(m, rd, p), rd, b) && LeafLevel(AddRealm(m, rd, p), rd, b) == p.start
  {
    var k := RootIdx(b, p.start);
    RootInBounds(p.ipaBits, p.start, p.numStart, b);
    RootAddrs(p, k);
    FreshRealm(m, rd, p, paWidth, RootAddr(p, k));
    hide Inv, FlatInv, RealmCreate, IsRoot, Geometry, InitialEntry, Idx, RootIdx, Span;
    var ts := AddRealm(m, rd, p).tables;
    assert RootFor(NewRealm(p), b) == RootAddr(p, k);
    assert !EntryAt(ts, RootAddr(p, k), Idx(b, p.start)).TableEntry?;
  }

  // ------------------------------------------------------------ REALM_ACTIVATE

  /** REALM_ACTIVATE succeeds exactly for a new realm, which is then active; no other realm and no
      granule changes. */
  lemma RealmActivateOutcome(m: Machine, rd: Addr)
    requires Inv(m)
    ensures var q := RealmActivate(m, rd);
            && (q.status.Success? <==> rd in m.realms && m.realms[rd].state == New)
            && (q.status.Success? ==>
                  && rd in q.m.realms && q.m.realms[rd] == m.realms[rd].(state := Active)
                  && q.m.realms - {rd} == m.realms - {rd}
                  && q.m == m.(realms := q.m.realms))
            && (rd !in m.realms ==> q == Fail(m, ErrorInput))
            && (rd in m.realms && m.realms[rd].state != New ==> q == Fail(m, ErrorRealm))
  {
    if rd in m.gs { assert GranuleOk(m, rd); }
    hide TablesInv, CountsInv, RootsInv;
  }

  /** Every address of every realm maps what it did, at its level. */
  lemma RealmActivateFlat(m: Machine, rd: Addr, rd': Addr, b: Addr)
    requires Inv(m) && Mapped(m, rd', b)
    ensures var q := RealmActivate(m, rd);
            && Mapped(q.m, rd', b) && PageAt(q.m, rd', b) == PageAt(m, rd', b)
            && LeafLevel(q.m, rd', b) == LeafLevel(m, rd', b)
  {
    hide Flat, LeafLevel, Inv, Mapped, Walk;
    RealmActivateOutcome(m, rd);
    if rd in m.realms {
      SetRealmStateFlat(m, rd, Active, rd', b);
      StateMovesNoLevel(m, rd, Active, rd', b);
    }
  }

  lemma StateMovesNoLevel(m: Machine, rd: Addr, st: RealmState, rd': Addr, b: Addr)
    requires rd in m.realms && Mapped(m, rd', b)
    ensures Mapped(SetRealmState(m, rd, st), rd', b)
    ensures LeafLevel(SetRealmState(m, rd, st), rd', b) == LeafLevel(m, rd', b)
  {
    hide Walk, Geometry;
  }

  // ------------------------------------------------------------ REALM_DESTROY

  /** REALM_DESTROY succeeds exactly if the realm has no REC and its root tables refer to no table
      and no protected memory. */
  lemma RealmDestroyOutcome(m: Machine, rd: Addr)
    requires FullInv(m) && RecsInv(m)
    ensures var q := RealmDestroy(m, rd);
            && (q.status.Success? <==>
                  && rd in m.realms && (forall a | a in m.recs :: m.recs[a].rd != rd)
                  && forall k, i: nat | 0 <= k < |m.realms[rd].roots| && i < ENTRIES ::
                       !EntryAt(m.tables, m.realms[rd].roots[k], i).Counted())
            && (rd !in m.realms ==> q == Fail(m, ErrorInput))
            && (rd in m.realms && !q.status.Success? ==> q == Fail(m, ErrorRealm))
  {
    if rd in m.gs { assert GranuleOk(m, rd); }
    if rd in m.realms {
      var roots := m.realms[rd].roots;
      assert RootsOk(m, rd) && RdCountOk(m, rd);
      RootsAreGranules(m, rd);
      TotalZero(m, roots);
      if m.gs[rd].refcount == 0 { NoRecs(m, rd); }
      if forall a | a in m.recs :: m.recs[a].rd != rd { assert RecsOf(m, rd) == {}; }
      hide FlatInv, RecsInv, TotalRefcount, DropRealm, Count, RecsOf;
      forall k | 0 <= k < |roots|
        ensures m.gs[roots[k]].refcount == 0 <==> forall i: nat | i < ENTRIES ::
                  !EntryAt(m.tables, roots[k], i).Counted()
      {
        RootCount(m, roots[k]);
      }
    }
  }

  lemma RootCount(m: Machine, t: Addr)
    requires Inv(m) && t in m.place
    ensures t in m.gs
    ensures m.gs[t].refcount == 0 <==> forall i: nat | i < ENTRIES :: !EntryAt(m.tables, t, i).Counted()
  {
    EntryFacts(m, t, 0);
    CountBounds(m.tables[t]);
    var es := m.tables[t];
    hide Inv, TableOk, Count;
    if forall i: nat | i < ENTRIES :: !EntryAt(m.tables, t, i).Counted() {
      forall i | 0 <= i < |es| ensures !es[i].Counted() { assert EntryAt(m.tables, t, i) == es[i]; }
    }
  }

  /** REALM_DESTROY right after REALM_CREATE always succeeds and restores the state exactly. */
  lemma CreateThenDestroyRealm(m: Machine, rd: Addr, p: RealmParams, paWidth: nat)
    requires CanAddRealm(m, rd, p, paWidth)
    ensures Inv(RealmCreate(m, rd, p, paWidth).m)
    ensures RealmDestroy(RealmCreate(m, rd, p, paWidth).m, rd) == Reply(m, Success, 0, 0)
  {
    FreshRealm(m, rd, p, paWidth, rd);
    RealmCreateInv(m, rd, p, paWidth);
    var m1 := AddRealm(m, rd, p);
    var roots := m1.realms[rd].roots;
    forall k | 0 <= k < |roots| ensures roots[k] in m1.gs && m1.gs[roots[k]].refcount == 0 {
      RootAddrs(p, k);
      FreshRealm(m, rd, p, paWidth, roots[k]);
    }
    TotalZero(m1, roots);
    hide FlatInv, TotalRefcount, InitialTable, Inv;
    RealmRestored(m, rd, p, paWidth);
  }

  lemma RealmRestored(m: Machine, rd: Addr, p: RealmParams, paWidth: nat)
    requires CanAddRealm(m, rd, p, paWidth) && MIN_LEVEL <= p.start <= PAGE_LEVEL
    ensures rd in AddRealm(m, rd, p).realms && DropRealm(AddRealm(m, rd, p), rd) == m
  {
    FreshRealm(m, rd, p, paWidth, rd);
    var m1 := AddRealm(m, rd, p);
    var roots := m1.realms[rd].roots;
    assert Inv(m);
    forall a | a in m.gs ensures a in roots <==> IsRoot(p, a) { RootListed(p, a); }
    forall a | a in m.gs && (a == rd || IsRoot(p, a)) ensures m.gs[a] == Granule(Delegated, 0, true) {
      FreshRealm(m, rd, p, paWidth, a);
      assert GranuleOk(m, a);
    }
    forall a | a in m.gs && IsRoot(p, a) ensures a !in m.tables && a !in m.place {
      FreshRealm(m, rd, p, paWidth, a);
    }
    assert m.tables.Keys <= m.gs.Keys && m.place.Keys <= m.gs.Keys;
    hide Inv, FlatInv, RealmCreate, IsRoot, InitialTable;
    RestoredParts(m, rd, p);
  }

  lemma RestoredParts(m: Machine, rd: Addr, p: RealmParams)
    requires MIN_LEVEL <= p.start <= PAGE_LEVEL && rd !in m.realms
    requires m.tables.Keys <= m.gs.Keys && m.place.Keys <= m.gs.Keys
    requires forall a | a in m.gs :: a in NewRealm(p).roots <==> IsRoot(p, a)
    requires forall a | a in m.gs && (a == rd || IsRoot(p, a)) :: m.gs[a] == Granule(Delegated, 0, true)
    requires forall a | a in m.gs && IsRoot(p, a) :: a !in m.tables && a !in m.place
    ensures rd in AddRealm(m, rd, p).realms && DropRealm(AddRealm(m, rd, p), rd) == m
  {
    hide IsRoot, InitialTable, RootNumber;
    var m1 := AddRealm(m, rd, p);
    assert m1.realms[rd] == NewRealm(p);
    hide NewRealm;
    var m2 := DropRealm(m1, rd);
    assert m2.gs == m.gs;
    assert m2.tables == m.tables;
    assert m2.place == m.place;
    assert m2.realms == m.realms;
  }

  lemma RootListed(p: RealmParams, a: Addr)
    ensures a in NewRealm(p).roots <==> IsRoot(p, a)
  {
    if IsRoot(p, a) {
      RootIsAddr(p, a);
      assert NewRealm(p).roots[RootNumber(p, a)] == a;
    }
    if a in NewRealm(p).roots {
      var k :| 0 <= k < p.numStart && NewRealm(p).roots[k] == a;
      RootAddrs(p, k);
    }
  }

  // ------------------------------------------------------------ RECs

  /** REC_CREATE succeeds exactly if the parameters can be read, name sixteen different DELEGATED
      auxiliary granules and the next index, the REC granule is DELEGATED and none of them, and the
      realm is new and has room for another REC. */
  lemma RecCreateOutcome(m: Machine, rd: Addr, rec: Addr, aux: seq<Addr>, readOk: bool, indexOk: bool, a: Addr)
    requires FullInv(m) && RecsInv(m) && a in m.gs
    ensures var q := RecCreate(m, rd, rec, aux, readOk, indexOk);
            && (q.status.Success? <==>
                  && readOk && indexOk && |aux| == 16 && AllFree(m, aux)
                  && Is(m, rec, Delegated) && rec !in aux
                  && rd in m.realms && m.realms[rd].state == New && |RecsOf(m, rd)| < 1023)
            && (q.status.Success? ==>
                  && rec in q.m.recs && q.m.recs[rec] == Rec(rd, aux, RipasRequest(0, 0, 0, Empty, false))
                  && q.m.recs - {rec} == m.recs && a in q.m.gs
                  && q.m.gs[a].state == (if a == rec then RecState else if a in aux then RecAux else m.gs[a].state))
            && (!q.status.Success? && !q.status.AssertionFailure? ==> q.m == m)
  {
    AllFreeTaken(m, aux);
    if rd in m.gs { assert GranuleOk(m, rd); }
    if rec in m.gs { assert GranuleOk(m, rec); }
    if rd in m.realms { assert RdCountOk(m, rd); }
    hide FullInv, RecsInv, FirstTaken, RecsOf;
  }

  /** REC_DESTROY succeeds exactly for a REC; afterwards it is gone, and exactly its granule and its
      auxiliary granules, which are DELEGATED and wiped, changed their state. */
  lemma RecDestroyOutcome(m: Machine, rec: Addr, a: Addr)
    requires FullInv(m) && RecsInv(m) && a in m.gs
    ensures var q := RecDestroy(m, rec);
            && (q.status.Success? <==> rec in m.recs)
            && (q.status.Success? ==>
                  && q.m.recs == m.recs - {rec} && a in q.m.gs
                  && (if a == rec || a in m.recs[rec].aux then q.m.gs[a] == Granule(Delegated, 0, true)
                      else q.m.gs[a].state == m.gs[a].state))
            && (!q.status.Success? ==> q == Fail(m, ErrorInput))
  {
    if rec in m.gs { assert GranuleOk(m, rec); }
  }

  /** REC_DESTROY right after REC_CREATE restores the state exactly. */
  lemma CreateThenDestroyRec(m: Machine, rd: Addr, rec: Addr, aux: seq<Addr>, readOk: bool, indexOk: bool)
    requires FullInv(m) && RecsInv(m) && RecCreate(m, rd, rec, aux, readOk, indexOk).status.Success?
    ensures Inv(RecCreate(m, rd, rec, aux, readOk, indexOk).m)
    ensures RecDestroy(RecCreate(m, rd, rec, aux, readOk, indexOk).m, rec) == Reply(m, Success, 0, 0)
  {
    RecCreateStep(m, rd, rec, aux, readOk, indexOk);
    AddRecInv(m, rd, rec, aux);
    var m1 := AddRec(m, rd, rec, aux);
    assert GranuleOk(m, rec) && GranuleOk(m, rd);
    forall k | 0 <= k < |aux| ensures aux[k] in m.gs && m.gs[aux[k]] == Granule(Delegated, 0, true) {
      assert Is(m, aux[k], Delegated);
      assert GranuleOk(m, aux[k]);
    }
    hide Inv, FlatInv, RecsInv, RecCreate;
    RecRestored(m, rd, rec, aux);
  }

  lemma RecRestored(m: Machine, rd: Addr, rec: Addr, aux: seq<Addr>)
    requires rec in m.gs && m.gs[rec] == Granule(Delegated, 0, true) && rec !in m.recs
    requires rd in m.gs && rd != rec && rd !in aux
    requires forall k | 0 <= k < |aux| :: aux[k] in m.gs && m.gs[aux[k]] == Granule(Delegated, 0, true)
    ensures rec in AddRec(m, rd, rec, aux).recs && DropRec(AddRec(m, rd, rec, aux), rec) == m
  {
    var m2 := DropRec(AddRec(m, rd, rec, aux), rec);
    assert m2.gs == m.gs;
    assert m2.recs == m.recs;
  }
}
