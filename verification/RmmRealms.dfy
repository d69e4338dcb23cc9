/** REALM_CREATE and REALM_DESTROY as loops over the starting-level tables. */
module RmmRealms {
  import opened S2Geometry
  import opened S2tte
  import opened RealmGeometry
  import opened Rtt
  import opened RttSteps
  import opened RttInvariants
  import opened RttCommands
  import opened RealmCommands
  import opened Rmm

  /** The number of starting-level entries that the IPA space needs. */
  function StartEntries(ipaBits: nat, start: int): nat
    requires MIN_LEVEL <= start <= PAGE_LEVEL && Lsb(start) < ipaBits
  {
    Pow2(ipaBits - Lsb(start))
  }

  lemma EntryOrder(a: nat, b: nat, s: nat)
    requires s > 0
    ensures a * s < b * s <==> a < b
    ensures a * s == b * s <==> a == b
  {}

  /** Writes the entries of root table `k`, which was zero, until the table or the IPA space
      ends; `done` tells which. */
  method InitRootTable(ipaBits: nat, start: int, n: nat, k: nat) returns (es: seq<Entry>, done: bool)
    requires Geometry(ipaBits, start, n) && k < n
    ensures es == InitialTable(ipaBits, start, k)
    ensures done <==> k == n - 1
  {
    var s := Span(start);
    ghost var total := StartEntries(ipaBits, start);
    RootsCover(ipaBits, start, n);
    es := seq(ENTRIES, i => UnassignedEntry(Empty));
    var ipa := k * ENTRIES * s;
    var i := 0;
    hide Geometry, IpaSize, ParSize, Span, Lsb, NumRootRtts;
    while i < TableEntries(start)
      invariant 0 <= i <= TableEntries(start) && |es| == ENTRIES
      invariant ipa == (k * ENTRIES + i) * s && k * ENTRIES + i <= total
      invariant i > 0 ==> k * ENTRIES + i < total
      invariant forall j | 0 <= j < i :: es[j] == InitialEntry(ipaBits, start, k, j)
      invariant forall j | i <= j < ENTRIES :: es[j] == UnassignedEntry(Empty)
    {
      EntryOrder(k * ENTRIES + i, total, s);
      if ipa < ParSize(ipaBits) {
        es := es[i := UnassignedEntry(Empty)];
      } else {
        es := es[i := UnassignedNsEntry];
      }
      assert ipa + s == (k * ENTRIES + i + 1) * s;
      ipa := ipa + s;
      i := i + 1;
      EntryOrder(k * ENTRIES + i, total, s);
      if ipa == IpaSize(ipaBits) {
        RestIsZero(ipaBits, start, n, k, i);
        return es, true;
      }
    }
    return es, false;
  }

  lemma RestIsZero(ipaBits: nat, start: int, n: nat, k: nat, i: nat)
    requires Geometry(ipaBits, start, n) && IpaSize(ipaBits) <= (k * ENTRIES + i) * Span(start)
    ensures forall j: nat | j >= i :: InitialEntry(ipaBits, start, k, j) == UnassignedEntry(Empty)
  {}

  // ------------------------------------------------------------ locking RD and root tables

  function Roots(p: RealmParams, n: nat): set<Addr> { set k | 0 <= k < n :: RootAddr(p, k) }

  lemma RootsStep(p: RealmParams, n: nat)
    ensures RootAddr(p, n) !in Roots(p, n) && Roots(p, n + 1) == Roots(p, n) + {RootAddr(p, n)}
  {}

  lemma RdApart(p: RealmParams, rd: Addr, n: nat)
    requires !(p.rttBase <= rd < p.rttBase + p.numStart * PAGE) && n <= p.numStart
    ensures rd !in Roots(p, n)
  {}

  /** Locks the RD and the root tables in the order of their addresses, if all of them are
      DELEGATED; otherwise releases what it locked. */
  method FindLockRealm(s: Monitor, rd: Addr, p: RealmParams) returns (ok: bool)
    requires s.locks == {} && !(p.rttBase <= rd < p.rttBase + p.numStart * PAGE)
    modifies s`locks
    ensures ok <==> Is(s.State(), rd, Delegated) && forall k: nat | k < p.numStart ::
              Is(s.State(), RootAddr(p, k), Delegated)
    ensures s.locks == if ok then Roots(p, p.numStart) + {rd} else {}
  {
    var first := rd < p.rttBase;
    if first {
      ok := s.FindLock(rd, Delegated);
      if !ok { return; }
    }
    var i := 0;
    RdApart(p, rd, 0);
    while i < p.numStart
      invariant 0 <= i <= p.numStart && (first ==> Is(s.State(), rd, Delegated))
      invariant s.locks == Roots(p, i) + (if first then {rd} else {}) && rd !in Roots(p, i)
      invariant forall k: nat | k < i :: Is(s.State(), RootAddr(p, k), Delegated)
    {
      RootsStep(p, i);
      RdApart(p, rd, i + 1);
      ok := s.FindLock(RootAddr(p, i), Delegated);
      if !ok {
        UnlockRoots(s, rd, p, i, first);
        return;
      }
      i := i + 1;
    }
    ok := true;
    if !first {
      ok := s.FindLock(rd, Delegated);
      if !ok { UnlockRoots(s, rd, p, i, first); }
    }
  }

  /** The rollback: the root tables from the last locked one down, then the RD if it was locked. */
  method UnlockRoots(s: Monitor, rd: Addr, p: RealmParams, n: nat, first: bool)
    requires s.locks == Roots(p, n) + (if first then {rd} else {}) && rd !in Roots(p, n)
    modifies s`locks
    ensures s.locks == {}
  {
    var i := n;
    while i != 0
      invariant 0 <= i <= n && s.locks == Roots(p, i) + (if first then {rd} else {}) && rd !in Roots(p, i)
    {
      i := i - 1;
      RootsStep(p, i);
      s.Unlock(RootAddr(p, i));
    }
    if first { s.Unlock(rd); }
  }

  // ------------------------------------------------------------ REALM_CREATE

  /** Root table `t` has been initialised. */
  predicate Made(p: RealmParams, n: nat, t: Addr) { IsRoot(p, t) && RootNumber(p, t) < n }

  /** The tables after the first `n` root tables have been initialised. */
  ghost predicate TablesMade(ts: Tables, was: Tables, p: RealmParams, n: nat)
    requires MIN_LEVEL <= p.start <= PAGE_LEVEL
  {
    && (forall t :: t in ts <==> t in was || Made(p, n, t))
    && (forall t | t in ts && Made(p, n, t) :: ts[t] == InitialTable(p.ipaBits, p.start, RootNumber(p, t)))
    && (forall t | t in was && !Made(p, n, t) :: ts[t] == was[t])
  }

  lemma MadeStep(p: RealmParams, n: nat, t: Addr)
    requires n < p.numStart
    ensures Made(p, n + 1, t) <==> Made(p, n, t) || t == RootAddr(p, n)
    ensures NumberedRoot(p, RootAddr(p, n), n)
  {}

  predicate NumberedRoot(p: RealmParams, a: Addr, k: nat) { IsRoot(p, a) && RootNumber(p, a) == k }

  /** init_s2_starting_level: never reaches the end of its loop without having reached the
      end of the IPA space. */
  method InitStartingLevel(s: Monitor, p: RealmParams)
    requires Geometry(p.ipaBits, p.start, p.numStart)
    modifies s`tables
    ensures TablesMade(s.tables, old(s.tables), p, p.numStart)
  {
    ghost var was := s.tables;
    var k := 0;
    while k < p.numStart
      invariant 0 <= k < p.numStart && TablesMade(s.tables, was, p, k)
    {
      var es, done := InitRootTable(p.ipaBits, p.start, p.numStart, k);
      InitStep(s.tables, was, p, k, es);
      s.tables := s.tables[RootAddr(p, k) := es];
      if done { return; }
      k := k + 1;
    }
    assert false;
  }

  lemma InitStep(ts: Tables, was: Tables, p: RealmParams, k: nat, es: seq<Entry>)
    requires MIN_LEVEL <= p.start <= PAGE_LEVEL && k < p.numStart && TablesMade(ts, was, p, k)
    requires es == InitialTable(p.ipaBits, p.start, k)
    ensures TablesMade(ts[RootAddr(p, k) := es], was, p, k + 1)
  {}

  /** The granules after the first `n` root tables have become RTTs. */
  ghost predicate GranulesMade(gs: map<Addr, Granule>, was: map<Addr, Granule>, rd: Addr, p: RealmParams, n: nat) {
    && gs.Keys == was.Keys
    && (forall a | a in gs && Made(p, n, a) :: gs[a] == Granule(RttState, 0, false))
    && (forall a | a in gs && !Made(p, n, a) :: gs[a] == if a == rd then Granule(RdState, 0, false) else was[a])
  }

  method SetStates(s: Monitor, rd: Addr, p: RealmParams)
    requires rd in s.gs && !IsRoot(p, rd) && s.gs[rd].refcount == 0
    requires forall k: nat | k < p.numStart :: RootAddr(p, k) in s.gs && s.gs[RootAddr(p, k)].refcount == 0
    modifies s`gs
    ensures GranulesMade(s.gs, old(s.gs), rd, p, p.numStart)
  {
    ghost var was := s.gs;
    s.gs := s.gs[rd := s.gs[rd].(state := RdState, zero := false)];
    var k := 0;
    while k < p.numStart
      invariant 0 <= k <= p.numStart && GranulesMade(s.gs, was, rd, p, k)
    {
      var g := RootAddr(p, k);
      forall a ensures Made(p, k + 1, a) <==> Made(p, k, a) || a == g { MadeStep(p, k, a); }
      assert !Made(p, k, g) && g != rd by { MadeStep(p, k, g); }
      s.gs := s.gs[g := s.gs[g].(state := RttState, zero := false)];
      k := k + 1;
    }
  }

  method CreateRealm(s: Monitor, rd: Addr, p: RealmParams, paWidth: nat) returns (status: Status)
    requires FullInv(s.State()) && s.locks == {}
    modifies s
    ensures var q := RealmCreate(old(s.State()), rd, p, paWidth); s.State() == q.m && status == q.status
    ensures s.locks == {}
  {
    hide FullInv, IsRoot, AddRealm;
    if !ValidParams(p, paWidth) || p.rttBase <= rd < p.rttBase + p.numStart * PAGE { return ErrorInput; }
    var ok := FindLockRealm(s, rd, p);
    if !ok { return ErrorInput; }
    FillRealm(s, rd, p, paWidth);
    RdApart(p, rd, p.numStart);
    s.Unlock(rd);
    UnlockRoots(s, rd, p, p.numStart, false);
    return Success;
  }

  method FillRealm(s: Monitor, rd: Addr, p: RealmParams, paWidth: nat)
    requires FullInv(s.State()) && RealmCreate(s.State(), rd, p, paWidth).status.Success?
    modifies s`realms, s`tables, s`gs, s`place
    ensures s.State() == RealmCreate(old(s.State()), rd, p, paWidth).m
  {
    ghost var m := s.State();
    CreateReady(m, rd, p, paWidth);
    RealmLevels(p, paWidth);
    hide *;
    s.StateIs();
    s.realms := s.realms[rd := NewRealm(p)];
    InitStartingLevel(s, p);
    SetStates(s, rd, p);
    s.place := PlacesWith(s.gs, s.place, rd, p);
    s.StateIs();
    CreatedRealm(m, s.State(), rd, p, paWidth);
  }

  lemma RealmLevels(p: RealmParams, paWidth: nat)
    requires ValidParams(p, paWidth)
    ensures MIN_LEVEL <= p.start <= PAGE_LEVEL && Geometry(p.ipaBits, p.start, p.numStart)
  {}

  lemma CreateReady(m: Machine, rd: Addr, p: RealmParams, paWidth: nat)
    requires FullInv(m) && RealmCreate(m, rd, p, paWidth).status.Success?
    ensures Is(m, rd, Delegated) && !IsRoot(p, rd) && m.gs[rd].refcount == 0
    ensures forall k: nat | k < p.numStart :: Is(m, RootAddr(p, k), Delegated) && m.gs[RootAddr(p, k)].refcount == 0
  {
    FreshRealm(m, rd, p, paWidth, rd);
    assert GranuleOk(m, rd);
    forall k: nat | k < p.numStart ensures Is(m, RootAddr(p, k), Delegated) && m.gs[RootAddr(p, k)].refcount == 0 {
      assert GranuleOk(m, RootAddr(p, k));
    }
  }

  lemma CreatedRealm(m: Machine, m2: Machine, rd: Addr, p: RealmParams, paWidth: nat)
    requires FullInv(m) && RealmCreate(m, rd, p, paWidth).status.Success?
    requires MIN_LEVEL <= p.start <= PAGE_LEVEL && TablesMade(m2.tables, m.tables, p, p.numStart)
    requires GranulesMade(m2.gs, m.gs, rd, p, p.numStart)
    requires m2.realms == m.realms[rd := NewRealm(p)] && m2.recs == m.recs && m2.owner == m.owner
    requires m2.place == PlacesWith(m2.gs, m.place, rd, p)
    ensures m2 == RealmCreate(m, rd, p, paWidth).m
  {
    assert m.tables.Keys <= m.gs.Keys;
    forall t ensures IsRoot(p, t) ==> t in m.gs && t != rd { FreshRealm(m, rd, p, paWidth, t); }
    FreshRealm(m, rd, p, paWidth, rd);
    hide FullInv, RealmCreate, TablesMade, GranulesMade, AddRealm, PlacesWith, ValidRealm, IsRoot;
    MadeGranules(m, m2, rd, p);
    MadeTables(m, m2, rd, p);
    MadePlaces(m, m2, rd, p);
    AddedParts(m, m2, rd, p);
  }

  /** Where tables hang once the root tables of the new realm do. */
  ghost function PlacesWith(gs: map<Addr, Granule>, place: map<Addr, Place>, rd: Addr, p: RealmParams)
    : map<Addr, Place>
  {
    map t | t in gs && (t in place || IsRoot(p, t)) ::
        if IsRoot(p, t) then Place(rd, [RootNumber(p, t)], rd) else place[t]
  }

  lemma AddedParts(m: Machine, m2: Machine, rd: Addr, p: RealmParams)
    requires MIN_LEVEL <= p.start <= PAGE_LEVEL
    requires m2.gs == AddRealm(m, rd, p).gs && m2.tables == AddRealm(m, rd, p).tables
    requires m2.place == AddRealm(m, rd, p).place
    requires m2.realms == m.realms[rd := NewRealm(p)] && m2.recs == m.recs && m2.owner == m.owner
    ensures m2 == AddRealm(m, rd, p)
  {}

  lemma MadeGranules(m: Machine, m2: Machine, rd: Addr, p: RealmParams)
    requires MIN_LEVEL <= p.start <= PAGE_LEVEL && GranulesMade(m2.gs, m.gs, rd, p, p.numStart) && !IsRoot(p, rd)
    ensures m2.gs == AddRealm(m, rd, p).gs
  {}

  lemma MadeTables(m: Machine, m2: Machine, rd: Addr, p: RealmParams)
    requires MIN_LEVEL <= p.start <= PAGE_LEVEL && TablesMade(m2.tables, m.tables, p, p.numStart)
    requires m.tables.Keys <= m.gs.Keys && forall t :: IsRoot(p, t) ==> t in m.gs
    ensures m2.tables == AddRealm(m, rd, p).tables
  {}

  lemma MadePlaces(m: Machine, m2: Machine, rd: Addr, p: RealmParams)
    requires MIN_LEVEL <= p.start <= PAGE_LEVEL && GranulesMade(m2.gs, m.gs, rd, p, p.numStart)
    requires m2.place == PlacesWith(m2.gs, m.place, rd, p)
    ensures m2.place == AddRealm(m, rd, p).place
  {}

  // ------------------------------------------------------------ REALM_DESTROY

  /** total_root_rtt_refcount: locks the tables one after the other. */
  method SumRefcounts(s: Monitor, roots: seq<Addr>) returns (sum: nat)
    requires forall k | 0 <= k < |roots| :: roots[k] in s.gs && roots[k] !in s.locks
    modifies s`locks
    ensures sum == TotalRefcount(s.State(), roots) && s.locks == old(s.locks)
  {
    sum := 0;
    var k := 0;
    assert roots[0..] == roots;
    while k < |roots|
      invariant 0 <= k <= |roots| && s.locks == old(s.locks)
      invariant sum + TotalRefcount(s.State(), roots[k..]) == TotalRefcount(s.State(), roots)
    {
      s.Lock(roots[k]);
      assert roots[k..][1..] == roots[k + 1..];
      sum := sum + s.gs[roots[k]].refcount;
      s.Unlock(roots[k]);
      k := k + 1;
    }
  }

  /** free_sl_rtts: wipes the tables and gives them back. */
  method FreeRoots(s: Monitor, roots: seq<Addr>)
    requires forall k | 0 <= k < |roots| :: roots[k] in s.gs && roots[k] !in s.locks && s.gs[roots[k]].refcount == 0
    modifies s`locks, s`gs, s`tables
    ensures s.locks == old(s.locks) && s.gs.Keys == old(s.gs).Keys
    ensures forall a | a in s.gs :: s.gs[a] == if a in roots then Granule(Delegated, 0, true) else old(s.gs)[a]
    ensures s.tables == map t | t in old(s.tables) && t !in roots :: old(s.tables)[t]
  {
    var k := 0;
    while k < |roots|
      invariant 0 <= k <= |roots| && s.locks == old(s.locks) && s.gs.Keys == old(s.gs).Keys
      invariant forall a | a in s.gs :: s.gs[a] == if a in roots[..k] then Granule(Delegated, 0, true) else old(s.gs)[a]
      invariant s.tables == map t | t in old(s.tables) && t !in roots[..k] :: old(s.tables)[t]
    {
      var g := roots[k];
      assert roots[..k + 1] == roots[..k] + [g];
      s.Lock(g);
      s.tables := s.tables - {g};
      s.gs := s.gs[g := s.gs[g].(zero := true)];
      s.gs := s.gs[g := s.gs[g].(state := Delegated)];
      s.Unlock(g);
      k := k + 1;
    }
    assert roots[..k] == roots;
  }

  method DestroyRealm(s: Monitor, rd: Addr) returns (status: Status)
    requires FullInv(s.State()) && s.locks == {}
    modifies s
    ensures var q := RealmDestroy(old(s.State()), rd); s.State() == q.m && status == q.status
    ensures s.locks == {}
  {
    ghost var m := s.State();
    var ok := s.FindLock(rd, RdState);
    if !ok { return ErrorInput; }
    RdIsRealm(m, rd);
    RootsOfRealm(m, rd);
    hide FullInv, TotalRefcount, DropRealm, ValidRealm;
    if s.gs[rd].refcount != 0 {
      s.Unlock(rd);
      return ErrorRealm;
    }
    var roots := s.realms[rd].roots;
    var sum := SumRefcounts(s, roots);
    if sum != 0 {
      s.Unlock(rd);
      return ErrorRealm;
    }
    TotalZero(m, roots);
    FreeRealm(s, rd);
    s.Unlock(rd);
    return Success;
  }

  method FreeRealm(s: Monitor, rd: Addr)
    requires rd in s.realms && rd in s.gs && s.gs[rd].refcount == 0 && s.locks == {rd} && rd !in s.realms[rd].roots
    requires forall k | 0 <= k < |s.realms[rd].roots| ::
               s.realms[rd].roots[k] in s.gs && s.gs[s.realms[rd].roots[k]].refcount == 0
    modifies s`gs, s`tables, s`realms, s`place, s`locks
    ensures s.State() == DropRealm(old(s.State()), rd) && s.locks == old(s.locks)
  {
    ghost var m := s.State();
    var roots := s.realms[rd].roots;
    FreeRoots(s, roots);
    s.gs := s.gs[rd := s.gs[rd].(state := Delegated, zero := true)];
    s.realms := s.realms - {rd};
    s.place := map t | t in s.place && t !in roots :: s.place[t];
    RealmGone(m, s.State(), rd);
  }

  lemma RootsOfRealm(m: Machine, rd: Addr)
    requires FullInv(m) && Is(m, rd, RdState) && rd in m.realms
    ensures forall k | 0 <= k < |m.realms[rd].roots| :: m.realms[rd].roots[k] in m.gs && m.realms[rd].roots[k] != rd
  {
    RootsAreGranules(m, rd);
    forall k | 0 <= k < |m.realms[rd].roots| ensures m.realms[rd].roots[k] != rd {
      RootsAreTables(m, rd, m.realms[rd].roots[k]);
    }
  }

  lemma RealmGone(m: Machine, m2: Machine, rd: Addr)
    requires rd in m.realms && rd in m.gs && rd !in m.realms[rd].roots
    requires m2.gs.Keys == m.gs.Keys && m2.gs[rd] == Granule(Delegated, 0, true)
    requires forall a | a in m.gs && a != rd ::
               m2.gs[a] == if a in m.realms[rd].roots then Granule(Delegated, 0, true) else m.gs[a]
    requires m2.tables == map t | t in m.tables && t !in m.realms[rd].roots :: m.tables[t]
    requires m2.realms == m.realms - {rd} && m2.recs == m.recs && m2.owner == m.owner
    requires m2.place == map t | t in m.place && t !in m.realms[rd].roots :: m.place[t]
    ensures m2 == DropRealm(m, rd)
  {}
}
