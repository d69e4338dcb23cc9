/** Delegation, REC_CREATE and REC_DESTROY, and the two ends of a RIPAS change, as carried
    out on granule descriptors and RECs. */
module RmmRecs {
  import opened S2Geometry
  import opened S2tte
  import opened RealmGeometry
  import opened Rtt
  import opened RttSteps
  import opened RttInvariants
  import opened RttCommands
  import opened RipasCommands
  import opened RealmCommands
  import opened RecCommands
  import opened Rmm
  import opened Runs

  method Delegate(s: Monitor, a: Addr, el3Ok: bool) returns (status: Status)
    requires s.locks == {}
    modifies s`gs, s`locks
    ensures var q := GranuleDelegate(old(s.State()), a, el3Ok); s.State() == q.m && status == q.status
    ensures s.locks == {}
  {
    var ok := s.FindLock(a, NsState);
    if !ok { return ErrorInput; }
    if !el3Ok {
      s.Unlock(a);
      return ErrorInput;
    }
    s.gs := s.gs[a := s.gs[a].(state := Delegated)];
    s.gs := s.gs[a := s.gs[a].(zero := true)];
    s.Unlock(a);
    return Success;
  }

  /** EL3 never refuses to take back a granule of the RMM. */
  method Undelegate(s: Monitor, a: Addr) returns (status: Status)
    requires s.locks == {}
    modifies s`gs, s`locks
    ensures var q := GranuleUndelegate(old(s.State()), a); s.State() == q.m && status == q.status
    ensures s.locks == {}
  {
    var ok := s.FindLock(a, Delegated);
    if !ok { return ErrorInput; }
    s.gs := s.gs[a := s.gs[a].(state := NsState, zero := false)];
    s.Unlock(a);
    return Success;
  }

  // ------------------------------------------------------------ REC_CREATE

  /** The auxiliary granules `aux[..n]` have been taken, nothing else has changed. */
  ghost predicate Taken(gs: map<Addr, Granule>, was: map<Addr, Granule>, aux: seq<Addr>, n: nat)
    requires n <= |aux|
  {
    && gs.Keys == was.Keys
    && (forall a | a in gs && a in aux[..n] ::
          was[a] == Granule(Delegated, 0, true) && gs[a] == Granule(RecAux, 0, true))
    && (forall a | a in gs && a !in aux[..n] :: gs[a] == was[a])
    && (forall k | 0 <= k < n :: aux[k] in gs)
  }

  /** Takes the auxiliary granules. Where one cannot be taken, the code unlocks those before it
      a second time, and the first of these unlocks meets the assertion that the lock is held. */
  method TakeAux(s: Monitor, aux: seq<Addr>) returns (status: Status)
    requires Inv(s.State()) && s.locks == {}
    modifies s`gs, s`locks
    ensures s.locks == {}
    ensures var n := FirstTaken(old(s.State()), aux, 0);
            && Taken(s.gs, old(s.gs), aux, n) && AllFree(old(s.State()), aux[..n])
            && status == if n == |aux| then Success else if n == 0 then ErrorInput else AssertionFailure
  {
    ghost var m := s.State();
    NoneTaken(s.gs, aux);
    hide *;
    s.StateIs();
    var i := 0;
    while i < |aux|
      invariant 0 <= i <= |aux| && s.locks == {} && Taken(s.gs, m.gs, aux, i)
      invariant s.State() == Machine(s.gs, s.tables, s.realms, s.recs, s.place, s.owner)
      invariant AllFree(m, aux[..i]) && FirstTaken(m, aux, i) == FirstTaken(m, aux, 0)
    {
      var a := aux[i];
      var locked := s.FindLock(a, Delegated);
      s.StateIs();
      TakeOne(s.State(), m, aux, i);
      if !locked {
        if i > 0 { return AssertionFailure; }
        return ErrorInput;
      }
      s.gs := s.gs[a := s.gs[a].(state := RecAux)];
      s.Unlock(a);
      s.StateIs();
      i := i + 1;
    }
    AllTaken(m, aux);
    status := Success;
  }

  lemma AllTaken(m: Machine, aux: seq<Addr>)
    ensures FirstTaken(m, aux, |aux|) == |aux|
  {}

  lemma NoneTaken(gs: map<Addr, Granule>, aux: seq<Addr>)
    ensures Taken(gs, gs, aux, 0)
    ensures forall m: Machine :: AllFree(m, aux[..0])
  {}

  /** The next granule can be taken exactly if it is DELEGATED and not taken already. */
  lemma TakeOne(m2: Machine, m: Machine, aux: seq<Addr>, i: nat)
    requires Inv(m) && i < |aux| && Taken(m2.gs, m.gs, aux, i) && AllFree(m, aux[..i])
    ensures !Is(m2, aux[i], Delegated) ==> FirstTaken(m, aux, i) == i
    ensures Is(m2, aux[i], Delegated) ==>
              && aux[i] in m2.gs && AllFree(m, aux[..i + 1]) && FirstTaken(m, aux, i) == FirstTaken(m, aux, i + 1)
              && Taken(m2.gs[aux[i] := m2.gs[aux[i]].(state := RecAux)], m.gs, aux, i + 1)
  {
    var a := aux[i];
    assert aux[..i + 1] == aux[..i] + [a];
    if Is(m2, a, Delegated) {
      assert a !in aux[..i];
      assert GranuleOk(m, a);
      assert Free(m, aux, i);
    } else {
      assert !Free(m, aux, i);
    }
  }

  /** The granules were not written to: they are given back as they are. */
  method ReleaseAux(s: Monitor, aux: seq<Addr>, n: nat, ghost m: Machine)
    requires n <= |aux| && s.locks == {} && Taken(s.gs, m.gs, aux, n) && AllFree(m, aux[..n])
    modifies s`gs, s`locks
    ensures s.locks == {} && s.gs == m.gs
  {
    StartGiving(s.gs, m, aux, n);
    hide *;
    var i := 0;
    while i < n
      invariant 0 <= i <= n && s.locks == {} && StillTaken(s.gs, m.gs, aux[i..n])
    {
      var a := aux[i];
      GivenBack(s.gs, m.gs, aux, i, n);
      s.Lock(a);
      s.gs := s.gs[a := s.gs[a].(state := Delegated)];
      s.Unlock(a);
      i := i + 1;
    }
    AllGiven(s.gs, m.gs, aux[i..n]);
  }

  lemma StartGiving(gs: map<Addr, Granule>, m: Machine, aux: seq<Addr>, n: nat)
    requires n <= |aux| && Taken(gs, m.gs, aux, n) && AllFree(m, aux[..n])
    ensures StillTaken(gs, m.gs, aux[0..n]) && forall j, k | 0 <= j < k < n :: aux[j] != aux[k]
  {}

  lemma AllGiven(gs: map<Addr, Granule>, was: map<Addr, Granule>, left: seq<Addr>)
    requires StillTaken(gs, was, left) && left == []
    ensures gs == was
  {}

  /** Exactly the granules in `left` are still taken. */
  ghost predicate StillTaken(gs: map<Addr, Granule>, was: map<Addr, Granule>, left: seq<Addr>) {
    && gs.Keys == was.Keys && (forall k | 0 <= k < |left| :: left[k] in gs)
    && (forall a | a in gs && a in left :: was[a] == Granule(Delegated, 0, true) && gs[a] == Granule(RecAux, 0, true))
    && (forall a | a in gs && a !in left :: gs[a] == was[a])
  }

  lemma GivenBack(gs: map<Addr, Granule>, was: map<Addr, Granule>, aux: seq<Addr>, i: nat, n: nat)
    requires i < n <= |aux| && StillTaken(gs, was, aux[i..n]) && forall j, k | 0 <= j < k < n :: aux[j] != aux[k]
    ensures aux[i] in gs && StillTaken(gs[aux[i] := gs[aux[i]].(state := Delegated)], was, aux[i + 1..n])
  {
    var a := aux[i];
    assert aux[i..n] == [a] + aux[i + 1..n];
    assert aux[i..n][0] == a;
  }

  method CreateRec(s: Monitor, rd: Addr, rec: Addr, aux: seq<Addr>, readOk: bool, indexOk: bool)
    returns (status: Status)
    requires FullInv(s.State()) && RecsInv(s.State()) && s.locks == {}
    modifies s
    ensures var q := RecCreate(old(s.State()), rd, rec, aux, readOk, indexOk); s.State() == q.m && status == q.status
    ensures s.locks == {}
  {
    ghost var m := s.State();
    RecCreateCases(m, rd, rec, aux, readOk, indexOk);
    hide Inv, FlatInv, RecsInv, RecCreate, AddRec, FirstTaken, TakeGranules, Taken, AllFree;
    if !readOk || |aux| > NUM_REC_AUX { return ErrorInput; }
    status := TakeAux(s, aux);
    if !status.Success? {
      SomeTaken(m, s.State(), aux, FirstTaken(m, aux, 0));
      return;
    }
    TakenStates(m, s.State(), aux, rec, rd);
    var ok := s.FindLockTwo(rec, Delegated, rd, RdState);
    if !ok {
      ReleaseAux(s, aux, |aux|, m);
      return ErrorInput;
    }
    if s.gs[rd].refcount == REFCOUNT_MAX || s.realms[rd].state != New {
      status := ErrorRealm;
    } else if !indexOk || |aux| != NUM_REC_AUX {
      status := ErrorInput;
    } else {
      FillRec(s, m, rd, rec, aux);
      s.Unlock(rd);
      s.Unlock(rec);
      return Success;
    }
    s.Unlock(rd);
    s.Unlock(rec);
    ReleaseAux(s, aux, |aux|, m);
  }

  method FillRec(s: Monitor, ghost m: Machine, rd: Addr, rec: Addr, aux: seq<Addr>)
    requires s.State() == m.(gs := s.gs) && Taken(s.gs, m.gs, aux, |aux|) && rec !in aux && rd !in aux && rec != rd
    requires rec in m.gs && m.gs[rec] == Granule(Delegated, 0, true) && rd in m.gs && rd in s.locks && rec in s.locks
    requires m.gs[rd].refcount < REFCOUNT_MAX
    modifies s`gs, s`recs
    ensures s.State() == AddRec(m, rd, rec, aux)
  {
    assert aux[..|aux|] == aux;
    s.recs := s.recs[rec := Rec(rd, aux, RipasRequest(0, 0, 0, Empty, false))];
    s.RefcountInc(rd, 1);
    WriteAux(s, aux);
    s.gs := s.gs[rec := s.gs[rec].(state := RecState, zero := false)];
    RecFilled(m, s.State(), rd, rec, aux);
  }

  /** The auxiliary granules are initialised. */
  method WriteAux(s: Monitor, aux: seq<Addr>)
    modifies s`gs
    ensures s.gs.Keys == old(s.gs).Keys
    ensures forall a | a in s.gs :: s.gs[a] == if a in aux then old(s.gs)[a].(zero := false) else old(s.gs)[a]
  {
    s.gs := map a | a in s.gs :: if a in aux then s.gs[a].(zero := false) else s.gs[a];
  }

  lemma RecFilled(m: Machine, m2: Machine, rd: Addr, rec: Addr, aux: seq<Addr>)
    requires rec !in aux && rd !in aux && rec != rd && rec in m.gs && rd in m.gs && m2.gs.Keys == m.gs.Keys
    requires m2 == m.(gs := m2.gs, recs := m.recs[rec := Rec(rd, aux, RipasRequest(0, 0, 0, Empty, false))])
    requires m2.gs[rec] == Granule(RecState, 0, false) && m2.gs[rd] == m.gs[rd].(refcount := m.gs[rd].refcount + 1)
    requires forall a | a in m.gs && a != rec && a != rd ::
               m2.gs[a] == if a in aux then Granule(RecAux, 0, false) else m.gs[a]
    ensures m2 == AddRec(m, rd, rec, aux)
  {}

  lemma TakenStates(m: Machine, m2: Machine, aux: seq<Addr>, rec: Addr, rd: Addr)
    requires Inv(m) && Taken(m2.gs, m.gs, aux, |aux|)
    ensures aux[..|aux|] == aux
    ensures Is(m2, rec, Delegated) <==> Is(m, rec, Delegated) && rec !in aux
    ensures Is(m2, rd, RdState) <==> Is(m, rd, RdState)
    ensures Is(m, rd, RdState) ==> rd in m.realms && rd !in aux && m2.gs[rd] == m.gs[rd]
    ensures Is(m, rec, Delegated) ==> m.gs[rec] == Granule(Delegated, 0, true)
  {
    assert aux[..|aux|] == aux;
    if Is(m, rd, RdState) { RdIsRealm(m, rd); }
    if Is(m, rec, Delegated) { assert GranuleOk(m, rec); }
  }

  lemma SomeTaken(m: Machine, m2: Machine, aux: seq<Addr>, n: nat)
    requires n <= |aux| && m2 == m.(gs := m2.gs) && Taken(m2.gs, m.gs, aux, n)
    ensures m2 == TakeGranules(m, aux[..n]) && (n == 0 ==> m2 == m)
  {}

  lemma RecCreateCases(m: Machine, rd: Addr, rec: Addr, aux: seq<Addr>, readOk: bool, indexOk: bool)
    requires FullInv(m) && RecsInv(m)
    ensures Inv(m)
    ensures var n := FirstTaken(m, aux, 0);
            RecCreate(m, rd, rec, aux, readOk, indexOk) ==
              if !readOk || |aux| > NUM_REC_AUX then Fail(m, ErrorInput)
              else if 0 < n < |aux| then Reply(TakeGranules(m, aux[..n]), AssertionFailure, 0, 0)
              else if n < |aux| || rec in aux || !Is(m, rec, Delegated) || !Is(m, rd, RdState) then Fail(m, ErrorInput)
              else if m.gs[rd].refcount == REFCOUNT_MAX || (rd in m.realms && m.realms[rd].state != New)
                then Fail(m, ErrorRealm)
              else if !indexOk || |aux| != NUM_REC_AUX then Fail(m, ErrorInput)
              else Reply(AddRec(m, rd, rec, aux), Success, 0, 0)
    ensures RecCreate(m, rd, rec, aux, readOk, indexOk).status.Success? ==> m.gs[rd].refcount <= REFCOUNT_MAX
  {
    hide FirstTaken, AddRec, TakeGranules;
    if Is(m, rd, RdState) {
      RdIsRealm(m, rd);
      assert RdCountOk(m, rd);
    }
  }

  // ------------------------------------------------------------ REC_DESTROY

  /** free_rec_aux_granules with scrubbing. */
  method ScrubAux(s: Monitor, aux: seq<Addr>)
    requires forall k | 0 <= k < |aux| :: aux[k] in s.gs && aux[k] !in s.locks && s.gs[aux[k]].refcount == 0
    modifies s`gs, s`locks
    ensures s.locks == old(s.locks) && s.gs.Keys == old(s.gs).Keys
    ensures forall a | a in s.gs :: s.gs[a] == if a in aux then Granule(Delegated, 0, true) else old(s.gs)[a]
  {
    var k := 0;
    while k < |aux|
      invariant 0 <= k <= |aux| && s.locks == old(s.locks) && s.gs.Keys == old(s.gs).Keys
      invariant forall a | a in s.gs :: s.gs[a] == if a in aux[..k] then Granule(Delegated, 0, true) else old(s.gs)[a]
    {
      var g := aux[k];
      assert aux[..k + 1] == aux[..k] + [g];
      s.Lock(g);
      s.gs := s.gs[g := s.gs[g].(zero := true)];
      s.gs := s.gs[g := s.gs[g].(state := Delegated)];
      s.Unlock(g);
      k := k + 1;
    }
    assert aux[..k] == aux;
  }

  method DestroyRec(s: Monitor, rec: Addr) returns (status: Status)
    requires FullInv(s.State()) && RecsInv(s.State()) && s.locks == {}
    modifies s
    ensures var q := RecDestroy(old(s.State()), rec); s.State() == q.m && status == q.status
    ensures s.locks == {}
  {
    ghost var m := s.State();
    hide FullInv, RecsInv, DropRec;
    var ok := s.FindLock(rec, RecState);
    if !ok { return ErrorInput; }
    RecReady(m, rec);
    ClearRec(s, rec);
    return Success;
  }

  method ClearRec(s: Monitor, rec: Addr)
    requires rec in s.recs && s.locks == {rec} && rec in s.gs && s.gs[rec].refcount == 0
    requires var rd, aux := s.recs[rec].rd, s.recs[rec].aux;
             && rd in s.gs && s.gs[rd].refcount > 0 && rd != rec && rd !in aux && rec !in aux
             && forall k | 0 <= k < |aux| :: aux[k] in s.gs && s.gs[aux[k]].refcount == 0
    modifies s`gs, s`recs, s`locks
    ensures s.State() == DropRec(old(s.State()), rec) && s.locks == {}
  {
    ghost var m := s.State();
    var rd, aux := s.recs[rec].rd, s.recs[rec].aux;
    ScrubAux(s, aux);
    var gs := s.gs[rec := s.gs[rec].(state := Delegated, zero := true)];
    s.Unlock(rec);
    s.gs := gs[rd := gs[rd].(refcount := gs[rd].refcount - 1)];
    s.recs := s.recs - {rec};
    RecGone(m, s.State(), rec);
  }

  /** What REC_DESTROY finds: auxiliary granules in their state, an RD with a reference. */
  lemma RecReady(m: Machine, rec: Addr)
    requires FullInv(m) && RecsInv(m) && Is(m, rec, RecState)
    ensures rec in m.recs && m.gs[rec].refcount == 0
    ensures RecDestroy(m, rec) == Reply(DropRec(m, rec), Success, 0, 0)
    ensures var rd, aux := m.recs[rec].rd, m.recs[rec].aux;
            && rd in m.gs && m.gs[rd].refcount > 0 && rd != rec && rd !in aux && rec !in aux
            && forall k | 0 <= k < |aux| :: aux[k] in m.gs && m.gs[aux[k]].refcount == 0
  {
    assert GranuleOk(m, rec);
    RecDestroyStep(m, rec);
    var rd, aux := m.recs[rec].rd, m.recs[rec].aux;
    DropRecCount(m, rec, rd);
    AuxState(m, rec, rd);
    AuxState(m, rec, rec);
    forall k | 0 <= k < |aux| ensures aux[k] in m.gs && m.gs[aux[k]].refcount == 0 {
      AuxState(m, rec, aux[k]);
      assert GranuleOk(m, aux[k]);
    }
  }

  lemma RecGone(m: Machine, m2: Machine, rec: Addr)
    requires rec in m.recs && rec in m.gs && m.recs[rec].rd in m.gs
    requires var rd, aux := m.recs[rec].rd, m.recs[rec].aux;
             && m.gs[rd].refcount > 0 && rd != rec && rd !in aux && rec !in aux
             && m2 == m.(gs := m2.gs, recs := m.recs - {rec}) && m2.gs.Keys == m.gs.Keys
             && m2.gs[rec] == m.gs[rec].(state := Delegated, zero := true) && m.gs[rec].refcount == 0
             && m2.gs[rd] == m.gs[rd].(refcount := m.gs[rd].refcount - 1)
             && forall a | a in m.gs && a != rec && a != rd ::
                m2.gs[a] == if a in aux then Granule(Delegated, 0, true) else m.gs[a]
    ensures m2 == DropRec(m, rec)
  {}

  // ------------------------------------------------------------ RIPAS requests

  /** RSI_IPA_STATE_SET of the REC that runs: granted exactly for a page-aligned, non-empty
      range inside the PAR and a RIPAS other than DESTROYED. The new request is well formed, with
      nothing served yet. */
  method RequestRipas(s: Monitor, rec: Addr, base: Addr, top: Addr, ripas: Ripas, changeDestroyed: bool)
    returns (status: Status)
    requires Good(s.State()) && rec in s.recs
    modifies s`recs
    ensures rec in s.recs && s.recs[rec].rd in s.realms
    ensures status.Success? <==>
              && !ripas.Destroyed? && base % PAGE == 0 && top % PAGE == 0
              && base < top <= ParSize(s.realms[s.recs[rec].rd].ipaBits)
    ensures status.Success? ==>
              RequestOk(s.State(), rec) && s.recs[rec].request == RipasRequest(base, top, base, ripas, changeDestroyed)
    ensures !status.Success? ==> status == ErrorInput && s.recs == old(s.recs)
    ensures s.recs == old(s.recs)[rec := old(s.recs[rec]).(request := s.recs[rec].request)]
    ensures var q := IpaStateSet(old(s.State()), rec, base, top, ripas, changeDestroyed);
            s.State() == q.m && status == q.status
    ensures Good(s.State())
  {
    IpaStateSetGood(s.State(), rec, base, top, ripas, changeDestroyed);
    assert s.State().recs[rec].rd in s.realms;
    hide FullInv, RecsInv, ParSize;
    assert s.recs == s.recs[rec := s.recs[rec]];
    if ripas.Destroyed? || base % PAGE != 0 || top % PAGE != 0 { return ErrorInput; }
    if top <= base || top > ParSize(s.realms[s.recs[rec].rd].ipaBits) { return ErrorInput; }
    s.recs := s.recs[rec := s.recs[rec].(request := RipasRequest(base, top, base, ripas, changeDestroyed))];
    return Success;
  }

  /** complete_set_ripas: the realm learns an address within its request up to which the host
      got, and of a rejection only if a change to RAM was left incomplete; no request is left. */
  method EndRequest(s: Monitor, rec: Addr, reject: bool) returns (reached: Addr, rejected: bool)
    requires Good(s.State()) && rec in s.recs
    modifies s`recs
    ensures rec in s.recs && s.recs[rec].request.base == s.recs[rec].request.top
    ensures var q := old(s.recs[rec].request);
            && (q.base != q.top ==> reached == q.addr && q.base <= reached <= q.top)
            && (rejected <==> q.base != q.top && q.ripas.Ram? && reached < q.top && reject)
            && (q.base == q.top ==> s.recs == old(s.recs))
    ensures s.recs == old(s.recs)[rec := old(s.recs[rec]).(request := s.recs[rec].request)]
    ensures var q := CompleteRipas(old(s.State()), rec, reject);
            s.State() == q.0.m && reached == q.0.out && rejected == q.1
    ensures Good(s.State())
  {
    CompleteGood(s.State(), rec, reject);
    assert RequestOk(s.State(), rec);
    hide FullInv, RecsInv, ParSize;
    assert s.recs == s.recs[rec := s.recs[rec]];
    var q := s.recs[rec].request;
    if q.base == q.top { return 0, false; }
    rejected := q.ripas.Ram? && q.addr != q.top && reject;
    s.recs := s.recs[rec := s.recs[rec].(request := q.(base := 0, top := 0))];
    reached := q.addr;
  }
}
