/** REC_CREATE and REC_DESTROY, and what ties RECs to their realm: the reference count of
    the RD and the ownership of auxiliary granules. */
module RecCommands {
  import opened S2Geometry
  import opened S2tte
  import opened RealmGeometry
  import opened Rtt
  import opened RttSteps
  import opened RttInvariants
  import opened RttCommands
  import opened RipasCommands
  import opened RealmCommands

  /** The number of auxiliary granules every REC needs. */
  const NUM_REC_AUX := 16
  /** The largest value of the reference count field of a granule descriptor. */
  const REFCOUNT_MAX := 1023

  function RecsOf(m: Machine, rd: Addr): set<Addr> { set a | a in m.recs && m.recs[a].rd == rd }

  predicate AuxOk(m: Machine, a: Addr)
    requires a in m.recs
  {
    var aux := m.recs[a].aux;
    && (forall k | 0 <= k < |aux| :: Is(m, aux[k], RecAux))
    && (forall j, k | 0 <= j < k < |aux| :: aux[j] != aux[k])
  }

  predicate AuxApart(m: Machine, a: Addr, b: Addr)
    requires a in m.recs && b in m.recs
  {
    a == b || forall x | x in m.recs[a].aux :: x !in m.recs[b].aux
  }

  predicate RdCountOk(m: Machine, rd: Addr) {
    rd in m.gs && m.gs[rd].refcount == |RecsOf(m, rd)| <= REFCOUNT_MAX
  }

  ghost predicate RecsInv(m: Machine) {
    && (forall a {:trigger RequestOk(m, a)} | a in m.recs :: RequestOk(m, a))
    && (forall a {:trigger AuxOk(m, a)} | a in m.recs :: AuxOk(m, a))
    && (forall a, b {:trigger AuxApart(m, a, b)} | a in m.recs && b in m.recs :: AuxApart(m, a, b))
    && (forall rd {:trigger RdCountOk(m, rd)} | rd in m.realms :: RdCountOk(m, rd))
  }

  /** A step that keeps RECs, realm sizes, RDs and auxiliary granules. */
  ghost predicate KeepsRecs(m: Machine, m2: Machine) {
    && m2.recs == m.recs && m2.realms == m.realms
    && (forall a | a in m.gs && (m.gs[a].state.RdState? || m.gs[a].state.RecAux?) ::
          a in m2.gs && m2.gs[a] == m.gs[a])
  }

  lemma KeepsRecsInv(m: Machine, m2: Machine)
    requires Inv(m) && RecsInv(m) && KeepsRecs(m, m2)
    ensures RecsInv(m2)
  {
    forall a | a in m2.recs ensures RequestOk(m2, a) && AuxOk(m2, a) { assert RequestOk(m, a) && AuxOk(m, a); }
    forall a, b | a in m2.recs && b in m2.recs ensures AuxApart(m2, a, b) { assert AuxApart(m, a, b); }
    forall rd | rd in m2.realms ensures RdCountOk(m2, rd) {
      assert RdCountOk(m, rd) && GranuleOk(m, rd);
      assert RecsOf(m2, rd) == RecsOf(m, rd);
    }
  }

  // ------------------------------------------------------------ REC_CREATE

  /** Auxiliary granule `k` can be taken: it is DELEGATED and has not been taken before. */
  predicate Free(m: Machine, aux: seq<Addr>, k: nat)
    requires k < |aux|
  {
    Is(m, aux[k], Delegated) && aux[k] !in aux[..k]
  }

  /** All granules in the list are DELEGATED and different from each other. */
  predicate AllFree(m: Machine, aux: seq<Addr>) {
    (forall k | 0 <= k < |aux| :: Is(m, aux[k], Delegated)) && (forall j, k | 0 <= j < k < |aux| :: aux[j] != aux[k])
  }

  /** The first auxiliary granule, from number `k` on, that cannot be taken. */
  function FirstTaken(m: Machine, aux: seq<Addr>, k: nat): (n: nat)
    requires k <= |aux|
    ensures k <= n <= |aux| && (forall j: nat | k <= j < n :: Free(m, aux, j)) && (n < |aux| ==> !Free(m, aux, n))
    decreases |aux| - k
  {
    if k == |aux| || !Free(m, aux, k) then k else FirstTaken(m, aux, k + 1)
  }

  /** The granules in `aux` have become auxiliary ones that nobody has written to. */
  function TakeGranules(m: Machine, aux: seq<Addr>): Machine {
    m.(gs := map a | a in m.gs :: if a in aux then Granule(RecAux, 0, true) else m.gs[a])
  }

  /** `readOk`: the parameters could be read; `indexOk`: they name the next REC index of the
      realm. If an auxiliary granule cannot be taken, those before it, which are not locked any
      more, are unlocked again: an assertion, with these granules still taken. */
  ghost function RecCreate(m: Machine, rd: Addr, rec: Addr, aux: seq<Addr>, readOk: bool, indexOk: bool): Reply
    requires Inv(m)
  {
    var n := FirstTaken(m, aux, 0);
    if !readOk || |aux| > NUM_REC_AUX then Fail(m, ErrorInput)
    else if 0 < n < |aux| then Reply(TakeGranules(m, aux[..n]), AssertionFailure, 0, 0)
    else if n < |aux| || rec in aux || !Is(m, rec, Delegated) || !Is(m, rd, RdState) then Fail(m, ErrorInput)
    else
      RdIsRealm(m, rd);
      if m.gs[rd].refcount == REFCOUNT_MAX || m.realms[rd].state != New then Fail(m, ErrorRealm)
      else if !indexOk || |aux| != NUM_REC_AUX then Fail(m, ErrorInput)
      else Reply(AddRec(m, rd, rec, aux), Success, 0, 0)
  }

  lemma AllFreeTaken(m: Machine, aux: seq<Addr>)
    ensures FirstTaken(m, aux, 0) == |aux| <==> AllFree(m, aux)
    ensures FirstTaken(m, aux, 0) > 0 <==> aux != [] && Is(m, aux[0], Delegated)
    ensures AllFree(m, aux[..FirstTaken(m, aux, 0)])
  {
    var n := FirstTaken(m, aux, 0);
    forall k: nat | k < n ensures Free(m, aux, k) && Is(m, aux[k], Delegated) {}
    forall j, k | 0 <= j < k < n ensures aux[j] != aux[k] {
      assert Free(m, aux, k);
      assert aux[..k][j] == aux[j];
    }
    if n < |aux| && Is(m, aux[n], Delegated) {
      var j :| 0 <= j < n && aux[..n][j] == aux[n];
      assert aux[j] == aux[n];
    }
    if aux != [] { assert n == 0 ==> !Free(m, aux, 0); }
  }

  /** REC_CREATE runs into the assertion exactly if the parameters can be read and name no more
      than sixteen auxiliary granules, the first of which is DELEGATED, but not all are DELEGATED
      and different from each other. */
  lemma RecCreateAssertion(m: Machine, rd: Addr, rec: Addr, aux: seq<Addr>, readOk: bool, indexOk: bool)
    requires Inv(m)
    ensures RecCreate(m, rd, rec, aux, readOk, indexOk).status.AssertionFailure? <==>
              readOk && 0 < |aux| <= NUM_REC_AUX && Is(m, aux[0], Delegated) && !AllFree(m, aux)
  {
    AllFreeTaken(m, aux);
  }

  lemma TakeGranulesInv(m: Machine, aux: seq<Addr>)
    requires FullInv(m) && RecsInv(m) && AllFree(m, aux)
    ensures FullInv(TakeGranules(m, aux)) && RecsInv(TakeGranules(m, aux))
  {
    var m2 := TakeGranules(m, aux);
    forall a | a in m2.gs ensures GranuleOk(m2, a) { assert GranuleOk(m, a); }
    forall a | a in m.place ensures a in m2.gs && m2.gs[a] == m.gs[a] { assert GranuleOk(m, a); }
    assert GranulesInv(m2);
    KeepsRecsInv(m, m2);
    hide Inv, FlatInv, GranuleOk, GranulesInv, RecsInv;
    OtherGranules(m, m2);
  }

  function AddRec(m: Machine, rd: Addr, rec: Addr, aux: seq<Addr>): Machine {
    m.(gs := map a | a in m.gs ::
         if a in aux then Granule(RecAux, 0, false)
         else if a == rec then Granule(RecState, 0, false)
         else if a == rd then m.gs[a].(refcount := m.gs[a].refcount + 1)
         else m.gs[a],
       recs := m.recs[rec := Rec(rd, aux, RipasRequest(0, 0, 0, Empty, false))])
  }

  ghost predicate CanAddRec(m: Machine, rd: Addr, rec: Addr, aux: seq<Addr>) {
    && FullInv(m) && RecsInv(m) && Is(m, rd, RdState) && rd in m.realms && Is(m, rec, Delegated) && rec !in m.recs
    && rec != rd
    && rec !in aux && (forall k | 0 <= k < |aux| :: Is(m, aux[k], Delegated))
    && (forall j, k | 0 <= j < k < |aux| :: aux[j] != aux[k])
    && m.gs[rd].refcount != REFCOUNT_MAX
  }

  lemma RecCreateStep(m: Machine, rd: Addr, rec: Addr, aux: seq<Addr>, readOk: bool, indexOk: bool)
    requires FullInv(m) && RecsInv(m) && RecCreate(m, rd, rec, aux, readOk, indexOk).status.Success?
    ensures CanAddRec(m, rd, rec, aux) && RecCreate(m, rd, rec, aux, readOk, indexOk).m == AddRec(m, rd, rec, aux)
  {
    AllFreeTaken(m, aux);
    RdIsRealm(m, rd);
    assert GranuleOk(m, rec);
  }

  lemma AddRecInv(m: Machine, rd: Addr, rec: Addr, aux: seq<Addr>)
    requires CanAddRec(m, rd, rec, aux)
    ensures FullInv(AddRec(m, rd, rec, aux))
  {
    var m2 := AddRec(m, rd, rec, aux);
    forall a | a in m2.gs ensures GranuleOk(m2, a) { assert GranuleOk(m, a); }
    forall a | a in m.place ensures a in m2.gs && m2.gs[a] == m.gs[a] { assert GranuleOk(m, a); }
    assert GranulesInv(m2);
    hide Inv, FlatInv, GranuleOk, GranulesInv, RecsInv;
    OtherGranules(m, m2);
  }

  lemma AddRecRecs(m: Machine, rd: Addr, rec: Addr, aux: seq<Addr>)
    requires CanAddRec(m, rd, rec, aux)
    ensures RecsInv(AddRec(m, rd, rec, aux))
  {
    var m2 := AddRec(m, rd, rec, aux);
    hide FullInv;
    forall a | a in m2.recs ensures RequestOk(m2, a) && AuxOk(m2, a) {
      if a != rec { assert RequestOk(m, a) && AuxOk(m, a); }
    }
    forall a, b | a in m2.recs && b in m2.recs ensures AuxApart(m2, a, b) {
      if a != rec && b != rec { assert AuxApart(m, a, b); }
      if a != rec { assert AuxOk(m, a); }
      if b != rec { assert AuxOk(m, b); }
    }
    forall x | x in m2.realms ensures RdCountOk(m2, x) {
      AddRecCount(m, rd, rec, aux, x);
    }
  }

  lemma AddRecCount(m: Machine, rd: Addr, rec: Addr, aux: seq<Addr>, x: Addr)
    requires CanAddRec(m, rd, rec, aux) && x in m.realms
    ensures RdCountOk(AddRec(m, rd, rec, aux), x)
  {
    var m2 := AddRec(m, rd, rec, aux);
    assert RdCountOk(m, x) && GranuleOk(m, x);
    hide FullInv, RecsInv, RdCountOk, GranuleOk;
    assert m2.gs[x].refcount == m.gs[x].refcount + if x == rd then 1 else 0;
    hide CanAddRec;
    if x == rd {
      assert RecsOf(m2, x) == RecsOf(m, x) + {rec};
    } else {
      assert RecsOf(m2, x) == RecsOf(m, x);
    }
  }

  // ------------------------------------------------------------ REC_DESTROY

  ghost function RecDestroy(m: Machine, rec: Addr): Reply
    requires Inv(m)
  {
    if !Is(m, rec, RecState) then Fail(m, ErrorInput)
    else
      assert GranuleOk(m, rec);
      if m.gs[rec].refcount != 0 then Fail(m, ErrorRec)
      else Reply(DropRec(m, rec), Success, 0, 0)
  }

  function DropRec(m: Machine, rec: Addr): Machine
    requires rec in m.recs
  {
    var r := m.recs[rec];
    m.(gs := map a | a in m.gs ::
         if a == rec || a in r.aux then Granule(Delegated, 0, true)
         else if a == r.rd && m.gs[a].refcount > 0 then m.gs[a].(refcount := m.gs[a].refcount - 1)
         else m.gs[a],
       recs := m.recs - {rec})
  }

  ghost predicate CanDropRec(m: Machine, rec: Addr) {
    FullInv(m) && RecsInv(m) && rec in m.recs && Is(m, rec, RecState) && m.recs[rec].rd in m.realms
  }

  lemma RecDestroyStep(m: Machine, rec: Addr)
    requires FullInv(m) && RecsInv(m) && RecDestroy(m, rec).status.Success?
    ensures CanDropRec(m, rec) && RecDestroy(m, rec).m == DropRec(m, rec)
  {
    assert GranuleOk(m, rec);
    assert m.recs[rec].rd in m.realms;
  }

  lemma AuxState(m: Machine, rec: Addr, a: Addr)
    requires CanDropRec(m, rec)
    ensures a in m.recs[rec].aux ==> Is(m, a, RecAux) && a != m.recs[rec].rd
    ensures Is(m, m.recs[rec].rd, RdState)
  {
    assert AuxOk(m, rec) && RequestOk(m, rec);
    assert GranuleOk(m, m.recs[rec].rd);
  }

  lemma DropRecInv(m: Machine, rec: Addr)
    requires CanDropRec(m, rec)
    ensures FullInv(DropRec(m, rec))
  {
    var m2 := DropRec(m, rec);
    forall a | a in m2.gs ensures GranuleOk(m2, a) {
      assert GranuleOk(m, a);
      AuxState(m, rec, a);
    }
    forall a | a in m.place ensures a in m2.gs && m2.gs[a] == m.gs[a] {
      assert GranuleOk(m, a);
      AuxState(m, rec, a);
    }
    forall a | a in m.gs ensures m.gs[a].state.DataState? <==> m2.gs[a].state.DataState? { AuxState(m, rec, a); }
    assert GranulesInv(m2);
    hide Inv, FlatInv, GranuleOk, GranulesInv, RecsInv;
    OtherGranules(m, m2);
  }

  lemma DropRecRecs(m: Machine, rec: Addr)
    requires CanDropRec(m, rec)
    ensures RecsInv(DropRec(m, rec))
  {
    var m2 := DropRec(m, rec);
    forall a | a in m2.recs ensures RequestOk(m2, a) && AuxOk(m2, a) {
      assert RequestOk(m, a) && AuxOk(m, a) && AuxApart(m, rec, a) && AuxOk(m, rec);
      AuxState(m, rec, a);
    }
    hide FullInv;
    forall a, b | a in m2.recs && b in m2.recs ensures AuxApart(m2, a, b) { assert AuxApart(m, a, b); }
    forall x | x in m2.realms ensures RdCountOk(m2, x) { DropRecCount(m, rec, x); }
  }

  /** The count of the RD falls with the number of RECs, and was not zero before. */
  lemma DropRecCount(m: Machine, rec: Addr, x: Addr)
    requires CanDropRec(m, rec) && x in m.realms
    ensures RdCountOk(DropRec(m, rec), x)
    ensures x == m.recs[rec].rd ==> x in m.gs && m.gs[x].refcount > 0
  {
    var m2 := DropRec(m, rec);
    assert RdCountOk(m, x) && GranuleOk(m, x);
    AuxState(m, rec, x);
    hide FullInv;
    var rd := m.recs[rec].rd;
    assert rec in RecsOf(m, rd);
    if x == rd {
      assert RecsOf(m2, x) == RecsOf(m, x) - {rec};
    } else {
      assert RecsOf(m2, x) == RecsOf(m, x);
    }
  }

  /** REALM_DESTROY's test of the RD count rules out RECs of the realm. */
  lemma NoRecs(m: Machine, rd: Addr)
    requires FullInv(m) && RecsInv(m) && rd in m.realms && rd in m.gs && m.gs[rd].refcount == 0
    ensures forall a {:trigger m.recs[a]} | a in m.recs :: m.recs[a].rd != rd
  {
    assert RdCountOk(m, rd);
    assert RecsOf(m, rd) == {};
    forall a | a in m.recs ensures m.recs[a].rd != rd {
      assert a !in RecsOf(m, rd);
    }
  }
}
