/** Runs: any sequence of commands from a machine without realms. What holds in every
    reachable state follows from the invariant that every command keeps. */
module Runs {
  import opened S2Geometry
  import opened S2tte
  import opened RealmGeometry
  import opened Rtt
  import opened RttSteps
  import opened RttFlat
  import opened RttInvariants
  import opened RttCommands
  import opened DataCommands
  import opened RipasCommands
  import opened RealmCommands
  import opened RecCommands
  import opened RttForest

  /** Commands on the tables and mappings of a realm. */
  datatype TableCommand =
    | RttCreateCmd(rd: Addr, rtt: Addr, ipa: Addr, level: int)
    | RttFoldCmd(rd: Addr, ipa: Addr, level: int)
    | RttDestroyCmd(rd: Addr, ipa: Addr, level: int)
    | MapNsCmd(rd: Addr, ipa: Addr, level: int, desc: HostDesc)
    | UnmapNsCmd(rd: Addr, ipa: Addr, level: int)
    | DataCreateCmd(rd: Addr, data: Addr, ipa: Addr, src: DataSource)
    | DataDestroyCmd(rd: Addr, ipa: Addr)
    | InitRipasCmd(rd: Addr, base: Addr, top: Addr)

  /** Commands on granules, realms and RECs, and the realm's PSCI_SYSTEM_OFF. */
  datatype RealmCommand =
    | DelegateCmd(a: Addr, el3Ok: bool)
    | UndelegateCmd(a: Addr)
    | RealmCreateCmd(rd: Addr, params: RealmParams, paWidth: nat)
    | RealmActivateCmd(rd: Addr)
    | RealmDestroyCmd(rd: Addr)
    | RecCreateCmd(rd: Addr, rec: Addr, aux: seq<Addr>, readOk: bool, indexOk: bool)
    | RecDestroyCmd(rec: Addr)
    | SystemOffCall(rec: Addr)

  /** The RIPAS protocol: the realm's request, the host's service and the completion by REC_ENTER. */
  datatype RequestCommand =
    | IpaStateSetCall(rec: Addr, base: Addr, top: Addr, ripas: Ripas, changeDestroyed: bool)
    | SetRipasCmd(rd: Addr, rec: Addr, base: Addr, top: Addr)
    | CompleteRipasStep(rec: Addr, reject: bool)

  datatype Command = OnTables(t: TableCommand) | OnRealms(r: RealmCommand) | OnRequests(q: RequestCommand)

  ghost predicate Good(m: Machine) { FullInv(m) && RecsInv(m) }

  ghost function ExecTables(m: Machine, c: TableCommand): Reply
    requires Good(m)
  {
    match c
    case RttCreateCmd(rd, rtt, ipa, level) => RttCreate(m, rd, rtt, ipa, level)
    case RttFoldCmd(rd, ipa, level) => RttFold(m, rd, ipa, level)
    case RttDestroyCmd(rd, ipa, level) => RttDestroy(m, rd, ipa, level)
    case MapNsCmd(rd, ipa, level, d) => MapNs(m, rd, ipa, level, d)
    case UnmapNsCmd(rd, ipa, level) => UnmapNs(m, rd, ipa, level)
    case DataCreateCmd(rd, data, ipa, src) => DataCreate(m, rd, data, ipa, src)
    case DataDestroyCmd(rd, ipa) => DataDestroy(m, rd, ipa)
    case InitRipasCmd(rd, base, top) => InitRipas(m, rd, base, top)
  }

  ghost function ExecRealms(m: Machine, c: RealmCommand): Reply
    requires Good(m)
  {
    match c
    case DelegateCmd(a, ok) => GranuleDelegate(m, a, ok)
    case UndelegateCmd(a) => GranuleUndelegate(m, a)
    case RealmCreateCmd(rd, p, w) => RealmCreate(m, rd, p, w)
    case RealmActivateCmd(rd) => RealmActivate(m, rd)
    case RealmDestroyCmd(rd) => RealmDestroy(m, rd)
    case RecCreateCmd(rd, rec, aux, readOk, indexOk) => RecCreate(m, rd, rec, aux, readOk, indexOk)
    case RecDestroyCmd(rec) => RecDestroy(m, rec)
    case SystemOffCall(rec) =>
      if rec in m.recs then
        assert m.recs[rec].rd in m.realms;
        Reply(SetRealmState(m, m.recs[rec].rd, SystemOff), Success, 0, 0)
      else Fail(m, ErrorInput)
  }

  ghost function ExecRequests(m: Machine, c: RequestCommand): Reply
    requires Good(m)
  {
    match c
    case SetRipasCmd(rd, rec, base, top) =>
      assert rec in m.recs ==> RequestOk(m, rec);
      SetRipas(m, rd, rec, base, top)
    case IpaStateSetCall(rec, base, top, r, cd) =>
      if rec in m.recs then IpaStateSet(m, rec, base, top, r, cd) else Fail(m, ErrorInput)
    case CompleteRipasStep(rec, reject) =>
      if rec in m.recs then CompleteRipas(m, rec, reject).0 else Fail(m, ErrorInput)
  }

  /** Calls of realms apply to existing RECs only. */
  ghost function Exec(m: Machine, c: Command): Reply
    requires Good(m)
  {
    match c
    case OnTables(t) => ExecTables(m, t)
    case OnRealms(r) => ExecRealms(m, r)
    case OnRequests(q) => ExecRequests(m, q)
  }

  // ------------------------------------------------------------ what each command keeps

  lemma SetKeeps(m: Machine, t: Addr, i: nat, e: Entry)
    requires AtEntry(m, t, i)
    ensures KeepsRecs(m, SetEntry(m, t, i, e))
  {
    assert GranuleOk(m, t);
  }

  lemma AddKeeps(m: Machine, t: Addr, i: nat, n: Addr, content: seq<Entry>)
    requires CanAdd(m, t, i, n, content)
    ensures KeepsRecs(m, AddTable(m, t, i, n, content))
  {
    assert GranuleOk(m, t);
  }

  lemma DropKeeps(m: Machine, t: Addr, i: nat, n: Addr, e: Entry)
    requires CanDrop(m, t, i, n, e)
    ensures KeepsRecs(m, DropTable(m, t, i, n, e))
  {
    EntryFacts(m, t, i);
  }

  lemma MapKeeps(m: Machine, rd: Addr, ipa: Addr, w: WalkResult, r: Ripas, data: Addr)
    requires CanMap(m, rd, ipa, w, r, data)
    ensures KeepsRecs(m, MapData(m, w, rd, ipa, r, data))
  {
    assert GranuleOk(m, w.table);
    hide Inv, FlatInv;
  }

  lemma UnmapKeeps(m: Machine, rd: Addr, ipa: Addr, w: WalkResult, r: Ripas)
    requires CanUnmap(m, rd, ipa, w)
    ensures m.tables[w.table][w.idx].pa in m.gs && KeepsRecs(m, UnmapData(m, w, r))
  {
    UnmapTarget(m, rd, ipa, w);
    assert GranuleOk(m, w.table);
    hide Inv, FlatInv;
  }

  lemma RttCreateGood(m: Machine, rd: Addr, rtt: Addr, ipa: Addr, level: int)
    requires Good(m)
    ensures Good(RttCreate(m, rd, rtt, ipa, level).m) && RttCreate(m, rd, rtt, ipa, level).m.recs == m.recs
  {
    RttCreateInv(m, rd, rtt, ipa, level);
    if RttCreate(m, rd, rtt, ipa, level).status.Success? {
      RttCreateStep(m, rd, rtt, ipa, level);
      hide RttCreate, Inv, FlatInv, RecsInv, CanAdd;
      var w := RealmWalk(m.tables, m.realms[rd], level - 1, ipa);
      AddKeeps(m, w.table, w.idx, rtt, Unfold(m.tables[w.table][w.idx], level));
      KeepsRecsInv(m, RttCreate(m, rd, rtt, ipa, level).m);
    }
  }

  lemma RttFoldGood(m: Machine, rd: Addr, ipa: Addr, level: int)
    requires Good(m)
    ensures Good(RttFold(m, rd, ipa, level).m) && RttFold(m, rd, ipa, level).m.recs == m.recs
  {
    RttFoldInv(m, rd, ipa, level);
    if RttFold(m, rd, ipa, level).status.Success? {
      RttFoldStep(m, rd, ipa, level);
      hide RttFold, Inv, FlatInv, RecsInv, CanDrop, FoldEntry, AtTable;
      var w := RealmWalk(m.tables, m.realms[rd], level - 1, ipa);
      var n := RttFold(m, rd, ipa, level).out;
      DropKeeps(m, w.table, w.idx, n, FoldEntry(m.realms[rd].fmt, m.tables[n], level).value);
      KeepsRecsInv(m, RttFold(m, rd, ipa, level).m);
    }
  }

  lemma RttDestroyGood(m: Machine, rd: Addr, ipa: Addr, level: int)
    requires Good(m)
    ensures Good(RttDestroy(m, rd, ipa, level).m) && RttDestroy(m, rd, ipa, level).m.recs == m.recs
  {
    RttDestroyInv(m, rd, ipa, level);
    if RttDestroy(m, rd, ipa, level).status.Success? {
      RttDestroyStep(m, rd, ipa, level);
      hide RttDestroy, Inv, FlatInv, RecsInv, CanDrop, AtTable;
      var w := RealmWalk(m.tables, m.realms[rd], level - 1, ipa);
      DropKeeps(m, w.table, w.idx, RttDestroy(m, rd, ipa, level).out, DestroyedLeaf(m.realms[rd], ipa));
      KeepsRecsInv(m, RttDestroy(m, rd, ipa, level).m);
    }
  }

  lemma MapNsGood(m: Machine, rd: Addr, ipa: Addr, level: int, d: HostDesc)
    requires Good(m)
    ensures Good(MapNs(m, rd, ipa, level, d).m) && MapNs(m, rd, ipa, level, d).m.recs == m.recs
  {
    NsInv(m, rd, ipa, level, d);
    if MapNs(m, rd, ipa, level, d).status.Success? {
      MapNsStep(m, rd, ipa, level, d);
      hide MapNs, Inv, FlatInv, RecsInv;
      var w := RealmWalk(m.tables, m.realms[rd], level, ipa);
      SetKeeps(m, w.table, w.idx, HostEntry(m.realms[rd].fmt, d));
      KeepsRecsInv(m, MapNs(m, rd, ipa, level, d).m);
    }
  }

  lemma UnmapNsGood(m: Machine, rd: Addr, ipa: Addr, level: int, d: HostDesc)
    requires Good(m)
    ensures Good(UnmapNs(m, rd, ipa, level).m) && UnmapNs(m, rd, ipa, level).m.recs == m.recs
  {
    NsInv(m, rd, ipa, level, d);
    if UnmapNs(m, rd, ipa, level).status.Success? {
      UnmapNsStep(m, rd, ipa, level);
      hide UnmapNs, Inv, FlatInv, RecsInv;
      var w := RealmWalk(m.tables, m.realms[rd], level, ipa);
      SetKeeps(m, w.table, w.idx, UnassignedNsEntry);
      KeepsRecsInv(m, UnmapNs(m, rd, ipa, level).m);
    }
  }

  lemma DataCreateGood(m: Machine, rd: Addr, data: Addr, ipa: Addr, src: DataSource)
    requires Good(m)
    ensures Good(DataCreate(m, rd, data, ipa, src).m) && DataCreate(m, rd, data, ipa, src).m.recs == m.recs
  {
    DataCreateInv(m, rd, data, ipa, src);
    assert Inv(m);
    if DataCreate(m, rd, data, ipa, src).status.Success? {
      DataCreateStep(m, rd, data, ipa, src);
      var w := RealmWalk(m.tables, m.realms[rd], PAGE_LEVEL, ipa);
      hide DataCreate, FullInv, RecsInv, CanMap;
      MapKeeps(m, rd, ipa, w, if src.Copy? then Ram else RipasField(m.tables[w.table][w.idx]), data);
      KeepsRecsInv(m, DataCreate(m, rd, data, ipa, src).m);
    }
  }

  lemma DataDestroyGood(m: Machine, rd: Addr, ipa: Addr)
    requires Good(m)
    ensures Good(DataDestroy(m, rd, ipa).m) && DataDestroy(m, rd, ipa).m.recs == m.recs
  {
    DataDestroyInv(m, rd, ipa);
    assert Inv(m);
    if DataDestroy(m, rd, ipa).status.Success? {
      DataDestroyStep(m, rd, ipa);
      var w := RealmWalk(m.tables, m.realms[rd], PAGE_LEVEL, ipa);
      hide DataDestroy, FullInv, RecsInv, CanUnmap;
      UnmapKeeps(m, rd, ipa, w, RipasLeft(m.tables[w.table][w.idx].ripas));
      KeepsRecsInv(m, DataDestroy(m, rd, ipa).m);
    }
  }

  /** A new request of one REC, or a new cursor. */
  lemma OneRequest(m: Machine, m2: Machine, rec: Addr)
    requires Inv(m) && RecsInv(m) && rec in m.recs && m2.realms == m.realms && m2.gs == m.gs
    requires m2.recs.Keys == m.recs.Keys
    requires forall a | a in m.recs && a != rec :: m2.recs[a] == m.recs[a]
    requires m2.recs[rec].rd == m.recs[rec].rd && m2.recs[rec].aux == m.recs[rec].aux && RequestOk(m2, rec)
    ensures RecsInv(m2)
  {
    hide Inv;
    forall a | a in m2.recs ensures RequestOk(m2, a) && AuxOk(m2, a) { assert RequestOk(m, a) && AuxOk(m, a); }
    forall a, b | a in m2.recs && b in m2.recs ensures AuxApart(m2, a, b) { assert AuxApart(m, a, b); }
    forall rd | rd in m2.realms ensures RdCountOk(m2, rd) {
      assert RdCountOk(m, rd);
      assert RecsOf(m2, rd) == RecsOf(m, rd);
    }
  }

  lemma SetRipasGood(m: Machine, rd: Addr, rec: Addr, base: Addr, top: Addr)
    requires Good(m)
    ensures rec in m.recs ==> RequestOk(m, rec)
    ensures Good(SetRipas(m, rd, rec, base, top).m)
  {
    assert rec in m.recs ==> RequestOk(m, rec);
    var q := SetRipas(m, rd, rec, base, top);
    if q.status.Success? {
      RequestInv(m, rd, rec, base, top);
      SetRipasStep(m, rd, rec, base, top);
      hide SetRipas, FlatInv, RecsInv, RangeRun, RequestOk;
      OneRequest(m, q.m, rec);
    }
  }

  lemma IpaStateSetGood(m: Machine, rec: Addr, base: Addr, top: Addr, r: Ripas, cd: bool)
    requires Good(m) && rec in m.recs
    ensures Good(IpaStateSet(m, rec, base, top, r, cd).m)
  {
    var m2 := IpaStateSet(m, rec, base, top, r, cd).m;
    assert m.recs[rec].rd in m.realms;
    hide Inv, FlatInv, RecsInv, ParSize;
    if m2 != m {
      RecordsOnly(m, m2.recs);
      OneRequest(m, m2, rec);
    }
  }

  lemma CompleteGood(m: Machine, rec: Addr, reject: bool)
    requires Good(m) && rec in m.recs
    ensures Good(CompleteRipas(m, rec, reject).0.m)
  {
    var m2 := CompleteRipas(m, rec, reject).0.m;
    assert RequestOk(m, rec);
    hide Inv, FlatInv, RecsInv, ParSize;
    if m2 != m {
      RecordsOnly(m, m2.recs);
      OneRequest(m, m2, rec);
    }
  }

  lemma RealmStateGood(m: Machine, rd: Addr, s: RealmState)
    requires Good(m) && rd in m.realms
    ensures Good(SetRealmState(m, rd, s))
  {
    SetRealmStateInv(m, rd, s);
    var m2 := SetRealmState(m, rd, s);
    hide FullInv;
    forall a | a in m2.recs ensures RequestOk(m2, a) && AuxOk(m2, a) { assert RequestOk(m, a) && AuxOk(m, a); }
    forall a, b | a in m2.recs && b in m2.recs ensures AuxApart(m2, a, b) { assert AuxApart(m, a, b); }
    forall x | x in m2.realms ensures RdCountOk(m2, x) {
      assert RdCountOk(m, x);
      assert RecsOf(m2, x) == RecsOf(m, x);
    }
  }

  lemma RealmActivateGood(m: Machine, rd: Addr)
    requires Good(m)
    ensures Good(RealmActivate(m, rd).m) && RealmActivate(m, rd).m.recs == m.recs
  {
    if RealmActivate(m, rd).status.Success? {
      RdIsRealm(m, rd);
      RealmStateGood(m, rd, Active);
    }
  }

  lemma RealmCreateGood(m: Machine, rd: Addr, p: RealmParams, paWidth: nat)
    requires Good(m)
    ensures Good(RealmCreate(m, rd, p, paWidth).m) && RealmCreate(m, rd, p, paWidth).m.recs == m.recs
  {
    RealmCreateInv(m, rd, p, paWidth);
    if RealmCreate(m, rd, p, paWidth).status.Success? {
      var m2 := AddRealm(m, rd, p);
      FreshRealm(m, rd, p, paWidth, rd);
      forall a | a in m.gs && (m.gs[a].state.RdState? || m.gs[a].state.RecAux?)
        ensures m2.gs[a] == m.gs[a]
      {
        FreshRealm(m, rd, p, paWidth, a);
      }
      forall a | a in m.recs ensures m.recs[a].rd != rd { assert RequestOk(m, a); }
      RealmCreateRecs(m, m2, rd);
    }
  }

  lemma RealmCreateRecs(m: Machine, m2: Machine, rd: Addr)
    requires Inv(m) && RecsInv(m) && m2.recs == m.recs && rd !in m.realms && rd in m2.realms
    requires m2.realms - {rd} == m.realms
    requires forall a | a in m.gs && (m.gs[a].state.RdState? || m.gs[a].state.RecAux?) ::
               a in m2.gs && m2.gs[a] == m.gs[a]
    requires forall a | a in m.recs :: m.recs[a].rd != rd
    requires rd in m2.gs && m2.gs[rd].refcount == 0
    ensures RecsInv(m2)
  {
    forall a | a in m2.recs ensures RequestOk(m2, a) && AuxOk(m2, a) { assert RequestOk(m, a) && AuxOk(m, a); }
    forall a, b | a in m2.recs && b in m2.recs ensures AuxApart(m2, a, b) { assert AuxApart(m, a, b); }
    forall x | x in m2.realms ensures RdCountOk(m2, x) {
      assert RecsOf(m2, x) == RecsOf(m, x);
      if x == rd {
        assert RecsOf(m, x) == {};
      } else {
        assert x in m.realms && RdCountOk(m, x) && GranuleOk(m, x);
      }
    }
  }

  lemma RealmDestroyGood(m: Machine, rd: Addr)
    requires Good(m)
    ensures Good(RealmDestroy(m, rd).m) && RealmDestroy(m, rd).m.recs == m.recs
  {
    if RealmDestroy(m, rd).status.Success? {
      RdIsRealm(m, rd);
      NoRecs(m, rd);
      DestroyIdle(m, rd);
      DropRealmInv(m, rd);
      DropRealmFlatInv(m, rd);
      DropRealmRecs(m, rd);
    }
  }

  lemma DropRealmRecs(m: Machine, rd: Addr)
    requires Idle(m, rd) && RecsInv(m)
    ensures RecsInv(DropRealm(m, rd))
  {
    var m2 := DropRealm(m, rd);
    forall a | a in m.gs && a != rd && (m.gs[a].state.RdState? || m.gs[a].state.RecAux?) ensures m2.gs[a] == m.gs[a] {
      if a in m.realms[rd].roots { RootsAreTables(m, rd, a); }
    }
    assert GranuleOk(m, rd);
    forall a | a in m2.recs ensures RequestOk(m2, a) && AuxOk(m2, a) { assert RequestOk(m, a) && AuxOk(m, a); }
    forall a, b | a in m2.recs && b in m2.recs ensures AuxApart(m2, a, b) { assert AuxApart(m, a, b); }
    forall x | x in m2.realms ensures RdCountOk(m2, x) {
      assert RecsOf(m2, x) == RecsOf(m, x);
      assert RdCountOk(m, x) && GranuleOk(m, x);
    }
  }

  lemma DelegateGood(m: Machine, a: Addr, el3Ok: bool)
    requires Good(m)
    ensures Good(GranuleDelegate(m, a, el3Ok).m) && GranuleDelegate(m, a, el3Ok).m.recs == m.recs
    ensures Good(GranuleUndelegate(m, a).m) && GranuleUndelegate(m, a).m.recs == m.recs
  {
    DelegateInv(m, a, el3Ok);
    assert Inv(m);
    hide FullInv, Inv, RecsInv;
    KeepsRecsInv(m, GranuleDelegate(m, a, el3Ok).m);
    KeepsRecsInv(m, GranuleUndelegate(m, a).m);
  }

  lemma RecCreateGood(m: Machine, rd: Addr, rec: Addr, aux: seq<Addr>, readOk: bool, indexOk: bool)
    requires Good(m)
    ensures Good(RecCreate(m, rd, rec, aux, readOk, indexOk).m)
    ensures var m2 := RecCreate(m, rd, rec, aux, readOk, indexOk).m;
            forall a | a in m.recs :: a in m2.recs && m2.recs[a] == m.recs[a]
  {
    if RecCreate(m, rd, rec, aux, readOk, indexOk).status.Success? {
      RecCreateStep(m, rd, rec, aux, readOk, indexOk);
      hide FullInv, RecsInv, RecCreate;
      AddRecInv(m, rd, rec, aux);
      AddRecRecs(m, rd, rec, aux);
    } else {
      AllFreeTaken(m, aux);
      TakeGranulesInv(m, aux[..FirstTaken(m, aux, 0)]);
      hide FullInv, RecsInv, FirstTaken;
    }
  }

  /** One granule is enough: delegated by the host and then named twice in the list of auxiliary
      granules, it makes REC_CREATE run into its assertion. */
  lemma RecAssertionReached(m: Machine, a: Addr, rd: Addr, rec: Addr, indexOk: bool)
    requires Good(m) && Is(m, a, NsState)
    ensures var m1 := GranuleDelegate(m, a, true).m;
            Good(m1) && RecCreate(m1, rd, rec, [a, a], true, indexOk).status.AssertionFailure?
  {
    DelegateGood(m, a, true);
    var m1 := GranuleDelegate(m, a, true).m;
    assert [a, a][0] == [a, a][1];
    RecCreateAssertion(m1, rd, rec, [a, a], true, indexOk);
  }

  lemma RecDestroyGood(m: Machine, rec: Addr)
    requires Good(m)
    ensures Good(RecDestroy(m, rec).m)
    ensures var m2 := RecDestroy(m, rec).m;
            forall a | a in m.recs && a != rec :: a in m2.recs && m2.recs[a] == m.recs[a]
  {
    if RecDestroy(m, rec).status.Success? {
      RecDestroyStep(m, rec);
      hide FullInv, RecsInv, RecDestroy;
      DropRecInv(m, rec);
      DropRecRecs(m, rec);
    }
  }

  lemma InitRipasGood(m: Machine, rd: Addr, base: Addr, top: Addr)
    requires Good(m)
    ensures Good(InitRipas(m, rd, base, top).m) && InitRipas(m, rd, base, top).m.recs == m.recs
  {
    InitRipasInv(m, rd, base, top);
    hide InitRipas, FlatInv, RecsInv;
    KeepsRecsInv(m, InitRipas(m, rd, base, top).m);
  }

  lemma TablesGood(m: Machine, c: TableCommand)
    requires Good(m)
    ensures Good(ExecTables(m, c).m) && ExecTables(m, c).m.recs == m.recs
  {
    hide Good, RttCreate, RttFold, RttDestroy, MapNs, UnmapNs, DataCreate, DataDestroy, InitRipas;
    match c {
      case RttCreateCmd(rd, rtt, ipa, level) => RttCreateGood(m, rd, rtt, ipa, level);
      case RttFoldCmd(rd, ipa, level) => RttFoldGood(m, rd, ipa, level);
      case RttDestroyCmd(rd, ipa, level) => RttDestroyGood(m, rd, ipa, level);
      case MapNsCmd(rd, ipa, level, d) => MapNsGood(m, rd, ipa, level, d);
      case UnmapNsCmd(rd, ipa, level) => UnmapNsGood(m, rd, ipa, level, HostDesc(0, NsAttrs(0, 0), false));
      case DataCreateCmd(rd, data, ipa, src) => DataCreateGood(m, rd, data, ipa, src);
      case DataDestroyCmd(rd, ipa) => DataDestroyGood(m, rd, ipa);
      case InitRipasCmd(rd, base, top) => InitRipasGood(m, rd, base, top);
    }
  }

  lemma RealmsGood(m: Machine, c: RealmCommand)
    requires Good(m)
    ensures Good(ExecRealms(m, c).m)
    ensures forall a | a in m.recs && c != RecDestroyCmd(a) ::
              a in ExecRealms(m, c).m.recs && ExecRealms(m, c).m.recs[a] == m.recs[a]
  {
    assert forall a | a in m.recs :: m.recs[a].rd in m.realms;
    hide Good, GranuleDelegate, GranuleUndelegate, RecCreate, RecDestroy, RealmCreate, RealmActivate, RealmDestroy;
    match c {
      case DelegateCmd(a, ok) => DelegateGood(m, a, ok);
      case UndelegateCmd(a) => DelegateGood(m, a, true);
      case RealmCreateCmd(rd, p, w) => RealmCreateGood(m, rd, p, w);
      case RealmActivateCmd(rd) => RealmActivateGood(m, rd);
      case RealmDestroyCmd(rd) => RealmDestroyGood(m, rd);
      case RecCreateCmd(rd, rec, aux, readOk, indexOk) => RecCreateGood(m, rd, rec, aux, readOk, indexOk);
      case RecDestroyCmd(rec) => RecDestroyGood(m, rec);
      case SystemOffCall(rec) => if rec in m.recs { RealmStateGood(m, m.recs[rec].rd, SystemOff); }
    }
  }

  lemma RequestsGood(m: Machine, c: RequestCommand)
    requires Good(m)
    ensures Good(ExecRequests(m, c).m)
  {
    assert forall a | a in m.recs :: m.recs[a].rd in m.realms;
    hide FullInv, RecsInv, SetRipas, IpaStateSet, CompleteRipas;
    match c {
      case SetRipasCmd(rd, rec, base, top) => SetRipasGood(m, rd, rec, base, top);
      case IpaStateSetCall(rec, base, top, r, cd) => if rec in m.recs { IpaStateSetGood(m, rec, base, top, r, cd); }
      case CompleteRipasStep(rec, reject) => if rec in m.recs { CompleteGood(m, rec, reject); }
    }
  }

  /** Every command keeps the invariant, whether it succeeds or fails. */
  lemma ExecGood(m: Machine, c: Command)
    requires Good(m)
    ensures Good(Exec(m, c).m)
  {
    hide Good, ExecTables, ExecRealms, ExecRequests;
    match c {
      case OnTables(t) => TablesGood(m, t);
      case OnRealms(r) => RealmsGood(m, r);
      case OnRequests(q) => RequestsGood(m, q);
    }
  }

  // ------------------------------------------------------------ whole runs

  /** No realm exists and every granule belongs to the host. */
  ghost predicate Initial(m: Machine) {
    && m.tables == map[] && m.realms == map[] && m.recs == map[] && m.place == map[] && m.owner == map[]
    && (forall a | a in m.gs ::
          Aligned(a, PAGE_LEVEL) && a < MAX_ADDR && m.gs[a].state.NsState? && m.gs[a].refcount == 0)
  }

  ghost function Run(m: Machine, cs: seq<Command>): (r: Machine)
    requires Good(m)
    ensures Good(r)
    decreases |cs|
  {
    if cs == [] then m
    else
      ExecGood(m, cs[0]);
      Run(Exec(m, cs[0]).m, cs[1..])
  }

  lemma InitialGood(m: Machine)
    requires Initial(m)
    ensures Good(m)
  {}

  /** The assertion on the level is reached in any good state with nine delegated granules: a
      realm with 33 address bits that starts at level 2 is created, and then both commands, asked
      for the first unprotected gigabyte, run into it. */
  lemma NsAssertionReached(m: Machine, rd: Addr, f: Format, base: Addr, paWidth: nat)
    requires Good(m) && Is(m, rd, Delegated) && !(base <= rd < base + 8 * PAGE)
    requires forall k: nat | k < 8 :: Is(m, base + k * PAGE, Delegated)
    ensures var q := RealmCreate(m, rd, RealmParams(f, 33, 2, base, 8, true), paWidth);
            && q.status.Success? && Good(q.m)
            && MapNs(q.m, rd, 0x1_0000_0000, 1, HostDesc(0, NsAttrs(0, 0), false)).status.AssertionFailure?
            && UnmapNs(q.m, rd, 0x1_0000_0000, 1).status.AssertionFailure?
  {
    var p := RealmParams(f, 33, 2, base, 8, true);
    NsAssertionReachable(f, NewRealm(p).roots, paWidth);
    var q := RealmCreate(m, rd, p, paWidth);
    assert forall k: nat | k < 8 :: RootAddr(p, k) == base + k * PAGE;
    assert q.status.Success?;
    RealmCreateGood(m, rd, p, paWidth);
    FreshRealm(m, rd, p, paWidth, rd);
    hide RealmCreate, Good, ValidMapCmd, HostDescValid, InPar, ValidRealm, MapNs, UnmapNs;
    assert Inv(q.m) by { GoodInv(q.m); }
    NsAssertion(q.m, rd, 0x1_0000_0000, 1, HostDesc(0, NsAttrs(0, 0), false));
  }

  lemma GoodInv(m: Machine)
    requires Good(m)
    ensures Inv(m)
  {}

  // ------------------------------------------------------------ RIPAS requests over runs

  /** The command starts, ends or removes the request of `rec`; all others only serve it. */
  predicate EndsRequest(c: Command, rec: Addr) {
    || c == OnRealms(RecDestroyCmd(rec))
    || (c.OnRequests? && !c.q.SetRipasCmd? && c.q.rec == rec)
  }

  predicate Serves(c: Command, rec: Addr) { c.OnRequests? && c.q.SetRipasCmd? && c.q.rec == rec }

  /** The same request, at least as far. */
  predicate Further(q: RipasRequest, q2: RipasRequest) { q2 == q.(addr := q2.addr) && q.addr <= q2.addr }

  lemma SetRipasFurther(m: Machine, rd: Addr, rec': Addr, base: Addr, top: Addr, rec: Addr)
    requires Good(m) && rec in m.recs && (rec' in m.recs ==> RequestOk(m, rec'))
    ensures var m2 := SetRipas(m, rd, rec', base, top).m;
            && rec in m2.recs && Further(m.recs[rec].request, m2.recs[rec].request)
            && (rec != rec' ==> m2.recs[rec] == m.recs[rec])
  {
    var q := SetRipas(m, rd, rec', base, top);
    if q.status.Success? {
      SetRipasStep(m, rd, rec', base, top);
      hide SetRipas, FullInv, RecsInv, AtRange;
    }
  }

  /** No other command touches a pending request, except that RTT_SET_RIPAS on this REC
      advances its cursor. */
  lemma ExecFurther(m: Machine, c: Command, rec: Addr)
    requires Good(m) && rec in m.recs && !EndsRequest(c, rec)
    ensures var m2 := Exec(m, c).m;
            && rec in m2.recs && Further(m.recs[rec].request, m2.recs[rec].request)
            && (!Serves(c, rec) ==> m2.recs[rec].request == m.recs[rec].request)
  {
    match c {
      case OnTables(t) =>
        hide Good, ExecTables;
        TablesGood(m, t);
      case OnRealms(r) =>
        hide Good, ExecRealms;
        RealmsGood(m, r);
      case OnRequests(q) =>
        if q.SetRipasCmd? {
          assert q.rec in m.recs ==> RequestOk(m, q.rec);
          hide FullInv, RecsInv, SetRipas;
          SetRipasFurther(m, q.rd, q.rec, q.base, q.top, rec);
        } else {
          hide FullInv, RecsInv, SetRipas, Inv;
        }
    }
  }

  /** Over any run that does not end it, a request stays the same, its cursor only grows
      and never passes the requested top. */
  lemma {:induction false} RunFurther(m: Machine, cs: seq<Command>, rec: Addr)
    requires Good(m) && rec in m.recs && forall i | 0 <= i < |cs| :: !EndsRequest(cs[i], rec)
    ensures var m2 := Run(m, cs);
            && rec in m2.recs && Further(m.recs[rec].request, m2.recs[rec].request)
            && (m.recs[rec].request.base < m.recs[rec].request.top ==>
                  m2.recs[rec].request.addr <= m.recs[rec].request.top)
    decreases |cs|
  {
    if cs == [] {
      assert RequestOk(m, rec);
    } else {
      ExecGood(m, cs[0]);
      ExecFurther(m, cs[0], rec);
      hide Good;
      RunFurther(Exec(m, cs[0]).m, cs[1..], rec);
    }
  }

  /** Any number of RTT_SET_RIPAS calls for one request: the pages passed since are those
      with the requested RIPAS, each as it was otherwise, and no other page changed. */
  lemma {:induction false} ServeRequest(m: Machine, cs: seq<Command>, rec: Addr, rd': Addr, b: Addr)
    requires Good(m) && rec in m.recs && Mapped(m, rd', b)
    requires forall i | 0 <= i < |cs| :: Serves(cs[i], rec)
    ensures var m2 := Run(m, cs);
            var q := m.recs[rec].request;
            && rec in m2.recs && Further(q, m2.recs[rec].request) && Mapped(m2, rd', b)
            && var hit := rd' == m.recs[rec].rd && q.addr <= b < m2.recs[rec].request.addr;
               var op := SetOp(q.ripas, q.changeDestroyed);
            && (hit ==> Applies(op, PageAt(m, rd', b)))
            && PageAt(m2, rd', b) == if hit then ApplyPage(op, PageAt(m, rd', b)) else PageAt(m, rd', b)
    decreases |cs|
  {
    if cs != [] {
      RunStep(m, cs);
      ServesIs(m, cs[0], rec);
      var c := cs[0].q;
      var m1 := SetRipas(m, c.rd, rec, c.base, c.top).m;
      ServeStep(m, c.rd, rec, c.base, c.top, rd', b);
      hide Good, Exec, Run, SetRipas, PageAt, Applies, ApplyPage, Mapped, Serves, RequestOk;
      ServeRequest(m1, cs[1..], rec, rd', b);
    }
  }

  lemma RunStep(m: Machine, cs: seq<Command>)
    requires Good(m) && cs != []
    ensures Good(Exec(m, cs[0]).m) && Run(m, cs) == Run(Exec(m, cs[0]).m, cs[1..])
  {
    ExecGood(m, cs[0]);
  }

  lemma ServesIs(m: Machine, c: Command, rec: Addr)
    requires Good(m) && Serves(c, rec)
    ensures c.OnRequests? && c.q.SetRipasCmd? && c.q.rec == rec && (rec in m.recs ==> RequestOk(m, rec))
    ensures Exec(m, c) == SetRipas(m, c.q.rd, rec, c.q.base, c.q.top)
  {}

  lemma ServeStep(m: Machine, rd: Addr, rec: Addr, base: Addr, top: Addr, rd': Addr, b: Addr)
    requires Good(m) && rec in m.recs && Mapped(m, rd', b)
    ensures RequestOk(m, rec)
    ensures var m2 := SetRipas(m, rd, rec, base, top).m;
            var q := m.recs[rec].request;
            && rec in m2.recs && m2.recs[rec].rd == m.recs[rec].rd && Further(q, m2.recs[rec].request)
            && Mapped(m2, rd', b)
            && var hit := rd' == m.recs[rec].rd && q.addr <= b < m2.recs[rec].request.addr;
               var op := SetOp(q.ripas, q.changeDestroyed);
            && (hit ==> Applies(op, PageAt(m, rd', b)))
            && PageAt(m2, rd', b) == if hit then ApplyPage(op, PageAt(m, rd', b)) else PageAt(m, rd', b)
  {
    assert RequestOk(m, rec);
    if SetRipas(m, rd, rec, base, top).status.Success? {
      SetRipasStep(m, rd, rec, base, top);
      hide SetRipas, FullInv, RecsInv, Flat, Applies, ApplyPage, AtRange, RangeLoop, RequestOk, Walk;
      SetRipasFlat(m, rd, rec, base, top, rd', b);
    }
  }

  /** A RIPAS change from end to end: the realm asks, the host serves any number of times, and
      REC_ENTER completes. The realm learns how far the host got; exactly the pages of the
      requested range up to there have changed, each as requested, and no page of any realm
      besides; a rejection means that a change to RAM is incomplete and the host refused the
      rest; and no request is left. */
  lemma RipasRoundTrip(
      m: Machine, rec: Addr, base: Addr, top: Addr, ripas: Ripas, cd: bool, cs: seq<Command>, reject: bool,
      rd': Addr, b: Addr)
    requires Good(m) && rec in m.recs && Mapped(m, rd', b)
    requires IpaStateSet(m, rec, base, top, ripas, cd).status.Success?
    requires forall i | 0 <= i < |cs| :: Serves(cs[i], rec)
    ensures var m1 := IpaStateSet(m, rec, base, top, ripas, cd).m;
            && Good(m1)
            && var m2 := Run(m1, cs);
            && rec in m2.recs
            && var q := CompleteRipas(m2, rec, reject);
               var m3, reached := q.0.m, q.0.out;
            && base <= reached <= top && reached % PAGE == 0 && Mapped(m3, rd', b)
            && var hit := rd' == m.recs[rec].rd && base <= b < reached;
            && (hit ==> Applies(SetOp(ripas, cd), PageAt(m, rd', b)))
            && PageAt(m3, rd', b) == (if hit then ApplyPage(SetOp(ripas, cd), PageAt(m, rd', b)) else PageAt(m, rd', b))
            && (q.1 <==> ripas.Ram? && reached < top && reject)
            && rec in m3.recs && m3.recs[rec].request.base == m3.recs[rec].request.top
  {
    var m1 := IpaStateSet(m, rec, base, top, ripas, cd).m;
    IpaStateSetGood(m, rec, base, top, ripas, cd);
    IpaStateSetIs(m, rec, base, top, ripas, cd);
    hide IpaStateSet, Flat, Applies, ApplyPage, Good, Run, Serves, ParSize;
    ServeRequest(m1, cs, rec, rd', b);
    GoodRequest(Run(m1, cs), rec);
  }

  lemma GoodRequest(m: Machine, rec: Addr)
    requires Good(m) && rec in m.recs
    ensures RequestOk(m, rec)
  {
    assert RequestOk(m, rec);
  }

  /** A granted request begins at its base; nothing else has changed. */
  lemma IpaStateSetIs(m: Machine, rec: Addr, base: Addr, top: Addr, ripas: Ripas, cd: bool)
    requires Good(m) && rec in m.recs && IpaStateSet(m, rec, base, top, ripas, cd).status.Success?
    ensures var m1 := IpaStateSet(m, rec, base, top, ripas, cd).m;
            && m1 == m.(recs := m1.recs) && rec in m1.recs && m1.recs[rec].rd == m.recs[rec].rd
            && m1.recs[rec].request == RipasRequest(base, top, base, ripas, cd) && base < top
  {}

  // ------------------------------------------------------------ every reachable state

  /** In every reachable state the reference count of an RTT granule is its number of table
      entries and protected mappings, hence at most 512, and the RTT granules are exactly the
      tables of existing realms. */
  lemma ReachableCounts(m: Machine, cs: seq<Command>, t: Addr)
    requires Initial(m)
    ensures Good(m)
    ensures var s := Run(m, cs);
            Is(s, t, RttState) ==>
              && t in s.tables && |s.tables[t]| == ENTRIES
              && s.gs[t].refcount == Count(s.tables[t]) <= ENTRIES <= REFCOUNT_MAX
              && t in s.place && s.place[t].rd in s.realms
  {
    InitialGood(m);
    var s := Run(m, cs);
    if Is(s, t, RttState) {
      assert GranuleOk(s, t);
      EntryFacts(s, t, 0);
      CountBounds(s.tables[t]);
    }
  }

  /** In every reachable state the tables of all realms form a forest whose roots are the root
      tables of the realms: the RTT granules are the tables found from them, each by exactly one
      path of at most four entries and in one realm; no table is found below itself; no root
      table is named by an entry, and any other table by one entry only. */
  lemma ReachableForest(m: Machine, cs: seq<Command>, t: Addr)
    requires Initial(m)
    ensures Good(m)
    ensures var s := Run(m, cs);
            && (Is(s, t, RttState) <==> exists rd, root, path :: Below(s, rd, root, path, t))
            && (forall rd, root, path, rd', root', path' ::
                  Below(s, rd, root, path, t) && Below(s, rd', root', path', t) ==>
                    rd == rd' && root == root' && path == path')
            && (forall rd, root, path | Below(s, rd, root, path, t) :: |path| <= PAGE_LEVEL - s.realms[rd].start <= 4)
            && (forall path | Descends(s.tables, t, path, t) :: path == [])
            && (forall rd, p, i :: !(RootOf(s, rd, t) && Names(s, p, i, t)))
            && (forall p, i, p', i' | Names(s, p, i, t) && Names(s, p', i', t) :: p == p' && i == i')
  {
    InitialGood(m);
    var s := Run(m, cs);
    assert Inv(s);
    hide Run, Inv, Below, Descends, RootOf, Names, Initial, Good;
    Forest(s, t);
    forall rd, p, i ensures !(RootOf(s, rd, t) && Names(s, p, i, t)) {
      if RootOf(s, rd, t) && Names(s, p, i, t) {
        RootIsPlaced(s, rd, t);
        NameFacts(s, p, i, t);
      }
    }
    forall p, i, p', i' | Names(s, p, i, t) && Names(s, p', i', t) ensures p == p' && i == i' {
      NameFacts(s, p, i, t);
      NameFacts(s, p', i', t);
      OneParent(s, p, i, p', i', t);
    }
  }

  lemma NameFacts(s: Machine, p: Addr, i: nat, t: Addr)
    requires Inv(s) && Names(s, p, i, t)
    ensures p in s.place && i < ENTRIES && EntryAt(s.tables, p, i) == TableEntry(t)
    ensures t in s.place && |s.place[t].path| > 1
  {
    assert TableOk(s, p);
    EntryFacts(s, p, i);
  }

  /** In every reachable state each DATA granule is mapped at exactly one address of one
      realm, and every protected mapping is of a DATA granule. */
  lemma ReachableData(m: Machine, cs: seq<Command>, rd: Addr, ipa: Addr, rd': Addr, ipa': Addr, a: Addr)
    requires Initial(m)
    ensures Good(m)
    ensures var s := Run(m, cs);
            && (Is(s, a, DataState) ==> exists x, y :: MapsPage(s, x, y, a))
            && (MapsPage(s, rd, ipa, a) ==> Is(s, a, DataState))
            && (MapsPage(s, rd, ipa, a) && MapsPage(s, rd', ipa', a) ==> rd == rd' && ipa == ipa')
  {
    InitialGood(m);
    var s := Run(m, cs);
    hide Run, Flat;
    if Is(s, a, DataState) {
      assert OwnerOk(s, a);
      assert MapsPage(s, s.owner[a].rd, s.owner[a].ipa, a);
    }
    if MapsPage(s, rd, ipa, a) { assert MappingOk(s, rd, ipa); }
    if MapsPage(s, rd', ipa', a) { assert MappingOk(s, rd', ipa'); }
  }

  /** Realm `rd` maps granule `a` at the page of `ipa`. */
  ghost predicate MapsPage(s: Machine, rd: Addr, ipa: Addr, a: Addr) {
    Mapped(s, rd, ipa) && ipa % PAGE == 0 && PageAt(s, rd, ipa).Assigned? && PageAt(s, rd, ipa).pa == a
  }

  /** In every reachable state, non-secure memory is mapped only outside the PAR, and
      addresses outside the PAR map nothing else. */
  lemma ReachablePar(m: Machine, cs: seq<Command>, rd: Addr, ipa: Addr)
    requires Initial(m)
    ensures Good(m)
    ensures var s := Run(m, cs);
            Mapped(s, rd, ipa) ==> (NsPage(PageAt(s, rd, ipa)) <==> ipa >= ParSize(s.realms[rd].ipaBits))
  {
    InitialGood(m);
    var s := Run(m, cs);
    if Mapped(s, rd, ipa) { assert ParOk(s, rd, ipa); }
  }

  /** In every reachable state a DELEGATED granule contains only zeroes. */
  lemma ReachableZero(m: Machine, cs: seq<Command>, a: Addr)
    requires Initial(m)
    ensures Good(m)
    ensures var s := Run(m, cs); Is(s, a, Delegated) ==> s.gs[a].zero && s.gs[a].refcount == 0
  {
    InitialGood(m);
    var s := Run(m, cs);
    if Is(s, a, Delegated) { assert GranuleOk(s, a); }
  }

  /** A successful REALM_DESTROY in a reachable state leaves no RTT, DATA or REC granule of that
      realm behind: the tables below its roots are delegated and zero, every RTT granule that is
      left is below a root of another realm, every DATA granule is mapped by another realm, and
      the other realms map what they did. */
  lemma ReachableDestroy(m: Machine, cs: seq<Command>, rd: Addr, a: Addr, x: Addr, b: Addr)
    requires Initial(m)
    ensures Good(m)
    ensures var s := Run(m, cs);
            RealmDestroy(s, rd).status.Success? ==>
              var s2 := RealmDestroy(s, rd).m;
              && rd in s.realms && s2.realms == s.realms - {rd}
              && (a == rd || (exists root, path :: Below(s, rd, root, path, a)) ==>
                    a in s2.gs && s2.gs[a] == Granule(Delegated, 0, true))
              && (Is(s2, a, RttState) ==> exists y, root, path :: y != rd && Below(s2, y, root, path, a))
              && (Is(s2, a, DataState) ==> exists y, c :: y != rd && MapsPage(s2, y, c, a))
              && (a in s2.recs ==> s2.recs[a].rd != rd)
              && (x != rd && Mapped(s, x, b) ==> Mapped(s2, x, b) && PageAt(s2, x, b) == PageAt(s, x, b))
  {
    InitialGood(m);
    var s := Run(m, cs);
    assert Good(s);
    hide Run, Initial;
    if RealmDestroy(s, rd).status.Success? { DestroyLeavesNothing(s, rd, a, x, b); }
  }

  lemma DestroyLeavesNothing(s: Machine, rd: Addr, a: Addr, x: Addr, b: Addr)
    requires Good(s) && RealmDestroy(s, rd).status.Success?
    ensures var s2 := RealmDestroy(s, rd).m;
            && rd in s.realms && s2.realms == s.realms - {rd}
            && (a == rd || (exists root, path :: Below(s, rd, root, path, a)) ==>
                  a in s2.gs && s2.gs[a] == Granule(Delegated, 0, true))
            && (Is(s2, a, RttState) ==> exists y, root, path :: y != rd && Below(s2, y, root, path, a))
            && (Is(s2, a, DataState) ==> exists y, c :: y != rd && MapsPage(s2, y, c, a))
            && (a in s2.recs ==> s2.recs[a].rd != rd)
            && (x != rd && Mapped(s, x, b) ==> Mapped(s2, x, b) && PageAt(s2, x, b) == PageAt(s, x, b))
  {
    var s2 := RealmDestroy(s, rd).m;
    RdIsRealm(s, rd);
    NoRecs(s, rd);
    DestroyIdle(s, rd);
    RealmDestroyGood(s, rd);
    RealmDestroyLeavesNothing(s, rd, a);
    if x != rd && Mapped(s, x, b) { DropRealmFlat(s, rd, x, b); }
    assert Inv(s) && Inv(s2);
    if Is(s2, a, DataState) { assert OwnerOk(s2, a); }
    hide Inv, FlatInv, RecsInv, Idle, RealmDestroy, Below, Flat;
    forall root, path | Below(s, rd, root, path, a) ensures a in s.place && s.place[a].rd == rd {
      BelowIsTable(s, rd, root, path, a);
    }
    if Is(s2, a, RttState) {
      Forest(s2, a);
      var y, root, path :| Below(s2, y, root, path, a);
      BelowIsTable(s2, y, root, path, a);
    }
    if Is(s2, a, DataState) { assert MapsPage(s2, s2.owner[a].rd, s2.owner[a].ipa, a); }
  }
}
