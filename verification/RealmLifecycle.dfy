/** The life of a realm over every run: it is new, then active, then off, and never goes back; its
    geometry never changes, and once it is not new, nothing is added to its initial content. */
module RealmLifecycle {
  import opened S2Geometry
  import opened S2tte
  import opened RealmGeometry
  import opened Rtt
  import opened RttSteps
  import opened RttFlat
  import opened RttInvariants
  import opened RttCommands
  import opened DataCommands
  import opened RipasCommands
  import opened RealmCommands
  import opened RecCommands
  import opened MappingOutcomes
  import opened RipasOutcomes
  import opened RealmOutcomes
  import opened Runs

  function Age(s: RealmState): nat { match s case New => 0 case Active => 1 case SystemOff => 2 }

  /** The same realm, at least as old. */
  predicate Older(r: Realm, r2: Realm) { r2 == r.(state := r2.state) && Age(r.state) <= Age(r2.state) }

  /** Commands on tables change no realm. */
  lemma TablesKeepRealms(m: Machine, c: TableCommand)
    requires Good(m)
    ensures ExecTables(m, c).m.realms == m.realms
  {
    assert Inv(m) && FullInv(m);
    hide Good, FullInv, Inv, Walk, Geometry, RangeLoop, Flat, FoldEntry, Unfold, SkipNonLive, HostDescValid;
    match c {
      case RttCreateCmd(rd, rtt, ipa, level) =>
        if RttCreate(m, rd, rtt, ipa, level).status.Success? { RttCreateStep(m, rd, rtt, ipa, level); }
      case RttFoldCmd(rd, ipa, level) =>
        if RttFold(m, rd, ipa, level).status.Success? { RttFoldStep(m, rd, ipa, level); }
      case RttDestroyCmd(rd, ipa, level) =>
        if RttDestroy(m, rd, ipa, level).status.Success? { RttDestroyStep(m, rd, ipa, level); }
      case MapNsCmd(rd, ipa, level, d) =>
        if MapNs(m, rd, ipa, level, d).status.Success? { MapNsStep(m, rd, ipa, level, d); }
      case UnmapNsCmd(rd, ipa, level) =>
        if UnmapNs(m, rd, ipa, level).status.Success? { UnmapNsStep(m, rd, ipa, level); }
      case DataCreateCmd(rd, data, ipa, src) =>
        if DataCreate(m, rd, data, ipa, src).status.Success? { DataCreateStep(m, rd, data, ipa, src); }
      case DataDestroyCmd(rd, ipa) =>
        if DataDestroy(m, rd, ipa).status.Success? { DataDestroyStep(m, rd, ipa); }
      case InitRipasCmd(rd, base, top) => InitRipasInv(m, rd, base, top);
    }
  }

  /** PSCI_SYSTEM_OFF of a REC turns off its realm. */
  lemma SystemOffOutcome(m: Machine, rec: Addr)
    requires Good(m) && rec in m.recs
    ensures var q, rd := ExecRealms(m, SystemOffCall(rec)), m.recs[rec].rd;
            && q.status.Success? && rd in m.realms && rd in q.m.realms
            && q.m.realms[rd] == m.realms[rd].(state := SystemOff)
            && q.m == m.(realms := q.m.realms) && q.m.realms - {rd} == m.realms - {rd}
  {
    assert m.recs[rec].rd in m.realms;
  }

  lemma RealmsGrowOlder(m: Machine, c: RealmCommand, rd: Addr)
    requires Good(m) && rd in m.realms && c != RealmDestroyCmd(rd)
    ensures rd in ExecRealms(m, c).m.realms && Older(m.realms[rd], ExecRealms(m, c).m.realms[rd])
  {
    assert Inv(m) && FullInv(m) && RecsInv(m) && GranuleOk(m, rd);
    match c {
      case RealmCreateCmd(x, p, w) =>
        hide FullInv, RecsInv;
        if RealmCreate(m, x, p, w).status.Success? { NewIsNotOld(m, x, p, w, rd); }
      case RealmActivateCmd(x) =>
        hide FullInv, RecsInv, RealmActivate;
        RealmActivateOutcome(m, x);
        if RealmActivate(m, x).status.Success? && x != rd { OneRealm(m.realms, RealmActivate(m, x).m.realms, x, rd); }
      case SystemOffCall(rec) =>
        hide FullInv, RecsInv;
        if rec in m.recs { assert m.recs[rec].rd in m.realms; }
      case RealmDestroyCmd(x) => hide FullInv, RecsInv, TotalRefcount;
      case RecCreateCmd(x, rec, aux, readOk, indexOk) => hide FullInv, RecsInv, FirstTaken;
      case _ => hide FullInv, RecsInv;
    }
  }

  lemma OneRealm(r: map<Addr, Realm>, r2: map<Addr, Realm>, x: Addr, rd: Addr)
    requires r2 - {x} == r - {x} && rd in r && rd != x
    ensures rd in r2 && r2[rd] == r[rd]
  {
    assert rd in r - {x};
  }

  lemma NewIsNotOld(m: Machine, x: Addr, p: RealmParams, w: nat, rd: Addr)
    requires FullInv(m) && RealmCreate(m, x, p, w).status.Success? && rd in m.realms
    ensures x != rd && rd in RealmCreate(m, x, p, w).m.realms && RealmCreate(m, x, p, w).m.realms[rd] == m.realms[rd]
  {
    assert GranuleOk(m, x);
    hide FlatInv;
  }

  lemma RequestsKeepRealms(m: Machine, c: RequestCommand)
    requires Good(m)
    ensures ExecRequests(m, c).m.realms == m.realms
  {
    assert forall a | a in m.recs :: RequestOk(m, a);
    match c {
      case SetRipasCmd(rd, rec, base, top) =>
        RequestInv(m, rd, rec, base, top);
        hide Good, SetRipas;
      case IpaStateSetCall(rec, base, top, r, cd) => hide FullInv, RecsInv, ParSize;
      case CompleteRipasStep(rec, reject) => hide FullInv, RecsInv;
    }
  }

  /** Over every run that does not destroy it, a realm keeps its format, address space and root
      tables, and only grows older. */
  lemma {:induction false} RealmGrowsOlder(m: Machine, cs: seq<Command>, rd: Addr)
    requires Good(m) && rd in m.realms && forall i | 0 <= i < |cs| :: cs[i] != OnRealms(RealmDestroyCmd(rd))
    ensures rd in Run(m, cs).realms && Older(m.realms[rd], Run(m, cs).realms[rd])
    decreases |cs|
  {
    if cs != [] {
      RunStep(m, cs);
      match cs[0] {
        case OnTables(t) => TablesKeepRealms(m, t);
        case OnRealms(r) => RealmsGrowOlder(m, r, rd);
        case OnRequests(q) => RequestsKeepRealms(m, q);
      }
      hide Good, ExecTables, ExecRealms, ExecRequests, Run;
      RealmGrowsOlder(Exec(m, cs[0]).m, cs[1..], rd);
    }
  }

  /** Once a realm is active, over every run, no content is copied into it, the RIPAS of its memory is
      not initialised, and it gets no further REC. */
  lemma ActiveIsSealed(m: Machine, cs: seq<Command>, rd: Addr, data: Addr, ipa: Addr, top: Addr, readOk: bool,
      rec: Addr, aux: seq<Addr>, indexOk: bool)
    requires Good(m) && rd in m.realms && m.realms[rd].state != New
    requires forall i | 0 <= i < |cs| :: cs[i] != OnRealms(RealmDestroyCmd(rd))
    ensures var s := Run(m, cs);
            && !DataCreate(s, rd, data, ipa, Copy(readOk)).status.Success?
            && !InitRipas(s, rd, ipa, top).status.Success?
            && !RecCreate(s, rd, rec, aux, readOk, indexOk).status.Success?
            && !RealmActivate(s, rd).status.Success?
  {
    RealmGrowsOlder(m, cs, rd);
    var s := Run(m, cs);
    assert FullInv(s) && RecsInv(s) && Inv(s) && GranuleOk(s, rd);
    hide Run, Good;
    DataCreateOutcome(s, rd, data, ipa, Copy(readOk));
    InitRipasOutcome(s, rd, ipa, top);
    RecCreateOutcome(s, rd, rec, aux, readOk, indexOk, rd);
    RealmActivateOutcome(s, rd);
    hide FullInv, RecsInv, Inv, DataCreate, InitRipas, RecCreate, RealmActivate;
  }
}
