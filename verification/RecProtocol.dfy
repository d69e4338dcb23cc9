/** Who may use a REC when: REC_ENTER, REC_DESTROY, RTT_SET_RIPAS and PSCI_COMPLETE as
    interleaved steps of any number of PEs, and PSCI calls of the RECs that run. */
module RecProtocol {
  import opened S2Geometry

  // ------------------------------------------------------------ RECs

  /** A 64-bit register. */
  type Word = x: nat | x < 0x1_0000_0000_0000_0000

  /** Function identifiers are 32 bits wide. */
  const NARROW: nat := 0x1_0000_0000

  /** The first registers: `x0` holds the function identifier of a call, `x1` the MPIDR of the
      target, `x2` the entry point or the affinity level, `x3` the context. */
  datatype Regs = Regs(x0: Word, x1: Word, x2: Word, x3: Word)

  const CLEAR := Regs(0, 0, 0, 0)

  /** What a REC holds besides its identity: the part that entering, PSCI and RIPAS change. */
  datatype Body = Body(runnable: bool, pending: bool, regs: Regs, pc: Addr, cursor: Addr)

  /** `rd`, `idx` and `par` (the size of the protected address range) never change. */
  datatype RecObject = RecObject(rd: Addr, idx: nat, par: nat, refcount: nat, body: Body)

  datatype Function = CpuOffCall | CpuOnCall | AffinityCall | OtherCall

  /** The function with identifier `fid`, in the 32-bit or the 64-bit calling convention. */
  function Called(fid: nat): Function {
    if fid == 0x8400_0002 then CpuOffCall
    else if fid == 0x8400_0003 || fid == 0xC400_0003 then CpuOnCall
    else if fid == 0x8400_0004 || fid == 0xC400_0004 then AffinityCall
    else OtherCall
  }

  /** The index of the REC with an MPIDR: the affinity fields, of 4, 8, 8 and 8 bits. */
  function RecIdx(mpidr: nat): nat {
    mpidr % 0x10 + mpidr / 0x100 % 0x100 * 0x10 + mpidr / 0x1_0000 % 0x100 * 0x1000
    + mpidr / 0x1_0000_0000 % 0x100 * 0x10_0000
  }

  /** The values of the status that the host passes to PSCI_COMPLETE. */
  datatype HostStatus = HostSuccess | HostDenied | HostOther

  datatype PsciResult = AlreadyOn | Denied | TurnedOn | AffinityOn | AffinityOff

  /** The number in `x0` that tells the caller the result. */
  function ResultWord(r: PsciResult): Word {
    match r
    case AlreadyOn => 0xFFFF_FFFF_FFFF_FFFC
    case Denied => 0xFFFF_FFFF_FFFF_FFFD
    case TurnedOn => 0
    case AffinityOn => 0
    case AffinityOff => 1
  }

  // ------------------------------------------------------------ PSCI calls of a running REC

  datatype Outcome = InvalidAddress | InvalidParams | SelfOn | Pending

  /** PSCI_CPU_ON for the caller's own registers; `count` is the number of RECs of its realm. */
  function CpuOn(r: RecObject, count: nat): (Outcome, Body) {
    if r.body.regs.x2 >= r.par then (InvalidAddress, r.body)
    else if RecIdx(r.body.regs.x1) >= count then (InvalidParams, r.body)
    else if RecIdx(r.body.regs.x1) == r.idx then (SelfOn, r.body)
    else (Pending, r.body.(pending := true))
  }

  function AffinityInfo(r: RecObject, count: nat): (Outcome, Body) {
    if r.body.regs.x2 != 0 then (InvalidParams, r.body)
    else if RecIdx(r.body.regs.x1) >= count then (InvalidParams, r.body)
    else if RecIdx(r.body.regs.x1) == r.idx then (SelfOn, r.body)
    else (Pending, r.body.(pending := true))
  }

  /** What the realm reads in `x0` after a call that is answered at once. */
  function OutcomeWord(f: Function, o: Outcome): Word {
    match o
    case InvalidAddress => 0xFFFF_FFFF_FFFF_FFF7
    case InvalidParams => 0xFFFF_FFFF_FFFF_FFFE
    case SelfOn => if f.CpuOnCall? then ResultWord(AlreadyOn) else ResultWord(AffinityOn)
    case Pending => 0
  }

  /** A request that waits for an answer comes from a REC that is on, is about another REC, and
      names a protected entry point if it is a CPU_ON. The call was recognised by the lower half
      of `x0`. */
  predicate PendingOk(r: RecObject) {
    r.body.pending ==>
      && r.body.runnable
      && RecIdx(r.body.regs.x1) != r.idx
      && (Called(r.body.regs.x0 % NARROW).CpuOnCall? || Called(r.body.regs.x0 % NARROW).AffinityCall?)
      && (Called(r.body.regs.x0 % NARROW).CpuOnCall? ==> r.body.regs.x2 < r.par)
  }

  // ------------------------------------------------------------ PSCI_COMPLETE

  /** What becomes of a completion: the host gets an error and nothing changes, the request is
      answered, or the handler meets its assertion. */
  datatype Verdict = Refused | Answered | AssertionFails

  /** The whole of `x0` is compared with the function identifiers here. */
  function Judge(c: RecObject, t: RecObject, status: HostStatus): Verdict {
    if !c.body.pending || c.rd != t.rd || RecIdx(c.body.regs.x1) != t.idx then Refused
    else match Called(c.body.regs.x0)
      case CpuOnCall => if status == HostOther then Refused else Answered
      case AffinityCall => if status != HostSuccess then Refused else Answered
      case _ => AssertionFails
  }

  /** The target is running or could run. */
  predicate IsOn(t: RecObject) { t.refcount != 0 || t.body.runnable }

  datatype Completion = Completion(ok: bool, result: PsciResult, caller: Body, target: Body)

  /** Answers the request of `c` about `t`; only a successful CPU_ON of a REC that is off
      changes the target. A host that denies a request for a REC that is on gets an error,
      but the request is answered all the same. */
  function Complete(c: RecObject, t: RecObject, status: HostStatus): Completion
    requires Judge(c, t, status).Answered?
  {
    var on := Called(c.body.regs.x0).CpuOnCall?;
    var result :=
      if !on then (if IsOn(t) then AffinityOn else AffinityOff)
      else if IsOn(t) then AlreadyOn
      else if status == HostDenied then Denied
      else TurnedOn;
    Completion(
      !(on && status == HostDenied && IsOn(t)), result,
      c.body.(pending := false, regs := CLEAR.(x0 := ResultWord(result))),
      if result.TurnedOn? then
        t.body.(runnable := true, pc := c.body.regs.x2, regs := t.body.regs.(x0 := c.body.regs.x3))
      else t.body)
  }

  /** An answer leaves no request and breaks none: a target that waits for an answer is on. */
  lemma CompleteKeeps(c: RecObject, t: RecObject, status: HostStatus)
    requires PendingOk(c) && PendingOk(t) && Judge(c, t, status).Answered?
    ensures var q := Complete(c, t, status);
            && !q.caller.pending && PendingOk(c.(body := q.caller)) && PendingOk(t.(body := q.target))
            && (IsOn(t) ==> q.target == t.body)
            && (q.target.pending ==> t.body.pending && q.target == t.body)
  {
    hide RecIdx;
  }

  /** A request is answered exactly if it waits, is of a REC of the target's realm, names the target,
      and the host gives a status that goes with the function. The answer to AFFINITY_INFO is 0 for
      a target that is on and 1 for one that is off; to CPU_ON it is ALREADY_ON (-4) for a target
      that is on, else DENIED (-3) if the host denies, else SUCCESS (0), and only then the target
      changes: it starts at the entry point with the context in `x0`. */
  lemma CompletionAnswers(c: RecObject, t: RecObject, status: HostStatus)
    ensures var f := c.body.regs.x0;
            var cpuOn, affinity := f in {0x8400_0003, 0xC400_0003}, f in {0x8400_0004, 0xC400_0004};
            var on := t.refcount != 0 || t.body.runnable;
            && (Judge(c, t, status).Answered? <==>
                  && c.body.pending && c.rd == t.rd && RecIdx(c.body.regs.x1) == t.idx
                  && ((cpuOn && status != HostOther) || (affinity && status == HostSuccess)))
            && (Judge(c, t, status).Answered? ==>
                  var q := Complete(c, t, status);
                  var x0 := if affinity then (if on then 0 else 1)
                            else if on then 0xFFFF_FFFF_FFFF_FFFC
                            else if status == HostDenied then 0xFFFF_FFFF_FFFF_FFFD else 0;
                  && q.caller == c.body.(pending := false, regs := Regs(x0, 0, 0, 0))
                  && (q.ok <==> affinity || !on || status == HostSuccess)
                  && q.target == (if cpuOn && !on && status == HostSuccess
                                  then t.body.(runnable := true, pc := c.body.regs.x2,
                                               regs := t.body.regs.(x0 := c.body.regs.x3))
                                  else t.body))
  {
    hide RecIdx;
  }

  /** The handler meets its assertion exactly if the request was made with a non-zero upper half
      of `x0`: the call looks at the lower half only, the completion at the whole register. */
  lemma AssertionExactly(c: RecObject, t: RecObject, status: HostStatus)
    requires PendingOk(c)
    ensures Judge(c, t, status).AssertionFails? <==>
              c.body.pending && c.rd == t.rd && RecIdx(c.body.regs.x1) == t.idx && c.body.regs.x0 >= NARROW
  {
    if c.body.regs.x0 < NARROW { assert c.body.regs.x0 % NARROW == c.body.regs.x0; }
  }

  // ------------------------------------------------------------ PEs

  /** Where a PE is in a command. `EnterGot` holds the lock and the reference, `Entered`,
      `Running` and `Leaving` only the reference. A PE that met an assertion keeps its locks. */
  datatype Pe =
    | Idle
    | EnterLocked(r: Addr)
    | EnterGot(r: Addr)
    | Entered(r: Addr)
    | Running(r: Addr)
    | Leaving(r: Addr)
    | DestroyLocked(r: Addr)
    | RipasLocked(r: Addr)
    | PsciLocked(r: Addr, t: Addr)
    | Panicked(r: Addr, t: Addr)

  /** The PE has a reference to REC `a`. */
  predicate Uses(p: Pe, a: Addr) {
    (p.EnterGot? || p.Entered? || p.Running? || p.Leaving?) && p.r == a
  }

  /** The PE has locked the granule of REC `a`. */
  predicate Locks(p: Pe, a: Addr) {
    || ((p.EnterLocked? || p.EnterGot? || p.DestroyLocked? || p.RipasLocked?) && p.r == a)
    || ((p.PsciLocked? || p.Panicked?) && (p.r == a || p.t == a))
  }

  /** `lock` maps locked granules to the PE that locked them; `user` is auxiliary and maps RECs
      with a reference to the PE that has it. */
  datatype System = System(
    recs: map<Addr, RecObject>, pes: seq<Pe>, lock: map<Addr, nat>, user: map<Addr, nat>)

  datatype Step =
    | Create(a: Addr, r: RecObject)
    | EnterLock(a: Addr)
    | EnterGet
    | EnterUnlock
    | EnterCheck(active: bool)
    | RealmRuns(regs: Regs, pc: Addr, cursor: Addr)
    | CallPeer(count: nat)
    | CallCpuOff
    | ExitToHost
    | EnterPut
    | DestroyLock(a: Addr)
    | DestroyFinish
    | RipasLock(a: Addr)
    | RipasFinish(cursor: Addr)
    | PsciLock(a: Addr, b: Addr)
    | PsciFinish(status: HostStatus)

  function SetBody(s: System, a: Addr, b: Body): System
    requires a in s.recs
  {
    s.(recs := s.recs[a := s.recs[a].(body := b)])
  }

  function SetPe(s: System, p: nat, x: Pe): System
    requires p < |s.pes|
  {
    s.(pes := s.pes[p := x])
  }

  function Unlocked(s: System, a: Addr): System { s.(lock := s.lock - {a}) }

  /** Takes the lock of a REC that exists and is not locked. */
  function LockRec(s: System, p: nat, a: Addr, x: Pe): System
    requires p < |s.pes|
  {
    if s.pes[p].Idle? && a in s.recs && a !in s.lock then SetPe(s, p, x).(lock := s.lock[a := p]) else s
  }

  /** A new REC waits for nothing and has no user; the host chooses its registers. */
  function CreateRec(s: System, p: nat, a: Addr, r: RecObject): System
    requires p < |s.pes|
  {
    if s.pes[p].Idle? && a !in s.recs && a !in s.lock then
      s.(recs := s.recs[a := r.(refcount := 0, body := r.body.(pending := false, cursor := 0))])
    else s
  }

  /** REC_ENTER takes a reference if there is none. */
  function TakeReference(s: System, p: nat): System
    requires p < |s.pes|
  {
    var x := s.pes[p];
    if !x.EnterLocked? || x.r !in s.recs then s
    else if s.recs[x.r].refcount != 0 then SetPe(Unlocked(s, x.r), p, Idle)
    else SetPe(s, p, EnterGot(x.r)).(
           recs := s.recs[x.r := s.recs[x.r].(refcount := s.recs[x.r].refcount + 1)], user := s.user[x.r := p])
  }

  function UnlockEntered(s: System, p: nat): System
    requires p < |s.pes|
  {
    var x := s.pes[p];
    if x.EnterGot? then SetPe(Unlocked(s, x.r), p, Entered(x.r)) else s
  }

  /** REC_ENTER runs a REC that is on and waits for no PSCI answer, in an active realm. */
  function CheckEntered(s: System, p: nat, active: bool): System
    requires p < |s.pes|
  {
    var x := s.pes[p];
    if !x.Entered? || x.r !in s.recs then s
    else if !active || !s.recs[x.r].body.runnable || s.recs[x.r].body.pending then SetPe(s, p, Leaving(x.r))
    else SetPe(s, p, Running(x.r))
  }

  function DropReference(s: System, p: nat): System
    requires p < |s.pes|
  {
    var x := s.pes[p];
    if !x.Leaving? || x.r !in s.recs || s.recs[x.r].refcount == 0 then s
    else SetPe(s, p, Idle).(
           recs := s.recs[x.r := s.recs[x.r].(refcount := s.recs[x.r].refcount - 1)], user := s.user - {x.r})
  }

  function LeaveRealm(s: System, p: nat): System
    requires p < |s.pes|
  {
    if s.pes[p].Running? then SetPe(s, p, Leaving(s.pes[p].r)) else s
  }

  function RunRealm(s: System, p: nat, regs: Regs, pc: Addr, cursor: Addr): System
    requires p < |s.pes|
  {
    var x := s.pes[p];
    if !x.Running? || x.r !in s.recs then s
    else SetBody(s, x.r, s.recs[x.r].body.(regs := regs, pc := pc, cursor := cursor))
  }

  /** A PSCI call of the running REC about another one, recognised by the lower half of `x0`;
      only a valid one exits to the host, any other is answered at once. */
  function CallPsci(s: System, p: nat, count: nat): System
    requires p < |s.pes|
  {
    var x := s.pes[p];
    if !x.Running? || x.r !in s.recs then s
    else
      var r := s.recs[x.r];
      var f := Called(r.body.regs.x0 % NARROW);
      if !f.CpuOnCall? && !f.AffinityCall? then s
      else
        var q := if f.CpuOnCall? then CpuOn(r, count) else AffinityInfo(r, count);
        if q.0.Pending? then SetPe(SetBody(s, x.r, q.1), p, Leaving(x.r))
        else SetBody(s, x.r, r.body.(regs := CLEAR.(x0 := OutcomeWord(f, q.0))))
  }

  function CallOff(s: System, p: nat): System
    requires p < |s.pes|
  {
    var x := s.pes[p];
    if !x.Running? || x.r !in s.recs || !Called(s.recs[x.r].body.regs.x0 % NARROW).CpuOffCall? then s
    else SetPe(SetBody(s, x.r, s.recs[x.r].body.(runnable := false, regs := CLEAR)), p, Leaving(x.r))
  }

  function FinishDestroy(s: System, p: nat): System
    requires p < |s.pes|
  {
    var x := s.pes[p];
    if !x.DestroyLocked? || x.r !in s.recs then s
    else if s.recs[x.r].refcount != 0 then SetPe(Unlocked(s, x.r), p, Idle)
    else SetPe(Unlocked(s, x.r), p, Idle).(recs := s.recs - {x.r})
  }

  function FinishRipas(s: System, p: nat, cursor: Addr): System
    requires p < |s.pes|
  {
    var x := s.pes[p];
    if !x.RipasLocked? || x.r !in s.recs then s
    else if s.recs[x.r].refcount != 0 then SetPe(Unlocked(s, x.r), p, Idle)
    else SetPe(Unlocked(SetBody(s, x.r, s.recs[x.r].body.(cursor := cursor)), x.r), p, Idle)
  }

  function LockPsci(s: System, p: nat, a: Addr, b: Addr): System
    requires p < |s.pes|
  {
    if s.pes[p].Idle? && a in s.recs && b in s.recs && a != b && a !in s.lock && b !in s.lock then
      SetPe(s, p, PsciLocked(a, b)).(lock := s.lock[a := p][b := p])
    else s
  }

  function FinishPsci(s: System, p: nat, status: HostStatus): System
    requires p < |s.pes|
  {
    var x := s.pes[p];
    if !x.PsciLocked? || x.r !in s.recs || x.t !in s.recs then s
    else
      var s1 := SetPe(Unlocked(Unlocked(s, x.r), x.t), p, Idle);
      if s.recs[x.r].refcount != 0 then s1
      else
        match Judge(s.recs[x.r], s.recs[x.t], status)
        case Refused => s1
        case AssertionFails => SetPe(s, p, Panicked(x.r, x.t))
        case Answered =>
          var q := Complete(s.recs[x.r], s.recs[x.t], status);
          SetBody(SetBody(s1, x.r, q.caller), x.t, q.target)
  }

  /** PE `p` takes `step` where it can; otherwise nothing happens. */
  function Next(s: System, p: nat, step: Step): System
    requires p < |s.pes|
  {
    match step
    case Create(a, r) => CreateRec(s, p, a, r)
    case EnterLock(a) => LockRec(s, p, a, EnterLocked(a))
    case EnterGet => TakeReference(s, p)
    case EnterUnlock => UnlockEntered(s, p)
    case EnterCheck(active) => CheckEntered(s, p, active)
    case RealmRuns(regs, pc, cursor) => RunRealm(s, p, regs, pc, cursor)
    case CallPeer(count) => CallPsci(s, p, count)
    case CallCpuOff => CallOff(s, p)
    case ExitToHost => LeaveRealm(s, p)
    case EnterPut => DropReference(s, p)
    case DestroyLock(a) => LockRec(s, p, a, DestroyLocked(a))
    case DestroyFinish => FinishDestroy(s, p)
    case RipasLock(a) => LockRec(s, p, a, RipasLocked(a))
    case RipasFinish(cursor) => FinishRipas(s, p, cursor)
    case PsciLock(a, b) => LockPsci(s, p, a, b)
    case PsciFinish(status) => FinishPsci(s, p, status)
  }

  // ------------------------------------------------------------ the invariant

  /** A PE that uses a REC is its user; a PE that runs one runs a REC that is on and waits
      for no PSCI answer. */
  ghost predicate PeOk(s: System, p: nat)
    requires p < |s.pes|
  {
    var x := s.pes[p];
    && (forall a | Uses(x, a) :: a in s.recs && a in s.user && s.user[a] == p)
    && (forall a | Locks(x, a) :: a in s.recs && a in s.lock && s.lock[a] == p)
    && (x.Running? && x.r in s.recs ==> s.recs[x.r].body.runnable && !s.recs[x.r].body.pending)
    && (x.PsciLocked? || x.Panicked? ==> x.r != x.t)
  }

  /** The count is 1 while a PE uses the REC and 0 otherwise. */
  predicate RecOk(s: System, a: Addr)
    requires a in s.recs
  {
    s.recs[a].refcount == (if a in s.user then 1 else 0) && PendingOk(s.recs[a])
  }

  ghost predicate SysInv(s: System) {
    && (forall p: nat {:trigger PeOk(s, p)} | p < |s.pes| :: PeOk(s, p))
    && (forall a {:trigger RecOk(s, a)} | a in s.recs :: RecOk(s, a))
    && (forall a {:trigger UserOk(s, a)} | a in s.user :: UserOk(s, a))
    && (forall a {:trigger LockOk(s, a)} | a in s.lock :: LockOk(s, a))
  }

  predicate UserOk(s: System, a: Addr) {
    a in s.user && a in s.recs && s.user[a] < |s.pes| && Uses(s.pes[s.user[a]], a)
  }

  predicate LockOk(s: System, a: Addr) {
    a in s.lock && a in s.recs && s.lock[a] < |s.pes| && Locks(s.pes[s.lock[a]], a)
  }

  /** Between `s` and `s2` only PE `p` moved: what other PEs use or lock is as it was, and what is
      used or locked afterwards was so before and still is, or is so by `p` since. */
  ghost predicate MovedBy(s: System, s2: System, p: nat) {
    && p < |s.pes| == |s2.pes| && (forall q | 0 <= q < |s.pes| && q != p :: s2.pes[q] == s.pes[q])
    && (forall a | a in s.user && s.user[a] != p ::
          && a in s2.user && s2.user[a] == s.user[a]
          && (a in s.recs ==> a in s2.recs && s2.recs[a].body == s.recs[a].body))
    && (forall a | a in s.lock && s.lock[a] != p ::
          a in s2.lock && s2.lock[a] == s.lock[a] && (a in s.recs ==> a in s2.recs))
    && (forall a | a in s2.user ::
          || UserOk(s2, a)
          || (a in s.user && s2.user[a] == s.user[a] && (a in s.recs && Uses(s.pes[p], a) ==> UserOk(s2, a))))
    && (forall a | a in s2.lock ::
          || LockOk(s2, a)
          || (a in s.lock && s2.lock[a] == s.lock[a] && (a in s.recs && Locks(s.pes[p], a) ==> LockOk(s2, a))))
  }

  /** A step is good if the PE that moves is, and the RECs that it changes are. */
  lemma FrameInv(s: System, s2: System, p: nat)
    requires SysInv(s) && MovedBy(s, s2, p) && PeOk(s2, p)
    requires forall a | a in s2.recs ::
               (a in s.recs && s2.recs[a] == s.recs[a] && (a in s.user <==> a in s2.user)) || RecOk(s2, a)
    ensures SysInv(s2)
  {
    hide PendingOk, Locks;
    forall q: nat | q < |s2.pes| ensures PeOk(s2, q) { assert PeOk(s, q); }
    forall a | a in s2.recs ensures RecOk(s2, a) { if a in s.recs { assert RecOk(s, a); } }
    forall a | a in s2.user ensures UserOk(s2, a) { if a in s.user { assert UserOk(s, a); } }
    forall a | a in s2.lock ensures LockOk(s2, a) { if a in s.lock { assert LockOk(s, a); } }
  }

  lemma LockRecInv(s: System, p: nat, a: Addr, x: Pe)
    requires SysInv(s) && p < |s.pes| && (x == EnterLocked(a) || x == DestroyLocked(a) || x == RipasLocked(a))
    ensures SysInv(LockRec(s, p, a, x))
  {
    assert PeOk(s, p);
    FrameInv(s, LockRec(s, p, a, x), p);
  }

  lemma CreateRecInv(s: System, p: nat, a: Addr, r: RecObject)
    requires SysInv(s) && p < |s.pes|
    ensures SysInv(CreateRec(s, p, a, r))
  {
    assert PeOk(s, p);
    if a in s.user { assert UserOk(s, a); }
    FrameInv(s, CreateRec(s, p, a, r), p);
  }

  lemma TakeReferenceInv(s: System, p: nat)
    requires SysInv(s) && p < |s.pes|
    ensures SysInv(TakeReference(s, p))
  {
    assert PeOk(s, p);
    if s.pes[p].EnterLocked? { assert RecOk(s, s.pes[p].r); }
    FrameInv(s, TakeReference(s, p), p);
  }

  lemma UnlockEnteredInv(s: System, p: nat)
    requires SysInv(s) && p < |s.pes|
    ensures SysInv(UnlockEntered(s, p))
  {
    assert PeOk(s, p);
    FrameInv(s, UnlockEntered(s, p), p);
  }

  lemma CheckEnteredInv(s: System, p: nat, active: bool)
    requires SysInv(s) && p < |s.pes|
    ensures SysInv(CheckEntered(s, p, active))
  {
    assert PeOk(s, p);
    FrameInv(s, CheckEntered(s, p, active), p);
  }

  lemma RunRealmInv(s: System, p: nat, regs: Regs, pc: Addr, cursor: Addr)
    requires SysInv(s) && p < |s.pes|
    ensures SysInv(RunRealm(s, p, regs, pc, cursor))
  {
    assert PeOk(s, p);
    if s.pes[p].Running? { assert RecOk(s, s.pes[p].r); }
    FrameInv(s, RunRealm(s, p, regs, pc, cursor), p);
  }

  lemma CallPsciInv(s: System, p: nat, count: nat)
    requires SysInv(s) && p < |s.pes|
    ensures SysInv(CallPsci(s, p, count))
  {
    assert PeOk(s, p);
    if s.pes[p].Running? { assert RecOk(s, s.pes[p].r); }
    FrameInv(s, CallPsci(s, p, count), p);
  }

  lemma CallOffInv(s: System, p: nat)
    requires SysInv(s) && p < |s.pes|
    ensures SysInv(CallOff(s, p))
  {
    assert PeOk(s, p);
    if s.pes[p].Running? { assert RecOk(s, s.pes[p].r); }
    FrameInv(s, CallOff(s, p), p);
  }

  lemma LeaveRealmInv(s: System, p: nat)
    requires SysInv(s) && p < |s.pes|
    ensures SysInv(LeaveRealm(s, p))
  {
    assert PeOk(s, p);
    FrameInv(s, LeaveRealm(s, p), p);
  }

  lemma DropReferenceInv(s: System, p: nat)
    requires SysInv(s) && p < |s.pes|
    ensures SysInv(DropReference(s, p))
  {
    assert PeOk(s, p);
    if s.pes[p].Leaving? { assert RecOk(s, s.pes[p].r); }
    FrameInv(s, DropReference(s, p), p);
  }

  lemma FinishDestroyInv(s: System, p: nat)
    requires SysInv(s) && p < |s.pes|
    ensures SysInv(FinishDestroy(s, p))
  {
    assert PeOk(s, p);
    if s.pes[p].DestroyLocked? { assert RecOk(s, s.pes[p].r); }
    FrameInv(s, FinishDestroy(s, p), p);
  }

  lemma FinishRipasInv(s: System, p: nat, cursor: Addr)
    requires SysInv(s) && p < |s.pes|
    ensures SysInv(FinishRipas(s, p, cursor))
  {
    assert PeOk(s, p);
    if s.pes[p].RipasLocked? { assert RecOk(s, s.pes[p].r); }
    FrameInv(s, FinishRipas(s, p, cursor), p);
  }

  lemma LockPsciInv(s: System, p: nat, a: Addr, b: Addr)
    requires SysInv(s) && p < |s.pes|
    ensures SysInv(LockPsci(s, p, a, b))
  {
    assert PeOk(s, p);
    FrameInv(s, LockPsci(s, p, a, b), p);
  }

  /** The state of a REC that nobody uses may change. */
  lemma SetBodyInv(s: System, a: Addr, b: Body)
    requires SysInv(s) && a in s.recs && PendingOk(s.recs[a].(body := b))
    requires b == s.recs[a].body || s.recs[a].refcount == 0
    ensures SysInv(SetBody(s, a, b))
  {
    hide PendingOk;
    var s2 := SetBody(s, a, b);
    assert RecOk(s, a);
    forall q: nat | q < |s2.pes| ensures PeOk(s2, q) { assert PeOk(s, q); }
    forall a | a in s2.recs ensures RecOk(s2, a) { assert RecOk(s, a); }
    forall a | a in s2.user ensures UserOk(s2, a) { assert UserOk(s, a); }
    forall a | a in s2.lock ensures LockOk(s2, a) { assert LockOk(s, a); }
  }

  lemma UnlockPsciInv(s: System, p: nat)
    requires SysInv(s) && p < |s.pes| && s.pes[p].PsciLocked?
    ensures SysInv(SetPe(Unlocked(Unlocked(s, s.pes[p].r), s.pes[p].t), p, Idle))
    ensures SysInv(SetPe(s, p, Panicked(s.pes[p].r, s.pes[p].t)))
  {
    assert PeOk(s, p);
    var x := s.pes[p];
    FrameInv(s, SetPe(Unlocked(Unlocked(s, x.r), x.t), p, Idle), p);
    FrameInv(s, SetPe(s, p, Panicked(x.r, x.t)), p);
  }

  lemma FinishPsciInv(s: System, p: nat, status: HostStatus)
    requires SysInv(s) && p < |s.pes|
    ensures SysInv(FinishPsci(s, p, status))
  {
    var x := s.pes[p];
    if x.PsciLocked? {
      assert PeOk(s, p);
      assert RecOk(s, x.r) && RecOk(s, x.t);
      UnlockPsciInv(s, p);
      var s1 := SetPe(Unlocked(Unlocked(s, x.r), x.t), p, Idle);
      if s.recs[x.r].refcount == 0 && Judge(s.recs[x.r], s.recs[x.t], status).Answered? {
        CompleteKeeps(s.recs[x.r], s.recs[x.t], status);
        hide PendingOk, Judge, Complete, SysInv;
        var q := Complete(s.recs[x.r], s.recs[x.t], status);
        SetBodyInv(s1, x.r, q.caller);
        SetBodyInv(SetBody(s1, x.r, q.caller), x.t, q.target);
      }
    }
  }

  /** Every step keeps the invariant. */
  lemma StepInv(s: System, p: nat, step: Step)
    requires SysInv(s) && p < |s.pes|
    ensures SysInv(Next(s, p, step))
  {
    hide SysInv, CreateRec, LockRec, TakeReference, UnlockEntered, CheckEntered, DropReference, LeaveRealm, RunRealm,
         CallPsci, CallOff, FinishDestroy, FinishRipas, LockPsci, FinishPsci;
    match step
    case Create(a, r) => CreateRecInv(s, p, a, r);
    case EnterLock(a) => LockRecInv(s, p, a, EnterLocked(a));
    case EnterGet => TakeReferenceInv(s, p);
    case EnterUnlock => UnlockEnteredInv(s, p);
    case EnterCheck(active) => CheckEnteredInv(s, p, active);
    case RealmRuns(regs, pc, cursor) => RunRealmInv(s, p, regs, pc, cursor);
    case CallPeer(count) => CallPsciInv(s, p, count);
    case CallCpuOff => CallOffInv(s, p);
    case ExitToHost => LeaveRealmInv(s, p);
    case EnterPut => DropReferenceInv(s, p);
    case DestroyLock(a) => LockRecInv(s, p, a, DestroyLocked(a));
    case DestroyFinish => FinishDestroyInv(s, p);
    case RipasLock(a) => LockRecInv(s, p, a, RipasLocked(a));
    case RipasFinish(cursor) => FinishRipasInv(s, p, cursor);
    case PsciLock(a, b) => LockPsciInv(s, p, a, b);
    case PsciFinish(status) => FinishPsciInv(s, p, status);
  }

  // ------------------------------------------------------------ every interleaving

  datatype Action = Action(pe: nat, step: Step)

  function Run(s: System, acts: seq<Action>): (s2: System)
    decreases |acts|
  {
    if acts == [] || acts[0].pe >= |s.pes| then s
    else Run(Next(s, acts[0].pe, acts[0].step), acts[1..])
  }

  predicate Initial(s: System) {
    s.recs == map[] && s.lock == map[] && s.user == map[] && forall p | 0 <= p < |s.pes| :: s.pes[p] == Idle
  }

  lemma {:induction false} RunInv(s: System, acts: seq<Action>)
    requires SysInv(s)
    ensures SysInv(Run(s, acts))
    decreases |acts|
  {
    if acts != [] && acts[0].pe < |s.pes| {
      StepInv(s, acts[0].pe, acts[0].step);
      RunInv(Next(s, acts[0].pe, acts[0].step), acts[1..]);
    }
  }

  /** In every interleaving a reference count is 0 or 1, and it is 1 exactly while one PE, and
      no other, uses the REC. No REC disappears while it is used. */
  lemma SingleUser(s: System, acts: seq<Action>, a: Addr, p: nat, q: nat)
    requires Initial(s)
    ensures var s2 := Run(s, acts);
            && (a in s2.recs ==> s2.recs[a].refcount <= 1)
            && (p < |s2.pes| && Uses(s2.pes[p], a) ==> a in s2.recs && s2.recs[a].refcount == 1)
            && (p < |s2.pes| && q < |s2.pes| && Uses(s2.pes[p], a) && Uses(s2.pes[q], a) ==> p == q)
            && (a in s2.recs && s2.recs[a].refcount == 1 ==> exists u: nat :: u < |s2.pes| && Uses(s2.pes[u], a))
  {
    assert SysInv(s);
    RunInv(s, acts);
    var s2 := Run(s, acts);
    hide Run;
    if a in s2.recs { assert RecOk(s2, a); }
    if a in s2.user { assert UserOk(s2, a); }
    if p < |s2.pes| { assert PeOk(s2, p); }
    if q < |s2.pes| { assert PeOk(s2, q); }
  }

  /** A step of PE `p` would change the mutable state of REC `a`. */
  predicate Changes(s: System, p: nat, step: Step, a: Addr) {
    && p < |s.pes| && a in s.recs && a in Next(s, p, step).recs
    && Next(s, p, step).recs[a].body != s.recs[a].body
  }

  /** In every interleaving, a step that changes the mutable state of a REC is taken by the PE
      that runs it, or by a PE that has locked it while nobody uses it; at any time there is at
      most one PE that can take such a step. */
  lemma WriteDiscipline(s: System, acts: seq<Action>, p: nat, q: nat, step: Step, other: Step, a: Addr)
    requires Initial(s)
    requires Changes(Run(s, acts), p, step, a)
    ensures var s1 := Run(s, acts);
            s1.pes[p] == Running(a) || (Locks(s1.pes[p], a) && s1.recs[a].refcount == 0)
    ensures Changes(Run(s, acts), q, other, a) ==> p == q
  {
    assert SysInv(s);
    RunInv(s, acts);
    var s1 := Run(s, acts);
    hide Run;
    ChangedBy(s1, p, step, a);
    assert PeOk(s1, p) && RecOk(s1, a);
    if Changes(s1, q, other, a) {
      ChangedBy(s1, q, other, a);
      assert PeOk(s1, q);
    }
  }

  lemma ChangedBy(s: System, p: nat, step: Step, a: Addr)
    requires SysInv(s) && Changes(s, p, step, a)
    ensures s.pes[p] == Running(a) || (Locks(s.pes[p], a) && s.recs[a].refcount == 0)
  {
    assert PeOk(s, p);
  }

  /** PE `p` answers a CPU_ON request of another REC of the same realm that names the index of
      `a`; the entry point is a protected address. */
  predicate AnswersCpuOn(s: System, p: nat, a: Addr)
    requires p < |s.pes| && a in s.recs
  {
    && s.pes[p].PsciLocked? && s.pes[p].t == a
    && var c := s.pes[p].r;
    && c != a && c in s.recs
    && s.recs[c].body.pending && Called(s.recs[c].body.regs.x0).CpuOnCall?
    && s.recs[c].rd == s.recs[a].rd && RecIdx(s.recs[c].body.regs.x1) == s.recs[a].idx
    && s.recs[c].body.regs.x2 < s.recs[c].par
  }

  /** `step` turns REC `a` on. */
  predicate TurnsOn(s: System, p: nat, step: Step, a: Addr) {
    && p < |s.pes| && a in s.recs && !s.recs[a].body.runnable
    && a in Next(s, p, step).recs && Next(s, p, step).recs[a].body.runnable
  }

  lemma OnlyFinishTurnsOn(s: System, p: nat, step: Step, a: Addr)
    requires TurnsOn(s, p, step, a)
    ensures step.PsciFinish?
  {
    hide FinishPsci, RecIdx;
  }

  lemma FinishTurnsOn(s: System, p: nat, status: HostStatus, a: Addr)
    requires SysInv(s) && TurnsOn(s, p, PsciFinish(status), a)
    ensures status == HostSuccess && AnswersCpuOn(s, p, a)
    ensures var s2 := FinishPsci(s, p, status);
            var c := s.recs[s.pes[p].r];
            s2.recs[a].body.pc == c.body.regs.x2 && s2.recs[a].body.regs.x0 == c.body.regs.x3
  {
    hide RecIdx;
    assert PeOk(s, p);
    var x := s.pes[p];
    if x.PsciLocked? {
      assert RecOk(s, x.r);
      assert s.recs[x.r].body.regs.x0 < NARROW ==> s.recs[x.r].body.regs.x0 % NARROW == s.recs[x.r].body.regs.x0;
    }
    hide SysInv, PeOk;
  }

  /** In every interleaving, a REC that is off becomes runnable only through the completion of
      a CPU_ON request that another REC of the same realm made, that names its index and that
      the host did not deny; it then starts at the protected address that the caller gave, with
      the caller's context in `x0`. */
  lemma TurnedOnOnlyByRequest(s: System, acts: seq<Action>, p: nat, step: Step, a: Addr)
    requires Initial(s) && TurnsOn(Run(s, acts), p, step, a)
    ensures var s1 := Run(s, acts);
            && step == PsciFinish(HostSuccess) && AnswersCpuOn(s1, p, a)
            && var c, b := s1.recs[s1.pes[p].r], Next(s1, p, step).recs[a].body;
            b.pc == c.body.regs.x2 && b.regs.x0 == c.body.regs.x3
  {
    assert SysInv(s);
    RunInv(s, acts);
    hide Run, FinishPsci, SysInv, AnswersCpuOn;
    OnlyFinishTurnsOn(Run(s, acts), p, step, a);
    FinishTurnsOn(Run(s, acts), p, step.status, a);
  }

  // ------------------------------------------------------------ the assertion of PSCI_COMPLETE

  /** In every interleaving, a PE meets the assertion exactly if it completes a pending request of
      an unused REC of the same realm, naming the target, that was made with a non-zero upper
      half of `x0`. */
  lemma PanicExactly(s: System, acts: seq<Action>, p: nat, step: Step)
    requires Initial(s) && p < |Run(s, acts).pes| && !Run(s, acts).pes[p].Panicked?
    ensures var s1 := Run(s, acts);
            var x := s1.pes[p];
            |Next(s1, p, step).pes| == |s1.pes| &&
            (Next(s1, p, step).pes[p].Panicked? <==>
               && step.PsciFinish? && x.PsciLocked? && x.r in s1.recs && x.t in s1.recs
               && s1.recs[x.r].refcount == 0 && s1.recs[x.r].body.pending
               && s1.recs[x.r].rd == s1.recs[x.t].rd && RecIdx(s1.recs[x.r].body.regs.x1) == s1.recs[x.t].idx
               && s1.recs[x.r].body.regs.x0 >= NARROW)
  {
    assert SysInv(s);
    RunInv(s, acts);
    var s1 := Run(s, acts);
    hide Run;
    assert PeOk(s1, p);
    var x := s1.pes[p];
    if step.PsciFinish? && x.PsciLocked? {
      assert RecOk(s1, x.r);
      AssertionExactly(s1.recs[x.r], s1.recs[x.t], step.status);
    }
  }

  /** Every PSCI call of the run is made with a zero upper half of `x0`. */
  ghost predicate NarrowCalls(s: System, acts: seq<Action>)
    decreases |acts|
  {
    acts == [] || acts[0].pe >= |s.pes| || (
      && (var x := s.pes[acts[0].pe];
          acts[0].step.CallPeer? && x.Running? && x.r in s.recs ==> s.recs[x.r].body.regs.x0 < NARROW)
      && NarrowCalls(Next(s, acts[0].pe, acts[0].step), acts[1..]))
  }

  ghost predicate NoPanic(s: System) {
    && (forall p | 0 <= p < |s.pes| :: !s.pes[p].Panicked?)
    && (forall a | a in s.recs && s.recs[a].body.pending :: s.recs[a].body.regs.x0 < NARROW)
  }

  lemma NoPanicStep(s: System, act: Action)
    requires SysInv(s) && NoPanic(s) && act.pe < |s.pes| && NarrowCalls(s, [act])
    ensures NoPanic(Next(s, act.pe, act.step))
  {
    if act.step.PsciFinish? {
      NoPanicFinish(s, act.pe, act.step.status);
    } else {
      assert PeOk(s, act.pe);
      hide SysInv, PeOk;
      var s2 := Next(s, act.pe, act.step);
      hide Next;
      forall a | a in s2.recs && s2.recs[a].body.pending ensures s2.recs[a].body.regs.x0 < NARROW {
        PendingBefore(s, act.pe, act.step, a);
      }
      NoNewPanic(s, act.pe, act.step);
    }
  }

  /** A request waits only because it did before, or because the REC has just made it. */
  lemma PendingBefore(s: System, p: nat, step: Step, a: Addr)
    requires p < |s.pes| && PeOk(s, p) && !step.PsciFinish?
    requires a in Next(s, p, step).recs && Next(s, p, step).recs[a].body.pending
    ensures a in s.recs && Next(s, p, step).recs[a].body.regs == s.recs[a].body.regs
    ensures s.recs[a].body.pending || (step.CallPeer? && s.pes[p] == Running(a))
  {
    hide FinishPsci, PendingOk, Called, RecIdx;
  }

  lemma NoNewPanic(s: System, p: nat, step: Step)
    requires p < |s.pes| && !step.PsciFinish?
    ensures |Next(s, p, step).pes| == |s.pes|
    ensures forall q | 0 <= q < |s.pes| && Next(s, p, step).pes[q].Panicked? :: s.pes[q].Panicked?
  {
    hide FinishPsci, PendingOk, Called, RecIdx;
  }

  lemma NoPanicFinish(s: System, p: nat, status: HostStatus)
    requires SysInv(s) && NoPanic(s) && p < |s.pes|
    ensures NoPanic(FinishPsci(s, p, status))
  {
    var x := s.pes[p];
    assert PeOk(s, p);
    if x.PsciLocked? {
      assert RecOk(s, x.r) && RecOk(s, x.t);
      AssertionExactly(s.recs[x.r], s.recs[x.t], status);
      if Judge(s.recs[x.r], s.recs[x.t], status).Answered? { CompleteKeeps(s.recs[x.r], s.recs[x.t], status); }
    }
    hide PendingOk, Judge, Complete, SysInv;
  }

  /** In every interleaving with such calls only, no PE meets the assertion. */
  lemma {:induction false} NarrowCallsNeverPanic(s: System, acts: seq<Action>)
    requires SysInv(s) && NoPanic(s) && NarrowCalls(s, acts)
    ensures NoPanic(Run(s, acts))
    decreases |acts|
  {
    if acts != [] && acts[0].pe < |s.pes| {
      assert NarrowCalls(s, [acts[0]]);
      NoPanicStep(s, acts[0]);
      StepInv(s, acts[0].pe, acts[0].step);
      NarrowCallsNeverPanic(Next(s, acts[0].pe, acts[0].step), acts[1..]);
    }
  }

  /** Over every interleaving from the start. */
  lemma NeverPanics(s: System, acts: seq<Action>, p: nat)
    requires Initial(s) && NarrowCalls(s, acts) && p < |Run(s, acts).pes|
    ensures !Run(s, acts).pes[p].Panicked?
  {
    NarrowCallsNeverPanic(s, acts);
  }

  /** A REC as REC_CREATE makes it. */
  predicate Fresh(r: RecObject) { r.refcount == 0 && !r.body.pending && r.body.cursor == 0 }

  /** The first call of `r` will be a valid CPU_ON about `t`, but with a non-zero upper half. */
  predicate CallsWide(r: RecObject, t: RecObject, count: nat) {
    && Fresh(r) && Fresh(t) && r.body.runnable && r.rd == t.rd && RecIdx(r.body.regs.x1) == t.idx
    && r.body.regs.x0 >= NARROW && Called(r.body.regs.x0 % NARROW).CpuOnCall? && CpuOn(r, count).0.Pending?
  }

  /** The host creates both RECs, enters the first and completes its request. */
  function WideCall(r: RecObject, t: RecObject, count: nat): seq<Step> {
    [Create(1, r), Create(2, t), EnterLock(1), EnterGet, EnterUnlock, EnterCheck(true),
     CallPeer(count), EnterPut, PsciLock(1, 2), PsciFinish(HostSuccess)]
  }

  /** The state before step `k` of that run. */
  function WideState(k: nat, r: RecObject, t: RecObject): System {
    var waits := r.(body := r.body.(pending := true));
    match k
    case 0 => System(map[], [Idle], map[], map[])
    case 1 => System(map[1 := r], [Idle], map[], map[])
    case 2 => System(map[1 := r, 2 := t], [Idle], map[], map[])
    case 3 => System(map[1 := r, 2 := t], [EnterLocked(1)], map[1 := 0], map[])
    case 4 => System(map[1 := r.(refcount := 1), 2 := t], [EnterGot(1)], map[1 := 0], map[1 := 0])
    case 5 => System(map[1 := r.(refcount := 1), 2 := t], [Entered(1)], map[], map[1 := 0])
    case 6 => System(map[1 := r.(refcount := 1), 2 := t], [Running(1)], map[], map[1 := 0])
    case 7 => System(map[1 := waits.(refcount := 1), 2 := t], [Leaving(1)], map[], map[1 := 0])
    case 8 => System(map[1 := waits, 2 := t], [Idle], map[], map[])
    case 9 => System(map[1 := waits, 2 := t], [PsciLocked(1, 2)], map[1 := 0, 2 := 0], map[])
    case _ => System(map[1 := waits, 2 := t], [Panicked(1, 2)], map[1 := 0, 2 := 0], map[])
  }

  lemma WideEnter(r: RecObject, t: RecObject, count: nat)
    requires CallsWide(r, t, count)
    ensures forall k | 0 <= k < 6 ::
              Next(WideState(k, r, t), 0, WideCall(r, t, count)[k]) == WideState(k + 1, r, t)
  {
    hide RecIdx, Called, CallPsci, FinishPsci;
    assert Next(WideState(0, r, t), 0, WideCall(r, t, count)[0]) == WideState(1, r, t);
    assert Next(WideState(1, r, t), 0, WideCall(r, t, count)[1]) == WideState(2, r, t);
    assert Next(WideState(2, r, t), 0, WideCall(r, t, count)[2]) == WideState(3, r, t);
    assert Next(WideState(3, r, t), 0, WideCall(r, t, count)[3]) == WideState(4, r, t);
    assert Next(WideState(4, r, t), 0, WideCall(r, t, count)[4]) == WideState(5, r, t);
    assert Next(WideState(5, r, t), 0, WideCall(r, t, count)[5]) == WideState(6, r, t);
  }

  lemma WideLeave(r: RecObject, t: RecObject, count: nat)
    requires CallsWide(r, t, count)
    ensures forall k | 6 <= k < 8 ::
              Next(WideState(k, r, t), 0, WideCall(r, t, count)[k]) == WideState(k + 1, r, t)
  {
    hide RecIdx, Called, FinishPsci, LockPsci;
    assert Next(WideState(6, r, t), 0, WideCall(r, t, count)[6]) == WideState(7, r, t);
    assert Next(WideState(7, r, t), 0, WideCall(r, t, count)[7]) == WideState(8, r, t);
  }

  lemma WideComplete(r: RecObject, t: RecObject, count: nat)
    requires CallsWide(r, t, count)
    ensures forall k | 8 <= k < 10 ::
              Next(WideState(k, r, t), 0, WideCall(r, t, count)[k]) == WideState(k + 1, r, t)
  {
    var waits := r.(body := r.body.(pending := true));
    assert Judge(waits, t, HostSuccess).AssertionFails?;
    hide RecIdx, Called, CallPsci, Judge, Complete;
    assert Next(WideState(8, r, t), 0, WideCall(r, t, count)[8]) == WideState(9, r, t);
    assert Next(WideState(9, r, t), 0, WideCall(r, t, count)[9]) == WideState(10, r, t);
  }

  /** Every such call leads to the assertion. */
  lemma WideCallPanics(r: RecObject, t: RecObject, count: nat)
    requires CallsWide(r, t, count)
    ensures Initial(WideState(0, r, t))
    ensures var acts := seq(10, k requires 0 <= k < 10 => Action(0, WideCall(r, t, count)[k]));
            Run(WideState(0, r, t), acts).pes == [Panicked(1, 2)]
  {
    WideEnter(r, t, count);
    WideLeave(r, t, count);
    WideComplete(r, t, count);
    hide Run, Next, CallsWide;
    RunStates(seq(11, k requires 0 <= k < 11 => WideState(k, r, t)),
              seq(10, k requires 0 <= k < 10 => Action(0, WideCall(r, t, count)[k])));
  }

  /** There is such a call. */
  lemma WideCallExists()
    ensures CallsWide(RecObject(0, 0, 0x1000, 0, Body(true, false, Regs(0x1_C400_0003, 1, 0, 0), 0, 0)),
                      RecObject(0, 1, 0x1000, 0, Body(false, false, CLEAR, 0, 0)), 2)
  {
    assert 0x1_C400_0003 % NARROW == 0xC400_0003 && RecIdx(1) == 1;
  }

  lemma {:induction false} RunStates(states: seq<System>, acts: seq<Action>)
    requires |states| == |acts| + 1
    requires forall k | 0 <= k < |acts| ::
               acts[k].pe < |states[k].pes| && Next(states[k], acts[k].pe, acts[k].step) == states[k + 1]
    ensures Run(states[0], acts) == states[|acts|]
  {
    if acts != [] { RunStates(states[1..], acts[1..]); }
  }

  // ------------------------------------------------------------ the handlers, in place

  /** A mapped REC granule. */
  class RecMemory {
    const rd: Addr
    const idx: nat
    const par: nat
    var refcount: nat
    var runnable: bool
    var pending: bool
    var regs: Regs
    var pc: Addr
    var cursor: Addr

    constructor (rd: Addr, idx: nat, par: nat, runnable: bool, regs: Regs, pc: Addr)
      ensures Value() == RecObject(rd, idx, par, 0, Body(runnable, false, regs, pc, 0)) && PendingOk(Value())
    {
      this.rd, this.idx, this.par, this.runnable, this.regs, this.pc := rd, idx, par, runnable, regs, pc;
      refcount, pending, cursor := 0, false, 0;
    }

    ghost function Value(): RecObject
      reads this
    {
      RecObject(rd, idx, par, refcount, Body(runnable, pending, regs, pc, cursor))
    }

    /** psci_cpu_on: the request waits for the host exactly if it names a protected entry point
        and another REC of the realm. */
    method HandleCpuOn(count: nat) returns (outcome: Outcome)
      modifies this`pending
      ensures outcome.Pending? <==> regs.x2 < par && RecIdx(regs.x1) < count && RecIdx(regs.x1) != idx
      ensures outcome.InvalidAddress? <==> par <= regs.x2
      ensures outcome.SelfOn? <==> regs.x2 < par && RecIdx(regs.x1) == idx < count
      ensures pending <==> old(pending) || outcome.Pending?
      ensures runnable && old(!pending) && Called(regs.x0 % NARROW).CpuOnCall? ==> PendingOk(Value())
      ensures (outcome, Value().body) == CpuOn(old(Value()), count)
    {
      if regs.x2 >= par { return InvalidAddress; }
      if RecIdx(regs.x1) >= count { return InvalidParams; }
      if RecIdx(regs.x1) == idx { return SelfOn; }
      pending := true;
      return Pending;
    }

    /** psci_affinity_info: only the lowest affinity level is served. */
    method HandleAffinityInfo(count: nat) returns (outcome: Outcome)
      modifies this`pending
      ensures outcome.Pending? <==> regs.x2 == 0 && RecIdx(regs.x1) < count && RecIdx(regs.x1) != idx
      ensures outcome.SelfOn? <==> regs.x2 == 0 && RecIdx(regs.x1) == idx < count
      ensures !outcome.InvalidAddress?
      ensures pending <==> old(pending) || outcome.Pending?
      ensures runnable && old(!pending) && Called(regs.x0 % NARROW).AffinityCall? ==> PendingOk(Value())
      ensures (outcome, Value().body) == AffinityInfo(old(Value()), count)
    {
      if regs.x2 != 0 { return InvalidParams; }
      if RecIdx(regs.x1) >= count { return InvalidParams; }
      if RecIdx(regs.x1) == idx { return SelfOn; }
      pending := true;
      return Pending;
    }

    /** complete_psci_cpu_on, for the target: a REC that is on or in use is left alone, and a
        REC that waits for an answer itself keeps its request. */
    method TurnOn(entry: Addr, context: Word, status: HostStatus) returns (result: PsciResult)
      modifies this`runnable, this`pc, this`regs
      ensures result == if old(IsOn(Value())) then AlreadyOn else if status == HostDenied then Denied else TurnedOn
      ensures !result.TurnedOn? ==> Value() == old(Value())
      ensures result.TurnedOn? ==> Value() == old(Value()).(body :=
                old(Value()).body.(runnable := true, pc := entry, regs := old(regs).(x0 := context)))
      ensures old(PendingOk(Value())) ==> PendingOk(Value()) && (pending ==> regs == old(regs))
    {
      if refcount != 0 || runnable { return AlreadyOn; }
      if status == HostDenied { return Denied; }
      regs := regs.(x0 := context);
      pc := entry;
      runnable := true;
      return TurnedOn;
    }

    /** psci_complete_request. Where it meets its assertion nothing has been changed. */
    method CompleteRequest(target: RecMemory, status: HostStatus) returns (verdict: Verdict, ok: bool)
      requires target != this && PendingOk(Value()) && PendingOk(target.Value())
      modifies this, target
      ensures verdict == Judge(old(Value()), old(target.Value()), status)
      ensures verdict.AssertionFails? <==>
                old(pending) && rd == target.rd && RecIdx(old(regs.x1)) == target.idx && old(regs.x0) >= NARROW
      ensures PendingOk(Value()) && PendingOk(target.Value())
      ensures verdict.Answered? ==> !pending && regs.x1 == regs.x2 == regs.x3 == 0
      ensures verdict.Answered? && old(regs.x0) in {0x8400_0004, 0xC400_0004} ==>
                && regs.x0 == (if old(target.refcount != 0 || target.runnable) then 0 else 1)
                && ok && target.Value() == old(target.Value())
      ensures verdict.Answered? && old(regs.x0) in {0x8400_0003, 0xC400_0003} ==>
                var on := old(target.refcount != 0 || target.runnable);
                && regs.x0 == (if on then 0xFFFF_FFFF_FFFF_FFFC
                               else if status == HostDenied then 0xFFFF_FFFF_FFFF_FFFD else 0)
                && (ok <==> !on || status != HostDenied)
                && (if !on && status != HostDenied then
                      target.runnable && target.pc == old(regs.x2) && target.regs.x0 == old(regs.x3)
                    else target.Value() == old(target.Value()))
      ensures !verdict.Answered? ==> !ok && Value() == old(Value()) && target.Value() == old(target.Value())
      ensures verdict.Answered? ==>
                var q := Complete(old(Value()), old(target.Value()), status);
                && ok == q.ok && Value() == old(Value()).(body := q.caller)
                && target.Value() == old(target.Value()).(body := q.target)
    {
      AssertionExactly(Value(), target.Value(), status);
      CompletionAnswers(Value(), target.Value(), status);
      hide RecIdx;
      if !pending || rd != target.rd || RecIdx(regs.x1) != target.idx { return Refused, false; }
      ok := true;
      var result;
      match Called(regs.x0) {
        case CpuOnCall =>
          if status == HostOther { return Refused, false; }
          result := target.TurnOn(regs.x2, regs.x3, status);
          ok := !(status == HostDenied && result == AlreadyOn);
        case AffinityCall =>
          if status != HostSuccess { return Refused, false; }
          result := if target.refcount != 0 || target.runnable then AffinityOn else AffinityOff;
        case _ =>
          return AssertionFails, false;
      }
      regs := CLEAR.(x0 := ResultWord(result));
      pending := false;
      verdict := Answered;
    }
  }
}
