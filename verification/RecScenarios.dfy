/** What sequences of steps of one PE do to the RECs, from any good state: entering, leaving and
    destroying a REC, the calls of a running REC and their answers. */
module RecScenarios {
  import opened S2Geometry
  import opened RecProtocol

  /** The index of a REC is made of the four affinity fields of its MPIDR, the lowest of 4 bits and
      the others of 8 bits each, next to each other; all other bits are ignored. */
  lemma IndexOfMpidr(aff0: nat, x: nat, aff1: nat, aff2: nat, y: nat, aff3: nat, z: nat)
    requires aff0 < 16 && x < 16 && aff1 < 256 && aff2 < 256 && y < 256 && aff3 < 256
    ensures var mpidr := aff0 + 0x10 * x + 0x100 * aff1 + 0x1_0000 * aff2 + 0x100_0000 * y
                         + 0x1_0000_0000 * aff3 + 0x100_0000_0000 * z;
            RecIdx(mpidr) == aff0 + 16 * (aff1 + 256 * (aff2 + 256 * aff3))
  {
    var c := aff3 + 0x100 * z;
    var b := aff2 + 0x100 * y + 0x1_0000 * c;
    var a := aff1 + 0x100 * b;
    var mpidr := aff0 + 0x10 * x + 0x100 * a;
    DivUnique(mpidr, 0x10, x + 0x10 * a, aff0);
    DivUnique(mpidr, 0x100, a, aff0 + 0x10 * x);
    DivUnique(a, 0x100, b, aff1);
    DivUnique(mpidr, 0x1_0000, b, aff0 + 0x10 * x + 0x100 * aff1);
    DivUnique(b, 0x100, y + 0x100 * c, aff2);
    DivUnique(mpidr, 0x1_0000_0000, c, aff0 + 0x10 * x + 0x100 * aff1 + 0x1_0000 * aff2 + 0x100_0000 * y);
    DivUnique(c, 0x100, z, aff3);
  }

  /** Nobody has locked or uses REC `a`, and PE `p` is free. */
  predicate Free(s: System, p: nat, a: Addr) {
    p < |s.pes| && s.pes[p] == Idle && a in s.recs && a !in s.lock && a !in s.user && s.recs[a].refcount == 0
  }

  // ------------------------------------------------------------ the calls of a running REC

  /** The answer that a running REC gets in `x0`, or that its call waits for the host. */
  lemma CallAnswers(s: System, p: nat, a: Addr, count: nat)
    requires p < |s.pes| && s.pes[p] == Running(a) && a in s.recs
    ensures var r := s.recs[a];
            var f, i := r.body.regs.x0 % NARROW, RecIdx(r.body.regs.x1);
            var cpuOn, affinity := f in {0x8400_0003, 0xC400_0003}, f in {0x8400_0004, 0xC400_0004};
            var s2 := Next(s, p, CallPeer(count));
            && (!cpuOn && !affinity ==> s2 == s)
            && (cpuOn || affinity ==>
                  && a in s2.recs && |s2.pes| == |s.pes|
                  && (if cpuOn && r.par <= r.body.regs.x2 then Answers(s, s2, p, a, 0xFFFF_FFFF_FFFF_FFF7)
                      else if affinity && r.body.regs.x2 != 0 then Answers(s, s2, p, a, 0xFFFF_FFFF_FFFF_FFFE)
                      else if count <= i then Answers(s, s2, p, a, 0xFFFF_FFFF_FFFF_FFFE)
                      else if i == r.idx then Answers(s, s2, p, a, if cpuOn then 0xFFFF_FFFF_FFFF_FFFC else 0)
                      else s2.pes[p] == Leaving(a) && s2.recs[a] == r.(body := r.body.(pending := true))))
  {
    hide RecIdx;
  }

  /** The REC goes on running with `x0` in its first register and zeroes in the next three. */
  predicate Answers(s: System, s2: System, p: nat, a: Addr, x0: Word)
    requires a in s.recs && a in s2.recs
  {
    s2.pes == s.pes && s2.recs[a] == s.recs[a].(body := s.recs[a].body.(regs := Regs(x0, 0, 0, 0)))
  }

  /** CPU_OFF turns the running REC off, with SUCCESS in `x0`, and leaves the realm. */
  lemma CallOffAnswers(s: System, p: nat, a: Addr)
    requires p < |s.pes| && s.pes[p] == Running(a) && a in s.recs
    ensures var b := s.recs[a].body;
            var s2 := Next(s, p, CallCpuOff);
            if b.regs.x0 % NARROW == 0x8400_0002 then
              && s2.pes == s.pes[p := Leaving(a)]
              && s2.recs == s.recs[a := s.recs[a].(body := b.(runnable := false, regs := Regs(0, 0, 0, 0)))]
            else s2 == s
  {}

  // ------------------------------------------------------------ entering and leaving

  /** PE `p` takes the steps one after the other. */
  function Steps(s: System, p: nat, steps: seq<Step>): System
    decreases |steps|
  {
    if steps == [] || p >= |s.pes| then s else Steps(Next(s, p, steps[0]), p, steps[1..])
  }

  lemma FirstStep(s: System, p: nat, x: Step, rest: seq<Step>)
    requires p < |s.pes|
    ensures Steps(s, p, [x] + rest) == Steps(Next(s, p, x), p, rest)
    ensures Steps(s, p, []) == s
  {
    assert ([x] + rest)[1..] == rest;
  }

  lemma Referenced(s: System, p: nat, a: Addr, rest: seq<Step>)
    requires Free(s, p, a)
    ensures Steps(s, p, [EnterLock(a), EnterGet, EnterUnlock] + rest)
            == Steps(System(s.recs[a := s.recs[a].(refcount := 1)], s.pes[p := Entered(a)], s.lock, s.user[a := p]), p,
                rest)
  {
    var s1 := Next(s, p, EnterLock(a));
    var s2 := Next(s1, p, EnterGet);
    var s3 := Next(s2, p, EnterUnlock);
    assert s1.pes == s.pes[p := EnterLocked(a)] && s1.recs == s.recs;
    assert s2 == System(s.recs[a := s.recs[a].(refcount := 1)], s.pes[p := EnterGot(a)], s.lock[a := p],
        s.user[a := p]);
    assert s.lock[a := p] - {a} == s.lock;
    assert s3 == System(s.recs[a := s.recs[a].(refcount := 1)], s.pes[p := Entered(a)], s.lock, s.user[a := p]);
    hide Next, Steps;
    FirstStep(s, p, EnterLock(a), [EnterGet, EnterUnlock] + rest);
    FirstStep(s1, p, EnterGet, [EnterUnlock] + rest);
    FirstStep(s2, p, EnterUnlock, rest);
    assert [EnterLock(a), EnterGet, EnterUnlock] + rest == [EnterLock(a)] + ([EnterGet, EnterUnlock] + rest);
    assert [EnterGet, EnterUnlock] + rest == [EnterGet] + ([EnterUnlock] + rest);
  }

  /** REC_ENTER runs a REC that nobody uses, that is on and waits for no answer, in an active realm;
      the PE then has the only reference, and no lock is left. */
  lemma EnterRuns(s: System, p: nat, a: Addr)
    requires Free(s, p, a) && s.recs[a].body.runnable && !s.recs[a].body.pending
    ensures Steps(s, p, [EnterLock(a), EnterGet, EnterUnlock] + [EnterCheck(true)])
            == System(s.recs[a := s.recs[a].(refcount := 1)], s.pes[p := Running(a)], s.lock, s.user[a := p])
  {
    Referenced(s, p, a, [EnterCheck(true)]);
    var s3 := System(s.recs[a := s.recs[a].(refcount := 1)], s.pes[p := Entered(a)], s.lock, s.user[a := p]);
    assert Next(s3, p, EnterCheck(true)).pes == s.pes[p := Running(a)];
    FirstStep(s3, p, EnterCheck(true), []);
    assert [EnterCheck(true)] + [] == [EnterCheck(true)];
  }

  /** Otherwise it leaves everything as it was: where the REC is off or waits for an answer, or the
      realm is not active, after the reference is dropped again. */
  lemma EnterRefused(s: System, p: nat, a: Addr, active: bool)
    requires Free(s, p, a) && !(active && s.recs[a].body.runnable && !s.recs[a].body.pending)
    ensures Steps(s, p, [EnterLock(a), EnterGet, EnterUnlock] + [EnterCheck(active), EnterPut]) == s
  {
    Referenced(s, p, a, [EnterCheck(active), EnterPut]);
    var s3 := System(s.recs[a := s.recs[a].(refcount := 1)], s.pes[p := Entered(a)], s.lock, s.user[a := p]);
    var s4 := Next(s3, p, EnterCheck(active));
    assert s4 == s3.(pes := s.pes[p := Leaving(a)]);
    DropsReference(s, p, a, s4);
    hide Next, Steps;
    FirstStep(s3, p, EnterCheck(active), [EnterPut]);
    FirstStep(s4, p, EnterPut, []);
    assert [EnterCheck(active)] + [EnterPut] == [EnterCheck(active), EnterPut] && [EnterPut] + [] == [EnterPut];
  }

  lemma DropsReference(s: System, p: nat, a: Addr, s4: System)
    requires Free(s, p, a)
    requires s4 == System(s.recs[a := s.recs[a].(refcount := 1)], s.pes[p := Leaving(a)], s.lock, s.user[a := p])
    ensures Next(s4, p, EnterPut) == s
  {
    var s5 := Next(s4, p, EnterPut);
    assert s5.recs == s.recs;
    assert s5.pes == s.pes;
    assert s5.user == s.user;
  }

  /** A REC that is in use is not entered, and nothing changes. */
  lemma EnterBusy(s: System, p: nat, a: Addr)
    requires p < |s.pes| && s.pes[p] == Idle && a in s.recs && a !in s.lock && s.recs[a].refcount != 0
    ensures Next(s, p, EnterLock(a)).pes == s.pes[p := EnterLocked(a)]
    ensures Next(Next(s, p, EnterLock(a)), p, EnterGet) == s
  {
    var s2 := Next(Next(s, p, EnterLock(a)), p, EnterGet);
    assert s2.lock == s.lock && s2.pes == s.pes;
  }

  /** Entering and leaving restores everything. */
  lemma EnterThenExit(s: System, p: nat, a: Addr)
    requires Free(s, p, a) && s.recs[a].body.runnable && !s.recs[a].body.pending
    ensures var s1 := Steps(s, p, [EnterLock(a), EnterGet, EnterUnlock] + [EnterCheck(true)]);
            p < |s1.pes| && Steps(s1, p, [ExitToHost, EnterPut]) == s
  {
    EnterRuns(s, p, a);
    var s1 := System(s.recs[a := s.recs[a].(refcount := 1)], s.pes[p := Running(a)], s.lock, s.user[a := p]);
    var s2 := Next(s1, p, ExitToHost);
    assert s2 == s1.(pes := s.pes[p := Leaving(a)]);
    DropsReference(s, p, a, s2);
    hide Next, Steps;
    FirstStep(s1, p, ExitToHost, [EnterPut]);
    FirstStep(s2, p, EnterPut, []);
    assert [ExitToHost] + [EnterPut] == [ExitToHost, EnterPut] && [EnterPut] + [] == [EnterPut];
  }

  // ------------------------------------------------------------ commands of the host

  /** REC_DESTROY removes exactly a REC that nobody uses, and otherwise nothing. */
  lemma DestroyRemoves(s: System, p: nat, a: Addr)
    requires p < |s.pes| && s.pes[p] == Idle && a in s.recs && a !in s.lock
    ensures Next(s, p, DestroyLock(a)).pes == s.pes[p := DestroyLocked(a)]
    ensures Next(Next(s, p, DestroyLock(a)), p, DestroyFinish)
            == s.(recs := if s.recs[a].refcount == 0 then s.recs - {a} else s.recs)
  {
    var s2 := Next(Next(s, p, DestroyLock(a)), p, DestroyFinish);
    assert s2.lock == s.lock && s2.pes == s.pes;
  }

  /** RTT_SET_RIPAS moves the cursor of a REC that nobody uses, and otherwise nothing. */
  lemma RipasMoves(s: System, p: nat, a: Addr, cursor: Addr)
    requires p < |s.pes| && s.pes[p] == Idle && a in s.recs && a !in s.lock
    ensures Next(s, p, RipasLock(a)).pes == s.pes[p := RipasLocked(a)]
    ensures var r := s.recs[a];
            Next(Next(s, p, RipasLock(a)), p, RipasFinish(cursor))
            == s.(recs := if r.refcount == 0 then s.recs[a := r.(body := r.body.(cursor := cursor))] else s.recs)
  {
    var s2 := Next(Next(s, p, RipasLock(a)), p, RipasFinish(cursor));
    assert s2.lock == s.lock && s2.pes == s.pes;
  }

  /** PSCI_COMPLETE on two RECs: the request of a caller that nobody uses is answered, where it can
      be, and nothing else changes. */
  lemma CompleteAnswers(s: System, p: nat, a: Addr, t: Addr, status: HostStatus)
    requires p < |s.pes| && s.pes[p] == Idle && a != t && a in s.recs && t in s.recs && a !in s.lock && t !in s.lock
    requires !Judge(s.recs[a], s.recs[t], status).AssertionFails?
    ensures Next(s, p, PsciLock(a, t)).pes == s.pes[p := PsciLocked(a, t)]
    ensures var c, r := s.recs[a], s.recs[t];
            Next(Next(s, p, PsciLock(a, t)), p, PsciFinish(status))
            == if c.refcount == 0 && Judge(c, r, status).Answered? then
                 s.(recs := s.recs[a := c.(body := Complete(c, r, status).caller)]
                                  [t := r.(body := Complete(c, r, status).target)])
               else s
  {
    hide Judge, Complete;
    var s1 := Next(s, p, PsciLock(a, t));
    var s2 := Next(s1, p, PsciFinish(status));
    assert s1 == System(s.recs, s.pes[p := PsciLocked(a, t)], s.lock[a := p][t := p], s.user);
    assert s.lock[a := p][t := p] - {a} - {t} == s.lock;
    assert s2.pes == s.pes;
  }

  /** In every interleaving, when a PE completes a request for a caller that nobody uses: an answered
      AFFINITY_INFO tells 0 exactly if some PE uses the target or it is on, and 1 otherwise; an
      answered CPU_ON tells -4, -3 or 0; the caller waits no longer, only a CPU_ON with answer 0
      changes the target, which then is on, at the entry point, with the context; no other REC
      changes. A refused completion changes no REC. */
  lemma PsciAnswered(s: System, acts: seq<Action>, p: nat, status: HostStatus, a: Addr, t: Addr, x: Addr)
    requires Initial(s) && p < |Run(s, acts).pes| && Run(s, acts).pes[p] == PsciLocked(a, t)
    ensures var s1 := Run(s, acts);
            var s2 := Next(s1, p, PsciFinish(status));
            && a in s1.recs && t in s1.recs && a != t && a in s2.recs && t in s2.recs
            && var c, r, d := s1.recs[a], s1.recs[t], s2.recs[a];
            var f := c.body.regs.x0;
            var cpuOn, affinity := f in {0x8400_0003, 0xC400_0003}, f in {0x8400_0004, 0xC400_0004};
            var on := r.body.runnable || exists u: nat :: u < |s1.pes| && Uses(s1.pes[u], t);
            var answered := && c.refcount == 0 && c.body.pending && c.rd == r.rd && RecIdx(c.body.regs.x1) == r.idx
                            && ((cpuOn && status != HostOther) || (affinity && status == HostSuccess));
            && (!answered ==> s2.recs == s1.recs)
            && (answered ==>
                  && !d.body.pending && d.body.regs.x1 == d.body.regs.x2 == d.body.regs.x3 == 0
                  && (affinity ==> d.body.regs.x0 == (if on then 0 else 1))
                  && (cpuOn ==> d.body.regs.x0 == (if on then 0xFFFF_FFFF_FFFF_FFFC
                                                   else if status == HostDenied then 0xFFFF_FFFF_FFFF_FFFD else 0))
                  && s2.recs[t] == (if cpuOn && !on && status == HostSuccess then
                                      r.(body := r.body.(runnable := true, pc := c.body.regs.x2,
                                                         regs := r.body.regs.(x0 := c.body.regs.x3)))
                                    else r)
                  && (x in s1.recs && x != a && x != t ==> x in s2.recs && s2.recs[x] == s1.recs[x]))
  {
    SingleUser(s, acts, t, p, p);
    assert SysInv(s);
    RunInv(s, acts);
    var s1 := Run(s, acts);
    hide Run, Initial;
    assert PeOk(s1, p) && RecOk(s1, t);
    TargetOn(s1, t);
    hide SysInv, PeOk, RecOk, RecIdx, PendingOk, Judge, Complete;
    CompletionAnswers(s1.recs[a], s1.recs[t], status);
    FinishRecs(s1, p, a, t, status);
  }

  lemma TargetOn(s: System, t: Addr)
    requires SysInv(s) && t in s.recs
    ensures s.recs[t].refcount != 0 <==> exists u: nat :: u < |s.pes| && Uses(s.pes[u], t)
  {
    assert RecOk(s, t);
    if t in s.user { assert UserOk(s, t); }
    forall u: nat | u < |s.pes| && Uses(s.pes[u], t) ensures s.recs[t].refcount != 0 { assert PeOk(s, u); }
  }

  lemma FinishRecs(s: System, p: nat, a: Addr, t: Addr, status: HostStatus)
    requires p < |s.pes| && s.pes[p] == PsciLocked(a, t) && a in s.recs && t in s.recs && a != t
    ensures var c, r := s.recs[a], s.recs[t];
            Next(s, p, PsciFinish(status)).recs ==
              if c.refcount == 0 && Judge(c, r, status).Answered? then
                s.recs[a := c.(body := Complete(c, r, status).caller)][t := r.(body := Complete(c, r, status).target)]
              else s.recs
  {
    hide Judge, Complete;
  }

  // ------------------------------------------------------------ CPU_ON from call to start

  /** PE `p` runs REC `a`, which is about to call CPU_ON for REC `t` of its realm, with a protected
      entry point; `t` is off and nobody uses it. */
  predicate CallsCpuOn(s: System, p: nat, a: Addr, t: Addr, count: nat) {
    && p < |s.pes| && s.pes[p] == Running(a) && a in s.recs && t in s.recs && a != t
    && s.recs[a].refcount == 1 && !s.recs[a].body.pending && s.recs[a].body.runnable && a !in s.lock
    && t !in s.lock && t !in s.user && s.recs[t].refcount == 0
    && !s.recs[t].body.runnable && !s.recs[t].body.pending
    && var r := s.recs[a];
    && r.body.regs.x0 in {0x8400_0003, 0xC400_0003} && r.body.regs.x2 < r.par
    && r.rd == s.recs[t].rd && RecIdx(r.body.regs.x1) == s.recs[t].idx < count && s.recs[t].idx != r.idx
  }

  /** What is left when the call has been made, completed with success, and the target entered: the
      caller reads SUCCESS and can be entered again, and the target runs at the entry point with the
      context in `x0`. */
  lemma CpuOnStarts(s: System, p: nat, a: Addr, t: Addr, count: nat)
    requires CallsCpuOn(s, p, a, t, count)
    ensures var s1 := Steps(s, p, [CallPeer(count), EnterPut, PsciLock(a, t), PsciFinish(HostSuccess)]);
            && Free(s1, p, a) && Free(s1, p, t)
            && s1.recs[a].body == s.recs[a].body.(regs := Regs(0, 0, 0, 0))
            && s1.recs[t].body.pc == s.recs[a].body.regs.x2 && s1.recs[t].body.regs.x0 == s.recs[a].body.regs.x3
            && Steps(s1, p, [EnterLock(t), EnterGet, EnterUnlock] + [EnterCheck(true)]).pes == s.pes[p := Running(t)]
            && Steps(s1, p, [EnterLock(a), EnterGet, EnterUnlock] + [EnterCheck(true)]).pes == s.pes[p := Running(a)]
  {
    var c, r := s.recs[a], s.recs[t];
    var waits := c.(refcount := 0, body := c.body.(pending := true));
    var s0 := Next(s, p, CallPeer(count));
    CallWaits(s, p, a, t, count);
    var s1 := Next(s0, p, EnterPut);
    assert s1 == System(s.recs[a := waits], s.pes[p := Idle], s.lock, s.user - {a});
    CompletionAnswers(waits, r, HostSuccess);
    CompleteAnswers(s1, p, a, t, HostSuccess);
    var s2 := Next(s1, p, PsciLock(a, t));
    var s3 := Next(s2, p, PsciFinish(HostSuccess));
    hide Next, Steps, Judge, Complete, RecIdx;
    FirstStep(s, p, CallPeer(count), [EnterPut, PsciLock(a, t), PsciFinish(HostSuccess)]);
    FirstStep(s0, p, EnterPut, [PsciLock(a, t), PsciFinish(HostSuccess)]);
    FirstStep(s1, p, PsciLock(a, t), [PsciFinish(HostSuccess)]);
    FirstStep(s2, p, PsciFinish(HostSuccess), []);
    assert [CallPeer(count)] + [EnterPut, PsciLock(a, t), PsciFinish(HostSuccess)]
           == [CallPeer(count), EnterPut, PsciLock(a, t), PsciFinish(HostSuccess)];
    assert [EnterPut] + [PsciLock(a, t), PsciFinish(HostSuccess)] == [EnterPut, PsciLock(a, t),
        PsciFinish(HostSuccess)];
    assert [PsciLock(a, t)] + [PsciFinish(HostSuccess)] == [PsciLock(a, t), PsciFinish(HostSuccess)];
    assert [PsciFinish(HostSuccess)] + [] == [PsciFinish(HostSuccess)];
    EnterRuns(s3, p, t);
    EnterRuns(s3, p, a);
  }

  lemma CallWaits(s: System, p: nat, a: Addr, t: Addr, count: nat)
    requires CallsCpuOn(s, p, a, t, count)
    ensures var c := s.recs[a];
            Next(s, p, CallPeer(count))
            == s.(recs := s.recs[a := c.(body := c.body.(pending := true))], pes := s.pes[p := Leaving(a)])
  {
    assert s.recs[a].body.regs.x0 % NARROW == s.recs[a].body.regs.x0;
    hide RecIdx;
  }
}
