/** Changing RIPAS over a range: RTT_INIT_RIPAS, and the protocol by which a realm asks
    for a change that the host carries out with any number of RTT_SET_RIPAS calls. */
module RipasCommands {
  import opened S2Geometry
  import opened S2tte
  import opened RealmGeometry
  import opened Rtt
  import opened RttSteps
  import opened RttFlat
  import opened RttInvariants
  import opened RttCommands

  datatype RangeOp = SetOp(ripas: Ripas, changeDestroyed: bool) | InitOp

  /** The new entry, or None where the operation has to stop. */
  function Apply(op: RangeOp, e: Entry): Option<Entry> {
    match op
    case SetOp(r, cd) =>
      if !e.HasRipas() || (e.ripas.Destroyed? && !cd) then None else Some(e.(ripas := r))
    case InitOp =>
      if e == UnassignedEntry(Empty) || e == UnassignedEntry(Ram) then Some(UnassignedEntry(Ram)) else None
  }

  predicate Applies(op: RangeOp, p: Page) {
    match op
    case SetOp(r, cd) => (p.Unassigned? || p.Assigned?) && (p.ripas.Destroyed? ==> cd)
    case InitOp => p == Unassigned(Empty) || p == Unassigned(Ram)
  }

  /** What the operation makes of a page: only the RIPAS changes. */
  function ApplyPage(op: RangeOp, p: Page): Page
    requires Applies(op, p)
  {
    p.(ripas := if op.SetOp? then op.ripas else Ram)
  }

  lemma ApplyMeaning(op: RangeOp, f: Format, e: Entry, level: int, ipa: Addr)
    requires MIN_LEVEL <= level <= PAGE_LEVEL && ValidEntry(f, e, level) && Apply(op, e).Some?
    ensures !e.TableEntry? && !Apply(op, e).value.TableEntry? && ValidEntry(f, Apply(op, e).value, level)
    ensures Applies(op, PageOf(e, level, ipa))
    ensures PageOf(Apply(op, e).value, level, ipa) == ApplyPage(op, PageOf(e, level, ipa))
    ensures Delta(e) == Delta(Apply(op, e).value)
  {}

  datatype RangeResult = RangeResult(m: Machine, addr: Addr)

  /** Work through table `t` from entry `i`, which maps `addr`, up to `top`. */
  function RangeLoop(m: Machine, t: Addr, i: nat, level: int, addr: Addr, top: Addr, op: RangeOp): RangeResult
    requires MIN_LEVEL <= level <= PAGE_LEVEL && t in m.tables && t in m.gs && |m.tables[t]| == ENTRIES
    decreases if i < ENTRIES then ENTRIES - i else 0
  {
    if i >= ENTRIES || addr + Span(level) > top then RangeResult(m, addr)
    else
      match Apply(op, m.tables[t][i])
      case None => RangeResult(m, addr)
      case Some(e) => RangeLoop(SetEntry(m, t, i, e), t, i + 1, level, addr + Span(level), top, op)
  }

  lemma NextEntry(a: Addr, level: int)
    requires MIN_LEVEL <= level <= PAGE_LEVEL && Aligned(a, level)
    ensures Aligned(a + Span(level), level)
    ensures Idx(a, level) + 1 < TableEntries(level) && a + Span(level) < MAX_ADDR ==>
              Idx(a + Span(level), level) == Idx(a, level) + 1 && SameEntry(a, a + Span(level), level - 1)
  {
    var s, n := Span(level), TableEntries(level);
    var q := a / s;
    DivUnique(a + s, s, q + 1, 0);
    if q % n + 1 < n {
      DivUnique(q + 1, n, q / n, q % n + 1);
      SpanStep(level);
      DivMod(a, s, ENTRIES);
      DivMod(a + s, s, ENTRIES);
      if level == MIN_LEVEL && a + s < MAX_ADDR {
        TopIndex(a);
        TopIndex(a + s);
      }
    }
  }

  /** The loop stands at the entry for `addr` of a table of the realm. */
  ghost predicate AtRange(m: Machine, rd: Addr, t: Addr, i: nat, level: int, addr: Addr, top: Addr) {
    && FullInv(m) && t in m.place && t in m.tables && t in m.gs && |m.tables[t]| == ENTRIES
    && rd in m.realms && ValidRealm(m.realms[rd]) && top <= ParSize(m.realms[rd].ipaBits)
    && MIN_LEVEL <= level <= PAGE_LEVEL && Aligned(addr, level)
    && (i < ENTRIES && addr + Span(level) <= top ==> Reached(m, rd, level, addr, WalkResult(t, i, level)))
  }

  /** One entry: the state after it is as good, and stands at the next entry. */
  lemma RangeStep(m: Machine, rd: Addr, t: Addr, i: nat, level: int, addr: Addr, top: Addr, op: RangeOp)
    requires AtRange(m, rd, t, i, level, addr, top)
    requires i < ENTRIES && addr + Span(level) <= top && Apply(op, m.tables[t][i]).Some?
    ensures var m2 := SetEntry(m, t, i, Apply(op, m.tables[t][i]).value);
            && AtRange(m2, rd, t, i + 1, level, addr + Span(level), top)
            && m2.realms == m.realms && m2.gs == m.gs && m2.recs == m.recs
            && t in m2.tables && t in m2.gs && |m2.tables[t]| == ENTRIES
  {
    var e, w := m.tables[t][i], WalkResult(t, i, level);
    var e2 := Apply(op, e).value;
    var m2 := SetEntry(m, t, i, e2);
    ReachedFacts(m, rd, level, addr, w);
    ApplyMeaning(op, m.realms[rd].fmt, e, level, addr);
    SetEntryInv(m, t, i, e2);
    RangeStepFlatInv(m, rd, t, i, level, addr, top, op);
    RangeStepNext(m, rd, t, i, level, addr, top, op);
    assert m2.gs == m.gs;
  }

  lemma RangeStepFlat(m: Machine, rd: Addr, t: Addr, i: nat, level: int, addr: Addr, top: Addr, op: RangeOp, rd': Addr,
      b: Addr)
    requires AtRange(m, rd, t, i, level, addr, top) && Mapped(m, rd', b)
    requires i < ENTRIES && addr + Span(level) <= top && Apply(op, m.tables[t][i]).Some?
    ensures var m2 := SetEntry(m, t, i, Apply(op, m.tables[t][i]).value);
            var hit := rd' == rd && addr <= b < addr + Span(level);
            && Mapped(m2, rd', b) && (hit ==> Applies(op, PageAt(m, rd', b)))
            && PageAt(m2, rd', b) == if hit then ApplyPage(op, PageAt(m, rd', b)) else PageAt(m, rd', b)
  {
    var e, w := m.tables[t][i], WalkResult(t, i, level);
    var e2 := Apply(op, e).value;
    ReachedFacts(m, rd, level, addr, w);
    ApplyMeaning(op, m.realms[rd].fmt, e, level, b);
    EntryRange(addr, b, level);
    hide Apply, Inv, FlatInv, ValidEntry, Walk;
    FlatSet(m, rd, level, addr, w, e2, rd', b);
    HitsExactly(m, rd, level, addr, w, rd', PAGE_LEVEL, b);
  }

  lemma RangeStepFlatInv(m: Machine, rd: Addr, t: Addr, i: nat, level: int, addr: Addr, top: Addr, op: RangeOp)
    requires AtRange(m, rd, t, i, level, addr, top)
    requires i < ENTRIES && addr + Span(level) <= top && Apply(op, m.tables[t][i]).Some?
    ensures FlatInv(SetEntry(m, t, i, Apply(op, m.tables[t][i]).value))
  {
    var m2 := SetEntry(m, t, i, Apply(op, m.tables[t][i]).value);
    assert GranuleOk(m, t);
    hide Flat, Inv, FlatInv, Apply, ValidRealm, InIpa;
    forall rd', b | Mapped(m, rd', b) ensures Compatible(PageAt(m, rd', b), PageAt(m2, rd', b)) {
      RangeStepFlat(m, rd, t, i, level, addr, top, op, rd', b);
    }
    CompatibleInv(m, m2);
  }

  lemma RangeStepNext(m: Machine, rd: Addr, t: Addr, i: nat, level: int, addr: Addr, top: Addr, op: RangeOp)
    requires AtRange(m, rd, t, i, level, addr, top)
    requires i < ENTRIES && addr + Span(level) <= top && Apply(op, m.tables[t][i]).Some?
    requires Inv(SetEntry(m, t, i, Apply(op, m.tables[t][i]).value))
    ensures var m2 := SetEntry(m, t, i, Apply(op, m.tables[t][i]).value);
            var next := addr + Span(level);
            && Aligned(next, level)
            && (i + 1 < ENTRIES && next + Span(level) <= top ==>
                  Reached(m2, rd, level, next, WalkResult(t, i + 1, level)))
  {
    var e, w := m.tables[t][i], WalkResult(t, i, level);
    var next := addr + Span(level);
    ReachedFacts(m, rd, level, addr, w);
    ApplyMeaning(op, m.realms[rd].fmt, e, level, addr);
    hide Inv, FlatInv, Idx, Walk, Apply, ValidEntry;
    NextEntry(addr, level);
    if i + 1 < ENTRIES && next + Span(level) <= top {
      NextReached(m, rd, level, addr, top, w);
      SetReached(m, rd, level, next, WalkResult(t, i + 1, level), t, i, Apply(op, e).value);
    }
  }

  lemma NextReached(m: Machine, rd: Addr, level: int, addr: Addr, top: Addr, w: WalkResult)
    requires MIN_LEVEL <= level <= PAGE_LEVEL && Aligned(addr, level)
    requires Reached(m, rd, level, addr, w) && w.level == level && w.idx + 1 < ENTRIES
    requires addr + 2 * Span(level) <= top <= ParSize(m.realms[rd].ipaBits)
    ensures Reached(m, rd, level, addr + Span(level), WalkResult(w.table, w.idx + 1, level))
  {
    var r, next := m.realms[rd], addr + Span(level);
    ReachedFacts(m, rd, level, addr, w);
    hide Inv, Walk, TableEntries;
    RootsCover(r.ipaBits, r.start, |r.roots|);
    IdxBelow(addr, level);
    NextEntry(addr, level);
    hide Idx, SameEntry, Aligned, Route;
    Sibling(m, rd, level, addr, w, next);
  }

  lemma SetReached(m: Machine, rd: Addr, target: int, a: Addr, w: WalkResult, t: Addr, i: nat, e: Entry)
    requires Reached(m, rd, target, a, w) && AtEntry(m, t, i) && !m.tables[t][i].TableEntry? && !e.TableEntry?
    requires Inv(SetEntry(m, t, i, e))
    ensures Reached(SetEntry(m, t, i, e), rd, target, a, w)
  {
    hide Inv, Walk;
    var r := m.realms[rd];
    WalkSet(m, t, i, e, RootFor(r, a), r.start, target, a);
  }

  /** Two entries that end below half of the address space are not the last of a table. */
  lemma IdxBelow(addr: Addr, level: int)
    requires MIN_LEVEL <= level <= PAGE_LEVEL && addr + 2 * Span(level) <= MAX_ADDR / 2
    ensures Idx(addr, level) + 1 < TableEntries(level) || (level > MIN_LEVEL && Idx(addr, level) + 1 == ENTRIES)
  {}

  /** The loop gives exactly the range it passes the new RIPAS, keeps every mapping and
      every other address, and never passes `top`. */
  lemma {:induction false} RangeLoopInv(m: Machine, rd: Addr, t: Addr, i: nat, level: int, addr: Addr, top: Addr,
      op: RangeOp)
    requires AtRange(m, rd, t, i, level, addr, top)
    ensures var q := RangeLoop(m, t, i, level, addr, top, op);
            && FullInv(q.m) && q.m.realms == m.realms && q.m.recs == m.recs && q.m.gs == m.gs
            && addr <= q.addr && (q.addr > addr ==> q.addr <= top)
    decreases if i < ENTRIES then ENTRIES - i else 0
  {
    hide FullInv, Reached, ValidRealm, Aligned, Apply, SetEntry, Span;
    if i < ENTRIES && addr + Span(level) <= top && Apply(op, m.tables[t][i]).Some? {
      RangeStep(m, rd, t, i, level, addr, top, op);
      RangeLoopInv(SetEntry(m, t, i, Apply(op, m.tables[t][i]).value), rd, t, i + 1, level, addr + Span(level), top,
          op);
    }
  }

  lemma {:induction false} RangeLoopFlat(m: Machine, rd: Addr, t: Addr, i: nat, level: int, addr: Addr, top: Addr,
      op: RangeOp, rd': Addr, b: Addr)
    requires AtRange(m, rd, t, i, level, addr, top) && Mapped(m, rd', b)
    ensures var q := RangeLoop(m, t, i, level, addr, top, op);
            var hit := rd' == rd && addr <= b < q.addr;
            && addr <= q.addr && Mapped(q.m, rd', b) && (hit ==> Applies(op, PageAt(m, rd', b)))
            && PageAt(q.m, rd', b) == if hit then ApplyPage(op, PageAt(m, rd', b)) else PageAt(m, rd', b)
    decreases if i < ENTRIES then ENTRIES - i else 0
  {
    hide FullInv, Reached, Aligned, Apply, Flat, Applies, ApplyPage, SetEntry, Span, Mapped;
    if i < ENTRIES && addr + Span(level) <= top && Apply(op, m.tables[t][i]).Some? {
      var m2 := SetEntry(m, t, i, Apply(op, m.tables[t][i]).value);
      RangeStep(m, rd, t, i, level, addr, top, op);
      RangeStepFlat(m, rd, t, i, level, addr, top, op, rd', b);
      RangeLoopFlat(m2, rd, t, i + 1, level, addr + Span(level), top, op, rd', b);
    }
  }

  // ------------------------------------------------------------ RTT_INIT_RIPAS

  ghost function InitRipas(m: Machine, rd: Addr, base: Addr, top: Addr): Reply
    requires FullInv(m)
  {
    if top <= base || !Is(m, rd, RdState) then Fail(m, ErrorInput)
    else
      RdIsRealm(m, rd);
      var r := m.realms[rd];
      if || !ValidMapAddr(r, base, PAGE_LEVEL) || !ValidMapAddr(r, top, PAGE_LEVEL)
         || !InPar(r, base) || top < PAGE || !InPar(r, top - PAGE) then Fail(m, ErrorInput)
      else if r.state != New then Fail(m, ErrorRealm)
      else
        var w := RealmWalk(m.tables, r, PAGE_LEVEL, base);
        ReachedFacts(m, rd, PAGE_LEVEL, base, w);
        if !Aligned(base, w.level) then Fail(m, ErrorRtt(w.level))
        else
          var q := RangeLoop(m, w.table, w.idx, w.level, base, top, InitOp);
          if q.addr > base then Reply(q.m, Success, q.addr, 0) else Fail(m, ErrorRtt(w.level))
  }

  /** The realm, the walk and the loop of an RIPAS command that succeeded. */
  ghost predicate RangeRun(m: Machine, rd: Addr, base: Addr, top: Addr, op: RangeOp, m2: Machine, addr: Addr) {
    && Mapped(m, rd, base) && top <= ParSize(m.realms[rd].ipaBits)
    && var w := RealmWalk(m.tables, m.realms[rd], PAGE_LEVEL, base);
    && m.realms[rd].start <= w.level <= PAGE_LEVEL && Aligned(base, w.level)
    && AtRange(m, rd, w.table, w.idx, w.level, base, top)
    && RangeLoop(m, w.table, w.idx, w.level, base, top, op) == RangeResult(m2, addr)
    && base < addr
  }

  lemma StartRange(m: Machine, rd: Addr, base: Addr, top: Addr)
    requires FullInv(m) && Mapped(m, rd, base) && top <= ParSize(m.realms[rd].ipaBits)
    requires var w := RealmWalk(m.tables, m.realms[rd], PAGE_LEVEL, base);
             MIN_LEVEL <= w.level <= PAGE_LEVEL && Aligned(base, w.level)
    ensures var w := RealmWalk(m.tables, m.realms[rd], PAGE_LEVEL, base);
            m.realms[rd].start <= w.level && AtRange(m, rd, w.table, w.idx, w.level, base, top)
  {
    var r := m.realms[rd];
    ReachedFacts(m, rd, PAGE_LEVEL, base, RealmWalk(m.tables, r, PAGE_LEVEL, base));
    WalkCut(m.tables, RootFor(r, base), r.start, PAGE_LEVEL, base);
  }

  lemma InitRipasStep(m: Machine, rd: Addr, base: Addr, top: Addr)
    requires FullInv(m) && InitRipas(m, rd, base, top).status.Success?
    ensures var q := InitRipas(m, rd, base, top); RangeRun(m, rd, base, top, InitOp, q.m, q.out)
  {
    RdIsRealm(m, rd);
    var r := m.realms[rd];
    RootsCover(r.ipaBits, r.start, |r.roots|);
    assert top <= ParSize(r.ipaBits) by { PageBelow(top, Pow2(r.ipaBits - Lsb(r.start) - 1), Span(r.start), r.start); }
    ReachedFacts(m, rd, PAGE_LEVEL, base, RealmWalk(m.tables, r, PAGE_LEVEL, base));
    hide FullInv, AtRange;
    StartRange(m, rd, base, top);
  }

  /** A page that starts below a multiple of an entry size ends below or at it. */
  lemma PageBelow(top: Addr, n: nat, s: nat, level: int)
    requires MIN_LEVEL <= level <= PAGE_LEVEL && s == Span(level)
    requires top % PAGE == 0 && top >= PAGE && top - PAGE < n * s
    ensures top <= n * s
  {
    SpanIsPow2(level);
    Pow2Add(Lsb(level) - 12, 12);
    SpanIsPow2(PAGE_LEVEL);
    var k := Pow2(Lsb(level) - 12);
    assert s == k * PAGE;
    assert n * s == (n * k) * PAGE by { MulAssoc(n, k, PAGE); }
    if top > n * s {
      assert (top - n * s) % PAGE == 0 by { DivUnique(top - n * s, PAGE, top / PAGE - n * k, 0); }
    }
  }

  /** RTT_INIT_RIPAS turns exactly the unassigned pages it passes from EMPTY or RAM to RAM. */
  lemma InitRipasFlat(m: Machine, rd: Addr, base: Addr, top: Addr, rd': Addr, b: Addr)
    requires FullInv(m) && InitRipas(m, rd, base, top).status.Success? && Mapped(m, rd', b)
    ensures var q := InitRipas(m, rd, base, top);
            var hit := rd' == rd && base <= b < q.out;
            && base < q.out <= top && Mapped(q.m, rd', b)
            && (hit ==> PageAt(m, rd', b) == Unassigned(Empty) || PageAt(m, rd', b) == Unassigned(Ram))
            && PageAt(q.m, rd', b) == if hit then Unassigned(Ram) else PageAt(m, rd', b)
  {
    InitRipasStep(m, rd, base, top);
    var w := RealmWalk(m.tables, m.realms[rd], PAGE_LEVEL, base);
    hide InitRipas, FullInv, Flat, AtRange, RangeLoop;
    RangeLoopInv(m, rd, w.table, w.idx, w.level, base, top, InitOp);
    RangeLoopFlat(m, rd, w.table, w.idx, w.level, base, top, InitOp, rd', b);
  }

  lemma RangeRunInv(m: Machine, rd: Addr, base: Addr, top: Addr, op: RangeOp, m2: Machine, addr: Addr)
    requires FullInv(m) && RangeRun(m, rd, base, top, op, m2, addr)
    ensures FullInv(m2) && m2.realms == m.realms && m2.recs == m.recs && m2.gs == m.gs && addr <= top
  {
    var w := RealmWalk(m.tables, m.realms[rd], PAGE_LEVEL, base);
    hide FullInv, AtRange, RangeLoop;
    RangeLoopInv(m, rd, w.table, w.idx, w.level, base, top, op);
  }

  lemma InitRipasInv(m: Machine, rd: Addr, base: Addr, top: Addr)
    requires FullInv(m)
    ensures var q := InitRipas(m, rd, base, top).m;
            FullInv(q) && q.realms == m.realms && q.recs == m.recs && q.gs == m.gs
  {
    var q := InitRipas(m, rd, base, top);
    if q.status.Success? {
      InitRipasStep(m, rd, base, top);
      RangeRunInv(m, rd, base, top, InitOp, q.m, q.out);
    }
  }

  // ------------------------------------------------------------ the request protocol

  /** A pending request is a page-aligned protected range with the cursor inside it. */
  predicate RequestOk(m: Machine, rec: Addr)
    requires rec in m.recs
  {
    var q := m.recs[rec].request;
    && m.recs[rec].rd in m.realms
    && (q.base == q.top ==> q.top == 0)
    && (q.base != q.top ==>
          && q.base <= q.addr <= q.top && q.base < q.top <= ParSize(m.realms[m.recs[rec].rd].ipaBits)
          && q.base % PAGE == 0 && q.addr % PAGE == 0 && q.top % PAGE == 0 && !q.ripas.Destroyed?)
  }

  /** RSI_IPA_STATE_SET: the running REC asks for a change of its protected range. */
  ghost function IpaStateSet(m: Machine, rec: Addr, base: Addr, top: Addr, ripas: Ripas, cd: bool): Reply
    requires Inv(m) && rec in m.recs
  {
    assert m.recs[rec].rd in m.realms;
    if || ripas.Destroyed? || base % PAGE != 0 || top % PAGE != 0 || top <= base
       || top > ParSize(m.realms[m.recs[rec].rd].ipaBits) then Fail(m, ErrorInput)
    else
      var rec' := m.recs[rec].(request := RipasRequest(base, top, base, ripas, cd));
      Reply(m.(recs := m.recs[rec := rec']), Success, top, 0)
  }

  /** REC_ENTER reports how far the change got and ends the request; the realm sees a
      rejection only for a change to RAM that was not completed. */
  ghost function CompleteRipas(m: Machine, rec: Addr, reject: bool): (Reply, bool)
    requires rec in m.recs
  {
    var q := m.recs[rec].request;
    if q.base == q.top then (Fail(m, Success), false)
    else (Reply(m.(recs := m.recs[rec := m.recs[rec].(request := q.(base := 0, top := 0))]), Success, q.addr, 0),
          q.ripas.Ram? && q.addr != q.top && reject)
  }

  ghost function SetRipas(m: Machine, rd: Addr, rec: Addr, base: Addr, top: Addr): Reply
    requires FullInv(m) && (rec in m.recs ==> RequestOk(m, rec))
  {
    if top <= base || !Is(m, rd, RdState) || !Is(m, rec, RecState) then Fail(m, ErrorInput)
    else
      RdIsRealm(m, rd);
      assert GranuleOk(m, rec);
      var q := m.recs[rec].request;
      if m.recs[rec].rd != rd then Fail(m, ErrorRec)
      else if base != q.addr || top > q.top then Fail(m, ErrorInput)
      else
        var r := m.realms[rd];
        RequestInIpa(m, rec);
        var w := RealmWalk(m.tables, r, PAGE_LEVEL, base);
        ReachedFacts(m, rd, PAGE_LEVEL, base, w);
        if !Aligned(base, w.level) then Fail(m, ErrorRtt(w.level))
        else
          var l := RangeLoop(m, w.table, w.idx, w.level, base, top, SetOp(q.ripas, q.changeDestroyed));
          if l.addr > base then
            Reply(l.m.(recs := m.recs[rec := m.recs[rec].(request := q.(addr := l.addr))]), Success, l.addr, 0)
          else Fail(m, ErrorRtt(w.level))
  }

  lemma RequestInIpa(m: Machine, rec: Addr)
    requires Inv(m) && rec in m.recs && RequestOk(m, rec) && m.recs[rec].request.addr < m.recs[rec].request.top
    ensures Mapped(m, m.recs[rec].rd, m.recs[rec].request.addr)
  {
    var r := m.realms[m.recs[rec].rd];
    assert RootsOk(m, m.recs[rec].rd);
    RootsCover(r.ipaBits, r.start, |r.roots|);
  }

  lemma SetRipasStep(m: Machine, rd: Addr, rec: Addr, base: Addr, top: Addr)
    requires FullInv(m) && (rec in m.recs ==> RequestOk(m, rec)) && SetRipas(m, rd, rec, base, top).status.Success?
    ensures rec in m.recs && m.recs[rec].rd == rd && base == m.recs[rec].request.addr && top <= m.recs[rec].request.top
    ensures var q := SetRipas(m, rd, rec, base, top);
            var req := m.recs[rec].request;
            && q.m.recs == m.recs[rec := m.recs[rec].(request := req.(addr := q.out))]
            && RangeRun(m, rd, base, top, SetOp(req.ripas, req.changeDestroyed), q.m.(recs := m.recs), q.out)
  {
    RdIsRealm(m, rd);
    assert GranuleOk(m, rec);
    RequestInIpa(m, rec);
    var w := RealmWalk(m.tables, m.realms[rd], PAGE_LEVEL, base);
    ReachedFacts(m, rd, PAGE_LEVEL, base, w);
    var q := m.recs[rec].request;
    StartRange(m, rd, base, top);
    RangeLoopInv(m, rd, w.table, w.idx, w.level, base, top, SetOp(q.ripas, q.changeDestroyed));
    hide FullInv, AtRange, RangeLoop;
  }

  /** A successful RTT_SET_RIPAS advances the cursor towards the requested top, gives
      exactly the pages it passes the requested RIPAS, keeping their HIPAS and physical
      address, passes DESTROYED pages only if the realm allowed it, and changes no other page. */
  lemma SetRipasFlat(m: Machine, rd: Addr, rec: Addr, base: Addr, top: Addr, rd': Addr, b: Addr)
    requires FullInv(m) && (rec in m.recs ==> RequestOk(m, rec)) && SetRipas(m, rd, rec, base, top).status.Success?
    requires Mapped(m, rd', b)
    ensures rec in m.recs
    ensures var q := SetRipas(m, rd, rec, base, top);
            var req := m.recs[rec].request;
            var op := SetOp(req.ripas, req.changeDestroyed);
            var hit := rd' == rd && req.addr <= b < q.out;
            && req.base < req.top && rec in q.m.recs && req.addr < q.m.recs[rec].request.addr == q.out <= req.top
            && Mapped(q.m, rd', b) && (hit ==> Applies(op, PageAt(m, rd', b)))
            && PageAt(q.m, rd', b) == if hit then ApplyPage(op, PageAt(m, rd', b)) else PageAt(m, rd', b)
  {
    SetRipasStep(m, rd, rec, base, top);
    var req := m.recs[rec].request;
    var op := SetOp(req.ripas, req.changeDestroyed);
    var q := SetRipas(m, rd, rec, base, top);
    var w := RealmWalk(m.tables, m.realms[rd], PAGE_LEVEL, base);
    hide SetRipas, FullInv, Flat, AtRange, RangeLoop, Applies, ApplyPage;
    RangeLoopInv(m, rd, w.table, w.idx, w.level, base, top, op);
    RangeLoopFlat(m, rd, w.table, w.idx, w.level, base, top, op, rd', b);
  }

  /** Without a pending request RTT_SET_RIPAS changes nothing. */
  lemma NoRequestNoChange(m: Machine, rd: Addr, rec: Addr, base: Addr, top: Addr)
    requires FullInv(m) && rec in m.recs && RequestOk(m, rec) && m.recs[rec].request.base == m.recs[rec].request.top
    ensures SetRipas(m, rd, rec, base, top).m == m && !SetRipas(m, rd, rec, base, top).status.Success?
  {}

  lemma RecordsOnly(m: Machine, recs: map<Addr, Rec>)
    requires FullInv(m) && recs.Keys == m.recs.Keys
    requires forall a | a in recs :: recs[a].rd == m.recs[a].rd
    ensures FullInv(m.(recs := recs))
  {
    var m2 := m.(recs := recs);
    assert Inv(m2) by {
      StateChangeTables(m, m2);
      hide TableOk, RootsOk;
      forall t | t in m2.place ensures RefcountOk(m2, t) { assert RefcountOk(m, t); }
      forall x | x in m2.gs ensures GranuleOk(m2, x) { assert GranuleOk(m, x); }
    }
    hide Inv, Flat, FlatInv;
    assert FlatInv(m2) by { CompatibleInv(m, m2); }
  }

  lemma RequestInv(m: Machine, rd: Addr, rec: Addr, base: Addr, top: Addr)
    requires FullInv(m) && (rec in m.recs ==> RequestOk(m, rec))
    ensures var q := SetRipas(m, rd, rec, base, top).m;
            && FullInv(q) && q.realms == m.realms && q.gs == m.gs && q.recs.Keys == m.recs.Keys
            && (forall a | a in m.recs && a != rec :: q.recs[a] == m.recs[a])
            && (rec in m.recs ==>
                  q.recs[rec].rd == m.recs[rec].rd && q.recs[rec].aux == m.recs[rec].aux && RequestOk(q, rec))
  {
    var q := SetRipas(m, rd, rec, base, top);
    if q.status.Success? {
      SetRipasStep(m, rd, rec, base, top);
      var req := m.recs[rec].request;
      var op := SetOp(req.ripas, req.changeDestroyed);
      RangeRunInv(m, rd, base, top, op, q.m.(recs := m.recs), q.out);
      RangeAligned(m, rd, base, top, op, q.m.(recs := m.recs), q.out);
      hide SetRipas, FullInv, RangeRun;
      RecordsOnly(q.m.(recs := m.recs), q.m.recs);
      assert q.m.(recs := m.recs).(recs := q.m.recs) == q.m;
    }
  }

  /** The cursor stays page aligned. */
  lemma RangeAligned(m: Machine, rd: Addr, base: Addr, top: Addr, op: RangeOp, m2: Machine, addr: Addr)
    requires FullInv(m) && RangeRun(m, rd, base, top, op, m2, addr)
    ensures addr % PAGE == 0
  {
    var w := RealmWalk(m.tables, m.realms[rd], PAGE_LEVEL, base);
    LoopAligned(m, w.table, w.idx, w.level, base, top, op);
    AlignedPage(addr, w.level);
  }

  lemma {:induction false} LoopAligned(m: Machine, t: Addr, i: nat, level: int, addr: Addr, top: Addr, op: RangeOp)
    requires MIN_LEVEL <= level <= PAGE_LEVEL && t in m.tables && t in m.gs && |m.tables[t]| == ENTRIES
    requires Aligned(addr, level)
    ensures Aligned(RangeLoop(m, t, i, level, addr, top, op).addr, level)
    decreases if i < ENTRIES then ENTRIES - i else 0
  {
    hide Apply, Span, Aligned;
    if i < ENTRIES && addr + Span(level) <= top && Apply(op, m.tables[t][i]).Some? {
      NextEntry(addr, level);
      LoopAligned(SetEntry(m, t, i, Apply(op, m.tables[t][i]).value), t, i + 1, level, addr + Span(level), top, op);
    }
  }

  lemma AlignedPage(a: Addr, level: int)
    requires MIN_LEVEL <= level <= PAGE_LEVEL && Aligned(a, level)
    ensures a % PAGE == 0
  {
    SpanIsPow2(level);
    SpanIsPow2(PAGE_LEVEL);
    Pow2Add(Lsb(level) - 12, 12);
    var k := Pow2(Lsb(level) - 12);
    var s := Span(level);
    assert a == a / s * s && s == k * PAGE;
    MulAssoc(a / s, k, PAGE);
    DivUnique(a, PAGE, a / s * k, 0);
  }
}
