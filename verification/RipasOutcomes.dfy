/** How far RTT_SET_RIPAS and RTT_INIT_RIPAS get: exactly when they succeed, why they stop, and that
    a host can always complete a request whose pages may be changed. */
module RipasOutcomes {
  import opened S2Geometry
  import opened S2tte
  import opened RealmGeometry
  import opened Rtt
  import opened RttSteps
  import opened RttFlat
  import opened RttInvariants
  import opened RttCommands
  import opened RttLeaves
  import opened RttQueries
  import opened CommandOutcomes
  import opened RipasCommands

  // ------------------------------------------------------------ one entry

  /** RIPAS of the page may be changed to anything: it has one, and DESTROYED only if allowed. */
  predicate Changeable(p: Page, changeDestroyed: bool) {
    (p.Unassigned? || p.Assigned?) && (p.ripas.Destroyed? ==> changeDestroyed)
  }

  /** The operation can be applied to an entry exactly if it applies to the pages it maps; never
      to a table. */
  lemma ApplyExactly(op: RangeOp, f: Format, e: Entry, level: int, b: Addr)
    requires MIN_LEVEL <= level <= PAGE_LEVEL && ValidEntry(f, e, level)
    ensures Apply(op, e).Some? <==> !e.TableEntry? && Applies(op, PageOf(e, level, b))
    ensures op.SetOp? ==> (Applies(op, PageOf(e, level, b)) <==> Changeable(PageOf(e, level, b), op.changeDestroyed))
    ensures op.InitOp? ==>
              (Applies(op, PageOf(e, level, b)) <==> e == UnassignedEntry(Empty) || e == UnassignedEntry(Ram))
  {}

  // ------------------------------------------------------------ the range loop

  /** The entry that the loop stands at can be changed exactly if the address is mapped at the level
      of the table and its page may be changed. */
  lemma AtRangeApplies(m: Machine, rd: Addr, t: Addr, i: nat, level: int, addr: Addr, top: Addr, op: RangeOp)
    requires AtRange(m, rd, t, i, level, addr, top) && i < ENTRIES && addr + Span(level) <= top
    ensures Mapped(m, rd, addr) && AtEntry(m, t, i)
    ensures Apply(op, m.tables[t][i]).Some? <==> LeafLevel(m, rd, addr) == level && Applies(op, PageAt(m, rd, addr))
    ensures Apply(op, m.tables[t][i]).Some? ==>
              !m.tables[t][i].TableEntry? && !Apply(op, m.tables[t][i]).value.TableEntry?
  {
    WalkStops(m, rd, level, addr, WalkResult(t, i, level));
    hide FullInv, Inv, Walk, Idx, Flat;
    ApplyExactly(op, m.realms[rd].fmt, m.tables[t][i], level, addr);
  }

  /** One step moves no level, and the addresses of its entry are mapped at the level of the table. */
  lemma RangeStepLevel(m: Machine, rd: Addr, t: Addr, i: nat, level: int, addr: Addr, top: Addr, op: RangeOp, b: Addr)
    requires AtRange(m, rd, t, i, level, addr, top) && i < ENTRIES && addr + Span(level) <= top && Mapped(m, rd, b)
    requires Apply(op, m.tables[t][i]).Some?
    ensures var m2 := SetEntry(m, t, i, Apply(op, m.tables[t][i]).value);
            Mapped(m2, rd, b) && LeafLevel(m2, rd, b) == LeafLevel(m, rd, b)
    ensures addr <= b < addr + Span(level) ==> LeafLevel(m, rd, b) == level
  {
    AtRangeApplies(m, rd, t, i, level, addr, top, op);
    assert Inv(m);
    EntryRange(addr, b, level);
    hide FullInv, Inv, Reached, Apply, Walk, LeafLevel, Flat, Geometry, Aligned;
    var e := Apply(op, m.tables[t][i]).value;
    LevelSet(m, SetEntry(m, t, i, e), t, i, e, rd, PAGE_LEVEL, b);
    if addr <= b < addr + Span(level) { SameLeaf(m, rd, addr, b); }
  }

  /** Every address that the loop passes is mapped at the level of the table. */
  lemma {:induction false} RangeLoopLevel(m: Machine, rd: Addr, t: Addr, i: nat, level: int, addr: Addr, top: Addr,
      op: RangeOp, b: Addr)
    requires AtRange(m, rd, t, i, level, addr, top) && Mapped(m, rd, b)
    ensures addr <= b < RangeLoop(m, t, i, level, addr, top, op).addr ==> LeafLevel(m, rd, b) == level
    decreases if i < ENTRIES then ENTRIES - i else 0
  {
    hide FullInv, Reached, Apply, SetEntry, LeafLevel, Span, Aligned, Mapped, Geometry;
    if i < ENTRIES && addr + Span(level) <= top && Apply(op, m.tables[t][i]).Some? {
      RangeStep(m, rd, t, i, level, addr, top, op);
      RangeStepLevel(m, rd, t, i, level, addr, top, op, b);
      var m2 := SetEntry(m, t, i, Apply(op, m.tables[t][i]).value);
      RangeLoopLevel(m2, rd, t, i + 1, level, addr + Span(level), top, op, b);
    }
  }

  /** The loop stops because the next entry would pass `top`, at the end of the table, or at an
      address that is not mapped at this level or whose page may not be changed. */
  ghost predicate Stops(m: Machine, rd: Addr, level: int, start: Addr, top: Addr, op: RangeOp, c: Addr)
    requires MIN_LEVEL <= level <= PAGE_LEVEL
  {
    || c + Span(level) > top
    || c == TableEnd(start, level)
    || (Mapped(m, rd, c) && (LeafLevel(m, rd, c) != level || !Applies(op, PageAt(m, rd, c))))
  }

  lemma NextStart(start: Addr, level: int, i: nat, addr: Addr)
    requires MIN_LEVEL <= level <= PAGE_LEVEL
    requires addr == start / Span(level - 1) * Span(level - 1) + i * Span(level)
    ensures addr + Span(level) == start / Span(level - 1) * Span(level - 1) + (i + 1) * Span(level)
    ensures i == ENTRIES ==> addr == TableEnd(start, level)
  {
    SpanStep(level);
  }

  lemma {:induction false} RangeLoopStops(m: Machine, rd: Addr, t: Addr, i: nat, level: int, addr: Addr, top: Addr,
      op: RangeOp, start: Addr)
    requires AtRange(m, rd, t, i, level, addr, top) && i <= ENTRIES
    requires addr == start / Span(level - 1) * Span(level - 1) + i * Span(level)
    ensures Stops(m, rd, level, start, top, op, RangeLoop(m, t, i, level, addr, top, op).addr)
    decreases ENTRIES - i
  {
    hide Apply, SetEntry, Span, FullInv, Reached, ValidRealm, Aligned, TableEnd, Applies, LeafLevel, Flat;
    NextStart(start, level, i, addr);
    if i < ENTRIES && addr + Span(level) <= top {
      AtRangeApplies(m, rd, t, i, level, addr, top, op);
      if Apply(op, m.tables[t][i]).Some? {
        var m2 := SetEntry(m, t, i, Apply(op, m.tables[t][i]).value);
        RangeStep(m, rd, t, i, level, addr, top, op);
        RangeLoopStops(m2, rd, t, i + 1, level, addr + Span(level), top, op, start);
        RangeLoopInv(m2, rd, t, i + 1, level, addr + Span(level), top, op);
        StopsBefore(m, rd, t, i, level, addr, top, op, start, RangeLoop(m, t, i, level, addr, top, op).addr);
      }
    }
  }

  /** Why the loop stops does not depend on what it has changed on its way. */
  lemma StopsBefore(m: Machine, rd: Addr, t: Addr, i: nat, level: int, addr: Addr, top: Addr, op: RangeOp,
      start: Addr, c: Addr)
    requires AtRange(m, rd, t, i, level, addr, top) && i < ENTRIES && addr + Span(level) <= top
    requires Apply(op, m.tables[t][i]).Some? && addr + Span(level) <= c
    requires Stops(SetEntry(m, t, i, Apply(op, m.tables[t][i]).value), rd, level, start, top, op, c)
    ensures Stops(m, rd, level, start, top, op, c)
  {
    AtRangeApplies(m, rd, t, i, level, addr, top, op);
    var e := Apply(op, m.tables[t][i]).value;
    var m2 := SetEntry(m, t, i, e);
    if Mapped(m2, rd, c) {
      RangeStepFlat(m, rd, t, i, level, addr, top, op, rd, c);
      LevelSet(m, m2, t, i, e, rd, PAGE_LEVEL, c);
    }
    hide FullInv, AtRange, Apply, Walk, Flat, SetEntry, ApplyPage;
  }

  // ------------------------------------------------------------ the commands

  /** The walk of both commands ends where the address is mapped. */
  lemma RangeWalk(m: Machine, rd: Addr, base: Addr)
    requires Inv(m) && Mapped(m, rd, base)
    ensures var w := RealmWalk(m.tables, m.realms[rd], PAGE_LEVEL, base);
            && Reached(m, rd, PAGE_LEVEL, base, w) && w.level == LeafLevel(m, rd, base) && AtEntry(m, w.table, w.idx)
            && MIN_LEVEL <= m.realms[rd].start <= w.level <= PAGE_LEVEL && w.idx == Idx(base, w.level)
            && base < MAX_ADDR
  {
    var w := RealmWalk(m.tables, m.realms[rd], PAGE_LEVEL, base);
    WalkStops(m, rd, PAGE_LEVEL, base, w);
    ReachedFacts(m, rd, PAGE_LEVEL, base, w);
  }

  /** From an address that is aligned to the level at which it is mapped, the loop moves exactly if
      an entry fits below `top` and the page may be changed; then it goes as far as it can. */
  lemma RangeOutcome(m: Machine, rd: Addr, base: Addr, top: Addr, op: RangeOp)
    requires FullInv(m) && Mapped(m, rd, base) && top <= ParSize(m.realms[rd].ipaBits)
    requires MIN_LEVEL <= LeafLevel(m, rd, base) <= PAGE_LEVEL && Aligned(base, LeafLevel(m, rd, base))
    ensures var w := RealmWalk(m.tables, m.realms[rd], PAGE_LEVEL, base);
            && w.level == LeafLevel(m, rd, base) && w.table in m.tables && w.table in m.gs
            && |m.tables[w.table]| == ENTRIES
            && var c := RangeLoop(m, w.table, w.idx, w.level, base, top, op).addr;
            && base <= c && (c > base <==> base + Span(w.level) <= top && Applies(op, PageAt(m, rd, base)))
            && Aligned(c, w.level) && Stops(m, rd, w.level, base, top, op, c)
  {
    RangeWalk(m, rd, base);
    hide Walk, Idx, Flat, Stops, Applies, Apply, LeafLevel, Span, Aligned, Geometry, Reached, Inv, FlatInv, RangeLoop;
    var w := RealmWalk(m.tables, m.realms[rd], PAGE_LEVEL, base);
    StartRange(m, rd, base, top);
    StartAddress(base, w.level);
    LoopAligned(m, w.table, w.idx, w.level, base, top, op);
    RangeLoopStops(m, rd, w.table, w.idx, w.level, base, top, op, base);
    LoopMoves(m, rd, w.table, w.idx, w.level, base, top, op);
  }

  lemma StartAddress(base: Addr, level: int)
    requires MIN_LEVEL <= level <= PAGE_LEVEL && Aligned(base, level) && base < MAX_ADDR
    ensures base == base / Span(level - 1) * Span(level - 1) + Idx(base, level) * Span(level)
  {
    EntryAddress(base, level, Idx(base, level));
    assert base / Span(level) * Span(level) == base;
  }

  lemma LoopMoves(m: Machine, rd: Addr, t: Addr, i: nat, level: int, addr: Addr, top: Addr, op: RangeOp)
    requires AtRange(m, rd, t, i, level, addr, top) && i < ENTRIES && Mapped(m, rd, addr)
    requires LeafLevel(m, rd, addr) == level
    ensures var c := RangeLoop(m, t, i, level, addr, top, op).addr;
            addr <= c && (c > addr <==> addr + Span(level) <= top && Applies(op, PageAt(m, rd, addr)))
  {
    hide Apply, SetEntry, FullInv, Reached, ValidRealm, Aligned, Applies, LeafLevel, Flat;
    if addr + Span(level) <= top {
      AtRangeApplies(m, rd, t, i, level, addr, top, op);
      if Apply(op, m.tables[t][i]).Some? {
        RangeStep(m, rd, t, i, level, addr, top, op);
        var m2 := SetEntry(m, t, i, Apply(op, m.tables[t][i]).value);
        RangeLoopInv(m2, rd, t, i + 1, level, addr + Span(level), top, op);
      }
    }
  }

  /** What the command is asked for is the next part of the request of a REC of the realm. */
  ghost predicate Continues(m: Machine, rd: Addr, rec: Addr, base: Addr, top: Addr) {
    && Is(m, rd, RdState) && Is(m, rec, RecState) && rec in m.recs && m.recs[rec].rd == rd
    && base == m.recs[rec].request.addr && base < top <= m.recs[rec].request.top
  }

  lemma ContinuesFacts(m: Machine, rd: Addr, rec: Addr, base: Addr, top: Addr)
    requires FullInv(m) && (rec in m.recs ==> RequestOk(m, rec)) && Continues(m, rd, rec, base, top)
    ensures rd in m.realms && ValidRealm(m.realms[rd]) && Mapped(m, rd, base)
    ensures top <= ParSize(m.realms[rd].ipaBits) && base % PAGE == 0
    ensures MIN_LEVEL <= LeafLevel(m, rd, base) <= PAGE_LEVEL
    ensures PageAt(m, rd, base).Unassigned? || PageAt(m, rd, base).Assigned?
  {
    RdIsRealm(m, rd);
    RequestInIpa(m, rec);
    RangeWalk(m, rd, base);
    assert ParOk(m, rd, base);
  }

  /** RTT_SET_RIPAS succeeds exactly if it is asked for the next part of a request, from an address
      that is aligned to the level at which it is mapped, an entry of that level fits below the
      given top, and the page there is not DESTROYED, or the realm allowed to change that. */
  lemma SetRipasOutcome(m: Machine, rd: Addr, rec: Addr, base: Addr, top: Addr)
    requires FullInv(m) && (rec in m.recs ==> RequestOk(m, rec))
    ensures var q := SetRipas(m, rd, rec, base, top);
            var granules := base < top && Is(m, rd, RdState) && Is(m, rec, RecState);
            && (Continues(m, rd, rec, base, top) ==> Mapped(m, rd, base) && -1 <= LeafLevel(m, rd, base) <= 3)
            && (q.status.Success? <==>
                  && Continues(m, rd, rec, base, top)
                  && var l, page := LeafLevel(m, rd, base), PageAt(m, rd, base);
                  && base % Span(l) == 0 && base + Span(l) <= top && (page.Unassigned? || page.Assigned?)
                  && (page.ripas.Destroyed? ==> m.recs[rec].request.changeDestroyed))
            && (!granules ==> q == Fail(m, ErrorInput))
            && (granules && (rec in m.recs ==> m.recs[rec].rd != rd) ==> q == Fail(m, ErrorRec))
            && (granules && rec in m.recs && m.recs[rec].rd == rd && !Continues(m, rd, rec, base, top) ==>
                  q == Fail(m, ErrorInput))
            && (Continues(m, rd, rec, base, top) && !q.status.Success? ==>
                  q == Fail(m, ErrorRtt(LeafLevel(m, rd, base))))
  {
    if Is(m, rec, RecState) { assert GranuleOk(m, rec); }
    if Is(m, rd, RdState) { RdIsRealm(m, rd); }
    if Continues(m, rd, rec, base, top) {
      ContinuesFacts(m, rd, rec, base, top);
      RangeWalk(m, rd, base);
      var l, req := LeafLevel(m, rd, base), m.recs[rec].request;
      if Aligned(base, l) { RangeOutcome(m, rd, base, top, SetOp(req.ripas, req.changeDestroyed)); }
    }
    hide FullInv, Walk, Geometry, RangeLoop, Stops, Flat, LeafLevel, RequestOk;
  }

  /** A successful call: the cursor moves by whole entries of the level at which the old cursor is
      mapped, not beyond the given top; exactly the pages it passes, which are all mapped at that
      level, have the requested RIPAS, and are what they were otherwise; no address changes its
      level. It stops only where the next entry would pass the top, at the end of the table, at an
      address mapped at another level, or at a DESTROYED page that the realm did not release. */
  lemma SetRipasReach(m: Machine, rd: Addr, rec: Addr, base: Addr, top: Addr, rd': Addr, b: Addr)
    requires FullInv(m) && (rec in m.recs ==> RequestOk(m, rec)) && Mapped(m, rd', b)
    requires SetRipas(m, rd, rec, base, top).status.Success?
    ensures rec in m.recs && Mapped(m, rd, base) && MIN_LEVEL <= LeafLevel(m, rd, base) <= PAGE_LEVEL
    ensures var q := SetRipas(m, rd, rec, base, top);
            var req, l := m.recs[rec].request, LeafLevel(m, rd, base);
            var hit := rd' == rd && base <= b < q.out;
            && base + Span(l) <= q.out <= top && q.out % Span(l) == 0
            && Mapped(q.m, rd', b) && LeafLevel(q.m, rd', b) == LeafLevel(m, rd', b)
            && (hit ==> LeafLevel(m, rd', b) == l && Changeable(PageAt(m, rd', b), req.changeDestroyed))
            && PageAt(q.m, rd', b) == (if hit then PageAt(m, rd', b).(ripas := req.ripas) else PageAt(m, rd', b))
            && (|| q.out + Span(l) > top || q.out == TableEnd(base, l)
                || (Mapped(m, rd, q.out) && (LeafLevel(m, rd, q.out) != l
                                             || !Changeable(PageAt(m, rd, q.out), req.changeDestroyed))))
  {
    hide SetRipas, FullInv, Flat, LeafLevel, Span, TableEnd, Changeable;
    SetRipasStops(m, rd, rec, base, top);
    SetRipasPages(m, rd, rec, base, top, rd', b);
  }

  lemma SetRipasStops(m: Machine, rd: Addr, rec: Addr, base: Addr, top: Addr)
    requires FullInv(m) && (rec in m.recs ==> RequestOk(m, rec)) && SetRipas(m, rd, rec, base, top).status.Success?
    ensures rec in m.recs && Mapped(m, rd, base) && MIN_LEVEL <= LeafLevel(m, rd, base) <= PAGE_LEVEL
    ensures var q := SetRipas(m, rd, rec, base, top);
            var req, l := m.recs[rec].request, LeafLevel(m, rd, base);
            && base + Span(l) <= q.out <= top && q.out % Span(l) == 0
            && (|| q.out + Span(l) > top || q.out == TableEnd(base, l)
                || (Mapped(m, rd, q.out) && (LeafLevel(m, rd, q.out) != l
                                             || !Changeable(PageAt(m, rd, q.out), req.changeDestroyed))))
  {
    SetRipasStep(m, rd, rec, base, top);
    SetRipasOutcome(m, rd, rec, base, top);
    var q, req, l := SetRipas(m, rd, rec, base, top), m.recs[rec].request, LeafLevel(m, rd, base);
    var op := SetOp(req.ripas, req.changeDestroyed);
    hide SetRipas, FullInv, Flat, LeafLevel, Walk, AtRange, RangeLoop, TableEnd;
    RangeRunInv(m, rd, base, top, op, q.m.(recs := m.recs), q.out);
    RangeOutcome(m, rd, base, top, op);
    WholeEntries(base, q.out, l);
  }

  lemma SetRipasPages(m: Machine, rd: Addr, rec: Addr, base: Addr, top: Addr, rd': Addr, b: Addr)
    requires FullInv(m) && (rec in m.recs ==> RequestOk(m, rec)) && Mapped(m, rd', b)
    requires SetRipas(m, rd, rec, base, top).status.Success?
    ensures rec in m.recs && Mapped(m, rd, base)
    ensures var q := SetRipas(m, rd, rec, base, top);
            var req := m.recs[rec].request;
            var hit := rd' == rd && base <= b < q.out;
            && Mapped(q.m, rd', b) && LeafLevel(q.m, rd', b) == LeafLevel(m, rd', b)
            && (hit ==> && LeafLevel(m, rd', b) == LeafLevel(m, rd, base)
                        && Changeable(PageAt(m, rd', b), req.changeDestroyed))
            && PageAt(q.m, rd', b) == (if hit then PageAt(m, rd', b).(ripas := req.ripas) else PageAt(m, rd', b))
  {
    SetRipasStep(m, rd, rec, base, top);
    SetRipasFlat(m, rd, rec, base, top, rd', b);
    var q, req := SetRipas(m, rd, rec, base, top), m.recs[rec].request;
    var op := SetOp(req.ripas, req.changeDestroyed);
    assert Inv(m);
    hide SetRipas, FullInv, Inv, Flat, LeafLevel, Walk, AtRange, RangeLoop, Span, Geometry;
    RangeWalk(m, rd, base);
    var w := RealmWalk(m.tables, m.realms[rd], PAGE_LEVEL, base);
    RunLevels(m, rd, w.table, w.idx, w.level, base, top, op, rd', b);
    SameTablesLevel(q.m.(recs := m.recs), q.m, rd', b);
  }

  lemma WholeEntries(a: Addr, c: Addr, level: int)
    requires MIN_LEVEL <= level <= PAGE_LEVEL && Aligned(a, level) && Aligned(c, level) && a < c
    ensures a + Span(level) <= c
  {
    var s := Span(level);
    assert a == a / s * s && c == c / s * s;
    if c / s < a / s + 1 { MulLe(c / s, a / s, s); } else { MulLe(a / s + 1, c / s, s); }
  }

  lemma SameTablesLevel(m: Machine, m2: Machine, rd: Addr, b: Addr)
    requires m2.tables == m.tables && m2.realms == m.realms && Mapped(m, rd, b)
    ensures Mapped(m2, rd, b) && LeafLevel(m2, rd, b) == LeafLevel(m, rd, b)
  {}

  /** The loop moves no level of any realm, and passes addresses of its own level only. */
  lemma {:induction false} RunLevels(m: Machine, rd: Addr, t: Addr, i: nat, level: int, addr: Addr, top: Addr,
      op: RangeOp, rd': Addr, b: Addr)
    requires AtRange(m, rd, t, i, level, addr, top) && Mapped(m, rd', b)
    ensures var q := RangeLoop(m, t, i, level, addr, top, op);
            && Mapped(q.m, rd', b) && LeafLevel(q.m, rd', b) == LeafLevel(m, rd', b)
            && (rd' == rd && addr <= b < q.addr ==> LeafLevel(m, rd', b) == level)
    decreases if i < ENTRIES then ENTRIES - i else 0
  {
    hide FullInv, Reached, Apply, SetEntry, LeafLevel, Span, Aligned, Mapped, Geometry;
    if rd' == rd { RangeLoopLevel(m, rd, t, i, level, addr, top, op, b); }
    if i < ENTRIES && addr + Span(level) <= top && Apply(op, m.tables[t][i]).Some? {
      RangeStep(m, rd, t, i, level, addr, top, op);
      StepMovesNoLevel(m, rd, t, i, level, addr, top, op, rd', b);
      var m2 := SetEntry(m, t, i, Apply(op, m.tables[t][i]).value);
      RunLevels(m2, rd, t, i + 1, level, addr + Span(level), top, op, rd', b);
    }
  }

  lemma StepMovesNoLevel(m: Machine, rd: Addr, t: Addr, i: nat, level: int, addr: Addr, top: Addr, op: RangeOp,
      rd': Addr, b: Addr)
    requires AtRange(m, rd, t, i, level, addr, top) && i < ENTRIES && addr + Span(level) <= top && Mapped(m, rd', b)
    requires Apply(op, m.tables[t][i]).Some?
    ensures var m2 := SetEntry(m, t, i, Apply(op, m.tables[t][i]).value);
            Mapped(m2, rd', b) && LeafLevel(m2, rd', b) == LeafLevel(m, rd', b)
  {
    AtRangeApplies(m, rd, t, i, level, addr, top, op);
    hide FullInv, Inv, Reached, Apply, Walk, LeafLevel, Flat, Aligned;
    var e := Apply(op, m.tables[t][i]).value;
    LevelSet(m, SetEntry(m, t, i, e), t, i, e, rd', PAGE_LEVEL, b);
  }

  /** If all pages up to an aligned top are in one table, mapped by its own entries, and may be
      changed, one call changes them all. */
  lemma SetRipasAll(m: Machine, rd: Addr, rec: Addr, base: Addr, top: Addr)
    requires FullInv(m) && (rec in m.recs ==> RequestOk(m, rec)) && Continues(m, rd, rec, base, top)
    requires Mapped(m, rd, base) && MIN_LEVEL <= LeafLevel(m, rd, base) <= PAGE_LEVEL
    requires var l := LeafLevel(m, rd, base); base % Span(l) == 0 && top % Span(l) == 0 && top <= TableEnd(base, l)
    requires forall b | base <= b < top && Mapped(m, rd, b) ::
               && LeafLevel(m, rd, b) == LeafLevel(m, rd, base)
               && Changeable(PageAt(m, rd, b), m.recs[rec].request.changeDestroyed)
    ensures var q := SetRipas(m, rd, rec, base, top); q.status.Success? && q.out == top
  {
    var l := LeafLevel(m, rd, base);
    SetRipasOutcome(m, rd, rec, base, top);
    hide SetRipas, FullInv, Flat, LeafLevel;
    WholeEntries(base, top, l);
    assert Changeable(PageAt(m, rd, base), m.recs[rec].request.changeDestroyed);
    var q := SetRipas(m, rd, rec, base, top);
    SetRipasReach(m, rd, rec, base, top, rd, base);
    if q.out < top { WholeEntries(q.out, top, l); }
  }

  /** The first address of the entry of level `l` for `c`. */
  function EntryStart(c: Addr, l: int): (a: Addr)
    requires MIN_LEVEL <= l <= PAGE_LEVEL
    ensures a <= c < a + Span(l) && a % Span(l) == 0
  {
    DivUnique(c / Span(l) * Span(l), Span(l), c / Span(l), 0);
    c / Span(l) * Span(l)
  }

  /** A request can always be served further, unless the page at its cursor is DESTROYED and not
      released: either RTT_SET_RIPAS up to the requested top succeeds, or the page is mapped too far
      up, and RTT_CREATE with any delegated granule maps it one level further down, as it was. At
      page level the former is the case. */
  lemma RequestProgress(m: Machine, rec: Addr, rtt: Addr)
    requires FullInv(m) && rec in m.recs && RequestOk(m, rec)
    requires m.recs[rec].request.base != m.recs[rec].request.top && m.recs[rec].request.addr < m.recs[rec].request.top
    requires Is(m, rtt, Delegated) && rtt < OutputSize(m.realms[m.recs[rec].rd].fmt)
    ensures var req, rd := m.recs[rec].request, m.recs[rec].rd;
            && Mapped(m, rd, req.addr) && MIN_LEVEL <= LeafLevel(m, rd, req.addr) <= PAGE_LEVEL
            && var l := LeafLevel(m, rd, req.addr);
            && (Changeable(PageAt(m, rd, req.addr), req.changeDestroyed) ==>
                  || SetRipas(m, rd, rec, req.addr, req.top).status.Success?
                  || (&& l < PAGE_LEVEL
                      && var q := RttCreate(m, rd, rtt, EntryStart(req.addr, l), l + 1);
                      && q.status.Success? && Mapped(q.m, rd, req.addr) && LeafLevel(q.m, rd, req.addr) == l + 1
                      && PageAt(q.m, rd, req.addr) == PageAt(m, rd, req.addr)
                      && q.m.recs == m.recs))
  {
    var req, rd := m.recs[rec].request, m.recs[rec].rd;
    RequestContinues(m, rec);
    assert Inv(m) && Is(m, rd, RdState);
    hide SetRipas, Flat, LeafLevel, FullInv, Inv, Walk, EntryStart, RttCreate, RequestOk, Span, Changeable, Mapped;
    hide Continues, ValidRealm, InIpa, ParSize, OutputSize;
    ContinuesFacts(m, rd, rec, req.addr, req.top);
    var l := LeafLevel(m, rd, req.addr);
    if Changeable(PageAt(m, rd, req.addr), req.changeDestroyed) {
      if l == PAGE_LEVEL { ServesPage(m, rec); } else { SplitAt(m, rd, req.addr, l, rtt); }
    }
  }

  lemma ServesPage(m: Machine, rec: Addr)
    requires FullInv(m) && rec in m.recs && RequestOk(m, rec)
    requires m.recs[rec].request.base != m.recs[rec].request.top && m.recs[rec].request.addr < m.recs[rec].request.top
    requires var req, rd := m.recs[rec].request, m.recs[rec].rd;
             && Mapped(m, rd, req.addr) && LeafLevel(m, rd, req.addr) == PAGE_LEVEL
             && Changeable(PageAt(m, rd, req.addr), req.changeDestroyed)
    ensures var req := m.recs[rec].request; SetRipas(m, m.recs[rec].rd, rec, req.addr, req.top).status.Success?
  {
    var req, rd := m.recs[rec].request, m.recs[rec].rd;
    RequestContinues(m, rec);
    hide SetRipas, Flat, LeafLevel, FullInv, Walk, RequestOk, Continues, Mapped;
    SetRipasOutcome(m, rd, rec, req.addr, req.top);
  }

  /** The rest of a pending request, in pages. */
  lemma RequestContinues(m: Machine, rec: Addr)
    requires FullInv(m) && rec in m.recs && RequestOk(m, rec)
    requires m.recs[rec].request.base != m.recs[rec].request.top && m.recs[rec].request.addr < m.recs[rec].request.top
    ensures var req, rd := m.recs[rec].request, m.recs[rec].rd;
            && Continues(m, rd, rec, req.addr, req.top) && rd in m.realms
            && req.addr % Span(3) == 0 && req.addr + Span(3) <= req.top
  {
    var req, rd := m.recs[rec].request, m.recs[rec].rd;
    assert GranuleOk(m, rd) && GranuleOk(m, rec);
    WholeEntries(req.addr, req.top, PAGE_LEVEL);
  }

  /** An address that is mapped above the page level can be mapped one level further down. */
  lemma SplitAt(m: Machine, rd: Addr, c: Addr, l: int, rtt: Addr)
    requires Inv(m) && Is(m, rd, RdState) && Mapped(m, rd, c) && LeafLevel(m, rd, c) == l && MIN_LEVEL <= l < PAGE_LEVEL
    requires Is(m, rtt, Delegated) && rtt < OutputSize(m.realms[rd].fmt)
    ensures var q := RttCreate(m, rd, rtt, EntryStart(c, l), l + 1);
            && q.status.Success? && Mapped(q.m, rd, c) && LeafLevel(q.m, rd, c) == l + 1
            && PageAt(q.m, rd, c) == PageAt(m, rd, c) && q.m.recs == m.recs
  {
    var ipa := EntryStart(c, l);
    SplitNames(m, rd, c, l);
    hide Flat, LeafLevel, Walk, RttCreate, Inv, Geometry, Span, EntryStart, NamesTable, Mapped;
    RttCreateOutcome(m, rd, rtt, ipa, l + 1);
    RttCreateLevels(m, rd, rtt, ipa, l + 1, rd, c, rtt);
    RttCreateFlat(m, rd, rtt, ipa, l + 1, rd, c);
    RttCreateStep(m, rd, rtt, ipa, l + 1);
  }

  lemma SplitNames(m: Machine, rd: Addr, c: Addr, l: int)
    requires Inv(m) && Is(m, rd, RdState) && Mapped(m, rd, c) && LeafLevel(m, rd, c) == l && MIN_LEVEL <= l < PAGE_LEVEL
    ensures var ipa := EntryStart(c, l);
            Mapped(m, rd, ipa) && LeafLevel(m, rd, ipa) == l && NamesTable(m, rd, ipa, l + 1)
  {
    RangeWalk(m, rd, c);
    EntryRange(EntryStart(c, l), c, l);
    hide LeafLevel, Walk, Inv, Geometry, EntryStart;
    SameLeaf(m, rd, c, EntryStart(c, l));
  }

  /** RTT_INIT_RIPAS succeeds exactly for a page-aligned range inside the PAR of a new realm that
      begins at an address aligned to the level at which it is mapped, with room for an entry of
      that level and an unassigned page there that is EMPTY or RAM. */
  lemma InitRipasOutcome(m: Machine, rd: Addr, base: Addr, top: Addr)
    requires FullInv(m)
    ensures var q := InitRipas(m, rd, base, top);
            var valid := && base < top && Is(m, rd, RdState) && rd in m.realms && ValidRealm(m.realms[rd])
                         && base % PAGE == 0 && top % PAGE == 0 && top <= ParSize(m.realms[rd].ipaBits);
            && (valid ==> Mapped(m, rd, base) && -1 <= LeafLevel(m, rd, base) <= 3)
            && (q.status.Success? <==>
                  && valid && m.realms[rd].state == New
                  && var l, page := LeafLevel(m, rd, base), PageAt(m, rd, base);
                  && base % Span(l) == 0 && base + Span(l) <= top
                  && (page == Unassigned(Empty) || page == Unassigned(Ram)))
            && (!valid ==> q == Fail(m, ErrorInput))
            && (valid && m.realms[rd].state != New ==> q == Fail(m, ErrorRealm))
            && (valid && m.realms[rd].state == New && !q.status.Success? ==>
                  q == Fail(m, ErrorRtt(LeafLevel(m, rd, base))))
  {
    if Is(m, rd, RdState) {
      RdIsRealm(m, rd);
      if base < top { InitRange(m.realms[rd], base, top); }
      if base < top && base % PAGE == 0 && top % PAGE == 0 && top <= ParSize(m.realms[rd].ipaBits) {
        RangeWalk(m, rd, base);
        if Aligned(base, LeafLevel(m, rd, base)) { RangeOutcome(m, rd, base, top, InitOp); }
      }
    }
    hide FullInv, Walk, Geometry, RangeLoop, Stops, Flat, LeafLevel, ParSize, IpaSize;
  }

  lemma InitRange(r: Realm, base: Addr, top: Addr)
    requires ValidRealm(r) && base < top
    ensures (&& ValidMapAddr(r, base, PAGE_LEVEL) && ValidMapAddr(r, top, PAGE_LEVEL)
             && InPar(r, base) && top >= PAGE && InPar(r, top - PAGE))
            <==> base % PAGE == 0 && top % PAGE == 0 && top <= ParSize(r.ipaBits)
  {
    RootsCover(r.ipaBits, r.start, |r.roots|);
    if top % PAGE == 0 && top >= PAGE && InPar(r, top - PAGE) {
      PageBelow(top, Pow2(r.ipaBits - Lsb(r.start) - 1), Span(r.start), r.start);
    }
  }

  /** A successful RTT_INIT_RIPAS goes as far as it can: it stops only where the next entry would
      pass the top, at the end of the table, at an address mapped at another level, or at a page
      that is neither EMPTY nor RAM, or assigned. */
  lemma InitRipasReach(m: Machine, rd: Addr, base: Addr, top: Addr, rd': Addr, b: Addr)
    requires FullInv(m) && InitRipas(m, rd, base, top).status.Success? && Mapped(m, rd', b)
    ensures Mapped(m, rd, base) && MIN_LEVEL <= LeafLevel(m, rd, base) <= PAGE_LEVEL
    ensures var q := InitRipas(m, rd, base, top);
            var l := LeafLevel(m, rd, base);
            && base + Span(l) <= q.out <= top && q.out % Span(l) == 0
            && Mapped(q.m, rd', b) && LeafLevel(q.m, rd', b) == LeafLevel(m, rd', b)
            && (|| q.out + Span(l) > top || q.out == TableEnd(base, l)
                || (Mapped(m, rd, q.out)
                    && (LeafLevel(m, rd, q.out) != l
                        || PageAt(m, rd, q.out) !in {Unassigned(Empty), Unassigned(Ram)})))
  {
    InitRipasStep(m, rd, base, top);
    InitRipasOutcome(m, rd, base, top);
    var q, l := InitRipas(m, rd, base, top), LeafLevel(m, rd, base);
    hide InitRipas, FullInv, Flat, LeafLevel, Walk, AtRange, RangeLoop, TableEnd;
    RangeRunInv(m, rd, base, top, InitOp, q.m, q.out);
    RangeOutcome(m, rd, base, top, InitOp);
    WholeEntries(base, q.out, l);
    var w := RealmWalk(m.tables, m.realms[rd], PAGE_LEVEL, base);
    RunLevels(m, rd, w.table, w.idx, w.level, base, top, InitOp, rd', b);
  }

  // ------------------------------------------------------------ RSI_IPA_STATE_GET

  predicate PageHas(p: Page, r: Ripas) { (p.Unassigned? || p.Assigned?) && p.ripas == r }

  /** The reported top is as far as the RIPAS runs: up to the end of the query, the end of the
      table, an address mapped at another level, or a page with another RIPAS. */
  lemma IpaStateGetReach(m: Machine, rd: Addr, start: Addr, end: Addr)
    requires FullInv(m) && rd in m.realms && ValidRealm(m.realms[rd]) && IpaStateGet(m, rd, start, end).StateGetOk?
    ensures Mapped(m, rd, start) && MIN_LEVEL <= LeafLevel(m, rd, start) <= PAGE_LEVEL
    ensures var q, l := IpaStateGet(m, rd, start, end), LeafLevel(m, rd, start);
            || q.top == end || q.top == TableEnd(start, l)
            || (Mapped(m, rd, q.top) && (LeafLevel(m, rd, q.top) != l || !PageHas(PageAt(m, rd, q.top), q.ripas)))
  {
    var r := m.realms[rd];
    ParInIpa(r, start);
    ParInIpa(r, end - 1);
    WalkedEntry(m, rd, start);
    RangeWalk(m, rd, start);
    var w := RealmWalk(m.tables, r, PAGE_LEVEL, start);
    var top := IpaStateGet(m, rd, start, end).top;
    hide FullInv, Flat, Walk, Idx, Geometry, LeafLevel, TableEnd, Reached;
    var j := StateGetEnd(m.tables[w.table], start, w.level, end);
    if top != end && top != TableEnd(start, w.level) {
      ParInIpa(r, top);
      RootInBounds(r.ipaBits, r.start, |r.roots|, top);
      SkippedIndex(start, w.level, j, top);
      RipasOfEntry(m, rd, start, w, j, top);
    }
  }

  lemma StateGetEnd(es: seq<Entry>, start: Addr, level: int, end: Addr) returns (j: nat)
    requires MIN_LEVEL <= level <= PAGE_LEVEL && |es| == ENTRIES && start < MAX_ADDR && start < end
    requires StateGetAt(es, Idx(start, level), level, start, end).StateGetOk?
    ensures j <= ENTRIES
    ensures var q := StateGetAt(es, Idx(start, level), level, start, end);
            || q.top == end || q.top == TableEnd(start, level)
            || (&& q.top < end && j < ENTRIES && (!es[j].HasRipas() || es[j].ripas != q.ripas)
                && q.top == start / Span(level - 1) * Span(level - 1) + j * Span(level))
  {
    var i := Idx(start, level);
    j := RunEnd(es, i, level, start / Span(level) * Span(level), end, es[i].ripas);
    RunEndStops(es, i, level, start / Span(level) * Span(level), end, es[i].ripas);
    EntryAddress(start, level, j);
    hide Idx, Span, RunEnd;
  }

  lemma RipasOfEntry(m: Machine, rd: Addr, start: Addr, w: WalkResult, j: nat, top: Addr)
    requires Reached(m, rd, PAGE_LEVEL, start, w) && MIN_LEVEL <= w.level <= PAGE_LEVEL
    requires Mapped(m, rd, top) && SameEntry(start, top, w.level - 1) && Idx(top, w.level) == j
    ensures LeafLevel(m, rd, top) == w.level ==>
              PageAt(m, rd, top) == PageOf(EntryAt(m.tables, w.table, j), w.level, top)
    ensures LeafLevel(m, rd, top) == w.level ==> !EntryAt(m.tables, w.table, j).TableEntry?
  {
    hide Inv, Idx, Walk, Geometry, SameEntry, Flat;
    Sibling(m, rd, PAGE_LEVEL, start, w, top);
    WalkStops(m, rd, w.level, top, WalkResult(w.table, Idx(top, w.level), w.level));
  }

  /** realm_ipa_to_pa answers exactly for protected pages that are assigned and RAM, with the
      address they map to. */
  lemma IpaToPaExactly(m: Machine, rd: Addr, ipa: Addr)
    requires FullInv(m) && rd in m.realms && ValidRealm(m.realms[rd])
    ensures IpaToPa(m, rd, ipa).Some? <==>
              && ipa % PAGE == 0 && ipa < ParSize(m.realms[rd].ipaBits) && Mapped(m, rd, ipa)
              && PageAt(m, rd, ipa).Assigned? && PageAt(m, rd, ipa).ripas == Ram
    ensures IpaToPa(m, rd, ipa).Some? ==> PageAt(m, rd, ipa).pa == IpaToPa(m, rd, ipa).value
  {
    if InPar(m.realms[rd], ipa) {
      ParInIpa(m.realms[rd], ipa);
      WalkedEntry(m, rd, ipa);
    }
  }
}
