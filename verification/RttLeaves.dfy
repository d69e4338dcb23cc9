/** At which level each address is mapped: where walks stop, what entries they find there, and
    how the three changes of the tables move these levels. */
module RttLeaves {
  import opened S2Geometry
  import opened S2tte
  import opened RealmGeometry
  import opened Rtt
  import opened RttSteps
  import opened RttFlat
  import opened RttInvariants
  import opened RttCommands

  /** The level of the entry that maps the address: the granularity of its mapping. */
  function LeafLevel(m: Machine, rd: Addr, ipa: Addr): int
    requires Mapped(m, rd, ipa)
  {
    RealmWalk(m.tables, m.realms[rd], PAGE_LEVEL, ipa).level
  }

  predicate LivePage(p: Page) { p.Assigned? || p.AssignedNs? }

  /** The entry of `level` for the address is a table or a mapping. */
  predicate LiveAt(m: Machine, rd: Addr, ipa: Addr, level: int)
    requires Mapped(m, rd, ipa)
  {
    LeafLevel(m, rd, ipa) > level || LivePage(PageAt(m, rd, ipa))
  }

  /** A walk stops at the level at which the address is mapped, or at its target if there is a
      table below that; the entry it finds is a table exactly in that case, and otherwise says
      what the address maps to. */
  lemma WalkStops(m: Machine, rd: Addr, target: int, ipa: Addr, w: WalkResult)
    requires Reached(m, rd, target, ipa, w)
    ensures Mapped(m, rd, ipa) && AtEntry(m, w.table, w.idx) && w.idx == Idx(ipa, w.level)
    ensures var l := LeafLevel(m, rd, ipa);
            && MIN_LEVEL <= m.realms[rd].start <= l <= PAGE_LEVEL && MIN_LEVEL <= w.level <= target
            && w.level == (if l < target then l else target)
            && (m.tables[w.table][w.idx].TableEntry? <==> l > target)
            && (l <= target ==> PageAt(m, rd, ipa) == PageOf(m.tables[w.table][w.idx], w.level, ipa))
    ensures ValidEntry(m.realms[rd].fmt, m.tables[w.table][w.idx], w.level)
  {
    var r := m.realms[rd];
    ReachedFacts(m, rd, target, ipa, w);
    ReachedFacts(m, rd, PAGE_LEVEL, ipa, RealmWalk(m.tables, r, PAGE_LEVEL, ipa));
    hide Idx, Inv, Walk, Geometry;
    WalkDeeper(m.tables, RootFor(r, ipa), r.start, target, ipa);
    var e := m.tables[w.table][w.idx];
    if w.level < PAGE_LEVEL && e.TableEntry? {
      WalkLevel(m.tables, e.pa, w.level + 1, PAGE_LEVEL, ipa);
    }
  }

  /** Addresses of one entry that is no table are mapped at its level. */
  lemma SameLeaf(m: Machine, rd: Addr, a: Addr, b: Addr)
    requires Inv(m) && Mapped(m, rd, a) && Mapped(m, rd, b)
    requires MIN_LEVEL <= LeafLevel(m, rd, a) <= PAGE_LEVEL && SameEntry(a, b, LeafLevel(m, rd, a))
    ensures LeafLevel(m, rd, b) == LeafLevel(m, rd, a)
  {
    var w := RealmWalk(m.tables, m.realms[rd], PAGE_LEVEL, a);
    hide Inv;
    HitsExactly(m, rd, PAGE_LEVEL, a, w, rd, PAGE_LEVEL, b);
  }

  /** The entries of one table are found by the walks for their addresses: addresses that share
      the table of `level` that `a` reaches are mapped at `level` or below. */
  lemma TableBelow(m: Machine, rd: Addr, a: Addr, w: WalkResult, n: Addr, level: int, b: Addr)
    requires MIN_LEVEL < level <= PAGE_LEVEL && Reached(m, rd, level - 1, a, w) && w.level == level - 1
    requires AtEntry(m, w.table, w.idx) && m.tables[w.table][w.idx] == TableEntry(n)
    requires Mapped(m, rd, b) && SameEntry(a, b, level - 1)
    ensures Reached(m, rd, level, b, WalkResult(n, Idx(b, level), level))
  {
    var r := m.realms[rd];
    ReachedFacts(m, rd, level - 1, a, w);
    hide Idx, Inv, Geometry, Walk;
    RealmWalkAgree(m.tables, r, level - 1, a, b);
    WalkOn(m.tables, RootFor(r, b), r.start, level - 1, b);
  }

  /** A walk that found a table goes on there. */
  lemma {:induction false} WalkOn(ts: Tables, t: Addr, level: int, target: int, ipa: Addr)
    requires MIN_LEVEL <= level <= target < PAGE_LEVEL
    requires var w := Walk(ts, t, level, target, ipa); w.level == target && EntryAt(ts, w.table, w.idx).TableEntry?
    ensures var w := Walk(ts, t, level, target, ipa);
            Walk(ts, t, level, target + 1, ipa)
            == WalkResult(EntryAt(ts, w.table, w.idx).pa, Idx(ipa, target + 1), target + 1)
    decreases target - level
  {
    hide Idx;
    var e := EntryAt(ts, t, Idx(ipa, level));
    if level < target {
      WalkOn(ts, e.pa, level + 1, target, ipa);
    }
  }

  // ------------------------------------------------------------ levels after a change

  /** Overwriting a leaf moves no level and no walk. */
  lemma LevelSet(m: Machine, m2: Machine, t: Addr, i: nat, e: Entry, rd': Addr, target: int, b: Addr)
    requires AtEntry(m, t, i) && !m.tables[t][i].TableEntry? && !e.TableEntry? && Mapped(m, rd', b)
    requires m2.realms == m.realms && m2.tables == SetEntry(m, t, i, e).tables
    requires MIN_LEVEL <= m.realms[rd'].start <= target <= PAGE_LEVEL
    ensures Mapped(m2, rd', b) && LeafLevel(m2, rd', b) == LeafLevel(m, rd', b)
    ensures RealmWalk(m2.tables, m2.realms[rd'], target, b) == RealmWalk(m.tables, m.realms[rd'], target, b)
  {
    var r := m.realms[rd'];
    hide Inv;
    WalkSet(m, t, i, e, RootFor(r, b), r.start, PAGE_LEVEL, b);
    WalkSet(m, t, i, e, RootFor(r, b), r.start, target, b);
  }

  // ------------------------------------------------------------ the skip over non-live entries

  /** The end of the range of the table of `level` for the address. */
  function TableEnd(ipa: Addr, level: int): Addr
    requires MIN_LEVEL <= level <= PAGE_LEVEL
  {
    ipa / Span(level - 1) * Span(level - 1) + Span(level - 1)
  }

  /** The position of an entry in its table, as an address. */
  lemma EntryAddress(a: Addr, level: int, j: nat)
    requires MIN_LEVEL <= level <= PAGE_LEVEL && a < MAX_ADDR && Idx(a, level) <= j <= ENTRIES
    ensures a / Span(level) * Span(level) + (j - Idx(a, level)) * Span(level)
            == a / Span(level - 1) * Span(level - 1) + j * Span(level)
    ensures j == ENTRIES ==> a / Span(level - 1) * Span(level - 1) + j * Span(level) == TableEnd(a, level)
  {
    var s, n := Span(level), Span(level - 1);
    SpanStep(level);
    DivMod(a, s, ENTRIES);
    if level == MIN_LEVEL { TopIndex(a); }
    assert a == a / n * n + a % n && a == a / s * s + a % s;
    assert a % n == Idx(a, level) * s + a % s;
  }
}
