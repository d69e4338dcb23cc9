/** Read-only walks: RSI_IPA_STATE_GET, address translation for the RMM, and the skip over
    non-live entries that RTT_DESTROY, DATA_DESTROY and RTT_UNMAP_UNPROTECTED report. */
module RttQueries {
  import opened S2Geometry
  import opened S2tte
  import opened RealmGeometry
  import opened Rtt
  import opened RttSteps
  import opened RttFlat
  import opened RttInvariants
  import opened RttCommands
  import opened RipasCommands

  /** An address of the table that `a` reaches means what its own entry there says. */
  lemma PageInTable(m: Machine, rd: Addr, target: int, a: Addr, w: WalkResult, b: Addr)
    requires Reached(m, rd, target, a, w) && InIpa(m.realms[rd], b)
    requires MIN_LEVEL <= w.level <= PAGE_LEVEL && SameEntry(a, b, w.level - 1)
    ensures AtEntry(m, w.table, Idx(b, w.level))
    ensures var e := m.tables[w.table][Idx(b, w.level)];
            !e.TableEntry? ==> Mapped(m, rd, b) && PageAt(m, rd, b) == PageOf(e, w.level, b)
  {
    Sibling(m, rd, target, a, w, b);
    var w' := WalkResult(w.table, Idx(b, w.level), w.level);
    ReachedFacts(m, rd, w.level, b, w');
    hide Inv, Walk, Idx;
    if !m.tables[w.table][w'.idx].TableEntry? {
      HitsExactly(m, rd, w.level, b, w', rd, PAGE_LEVEL, b);
    }
  }

  /** The entries for the addresses from `base` are those from the index of `base`. */
  lemma IdxInRange(base: Addr, level: int, n: nat, b: Addr)
    requires MIN_LEVEL <= level <= PAGE_LEVEL && Aligned(base, level) && b < MAX_ADDR
    requires Idx(base, level) + n <= ENTRIES && base <= b < base + n * Span(level)
    ensures SameEntry(base, b, level - 1) && Idx(base, level) <= Idx(b, level) < Idx(base, level) + n
  {
    var s := Span(level);
    var k := (b - base) / s;
    var q := base / s;
    assert base == q * s;
    assert b - base == k * s + (b - base) % s;
    DivUnique(b, s, q + k, (b - base) % s);
    QuotientBelow(b - base, n, s);
    SpanStep(level);
    DivMod(base, s, ENTRIES);
    DivMod(b, s, ENTRIES);
    if level == MIN_LEVEL {
      TopIndex(base);
      TopIndex(b);
    } else {
      DivUnique(q + k, ENTRIES, q / ENTRIES, q % ENTRIES + k);
    }
  }

  /** Every address from `a` up to entry `j` of its table means what its entry says. */
  lemma RangeInTable(m: Machine, rd: Addr, target: int, a: Addr, w: WalkResult, j: nat, b: Addr)
    requires Reached(m, rd, target, a, w) && MIN_LEVEL <= w.level <= PAGE_LEVEL && InIpa(m.realms[rd], b)
    requires w.idx < j <= ENTRIES
    requires a <= b < a / Span(w.level) * Span(w.level) + (j - w.idx) * Span(w.level)
    ensures AtEntry(m, w.table, w.idx) && w.idx <= Idx(b, w.level) < j
    ensures var e := m.tables[w.table][Idx(b, w.level)];
            !e.TableEntry? ==> Mapped(m, rd, b) && PageAt(m, rd, b) == PageOf(e, w.level, b)
  {
    hide Inv, Walk, Route, Flat;
    var s := Span(w.level);
    var base := a / s * s;
    ReachedFacts(m, rd, target, a, w);
    assert a == base + a % s;
    DivUnique(base, s, a / s, 0);
    assert Idx(base, w.level) == w.idx;
    RootInBounds(m.realms[rd].ipaBits, m.realms[rd].start, |m.realms[rd].roots|, b);
    hide Idx;
    IdxInRange(base, w.level, j - w.idx, b);
    SameEntryUp(a, base, w.level, w.level - 1);
    PageInTable(m, rd, target, a, w, b);
  }

  /** The start of the entry after that of `a` lies behind `a`. */
  lemma EntryEnd(a: Addr, level: int, n: nat)
    requires MIN_LEVEL <= level <= PAGE_LEVEL && n >= 1
    ensures a < a / Span(level) * Span(level) + n * Span(level)
  {
    var s := Span(level);
    MulLe(1, n, s);
    assert a == a / s * s + a % s;
  }

  /** Every page from the queried address to the skip result is non-live. */
  lemma SkipNonLiveFlat(m: Machine, rd: Addr, target: int, a: Addr, w: WalkResult, b: Addr)
    requires Reached(m, rd, target, a, w) && MIN_LEVEL <= w.level <= PAGE_LEVEL && AtEntry(m, w.table, w.idx)
    requires a <= b < SkipNonLive(m.tables[w.table], w.idx, w.level, a) && InIpa(m.realms[rd], b)
    ensures Mapped(m, rd, b) && (PageAt(m, rd, b).Unassigned? || PageAt(m, rd, b).UnassignedNs?)
  {
    var es := m.tables[w.table];
    var j := FirstLive(es, w.idx + 1);
    hide Inv, Walk, Flat, Idx, Span, Reached;
    RangeInTable(m, rd, target, a, w, j, b);
    var k := Idx(b, w.level);
    assert !es[k].Live();
  }

  /** The skip result is the queried address if its entry is live; otherwise it is the
      address of the next live entry of the table, or of the end of the table. */
  lemma SkipNonLiveEnd(es: seq<Entry>, i: nat, level: int, a: Addr)
    requires MIN_LEVEL <= level <= PAGE_LEVEL && i < |es| == ENTRIES
    ensures var top := SkipNonLive(es, i, level, a);
            && (top == a <==> es[i].Live())
            && (top != a ==> top > a && exists j: nat ::
                  (i < j <= ENTRIES && top == a / Span(level) * Span(level) + (j - i) * Span(level)
                   && (j < ENTRIES ==> es[j].Live())))
  {
    if !es[i].Live() {
      var j := FirstLive(es, i + 1);
      EntryEnd(a, level, j - i);
    }
  }

  // ------------------------------------------------------------ RSI_IPA_STATE_GET

  /** The end of the entries from `i` that have RIPAS `r`, looking no further than `end`. */
  function RunEnd(es: seq<Entry>, i: nat, level: int, addr: Addr, end: Addr, r: Ripas): (j: nat)
    requires MIN_LEVEL <= level <= PAGE_LEVEL && i <= |es|
    ensures i <= j <= |es|
    ensures forall k | i <= k < j :: es[k].HasRipas() && es[k].ripas == r
    ensures i < |es| && es[i].HasRipas() && es[i].ripas == r ==> i < j
    decreases |es| - i
  {
    if i == |es| || !es[i].HasRipas() || es[i].ripas != r then i
    else if addr + Span(level) >= end then i + 1
    else RunEnd(es, i + 1, level, addr + Span(level), end, r)
  }

  /** The run ends because the entries do, because of the next one, or because `end` is reached. */
  lemma {:induction false} RunEndStops(es: seq<Entry>, i: nat, level: int, addr: Addr, end: Addr, r: Ripas)
    requires MIN_LEVEL <= level <= PAGE_LEVEL && i <= |es|
    ensures var j := RunEnd(es, i, level, addr, end, r);
            || j == |es| || !es[j].HasRipas() || es[j].ripas != r
            || (j > i && addr + (j - i) * Span(level) >= end)
    decreases |es| - i
  {
    hide Span;
    if !(i == |es| || !es[i].HasRipas() || es[i].ripas != r || addr + Span(level) >= end) {
      RunEndStops(es, i + 1, level, addr + Span(level), end, r);
      OneMore(RunEnd(es, i, level, addr, end, r) - i, Span(level));
      hide RunEnd;
    }
  }

  lemma OneMore(n: int, s: nat)
    ensures n * s == s + (n - 1) * s
  {}

  datatype StateGet = StateGetError | StateGetOk(top: Addr, ripas: Ripas)

  /** The RIPAS of the entry for `start` and how far it extends, at most to `end`. */
  ghost function IpaStateGet(m: Machine, rd: Addr, start: Addr, end: Addr): StateGet
    requires Inv(m) && rd in m.realms && ValidRealm(m.realms[rd])
  {
    var r := m.realms[rd];
    if start % PAGE != 0 || end % PAGE != 0 || start >= end || !InPar(r, start) || !InPar(r, end - 1) then StateGetError
    else
      ParInIpa(r, start);
      var w := RealmWalk(m.tables, r, PAGE_LEVEL, start);
      WalkedEntry(m, rd, start);
      StateGetAt(m.tables[w.table], w.idx, w.level, start, end)
  }

  function StateGetAt(es: seq<Entry>, i: nat, level: int, start: Addr, end: Addr): StateGet
    requires MIN_LEVEL <= level <= PAGE_LEVEL && i < |es|
  {
    if !es[i].HasRipas() then StateGetError
    else
      var base := start / Span(level) * Span(level);
      var j := RunEnd(es, i, level, base, end, es[i].ripas);
      var top := base + (j - i) * Span(level);
      StateGetOk(if top > end then end else top, es[i].ripas)
  }

  lemma ParInIpa(r: Realm, ipa: Addr)
    requires ValidRealm(r) && InPar(r, ipa)
    ensures InIpa(r, ipa)
  {
    RootsCover(r.ipaBits, r.start, |r.roots|);
  }

  lemma WalkedEntry(m: Machine, rd: Addr, ipa: Addr)
    requires Inv(m) && Mapped(m, rd, ipa)
    ensures var w := RealmWalk(m.tables, m.realms[rd], PAGE_LEVEL, ipa);
            && Reached(m, rd, PAGE_LEVEL, ipa, w) && MIN_LEVEL <= w.level <= PAGE_LEVEL
            && w.table in m.tables && w.idx < |m.tables[w.table]| == ENTRIES
            && !m.tables[w.table][w.idx].TableEntry?
            && PageAt(m, rd, ipa) == PageOf(m.tables[w.table][w.idx], w.level, ipa)
  {
    var w := RealmWalk(m.tables, m.realms[rd], PAGE_LEVEL, ipa);
    ReachedFacts(m, rd, PAGE_LEVEL, ipa, w);
    EntryFacts(m, w.table, w.idx);
  }

  /** The query fails exactly for ranges that are malformed or not protected. */
  lemma IpaStateGetError(m: Machine, rd: Addr, start: Addr, end: Addr)
    requires FullInv(m) && rd in m.realms && ValidRealm(m.realms[rd])
    ensures IpaStateGet(m, rd, start, end).StateGetError? <==>
              start % PAGE != 0 || end % PAGE != 0 || start >= end || end > ParSize(m.realms[rd].ipaBits)
  {
    var r := m.realms[rd];
    if start < end <= ParSize(r.ipaBits) {
      ParInIpa(r, start);
      WalkedEntry(m, rd, start);
      assert ParOk(m, rd, start);
    }
  }

  /** Every page from the queried start to the returned top, which is beyond the start,
      has the reported RIPAS. */
  lemma IpaStateGetFlat(m: Machine, rd: Addr, start: Addr, end: Addr, b: Addr)
    requires FullInv(m) && rd in m.realms && ValidRealm(m.realms[rd]) && IpaStateGet(m, rd, start, end).StateGetOk?
    ensures var q := IpaStateGet(m, rd, start, end);
            && start < q.top <= end
            && (start <= b < q.top ==>
                  Mapped(m, rd, b) && (PageAt(m, rd, b).Unassigned? || PageAt(m, rd, b).Assigned?)
                  && PageAt(m, rd, b).ripas == q.ripas)
  {
    var r := m.realms[rd];
    ParInIpa(r, start);
    ParInIpa(r, end - 1);
    WalkedEntry(m, rd, start);
    hide FullInv, Inv, Flat, Walk, StateGetAt, Idx, Geometry, Reached;
    var w := RealmWalk(m.tables, r, PAGE_LEVEL, start);
    var es := m.tables[w.table];
    var j := StateGetRun(es, w.idx, w.level, start, end);
    if start <= b < IpaStateGet(m, rd, start, end).top {
      RangeInTable(m, rd, PAGE_LEVEL, start, w, j, b);
      assert es[Idx(b, w.level)].HasRipas();
    }
  }

  lemma StateGetRun(es: seq<Entry>, i: nat, level: int, start: Addr, end: Addr) returns (j: nat)
    requires MIN_LEVEL <= level <= PAGE_LEVEL && i < |es| && start < end
    requires StateGetAt(es, i, level, start, end).StateGetOk?
    ensures i < j <= |es|
    ensures var q := StateGetAt(es, i, level, start, end);
            && start < q.top <= end && q.top <= start / Span(level) * Span(level) + (j - i) * Span(level)
            && (forall k | i <= k < j :: es[k].HasRipas() && es[k].ripas == q.ripas)
  {
    j := RunEnd(es, i, level, start / Span(level) * Span(level), end, es[i].ripas);
    EntryEnd(start, level, j - i);
  }

  // ------------------------------------------------------------ translation

  /** realm_ipa_to_pa: the physical address of a protected page that is assigned and RAM. */
  ghost function IpaToPa(m: Machine, rd: Addr, ipa: Addr): Option<Addr>
    requires Inv(m) && rd in m.realms && ValidRealm(m.realms[rd])
  {
    var r := m.realms[rd];
    if ipa % PAGE != 0 || !InPar(r, ipa) then None
    else
      ParInIpa(r, ipa);
      var w := RealmWalk(m.tables, r, PAGE_LEVEL, ipa);
      WalkedEntry(m, rd, ipa);
      var e := m.tables[w.table][w.idx];
      if e.AssignedEntry? && e.ripas.Ram? then Some(e.pa + ipa % Span(w.level)) else None
  }

  /** Whatever the RMM accesses on behalf of a realm is a DATA granule that this realm
      owns at that address. */
  lemma IpaToPaOwned(m: Machine, rd: Addr, ipa: Addr)
    requires FullInv(m) && rd in m.realms && ValidRealm(m.realms[rd]) && IpaToPa(m, rd, ipa).Some?
    ensures var pa := IpaToPa(m, rd, ipa).value;
            && Mapped(m, rd, ipa) && PageAt(m, rd, ipa) == Assigned(Ram, pa)
            && pa in m.gs && m.gs[pa].state.DataState? && pa in m.owner && m.owner[pa] == Owner(rd, ipa)
  {
    var r := m.realms[rd];
    ParInIpa(r, ipa);
    WalkedEntry(m, rd, ipa);
    assert MappingOk(m, rd, ipa);
  }
}
