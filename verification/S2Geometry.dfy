/** Stage 2 geometry: how much address space an entry of each level maps and which
    entry an address selects. Addresses are byte addresses. */
module S2Geometry {

  type Addr = nat

  const PAGE_LEVEL := 3
  const MIN_BLOCK_LEVEL := 1
  /** Only with FEAT_LPA2; without it the lowest starting level is 0. */
  const MIN_LEVEL := -1
  const ENTRIES := 512
  const PAGE: nat := 0x1000
  /** No address of a realm needs more than 52 bits. */
  const MAX_ADDR: nat := 0x10_0000_0000_0000

  /** Size of the range one entry of `level` maps. `Span(level - 1)` is the size of
      the range a table of `level` maps, so it is defined from -2. */
  function Span(level: int): (s: nat)
    requires MIN_LEVEL - 1 <= level <= PAGE_LEVEL
    ensures s > 0
  {
    if level == 3 then 0x1000
    else if level == 2 then 0x20_0000
    else if level == 1 then 0x4000_0000
    else if level == 0 then 0x80_0000_0000
    else if level == -1 then 0x1_0000_0000_0000
    else 0x200_0000_0000_0000
  }

  /** The number of entries a table of `level` uses; level -1 resolves four bits only. */
  function TableEntries(level: int): nat { if level == MIN_LEVEL then 16 else ENTRIES }

  /** The index of the entry for `addr` in the table of `level` that maps it. */
  function Idx(addr: Addr, level: int): (i: nat)
    requires MIN_LEVEL <= level <= PAGE_LEVEL
    ensures i < TableEntries(level) <= ENTRIES
  {
    (addr / Span(level)) % TableEntries(level)
  }

  predicate Aligned(addr: Addr, level: int)
    requires MIN_LEVEL - 1 <= level <= PAGE_LEVEL
  {
    addr % Span(level) == 0
  }

  /** `a` and `b` are mapped by the same entry of `level`. */
  predicate SameEntry(a: Addr, b: Addr, level: int)
    requires MIN_LEVEL - 1 <= level <= PAGE_LEVEL
  {
    a / Span(level) == b / Span(level)
  }

  lemma SpanStep(level: int)
    requires MIN_LEVEL <= level <= PAGE_LEVEL
    ensures Span(level - 1) == ENTRIES * Span(level)
  {}

  lemma DivMod(x: nat, s: nat, n: nat)
    requires s > 0 && n > 0
    ensures n * s > 0 && x / (n * s) == (x / s) / n
    ensures x % (n * s) == ((x / s) % n) * s + x % s
  {
    var q, r := x / s, x % s;
    var q1, r1 := q / n, q % n;
    assert n * s > 0 by { MulPos(n, s); }
    assert x == q1 * (n * s) + (r1 * s + r) by {
      assert x == q * s + r && q == q1 * n + r1;
      assert q * s == q1 * n * s + r1 * s;
      assert q1 * n * s == q1 * (n * s);
    }
    assert r1 * s + r < n * s by {
      assert r1 <= n - 1;
      MulLe(r1, n - 1, s);
      assert (n - 1) * s == n * s - s;
    }
    assert 0 <= r1 * s by { MulLe(0, r1, s); }
    DivUnique(x, n * s, q1, r1 * s + r);
  }

  lemma MulPos(a: nat, b: nat)
    requires a > 0 && b > 0
    ensures a * b > 0
  {}

  lemma MulLe(a: int, b: int, c: nat)
    requires a <= b
    ensures a * c <= b * c
  {}

  lemma DivUnique(x: int, d: nat, q: int, r: int)
    requires d > 0 && x == q * d + r && 0 <= r < d
    ensures x / d == q && x % d == r
  {
    assert x == (x / d) * d + x % d;
    assert (q - x / d) * d == x % d - r;
    if q - x / d >= 1 { MulLe(1, q - x / d, d); }
    if q - x / d <= -1 { MulLe(q - x / d, -1, d); }
  }

  /** An address is determined at `level` by the table it falls in and its index there. */
  lemma EntryInTable(a: Addr, b: Addr, level: int)
    requires MIN_LEVEL <= level <= PAGE_LEVEL && a < MAX_ADDR && b < MAX_ADDR
    ensures SameEntry(a, b, level) <==> SameEntry(a, b, level - 1) && Idx(a, level) == Idx(b, level)
  {
    SpanStep(level);
    DivMod(a, Span(level), ENTRIES);
    DivMod(b, Span(level), ENTRIES);
    if level == MIN_LEVEL { TopIndex(a); TopIndex(b); }
  }

  lemma TopIndex(a: Addr)
    requires a < MAX_ADDR
    ensures a / Span(MIN_LEVEL) < 16 && Idx(a, MIN_LEVEL) == a / Span(MIN_LEVEL)
  {}

  /** The addresses of one entry are a contiguous range. */
  lemma EntryRange(base: Addr, a: Addr, level: int)
    requires MIN_LEVEL - 1 <= level <= PAGE_LEVEL && Aligned(base, level)
    ensures SameEntry(base, a, level) <==> base <= a < base + Span(level)
  {}

  lemma SameEntryUp(a: Addr, b: Addr, low: int, high: int)
    requires MIN_LEVEL - 1 <= high <= low <= PAGE_LEVEL && SameEntry(a, b, low)
    ensures SameEntry(a, b, high)
    decreases low - high
  {
    if high < low {
      SpanStep(low);
      DivMod(a, Span(low), ENTRIES);
      DivMod(b, Span(low), ENTRIES);
      SameEntryUp(a, b, low - 1, high);
    }
  }
}
