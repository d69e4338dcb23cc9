/** Which (IPA width, starting level, LPA2) triples REALM_CREATE accepts, how many
    concatenated root tables they need, and what the root tables cover. */
module RealmGeometry {
  import opened S2Geometry

  const STRIDE: nat := 9
  const STRIDE_LM1: nat := 4
  const GRANULE_SHIFT: nat := 12
  const MIN_IPA_BITS: nat := 32
  const MAX_IPA_BITS: nat := 48
  const MAX_IPA_BITS_LPA2: nat := 52
  const MAX_CONCAT: nat := 16

  function {:induction false} Pow2(n: nat): (p: nat)
    ensures p > 0
  {
    if n == 0 then 1 else 2 * Pow2(n - 1)
  }

  /** Address bits below an entry of level `sl`. */
  function Lsb(sl: int): nat
    requires MIN_LEVEL <= sl <= PAGE_LEVEL
  {
    (PAGE_LEVEL - sl) * STRIDE + GRANULE_SHIFT
  }

  predicate InconsistentSl(ipaBits: nat, sl: int, lpa2: bool)
    requires MIN_LEVEL <= sl <= PAGE_LEVEL
  {
    var slMin := Lsb(sl) + 1;
    var slMax := slMin + (if sl == MIN_LEVEL && lpa2 then STRIDE_LM1 - 1 else STRIDE - 1)
                 + (if sl > 0 || (sl == 0 && lpa2) then 4 else 0);
    ipaBits < slMin || ipaBits > slMax
  }

  /** `paWidth` is the physical address width of the platform. */
  predicate ValidateIpaBitsAndSl(ipaBits: nat, sl: int, lpa2: bool, paWidth: nat) {
    && MIN_IPA_BITS <= ipaBits <= (if lpa2 then MAX_IPA_BITS_LPA2 else MAX_IPA_BITS)
    && (if lpa2 then MIN_LEVEL else 0) <= sl <= PAGE_LEVEL
    && !(sl == 0 && paWidth < 44)
    && !InconsistentSl(ipaBits, sl, lpa2)
  }

  function NumRootRtts(ipaBits: nat, sl: int): nat
    requires MIN_LEVEL <= sl <= PAGE_LEVEL
  {
    var slIpaBits := Lsb(sl) + STRIDE;
    if slIpaBits >= ipaBits then 1 else Pow2(ipaBits - slIpaBits)
  }

  /** What every later use of an accepted triple relies on. */
  predicate Geometry(ipaBits: nat, sl: int, numRoots: nat) {
    && MIN_LEVEL <= sl < PAGE_LEVEL
    && MIN_IPA_BITS <= ipaBits <= MAX_IPA_BITS_LPA2
    && Lsb(sl) < ipaBits
    && (sl == MIN_LEVEL ==> ipaBits <= Lsb(sl) + STRIDE_LM1)
    && numRoots == NumRootRtts(ipaBits, sl)
    && 1 <= numRoots <= MAX_CONCAT
  }

  function IpaSize(ipaBits: nat): nat { Pow2(ipaBits) }

  function ParSize(ipaBits: nat): nat { Pow2(ipaBits) / 2 }

  /** The root table of the concatenated ones that maps `ipa`. */
  function RootIdx(ipa: Addr, sl: int): nat
    requires MIN_LEVEL <= sl <= PAGE_LEVEL
  {
    ipa / Span(sl - 1)
  }

  lemma {:induction false} Pow2Add(a: nat, b: nat)
    ensures Pow2(a + b) == Pow2(a) * Pow2(b)
  {
    if a != 0 {
      Pow2Add(a - 1, b);
    }
  }

  lemma {:induction false} Pow2Mono(a: nat, b: nat)
    requires a <= b
    ensures Pow2(a) <= Pow2(b)
  {
    if a < b {
      Pow2Mono(a, b - 1);
    }
  }

  lemma SpanIsPow2(sl: int)
    requires MIN_LEVEL <= sl <= PAGE_LEVEL
    ensures Span(sl) == Pow2(Lsb(sl))
    decreases PAGE_LEVEL - sl
  {
    assert Pow2(9) == 512 by { Pow2Small(); }
    if sl < PAGE_LEVEL {
      SpanIsPow2(sl + 1);
      Pow2Add(9, Lsb(sl + 1));
    } else {
      Pow2Small();
      Pow2Add(9, 3);
    }
  }

  lemma Pow2Small()
    ensures Pow2(3) == 8 && Pow2(4) == 16 && Pow2(9) == 512
  {}

  lemma Pow2Less(a: nat, b: nat)
    ensures a < b <==> Pow2(a) < Pow2(b)
  {
    if a < b {
      Pow2Mono(a + 1, b);
    } else {
      Pow2Mono(b, a);
    }
  }

  /** The largest address space that tables from level `sl` can map: sixteen concatenated root
      tables, but only one at level 0 without FEAT_LPA2, and sixteen entries at level -1. */
  function LargestIpa(sl: int, lpa2: bool): nat
    requires MIN_LEVEL <= sl <= PAGE_LEVEL
  {
    if sl == MIN_LEVEL then 16 * Span(sl)
    else if sl == 0 && !lpa2 then Span(sl - 1)
    else 16 * Span(sl - 1)
  }

  lemma LargestIsPow2(sl: int, lpa2: bool)
    requires MIN_LEVEL <= sl <= PAGE_LEVEL
    ensures LargestIpa(sl, lpa2) == Pow2(Lsb(sl) + if sl == MIN_LEVEL then 4 else if sl == 0 && !lpa2 then 9 else 13)
  {
    SpanIsPow2(sl);
    SpanStep(sl);
    Pow2Small();
    Pow2Add(4, Lsb(sl));
    Pow2Add(9, Lsb(sl));
    Pow2Add(4, Lsb(sl) + 9);
  }

  /** A triple is accepted exactly if width and level are in range, level 0 has at least 44 bits
      of physical address, and the address space needs more than one entry of the starting level
      but no more than its root tables can map. */
  lemma AcceptedExactly(ipaBits: nat, sl: int, lpa2: bool, paWidth: nat)
    ensures ValidateIpaBitsAndSl(ipaBits, sl, lpa2, paWidth) <==>
              && 32 <= ipaBits <= (if lpa2 then 52 else 48)
              && (if lpa2 then -1 else 0) <= sl <= 3
              && (sl == 0 ==> 44 <= paWidth)
              && Span(sl) < IpaSize(ipaBits) <= LargestIpa(sl, lpa2)
  {
    if MIN_LEVEL <= sl <= PAGE_LEVEL {
      SpanIsPow2(sl);
      LargestIsPow2(sl, lpa2);
      Pow2Less(Lsb(sl), ipaBits);
      Pow2Less(Lsb(sl) + if sl == MIN_LEVEL then 4 else if sl == 0 && !lpa2 then 9 else 13, ipaBits);
    }
  }

  /** The number of root tables is the smallest with which they map the address space. */
  lemma RootsNeeded(ipaBits: nat, sl: int, n: nat)
    requires MIN_LEVEL <= sl <= PAGE_LEVEL
    ensures n == NumRootRtts(ipaBits, sl) <==> (n - 1) * Span(sl - 1) < IpaSize(ipaBits) <= n * Span(sl - 1)
  {
    var s, k := Span(sl - 1), NumRootRtts(ipaBits, sl);
    SpanIsPow2(sl);
    SpanStep(sl);
    Pow2Small();
    Pow2Add(9, Lsb(sl));
    if ipaBits <= Lsb(sl) + STRIDE {
      Pow2Mono(ipaBits, Lsb(sl) + 9);
    } else {
      Pow2Add(ipaBits - Lsb(sl) - 9, Lsb(sl) + 9);
      assert IpaSize(ipaBits) == k * s;
    }
    SmallestMultiple(IpaSize(ipaBits), n, k, s);
  }

  lemma SmallestMultiple(x: nat, n: nat, k: nat, s: nat)
    requires s > 0 && x > 0 && (k - 1) * s < x <= k * s
    ensures (n - 1) * s < x <= n * s <==> n == k
  {
    if n < k { MulLe(n, k - 1, s); }
    if n > k { MulLe(k, n - 1, s); }
  }

  /** Accepted triples need between 1 and 16 root tables. */
  lemma AcceptedGeometry(ipaBits: nat, sl: int, lpa2: bool, paWidth: nat)
    requires ValidateIpaBitsAndSl(ipaBits, sl, lpa2, paWidth)
    ensures Geometry(ipaBits, sl, NumRootRtts(ipaBits, sl))
  {}

  /** The root tables cover exactly the IPA space: it ends on an entry boundary, inside
      or at the end of the last root table, and its protected half does too. */
  lemma RootsCover(ipaBits: nat, sl: int, numRoots: nat)
    requires Geometry(ipaBits, sl, numRoots)
    ensures IpaSize(ipaBits) == Pow2(ipaBits - Lsb(sl)) * Span(sl) <= MAX_ADDR
    ensures ParSize(ipaBits) == Pow2(ipaBits - Lsb(sl) - 1) * Span(sl) == IpaSize(ipaBits) - ParSize(ipaBits)
    ensures numRoots == 1 ==> Pow2(ipaBits - Lsb(sl)) <= ENTRIES
    ensures numRoots > 1 ==> Pow2(ipaBits - Lsb(sl)) == numRoots * ENTRIES
    ensures sl == MIN_LEVEL ==> Pow2(ipaBits - Lsb(sl)) <= TableEntries(sl)
  {
    var n := ipaBits - Lsb(sl);
    SpanIsPow2(sl);
    Pow2Add(n, Lsb(sl));
    Pow2Mono(ipaBits, 52);
    SpanIsPow2(MIN_LEVEL);
    Pow2Add(4, 48);
    Pow2Small();
    assert Pow2(ipaBits) == 2 * Pow2(ipaBits - 1) && Pow2(n) == 2 * Pow2(n - 1);
    Pow2Add(n - 1, Lsb(sl));
    if n <= 9 {
      Pow2Mono(n, 9);
    } else {
      Pow2Add(n - 9, 9);
      Pow2Mono(1, n - 9);
    }
    if sl == MIN_LEVEL {
      Pow2Mono(n, 4);
    }
  }

  /** The walker's concatenated-root index is always in bounds. */
  lemma RootInBounds(ipaBits: nat, sl: int, numRoots: nat, ipa: Addr)
    requires Geometry(ipaBits, sl, numRoots) && ipa < IpaSize(ipaBits)
    ensures RootIdx(ipa, sl) < numRoots && ipa < MAX_ADDR
  {
    RootsCover(ipaBits, sl, numRoots);
    SpanStep(sl);
    var n := Pow2(ipaBits - Lsb(sl));
    assert n <= numRoots * ENTRIES;
    MulLe(n, numRoots * ENTRIES, Span(sl));
    MulAssoc(numRoots, ENTRIES, Span(sl));
    QuotientBelow(ipa, numRoots, Span(sl - 1));
  }

  lemma MulAssoc(a: nat, b: nat, c: nat)
    ensures (a * b) * c == a * (b * c)
  {}

  lemma QuotientBelow(x: nat, n: nat, s: nat)
    requires s > 0 && x < n * s
    ensures x / s < n
  {}

  /** The protected address range ends on an entry boundary of every level from the
      starting level, so no entry maps both protected and unprotected addresses. */
  lemma ParOnBoundary(ipaBits: nat, sl: int, numRoots: nat, a: Addr, b: Addr, level: int)
    requires Geometry(ipaBits, sl, numRoots) && sl <= level <= PAGE_LEVEL
    requires SameEntry(a, b, level)
    ensures a < ParSize(ipaBits) <==> b < ParSize(ipaBits)
    ensures a < IpaSize(ipaBits) <==> b < IpaSize(ipaBits)
  {
    SameEntryUp(a, b, level, sl);
    RootsCover(ipaBits, sl, numRoots);
    BelowMultiple(a, b, Pow2(ipaBits - Lsb(sl) - 1), Span(sl));
    BelowMultiple(a, b, Pow2(ipaBits - Lsb(sl)), Span(sl));
  }

  lemma BelowMultiple(a: nat, b: nat, n: nat, s: nat)
    requires s > 0 && a / s == b / s
    ensures a < n * s <==> b < n * s
  {
    assert a == (a / s) * s + a % s && b == (b / s) * s + b % s;
    if a / s >= n {
      MulLe(n, a / s, s);
    } else {
      MulLe(b / s + 1, n, s);
      assert (b / s + 1) * s == (b / s) * s + s;
    }
  }
}
