/** The 64-bit descriptor that a host passes to RTT_MAP_UNPROTECTED, and the decoded one that
    the command works with: they are accepted alike and give the same entry. */
module HostWords {
  import opened S2Geometry
  import opened S2tte
  import opened RealmGeometry
  import opened S2tteCodec
  import opened DataCommands

  // ------------------------------------------------------------ words as numbers

  /** The number in the lowest `k` bits. */
  function FromWord(w: Word, k: nat): nat {
    if k == 0 then 0 else 2 * FromWord(w >> 1, k - 1) + (if w & 1 == 1 then 1 else 0)
  }

  /** `w` and `z` have no bit in common. */
  predicate Apart(w: Word, z: Word) { w & z == 0 }

  predicate TopClear(w: Word) { w & 0x8000_0000_0000_0000 == 0 }

  lemma SplitLow(w: Word)
    ensures Shifted(w, w >> 1, w & 1) && TopClear(w >> 1)
  {}

  lemma ShiftDown(w: Word, x: Word, b: Word, z: Word, y: Word)
    requires Shifted(w, x, b) && Shifted(z, y, 1) && Within(w, z) && TopClear(x)
    ensures Within(x, y)
  {}

  lemma HalfFits(w: Word, x: Word, b: Word, k: nat)
    requires k > 0 && Shifted(w, x, b) && TopClear(x) && Fits(w, k)
    ensures Fits(x, k - 1)
  {
    hide Ones, Shifted, TopClear, Within;
    OnesShifted(k);
    ShiftDown(w, x, b, Ones(k), Ones(k - 1));
  }

  lemma ZeroFit(w: Word)
    requires Fits(w, 0)
    ensures w == 0
  {}

  lemma SameShift(w: Word, v: Word, x: Word, b: Word)
    requires Shifted(w, x, b) && Shifted(v, x, b)
    ensures w == v
  {}

  lemma LowBit(w: Word, n: nat, h: nat)
    requires n == 2 * h + (if w & 1 == 1 then 1 else 0)
    ensures n / 2 == h && Bit(n) == w & 1
  {
    assert w & 1 == 0 || w & 1 == 1;
  }

  /** Reading a number from a word that has no other bits is the inverse of writing it. */
  lemma {:induction false} FromWordOk(w: Word, k: nat)
    requires Fits(w, k)
    ensures ToWord(FromWord(w, k)) == w && FromWord(w, k) < Pow2(k)
  {
    if k == 0 {
      ZeroFit(w);
    } else {
      var n, h := FromWord(w, k), FromWord(w >> 1, k - 1);
      LowBit(w, n, h);
      hide ToWord, FromWord, Fits, Shifted, Bit, TopClear;
      SplitLow(w);
      HalfFits(w, w >> 1, w & 1, k);
      FromWordOk(w >> 1, k - 1);
      WordStep(n);
      SameShift(w, ToWord(n), w >> 1, w & 1);
    }
  }

  // ------------------------------------------------------------ alignment

  lemma ClearHalf(w: Word, x: Word, b: Word, z: Word, y: Word)
    requires Shifted(w, x, b) && Shifted(z, y, 1) && Apart(w, z) && TopClear(x)
    ensures b == 0 && Apart(x, y)
  {}

  lemma FitsTop(w: Word)
    requires Fits(w, 52)
    ensures TopClear(w)
  {
    Ones52();
    hide Ones;
  }

  lemma EvenBit(n: nat)
    requires Bit(n) == 0
    ensures n == n / 2 * 2
  {}

  lemma TwiceMultiple(n: nat, p: nat)
    requires p > 0 && n % p == 0
    ensures (n * 2) % (2 * p) == 0
  {
    var q := n / p;
    assert n * 2 == q * (2 * p) by { assert n == q * p; }
    DivUnique(n * 2, 2 * p, q, 0);
  }

  /** A number without its lowest `j` bits is a multiple of 2^j. */
  lemma {:induction false} ClearMultiple(n: nat, j: nat)
    requires n < Pow2(52) && Apart(ToWord(n), Ones(j))
    ensures n % Pow2(j) == 0
  {
    if j > 0 {
      hide ToWord, Ones, Fits, Shifted, Bit, TopClear, Apart;
      WordStep(n);
      OnesShifted(j);
      WordBound(n / 2, 52);
      FitsTop(ToWord(n / 2));
      ClearHalf(ToWord(n), ToWord(n / 2), Bit(n), Ones(j), Ones(j - 1));
      EvenBit(n);
      ClearMultiple(n / 2, j - 1);
      TwiceMultiple(n / 2, Pow2(j - 1));
    }
  }

  lemma Ones30()
    ensures Ones(12) == 0xFFF && Ones(21) == 0x1F_FFFF && Ones(30) == 0x3FFF_FFFF
  {
    assert Ones(4) == 0xF;
    hide Ones;
    OnesStep4(4, 0xF);
    OnesStep4(8, 0xFF);
    OnesStep4(12, 0xFFF);
    OnesStep4(16, 0xFFFF);
    OnesStep(21);
    OnesStep4(21, 0x1F_FFFF);
    OnesStep4(25, 0x1FF_FFFF);
    OnesStep(30);
  }

  lemma LowClearApart(x: Word, level: int)
    requires MIN_BLOCK_LEVEL <= level <= PAGE_LEVEL && LowClear(x, level)
    ensures Apart(x, Ones(Lsb(level)))
  {
    Ones30();
    hide Ones;
  }

  lemma Divides(x: nat, d: nat)
    requires d > 0 && x % d == 0
    ensures x / d * d == x
  {}

  /** An address is aligned exactly if its word has no bits below the range of an entry. */
  lemma AlignedIsClear(pa: nat, level: int)
    requires MIN_BLOCK_LEVEL <= level <= PAGE_LEVEL && pa < Pow2(52)
    ensures Aligned(pa, level) <==> LowClear(ToWord(pa), level)
  {
    hide ToWord, LowClear, Apart, Ones, Span, Pow2, Lsb;
    SpanIsPow2(level);
    if Aligned(pa, level) {
      TimesSpan(pa / Span(level), level);
      Divides(pa, Span(level));
    }
    if LowClear(ToWord(pa), level) {
      LowClearApart(ToWord(pa), level);
      ClearMultiple(pa, Lsb(level));
    }
  }

  // ------------------------------------------------------------ host descriptors

  /** host_ns_s2tte_is_valid: no bits but an aligned address and attributes, and not the one
      reserved memory attribute. */
  predicate HostWordAccepted(w: Word, level: int, lpa2: bool)
    requires MIN_LEVEL <= level <= PAGE_LEVEL
  {
    HostWordValid(w, level, lpa2) && w & 0x1C != 0x10
  }

  /** The whole address field of a word. */
  function AddressOf(w: Word, lpa2: bool): Word { TteToPa(w, PAGE_LEVEL, lpa2) }

  function MemattrOf(w: Word): Word { (w & 0x1C) >> 2 }

  function ApOf(w: Word): Word { (w & 0xC0) >> 6 }

  /** The width of an output address. */
  function Width(f: Format): nat { if f.lpa2 then 52 else 48 }

  /** What the fields of a word say; any bit outside of them is a reserved one. */
  function DecodeHost(f: Format, w: Word): HostDesc {
    HostDesc(FromWord(AddressOf(w, f.lpa2), Width(f)), NsAttrs(FromWord(MemattrOf(w), 3), FromWord(ApOf(w), 2)),
             !HostWordValid(w, PAGE_LEVEL, f.lpa2))
  }

  lemma AddressFits(w: Word, f: Format)
    ensures Fits(AddressOf(w, f.lpa2), Width(f))
  {
    Ones52();
    hide Ones;
  }

  lemma AttrsFit(w: Word)
    ensures Fits(MemattrOf(w), 3) && Fits(ApOf(w), 2)
  {
    Ones52();
    hide Ones;
  }

  /** The bits that a valid word of `level` may have. */
  function FieldMask(level: int, lpa2: bool): Word {
    if lpa2 then
      if level == 3 then 0x3_FFFF_FFFF_F3DC else if level == 2 then 0x3_FFFF_FFE0_03DC else 0x3_FFFF_C000_03DC
    else if level == 3 then 0xFFFF_FFFF_F0DC else if level == 2 then 0xFFFF_FFE0_00DC else 0xFFFF_C000_00DC
  }

  lemma FieldMaskIs(level: int, lpa2: bool)
    requires MIN_BLOCK_LEVEL <= level <= PAGE_LEVEL
    ensures HostMask(level, lpa2) == FieldMask(level, lpa2)
  {}

  lemma ValidWithin(w: Word, level: int, lpa2: bool)
    requires MIN_LEVEL <= level <= PAGE_LEVEL
    ensures HostWordValid(w, level, lpa2) == Within(w, HostMask(level, lpa2))
  {
    hide HostMask;
  }

  lemma ValidIs(w: Word, level: int, lpa2: bool)
    requires MIN_BLOCK_LEVEL <= level <= PAGE_LEVEL
    ensures HostWordValid(w, level, lpa2) == Within(w, FieldMask(level, lpa2))
  {
    hide HostMask, HostWordValid, FieldMask, Within;
    FieldMaskIs(level, lpa2);
    ValidWithin(w, level, lpa2);
  }

  predicate NarrowAddress(x: Word, w: Word) { x == w & 0xFFFF_FFFF_F000 }

  predicate WideAddress(x: Word, w: Word) { x == (w & 0x3_FFFF_FFFF_F000) | ((w & 0x300) << 42) }

  lemma AddressIs(w: Word)
    ensures NarrowAddress(AddressOf(w, false), w) && WideAddress(AddressOf(w, true), w)
  {}

  lemma WithinMore(w: Word, z: Word, y: Word)
    requires Within(w, z) && Within(z, y)
    ensures Within(w, y)
  {}

  lemma NarrowClear(w: Word, x: Word, q: Word, low: Word)
    requires NarrowAddress(x, w) && Within(w, q) && q & low & 0xFFFF_FFFF_F000 == 0
    ensures Apart(x, low)
  {}

  lemma NarrowWithin(w: Word, x: Word, q: Word, low: Word, z: Word)
    requires NarrowAddress(x, w) && Within(w, z) && Apart(x, low) && z & !q & !(low & 0xFFFF_FFFF_F000) == 0
    ensures Within(w, q)
  {}

  lemma WideClear(w: Word, x: Word, q: Word, low: Word)
    requires WideAddress(x, w) && Within(w, q) && q & low & 0x3_FFFF_FFFF_F000 == 0 && low & 0xFFFF_FFFF_0000_0000 == 0
    ensures Apart(x, low)
  {}

  lemma WideWithin(w: Word, x: Word, q: Word, low: Word, z: Word)
    requires WideAddress(x, w) && Within(w, z) && Apart(x, low) && z & !q & !(low & 0x3_FFFF_FFFF_F000) == 0
    ensures Within(w, q)
  {}

  function LowBits(level: int): Word { if level == 3 then 0xFFF else if level == 2 then 0x1F_FFFF else 0x3FFF_FFFF }

  lemma Masks(level: int)
    requires MIN_BLOCK_LEVEL <= level <= PAGE_LEVEL
    ensures Within(FieldMask(level, false), FieldMask(3, false)) && Within(FieldMask(level, true), FieldMask(3, true))
    ensures FieldMask(level, false) & LowBits(level) & 0xFFFF_FFFF_F000 == 0
    ensures FieldMask(level, true) & LowBits(level) & 0x3_FFFF_FFFF_F000 == 0
    ensures LowBits(level) & 0xFFFF_FFFF_0000_0000 == 0
    ensures FieldMask(3, false) & !FieldMask(level, false) & !(LowBits(level) & 0xFFFF_FFFF_F000) == 0
    ensures FieldMask(3, true) & !FieldMask(level, true) & !(LowBits(level) & 0x3_FFFF_FFFF_F000) == 0
  {}

  lemma LowIs3(x: Word)
    ensures LowClear(x, 3) <==> Apart(x, 0xFFF)
  {}

  lemma LowIs2(x: Word)
    ensures LowClear(x, 2) <==> Apart(x, 0x1F_FFFF)
  {}

  lemma LowIs1(x: Word)
    ensures LowClear(x, 1) <==> Apart(x, 0x3FFF_FFFF)
  {}

  /** The test of a word splits into one for reserved bits and one for alignment. */
  lemma ValidSplits(w: Word, level: int, lpa2: bool)
    requires MIN_BLOCK_LEVEL <= level <= PAGE_LEVEL
    ensures HostWordValid(w, level, lpa2) <==>
              HostWordValid(w, PAGE_LEVEL, lpa2) && LowClear(AddressOf(w, lpa2), level)
  {
    hide HostWordValid, AddressOf, LowClear, Within, Apart, NarrowAddress, WideAddress;
    ValidIs(w, level, lpa2);
    ValidIs(w, PAGE_LEVEL, lpa2);
    hide FieldMask, LowBits;
    AddressIs(w);
    LowClearIs(AddressOf(w, lpa2), level);
    Masks(level);
    var x, q, low, z := AddressOf(w, lpa2), FieldMask(level, lpa2), LowBits(level), FieldMask(3, lpa2);
    if Within(w, q) {
      WithinMore(w, q, z);
      if lpa2 { WideClear(w, x, q, low); } else { NarrowClear(w, x, q, low); }
    }
    if Within(w, z) && Apart(x, low) {
      if lpa2 { WideWithin(w, x, q, low, z); } else { NarrowWithin(w, x, q, low, z); }
    }
  }

  lemma LowClearIs(x: Word, level: int)
    requires MIN_BLOCK_LEVEL <= level <= PAGE_LEVEL
    ensures LowClear(x, level) <==> Apart(x, LowBits(level))
  {
    hide LowClear, Apart;
    if level == 3 { LowIs3(x); } else if level == 2 { LowIs2(x); } else { LowIs1(x); }
  }

  lemma ReservedMemattr(w: Word)
    ensures MemattrOf(w) == 4 <==> w & 0x1C == 0x10
  {}

  /** The fields of the decoded descriptor, written back, are the fields of the word. */
  lemma DecodedFields(f: Format, w: Word)
    ensures var d := DecodeHost(f, w);
            && ToWord(d.pa) == AddressOf(w, f.lpa2) && d.pa < OutputSize(f) <= Pow2(52)
            && ToWord(d.attrs.memattr) == MemattrOf(w) && d.attrs.memattr <= MEMATTR_MAX
            && ToWord(d.attrs.ap) == ApOf(w) && d.attrs.ap < 4
            && (d.attrs.memattr == MEMATTR_RESERVED <==> MemattrOf(w) == 4)
  {
    assert ToWord(4) == 4;
    hide ToWord, FromWord, Fits, AddressOf, MemattrOf, ApOf, HostWordValid, Pow2;
    PowerSizes();
    AddressFits(w, f);
    AttrsFit(w);
    FromWordOk(AddressOf(w, f.lpa2), Width(f));
    FromWordOk(MemattrOf(w), 3);
    FromWordOk(ApOf(w), 2);
    if MemattrOf(w) == 4 { WordInjective(FromWord(MemattrOf(w), 3), 4); }
  }

  /** A word is accepted exactly if the decoded descriptor is. */
  lemma AcceptedDecodes(f: Format, w: Word, level: int)
    requires MIN_BLOCK_LEVEL <= level <= PAGE_LEVEL
    ensures HostWordAccepted(w, level, f.lpa2) <==> HostDescValid(f, DecodeHost(f, w), level)
  {
    ReservedMemattr(w);
    hide HostWordValid, AddressOf, MemattrOf, ApOf, LowClear, ToWord, FromWord, Pow2, Aligned;
    DecodedFields(f, w);
    ValidSplits(w, level, f.lpa2);
    AlignedIsClear(DecodeHost(f, w).pa, level);
  }

  /** The attributes of the host, and the same with the memory attribute set. */
  function AttrBitsOf(w: Word): Word { w & 0xDC }

  function FullBitsOf(w: Word): Word { (w & 0xC0) | 0x1C }

  lemma AttrsBack(w: Word)
    ensures (MemattrOf(w) << 2) | (ApOf(w) << 6) == AttrBitsOf(w)
  {}

  lemma FullBack(w: Word)
    ensures (7 << 2) | (ApOf(w) << 6) == FullBitsOf(w)
  {}

  lemma StoredAttrs(f: Format, w: Word)
    ensures AttrWord(HostEntry(f, DecodeHost(f, w)).attrs) == if f.fwb then AttrBitsOf(w) else FullBitsOf(w)
  {
    DecodedFields(f, w);
    assert ToWord(7) == 7;
    hide HostWordValid, AddressOf, MemattrOf, ApOf, ToWord, FromWord, AttrBitsOf, FullBitsOf;
    AttrsBack(w);
    FullBack(w);
  }

  predicate HasMemattr(t: Word) { t & 0x1C == 0x1C }

  lemma TemplateMemattr(f: Format, level: int)
    requires !f.fwb
    ensures HasMemattr(NsTemplate(f, level))
  {}

  /** The words agree outside the memory attribute. */
  predicate SameOutside(x: Word, y: Word) { x & 0xFFFF_FFFF_FFFF_FFE3 == y & 0xFFFF_FFFF_FFFF_FFE3 }

  lemma OnlyMemattr(w: Word, a: Word, x: Word, y: Word)
    requires FullAttrs(x, w, a) && HostAttrs(y, w, a)
    ensures SameOutside(x, y)
  {}

  /** Where the template has all bits of the memory attribute, those of the word do not matter. */
  lemma SameMemattr(t: Word, x: Word, y: Word, p: Word, q: Word)
    requires HasMemattr(t) && SameOutside(x, y) && Retypes(p, x, t) && Retypes(q, y, t)
    ensures p == q
  {}

  predicate FullAttrs(x: Word, w: Word, a: Word) { x == ((w & 0xC0) | 0x1C) | a }

  predicate HostAttrs(y: Word, w: Word, a: Word) { y == (w & 0xDC) | a }

  lemma Joined(w: Word, a: Word)
    ensures FullAttrs(With(FullBitsOf(w), a), w, a) && HostAttrs(With(AttrBitsOf(w), a), w, a)
  {}

  lemma SameRetyped(w: Word, a: Word, t: Word)
    requires HasMemattr(t)
    ensures Retyped(With(FullBitsOf(w), a), t) == Retyped(With(AttrBitsOf(w), a), t)
  {
    hide HasMemattr, FullAttrs, HostAttrs, SameOutside, Retypes, Retyped, With, FullBitsOf, AttrBitsOf;
    var x, y := With(FullBitsOf(w), a), With(AttrBitsOf(w), a);
    Joined(w, a);
    RetypedIs(x, t);
    RetypedIs(y, t);
    OnlyMemattr(w, a, x, y);
    SameMemattr(t, x, y, Retyped(x, t), Retyped(y, t));
  }

  lemma WordSplits(w: Word, level: int, lpa2: bool)
    requires MIN_BLOCK_LEVEL <= level <= PAGE_LEVEL && HostWordValid(w, level, lpa2)
    ensures With(AttrBitsOf(w), PaToTte(AddressOf(w, lpa2), lpa2)) == w
  {
    ValidSplits(w, level, lpa2);
    hide HostWordValid, TteToPa, PaToTte;
    HostWord(w, PAGE_LEVEL, lpa2);
  }

  /** From an accepted word the creator of non-secure mappings builds the word of the entry that
      the command stores for the decoded descriptor. */
  lemma CreatedFromHost(f: Format, w: Word, level: int)
    requires MIN_BLOCK_LEVEL <= level <= PAGE_LEVEL && HostWordAccepted(w, level, f.lpa2)
    ensures var e := HostEntry(f, DecodeHost(f, w));
            ValidEntry(f, e, level) && CreateAssignedNs(f, w, level) == Pack(f, e, level)
  {
    hide HostWordValid, AddressOf, MemattrOf, ApOf, ToWord, FromWord, PaToTte, NsTemplate, HasMemattr, Retyped, With;
    hide AttrWord, AttrBitsOf, FullBitsOf;
    AcceptedDecodes(f, w, level);
    DecodedFields(f, w);
    StoredAttrs(f, w);
    WordSplits(w, level, f.lpa2);
    if !f.fwb {
      TemplateMemattr(f, level);
      SameRetyped(w, PaToTte(AddressOf(w, f.lpa2), f.lpa2), NsTemplate(f, level));
    }
  }
}
