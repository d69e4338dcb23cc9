/** The packed 64-bit words of translation table entries: the creators, the classifiers, and
    the proof that the words and the decoded entries of module S2tte are two views of the
    same thing. Words are kept apart from addresses as numbers; `ToWord` links the two. */
module S2tteCodec {
  import opened S2Geometry
  import opened S2tte
  import opened RealmGeometry

  type Word = bv64

  const HIPAS_MASK: Word := 0x1C
  const HIPAS_ASSIGNED: Word := 0x4
  const RIPAS_MASK: Word := 0x60
  const NS: Word := 0x80_0000_0000_0000
  const AF: Word := 0x400
  const XN: Word := 0x40_0000_0000_0000
  const TYPE_MASK: Word := 3
  const TYPE_BLOCK: Word := 1
  const TYPE_TABLE: Word := 3
  const TYPE_PAGE: Word := 3
  const MEMATTR_MASK: Word := 0x1C
  const AP_RW: Word := 0xC0
  const SH_IS: Word := 0x300
  const NS_ATTR_MASK: Word := 0xDC
  const OA_51_50: Word := 0xC_0000_0000_0000
  const OA_49_48: Word := 0x3_0000_0000_0000
  const TTE_51_50: Word := 0x300

  function NormalMemattr(fwb: bool): Word { if fwb then 0x18 else 0x3C }

  function RipasBits(r: Ripas): Word {
    match r
    case Empty => 0
    case Ram => 0x20
    case Destroyed => 0x40
  }

  // ------------------------------------------------------------ output addresses

  /** The address bits above the range of one entry of `level`. */
  function Mask(level: int): Word
    requires MIN_LEVEL <= level <= PAGE_LEVEL
  {
    if level == 3 then 0xFFFF_FFFF_FFFF_F000
    else if level == 2 then 0xFFFF_FFFF_FFE0_0000
    else if level == 1 then 0xFFFF_FFFF_C000_0000
    else if level == 0 then 0xFFFF_FF80_0000_0000
    else 0xFFFF_0000_0000_0000
  }

  /** The address field of an entry of `level`. */
  function LevelMask(level: int, lpa2: bool): Word
    requires MIN_LEVEL <= level <= PAGE_LEVEL
  {
    (0xFFFF_FFFF_FFFF & Mask(level)) | (if lpa2 then TTE_51_50 | OA_49_48 else 0)
  }

  function TteToPa(w: Word, level: int, lpa2: bool): Word
    requires MIN_LEVEL <= level <= PAGE_LEVEL
  {
    var pa := w & LevelMask(level, lpa2);
    if lpa2 then (pa & !TTE_51_50) | (((w & TTE_51_50) >> 8) << 50) else pa
  }

  function PaToTte(pa: Word, lpa2: bool): Word {
    if lpa2 then (pa & !OA_51_50) | (((pa & OA_51_50) >> 50) << 8) else pa
  }

  /** The address is aligned to `level` and fits the output address of the format. */
  predicate AlignedWord(pa: Word, level: int, lpa2: bool)
    requires MIN_LEVEL <= level <= PAGE_LEVEL
  {
    pa == pa & (if lpa2 then 0xF_FFFF_FFFF_FFFF else 0xFFFF_FFFF_FFFF) & Mask(level)
  }

  // ------------------------------------------------------------ creators

  /** The descriptor template of a valid protected mapping. */
  function RamTemplate(f: Format, level: int): Word {
    NormalMemattr(f.fwb) | AP_RW | AF | (if f.lpa2 then 0 else SH_IS)
    | (if level == PAGE_LEVEL then TYPE_PAGE else TYPE_BLOCK)
  }

  /** What the RMM adds to a non-secure mapping; the shareability bits only where FEAT_LPA2
      does not use them for the address. */
  function NsTemplate(f: Format, level: int): Word {
    AF | NS | XN | (if f.fwb then 0 else NormalMemattr(false)) | (if f.lpa2 then 0 else SH_IS)
    | (if level == PAGE_LEVEL then TYPE_PAGE else TYPE_BLOCK)
  }

  function CreateUnassigned(r: Ripas): Word { RipasBits(r) }

  function CreateUnassignedNs(): Word { NS }

  function CreateAssigned(f: Format, pa: Word, level: int, r: Ripas): Word {
    With(PaToTte(pa, f.lpa2), if r.Ram? then RamTemplate(f, level) else InvalidBits(r))
  }

  /** `w` carries the output address and the host-controlled attributes. */
  function CreateAssignedNs(f: Format, w: Word, level: int): Word { Retyped(w, NsTemplate(f, level)) }

  function Retyped(w: Word, template: Word): Word { With(Untyped(w), template) }

  function Untyped(w: Word): Word { w & !3 }

  function CreateTable(f: Format, pa: Word): Word { With(PaToTte(pa, f.lpa2), TYPE_TABLE) }

  function With(a: Word, b: Word): Word { a | b }

  /** HIPAS and RIPAS of an assigned entry that is no valid mapping. */
  function InvalidBits(r: Ripas): Word { HIPAS_ASSIGNED | RipasBits(r) }

  // ------------------------------------------------------------ classifiers

  predicate HasHipas(w: Word, hipas: Word) { w & TYPE_MASK == 0 && w & HIPAS_MASK == hipas }

  predicate IsUnassigned(w: Word, r: Ripas) {
    (r.Empty? ==> w & NS == 0) && w & RIPAS_MASK == RipasBits(r) && HasHipas(w, 0)
  }

  predicate IsUnassignedNs(w: Word) { w & NS != 0 && HasHipas(w, 0) }

  predicate IsValidLeaf(w: Word, level: int, ns: Word) {
    w & NS == ns
    && if level == PAGE_LEVEL then w & TYPE_MASK == TYPE_PAGE
       else level >= MIN_BLOCK_LEVEL && w & TYPE_MASK == TYPE_BLOCK
  }

  predicate IsAssigned(w: Word, level: int, r: Ripas) {
    if r.Ram? then IsValidLeaf(w, level, 0)
    else w & RIPAS_MASK == RipasBits(r) && HasHipas(w, HIPAS_ASSIGNED)
  }

  predicate IsAssignedNs(w: Word, level: int) { IsValidLeaf(w, level, NS) }

  predicate IsTable(w: Word, level: int) { level < PAGE_LEVEL && w & TYPE_MASK == TYPE_TABLE }

  /** The nine kinds of entry. */
  datatype Kind = UnassignedKind(r: Ripas) | UnassignedNsKind | AssignedKind(r: Ripas) | AssignedNsKind | TableKind

  /** The classifier for each kind. */
  predicate IsKind(k: Kind, w: Word, level: int) {
    match k
    case UnassignedKind(r) => IsUnassigned(w, r)
    case UnassignedNsKind => IsUnassignedNs(w)
    case AssignedKind(r) => IsAssigned(w, level, r)
    case AssignedNsKind => IsAssignedNs(w, level)
    case TableKind => IsTable(w, level)
  }

  function EntryPa(f: Format, w: Word, level: int): Word
    requires MIN_LEVEL <= level <= PAGE_LEVEL
  {
    if IsTable(w, level) then TteToPa(w, PAGE_LEVEL, f.lpa2) else TteToPa(w, level, f.lpa2)
  }

  predicate HasPa(k: Kind) { k.AssignedKind? || k.AssignedNsKind? || k.TableKind? }

  /** The alignment level of the address of an entry. */
  function PaLevel(k: Kind, level: int): int { if k.TableKind? then PAGE_LEVEL else level }

  predicate KindLevel(k: Kind, level: int) {
    && MIN_LEVEL <= level <= PAGE_LEVEL
    && (k.AssignedKind? || k.AssignedNsKind? ==> MIN_BLOCK_LEVEL <= level)
    && (k.TableKind? ==> level < PAGE_LEVEL)
  }

  predicate AttrsWord(f: Format, attrs: Word) {
    attrs & !NS_ATTR_MASK == 0 && (f.fwb || attrs & MEMATTR_MASK == MEMATTR_MASK)
  }

  /** The word that the creator of the kind builds. */
  function Create(f: Format, k: Kind, level: int, pa: Word, attrs: Word): Word {
    match k
    case UnassignedKind(r) => CreateUnassigned(r)
    case UnassignedNsKind => CreateUnassignedNs()
    case AssignedKind(r) => CreateAssigned(f, pa, level, r)
    case AssignedNsKind => CreateAssignedNs(f, With(attrs, PaToTte(pa, f.lpa2)), level)
    case TableKind => CreateTable(f, pa)
  }

  // ------------------------------------------------------------ bit level facts

  /** The bits leave the address field alone. */
  predicate NoAddress(bits: Word, lpa2: bool) { bits & LevelMask(PAGE_LEVEL, lpa2) == 0 }

  /** No type, HIPAS, RIPAS, attribute, access flag, XN or NS bit. */
  predicate OnlyAddress(w: Word) { w & 0xC0_0000_0000_04FF == 0 }

  predicate Secure(w: Word) { w & NS == 0 }

  /** The words agree in every field that entries are classified by. */
  predicate SameFields(w: Word, bits: Word) {
    && w & TYPE_MASK == bits & TYPE_MASK && w & HIPAS_MASK == bits & HIPAS_MASK && w & RIPAS_MASK == bits & RIPAS_MASK
    && w & NS == bits & NS && w & NS_ATTR_MASK == bits & NS_ATTR_MASK
  }

  /** An output address survives being packed together with any other bits, and consists of
      address bits only. */
  lemma PaRoundTrip(pa: Word, level: int, lpa2: bool, bits: Word)
    requires MIN_LEVEL <= level <= PAGE_LEVEL && AlignedWord(pa, level, lpa2) && NoAddress(bits, lpa2)
    ensures TteToPa(With(PaToTte(pa, lpa2), bits), level, lpa2) == pa && OnlyAddress(PaToTte(pa, lpa2))
  {}

  /** Address bits 51:50 live in entry bits 9:8. */
  lemma Lpa2Bits(pa: Word)
    requires AlignedWord(pa, PAGE_LEVEL, true)
    ensures (PaToTte(pa, true) & TTE_51_50) >> 8 == (pa & OA_51_50) >> 50
    ensures PaToTte(pa, true) & OA_51_50 == 0
  {}

  /** Every field an entry is classified by comes from the part that is not the address. */
  lemma FieldsOf(tte: Word, bits: Word)
    requires OnlyAddress(tte)
    ensures SameFields(With(tte, bits), bits)
  {}

  lemma KindByFields(k: Kind, w: Word, bits: Word, level: int)
    requires SameFields(w, bits)
    ensures IsKind(k, w, level) == IsKind(k, bits, level)
  {
    hide IsKind, FieldKind;
    KindFields(k, w, level);
    KindFields(k, bits, level);
  }

  // ------------------------------------------------------------ one classifier for every created word

  /** Beyond its own classifier: unassigned words say which side of the PAR they are on. */
  predicate Clean(k: Kind, w: Word) {
    (k.UnassignedKind? ==> w & NS == 0) && (k.UnassignedNsKind? ==> w & RIPAS_MASK == 0)
  }

  /** The classifiers as conditions on the fields alone. */
  predicate FieldKind(k: Kind, ty: Word, hi: Word, ri: Word, ns: Word, level: int) {
    match k
    case UnassignedKind(r) => (r.Empty? ==> ns == 0) && ri == RipasBits(r) && ty == 0 && hi == 0
    case UnassignedNsKind => ns != 0 && ty == 0 && hi == 0
    case AssignedKind(r) =>
      if r.Ram? then ns == 0 && (if level == PAGE_LEVEL then ty == 3 else level >= MIN_BLOCK_LEVEL && ty == 1)
      else ri == RipasBits(r) && ty == 0 && hi == 4
    case AssignedNsKind => ns == NS && (if level == PAGE_LEVEL then ty == 3 else level >= MIN_BLOCK_LEVEL && ty == 1)
    case TableKind => level < PAGE_LEVEL && ty == 3
  }

  lemma KindFields(k: Kind, w: Word, level: int)
    ensures IsKind(k, w, level) == FieldKind(k, w & TYPE_MASK, w & HIPAS_MASK, w & RIPAS_MASK, w & NS, level)
  {}

  lemma ExclusiveFields(ty: Word, hi: Word, ri: Word, ns: Word, level: int, k: Kind, k': Kind)
    requires FieldKind(k, ty, hi, ri, ns, level) && FieldKind(k', ty, hi, ri, ns, level)
    requires (k.UnassignedKind? ==> ns == 0) && (k.UnassignedNsKind? ==> ri == 0)
    ensures k' == k
  {
    match k
    case UnassignedKind(r) =>
      match r { case Empty => case Ram => case Destroyed => }
    case UnassignedNsKind =>
    case AssignedKind(r) =>
      match r { case Empty => case Ram => case Destroyed => }
    case AssignedNsKind =>
    case TableKind =>
  }

  lemma ExclusiveKinds(w: Word, level: int, k: Kind, k': Kind)
    requires IsKind(k, w, level) && Clean(k, w) && IsKind(k', w, level)
    ensures k' == k
  {
    hide IsKind, FieldKind;
    KindFields(k, w, level);
    KindFields(k', w, level);
    ExclusiveFields(w & TYPE_MASK, w & HIPAS_MASK, w & RIPAS_MASK, w & NS, level, k, k');
  }

  lemma CreatedUnassigned(f: Format, k: Kind, level: int, pa: Word, attrs: Word)
    requires k.UnassignedKind? || k.UnassignedNsKind?
    ensures IsKind(k, Create(f, k, level, pa, attrs), level) && Clean(k, Create(f, k, level, pa, attrs))
  {
    if k.UnassignedKind? {
      match k.r { case Empty => case Ram => case Destroyed => }
    }
  }

  /** The bits, without address, that the creator of a mapping or table gives it. */
  function KindBits(f: Format, k: Kind, level: int, attrs: Word): Word
    requires HasPa(k)
  {
    match k
    case AssignedKind(r) => if r.Ram? then RamTemplate(f, level) else InvalidBits(r)
    case AssignedNsKind => With(attrs, NsTemplate(f, level))
    case TableKind => TYPE_TABLE
  }

  /** The bits make the word of kind `k`, and do not touch the address. */
  predicate GoodBits(f: Format, k: Kind, level: int, bits: Word) { NoAddress(bits, f.lpa2) && IsKind(k, bits, level) }

  lemma RamBits(f: Format, level: int)
    requires MIN_BLOCK_LEVEL <= level <= PAGE_LEVEL
    ensures GoodBits(f, AssignedKind(Ram), level, RamTemplate(f, level)) && RamTemplate(f, level) & NS == 0
  {
    if f.lpa2 {
      if f.fwb {} else {}
    } else {
      if f.fwb {} else {}
    }
  }

  lemma InvalidGood(f: Format, r: Ripas, level: int)
    requires !r.Ram?
    ensures GoodBits(f, AssignedKind(r), level, InvalidBits(r)) && InvalidBits(r) & NS == 0
  {
    match r { case Empty => case Destroyed => }
  }

  lemma TableGood(f: Format, level: int)
    requires level < PAGE_LEVEL
    ensures GoodBits(f, TableKind, level, TYPE_TABLE)
  {}

  /** What the RMM adds to a non-secure mapping. */
  predicate NsTemplateOk(f: Format, level: int, t: Word) {
    NoAddress(t, f.lpa2) && t & NS == NS && t & TYPE_MASK == (if level == PAGE_LEVEL then TYPE_PAGE else TYPE_BLOCK)
  }

  lemma NsTemplateGood(f: Format, level: int)
    ensures NsTemplateOk(f, level, NsTemplate(f, level))
    ensures NsTemplate(f, level) & NS_ATTR_MASK == if f.fwb then 0 else MEMATTR_MASK
  {
    if f.lpa2 {
      if f.fwb {} else {}
    } else {
      if f.fwb {} else {}
    }
  }

  predicate HostBits(attrs: Word) { attrs & !NS_ATTR_MASK == 0 }

  lemma NsNoAddress(attrs: Word, t: Word, lpa2: bool)
    requires HostBits(attrs) && NoAddress(t, lpa2)
    ensures NoAddress(With(attrs, t), lpa2)
  {}

  lemma NsType(attrs: Word, t: Word)
    requires HostBits(attrs)
    ensures With(attrs, t) & TYPE_MASK == t & TYPE_MASK && With(attrs, t) & NS == t & NS
  {}

  lemma NsGood(f: Format, level: int, attrs: Word, t: Word)
    requires MIN_BLOCK_LEVEL <= level <= PAGE_LEVEL && HostBits(attrs) && NsTemplateOk(f, level, t)
    ensures GoodBits(f, AssignedNsKind, level, With(attrs, t))
  {
    hide With, HostBits, NoAddress;
    NsNoAddress(attrs, t, f.lpa2);
    NsType(attrs, t);
  }

  /** The attributes the host chose survive those the RMM adds. */
  lemma NsHostAttrs(attrs: Word, t: Word, fwb: bool)
    requires HostBits(attrs) && (fwb || attrs & MEMATTR_MASK == MEMATTR_MASK)
    requires t & NS_ATTR_MASK == if fwb then 0 else MEMATTR_MASK
    ensures With(attrs, t) & NS_ATTR_MASK == attrs
  {
    if fwb {} else {}
  }

  lemma BitsGood(f: Format, k: Kind, level: int, attrs: Word)
    requires KindLevel(k, level) && HasPa(k) && (k.AssignedNsKind? ==> AttrsWord(f, attrs))
    ensures GoodBits(f, k, level, KindBits(f, k, level, attrs))
    ensures k.AssignedNsKind? ==> KindBits(f, k, level, attrs) & NS_ATTR_MASK == attrs
    ensures k.AssignedKind? ==> KindBits(f, k, level, attrs) & NS == 0
  {
    hide GoodBits, NsTemplateOk, RamTemplate, NsTemplate, InvalidBits, With;
    match k {
      case AssignedKind(r) => if r.Ram? { RamBits(f, level); } else { InvalidGood(f, r, level); }
      case AssignedNsKind =>
        assert HostBits(attrs);
        NsTemplateGood(f, level);
        NsGood(f, level, attrs, NsTemplate(f, level));
        NsHostAttrs(attrs, NsTemplate(f, level), f.fwb);
      case TableKind => TableGood(f, level);
    }
  }

  lemma NsWord(attrs: Word, tte: Word, t: Word)
    requires HostBits(attrs) && OnlyAddress(tte)
    ensures Retyped(With(attrs, tte), t) == With(tte, With(attrs, t))
  {
    hide With, Retyped, HostBits, OnlyAddress;
    NoTypeBits(attrs, tte);
    RetypedSame(With(attrs, tte), t);
    WithSwapped(attrs, tte, t);
  }

  lemma NoTypeBits(attrs: Word, tte: Word)
    requires HostBits(attrs) && OnlyAddress(tte)
    ensures With(attrs, tte) & 3 == 0
  {}

  lemma RetypedSame(w: Word, t: Word)
    requires w & 3 == 0
    ensures Retyped(w, t) == With(w, t)
  {
    hide With, Untyped;
    ClearsNothing(w);
  }

  lemma ClearsNothing(w: Word)
    requires w & 3 == 0
    ensures Untyped(w) == w
  {}

  lemma WithSwapped(a: Word, b: Word, t: Word)
    ensures With(With(a, b), t) == With(b, With(a, t))
  {}

  /** A created mapping or table is its address together with the bits of its kind. */
  lemma CreatedForm(f: Format, k: Kind, level: int, pa: Word, attrs: Word)
    requires KindLevel(k, level) && HasPa(k) && AlignedWord(pa, PaLevel(k, level), f.lpa2)
    requires k.AssignedNsKind? ==> AttrsWord(f, attrs)
    ensures Create(f, k, level, pa, attrs) == With(PaToTte(pa, f.lpa2), KindBits(f, k, level, attrs))
  {
    hide PaToTte, AlignedWord, RamTemplate, NsTemplate, InvalidBits, With, Retyped, OnlyAddress, NoAddress;
    if k.AssignedNsKind? {
      assert HostBits(attrs);
      NoBitsNoAddress(f.lpa2);
      PaRoundTrip(pa, level, f.lpa2, 0);
      NsWord(attrs, PaToTte(pa, f.lpa2), NsTemplate(f, level));
    }
  }

  lemma NoBitsNoAddress(lpa2: bool)
    ensures NoAddress(0, lpa2)
  {}

  lemma CreatedMapping(f: Format, k: Kind, level: int, pa: Word, attrs: Word)
    requires KindLevel(k, level) && HasPa(k) && AlignedWord(pa, PaLevel(k, level), f.lpa2)
    requires k.AssignedNsKind? ==> AttrsWord(f, attrs)
    ensures var w := Create(f, k, level, pa, attrs);
            && IsKind(k, w, level) && TteToPa(w, PaLevel(k, level), f.lpa2) == pa
            && SameFields(w, KindBits(f, k, level, attrs))
  {
    hide PaToTte, TteToPa, AlignedWord, With, OnlyAddress, NoAddress, SameFields, IsKind, Create, KindBits, AttrsWord;
    CreatedForm(f, k, level, pa, attrs);
    BitsGood(f, k, level, attrs);
    var bits := KindBits(f, k, level, attrs);
    PaRoundTrip(pa, PaLevel(k, level), f.lpa2, bits);
    FieldsOf(PaToTte(pa, f.lpa2), bits);
    KindByFields(k, With(PaToTte(pa, f.lpa2), bits), bits, level);
  }

  lemma SameAttrs(w: Word, bits: Word)
    requires SameFields(w, bits)
    ensures w & NS_ATTR_MASK == bits & NS_ATTR_MASK && w & NS == bits & NS
  {}

  /** Each word that a creator builds satisfies exactly one classifier, and its address and
      host-controlled attributes are those it was built from. */
  lemma CreatedWord(f: Format, k: Kind, level: int, pa: Word, attrs: Word, k': Kind)
    requires KindLevel(k, level) && (HasPa(k) ==> AlignedWord(pa, PaLevel(k, level), f.lpa2))
    requires k.AssignedNsKind? ==> AttrsWord(f, attrs)
    ensures var w := Create(f, k, level, pa, attrs);
            && (IsKind(k', w, level) <==> k' == k)
            && (HasPa(k) ==> EntryPa(f, w, level) == pa)
            && (k.AssignedNsKind? ==> w & NS_ATTR_MASK == attrs)
            && (k.AssignedKind? ==> Secure(w))
  {
    hide TteToPa, AlignedWord, SameFields, IsKind, Create, KindBits, AttrsWord, Clean;
    var w := Create(f, k, level, pa, attrs);
    if HasPa(k) {
      CreatedMapping(f, k, level, pa, attrs);
      BitsGood(f, k, level, attrs);
      SameAttrs(w, KindBits(f, k, level, attrs));
      MappingClean(k, w);
      if IsKind(TableKind, w, level) { ExclusiveKinds(w, level, k, TableKind); }
      TableIsKind(w, level);
    } else {
      CreatedUnassigned(f, k, level, pa, attrs);
    }
    if IsKind(k', w, level) { ExclusiveKinds(w, level, k, k'); }
  }

  lemma MappingClean(k: Kind, w: Word)
    requires HasPa(k)
    ensures Clean(k, w)
  {}

  lemma TableIsKind(w: Word, level: int)
    ensures IsKind(TableKind, w, level) == IsTable(w, level)
  {}

  // ------------------------------------------------------------ numbers as words

  function {:induction false} ToWord(n: nat): Word {
    if n == 0 then 0 else (ToWord(n / 2) << 1) | (if n % 2 == 1 then 1 else 0)
  }

  /** The lowest `k` bits. */
  function {:induction false} Ones(k: nat): Word { if k == 0 then 0 else (Ones(k - 1) << 1) | 1 }

  lemma OnesStep(k: nat)
    requires k > 0
    ensures Ones(k) == (Ones(k - 1) << 1) | 1
  {}

  lemma OnesStep4(k: nat, x: Word)
    requires Ones(k) == x
    ensures Ones(k + 4) == (x << 4) | 0xF
  {
    hide Ones;
    OnesStep(k + 1);
    OnesStep(k + 2);
    OnesStep(k + 3);
    OnesStep(k + 4);
  }

  lemma {:induction false} Ones52()
    ensures Ones(2) == 3 && Ones(3) == 7 && Ones(48) == 0xFFFF_FFFF_FFFF && Ones(52) == 0xF_FFFF_FFFF_FFFF
  {
    assert Ones(2) == 3 && Ones(3) == 7 && Ones(4) == 0xF;
    hide Ones;
    OnesStep4(4, 0xF);
    OnesStep4(8, 0xFF);
    OnesStep4(12, 0xFFF);
    OnesStep4(16, 0xFFFF);
    OnesStep4(20, 0xF_FFFF);
    OnesStep4(24, 0xFF_FFFF);
    OnesStep4(28, 0xFFF_FFFF);
    OnesStep4(32, 0xFFFF_FFFF);
    OnesStep4(36, 0xF_FFFF_FFFF);
    OnesStep4(40, 0xFF_FFFF_FFFF);
    OnesStep4(44, 0xFFF_FFFF_FFFF);
    OnesStep4(48, 0xFFFF_FFFF_FFFF);
  }

  function Bit(n: nat): Word { if n % 2 == 1 then 1 else 0 }

  /** `w` is `x` shifted up by one bit, with bit `b` shifted in. */
  predicate Shifted(w: Word, x: Word, b: Word) { w == (x << 1) | b && (b == 0 || b == 1) }

  /** All bits of `w` are bits of `z`. */
  predicate Within(w: Word, z: Word) { w & !z == 0 }

  predicate Fits(w: Word, k: nat) { Within(w, Ones(k)) }

  lemma WordStep(n: nat)
    ensures Shifted(ToWord(n), ToWord(n / 2), Bit(n))
  {}

  lemma ZeroFits(k: nat)
    ensures Fits(ToWord(0), k)
  {
    hide Ones;
  }

  lemma ShiftIn(w: Word, x: Word, b: Word, z: Word, y: Word)
    requires Shifted(w, x, b) && Shifted(z, y, 1) && x & !y == 0
    ensures w & !z == 0
  {}

  lemma ShiftWithin(w: Word, x: Word, b: Word, z: Word, y: Word)
    requires Shifted(w, x, b) && Shifted(z, y, 1) && Within(x, y)
    ensures Within(w, z)
  {
    hide Shifted;
    ShiftIn(w, x, b, z, y);
  }

  lemma OnesShifted(k: nat)
    requires k > 0
    ensures Shifted(Ones(k), Ones(k - 1), 1)
  {
    OnesStep(k);
  }

  lemma ShiftFits(w: Word, x: Word, b: Word, k: nat)
    requires k > 0 && Shifted(w, x, b) && Fits(x, k - 1)
    ensures Fits(w, k)
  {
    hide Ones, Shifted, Within;
    OnesShifted(k);
    ShiftWithin(w, x, b, Ones(k), Ones(k - 1));
  }

  /** A number below 2^k has no bits above bit k - 1. */
  lemma {:induction false} WordBound(n: nat, k: nat)
    requires n < Pow2(k)
    ensures Fits(ToWord(n), k)
  {
    hide ToWord, Pow2, Fits, Shifted, Bit;
    if n == 0 {
      ZeroFits(k);
    } else {
      HalfBelow(n, k);
      WordStep(n);
      WordBound(n / 2, k - 1);
      ShiftFits(ToWord(n), ToWord(n / 2), Bit(n), k);
    }
  }

  lemma HalfBelow(n: nat, k: nat)
    requires 0 < n < Pow2(k)
    ensures k > 0 && n / 2 < Pow2(k - 1)
  {}

  lemma ShiftOut(w: Word, x: Word, y: Word, b: Word, c: Word)
    requires Shifted(w, x, b) && Shifted(w, y, c) && Fits(x, 52) && Fits(y, 52)
    ensures x == y && b == c
  {
    Ones52();
    hide Ones;
  }

  /** Different numbers are different words. */
  lemma {:induction false} WordInjective(n: nat, m: nat)
    requires n < Pow2(52) && m < Pow2(52) && ToWord(n) == ToWord(m)
    ensures n == m
    decreases n + m
  {
    hide ToWord, Pow2, Fits, Shifted, Bit;
    if n != 0 || m != 0 {
      WordStep(n);
      WordStep(m);
      WordBound(n / 2, 52);
      WordBound(m / 2, 52);
      ShiftOut(ToWord(n), ToWord(n / 2), ToWord(m / 2), Bit(n), Bit(m));
      BitsDiffer(n, m);
      WordInjective(n / 2, m / 2);
    }
  }

  lemma BitsDiffer(n: nat, m: nat)
    ensures Bit(n) == Bit(m) <==> n % 2 == m % 2
  {}

  lemma Double(n: nat)
    ensures ToWord(2 * n) == ToWord(n) << 1
  {}

  lemma Times8(n: nat)
    ensures ToWord(8 * n) == ToWord(n) << 3
  {
    Double(n);
    Double(2 * n);
    Double(4 * n);
    assert 2 * (2 * (2 * n)) == 8 * n;
  }

  lemma Times512(n: nat)
    ensures ToWord(512 * n) == ToWord(n) << 9
  {
    Times8(n);
    Times8(8 * n);
    Times8(64 * n);
    assert 8 * (8 * (8 * n)) == 512 * n;
  }

  predicate LowClear(x: Word, level: int)
    requires MIN_LEVEL <= level <= PAGE_LEVEL
  {
    x & !Mask(level) == 0
  }

  /** `y` is `x` shifted up by as many bits as an entry of level 3, 2 or 1 resolves below it. */
  predicate Up3(y: Word, x: Word) { y == x << 12 }

  predicate Up2(y: Word, x: Word) { y == x << 21 }

  predicate Up1(y: Word, x: Word) { y == x << 30 }

  /** The same by 9 and by 3 bits. */
  predicate Stride(y: Word, x: Word) { y == x << 9 }

  predicate Eight(y: Word, x: Word) { y == x << 3 }

  lemma StrideTimes(n: nat)
    ensures Stride(ToWord(512 * n), ToWord(n))
  {
    hide ToWord;
    Times512(n);
  }

  lemma EightTimes(n: nat)
    ensures Eight(ToWord(8 * n), ToWord(n))
  {
    hide ToWord;
    Times8(n);
  }

  lemma Join3(x: Word, y: Word, z: Word)
    requires Eight(y, x) && Stride(z, y)
    ensures Up3(z, x)
  {}

  lemma Join2(x: Word, y: Word, z: Word)
    requires Up3(y, x) && Stride(z, y)
    ensures Up2(z, x)
  {}

  lemma Join1(x: Word, y: Word, z: Word)
    requires Up2(y, x) && Stride(z, y)
    ensures Up1(z, x)
  {}

  lemma Low3(x: Word, y: Word)
    requires Up3(y, x)
    ensures LowClear(y, 3)
  {}

  lemma Low2(x: Word, y: Word)
    requires Up2(y, x)
    ensures LowClear(y, 2)
  {}

  lemma Low1(x: Word, y: Word)
    requires Up1(y, x)
    ensures LowClear(y, 1)
  {}

  /** Multiples of the range of an entry have no bits below it. */
  lemma TimesSpan(n: nat, level: int)
    requires MIN_BLOCK_LEVEL <= level <= PAGE_LEVEL
    ensures LowClear(ToWord(n * Span(level)), level)
  {
    hide ToWord, Up3, Up2, Up1, LowClear, Stride, Eight;
    var x, x3, x2, x1 := ToWord(n), ToWord(n * Span(3)), ToWord(n * Span(2)), ToWord(n * Span(1));
    EightTimes(n);
    StrideTimes(8 * n);
    assert 512 * (8 * n) == n * Span(3);
    Join3(x, ToWord(8 * n), x3);
    StrideTimes(n * Span(3));
    assert 512 * (n * Span(3)) == n * Span(2);
    Join2(x, x3, x2);
    StrideTimes(n * Span(2));
    assert 512 * (n * Span(2)) == n * Span(1);
    Join1(x, x2, x1);
    Low3(x, x3);
    Low2(x, x2);
    Low1(x, x1);
  }

  /** An aligned address in range is an aligned word. */
  lemma WordAligned(pa: Addr, level: int, f: Format)
    requires MIN_BLOCK_LEVEL <= level <= PAGE_LEVEL && Aligned(pa, level) && pa < OutputSize(f)
    ensures AlignedWord(ToWord(pa), level, f.lpa2) && pa < Pow2(52)
  {
    hide ToWord, Pow2, Mask, Fits, AlignedWord;
    PowerSizes();
    WordBound(pa, if f.lpa2 then 52 else 48);
    TimesSpan(pa / Span(level), level);
    assert pa / Span(level) * Span(level) == pa;
    MaskedWord(ToWord(pa), f.lpa2, level);
  }

  lemma MaskedWord(x: Word, lpa2: bool, level: int)
    requires MIN_LEVEL <= level <= PAGE_LEVEL && Fits(x, if lpa2 then 52 else 48) && LowClear(x, level)
    ensures AlignedWord(x, level, lpa2)
  {
    Ones52();
    hide Ones;
  }

  lemma PowerSizes()
    ensures Pow2(48) == 0x1_0000_0000_0000 && Pow2(52) == 0x10_0000_0000_0000 && Pow2(2) == 4 && Pow2(3) == 8
  {
    SpanIsPow2(MIN_LEVEL);
    Pow2Add(4, 48);
    Pow2Small();
  }

  // ------------------------------------------------------------ packed entries

  function KindOf(e: Entry): Kind {
    match e
    case UnassignedEntry(r) => UnassignedKind(r)
    case UnassignedNsEntry => UnassignedNsKind
    case AssignedEntry(r, _) => AssignedKind(r)
    case AssignedNsEntry(_, _) => AssignedNsKind
    case TableEntry(_) => TableKind
  }

  function AttrWord(a: NsAttrs): Word { (ToWord(a.memattr) << 2) | (ToWord(a.ap) << 6) }

  function PaOf(e: Entry): Addr { if e.AssignedEntry? || e.AssignedNsEntry? || e.TableEntry? then e.pa else 0 }

  function AttrsOf(e: Entry): NsAttrs { if e.AssignedNsEntry? then e.attrs else NsAttrs(0, 0) }

  /** The 64-bit word of an entry of `level`. */
  function Pack(f: Format, e: Entry, level: int): Word {
    Create(f, KindOf(e), level, ToWord(PaOf(e)), AttrWord(AttrsOf(e)))
  }

  lemma AttrBits(m: Word, a: Word)
    requires m & !7 == 0 && a & !3 == 0
    ensures ((m << 2) | (a << 6)) & !NS_ATTR_MASK == 0
    ensures (((m << 2) | (a << 6)) & MEMATTR_MASK) >> 2 == m && (((m << 2) | (a << 6)) & 0xC0) >> 6 == a
    ensures m == 7 ==> ((m << 2) | (a << 6)) & MEMATTR_MASK == MEMATTR_MASK
  {}

  lemma AttrWordOk(f: Format, a: NsAttrs)
    requires ValidAttrs(f, a)
    ensures AttrsWord(f, AttrWord(a))
    ensures (AttrWord(a) & MEMATTR_MASK) >> 2 == ToWord(a.memattr) && (AttrWord(a) & 0xC0) >> 6 == ToWord(a.ap)
    ensures a.memattr < Pow2(52) && a.ap < Pow2(52)
  {
    PowerSizes();
    WordBound(a.memattr, 3);
    WordBound(a.ap, 2);
    Ones52();
    assert ToWord(7) == 7;
    hide Ones, ToWord;
    AttrBits(ToWord(a.memattr), ToWord(a.ap));
  }

  lemma PackReady(f: Format, e: Entry, level: int)
    requires MIN_LEVEL <= level <= PAGE_LEVEL && ValidEntry(f, e, level)
    ensures KindLevel(KindOf(e), level) && PaOf(e) < Pow2(52)
    ensures HasPa(KindOf(e)) ==> AlignedWord(ToWord(PaOf(e)), PaLevel(KindOf(e), level), f.lpa2)
    ensures e.AssignedNsEntry? ==> AttrsWord(f, AttrWord(e.attrs))
  {
    hide AlignedWord, AttrsWord, AttrWord, Aligned;
    PowerSizes();
    match e
    case UnassignedEntry(_) =>
    case UnassignedNsEntry =>
    case AssignedEntry(_, pa) => WordAligned(pa, level, f);
    case AssignedNsEntry(pa, attrs) =>
      WordAligned(pa, level, f);
      AttrWordOk(f, attrs);
    case TableEntry(pa) => WordAligned(pa, PAGE_LEVEL, f);
  }

  /** The word of an entry is accepted by the classifier of its kind and by no other, and
      gives back its address. */
  lemma PackedWord(f: Format, e: Entry, level: int, k: Kind)
    requires MIN_LEVEL <= level <= PAGE_LEVEL && ValidEntry(f, e, level)
    ensures IsKind(k, Pack(f, e, level), level) <==> k == KindOf(e)
    ensures e.Live() ==> EntryPa(f, Pack(f, e, level), level) == ToWord(e.pa)
    ensures e.AssignedNsEntry? ==> Pack(f, e, level) & NS_ATTR_MASK == AttrWord(e.attrs)
  {
    hide AlignedWord, AttrsWord, AttrWord, ValidEntry, Create, IsKind, EntryPa, ToWord;
    PackReady(f, e, level);
    CreatedWord(f, KindOf(e), level, ToWord(PaOf(e)), AttrWord(AttrsOf(e)), k);
  }

  /** s2tte_has_ripas and s2tte_has_pa on words. */
  predicate HasRipasWord(w: Word, level: int) { w & NS == 0 && !IsTable(w, level) }

  predicate HasPaWord(w: Word, level: int) {
    w & TYPE_MASK != 0 || IsAssigned(w, level, Empty) || IsAssigned(w, level, Destroyed)
  }

  /** On words of entries they tell whether the entry has a RIPAS and whether it is live. */
  lemma PackedPredicates(f: Format, e: Entry, level: int)
    requires MIN_LEVEL <= level <= PAGE_LEVEL && ValidEntry(f, e, level)
    ensures HasPaWord(Pack(f, e, level), level) <==> e.Live()
    ensures HasRipasWord(Pack(f, e, level), level) <==> e.HasRipas()
  {
    hide Pack, ValidEntry, IsKind, Clean, HasPaWord, HasRipasWord, Secure;
    PackedKind(f, e, level);
    WordPredicates(KindOf(e), Pack(f, e, level), level);
  }

  lemma PackedKind(f: Format, e: Entry, level: int)
    requires MIN_LEVEL <= level <= PAGE_LEVEL && ValidEntry(f, e, level)
    ensures var k, w := KindOf(e), Pack(f, e, level);
            IsKind(k, w, level) && Clean(k, w) && (k.AssignedKind? ==> Secure(w))
  {
    hide AlignedWord, AttrsWord, AttrWord, ValidEntry, EntryPa, ToWord, Create, IsKind, Clean, Secure;
    PackReady(f, e, level);
    var k, pa, attrs := KindOf(e), ToWord(PaOf(e)), AttrWord(AttrsOf(e));
    CreatedWord(f, k, level, pa, attrs, k);
    if HasPa(k) { MappingClean(k, Pack(f, e, level)); } else { CreatedUnassigned(f, k, level, pa, attrs); }
  }

  lemma WordPredicates(k: Kind, w: Word, level: int)
    requires IsKind(k, w, level) && Clean(k, w) && (k.AssignedKind? ==> Secure(w))
    ensures HasPaWord(w, level) <==> HasPa(k)
    ensures HasRipasWord(w, level) <==> k.UnassignedKind? || k.AssignedKind?
  {
    if IsKind(TableKind, w, level) { ExclusiveKinds(w, level, k, TableKind); }
    if IsKind(AssignedKind(Empty), w, level) { ExclusiveKinds(w, level, k, AssignedKind(Empty)); }
    if IsKind(AssignedKind(Destroyed), w, level) { ExclusiveKinds(w, level, k, AssignedKind(Destroyed)); }
  }

  /** Two entries of a level with the same word are the same entry: an operation that restores
      a decoded entry restores the exact 64-bit word, and comparing words compares entries. */
  lemma PackInjective(f: Format, e: Entry, e': Entry, level: int)
    requires MIN_LEVEL <= level <= PAGE_LEVEL && ValidEntry(f, e, level) && ValidEntry(f, e', level)
    requires Pack(f, e, level) == Pack(f, e', level)
    ensures e == e'
  {
    hide AlignedWord, AttrsWord, Create, IsKind, EntryPa, ToWord, AttrWord, Aligned, Pack;
    PackedWord(f, e, level, KindOf(e));
    PackedWord(f, e', level, KindOf(e));
    PackedWord(f, e', level, KindOf(e'));
    PackReady(f, e, level);
    PackReady(f, e', level);
    if e.Live() { WordInjective(e.pa, e'.pa); }
    if e.AssignedNsEntry? { AttrInjective(f, e.attrs, e'.attrs); }
  }

  lemma AttrInjective(f: Format, a: NsAttrs, b: NsAttrs)
    requires ValidAttrs(f, a) && ValidAttrs(f, b) && AttrWord(a) == AttrWord(b)
    ensures a == b
  {
    hide AttrWord, ToWord, AttrsWord;
    AttrWordOk(f, a);
    AttrWordOk(f, b);
    WordInjective(a.memattr, b.memattr);
    WordInjective(a.ap, b.ap);
  }

  // ------------------------------------------------------------ words that commands copy

  /** The bits of a descriptor that the host controls. */
  function HostMask(level: int, lpa2: bool): Word
    requires MIN_LEVEL <= level <= PAGE_LEVEL
  {
    LevelMask(level, lpa2) | NS_ATTR_MASK
  }

  /** A descriptor with no bits but the address of `level` and the host-controlled attributes. */
  predicate HostWordValid(w: Word, level: int, lpa2: bool)
    requires MIN_LEVEL <= level <= PAGE_LEVEL
  {
    w & !HostMask(level, lpa2) == 0
  }

  /** A valid host descriptor is an aligned address and attributes, and nothing else. */
  lemma HostWord(w: Word, level: int, lpa2: bool)
    requires MIN_BLOCK_LEVEL <= level <= PAGE_LEVEL && HostWordValid(w, level, lpa2)
    ensures AlignedWord(TteToPa(w, level, lpa2), level, lpa2)
    ensures w == (w & NS_ATTR_MASK) | PaToTte(TteToPa(w, level, lpa2), lpa2)
  {}

  /** RTT_FOLD hands the whole first entry of a non-secure table to the creator: the parent
      entry is the one that address and attributes alone would give. */
  lemma FoldedNsWord(f: Format, level: int, w: Word)
    requires MIN_BLOCK_LEVEL < level <= PAGE_LEVEL
    ensures CreateAssignedNs(f, CreateAssignedNs(f, w, level), level - 1) == CreateAssignedNs(f, w, level - 1)
  {
    hide NsTemplate, Absorbs, Retyped;
    TemplatePair(f, level);
    Absorb(w, NsTemplate(f, level), NsTemplate(f, level - 1));
  }

  /** Apart from the type, `u` has all bits of `t`. */
  predicate Absorbs(t: Word, u: Word) { t & !3 & !u == 0 }

  lemma TemplatePair(f: Format, level: int)
    ensures Absorbs(NsTemplate(f, level), NsTemplate(f, level - 1))
  {
    if f.fwb {
      if f.lpa2 {} else {}
    } else {
      if f.lpa2 {} else {}
    }
  }

  predicate Retypes(a: Word, w: Word, t: Word) { a == (w & !3) | t }

  lemma RetypedIs(w: Word, t: Word)
    ensures Retypes(Retyped(w, t), w, t)
  {}

  lemma AbsorbBits(w: Word, t: Word, u: Word, a: Word, b: Word, c: Word)
    requires Absorbs(t, u) && Retypes(a, w, t) && Retypes(b, a, u) && Retypes(c, w, u)
    ensures b == c
  {
    hide Absorbs;
    AbsorbMasked(w, t, u);
  }

  lemma AbsorbMasked(w: Word, t: Word, u: Word)
    requires Absorbs(t, u)
    ensures (((w & !3) | t) & !3) | u == (w & !3) | u
  {}

  lemma Absorb(w: Word, t: Word, u: Word)
    requires Absorbs(t, u)
    ensures Retyped(Retyped(w, t), u) == Retyped(w, u)
  {
    hide Retyped, Retypes, Absorbs;
    RetypedIs(w, t);
    RetypedIs(Retyped(w, t), u);
    RetypedIs(w, u);
    AbsorbBits(w, t, u, Retyped(w, t), Retyped(Retyped(w, t), u), Retyped(w, u));
  }
}
