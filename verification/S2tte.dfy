/** Stage 2 translation table entries in decoded form, and what they mean for the
    addresses they map. S2tteCodec relates them to the packed 64-bit words. */
module S2tte {
  import opened S2Geometry

  /** The entry format of a realm: with FEAT_LPA2 output addresses have 52 bits;
      builds without FEAT_S2FWB use another memory attribute encoding. */
  datatype Format = Format(lpa2: bool, fwb: bool)

  datatype Ripas = Empty | Ram | Destroyed

  /** The attributes of a non-secure mapping that the host controls. */
  datatype NsAttrs = NsAttrs(memattr: nat, ap: nat)

  const MEMATTR_RESERVED := 4
  const MEMATTR_MAX := 7

  /** The nine kinds of entry (three RIPAS values for each protected HIPAS). */
  datatype Entry =
    | UnassignedEntry(ripas: Ripas)
    | UnassignedNsEntry
    | AssignedEntry(ripas: Ripas, pa: Addr)
    | AssignedNsEntry(pa: Addr, attrs: NsAttrs)
    | TableEntry(pa: Addr)
  {
    /** The RTT holds a reference for the entry: tables and protected mappings,
        but not mappings of non-secure memory. */
    predicate Counted() { TableEntry? || AssignedEntry? }

    /** s2tte_is_live: the entry has a physical address. */
    predicate Live() { TableEntry? || AssignedEntry? || AssignedNsEntry? }

    predicate HasRipas() { UnassignedEntry? || AssignedEntry? }

    predicate Ns() { UnassignedNsEntry? || AssignedNsEntry? }
  }

  function OutputSize(f: Format): nat { if f.lpa2 then 0x10_0000_0000_0000 else 0x1_0000_0000_0000 }

  predicate ValidAttrs(f: Format, a: NsAttrs) {
    a.memattr <= MEMATTR_MAX && a.ap < 4 && (f.fwb || a.memattr == MEMATTR_MAX)
  }

  /** Mappings exist from level 1, with the alignment of their level; tables above
      the page level. */
  predicate ValidEntry(f: Format, e: Entry, level: int)
    requires MIN_LEVEL <= level <= PAGE_LEVEL
  {
    match e
    case UnassignedEntry(_) => true
    case UnassignedNsEntry => true
    case AssignedEntry(_, pa) => MIN_BLOCK_LEVEL <= level && Aligned(pa, level) && pa < OutputSize(f)
    case AssignedNsEntry(pa, attrs) =>
      MIN_BLOCK_LEVEL <= level && Aligned(pa, level) && pa < OutputSize(f) && ValidAttrs(f, attrs)
    case TableEntry(pa) => level < PAGE_LEVEL && Aligned(pa, PAGE_LEVEL) && pa < OutputSize(f)
  }

  /** What one address of a realm maps to: the flat view of the tables. */
  datatype Page =
    | Unassigned(ripas: Ripas)
    | Assigned(ripas: Ripas, pa: Addr)
    | UnassignedNs
    | AssignedNs(pa: Addr, attrs: NsAttrs)
    | NoPage

  /** What entry `e` of `level` means for address `ipa`. */
  function PageOf(e: Entry, level: int, ipa: Addr): Page
    requires MIN_LEVEL <= level <= PAGE_LEVEL
  {
    match e
    case UnassignedEntry(r) => Unassigned(r)
    case UnassignedNsEntry => UnassignedNs
    case AssignedEntry(r, pa) => Assigned(r, pa + ipa % Span(level))
    case AssignedNsEntry(pa, attrs) => AssignedNs(pa + ipa % Span(level), attrs)
    case TableEntry(_) => NoPage
  }

  /** Entry `k` of the `level` table that unfolds leaf `e` of `level - 1`. */
  function SubEntry(e: Entry, k: nat, level: int): Entry
    requires MIN_LEVEL < level <= PAGE_LEVEL
  {
    match e
    case AssignedEntry(r, pa) => AssignedEntry(r, pa + k * Span(level))
    case AssignedNsEntry(pa, attrs) => AssignedNsEntry(pa + k * Span(level), attrs)
    case _ => e
  }

  lemma SubEntryValid(f: Format, e: Entry, k: nat, level: int)
    requires MIN_LEVEL < level <= PAGE_LEVEL && k < ENTRIES
    requires !e.TableEntry? && ValidEntry(f, e, level - 1)
    ensures ValidEntry(f, SubEntry(e, k, level), level) && !SubEntry(e, k, level).TableEntry?
  {
    if e.AssignedEntry? || e.AssignedNsEntry? {
      SubAligned(e.pa, k, level);
      BlockFits(f, e.pa, level - 1);
      hide Span, OutputSize, Aligned;
    }
  }

  lemma SubAligned(pa: Addr, k: nat, level: int)
    requires MIN_LEVEL < level <= PAGE_LEVEL && k < ENTRIES && Aligned(pa, level - 1)
    ensures Aligned(pa + k * Span(level), level) && pa + k * Span(level) < pa + Span(level - 1)
  {
    var s := Span(level);
    SpanStep(level);
    DivMod(pa, s, ENTRIES);
    DivUnique(pa + k * s, s, pa / s + k, 0);
    MulLe(k + 1, ENTRIES, s);
  }

  /** A block that starts in the output address space ends there. */
  lemma BlockFits(f: Format, pa: Addr, level: int)
    requires MIN_BLOCK_LEVEL <= level <= PAGE_LEVEL && Aligned(pa, level) && pa < OutputSize(f)
    ensures pa + Span(level) <= OutputSize(f)
  {
    if level == 1 {} else if level == 2 {} else {}
  }

  /** Unfolding keeps the meaning of every address of the range. */
  lemma SubEntryPage(e: Entry, ipa: Addr, level: int)
    requires MIN_LEVEL < level <= PAGE_LEVEL && !e.TableEntry?
    ensures PageOf(SubEntry(e, Idx(ipa, level), level), level, ipa) == PageOf(e, level - 1, ipa)
  {
    SpanStep(level);
    DivMod(ipa, Span(level), ENTRIES);
  }
}
