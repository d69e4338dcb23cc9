/** What the words of mappings tell the hardware: access, memory type, shareability, execution and
    security state, in the bits of a stage 2 descriptor. */
module S2tteBits {
  import opened S2Geometry
  import opened S2tte
  import opened RealmGeometry
  import opened S2tteCodec

  /** `w` has all bits of `mask`. */
  predicate Set(w: Word, mask: Word) { w & mask == mask }

  /** `w` agrees with `bits` in the field `mask`. */
  predicate Field(w: Word, mask: Word, bits: Word) { w & mask == bits }

  lemma SetBelow(a: Word, t: Word, mask: Word)
    requires Set(t, mask)
    ensures Set(With(a, t), mask)
  {}

  /** The fields that no output address reaches are those of the template. */
  lemma FieldBelow(a: Word, t: Word, mask: Word, bits: Word)
    requires OnlyAddress(a) && mask & 0xFF3F_FFFF_FFFF_FB00 == 0 && Field(t, mask, bits)
    ensures Field(With(a, t), mask, bits)
  {}

  lemma RamTemplateBits(f: Format, level: int)
    ensures Field(RamTemplate(f, level), 0x400, 0x400) && Field(RamTemplate(f, level), 0xC0, 0xC0)
    ensures Field(RamTemplate(f, level), 0x3C, if f.fwb then 0x18 else 0x3C)
    ensures Field(RamTemplate(f, level), 0x40_0000_0000_0000, 0) && Field(RamTemplate(f, level), 0x80_0000_0000_0000, 0)
    ensures !f.lpa2 ==> Set(RamTemplate(f, level), 0x300)
  {
    if f.lpa2 {
      if f.fwb {} else {}
    } else {
      if f.fwb {} else {}
    }
  }

  /** A protected mapping that is RAM may be read and written (bits 7:6), has its access flag set
      (bit 10), is write-back memory (bits 5:2), inner shareable where these bits are not part of the
      address (bits 9:8), may be executed (bit 54 clear), and is not non-secure (bit 55 clear). */
  lemma RamWord(f: Format, pa: Addr, level: int)
    requires MIN_LEVEL <= level <= PAGE_LEVEL && ValidEntry(f, AssignedEntry(Ram, pa), level)
    ensures var w := Pack(f, AssignedEntry(Ram, pa), level);
            && Field(w, 0x400, 0x400) && Field(w, 0xC0, 0xC0) && Field(w, 0x3C, if f.fwb then 0x18 else 0x3C)
            && Field(w, 0x40_0000_0000_0000, 0) && Field(w, 0x80_0000_0000_0000, 0)
            && (!f.lpa2 ==> Set(w, 0x300))
  {
    var a, t := PaToTte(ToWord(pa), f.lpa2), RamTemplate(f, level);
    hide AlignedWord, ToWord, PaToTte, RamTemplate, OnlyAddress, Field, Set, ValidEntry, With;
    PackReady(f, AssignedEntry(Ram, pa), level);
    NoBitsNoAddress(f.lpa2);
    PaRoundTrip(ToWord(pa), level, f.lpa2, 0);
    RamTemplateBits(f, level);
    assert Pack(f, AssignedEntry(Ram, pa), level) == With(a, t);
    FieldBelow(a, t, 0x400, 0x400);
    FieldBelow(a, t, 0xC0, 0xC0);
    FieldBelow(a, t, 0x3C, if f.fwb then 0x18 else 0x3C);
    FieldBelow(a, t, 0x40_0000_0000_0000, 0);
    FieldBelow(a, t, 0x80_0000_0000_0000, 0);
    if !f.lpa2 { SetBelow(a, t, 0x300); }
  }

  lemma NsTemplateBits(f: Format, level: int)
    ensures Set(NsTemplate(f, level), 0xC0_0000_0000_0400) && (!f.lpa2 ==> Set(NsTemplate(f, level), 0x300))
    ensures !f.fwb ==> Set(NsTemplate(f, level), 0x3C)
  {
    if f.lpa2 {
      if f.fwb {} else {}
    } else {
      if f.fwb {} else {}
    }
  }

  lemma RetypedSet(w: Word, t: Word, mask: Word)
    requires Set(t, mask)
    ensures Set(Retyped(w, t), mask)
  {
    SetBelow(Untyped(w), t, mask);
    hide Set;
  }

  /** A non-secure mapping has its access flag set (bit 10), is non-secure (bit 55) and must not be
      executed (bit 54), whatever the host asked for; it is inner shareable where bits 9:8 are not
      part of the address, and write-back memory where the host has no say in that. */
  lemma NsWordBits(f: Format, w: Word, level: int)
    ensures var q := CreateAssignedNs(f, w, level);
            && Set(q, 0xC0_0000_0000_0400) && (!f.lpa2 ==> Set(q, 0x300)) && (!f.fwb ==> Set(q, 0x3C))
  {
    hide Set, NsTemplate, Retyped;
    NsTemplateBits(f, level);
    RetypedSet(w, NsTemplate(f, level), 0xC0_0000_0000_0400);
    if !f.lpa2 { RetypedSet(w, NsTemplate(f, level), 0x300); }
    if !f.fwb { RetypedSet(w, NsTemplate(f, level), 0x3C); }
  }
}
