/** Loops over one table: the initialisers, the uniformity tests of RTT_FOLD, and the scan
    for live entries. */
module TableScans {
  import opened S2Geometry
  import opened S2tte
  import opened RealmGeometry
  import opened Rtt
  import opened RttSteps
  import opened RttCommands
  import opened RipasCommands

  /** Fills a table with the same unassigned entry. */
  method InitUniform(e: Entry) returns (es: seq<Entry>)
    ensures |es| == ENTRIES && forall k | 0 <= k < ENTRIES :: es[k] == e
  {
    es := [];
    while |es| < ENTRIES
      invariant |es| <= ENTRIES && forall k | 0 <= k < |es| :: es[k] == e
    {
      es := es + [e];
    }
  }

  /** Fills a table of `level` with the mappings of a contiguous block that starts at `e.pa`. */
  method InitMapped(e: Entry, level: int) returns (es: seq<Entry>)
    requires MIN_LEVEL < level <= PAGE_LEVEL && (e.AssignedEntry? || e.AssignedNsEntry?)
    ensures es == Unfold(e, level)
  {
    es := [];
    var pa := e.pa;
    while |es| < ENTRIES
      invariant |es| <= ENTRIES && pa == e.pa + |es| * Span(level)
      invariant forall k | 0 <= k < |es| :: es[k] == SubEntry(e, k, level)
    {
      es := es + [if e.AssignedEntry? then AssignedEntry(e.ripas, pa) else AssignedNsEntry(pa, e.attrs)];
      pa := pa + Span(level);
    }
  }

  lemma UniformUnfold(e: Entry, es: seq<Entry>, level: int)
    requires MIN_LEVEL < level <= PAGE_LEVEL && (e.UnassignedEntry? || e.UnassignedNsEntry?)
    requires |es| == ENTRIES
    ensures es == Unfold(e, level) <==> forall k | 0 <= k < ENTRIES :: es[k] == e
  {}

  /** table_is_uniform_block: every entry is the unassigned entry `e`. */
  method IsUniformBlock(es: seq<Entry>, e: Entry) returns (yes: bool)
    requires |es| == ENTRIES
    ensures yes <==> forall k | 0 <= k < ENTRIES :: es[k] == e
  {
    var i := 0;
    while i < ENTRIES
      invariant 0 <= i <= ENTRIES && forall k | 0 <= k < i :: es[k] == e
    {
      if es[i] != e { return false; }
      i := i + 1;
    }
    return true;
  }

  /** The kinds of mapping that table_maps_block looks for. */
  datatype MapKind = MapsProtected(ripas: Ripas) | MapsNs

  predicate IsKind(k: MapKind, e: Entry) {
    if k.MapsNs? then e.AssignedNsEntry? else e.AssignedEntry? && e.ripas == k.ripas
  }

  lemma MapsEntry(kind: MapKind, first: Entry, e: Entry, i: nat, level: int)
    requires MIN_LEVEL < level <= PAGE_LEVEL && IsKind(kind, first)
    ensures IsKind(kind, e) ==> (e.AssignedEntry? || e.AssignedNsEntry?) && (kind.MapsNs? ==> e.AssignedNsEntry?)
    ensures first.AssignedEntry? || first.AssignedNsEntry?
    ensures kind.MapsNs? ==> first.AssignedNsEntry?
    ensures e == SubEntry(first, i, level) <==>
              IsKind(kind, e) && e.pa == first.pa + i * Span(level) && (kind.MapsNs? ==> e.attrs == first.attrs)
  {}

  /** table_maps_block: the entries map a contiguous block with the alignment of the parent
      level, non-secure ones with equal attributes. */
  method MapsBlock(f: Format, es: seq<Entry>, level: int, kind: MapKind) returns (yes: bool)
    requires |es| == ENTRIES && MIN_LEVEL < level <= PAGE_LEVEL
    ensures yes <==>
              && IsKind(kind, es[0]) && Aligned(es[0].pa, level - 1) && es[0].pa < OutputSize(f)
              && es == Unfold(es[0], level)
  {
    hide SubEntry, Span, Aligned, IsKind, OutputSize, Unfold;
    UnfoldEntries(es[0], es, level);
    if !IsKind(kind, es[0]) { return false; }
    MapsEntry(kind, es[0], es[0], 0, level);
    var base := es[0].pa;
    if !Aligned(base, level - 1) || base >= OutputSize(f) { return false; }
    var i := 1;
    while i < ENTRIES
      invariant 1 <= i <= ENTRIES && forall k | 0 <= k < i :: es[k] == SubEntry(es[0], k, level)
    {
      MapsEntry(kind, es[0], es[i], i, level);
      if !IsKind(kind, es[i]) { return false; }
      if es[i].pa != base + i * Span(level) { return false; }
      if kind.MapsNs? && es[i].attrs != es[0].attrs { return false; }
      i := i + 1;
    }
    return true;
  }

  lemma UnfoldEntries(e: Entry, es: seq<Entry>, level: int)
    requires MIN_LEVEL < level <= PAGE_LEVEL && |es| == ENTRIES
    ensures es == Unfold(e, level) <==> forall k | 0 <= k < ENTRIES :: es[k] == SubEntry(e, k, level)
  {}

  /** s2tt_skip_non_live_entries. */
  method SkipNonLiveEntries(es: seq<Entry>, index: nat, level: int, addr: Addr) returns (next: Addr)
    requires MIN_LEVEL <= level <= PAGE_LEVEL && index < |es|
    ensures next == SkipNonLive(es, index, level, addr)
  {
    if es[index].Live() { return addr; }
    var base := addr / Span(level) * Span(level);
    var i := index + 1;
    while i < |es|
      invariant index < i <= |es| && FirstLive(es, index + 1) == FirstLive(es, i)
    {
      if es[i].Live() { break; }
      i := i + 1;
    }
    next := base + (i - index) * Span(level);
  }

  // ------------------------------------------------------------ RIPAS of one entry

  /** update_ripas, case by case: it sets the RIPAS of any entry that has one, except that
      DESTROYED is changed only if the realm allows it. */
  method UpdateRipas(e: Entry, ripas: Ripas, changeDestroyed: bool) returns (r: Option<Entry>)
    requires !ripas.Destroyed?
    ensures r.Some? <==> (e.UnassignedEntry? || e.AssignedEntry?) && (e.ripas.Destroyed? ==> changeDestroyed)
    ensures r.Some? ==> r.value == e.(ripas := ripas)
    ensures r == Apply(SetOp(ripas, changeDestroyed), e)
  {
    if !e.HasRipas() { return None; }
    if ripas.Ram? {
      if e == UnassignedEntry(Empty) { return Some(UnassignedEntry(Ram)); }
      if e == UnassignedEntry(Destroyed) {
        if changeDestroyed { return Some(UnassignedEntry(Ram)); }
        return None;
      }
      if e.AssignedEntry? && e.ripas.Empty? { return Some(AssignedEntry(Ram, e.pa)); }
      if e.AssignedEntry? && e.ripas.Destroyed? {
        if changeDestroyed { return Some(AssignedEntry(Ram, e.pa)); }
        return None;
      }
    } else {
      if e == UnassignedEntry(Ram) { return Some(UnassignedEntry(Empty)); }
      if e == UnassignedEntry(Destroyed) {
        if changeDestroyed { return Some(UnassignedEntry(Empty)); }
        return None;
      }
      if e.AssignedEntry? && e.ripas.Ram? { return Some(AssignedEntry(Empty, e.pa)); }
      if e.AssignedEntry? && e.ripas.Destroyed? {
        if changeDestroyed { return Some(AssignedEntry(Empty, e.pa)); }
        return None;
      }
    }
    assert e.ripas == ripas by {
      match e.ripas { case Empty => case Ram => case Destroyed => }
    }
    return Some(e);
  }

  // ------------------------------------------------------------ the fold decision

  /** What RTT_FOLD makes of a table: the entry to fold into, or the level to report. */
  datatype FoldResult = Fold(leaf: Entry) | NoFold(level: int)

  function FoldDecision(f: Format, es: seq<Entry>, level: int): FoldResult
    requires MIN_LEVEL < level <= PAGE_LEVEL && |es| == ENTRIES
  {
    match FoldEntry(f, es, level)
    case Some(leaf) => Fold(leaf)
    case None => NoFold(if level <= MIN_BLOCK_LEVEL && (Count(es) == ENTRIES || NsBlock(es, level)) then level - 1
        else level)
  }

  /** With a reference count of 0, the first unassigned kind that fills the table, or a
      block of non-secure memory. */
  method FoldUnreferenced(f: Format, es: seq<Entry>, level: int) returns (r: FoldResult)
    requires MIN_LEVEL < level <= PAGE_LEVEL && |es| == ENTRIES && Count(es) == 0
    requires forall k | 0 <= k < ENTRIES :: ValidEntry(f, es[k], level)
    ensures r == FoldDecision(f, es, level)
  {
    CountBounds(es);
    assert !es[0].Counted();
    UniformUnfold(UnassignedEntry(Destroyed), es, level);
    UniformUnfold(UnassignedEntry(Empty), es, level);
    UniformUnfold(UnassignedEntry(Ram), es, level);
    UniformUnfold(UnassignedNsEntry, es, level);
    hide Unfold, Count, Span, Aligned;
    var yes := IsUniformBlock(es, UnassignedEntry(Destroyed));
    if yes { return Fold(UnassignedEntry(Destroyed)); }
    yes := IsUniformBlock(es, UnassignedEntry(Empty));
    if yes { return Fold(UnassignedEntry(Empty)); }
    yes := IsUniformBlock(es, UnassignedEntry(Ram));
    if yes { return Fold(UnassignedEntry(Ram)); }
    yes := IsUniformBlock(es, UnassignedNsEntry);
    if yes { return Fold(UnassignedNsEntry); }
    assert !es[0].AssignedNsEntry? ==> es != Unfold(es[0], level) by {
      match es[0]
      case UnassignedEntry(r) =>
        match r { case Destroyed => case Empty => case Ram => }
      case _ =>
    }
    assert ValidEntry(f, es[0], level);
    yes := MapsBlock(f, es, level, MapsNs);
    if yes {
      if level <= MIN_BLOCK_LEVEL { return NoFold(level - 1); }
      return Fold(es[0]);
    }
    return NoFold(level);
  }

  /** With a reference count of 512, a block of protected memory with one RIPAS. */
  method FoldFull(f: Format, es: seq<Entry>, level: int) returns (r: FoldResult)
    requires MIN_LEVEL < level <= PAGE_LEVEL && |es| == ENTRIES && Count(es) == ENTRIES
    requires forall k | 0 <= k < ENTRIES :: ValidEntry(f, es[k], level)
    ensures r == FoldDecision(f, es, level)
  {
    CountBounds(es);
    assert es[0].Counted();
    hide Unfold, Count, Span, Aligned;
    if level <= MIN_BLOCK_LEVEL { return NoFold(level - 1); }
    var yes := MapsBlock(f, es, level, MapsProtected(Empty));
    if yes { return Fold(AssignedEntry(Empty, es[0].pa)); }
    yes := MapsBlock(f, es, level, MapsProtected(Ram));
    if yes { return Fold(AssignedEntry(Ram, es[0].pa)); }
    yes := MapsBlock(f, es, level, MapsProtected(Destroyed));
    if yes { return Fold(AssignedEntry(Destroyed, es[0].pa)); }
    return NoFold(level);
  }

  /** A table with any other reference count mixes entries and cannot be folded. */
  lemma MixedCannotFold(f: Format, es: seq<Entry>, level: int)
    requires MIN_LEVEL < level <= PAGE_LEVEL && |es| == ENTRIES && 0 < Count(es) < ENTRIES
    ensures FoldDecision(f, es, level) == NoFold(level)
  {
    CountBounds(es);
    if es == Unfold(es[0], level) {
      UnfoldCount(es[0], es, level);
      assert false;
    }
  }

  /** An unfolded leaf is counted everywhere or nowhere. */
  lemma UnfoldCount(e: Entry, es: seq<Entry>, level: int)
    requires MIN_LEVEL < level <= PAGE_LEVEL && es == Unfold(e, level)
    ensures Count(es) == if e.Counted() then ENTRIES else 0
  {
    CountBounds(es);
    assert forall k | 0 <= k < ENTRIES :: es[k] == SubEntry(e, k, level);
  }

  /** RTT_FOLD decides by the reference count which tests to make at all: that is the same
      as looking for a leaf whose unfolding the table is. */
  method DecideFold(f: Format, es: seq<Entry>, refcount: nat, level: int) returns (r: FoldResult)
    requires MIN_LEVEL < level <= PAGE_LEVEL && |es| == ENTRIES && refcount == Count(es)
    requires forall k | 0 <= k < ENTRIES :: ValidEntry(f, es[k], level)
    ensures r == FoldDecision(f, es, level)
  {
    if refcount == 0 {
      r := FoldUnreferenced(f, es, level);
    } else if refcount == ENTRIES {
      r := FoldFull(f, es, level);
    } else {
      CountBounds(es);
      MixedCannotFold(f, es, level);
      r := NoFold(level);
    }
  }
}
