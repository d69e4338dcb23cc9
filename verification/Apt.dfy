/** The table of a realm's shared memory regions: packed sets of enabled regions beside bit
    masks, disjoint ranges, and shares with their count, over every sequence of CSM calls. */
module Apt {
  import Registries

  const REGIONS := 20
  const SHARES := 3
  const WORD: nat := 0x1_0000_0000_0000_0000

  // ------------------------------------------------------------ enabled sets

  /** A set of region indices: `index` lists them in its first `len` places, `pos` tells the
      place of each, and `mask` is the bit mask, as the set of its bits. */
  datatype Packed = Packed(len: nat, index: seq<nat>, pos: seq<nat>, mask: set<nat>)

  ghost predicate PackedOk(s: Packed) {
    && |s.index| == |s.pos| == REGIONS && s.len <= REGIONS
    && (forall p | 0 <= p < s.len :: s.index[p] < REGIONS && s.pos[s.index[p]] == p && s.index[p] in s.mask)
    && (forall i | i in s.mask :: i < REGIONS && s.pos[i] < s.len && s.index[s.pos[i]] == i)
  }

  const NONE := Packed(0, seq(REGIONS, i => 0), seq(REGIONS, i => 0), {})

  function Push(s: Packed, i: nat): Packed
    requires |s.index| == |s.pos| == REGIONS && i < REGIONS && s.len < REGIONS
  {
    Packed(s.len + 1, s.index[s.len := i], s.pos[i := s.len], s.mask + {i})
  }

  predicate CanPop(s: Packed, i: nat) {
    |s.index| == |s.pos| == REGIONS && i < REGIONS && s.pos[i] < s.len <= REGIONS && s.index[s.len - 1] < REGIONS
  }

  /** The last place moves to the place of the region that leaves. */
  function SwapPop(s: Packed, i: nat): Packed
    requires CanPop(s, i)
  {
    var p, last := s.pos[i], s.len - 1;
    if p != last then Packed(last, s.index[p := s.index[last]], s.pos[s.index[last] := p], s.mask - {i})
    else Packed(last, s.index, s.pos, s.mask - {i})
  }

  /** There is room for a region that is not in the set. */
  lemma RoomToPush(s: Packed, i: nat)
    requires PackedOk(s) && i < REGIONS && i !in s.mask
    ensures s.len < REGIONS
  {
    var others := Under(REGIONS) - {i};
    var all := s.index[..s.len];
    forall k: nat ensures k in Under(REGIONS) <==> k < REGIONS { UnderSize(REGIONS, k); }
    forall p, q | 0 <= p < q < s.len ensures all[p] != all[q] {
      assert s.pos[s.index[p]] == p && s.pos[s.index[q]] == q;
    }
    Registries.DistinctFit(all, others);
    UnderSize(REGIONS, i);
  }

  /** The numbers below `n`. */
  function Under(n: nat): set<nat> { if n == 0 then {} else Under(n - 1) + {n - 1} }

  lemma {:induction false} UnderSize(n: nat, k: nat)
    ensures |Under(n)| == n && (k in Under(n) <==> k < n)
  {
    if n > 0 {
      UnderSize(n - 1, k);
      UnderSize(n - 1, n - 1);
    }
  }

  lemma PushOk(s: Packed, i: nat)
    requires PackedOk(s) && i < REGIONS && i !in s.mask
    ensures s.len < REGIONS && PackedOk(Push(s, i)) && Push(s, i).mask == s.mask + {i}
  {
    RoomToPush(s, i);
  }

  lemma SwapPopOk(s: Packed, i: nat)
    requires PackedOk(s) && i in s.mask
    ensures CanPop(s, i)
    ensures PackedOk(SwapPop(s, i)) && SwapPop(s, i).mask == s.mask - {i}
  {
    var q := SwapPop(s, i);
    forall p | 0 <= p < q.len ensures q.index[p] < REGIONS && q.pos[q.index[p]] == p && q.index[p] in q.mask {
      assert s.pos[s.index[p]] == p;
    }
    forall j | j in q.mask ensures j < REGIONS && q.pos[j] < q.len && q.index[q.pos[j]] == j {
      assert s.index[s.pos[j]] == j;
    }
  }

  // ------------------------------------------------------------ ranges

  type Word = x: nat | x < WORD

  datatype Range = Range(start: Word, size: Word)

  /** Whether two ranges share an address; a range that wraps around counts as sharing. */
  predicate Overlaps(a: Range, b: Range) {
    && a.size != 0 && b.size != 0
    && (|| a.start + a.size >= WORD || b.start + b.size >= WORD
        || (a.start + a.size > b.start && b.start + b.size > a.start))
  }

  /** range_overlaps_ul, in 64-bit arithmetic. */
  method RangeOverlaps(a: Range, b: Range) returns (yes: bool)
    ensures yes == Overlaps(a, b)
  {
    if a.size == 0 || b.size == 0 { return false; }
    var aEnd, bEnd := (a.start + a.size) % WORD, (b.start + b.size) % WORD;
    if aEnd < a.start || bEnd < b.start { return true; }
    return !(aEnd <= b.start || bEnd <= a.start);
  }

  lemma DisjointRanges(a: Range, b: Range, x: nat)
    requires !Overlaps(a, b)
    ensures !(a.start <= x < a.start + a.size && b.start <= x < b.start + b.size)
    ensures !Overlaps(b, a)
  {}

  // ------------------------------------------------------------ regions

  datatype Share = Share(slave: nat, rd: nat, permission: nat, inUse: bool)

  const NO_SHARE := Share(0, 0, 0, false)

  datatype Master = Master(region: nat, range: Range, shareCount: nat, shares: seq<Share>)

  datatype Slave = Slave(master: nat, region: nat, masterRd: nat, range: Range)

  function SharesInUse(s: seq<Share>): nat {
    if s == [] then 0 else SharesInUse(s[..|s| - 1]) + if s[|s| - 1].inUse then 1 else 0
  }

  /** The count is that of the shares in use, which are with different realms. */
  ghost predicate MasterOk(m: Master) {
    && |m.shares| == SHARES && m.shareCount == SharesInUse(m.shares)
    && (forall i, j | 0 <= i < j < SHARES && m.shares[i].inUse && m.shares[j].inUse ::
          m.shares[i].slave != m.shares[j].slave)
  }

  lemma {:induction false} SharesUpdate(s: seq<Share>, k: nat, x: Share)
    requires k < |s|
    ensures SharesInUse(s[k := x]) == SharesInUse(s) - (if s[k].inUse then 1 else 0) + (if x.inUse then 1 else 0)
  {
    var n := |s| - 1;
    if k == n {
      assert s[k := x][..n] == s[..n];
    } else {
      SharesUpdate(s[..n], k, x);
      assert s[k := x][..n] == s[..n][k := x];
    }
  }

  lemma {:induction false} SharesBound(s: seq<Share>)
    ensures SharesInUse(s) <= |s|
    ensures SharesInUse(s) == 0 <==> forall i | 0 <= i < |s| :: !s[i].inUse
  {
    if s != [] {
      var n := |s| - 1;
      SharesBound(s[..n]);
      if SharesInUse(s) == 0 {
        forall i | 0 <= i < |s| ensures !s[i].inUse { if i < n { assert s[..n][i] == s[i]; } }
      }
      if forall i | 0 <= i < |s| :: !s[i].inUse {
        forall i | 0 <= i < n ensures !s[..n][i].inUse { assert s[..n][i] == s[i]; }
      }
    }
  }

  /** The table; `masterUsed` and `slaveUsed` are the bit masks of used slots. */
  datatype Table = Table(
    masters: seq<Master>, slaves: seq<Slave>, masterOn: Packed, slaveOn: Packed,
    masterUsed: set<nat>, slaveUsed: set<nat>)

  ghost predicate Sized(t: Table) {
    && |t.masters| == |t.slaves| == REGIONS
    && (forall i | i in t.masterUsed :: i < REGIONS) && (forall i | i in t.slaveUsed :: i < REGIONS)
  }

  /** Enabled regions are used ones. */
  ghost predicate Enabled(t: Table) {
    && PackedOk(t.masterOn) && t.masterOn.mask <= t.masterUsed
    && PackedOk(t.slaveOn) && t.slaveOn.mask <= t.slaveUsed
  }

  /** No enabled slave region overlaps another one or an enabled master region. */
  ghost predicate Apart(t: Table)
    requires Sized(t) && Enabled(t)
  {
    && (forall i, j | i in t.slaveOn.mask && j in t.slaveOn.mask && i != j ::
          !Overlaps(t.slaves[i].range, t.slaves[j].range))
    && (forall i, j | i in t.slaveOn.mask && j in t.masterOn.mask :: !Overlaps(t.slaves[i].range, t.masters[j].range))
  }

  ghost predicate TableInv(t: Table) {
    Sized(t) && Enabled(t) && Apart(t) && forall i | i in t.masterUsed :: MasterOk(t.masters[i])
  }

  const NEW_TABLE := Table(seq(REGIONS, i => Master(0, Range(0, 0), 0, seq(SHARES, k => NO_SHARE))),
                           seq(REGIONS, i => Slave(0, 0, 0, Range(0, 0))), NONE, NONE, {}, {})

  // ------------------------------------------------------------ CSM calls

  /** The lowest index that is not in use. */
  function FirstFree(used: set<nat>, i: nat): (k: nat)
    requires i <= REGIONS
    ensures i <= k <= REGIONS && (forall j | i <= j < k :: j in used) && (k < REGIONS ==> k !in used)
    decreases REGIONS - i
  {
    if i == REGIONS || i !in used then i else FirstFree(used, i + 1)
  }

  /** Whether the range conflicts with an enabled region; masters may be left out. */
  ghost predicate Conflict(t: Table, r: Range, skipMasters: bool)
    requires Sized(t) && Enabled(t)
  {
    || (!skipMasters && exists j :: j in t.masterOn.mask && Overlaps(r, t.masters[j].range))
    || exists j :: j in t.slaveOn.mask && Overlaps(r, t.slaves[j].range)
  }

  function AddMaster(t: Table, region: nat, r: Range): Table
    requires |t.masters| == REGIONS && |t.masterOn.index| == |t.masterOn.pos| == REGIONS && t.masterOn.len < REGIONS
    requires FirstFree(t.masterUsed, 0) < REGIONS
  {
    var i := FirstFree(t.masterUsed, 0);
    t.(masters := t.masters[i := Master(region, r, 0, seq(SHARES, k => NO_SHARE))],
       masterUsed := t.masterUsed + {i}, masterOn := Push(t.masterOn, i))
  }

  function AddSlave(t: Table, s: Slave): Table
    requires |t.slaves| == REGIONS && |t.slaveOn.index| == |t.slaveOn.pos| == REGIONS && t.slaveOn.len < REGIONS
    requires FirstFree(t.slaveUsed, 0) < REGIONS
  {
    var i := FirstFree(t.slaveUsed, 0);
    t.(slaves := t.slaves[i := s], slaveUsed := t.slaveUsed + {i}, slaveOn := Push(t.slaveOn, i))
  }

  lemma NoShares()
    ensures MasterOk(Master(0, Range(0, 0), 0, seq(SHARES, k => NO_SHARE)))
  {
    SharesBound(seq(SHARES, k => NO_SHARE));
  }

  lemma FreeMaster(t: Table)
    requires TableInv(t) && FirstFree(t.masterUsed, 0) < REGIONS
    ensures t.masterOn.len < REGIONS && FirstFree(t.masterUsed, 0) !in t.masterOn.mask
  {
    RoomToPush(t.masterOn, FirstFree(t.masterUsed, 0));
  }

  /** CSM_CREATE looks at enabled slave regions only. */
  lemma AddMasterInv(t: Table, region: nat, r: Range)
    requires TableInv(t) && FirstFree(t.masterUsed, 0) < REGIONS && !Conflict(t, r, true)
    ensures t.masterOn.len < REGIONS && TableInv(AddMaster(t, region, r))
  {
    FreeMaster(t);
    var i := FirstFree(t.masterUsed, 0);
    PushOk(t.masterOn, i);
    NoShares();
    var q := AddMaster(t, region, r);
    hide Push, PackedOk, Overlaps;
    assert MasterOk(q.masters[i]);
    forall a, b | a in q.slaveOn.mask && b in q.masterOn.mask ensures !Overlaps(q.slaves[a].range, q.masters[b].range) {
      if b == i { OverlapsSym(r, t.slaves[a].range); }
    }
  }

  lemma OverlapsSym(a: Range, b: Range)
    ensures Overlaps(a, b) == Overlaps(b, a)
  {}

  lemma FreeSlave(t: Table)
    requires TableInv(t) && FirstFree(t.slaveUsed, 0) < REGIONS
    ensures t.slaveOn.len < REGIONS && FirstFree(t.slaveUsed, 0) !in t.slaveOn.mask
  {
    RoomToPush(t.slaveOn, FirstFree(t.slaveUsed, 0));
  }

  /** CSM_RESERVE looks at all enabled regions. */
  lemma AddSlaveInv(t: Table, s: Slave)
    requires TableInv(t) && FirstFree(t.slaveUsed, 0) < REGIONS && !Conflict(t, s.range, false)
    ensures t.slaveOn.len < REGIONS && TableInv(AddSlave(t, s))
  {
    FreeSlave(t);
    var i := FirstFree(t.slaveUsed, 0);
    PushOk(t.slaveOn, i);
    var q := AddSlave(t, s);
    hide Push, PackedOk, Overlaps, MasterOk;
    forall a, b | a in q.slaveOn.mask && b in q.slaveOn.mask && a != b
      ensures !Overlaps(q.slaves[a].range, q.slaves[b].range)
    {
      if b == i { OverlapsSym(s.range, t.slaves[a].range); }
    }
  }

  // ------------------------------------------------------------ the calls as functions

  datatype CallStatus = Ok | InputError | StateError

  predicate ValidRange(r: Range) { r.size != 0 && r.start % 0x1000 == 0 && r.size % 0x1000 == 0 }

  /** CSM_CREATE; `region` is the identifier that the registry gave, or 0 if it had none left. */
  ghost function CsmCreate(t: Table, region: nat, r: Range): (Table, CallStatus)
    requires TableInv(t)
  {
    if !ValidRange(r) || Conflict(t, r, true) then (t, InputError)
    else if region == 0 || FirstFree(t.masterUsed, 0) == REGIONS then (t, StateError)
    else
      FreeMaster(t);
      (AddMaster(t, region, r), Ok)
  }

  /** The lowest used master region with the identifier, or the number of regions. */
  function FindMaster(t: Table, region: nat, i: nat): (k: nat)
    requires i <= REGIONS && |t.masters| == REGIONS
    ensures i <= k <= REGIONS && (k < REGIONS ==> k in t.masterUsed && t.masters[k].region == region)
    ensures forall j | i <= j < k :: !(j in t.masterUsed && t.masters[j].region == region)
    decreases REGIONS - i
  {
    if i == REGIONS || (i in t.masterUsed && t.masters[i].region == region) then i else FindMaster(t, region, i + 1)
  }

  function FindSlave(t: Table, region: nat, i: nat): (k: nat)
    requires i <= REGIONS && |t.slaves| == REGIONS
    ensures i <= k <= REGIONS && (k < REGIONS ==> k in t.slaveUsed && t.slaves[k].region == region)
    ensures forall j | i <= j < k :: !(j in t.slaveUsed && t.slaves[j].region == region)
    decreases REGIONS - i
  {
    if i == REGIONS || (i in t.slaveUsed && t.slaves[i].region == region) then i else FindSlave(t, region, i + 1)
  }

  function FindShare(s: seq<Share>, slave: nat, i: nat): (k: nat)
    requires i <= |s|
    ensures i <= k <= |s| && (k < |s| ==> s[k].inUse && s[k].slave == slave)
    ensures forall j | i <= j < k :: !(s[j].inUse && s[j].slave == slave)
    decreases |s| - i
  {
    if i == |s| || (s[i].inUse && s[i].slave == slave) then i else FindShare(s, slave, i + 1)
  }

  function FindUnshared(s: seq<Share>, i: nat): (k: nat)
    requires i <= |s|
    ensures i <= k <= |s| && (k < |s| ==> !s[k].inUse) && forall j | i <= j < k :: s[j].inUse
    decreases |s| - i
  {
    if i == |s| || !s[i].inUse then i else FindUnshared(s, i + 1)
  }

  /** A share slot of a region changes, and its count with it. */
  function SetShare(m: Master, k: nat, x: Share, count: nat): Master
    requires k < |m.shares|
  {
    m.(shares := m.shares[k := x], shareCount := count)
  }

  /** CSM_SHARE with realm `slave`. */
  ghost function CsmShare(t: Table, region: nat, slave: nat, rd: nat, permission: nat): (Table, CallStatus)
    requires TableInv(t)
  {
    var i := FindMaster(t, region, 0);
    if i == REGIONS then (t, InputError)
    else
      var m := t.masters[i];
      assert MasterOk(m);
      var k := FindUnshared(m.shares, 0);
      if FindShare(m.shares, slave, 0) < SHARES || k == SHARES then (t, StateError)
      else (t.(masters := t.masters[i := SetShare(m, k, Share(slave, rd, permission, true), m.shareCount + 1)]), Ok)
  }

  /** CSM_RESERVE on the table of the slave; `granted`: the master's table has the share, and
      for a region of this size. A full table is not reported. */
  ghost function CsmReserve(t: Table, s: Slave, granted: bool): (Table, CallStatus)
    requires TableInv(t)
  {
    if !ValidRange(s.range) || !granted || Conflict(t, s.range, false) then (t, InputError)
    else if FirstFree(t.slaveUsed, 0) == REGIONS then (t, Ok)
    else
      FreeSlave(t);
      (AddSlave(t, s), Ok)
  }

  function DropSlave(t: Table, k: nat): Table
    requires k in t.slaveOn.mask ==> CanPop(t.slaveOn, k)
  {
    t.(slaveOn := if k in t.slaveOn.mask then SwapPop(t.slaveOn, k) else t.slaveOn, slaveUsed := t.slaveUsed - {k})
  }

  /** CSM_DETACH_AND_FREE, and the part of CSM_REVOKE on the table of the slave. */
  ghost function CsmDetach(t: Table, region: nat): (Table, CallStatus)
    requires TableInv(t)
  {
    var k := FindSlave(t, region, 0);
    if k == REGIONS then (t, InputError)
    else
      if k in t.slaveOn.mask then
        SwapPopOk(t.slaveOn, k);
        (DropSlave(t, k), Ok)
      else (DropSlave(t, k), Ok)
  }

  /** CSM_REVOKE on the table of the master. */
  ghost function CsmRevoke(t: Table, region: nat, slave: nat): (Table, CallStatus)
    requires TableInv(t)
  {
    var i := FindMaster(t, region, 0);
    if i == REGIONS then (t, InputError)
    else
      var m := t.masters[i];
      assert MasterOk(m);
      var k := FindShare(m.shares, slave, 0);
      if k == SHARES || m.shareCount == 0 then (t, InputError)
      else (t.(masters := t.masters[i := SetShare(m, k, m.shares[k].(inUse := false), m.shareCount - 1)]), Ok)
  }

  function DropMaster(t: Table, k: nat): Table
    requires k < |t.masters|
    requires k in t.masterOn.mask ==> CanPop(t.masterOn, k)
  {
    t.(masterOn := if k in t.masterOn.mask then SwapPop(t.masterOn, k) else t.masterOn,
       masterUsed := t.masterUsed - {k},
       masters := t.masters[k := Master(0, Range(0, 0), 0, seq(SHARES, k => NO_SHARE))])
  }

  /** CSM_DESTROY of a region that is shared with nobody. */
  ghost function CsmDestroy(t: Table, region: nat): (Table, CallStatus)
    requires TableInv(t)
  {
    var i := FindMaster(t, region, 0);
    if i == REGIONS then (t, InputError)
    else if t.masters[i].shareCount != 0 then (t, StateError)
    else
      if i in t.masterOn.mask then
        SwapPopOk(t.masterOn, i);
        (DropMaster(t, i), Ok)
      else (DropMaster(t, i), Ok)
  }

  // ------------------------------------------------------------ what every call keeps

  lemma SetMasterInv(t: Table, i: nat, m: Master)
    requires TableInv(t) && i in t.masterUsed && MasterOk(m) && m.range == t.masters[i].range
    ensures TableInv(t.(masters := t.masters[i := m]))
  {
    hide PackedOk, Overlaps;
  }

  lemma ShareInv(t: Table, region: nat, slave: nat, rd: nat, permission: nat)
    requires TableInv(t)
    ensures TableInv(CsmShare(t, region, slave, rd, permission).0)
  {
    if CsmShare(t, region, slave, rd, permission).1 == Ok {
      var i := FindMaster(t, region, 0);
      var m := t.masters[i];
      assert MasterOk(m);
      var k := FindUnshared(m.shares, 0);
      SharesUpdate(m.shares, k, Share(slave, rd, permission, true));
      SetMasterInv(t, i, SetShare(m, k, Share(slave, rd, permission, true), m.shareCount + 1));
    }
  }

  lemma RevokeInv(t: Table, region: nat, slave: nat)
    requires TableInv(t)
    ensures TableInv(CsmRevoke(t, region, slave).0)
  {
    if CsmRevoke(t, region, slave).1 == Ok {
      var i := FindMaster(t, region, 0);
      var m := t.masters[i];
      assert MasterOk(m);
      var k := FindShare(m.shares, slave, 0);
      SharesUpdate(m.shares, k, m.shares[k].(inUse := false));
      SetMasterInv(t, i, SetShare(m, k, m.shares[k].(inUse := false), m.shareCount - 1));
    }
  }

  /** A share that exists can always be revoked: its count is not zero. */
  lemma RevokeFinds(t: Table, region: nat, slave: nat)
    requires TableInv(t)
    ensures CsmRevoke(t, region, slave).1 == Ok <==>
              var i := FindMaster(t, region, 0);
              i < REGIONS && exists k ::
                  0 <= k < |t.masters[i].shares| && t.masters[i].shares[k].inUse
                  && t.masters[i].shares[k].slave == slave
  {
    var i := FindMaster(t, region, 0);
    if i < REGIONS {
      assert MasterOk(t.masters[i]);
      SharesBound(t.masters[i].shares);
    }
  }

  lemma DetachInv(t: Table, region: nat)
    requires TableInv(t)
    ensures TableInv(CsmDetach(t, region).0)
  {
    var k := FindSlave(t, region, 0);
    if k < REGIONS {
      if k in t.slaveOn.mask { SwapPopOk(t.slaveOn, k); }
      hide PackedOk, Overlaps, SwapPop, MasterOk;
    }
  }

  lemma DropMasterInv(t: Table, i: nat)
    requires TableInv(t) && i < REGIONS
    ensures (i in t.masterOn.mask ==> CanPop(t.masterOn, i)) && TableInv(DropMaster(t, i))
  {
    if i in t.masterOn.mask { SwapPopOk(t.masterOn, i); }
    hide PackedOk, Overlaps, SwapPop, MasterOk;
  }

  lemma DestroyInv(t: Table, region: nat)
    requires TableInv(t)
    ensures TableInv(CsmDestroy(t, region).0)
    ensures CsmDestroy(t, region).1 == Ok ==>
              var i := FindMaster(t, region, 0);
              i < REGIONS && forall k | 0 <= k < |t.masters[i].shares| :: !t.masters[i].shares[k].inUse
  {
    var i := FindMaster(t, region, 0);
    if i < REGIONS && t.masters[i].shareCount == 0 {
      assert MasterOk(t.masters[i]);
      SharesBound(t.masters[i].shares);
      DropMasterInv(t, i);
      hide TableInv, DropMaster;
    }
  }

  datatype Call =
    | CreateCall(region: nat, range: Range)
    | ShareCall(region: nat, slave: nat, rd: nat, permission: nat)
    | ReserveCall(entry: Slave, granted: bool)
    | DetachCall(region: nat)
    | RevokeCall(region: nat, slave: nat)
    | DestroyCall(region: nat)

  ghost function Do(t: Table, c: Call): (Table, CallStatus)
    requires TableInv(t)
  {
    match c
    case CreateCall(region, r) => CsmCreate(t, region, r)
    case ShareCall(region, slave, rd, permission) => CsmShare(t, region, slave, rd, permission)
    case ReserveCall(s, granted) => CsmReserve(t, s, granted)
    case DetachCall(region) => CsmDetach(t, region)
    case RevokeCall(region, slave) => CsmRevoke(t, region, slave)
    case DestroyCall(region) => CsmDestroy(t, region)
  }

  lemma DoInv(t: Table, c: Call)
    requires TableInv(t)
    ensures TableInv(Do(t, c).0)
  {
    hide TableInv, Conflict;
    match c
    case CreateCall(region, r) => if CsmCreate(t, region, r).1 == Ok { AddMasterInv(t, region, r); }
    case ShareCall(region, slave, rd, permission) => ShareInv(t, region, slave, rd, permission);
    case ReserveCall(s, granted) =>
      if CsmReserve(t, s, granted).1 == Ok && FirstFree(t.slaveUsed, 0) < REGIONS { AddSlaveInv(t, s); }
    case DetachCall(region) => DetachInv(t, region);
    case RevokeCall(region, slave) => RevokeInv(t, region, slave);
    case DestroyCall(region) => DestroyInv(t, region);
  }

  ghost function Run(t: Table, cs: seq<Call>): (r: Table)
    requires TableInv(t)
    ensures TableInv(r)
    decreases |cs|
  {
    if cs == [] then t
    else
      DoInv(t, cs[0]);
      Run(Do(t, cs[0]).0, cs[1..])
  }

  lemma NewTableInv()
    ensures TableInv(NEW_TABLE)
  {}

  /** Over every sequence of calls, the packed sets and the masks describe the same sets,
      enabled regions are used, and no enabled slave region shares an address with another one
      or with an enabled master region. */
  lemma ReachableTable(cs: seq<Call>, i: nat, j: nat, x: nat)
    ensures TableInv(NEW_TABLE)
    ensures var t := Run(NEW_TABLE, cs);
            && |t.masters| == |t.slaves| == |t.slaveOn.index| == |t.masterOn.index| == REGIONS
            && t.slaveOn.len <= REGIONS && t.masterOn.len <= REGIONS
            && (i in t.slaveOn.mask <==> exists p :: 0 <= p < t.slaveOn.len && t.slaveOn.index[p] == i)
            && (i in t.masterOn.mask <==> exists p :: 0 <= p < t.masterOn.len && t.masterOn.index[p] == i)
            && (i in t.slaveOn.mask ==> i in t.slaveUsed && i < REGIONS)
            && (j in t.masterOn.mask ==> j in t.masterUsed && j < REGIONS)
            && (i in t.slaveOn.mask && j in t.slaveOn.mask && i != j ==>
                  j < REGIONS && !(Contains(t.slaves[i].range, x) && Contains(t.slaves[j].range, x)))
            && (i in t.slaveOn.mask && j in t.masterOn.mask ==>
                  !(Contains(t.slaves[i].range, x) && Contains(t.masters[j].range, x)))
            && (i in t.masterUsed ==> i < REGIONS && MasterOk(t.masters[i]))
  {
    NewTableInv();
    var t := Run(NEW_TABLE, cs);
    hide Run, NEW_TABLE;
    if i in t.slaveOn.mask && j in t.slaveOn.mask && i != j { DisjointRanges(t.slaves[i].range, t.slaves[j].range, x); }
    if i in t.slaveOn.mask && j in t.masterOn.mask { DisjointRanges(t.slaves[i].range, t.masters[j].range, x); }
  }

  predicate Contains(r: Range, x: nat) { r.start <= x < r.start + r.size }

  /** No two enabled master regions overlap. */
  ghost predicate MastersApart(t: Table)
    requires Sized(t) && Enabled(t)
  {
    forall i, j | i in t.masterOn.mask && j in t.masterOn.mask && i != j ::
      !Overlaps(t.masters[i].range, t.masters[j].range)
  }

  /** A granted CSM_CREATE keeps the master regions apart exactly if the range conflicts with no
      enabled region, masters included: the search that the call itself skips for masters. */
  lemma CreateKeepsMastersApart(t: Table, region: nat, r: Range)
    requires TableInv(t) && MastersApart(t) && CsmCreate(t, region, r).1 == Ok
    ensures TableInv(CsmCreate(t, region, r).0)
    ensures MastersApart(CsmCreate(t, region, r).0) <==> !Conflict(t, r, false)
  {
    var q := CsmCreate(t, region, r).0;
    AddMasterInv(t, region, r);
    var i := FirstFree(t.masterUsed, 0);
    PushOk(t.masterOn, i);
    assert q.masterOn.mask == t.masterOn.mask + {i} && q.masters[i].range == r;
    hide Push, PackedOk, Overlaps, MasterOk, AddMaster;
    if MastersApart(q) {
      forall j | j in t.masterOn.mask ensures !Overlaps(r, t.masters[j].range) { assert i in q.masterOn.mask; }
    }
    if !Conflict(t, r, false) {
      forall a, b | a in q.masterOn.mask && b in q.masterOn.mask && a != b
        ensures !Overlaps(q.masters[a].range, q.masters[b].range)
      {
        if b == i { OverlapsSym(r, t.masters[a].range); }
      }
    }
  }

  /** Master regions may overlap each other: CSM_CREATE does not compare them. */
  lemma MastersMayOverlap()
    ensures TableInv(NEW_TABLE)
    ensures var r := Range(0, 0x1000);
            var t := Run(NEW_TABLE, [CreateCall(1, r), CreateCall(2, r)]);
            |t.masters| == REGIONS && 0 in t.masterOn.mask && 1 in t.masterOn.mask
            && Overlaps(t.masters[0].range, t.masters[1].range)
  {
    NewTableInv();
    var r := Range(0, 0x1000);
    var c1, c2 := CreateCall(1, r), CreateCall(2, r);
    var t1 := Do(NEW_TABLE, c1).0;
    assert !Conflict(NEW_TABLE, r, true);
    assert FirstFree(NEW_TABLE.masterUsed, 0) == 0;
    DoInv(NEW_TABLE, c1);
    assert t1.masterUsed == {0} && t1.slaveOn.mask == {};
    assert FirstFree(t1.masterUsed, 0) == 1;
    var t2 := Do(t1, c2).0;
    DoInv(t1, c2);
    assert [c1, c2][1..] == [c2] && [c2][1..] == [];
    assert Run(t1, [c2]) == Run(t2, []) == t2;
  }

  /** CSM_RESERVE reports success and reserves nothing exactly if the request is a valid one that
      the master granted, free of conflicts, and every slot is in use. */
  lemma ReservesNothing(t: Table, s: Slave, granted: bool)
    requires TableInv(t)
    ensures CsmReserve(t, s, granted) == (t, Ok) <==>
              ValidRange(s.range) && granted && !Conflict(t, s.range, false) && FirstFree(t.slaveUsed, 0) == REGIONS
  {
    var i := FirstFree(t.slaveUsed, 0);
    if i < REGIONS {
      FreeSlave(t);
      assert i in AddSlave(t, s).slaveUsed && i !in t.slaveUsed;
    }
  }

  lemma {:induction false} RunAppend(t: Table, cs: seq<Call>, c: Call)
    requires TableInv(t)
    ensures Run(t, cs + [c]) == Do(Run(t, cs), c).0
    decreases |cs|
  {
    DoInv(t, (cs + [c])[0]);
    if cs == [] {
      assert (cs + [c])[1..] == [];
    } else {
      assert (cs + [c])[1..] == cs[1..] + [c];
      RunAppend(Do(t, cs[0]).0, cs[1..], c);
    }
  }

  /** The reservation of page `k`. */
  function PageOf(k: nat): Slave
    requires k <= REGIONS
  {
    Slave(1, k + 1, 0, Range(k * 0x1000, 0x1000))
  }

  /** The reservations of the first `n` pages. */
  function PageCalls(n: nat): seq<Call>
    requires n <= REGIONS
  {
    if n == 0 then [] else PageCalls(n - 1) + [ReserveCall(PageOf(n - 1), true)]
  }

  lemma {:induction false} PagesReserved(n: nat)
    requires n <= REGIONS
    ensures TableInv(NEW_TABLE)
    ensures var t := Run(NEW_TABLE, PageCalls(n));
            && |t.slaves| == REGIONS && t.slaveUsed == t.slaveOn.mask == Under(n) && t.masterOn.mask == {}
            && forall k | 0 <= k < n :: t.slaves[k] == PageOf(k)
  {
    NewTableInv();
    if n > 0 {
      var c := ReserveCall(PageOf(n - 1), true);
      assert PageCalls(n) == PageCalls(n - 1) + [c];
      hide Run, NEW_TABLE, TableInv, PageCalls, Do, Under;
      PagesReserved(n - 1);
      RunAppend(NEW_TABLE, PageCalls(n - 1), c);
      NextPage(Run(NEW_TABLE, PageCalls(n - 1)), n - 1);
    }
  }

  lemma NoPageConflict(t: Table, n: nat)
    requires TableInv(t) && n <= REGIONS && t.slaveOn.mask == Under(n) && t.masterOn.mask == {}
    requires forall k | 0 <= k < n :: t.slaves[k] == PageOf(k)
    ensures ValidRange(PageOf(n).range) && !Conflict(t, PageOf(n).range, false)
  {
    hide Under, PackedOk, MasterOk, Overlaps, PageOf;
    forall j | j in t.slaveOn.mask ensures !Overlaps(PageOf(n).range, t.slaves[j].range) {
      UnderSize(n, j);
      PagesApart(n, j);
    }
    PagesApart(n, n);
  }

  lemma PagesApart(n: nat, k: nat)
    requires k <= n <= REGIONS
    ensures ValidRange(PageOf(n).range) && (k < n ==> !Overlaps(PageOf(n).range, PageOf(k).range))
  {}

  /** In a table in which the used slots are the first `n`, the next one is number `n`. */
  lemma NextSlot(t: Table, n: nat)
    requires TableInv(t) && n < REGIONS && t.slaveUsed == t.slaveOn.mask == Under(n)
    ensures FirstFree(t.slaveUsed, 0) == n && t.slaveOn.len < REGIONS && n !in Under(n)
    ensures Push(t.slaveOn, n).mask == Under(n + 1)
  {
    UnderSize(n, n);
    UnderSize(n, FirstFree(t.slaveUsed, 0));
    FreeSlave(t);
    hide FirstFree, TableInv;
  }

  lemma NextPage(t: Table, n: nat)
    requires TableInv(t) && n < REGIONS && t.slaveUsed == t.slaveOn.mask == Under(n) && t.masterOn.mask == {}
    requires forall k | 0 <= k < n :: t.slaves[k] == PageOf(k)
    ensures var q := Do(t, ReserveCall(PageOf(n), true)).0;
            && |q.slaves| == REGIONS && q.slaveUsed == q.slaveOn.mask == Under(n + 1) && q.masterOn.mask == {}
            && forall k | 0 <= k < n + 1 :: q.slaves[k] == PageOf(k)
  {
    NoPageConflict(t, n);
    NextSlot(t, n);
    assert Under(n + 1) == Under(n) + {n};
    hide Conflict, PackedOk, TableInv, FirstFree, Under, PageOf, Push, ValidRange;
    assert Do(t, ReserveCall(PageOf(n), true)).0 == AddSlave(t, PageOf(n));
  }

  /** After a reservation of each of the first twenty pages, that of the next page reports success,
      and no enabled region holds the page. */
  lemma FullTableIsSilent(n: nat)
    requires n == REGIONS
    ensures TableInv(NEW_TABLE)
    ensures var t := Run(NEW_TABLE, PageCalls(n));
            && Do(t, ReserveCall(PageOf(n), true)) == (t, Ok)
            && |t.slaves| == REGIONS && t.masterOn.mask == {}
            && forall k | k in t.slaveOn.mask :: k < REGIONS && !Contains(t.slaves[k].range, n * 0x1000)
  {
    hide Run, NEW_TABLE, PageCalls, Under, FirstFree, Conflict, CsmReserve;
    PagesReserved(n);
    var t := Run(NEW_TABLE, PageCalls(n));
    NoPageConflict(t, n);
    UnderSize(n, FirstFree(t.slaveUsed, 0));
    forall k | k in t.slaveOn.mask ensures k < REGIONS && t.slaves[k] == PageOf(k) { UnderSize(n, k); }
    hide TableInv;
    ReservesNothing(t, PageOf(n), true);
  }

  // ------------------------------------------------------------ the calls in place

  /** The granule that holds the table of a realm. */
  class AptGranule {
    var masters: seq<Master>
    var slaves: seq<Slave>
    var masterOn: Packed
    var slaveOn: Packed
    var masterUsed: set<nat>
    var slaveUsed: set<nat>

    ghost function State(): Table
      reads this
    {
      Table(masters, slaves, masterOn, slaveOn, masterUsed, slaveUsed)
    }

    constructor ()
      ensures State() == NEW_TABLE && TableInv(State())
    {
      masters, slaves := NEW_TABLE.masters, NEW_TABLE.slaves;
      masterOn, slaveOn, masterUsed, slaveUsed := NONE, NONE, {}, {};
      new;
      NewTableInv();
    }

    /** apt_find_enabled_conflict: goes through the packed lists. */
    method FindConflict(r: Range, skipMasters: bool) returns (found: bool)
      requires TableInv(State())
      ensures found == Conflict(State(), r, skipMasters)
    {
      var p := 0;
      if !skipMasters {
        while p < masterOn.len
          invariant 0 <= p <= masterOn.len
          invariant forall k | 0 <= k < p :: !Overlaps(r, masters[masterOn.index[k]].range)
        {
          var hit := RangeOverlaps(r, masters[masterOn.index[p]].range);
          if hit { return true; }
          p := p + 1;
        }
        assert forall j | j in masterOn.mask :: masterOn.index[masterOn.pos[j]] == j;
      }
      p := 0;
      while p < slaveOn.len
        invariant 0 <= p <= slaveOn.len
        invariant forall k | 0 <= k < p :: !Overlaps(r, slaves[slaveOn.index[k]].range)
      {
        var hit := RangeOverlaps(r, slaves[slaveOn.index[p]].range);
        if hit { return true; }
        p := p + 1;
      }
      assert forall j | j in slaveOn.mask :: slaveOn.index[slaveOn.pos[j]] == j;
      return false;
    }

    /** apt_add_master with immediate enabling. */
    method Add(region: nat, r: Range) returns (idx: nat)
      requires TableInv(State())
      modifies this`masters, this`masterUsed, this`masterOn
      ensures idx == FirstFree(old(masterUsed), 0)
      ensures idx == REGIONS ==> State() == old(State())
      ensures idx < REGIONS ==> old(masterOn).len < REGIONS && State() == AddMaster(old(State()), region, r)
    {
      idx := 0;
      while idx < REGIONS && idx in masterUsed
        invariant 0 <= idx <= REGIONS && FirstFree(masterUsed, idx) == FirstFree(masterUsed, 0)
      {
        idx := idx + 1;
      }
      if idx == REGIONS { return; }
      FreeMaster(State());
      masters := masters[idx := Master(region, r, 0, seq(SHARES, k => NO_SHARE))];
      masterUsed := masterUsed + {idx};
      if idx !in masterOn.mask {
        masterOn := PushInPlace(masterOn, idx);
      }
    }

    /** apt_add_slave with immediate enabling. */
    method AddReserved(entry: Slave) returns (idx: nat)
      requires TableInv(State())
      modifies this`slaves, this`slaveUsed, this`slaveOn
      ensures idx == FirstFree(old(slaveUsed), 0)
      ensures idx == REGIONS ==> State() == old(State())
      ensures idx < REGIONS ==> old(slaveOn).len < REGIONS && State() == AddSlave(old(State()), entry)
    {
      idx := 0;
      while idx < REGIONS && idx in slaveUsed
        invariant 0 <= idx <= REGIONS && FirstFree(slaveUsed, idx) == FirstFree(slaveUsed, 0)
      {
        idx := idx + 1;
      }
      if idx == REGIONS { return; }
      FreeSlave(State());
      slaves := slaves[idx := entry];
      slaveUsed := slaveUsed + {idx};
      if idx !in slaveOn.mask {
        slaveOn := PushInPlace(slaveOn, idx);
      }
    }

    /** handle_rsi_csm_create on the table; `region` is the identifier that the registry gave. */
    method Create(region: nat, r: Range) returns (status: CallStatus)
      requires TableInv(State())
      modifies this`masters, this`masterUsed, this`masterOn
      ensures (State(), status) == CsmCreate(old(State()), region, r)
      ensures TableInv(State())
    {
      if r.size == 0 || r.start % 0x1000 != 0 || r.size % 0x1000 != 0 { return InputError; }
      var conflict := FindConflict(r, true);
      if conflict { return InputError; }
      if region == 0 { return StateError; }
      DoInv(State(), CreateCall(region, r));
      var idx := Add(region, r);
      status := if idx == REGIONS then StateError else Ok;
    }

    /** handle_rsi_csm_reserve on the table of the slave: the index is not looked at. */
    method Reserve(entry: Slave, granted: bool) returns (status: CallStatus)
      requires TableInv(State())
      modifies this`slaves, this`slaveUsed, this`slaveOn
      ensures (State(), status) == CsmReserve(old(State()), entry, granted)
      ensures TableInv(State())
    {
      var r := entry.range;
      if r.size == 0 || r.start % 0x1000 != 0 || r.size % 0x1000 != 0 { return InputError; }
      if !granted { return InputError; }
      var conflict := FindConflict(r, false);
      if conflict { return InputError; }
      DoInv(State(), ReserveCall(entry, granted));
      var _ := AddReserved(entry);
      return Ok;
    }

    /** handle_rsi_csm_share on the table: the new share goes to the first slot not in use. */
    method AddShare(region: nat, slave: nat, rd: nat, permission: nat) returns (status: CallStatus)
      requires TableInv(State())
      modifies this`masters
      ensures (State(), status) == CsmShare(old(State()), region, slave, rd, permission)
    {
      var i := FindRegion(region);
      if i == REGIONS { return InputError; }
      assert MasterOk(masters[i]);
      var m := masters[i];
      var k := FindShareSlot(m.shares, slave);
      if k < SHARES { return StateError; }
      k := 0;
      while k < SHARES
        invariant 0 <= k <= SHARES && FindUnshared(m.shares, k) == FindUnshared(m.shares, 0) && masters == old(masters)
      {
        if !m.shares[k].inUse {
          masters := masters[i := SetShare(m, k, Share(slave, rd, permission, true), m.shareCount + 1)];
          return Ok;
        }
        k := k + 1;
      }
      return StateError;
    }

    method FindRegion(region: nat) returns (i: nat)
      requires TableInv(State())
      ensures i == FindMaster(State(), region, 0)
    {
      i := 0;
      while i < REGIONS && !(i in masterUsed && masters[i].region == region)
        invariant 0 <= i <= REGIONS && FindMaster(State(), region, i) == FindMaster(State(), region, 0)
      {
        i := i + 1;
      }
    }

    /** handle_rsi_csm_destroy on the table. */
    method Destroy(region: nat) returns (status: CallStatus)
      requires TableInv(State())
      modifies this`masters, this`masterUsed, this`masterOn
      ensures (State(), status) == CsmDestroy(old(State()), region)
    {
      var i := FindRegion(region);
      if i == REGIONS { return InputError; }
      if masters[i].shareCount != 0 { return StateError; }
      if i in masterOn.mask {
        masterOn := PopInPlace(masterOn, i);
      }
      masterUsed := masterUsed - {i};
      masters := masters[i := Master(0, Range(0, 0), 0, seq(SHARES, k => NO_SHARE))];
      return Ok;
    }

    /** handle_rsi_csm_detach_and_free on the table. */
    method Detach(region: nat) returns (status: CallStatus)
      requires TableInv(State())
      modifies this`slaveUsed, this`slaveOn
      ensures (State(), status) == CsmDetach(old(State()), region)
    {
      var k := 0;
      while k < REGIONS && !(k in slaveUsed && slaves[k].region == region)
        invariant 0 <= k <= REGIONS && FindSlave(State(), region, k) == FindSlave(State(), region, 0)
      {
        k := k + 1;
      }
      if k == REGIONS { return InputError; }
      if k in slaveOn.mask {
        slaveOn := PopInPlace(slaveOn, k);
      }
      slaveUsed := slaveUsed - {k};
      return Ok;
    }

    /** handle_rsi_csm_revoke on the table of the master: the share exists, so its count can
        be taken down. */
    method Revoke(region: nat, slave: nat) returns (status: CallStatus)
      requires TableInv(State())
      modifies this`masters
      ensures (State(), status) == CsmRevoke(old(State()), region, slave)
    {
      var i := FindRegion(region);
      if i == REGIONS { return InputError; }
      assert MasterOk(masters[i]);
      var m := masters[i];
      var k := FindShareSlot(m.shares, slave);
      if k == SHARES { return InputError; }
      SharesBound(m.shares);
      masters := masters[i := SetShare(m, k, m.shares[k].(inUse := false), m.shareCount - 1)];
      return Ok;
    }
  }

  method FindShareSlot(s: seq<Share>, slave: nat) returns (k: nat)
    ensures k == FindShare(s, slave, 0)
  {
    k := 0;
    while k < |s| && !(s[k].inUse && s[k].slave == slave)
      invariant 0 <= k <= |s| && FindShare(s, slave, k) == FindShare(s, slave, 0)
    {
      k := k + 1;
    }
  }

  /** disable_swap_pop: the set loses exactly the region. */
  method PopInPlace(s: Packed, i: nat) returns (q: Packed)
    requires PackedOk(s) && i in s.mask
    ensures PackedOk(q) && q.mask == s.mask - {i} && CanPop(s, i) && q == SwapPop(s, i)
  {
    SwapPopOk(s, i);
    var p, last := s.pos[i], s.len - 1;
    var index, pos := s.index, s.pos;
    if p != last {
      index := index[p := index[last]];
      pos := pos[index[p] := p];
    }
    q := Packed(s.len - 1, index, pos, s.mask - {i});
  }

  /** enable_push: the set gains exactly the region. */
  method PushInPlace(s: Packed, i: nat) returns (q: Packed)
    requires PackedOk(s) && i < REGIONS && i !in s.mask
    ensures PackedOk(q) && q.mask == s.mask + {i} && s.len < REGIONS && q == Push(s, i)
  {
    PushOk(s, i);
    q := Packed(s.len + 1, s.index[s.len := i], s.pos[i := s.len], s.mask + {i});
  }
}
