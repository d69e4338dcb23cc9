/** What CSM calls achieve: a region is found again under its identifier, can be shared, reserved,
    revoked and released, and each call that undoes another restores the table. */
module AptLaws {
  import opened Apt

  /** Some used master region has the identifier. */
  predicate HasRegion(t: Table, region: nat) {
    exists i :: 0 <= i < |t.masters| && i in t.masterUsed && t.masters[i].region == region
  }

  /** Some used slave region has the identifier. */
  predicate HasReserved(t: Table, region: nat) {
    exists i :: 0 <= i < |t.slaves| && i in t.slaveUsed && t.slaves[i].region == region
  }

  predicate Room(used: set<nat>) { exists i :: 0 <= i < 20 && i !in used }

  lemma RoomIsFree(used: set<nat>)
    ensures Room(used) <==> FirstFree(used, 0) < REGIONS
  {
    var k := FirstFree(used, 0);
    if k < REGIONS { assert k !in used; }
  }

  lemma RegionIsFound(t: Table, region: nat)
    requires TableInv(t)
    ensures HasRegion(t, region) <==> FindMaster(t, region, 0) < REGIONS
    ensures HasReserved(t, region) <==> FindSlave(t, region, 0) < REGIONS
  {
    var i, k := FindMaster(t, region, 0), FindSlave(t, region, 0);
    if i < REGIONS { assert i in t.masterUsed && t.masters[i].region == region; }
    if k < REGIONS { assert k in t.slaveUsed && t.slaves[k].region == region; }
  }

  /** The only used slot with an identifier is the one that is found. */
  lemma OnlyRegion(t: Table, region: nat, i: nat)
    requires |t.masters| == REGIONS && i < REGIONS && i in t.masterUsed
    requires forall j | j in t.masterUsed :: j < REGIONS && (t.masters[j].region == region <==> j == i)
    ensures FindMaster(t, region, 0) == i
  {}

  lemma OnlyReserved(t: Table, region: nat, i: nat)
    requires |t.slaves| == REGIONS && i < REGIONS && i in t.slaveUsed
    requires forall j | j in t.slaveUsed :: j < REGIONS && (t.slaves[j].region == region <==> j == i)
    ensures FindSlave(t, region, 0) == i
  {}

  // ------------------------------------------------------------ CSM_CREATE

  /** CSM_CREATE is granted exactly for a page-aligned, non-empty range that overlaps no enabled
      slave region, with an identifier, if a master slot is left. */
  lemma CreateOutcome(t: Table, region: nat, r: Range)
    requires TableInv(t)
    ensures var q := CsmCreate(t, region, r);
            var valid := && r.size != 0 && r.start % 0x1000 == 0 && r.size % 0x1000 == 0
                         && forall j | j in t.slaveOn.mask :: j < REGIONS && !Overlaps(r, t.slaves[j].range);
            && (q.1 == Ok <==> valid && region != 0 && Room(t.masterUsed))
            && (!valid ==> q == (t, InputError))
            && (valid && q.1 != Ok ==> q == (t, StateError))
  {
    RoomIsFree(t.masterUsed);
  }

  /** After a granted CSM_CREATE with a new identifier exactly one used slot has it; it was not used
      before, is enabled, has exactly the requested range and no share. Nothing else changed. */
  lemma CreateFinds(t: Table, region: nat, r: Range)
    requires TableInv(t) && !HasRegion(t, region) && CsmCreate(t, region, r).1 == Ok
    ensures var q, i := CsmCreate(t, region, r).0, FirstFree(t.masterUsed, 0);
            && TableInv(q) && i < REGIONS && i !in t.masterUsed && i in q.masterOn.mask
            && FindMaster(q, region, 0) == i
            && (forall j | j in q.masterUsed :: j < REGIONS && (q.masters[j].region == region <==> j == i))
            && q.masters[i].range == r && q.masters[i].shareCount == 0
            && |q.masters[i].shares| == SHARES && (forall k | 0 <= k < SHARES :: !q.masters[i].shares[k].inUse)
            && q.masterUsed == t.masterUsed + {i} && q.masterOn.mask == t.masterOn.mask + {i}
            && (forall j | 0 <= j < REGIONS && j != i :: q.masters[j] == t.masters[j])
            && q.slaves == t.slaves && q.slaveOn == t.slaveOn && q.slaveUsed == t.slaveUsed
  {
    var q, i := CsmCreate(t, region, r).0, FirstFree(t.masterUsed, 0);
    AddMasterInv(t, region, r);
    FreeMaster(t);
    PushOk(t.masterOn, i);
    assert q == AddMaster(t, region, r) && Sized(t);
    hide TableInv, Conflict, PackedOk, Push, MasterOk, FirstFree, FindMaster, SharesInUse, CsmCreate, Enabled, Apart;
    OnlyRegion(q, region, i);
  }

  /** CSM_DESTROY right after CSM_CREATE is granted, and the table has the regions that it had. */
  lemma CreateThenDestroy(t: Table, region: nat, r: Range)
    requires TableInv(t) && !HasRegion(t, region) && CsmCreate(t, region, r).1 == Ok
    ensures TableInv(CsmCreate(t, region, r).0)
    ensures var q := CsmDestroy(CsmCreate(t, region, r).0, region);
            && q.1 == Ok && q.0.masterUsed == t.masterUsed && q.0.masterOn.mask == t.masterOn.mask
            && |q.0.masters| == REGIONS
            && (forall j | j in t.masterUsed :: j < REGIONS && q.0.masters[j] == t.masters[j])
            && q.0.slaves == t.slaves && q.0.slaveOn == t.slaveOn && q.0.slaveUsed == t.slaveUsed
            && !HasRegion(q.0, region)
  {
    CreateFinds(t, region, r);
    var m, i := CsmCreate(t, region, r).0, FirstFree(t.masterUsed, 0);
    SwapPopOk(m.masterOn, i);
    assert i !in t.masterOn.mask;
    assert t.masterUsed + {i} - {i} == t.masterUsed && t.masterOn.mask + {i} - {i} == t.masterOn.mask;
    assert forall j | j in t.masterUsed :: j < REGIONS;
    hide CsmCreate, TableInv, PackedOk, SwapPop, FirstFree, FindMaster, MasterOk, SharesInUse;
  }

  // ------------------------------------------------------------ CSM_SHARE and CSM_REVOKE

  /** The region is shared with `slave`. */
  predicate SharedWith(m: Master, slave: nat) {
    exists k :: 0 <= k < |m.shares| && m.shares[k].inUse && m.shares[k].slave == slave
  }

  /** CSM_SHARE is granted exactly if the region exists, is not shared with the slave, and has a
      share slot left. Then it is shared with the slave, with the given RD and permission, and
      everything else is as it was. */
  lemma ShareOutcome(t: Table, region: nat, slave: nat, rd: nat, permission: nat)
    requires TableInv(t)
    ensures var q, i := CsmShare(t, region, slave, rd, permission), FindMaster(t, region, 0);
            && (q.1 == Ok <==>
                  && HasRegion(t, region) && i < REGIONS && !SharedWith(t.masters[i], slave)
                  && exists k :: 0 <= k < |t.masters[i].shares| && !t.masters[i].shares[k].inUse)
            && (!HasRegion(t, region) ==> q == (t, InputError))
            && (HasRegion(t, region) && q.1 != Ok ==> q == (t, StateError))
            && (q.1 == Ok ==>
                  && q.0 == t.(masters := q.0.masters) && |q.0.masters| == REGIONS
                  && (forall j | 0 <= j < REGIONS && j != i :: q.0.masters[j] == t.masters[j])
                  && NewShare(t.masters[i], q.0.masters[i], Share(slave, rd, permission, true)))
  {
    RegionIsFound(t, region);
    var i := FindMaster(t, region, 0);
    if i < REGIONS {
      var m := t.masters[i];
      assert MasterOk(m);
      var k, k' := FindUnshared(m.shares, 0), FindShare(m.shares, slave, 0);
      if k < SHARES { assert !m.shares[k].inUse; }
      if k' < SHARES { assert m.shares[k'].inUse && m.shares[k'].slave == slave; }
      hide TableInv, FindMaster, FindUnshared, FindShare, SharesInUse;
    }
  }

  /** One share slot that was not in use is now, with `x`, and counted. */
  predicate NewShare(m: Master, m2: Master, x: Share) {
    && m2.region == m.region && m2.range == m.range && m2.shareCount == m.shareCount + 1
    && exists k :: 0 <= k < |m.shares| && !m.shares[k].inUse && m2.shares == m.shares[k := x]
  }

  /** A region that was just created can be shared, and revoking that restores its shares. */
  lemma CreateThenShare(t: Table, region: nat, r: Range, slave: nat, rd: nat, permission: nat)
    requires TableInv(t) && !HasRegion(t, region) && CsmCreate(t, region, r).1 == Ok
    ensures TableInv(CsmCreate(t, region, r).0)
    ensures CsmShare(CsmCreate(t, region, r).0, region, slave, rd, permission).1 == Ok
  {
    CreateFinds(t, region, r);
    var q := CsmCreate(t, region, r).0;
    hide CsmCreate, TableInv, FirstFree, FindMaster;
    RegionIsFound(q, region);
    ShareOutcome(q, region, slave, rd, permission);
  }

  /** CSM_REVOKE right after CSM_SHARE is granted; then the same shares are in use as before, with the
      same realms, and counted. */
  lemma ShareThenRevoke(t: Table, region: nat, slave: nat, rd: nat, permission: nat, j: nat, k: nat)
    requires TableInv(t) && CsmShare(t, region, slave, rd, permission).1 == Ok && j < REGIONS && k < SHARES
    ensures TableInv(CsmShare(t, region, slave, rd, permission).0)
    ensures var q := CsmRevoke(CsmShare(t, region, slave, rd, permission).0, region, slave);
            && q.1 == Ok && |q.0.masters| == REGIONS && q.0 == t.(masters := q.0.masters)
            && q.0.masters[j].region == t.masters[j].region && q.0.masters[j].range == t.masters[j].range
            && q.0.masters[j].shareCount == t.masters[j].shareCount
            && |q.0.masters[j].shares| == |t.masters[j].shares|
            && (k < |t.masters[j].shares| ==>
                  && q.0.masters[j].shares[k].inUse == t.masters[j].shares[k].inUse
                  && (t.masters[j].shares[k].inUse ==> q.0.masters[j].shares[k] == t.masters[j].shares[k]))
  {
    ShareInv(t, region, slave, rd, permission);
    var q, i := CsmShare(t, region, slave, rd, permission).0, FindMaster(t, region, 0);
    var m := t.masters[i];
    assert MasterOk(m) && |m.shares| == SHARES;
    var n := FindUnshared(m.shares, 0);
    SharedFound(m, n, slave, rd, permission);
    RegionKept(t, q, region, 0);
    hide TableInv, FindUnshared, SharesInUse, FindShare, FindMaster, MasterOk;
    assert q.masters[i] == SetShare(m, n, Share(slave, rd, permission, true), m.shareCount + 1);
  }

  lemma SharedFound(m: Master, n: nat, slave: nat, rd: nat, permission: nat)
    requires n < |m.shares| && !m.shares[n].inUse && FindShare(m.shares, slave, 0) == |m.shares|
    ensures FindShare(m.shares[n := Share(slave, rd, permission, true)], slave, 0) == n
  {
    var s := m.shares[n := Share(slave, rd, permission, true)];
    var k := FindShare(s, slave, 0);
    assert s[n].inUse && s[n].slave == slave;
  }

  /** The region is found where it was if no identifier and no used slot changed. */
  lemma {:induction false} RegionKept(t: Table, q: Table, region: nat, i: nat)
    requires i <= REGIONS && |t.masters| == |q.masters| == REGIONS && q.masterUsed == t.masterUsed
    requires forall j | 0 <= j < REGIONS :: q.masters[j].region == t.masters[j].region
    ensures FindMaster(q, region, i) == FindMaster(t, region, i)
    decreases REGIONS - i
  {
    if i < REGIONS { RegionKept(t, q, region, i + 1); }
  }

  /** CSM_REVOKE of a share that exists ends exactly that share. */
  lemma RevokeEnds(t: Table, region: nat, slave: nat)
    requires TableInv(t) && CsmRevoke(t, region, slave).1 == Ok
    ensures var q, i := CsmRevoke(t, region, slave).0, FindMaster(t, region, 0);
            && i < REGIONS && |q.masters| == REGIONS && q == t.(masters := q.masters)
            && (forall j | 0 <= j < REGIONS && j != i :: q.masters[j] == t.masters[j])
            && SharedWith(t.masters[i], slave) && !SharedWith(q.masters[i], slave)
            && |q.masters[i].shares| == |t.masters[i].shares|
            && (forall k | 0 <= k < |t.masters[i].shares| && t.masters[i].shares[k].slave != slave ::
                  q.masters[i].shares[k] == t.masters[i].shares[k])
  {
    var i := FindMaster(t, region, 0);
    var m := t.masters[i];
    assert MasterOk(m);
    var k := FindShare(m.shares, slave, 0);
    assert m.shares[k].inUse && m.shares[k].slave == slave;
  }

  // ------------------------------------------------------------ CSM_RESERVE and CSM_DETACH

  /** After a granted CSM_RESERVE with room, of a region that is not reserved, exactly one used slot
      has the identifier: it was not used before, is enabled, and holds exactly the entry. */
  lemma ReserveFinds(t: Table, s: Slave)
    requires TableInv(t) && !HasReserved(t, s.region) && CsmReserve(t, s, true).1 == Ok && Room(t.slaveUsed)
    ensures var q, i := CsmReserve(t, s, true).0, FirstFree(t.slaveUsed, 0);
            && TableInv(q) && i < REGIONS && i !in t.slaveUsed && i in q.slaveOn.mask
            && FindSlave(q, s.region, 0) == i && q.slaves[i] == s
            && (forall j | j in q.slaveUsed :: j < REGIONS && (q.slaves[j].region == s.region <==> j == i))
            && q.slaveUsed == t.slaveUsed + {i} && q.slaveOn.mask == t.slaveOn.mask + {i}
            && (forall j | 0 <= j < REGIONS && j != i :: q.slaves[j] == t.slaves[j])
            && q.masters == t.masters && q.masterOn == t.masterOn && q.masterUsed == t.masterUsed
  {
    RoomIsFree(t.slaveUsed);
    var q, i := CsmReserve(t, s, true).0, FirstFree(t.slaveUsed, 0);
    AddSlaveInv(t, s);
    FreeSlave(t);
    PushOk(t.slaveOn, i);
    assert q == AddSlave(t, s) && Sized(t);
    hide TableInv, Conflict, PackedOk, Push, MasterOk, FirstFree, FindSlave, Room, CsmReserve, Enabled, Apart;
    OnlyReserved(q, s.region, i);
  }

  /** CSM_DETACH right after CSM_RESERVE is granted, and the table has the regions that it had. */
  lemma ReserveThenDetach(t: Table, s: Slave)
    requires TableInv(t) && !HasReserved(t, s.region) && CsmReserve(t, s, true).1 == Ok && Room(t.slaveUsed)
    ensures TableInv(CsmReserve(t, s, true).0)
    ensures var q := CsmDetach(CsmReserve(t, s, true).0, s.region);
            && q.1 == Ok && q.0.slaveUsed == t.slaveUsed && q.0.slaveOn.mask == t.slaveOn.mask
            && |q.0.slaves| == REGIONS && (forall j | j in t.slaveUsed :: j < REGIONS && q.0.slaves[j] == t.slaves[j])
            && q.0.masters == t.masters && q.0.masterOn == t.masterOn && q.0.masterUsed == t.masterUsed
  {
    ReserveFinds(t, s);
    var m, i := CsmReserve(t, s, true).0, FirstFree(t.slaveUsed, 0);
    SwapPopOk(m.slaveOn, i);
    assert i !in t.slaveOn.mask;
    assert t.slaveUsed + {i} - {i} == t.slaveUsed && t.slaveOn.mask + {i} - {i} == t.slaveOn.mask;
    assert forall j | j in t.slaveUsed :: j < REGIONS;
    hide CsmReserve, TableInv, PackedOk, SwapPop, FirstFree, FindSlave, Room;
  }

  /** CSM_DESTROY is granted exactly if the region exists and is shared with nobody, and clears its
      slot; CSM_DETACH exactly if the region is reserved. */
  lemma ReleaseOutcome(t: Table, region: nat)
    requires TableInv(t)
    ensures var q, i := CsmDestroy(t, region), FindMaster(t, region, 0);
            && (q.1 == Ok <==> HasRegion(t, region) && i < REGIONS
                               && forall k | 0 <= k < |t.masters[i].shares| :: !t.masters[i].shares[k].inUse)
            && (!HasRegion(t, region) ==> q == (t, InputError))
            && (HasRegion(t, region) && q.1 != Ok ==> q == (t, StateError))
            && (q.1 == Ok ==>
                  |q.0.masters| == REGIONS && q.0.masters[i].region == 0 && q.0.masters[i].range == Range(0, 0))
    ensures var q := CsmDetach(t, region);
            && (q.1 == Ok <==> HasReserved(t, region))
            && (q.1 != Ok ==> q == (t, InputError))
  {
    RegionIsFound(t, region);
    var i := FindMaster(t, region, 0);
    if i < REGIONS {
      assert MasterOk(t.masters[i]);
      SharesBound(t.masters[i].shares);
    }
    hide TableInv, FindMaster, FindSlave, SharesInUse;
  }
}
