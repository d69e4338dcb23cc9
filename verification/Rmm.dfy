/** The RMI commands as the RMM carries them out: on granule descriptors and tables that
    are updated in place, step by step and under granule locks. Each command is proved to
    compute what its specification says, to hold no lock when it returns, and never to wait
    for a lock that it holds itself. */
module Rmm {
  import opened S2Geometry
  import opened S2tte
  import opened RealmGeometry
  import opened Rtt
  import opened RttSteps
  import opened RttFlat
  import opened RttInvariants
  import opened RttCommands
  import opened DataCommands
  import opened RipasCommands
  import opened RecCommands
  import opened TableScans

  /** `locks`: the granules that this PE has locked. */
  class Monitor {
    var gs: map<Addr, Granule>
    var tables: map<Addr, seq<Entry>>
    var realms: map<Addr, Realm>
    var recs: map<Addr, Rec>
    var locks: set<Addr>
    ghost var place: map<Addr, Place>
    ghost var owner: map<Addr, Owner>

    ghost function State(): Machine
      reads this
    {
      Machine(gs, tables, realms, recs, place, owner)
    }

    lemma StateIs()
      ensures State() == Machine(gs, tables, realms, recs, place, owner)
    {}

    // ---------------------------------------------------------- granules

    method Lock(g: Addr)
      requires g !in locks
      modifies this`locks
      ensures locks == old(locks) + {g}
    {
      locks := locks + {g};
    }

    method Unlock(g: Addr)
      requires g in locks
      modifies this`locks
      ensures locks == old(locks) - {g}
    {
      locks := locks - {g};
    }

    /** Locks the granule unless it does not exist or is in another state. */
    method FindLock(a: Addr, s: GranuleState) returns (ok: bool)
      requires a !in locks
      modifies this`locks
      ensures ok == Is(State(), a, s)
      ensures locks == if ok then old(locks) + {a} else old(locks)
    {
      if a !in gs { return false; }
      Lock(a);
      if gs[a].state != s {
        Unlock(a);
        return false;
      }
      return true;
    }

    /** Locks two granules, the lower address first, or none. */
    method FindLockTwo(a: Addr, sa: GranuleState, b: Addr, sb: GranuleState) returns (ok: bool)
      requires a !in locks && b !in locks
      modifies this`locks
      ensures ok == (a != b && Is(State(), a, sa) && Is(State(), b, sb))
      ensures locks == if ok then old(locks) + {a, b} else old(locks)
    {
      if a == b { return false; }
      var first, fs, second, ss := a, sa, b, sb;
      if b < a { first, fs, second, ss := b, sb, a, sa; }
      ok := FindLock(first, fs);
      if !ok { return; }
      ok := FindLock(second, ss);
      if !ok { Unlock(first); }
    }

    method RefcountInc(g: Addr, v: nat)
      requires g in gs && g in locks && gs[g].refcount + v <= REFCOUNT_MAX
      modifies this`gs
      ensures gs == old(gs)[g := old(gs)[g].(refcount := old(gs)[g].refcount + v)]
    {
      gs := gs[g := gs[g].(refcount := gs[g].refcount + v)];
    }

    method RefcountDec(g: Addr, v: nat)
      requires g in gs && g in locks && gs[g].refcount >= v
      modifies this`gs
      ensures gs == old(gs)[g := old(gs)[g].(refcount := old(gs)[g].refcount - v)]
    {
      gs := gs[g := gs[g].(refcount := gs[g].refcount - v)];
    }

    method WriteEntry(t: Addr, i: nat, e: Entry)
      requires t in tables && t in locks && i < |tables[t]|
      modifies this`tables
      ensures tables == old(tables)[t := old(tables)[t][i := e]]
    {
      tables := tables[t := tables[t][i := e]];
    }

    // ---------------------------------------------------------- the walk

    /** Hand-over-hand locking from the locked first root table to the last table of the walk. */
    method WalkLockUnlock(rd: Addr, ipa: Addr, target: int) returns (w: WalkResult)
      requires Inv(State()) && rd in realms && ValidRealm(realms[rd]) && InIpa(realms[rd], ipa)
      requires realms[rd].start <= target <= PAGE_LEVEL
      requires forall t | t in place :: t in locks <==> t == realms[rd].roots[0]
      requires realms[rd].roots[0] in locks
      modifies this`locks
      ensures w == RealmWalk(tables, realms[rd], target, ipa)
      ensures locks == old(locks) - {realms[rd].roots[0]} + {w.table}
    {
      ghost var m, r := State(), realms[rd];
      var start, g := realms[rd].start, realms[rd].roots[0];
      var slIdx := ipa / Span(start);
      assert RootsOk(m, rd);
      RootInBounds(r.ipaBits, r.start, |r.roots|, ipa);
      SlIndex(ipa, start);
      if slIdx >= ENTRIES {
        var k := slIdx / ENTRIES;
        var concat := realms[rd].roots[k];
        assert m.place[r.roots[k]] == Place(rd, [k], rd) && m.place[r.roots[0]] == Place(rd, [0], rd);
        Lock(concat);
        Unlock(g);
        g := concat;
      }
      var i := start;
      hide Inv, TableOk, Geometry, RootsOk, ValidEntry, Count, InIpa;
      while i < target
        invariant start <= i <= target
        invariant g in m.place && m.place[g].rd == rd && Level(m, g) == i
        invariant locks == old(locks) - {r.roots[0]} + {g}
        invariant RealmWalk(tables, r, target, ipa) == Walk(tables, g, i, target, ipa)
      {
        var idx := Idx(ipa, i);
        EntryFacts(m, g, idx);
        var e := tables[g][idx];
        if !e.TableEntry? { break; }
        Lock(e.pa);
        Unlock(g);
        g := e.pa;
        i := i + 1;
      }
      w := WalkResult(g, Idx(ipa, i), i);
    }

    /** Locks the first root table, releases the RD unless the command still needs it, and walks. */
    method WalkRealm(rd: Addr, ipa: Addr, target: int, keepRd: bool) returns (w: WalkResult)
      requires Inv(State()) && rd in realms && ValidRealm(realms[rd]) && InIpa(realms[rd], ipa)
      requires realms[rd].start <= target <= PAGE_LEVEL
      requires (keepRd || rd in locks) && forall t | t in place :: t !in locks
      modifies this`locks
      ensures w == RealmWalk(tables, realms[rd], target, ipa) && Reached(State(), rd, target, ipa, w)
      ensures AtEntry(State(), w.table, w.idx) && place[w.table].rd == rd && Level(State(), w.table) == w.level
      ensures MIN_LEVEL <= realms[rd].start <= w.level <= target && gs[w.table].refcount == Count(tables[w.table])
      ensures locks == (if keepRd then old(locks) else old(locks) - {rd}) + {w.table} && w.table !in old(locks)
    {
      assert RootsOk(State(), rd);
      var root := realms[rd].roots[0];
      Lock(root);
      if !keepRd { Unlock(rd); }
      assert forall t | t in place :: t in locks <==> t == root;
      w := WalkLockUnlock(rd, ipa, target);
      ReachedFacts(State(), rd, target, ipa, w);
      assert RefcountOk(State(), w.table);
    }

    // ---------------------------------------------------------- RTT_CREATE

    method CreateRtt(rd: Addr, rtt: Addr, ipa: Addr, level: int) returns (status: Status)
      requires Inv(State()) && locks == {}
      modifies this
      ensures var q := RttCreate(old(State()), rd, rtt, ipa, level); State() == q.m && status == q.status
      ensures locks == {}
    {
      ghost var m := State();
      hide Inv, Walk, Count, Unfold, ValidRealm, ValidStructureCmd, Idx, RttCreate, AddTable, Reached;
      RttCreateEarly(m, rd, rtt, ipa, level);
      var ok := FindLockTwo(rtt, Delegated, rd, RdState);
      if !ok { return ErrorInput; }
      NotTables(m, rd, rtt);
      var r := realms[rd];
      if !ValidStructureCmd(r, ipa, level) || (!r.fmt.lpa2 && rtt >= 0x1_0000_0000_0000) {
        status := ErrorInput;
        Unlock(rd);
      } else {
        var w := WalkRealm(rd, ipa, level - 1, false);
        RttCreateAt(m, rd, rtt, ipa, level, w);
        if w.level != level - 1 {
          status := ErrorRtt(w.level);
        } else if tables[w.table][w.idx].TableEntry? {
          status := ErrorRtt(level - 1);
        } else {
          UnfoldInto(w.table, w.idx, rtt, level);
          status := Success;
        }
        Unlock(w.table);
      }
      Unlock(rtt);
    }

    /** The content of the table that unfolds leaf `(t, i)`. The reference moves: a new one
        from the parent for unassigned and non-secure leaves, 512 to the table instead of
        the parent's one for protected mappings. */
    method BuildTable(t: Addr, i: nat, rtt: Addr, level: int) returns (es: seq<Entry>)
      requires AtEntry(State(), t, i) && !tables[t][i].TableEntry? && MIN_LEVEL < level <= PAGE_LEVEL
      requires Is(State(), rtt, Delegated) && rtt != t && t in locks && rtt in locks
      modifies this`gs, this`tables
      ensures es == Unfold(old(tables)[t][i], level)
      ensures SameBut(old(gs), gs, t, rtt) && t in gs && rtt in gs
      ensures gs[t] == old(gs)[t].(refcount := Recount(old(gs)[t].refcount, old(tables)[t][i], TableEntry(rtt)))
      ensures gs[rtt] == old(gs)[rtt].(refcount := Count(es))
      ensures SameBut(old(tables), tables, t, t) && t in tables && |tables[t]| == ENTRIES
      ensures forall k | 0 <= k < ENTRIES && k != i :: tables[t][k] == old(tables)[t][k]
    {
      var e := tables[t][i];
      EntryFacts(State(), t, i);
      assert GranuleOk(State(), rtt);
      FreeEntry(tables[t], i);
      hide Inv, Count, Unfold, TableOk;
      if e.UnassignedEntry? || e.UnassignedNsEntry? {
        es := InitUniform(e);
        UniformUnfold(e, es, level);
        RefcountInc(t, 1);
      } else if e.AssignedEntry? {
        if e.ripas.Ram? { WriteEntry(t, i, UnassignedEntry(Empty)); }
        es := InitMapped(e, level);
        RefcountInc(rtt, ENTRIES);
      } else {
        WriteEntry(t, i, UnassignedEntry(Empty));
        es := InitMapped(e, level);
        RefcountInc(t, 1);
      }
      UnfoldCount(e, es, level);
    }

    /** Turns leaf `(t, i)` into the table `rtt` with the same meaning. */
    method UnfoldInto(t: Addr, i: nat, rtt: Addr, level: int)
      requires AtEntry(State(), t, i) && !tables[t][i].TableEntry? && MIN_LEVEL < level <= PAGE_LEVEL
      requires Is(State(), rtt, Delegated) && rtt != t && t in locks && rtt in locks
      modifies this`gs, this`tables, this`place
      ensures State() == AddTable(old(State()), t, i, rtt, Unfold(old(tables)[t][i], level))
    {
      ghost var m := State();
      hide Inv, Unfold, Count, Recount;
      var es := BuildTable(t, i, rtt, level);
      tables := tables[rtt := es];
      gs := gs[rtt := gs[rtt].(state := RttState, zero := false)];
      WriteEntry(t, i, TableEntry(rtt));
      place := place[rtt := Place(place[t].rd, place[t].path + [i], t)];
      assert tables[t] == m.tables[t][i := TableEntry(rtt)];
      Unfolded(m, State(), t, i, rtt, es);
    }

    // ---------------------------------------------------------- RTT_FOLD and RTT_DESTROY

    /** The reference moves back: 512 of the table for the parent's one if it mapped a
        protected block, else the parent's reference is dropped. */
    method MoveReference(t: Addr, i: nat, n: Addr, e: Entry)
      requires CanDrop(State(), t, i, n, e) && t in locks && n in locks
      requires gs[n].refcount == if e.Counted() then ENTRIES else 0
      modifies this`gs
      ensures SameBut(old(gs), gs, t, n) && t in gs && n in gs
      ensures gs[t] == old(gs)[t].(refcount := Recount(old(gs)[t].refcount, tables[t][i], e))
      ensures gs[n] == old(gs)[n].(refcount := 0)
    {
      EntryFacts(State(), t, i);
      FreeEntry(tables[t], i);
      hide Inv, Count, TableOk, Geometry, ValidEntry;
      if e.Counted() { RefcountDec(n, ENTRIES); } else { RefcountDec(t, 1); }
    }

    /** Replaces the entry for table `n` by leaf `e` and gives the wiped granule back. */
    method ReleaseTable(t: Addr, i: nat, n: Addr, e: Entry)
      requires CanDrop(State(), t, i, n, e) && t in locks && n in locks
      requires gs[n].refcount == if e.Counted() then ENTRIES else 0
      modifies this`gs, this`tables, this`place
      ensures State() == DropTable(old(State()), t, i, n, e)
    {
      ghost var m := State();
      hide Inv, Recount, ValidEntry, Leaves;
      MoveReference(t, i, n, e);
      hide CanDrop;
      WriteEntry(t, i, UnassignedEntry(Empty));
      WriteEntry(t, i, e);
      tables := tables - {n};
      gs := gs[n := gs[n].(state := Delegated, zero := true)];
      place := place - {n};
      assert tables[t] == m.tables[t][i := e];
      Released(m, State(), t, i, n, e);
    }

    method FoldRtt(rd: Addr, ipa: Addr, level: int) returns (status: Status, rtt: Addr)
      requires Inv(State()) && locks == {}
      modifies this
      ensures var q := RttFold(old(State()), rd, ipa, level); State() == q.m && status == q.status && rtt == q.out
      ensures locks == {}
    {
      ghost var m := State();
      hide Inv, Walk, Count, ValidRealm, InIpa, Aligned, Idx;
      var ok := FindLock(rd, RdState);
      if !ok { return ErrorInput, 0; }
      RdIsRealm(m, rd);
      var r := realms[rd];
      if !ValidStructureCmd(r, ipa, level) {
        Unlock(rd);
        return ErrorInput, 0;
      }
      OneTableLock(m, rd);
      var w := WalkRealm(rd, ipa, level - 1, false);
      if w.level != level - 1 {
        Unlock(w.table);
        return ErrorRtt(w.level), 0;
      }
      var e := tables[w.table][w.idx];
      if !e.TableEntry? {
        Unlock(w.table);
        return ErrorRtt(level - 1), 0;
      }
      AtTableFacts(m, rd, ipa, level, w, e.pa);
      FoldTable(m, rd, ipa, level, w, e.pa);
      ok := FindLock(e.pa, RttState);
      assert ok;
      var d := DecideFold(r.fmt, tables[e.pa], gs[e.pa].refcount, level);
      if d.NoFold? {
        status, rtt := ErrorRtt(d.level), 0;
      } else {
        ReleaseTable(w.table, w.idx, e.pa, d.leaf);
        status, rtt := Success, e.pa;
      }
      Unlock(e.pa);
      Unlock(w.table);
    }

    method DestroyRtt(rd: Addr, ipa: Addr, level: int) returns (status: Status, rtt: Addr, top: Addr)
      requires Inv(State()) && locks == {}
      modifies this
      ensures State() == RttDestroy(old(State()), rd, ipa, level).m
      ensures Reply(State(), status, rtt, top) == RttDestroy(old(State()), rd, ipa, level)
      ensures locks == {}
    {
      ghost var m := State();
      hide Inv, Walk, Count, ValidRealm, InIpa, Aligned, Idx, SkipNonLive, DestroyedLeaf;
      var ok := FindLock(rd, RdState);
      if !ok { return ErrorInput, 0, 0; }
      RdIsRealm(m, rd);
      var r := realms[rd];
      if !ValidStructureCmd(r, ipa, level) {
        Unlock(rd);
        return ErrorInput, 0, 0;
      }
      OneTableLock(m, rd);
      var w := WalkRealm(rd, ipa, level - 1, false);
      rtt := 0;
      var e := tables[w.table][w.idx];
      if w.level != level - 1 || !e.TableEntry? {
        status := ErrorRtt(w.level);
        top := SkipNonLiveEntries(tables[w.table], w.idx, w.level, ipa);
      } else {
        AtTableFacts(m, rd, ipa, level, w, e.pa);
        DestroyTable(m, rd, ipa, level, w, e.pa);
        ok := FindLock(e.pa, RttState);
        assert ok;
        if gs[e.pa].refcount != 0 {
          status, top := ErrorRtt(level), ipa;
          Unlock(e.pa);
        } else {
          ReleaseTable(w.table, w.idx, e.pa, DestroyedLeaf(r, ipa));
          Unlock(e.pa);
          status, rtt := Success, e.pa;
          top := SkipNonLiveEntries(tables[w.table], w.idx, w.level, ipa);
        }
      }
      Unlock(w.table);
    }

    // ---------------------------------------------------------- non-secure memory

    /** Maps the descriptor `d`, or unmaps if there is none. A level above the starting
        level runs into an assertion of the walk. */
    method MapUnmapNs(rd: Addr, ipa: Addr, level: int, d: Option<HostDesc>) returns (status: Status, top: Addr)
      requires Inv(State()) && locks == {}
      modifies this
      ensures var q := if d.Some? then MapNs(old(State()), rd, ipa, level, d.value)
              else UnmapNs(old(State()), rd, ipa, level);
              State() == q.m && status == q.status && top == q.out
      ensures !status.AssertionFailure? ==> locks == {}
    {
      ghost var m := State();
      hide *;
      StateIs();
      Failures(m);
      top := 0;
      NsEarly(m, rd, ipa, level, d);
      if !(MIN_BLOCK_LEVEL <= level <= PAGE_LEVEL) { return ErrorInput, 0; }
      var ok := FindLock(rd, RdState);
      StateIs();
      if !ok { return ErrorInput, 0; }
      OneTableLock(m, rd);
      var r := realms[rd];
      if (d.Some? && !HostDescValid(r.fmt, d.value, level)) || !ValidMapCmd(r, ipa, level) || InPar(r, ipa) {
        Unlock(rd);
        return ErrorInput, 0;
      }
      if level < r.start { return AssertionFailure, 0; }
      var w := WalkRealm(rd, ipa, level, false);
      StateIs();
      NsAt(m, rd, ipa, level, d, w);
      if d.Some? {
        if w.level != level {
          status := ErrorRtt(w.level);
        } else {
          status := MapNsEntry(w, HostEntry(r.fmt, d.value));
        }
      } else {
        status, top := UnmapNsEntry(w, level, ipa);
      }
      StateIs();
      Unlock(w.table);
      StateIs();
    }

    method MapNsEntry(w: WalkResult, e: Entry) returns (status: Status)
      requires AtEntry(State(), w.table, w.idx) && w.table in locks && e.AssignedNsEntry?
      modifies this`tables
      ensures status == if old(tables)[w.table][w.idx].UnassignedNsEntry? then Success else ErrorRtt(w.level)
      ensures State() == if status.Success? then SetEntry(old(State()), w.table, w.idx, e) else old(State())
    {
      if !tables[w.table][w.idx].UnassignedNsEntry? { return ErrorRtt(w.level); }
      UncountedEntry(State(), w.table, w.idx, e);
      WriteEntry(w.table, w.idx, e);
      return Success;
    }

    method UnmapNsEntry(w: WalkResult, level: int, ipa: Addr) returns (status: Status, top: Addr)
      requires AtEntry(State(), w.table, w.idx) && w.table in locks && MIN_LEVEL <= w.level <= PAGE_LEVEL
      modifies this`tables
      ensures status == if w.level == level && old(tables)[w.table][w.idx].AssignedNsEntry? then Success
              else ErrorRtt(w.level)
      ensures State() == if status.Success? then SetEntry(old(State()), w.table, w.idx, UnassignedNsEntry)
              else old(State())
      ensures w.table in tables && w.idx < |tables[w.table]| && top == SkipNonLive(tables[w.table], w.idx, w.level, ipa)
    {
      if w.level != level || !tables[w.table][w.idx].AssignedNsEntry? {
        status := ErrorRtt(w.level);
      } else {
        UncountedEntry(State(), w.table, w.idx, UnassignedNsEntry);
        WriteEntry(w.table, w.idx, UnassignedNsEntry);
        status := Success;
      }
      top := SkipNonLiveEntries(tables[w.table], w.idx, w.level, ipa);
    }

    // ---------------------------------------------------------- DATA granules

    method CreateData(rd: Addr, data: Addr, ipa: Addr, src: DataSource) returns (status: Status)
      requires FullInv(State()) && locks == {}
      modifies this
      ensures var q := DataCreate(old(State()), rd, data, ipa, src); State() == q.m && status == q.status
      ensures locks == {}
    {
      ghost var m := State();
      assert Inv(m);
      hide *;
      StateIs();
      Failures(m);
      DataCreateEarly(m, rd, data, ipa, src);
      var ok := FindLockTwo(data, Delegated, rd, RdState);
      StateIs();
      if !ok { return ErrorInput; }
      NotTables(m, rd, data);
      var r := realms[rd];
      if src.Copy? && r.state != New {
        status := ErrorRealm;
      } else if !InPar(r, ipa) || !ValidMapAddr(r, ipa, PAGE_LEVEL) || (!r.fmt.lpa2 && data >= 0x1_0000_0000_0000) {
        status := ErrorInput;
      } else {
        ParAddress(r, ipa);
        var w := WalkRealm(rd, ipa, PAGE_LEVEL, true);
        StateIs();
        DataCreateAt(m, rd, data, ipa, src, w);
        status := PlaceData(w, rd, ipa, data, src);
        Unlock(w.table);
      }
      Unlock(rd);
      Unlock(data);
      StateIs();
    }

    method PlaceData(w: WalkResult, rd: Addr, ipa: Addr, data: Addr, src: DataSource) returns (status: Status)
      requires AtEntry(State(), w.table, w.idx) && gs[w.table].refcount == Count(tables[w.table])
      requires w.table in locks && data in locks && data != w.table && data in gs
      requires gs[data] == Granule(Delegated, 0, true)
      modifies this`tables, this`gs, this`owner
      ensures var e := old(tables)[w.table][w.idx];
              if w.level != PAGE_LEVEL then status == ErrorRtt(w.level) && State() == old(State())
              else if !e.UnassignedEntry? && !e.UnassignedNsEntry? then
                status == ErrorRtt(PAGE_LEVEL) && State() == old(State())
              else if src.Copy? && !src.readOk then status == ErrorInput && State() == old(State())
              else
                && status == Success
                && State() == MapData(old(State()), w, rd, ipa, if src.Copy? then Ram else RipasField(e), data)
    {
      ghost var m := State();
      hide Inv, Count;
      var e := tables[w.table][w.idx];
      if w.level != PAGE_LEVEL { return ErrorRtt(w.level); }
      if !e.UnassignedEntry? && !e.UnassignedNsEntry? { return ErrorRtt(PAGE_LEVEL); }
      var ok := FillData(data, src);
      if !ok {
        assert gs == m.gs;
        return ErrorInput;
      }
      var ripas := if src.Copy? then Ram else RipasField(e);
      MapPage(w, rd, ipa, data, ripas);
      assert State().gs == MapData(m, w, rd, ipa, ripas, data).gs;
      return Success;
    }

    /** Copies the source page; after a fault the granule is wiped again. */
    method FillData(data: Addr, src: DataSource) returns (ok: bool)
      requires data in locks && data in gs && gs[data].zero
      modifies this`gs
      ensures ok == (src.Copy? ==> src.readOk) && data in gs
      ensures ok ==> gs == old(gs)[data := old(gs)[data].(zero := gs[data].zero)]
      ensures !ok ==> gs == old(gs)
    {
      if src.Unknown? { return true; }
      gs := gs[data := gs[data].(zero := false)];
      if !src.readOk {
        gs := gs[data := gs[data].(zero := true)];
        return false;
      }
      return true;
    }

    method MapPage(w: WalkResult, rd: Addr, ipa: Addr, data: Addr, ripas: Ripas)
      requires w.table in tables && w.table in gs && w.idx < |tables[w.table]| == ENTRIES && data in gs
      requires data != w.table
      requires !tables[w.table][w.idx].Counted() && gs[w.table].refcount == Count(tables[w.table])
      requires w.table in locks && data in locks && gs[data].refcount == 0
      modifies this`tables, this`gs, this`owner
      ensures State() == MapData(old(State()), w, rd, ipa, ripas, data)
    {
      ghost var m := State();
      FreeEntry(tables[w.table], w.idx);
      WriteEntry(w.table, w.idx, AssignedEntry(ripas, data));
      RefcountInc(w.table, 1);
      gs := gs[data := gs[data].(state := DataState, zero := false)];
      owner := owner[data := Owner(rd, ipa)];
      assert gs == MapData(m, w, rd, ipa, ripas, data).gs;
    }

    method DestroyData(rd: Addr, ipa: Addr) returns (status: Status, data: Addr, top: Addr)
      requires FullInv(State()) && locks == {}
      modifies this
      ensures State() == DataDestroy(old(State()), rd, ipa).m
      ensures Reply(State(), status, data, top) == DataDestroy(old(State()), rd, ipa)
      ensures locks == {}
    {
      ghost var m := State();
      hide Inv, FlatInv, Walk, Count, ValidRealm, InIpa, InPar, Aligned, Idx, SkipNonLive;
      data := 0;
      var ok := FindLock(rd, RdState);
      if !ok { return ErrorInput, 0, 0; }
      RdIsRealm(m, rd);
      OneTableLock(m, rd);
      var r := realms[rd];
      if !InPar(r, ipa) || !ValidMapAddr(r, ipa, PAGE_LEVEL) {
        Unlock(rd);
        return ErrorInput, 0, 0;
      }
      StartsAbovePages(r);
      var w := WalkRealm(rd, ipa, PAGE_LEVEL, false);
      var e := tables[w.table][w.idx];
      if w.level != PAGE_LEVEL {
        status := ErrorRtt(w.level);
      } else if !e.AssignedEntry? {
        status := ErrorRtt(PAGE_LEVEL);
      } else {
        UnmapAligned(r, ipa);
        UnmapTarget(m, rd, ipa, w);
        DataUnreferenced(m, e.pa);
        UnmapPage(w);
        status, data := Success, e.pa;
      }
      top := SkipNonLiveEntries(tables[w.table], w.idx, w.level, ipa);
      Unlock(w.table);
    }

    /** Unmaps the granule of page entry `w`, wipes it and gives it back. */
    method UnmapPage(w: WalkResult)
      requires AtEntry(State(), w.table, w.idx) && tables[w.table][w.idx].AssignedEntry? && locks == {w.table}
      requires Is(State(), tables[w.table][w.idx].pa, DataState) && tables[w.table][w.idx].pa != w.table
      requires gs[tables[w.table][w.idx].pa].refcount == 0
      modifies this`tables, this`gs, this`locks
      ensures State() == UnmapData(old(State()), w, RipasLeft(old(tables)[w.table][w.idx].ripas))
      ensures locks == old(locks)
    {
      ghost var m := State();
      UnmapCount(m, w);
      var e := tables[w.table][w.idx];
      var left := if e.ripas.Ram? then Destroyed else if e.ripas.Empty? then Empty else Destroyed;
      assert left == RipasLeft(e.ripas) && gs[e.pa].state == DataState;
      hide *;
      StateIs();
      WriteEntry(w.table, w.idx, UnassignedEntry(left));
      RefcountDec(w.table, 1);
      ReleaseData(e.pa);
      StateIs();
      Unmapped(m, State(), w, left);
    }

    method ReleaseData(data: Addr)
      requires data !in locks && data in gs && gs[data].state == DataState
      modifies this`gs, this`locks
      ensures gs == old(gs)[data := old(gs)[data].(state := Delegated, zero := true)] && locks == old(locks)
    {
      var ok := FindLock(data, DataState);
      assert ok;
      gs := gs[data := gs[data].(zero := true)];
      gs := gs[data := gs[data].(state := Delegated)];
      Unlock(data);
    }

    // ---------------------------------------------------------- RIPAS over a range

    /** One entry of the range; tells whether the operation applies to it. */
    method UpdateOne(rd: Addr, t: Addr, i: nat, level: int, addr: Addr, top: Addr, op: RangeOp) returns (more: bool)
      requires AtRange(State(), rd, t, i, level, addr, top) && t in locks && i < ENTRIES && addr + Span(level) <= top
      requires op.SetOp? ==> !op.ripas.Destroyed?
      modifies this`tables
      ensures more ==> AtRange(State(), rd, t, i + 1, level, addr + Span(level), top)
      ensures var m := old(State());
              RangeLoop(m, t, i, level, addr, top, op)
              == if more then RangeLoop(State(), t, i + 1, level, addr + Span(level), top, op)
                  else RangeResult(State(), addr)
    {
      hide FullInv, Reached, Aligned, Apply, Span;
      var e := tables[t][i];
      var e2: Option<Entry>;
      if op.SetOp? {
        e2 := UpdateRipas(e, op.ripas, op.changeDestroyed);
      } else {
        e2 := InitEntryRipas(e);
      }
      if e2.None? { return false; }
      RangeStep(State(), rd, t, i, level, addr, top, op);
      ghost var m1 := SetEntry(State(), t, i, e2.value);
      WriteEntry(t, i, e2.value);
      assert State() == m1;
      return true;
    }

    /** Works through the locked table `t` from entry `first`, which maps `base`. */
    method UpdateRange(rd: Addr, t: Addr, first: nat, level: int, base: Addr, top: Addr, op: RangeOp)
      returns (addr: Addr)
      requires AtRange(State(), rd, t, first, level, base, top) && t in locks
      requires op.SetOp? ==> !op.ripas.Destroyed?
      modifies this`tables
      ensures RangeLoop(old(State()), t, first, level, base, top, op) == RangeResult(State(), addr)
    {
      hide *;
      ghost var m := State();
      StateIs();
      addr := base;
      var i := first;
      RangeEnd(m, rd, t, i, level, addr, top, op);
      var n := if op.InitOp? then TableEntries(level) else ENTRIES;
      while i < n && addr + Span(level) <= top
        invariant State() == Machine(gs, tables, realms, recs, place, owner)
        invariant AtRange(State(), rd, t, i, level, addr, top) && t in tables && t in gs && |tables[t]| == ENTRIES
        invariant RangeLoop(State(), t, i, level, addr, top, op) == RangeLoop(m, t, first, level, base, top, op)
        invariant !(i < n && addr + Span(level) <= top) ==>
                    RangeLoop(State(), t, i, level, addr, top, op) == RangeResult(State(), addr)
        decreases n - i
      {
        var more := UpdateOne(rd, t, i, level, addr, top, op);
        StateIs();
        if !more { break; }
        addr := addr + Span(level);
        i := i + 1;
        RangeEnd(State(), rd, t, i, level, addr, top, op);
      }
    }

    method ServeRipas(rd: Addr, rec: Addr, base: Addr, top: Addr) returns (status: Status, next: Addr)
      requires FullInv(State()) && (rec in recs ==> RequestOk(State(), rec)) && locks == {}
      modifies this
      ensures Reply(State(), status, next, 0) == SetRipas(old(State()), rd, rec, base, top)
      ensures locks == {}
    {
      ghost var m := State();
      hide *;
      StateIs();
      Failures(m);
      SetRipasEarly(m, rd, rec, base, top);
      if top <= base { return ErrorInput, 0; }
      var ok := FindLockTwo(rd, RdState, rec, RecState);
      StateIs();
      if !ok { return ErrorInput, 0; }
      NotTheseTables(m, rd, rec);
      var q := recs[rec].request;
      next := 0;
      if recs[rec].rd != rd {
        status := ErrorRec;
      } else if base != q.addr || top > q.top {
        status := ErrorInput;
      } else {
        var w := WalkRealm(rd, base, PAGE_LEVEL, true);
        StateIs();
        SetRipasAt(m, rd, rec, base, top, w);
        if !Aligned(base, w.level) {
          status := ErrorRtt(w.level);
        } else {
          next := UpdateRange(rd, w.table, w.idx, w.level, base, top, SetOp(q.ripas, q.changeDestroyed));
          StateIs();
          if next > base {
            status := Success;
            recs := recs[rec := recs[rec].(request := q.(addr := next))];
          } else {
            status, next := ErrorRtt(w.level), 0;
          }
        }
        Unlock(w.table);
      }
      Unlock(rec);
      Unlock(rd);
      StateIs();
    }

    method InitialRipas(rd: Addr, base: Addr, top: Addr) returns (status: Status, next: Addr)
      requires FullInv(State()) && locks == {}
      modifies this
      ensures Reply(State(), status, next, 0) == InitRipas(old(State()), rd, base, top)
      ensures locks == {}
    {
      ghost var m := State();
      hide FullInv, Walk, InIpa, InPar, ParSize, Aligned, Idx, InitRipas, AtRange, RangeLoop, Geometry;
      InitRipasEarly(m, rd, base, top);
      next := 0;
      if top <= base { return ErrorInput, 0; }
      var ok := FindLock(rd, RdState);
      if !ok { return ErrorInput, 0; }
      var r := realms[rd];
      if || !ValidMapAddr(r, base, PAGE_LEVEL) || !ValidMapAddr(r, top, PAGE_LEVEL)
         || !InPar(r, base) || top < PAGE || !InPar(r, top - PAGE) {
        status := ErrorInput;
      } else if r.state != New {
        status := ErrorRealm;
      } else {
        var w := WalkRealm(rd, base, PAGE_LEVEL, true);
        InitRipasAt(m, rd, base, top, w);
        if !Aligned(base, w.level) {
          status := ErrorRtt(w.level);
        } else {
          next := UpdateRange(rd, w.table, w.idx, w.level, base, top, InitOp);
          if next > base {
            status := Success;
          } else {
            status, next := ErrorRtt(w.level), 0;
          }
        }
        Unlock(w.table);
      }
      Unlock(rd);
    }
  }

  /** The loop ends where the table or the range ends. */
  lemma RangeEnd(m: Machine, rd: Addr, t: Addr, i: nat, level: int, addr: Addr, top: Addr, op: RangeOp)
    requires AtRange(m, rd, t, i, level, addr, top)
    ensures t in m.tables && t in m.gs && |m.tables[t]| == ENTRIES && MIN_LEVEL <= level <= PAGE_LEVEL
    ensures i >= TableEntries(level) || addr + Span(level) > top ==>
              RangeLoop(m, t, i, level, addr, top, op) == RangeResult(m, addr)
    ensures TableEntries(level) <= ENTRIES
  {
    if i < ENTRIES && addr + Span(level) <= top { TopRange(m, rd, t, i, level, addr, top); }
  }

  /** A level -1 table is not read beyond the entries it has. */
  lemma TopRange(m: Machine, rd: Addr, t: Addr, i: nat, level: int, addr: Addr, top: Addr)
    requires AtRange(m, rd, t, i, level, addr, top) && i < ENTRIES && addr + Span(level) <= top
    ensures i < TableEntries(level)
  {
    ReachedFacts(m, rd, level, addr, WalkResult(t, i, level));
  }

  lemma ParAddress(r: Realm, ipa: Addr)
    requires ValidMapAddr(r, ipa, PAGE_LEVEL)
    ensures InIpa(r, ipa)
  {}

  lemma Failures(m: Machine)
    ensures forall s :: Fail(m, s) == Reply(m, s, 0, 0)
  {}

  lemma UnmapCount(m: Machine, w: WalkResult)
    requires AtEntry(m, w.table, w.idx) && m.tables[w.table][w.idx].AssignedEntry?
    ensures m.gs[w.table].refcount > 0
  {
    EntryFacts(m, w.table, w.idx);
    FreeEntry(m.tables[w.table], w.idx);
  }

  /** The checks of RTT_CREATE before the walk. */
  lemma RttCreateEarly(m: Machine, rd: Addr, rtt: Addr, ipa: Addr, level: int)
    requires Inv(m)
    ensures !Is(m, rtt, Delegated) || !Is(m, rd, RdState) || rtt == rd ==>
              RttCreate(m, rd, rtt, ipa, level) == Fail(m, ErrorInput)
    ensures Is(m, rtt, Delegated) && Is(m, rd, RdState) ==>
              && rd in m.realms && ValidRealm(m.realms[rd])
              && var r := m.realms[rd];
                 if !ValidStructureCmd(r, ipa, level) || (!r.fmt.lpa2 && rtt >= 0x1_0000_0000_0000)
                 then RttCreate(m, rd, rtt, ipa, level) == Fail(m, ErrorInput)
                 else MIN_LEVEL <= r.start <= level - 1 < PAGE_LEVEL && InIpa(r, ipa)
  {
    if Is(m, rd, RdState) { RdIsRealm(m, rd); }
  }

  /** RTT_CREATE after the walk. */
  lemma RttCreateAt(m: Machine, rd: Addr, rtt: Addr, ipa: Addr, level: int, w: WalkResult)
    requires Inv(m) && Is(m, rd, RdState) && Is(m, rtt, Delegated) && rd in m.realms && ValidRealm(m.realms[rd])
    requires ValidStructureCmd(m.realms[rd], ipa, level) && (m.realms[rd].fmt.lpa2 || rtt < 0x1_0000_0000_0000)
    requires Reached(m, rd, level - 1, ipa, w)
    ensures AtEntry(m, w.table, w.idx) && MIN_LEVEL < level <= PAGE_LEVEL && rtt in m.gs
    ensures var e := m.tables[w.table][w.idx];
            RttCreate(m, rd, rtt, ipa, level)
            == if w.level != level - 1 then Fail(m, ErrorRtt(w.level))
               else if e.TableEntry? then Fail(m, ErrorRtt(level - 1))
               else Reply(AddTable(m, w.table, w.idx, rtt, Unfold(e, level)), Success, 0, 0)
  {
    ReachedFacts(m, rd, level - 1, ipa, w);
    assert GranuleOk(m, rtt);
  }

  /** The checks of the map and unmap commands before the walk. */
  lemma NsEarly(m: Machine, rd: Addr, ipa: Addr, level: int, d: Option<HostDesc>)
    requires Inv(m)
    ensures var q := if d.Some? then MapNs(m, rd, ipa, level, d.value) else UnmapNs(m, rd, ipa, level);
            if !(MIN_BLOCK_LEVEL <= level <= PAGE_LEVEL) || !Is(m, rd, RdState) then q == Fail(m, ErrorInput)
            else
              && rd in m.realms && ValidRealm(m.realms[rd])
              && var r := m.realms[rd];
                 if (d.Some? && !HostDescValid(r.fmt, d.value, level)) || !ValidMapCmd(r, ipa, level) || InPar(r, ipa)
                 then q == Fail(m, ErrorInput)
                 else InIpa(r, ipa) && (level < r.start ==> q == Fail(m, AssertionFailure))
  {
    if Is(m, rd, RdState) { RdIsRealm(m, rd); }
  }

  /** The map and unmap commands after the walk. */
  lemma NsAt(m: Machine, rd: Addr, ipa: Addr, level: int, d: Option<HostDesc>, w: WalkResult)
    requires Inv(m) && MIN_BLOCK_LEVEL <= level <= PAGE_LEVEL && Is(m, rd, RdState) && rd in m.realms
    requires ValidRealm(m.realms[rd])
    requires var r := m.realms[rd];
             (d.Some? ==> HostDescValid(r.fmt, d.value, level)) && ValidMapCmd(r, ipa, level) && !InPar(r, ipa)
             && r.start <= level
    requires Reached(m, rd, level, ipa, w)
    ensures AtEntry(m, w.table, w.idx) && MIN_LEVEL <= w.level <= PAGE_LEVEL
    ensures d.Some? ==> HostEntry(m.realms[rd].fmt, d.value).AssignedNsEntry?
    ensures d.Some? ==>
              MapNs(m, rd, ipa, level, d.value)
              == if w.level != level then Fail(m, ErrorRtt(w.level))
                 else if !m.tables[w.table][w.idx].UnassignedNsEntry? then Fail(m, ErrorRtt(level))
                 else Reply(SetEntry(m, w.table, w.idx, HostEntry(m.realms[rd].fmt, d.value)), Success, 0, 0)
    ensures d.None? ==>
              UnmapNs(m, rd, ipa, level)
              == if w.level != level || !m.tables[w.table][w.idx].AssignedNsEntry?
                 then Reply(m, ErrorRtt(w.level), SkipNonLive(m.tables[w.table], w.idx, w.level, ipa), 0)
                 else
                   var m2 := SetEntry(m, w.table, w.idx, UnassignedNsEntry);
                   Reply(m2, Success, SkipNonLive(m2.tables[w.table], w.idx, w.level, ipa), 0)
  {
    ReachedFacts(m, rd, level, ipa, w);
  }

  lemma NotTheseTables(m: Machine, rd: Addr, rec: Addr)
    requires FullInv(m) && Is(m, rd, RdState) && Is(m, rec, RecState)
    ensures rd !in m.place && rec !in m.place
  {
    assert GranuleOk(m, rd) && GranuleOk(m, rec);
  }

  /** The checks of RTT_SET_RIPAS before the walk. */
  lemma SetRipasEarly(m: Machine, rd: Addr, rec: Addr, base: Addr, top: Addr)
    requires FullInv(m) && (rec in m.recs ==> RequestOk(m, rec))
    ensures Inv(m)
    ensures top <= base || !Is(m, rd, RdState) || !Is(m, rec, RecState) || rd == rec ==>
              SetRipas(m, rd, rec, base, top) == Fail(m, ErrorInput)
    ensures top > base && Is(m, rd, RdState) && Is(m, rec, RecState) ==>
              && rec in m.recs && rd in m.realms && ValidRealm(m.realms[rd]) && m.realms[rd].start <= PAGE_LEVEL
              && rd !in m.place
              && var q := m.recs[rec].request;
                 if m.recs[rec].rd != rd then SetRipas(m, rd, rec, base, top) == Fail(m, ErrorRec)
                 else if base != q.addr || top > q.top then SetRipas(m, rd, rec, base, top) == Fail(m, ErrorInput)
                 else InIpa(m.realms[rd], base)
  {
    if top > base && Is(m, rd, RdState) && Is(m, rec, RecState) {
      RdIsRealm(m, rd);
      assert GranuleOk(m, rec) && GranuleOk(m, rd);
      var q := m.recs[rec].request;
      if m.recs[rec].rd == rd && base == q.addr && top <= q.top { RequestInIpa(m, rec); }
    }
  }

  /** RTT_SET_RIPAS after the walk. */
  lemma SetRipasAt(m: Machine, rd: Addr, rec: Addr, base: Addr, top: Addr, w: WalkResult)
    requires FullInv(m) && rec in m.recs && RequestOk(m, rec) && m.recs[rec].rd == rd
    requires Reached(m, rd, PAGE_LEVEL, base, w) && Is(m, rd, RdState) && Is(m, rec, RecState)
    requires base < top <= m.recs[rec].request.top && base == m.recs[rec].request.addr
    ensures MIN_LEVEL <= w.level <= PAGE_LEVEL && !m.recs[rec].request.ripas.Destroyed?
    ensures w.table in m.tables && w.table in m.gs && |m.tables[w.table]| == ENTRIES
    ensures Aligned(base, w.level) ==> AtRange(m, rd, w.table, w.idx, w.level, base, top)
    ensures var q := m.recs[rec].request;
            SetRipas(m, rd, rec, base, top)
            == if !Aligned(base, w.level) then Fail(m, ErrorRtt(w.level))
               else
                 var l := RangeLoop(m, w.table, w.idx, w.level, base, top, SetOp(q.ripas, q.changeDestroyed));
                 if l.addr > base then
                   Reply(l.m.(recs := m.recs[rec := m.recs[rec].(request := q.(addr := l.addr))]), Success, l.addr, 0)
                 else Fail(m, ErrorRtt(w.level))
    ensures var q := m.recs[rec].request;
            Aligned(base, w.level) ==>
              var l := RangeLoop(m, w.table, w.idx, w.level, base, top, SetOp(q.ripas, q.changeDestroyed));
              l.m.recs == m.recs && (l.addr <= base ==> l.m == m)
  {
    ReachedFacts(m, rd, PAGE_LEVEL, base, w);
    if Aligned(base, w.level) {
      StartRange(m, rd, base, top);
      var q := m.recs[rec].request;
      var op := SetOp(q.ripas, q.changeDestroyed);
      hide FullInv;
      RangeLoopInv(m, rd, w.table, w.idx, w.level, base, top, op);
      NoProgress(m, w.table, w.idx, w.level, base, top, op);
    }
  }

  /** A loop that does not advance changes nothing. */
  lemma NoProgress(m: Machine, t: Addr, i: nat, level: int, addr: Addr, top: Addr, op: RangeOp)
    requires MIN_LEVEL <= level <= PAGE_LEVEL && t in m.tables && t in m.gs && |m.tables[t]| == ENTRIES
    ensures RangeLoop(m, t, i, level, addr, top, op).addr >= addr
    ensures RangeLoop(m, t, i, level, addr, top, op).addr <= addr ==> RangeLoop(m, t, i, level, addr, top, op).m == m
    decreases if i < ENTRIES then ENTRIES - i else 0
  {
    if i < ENTRIES && addr + Span(level) <= top && Apply(op, m.tables[t][i]).Some? {
      NoProgress(SetEntry(m, t, i, Apply(op, m.tables[t][i]).value), t, i + 1, level, addr + Span(level), top, op);
    }
  }

  /** The checks of RTT_INIT_RIPAS before the walk. */
  lemma InitRipasEarly(m: Machine, rd: Addr, base: Addr, top: Addr)
    requires FullInv(m)
    ensures Inv(m)
    ensures top <= base || !Is(m, rd, RdState) ==> InitRipas(m, rd, base, top) == Fail(m, ErrorInput)
    ensures top > base && Is(m, rd, RdState) ==>
              && rd in m.realms && ValidRealm(m.realms[rd]) && m.realms[rd].start <= PAGE_LEVEL && rd !in m.place
              && var r := m.realms[rd];
                 if || !ValidMapAddr(r, base, PAGE_LEVEL) || !ValidMapAddr(r, top, PAGE_LEVEL)
                    || !InPar(r, base) || top < PAGE || !InPar(r, top - PAGE)
                 then InitRipas(m, rd, base, top) == Fail(m, ErrorInput)
                 else r.state != New ==> InitRipas(m, rd, base, top) == Fail(m, ErrorRealm)
  {
    if Is(m, rd, RdState) {
      RdIsRealm(m, rd);
      assert GranuleOk(m, rd);
    }
  }

  /** RTT_INIT_RIPAS after the walk. */
  lemma InitRipasAt(m: Machine, rd: Addr, base: Addr, top: Addr, w: WalkResult)
    requires FullInv(m) && Reached(m, rd, PAGE_LEVEL, base, w) && Is(m, rd, RdState) && base < top
    requires var r := m.realms[rd];
             && ValidMapAddr(r, base, PAGE_LEVEL) && ValidMapAddr(r, top, PAGE_LEVEL) && InPar(r, base)
             && top >= PAGE && InPar(r, top - PAGE) && r.state == New
    ensures MIN_LEVEL <= w.level <= PAGE_LEVEL && w.table in m.tables && w.table in m.gs
    ensures |m.tables[w.table]| == ENTRIES
    ensures Aligned(base, w.level) ==> AtRange(m, rd, w.table, w.idx, w.level, base, top)
    ensures InitRipas(m, rd, base, top)
            == if !Aligned(base, w.level) then Fail(m, ErrorRtt(w.level))
               else
                 var l := RangeLoop(m, w.table, w.idx, w.level, base, top, InitOp);
                 if l.addr > base then Reply(l.m, Success, l.addr, 0) else Fail(m, ErrorRtt(w.level))
    ensures Aligned(base, w.level) ==>
              var l := RangeLoop(m, w.table, w.idx, w.level, base, top, InitOp); l.addr <= base ==> l.m == m
  {
    ReachedFacts(m, rd, PAGE_LEVEL, base, w);
    if Aligned(base, w.level) {
      EndInPar(m.realms[rd], top);
      StartRange(m, rd, base, top);
      NoProgress(m, w.table, w.idx, w.level, base, top, InitOp);
    }
  }

  lemma EndInPar(r: Realm, top: Addr)
    requires ValidRealm(r) && top % PAGE == 0 && top >= PAGE && InPar(r, top - PAGE)
    ensures top <= ParSize(r.ipaBits)
  {
    RootsCover(r.ipaBits, r.start, |r.roots|);
    PageBelow(top, Pow2(r.ipaBits - Lsb(r.start) - 1), Span(r.start), r.start);
  }

  /** RTT_INIT_RIPAS on one entry. */
  method InitEntryRipas(e: Entry) returns (r: Option<Entry>)
    ensures r == Apply(InitOp, e)
  {
    if e == UnassignedEntry(Empty) { return Some(UnassignedEntry(Ram)); }
    if e != UnassignedEntry(Ram) { return None; }
    return Some(e);
  }

  lemma Unmapped(m: Machine, m2: Machine, w: WalkResult, r: Ripas)
    requires w.table in m.tables && w.table in m.gs && w.idx < |m.tables[w.table]|
    requires m.tables[w.table][w.idx].AssignedEntry?
    requires var pa := m.tables[w.table][w.idx].pa;
             && pa in m.gs && pa != w.table && m.gs[pa].refcount == 0 && m.gs[w.table].refcount > 0
             && m2 == m.(gs := m.gs[w.table := m.gs[w.table].(refcount := m.gs[w.table].refcount - 1)]
                                   [pa := m.gs[pa].(state := Delegated, zero := true)],
                         tables := m.tables[w.table := m.tables[w.table][w.idx := UnassignedEntry(r)]])
    ensures m2 == UnmapData(m, w, r)
  {}

  lemma StartsAbovePages(r: Realm)
    requires ValidRealm(r)
    ensures r.start <= PAGE_LEVEL
  {}

  /** The checks of DATA_CREATE before the walk. */
  lemma DataCreateEarly(m: Machine, rd: Addr, data: Addr, ipa: Addr, src: DataSource)
    requires Inv(m)
    ensures !Is(m, data, Delegated) || !Is(m, rd, RdState) || data == rd ==>
              DataCreate(m, rd, data, ipa, src) == Fail(m, ErrorInput)
    ensures Is(m, data, Delegated) && Is(m, rd, RdState) ==>
              && rd in m.realms && ValidRealm(m.realms[rd]) && m.realms[rd].start <= PAGE_LEVEL
              && var r := m.realms[rd];
                 if src.Copy? && r.state != New then DataCreate(m, rd, data, ipa, src) == Fail(m, ErrorRealm)
                 else
                   (|| !InPar(r, ipa) || !ValidMapAddr(r, ipa, PAGE_LEVEL)
                    || (!r.fmt.lpa2 && data >= 0x1_0000_0000_0000)) ==>
                     DataCreate(m, rd, data, ipa, src) == Fail(m, ErrorInput)
  {
    if Is(m, rd, RdState) { RdIsRealm(m, rd); }
  }

  /** DATA_CREATE after the walk. */
  lemma DataCreateAt(m: Machine, rd: Addr, data: Addr, ipa: Addr, src: DataSource, w: WalkResult)
    requires Reached(m, rd, PAGE_LEVEL, ipa, w) && Is(m, rd, RdState) && Is(m, data, Delegated)
    requires var r := m.realms[rd];
             && (src.Copy? ==> r.state == New) && InPar(r, ipa) && ValidMapAddr(r, ipa, PAGE_LEVEL)
             && (!r.fmt.lpa2 ==> data < 0x1_0000_0000_0000)
    ensures AtEntry(m, w.table, w.idx)
    ensures var e := m.tables[w.table][w.idx];
            DataCreate(m, rd, data, ipa, src)
            == if w.level != PAGE_LEVEL then Fail(m, ErrorRtt(w.level))
               else if !e.UnassignedEntry? && !e.UnassignedNsEntry? then Fail(m, ErrorRtt(PAGE_LEVEL))
               else if src.Copy? && !src.readOk then Fail(m, ErrorInput)
               else Reply(MapData(m, w, rd, ipa, if src.Copy? then Ram else RipasField(e), data), Success, 0, 0)
  {
    ReachedFacts(m, rd, PAGE_LEVEL, ipa, w);
    assert GranuleOk(m, data);
  }

  lemma DataUnreferenced(m: Machine, a: Addr)
    requires Inv(m) && Is(m, a, DataState)
    ensures m.gs[a].refcount == 0
  {
    assert GranuleOk(m, a);
  }

  lemma UnmapAligned(r: Realm, ipa: Addr)
    requires ValidMapAddr(r, ipa, PAGE_LEVEL)
    ensures ipa % PAGE == 0
  {}

  /** Overwriting an entry that is not counted by another such entry leaves the count alone. */
  lemma UncountedEntry(m: Machine, t: Addr, i: nat, e: Entry)
    requires t in m.tables && t in m.gs && i < |m.tables[t]| && !m.tables[t][i].Counted()
    requires e == UnassignedNsEntry || e.AssignedNsEntry?
    ensures SetEntry(m, t, i, e) == m.(tables := m.tables[t := m.tables[t][i := e]])
  {
    assert SetEntry(m, t, i, e).gs == m.gs;
  }

  /** What RTT_DESTROY finds at the entry of a table, and what it has to do there. */
  lemma DestroyTable(m: Machine, rd: Addr, ipa: Addr, level: int, w: WalkResult, n: Addr)
    requires Inv(m) && Is(m, rd, RdState) && AtTable(m, rd, ipa, level, w, n)
    ensures Is(m, n, RttState) && n in m.place
    ensures m.gs[n].refcount != 0 ==> RttDestroy(m, rd, ipa, level) == Reply(m, ErrorRtt(level), 0, ipa)
    ensures m.gs[n].refcount == 0 ==>
              && CanDrop(m, w.table, w.idx, n, DestroyedLeaf(m.realms[rd], ipa))
              && !DestroyedLeaf(m.realms[rd], ipa).Counted()
              && var m2 := DropTable(m, w.table, w.idx, n, DestroyedLeaf(m.realms[rd], ipa));
                 RttDestroy(m, rd, ipa, level) ==
                   Reply(m2, Success, n, SkipNonLive(m2.tables[w.table], w.idx, w.level, ipa))
  {
    EntryFacts(m, w.table, w.idx);
    if m.gs[n].refcount == 0 {
      RttDestroyStep(m, rd, ipa, level);
    }
  }

  lemma OneTableLock(m: Machine, rd: Addr)
    requires Inv(m) && Is(m, rd, RdState)
    ensures rd !in m.place
  {
    assert GranuleOk(m, rd);
  }

  /** What RTT_FOLD finds at the entry of a table, and what it has to do there. */
  lemma FoldTable(m: Machine, rd: Addr, ipa: Addr, level: int, w: WalkResult, n: Addr)
    requires Inv(m) && Is(m, rd, RdState) && AtTable(m, rd, ipa, level, w, n)
    ensures Is(m, n, RttState) && n in m.place && m.gs[n].refcount == Count(m.tables[n])
    ensures forall k | 0 <= k < ENTRIES :: ValidEntry(m.realms[rd].fmt, m.tables[n][k], level)
    ensures match FoldDecision(m.realms[rd].fmt, m.tables[n], level)
            case Fold(leaf) =>
              && CanDrop(m, w.table, w.idx, n, leaf) && Count(m.tables[n]) == (if leaf.Counted() then ENTRIES else 0)
              && RttFold(m, rd, ipa, level) == Reply(DropTable(m, w.table, w.idx, n, leaf), Success, n, 0)
            case NoFold(l) => RttFold(m, rd, ipa, level) == Fail(m, ErrorRtt(l))
  {
    RdIsRealm(m, rd);
    EntryFacts(m, w.table, w.idx);
    forall k | 0 <= k < ENTRIES ensures ValidEntry(m.realms[rd].fmt, m.tables[n][k], level) { EntryFacts(m, n, k); }
    assert RefcountOk(m, n);
    var d := FoldEntry(m.realms[rd].fmt, m.tables[n], level);
    if d.Some? {
      UnfoldValid(m.realms[rd].fmt, d.value, level);
      UnfoldCount(d.value, m.tables[n], level);
    }
    hide Inv, Walk, Unfold, ValidRealm, Idx, Aligned;
  }

  lemma Released(m: Machine, m2: Machine, t: Addr, i: nat, n: Addr, e: Entry)
    requires t in m.gs && n in m.gs && t != n && t in m.tables && i < |m.tables[t]|
    requires m2 == m.(gs := m2.gs, tables := m2.tables, place := m.place - {n})
    requires SameBut(m.gs, m2.gs, t, n) && t in m2.gs && n in m2.gs && m2.gs[n] == Granule(Delegated, 0, true)
    requires m2.gs[t] == m.gs[t].(refcount := Recount(m.gs[t].refcount, m.tables[t][i], e))
    requires SameBut(m.tables, m2.tables, t, n) && t in m2.tables && n !in m2.tables
    requires m2.tables[t] == m.tables[t][i := e]
    ensures m2 == DropTable(m, t, i, n, e)
  {
    var q := DropTable(m, t, i, n, e);
    assert m2.gs == q.gs;
    assert m2.tables == q.tables;
  }

  /** A table with an uncounted entry has room for another reference. */
  lemma FreeEntry(es: seq<Entry>, i: nat)
    requires i < |es| == ENTRIES
    ensures Count(es) <= ENTRIES && (!es[i].Counted() ==> Count(es) < ENTRIES) && (es[i].Counted() ==> Count(es) > 0)
  {
    CountBounds(es);
  }

  /** `b` is `a` but for the keys `s` and `t`. */
  ghost predicate SameBut<T(!new)>(a: map<Addr, T>, b: map<Addr, T>, s: Addr, t: Addr) {
    forall k | k != s && k != t :: (k in a <==> k in b) && (k in a ==> b[k] == a[k])
  }

  lemma Unfolded(m: Machine, m2: Machine, t: Addr, i: nat, n: Addr, es: seq<Entry>)
    requires t in m.gs && n in m.gs && t != n && t in m.tables && t in m.place && i < |m.tables[t]|
    requires m2 == m.(gs := m2.gs, tables := m2.tables,
                      place := m.place[n := Place(m.place[t].rd, m.place[t].path + [i], t)])
    requires SameBut(m.gs, m2.gs, t, n) && t in m2.gs && n in m2.gs && m2.gs[n] == Granule(RttState, Count(es), false)
    requires m2.gs[t] == m.gs[t].(refcount := Recount(m.gs[t].refcount, m.tables[t][i], TableEntry(n)))
    requires SameBut(m.tables, m2.tables, t, n) && t in m2.tables && n in m2.tables && m2.tables[n] == es
    requires m2.tables[t] == m.tables[t][i := TableEntry(n)]
    ensures m2 == AddTable(m, t, i, n, es)
  {
    var q := AddTable(m, t, i, n, es);
    assert m2.gs == q.gs;
    assert m2.tables == q.tables;
  }

  lemma NotTables(m: Machine, rd: Addr, n: Addr)
    requires Inv(m) && Is(m, rd, RdState) && Is(m, n, Delegated)
    ensures rd !in m.place && n !in m.place && n < MAX_ADDR && m.gs[n] == Granule(Delegated, 0, true)
  {
    assert GranuleOk(m, rd) && GranuleOk(m, n);
  }

  /** The number of the concatenated root table is the starting-level index by 512. */
  lemma SlIndex(ipa: Addr, start: int)
    requires MIN_LEVEL <= start <= PAGE_LEVEL
    ensures RootIdx(ipa, start) == ipa / Span(start) / ENTRIES
    ensures ipa / Span(start) < ENTRIES ==> RootIdx(ipa, start) == 0
  {
    SpanStep(start);
    DivMod(ipa, Span(start), ENTRIES);
  }
}
