/** The shape of all tables together: below the root tables of each realm hangs a tree, and
    every RTT granule is in exactly one of these trees, at one place. */
module RttForest {
  import opened S2Geometry
  import opened S2tte
  import opened RealmGeometry
  import opened Rtt
  import opened RttCommands

  /** Following the entries `path` from table `t` arrives at table `u`. */
  predicate Descends(ts: Tables, t: Addr, path: seq<nat>, u: Addr)
    decreases |path|
  {
    if path == [] then t == u
    else
      var e := EntryAt(ts, t, path[0]);
      e.TableEntry? && Descends(ts, e.pa, path[1..], u)
  }

  /** `t` is a root table of realm `rd`. */
  predicate RootOf(m: Machine, rd: Addr, t: Addr) { rd in m.realms && t in m.realms[rd].roots }

  /** `t` is a table of realm `rd`: it is found from root table `root` by the entries `path`. */
  predicate Below(m: Machine, rd: Addr, root: Addr, path: seq<nat>, t: Addr) {
    RootOf(m, rd, root) && Descends(m.tables, root, path, t)
  }

  /** Entry `i` of table `p` names table `t`. */
  predicate Names(m: Machine, p: Addr, i: nat, t: Addr) {
    p in m.tables && i < |m.tables[p]| && m.tables[p][i] == TableEntry(t)
  }

  lemma {:induction false} DescendsFurther(ts: Tables, t: Addr, path: seq<nat>, u: Addr, i: nat, v: Addr)
    requires Descends(ts, t, path, u) && EntryAt(ts, u, i) == TableEntry(v)
    ensures Descends(ts, t, path + [i], v)
    decreases |path|
  {
    if path == [] {
      assert [i][1..] == [];
      assert path + [i] == [i];
    } else {
      assert (path + [i])[1..] == path[1..] + [i];
      DescendsFurther(ts, EntryAt(ts, t, path[0]).pa, path[1..], u, i, v);
    }
  }

  /** The recorded place of a table grows by the entries that are followed. */
  lemma {:induction false} DescendsPlace(m: Machine, t: Addr, path: seq<nat>, u: Addr)
    requires Inv(m) && t in m.place && Descends(m.tables, t, path, u)
    ensures u in m.place && m.place[u].rd == m.place[t].rd && m.place[u].path == m.place[t].path + path
    decreases |path|
  {
    if path != [] {
      assert TableOk(m, t);
      EntryFacts(m, t, path[0]);
      hide Inv, TableOk, ValidEntry, Geometry;
      DescendsPlace(m, EntryAt(m.tables, t, path[0]).pa, path[1..], u);
      assert path == [path[0]] + path[1..];
      assert m.place[t].path + [path[0]] + path[1..] == m.place[t].path + path;
    }
  }

  /** A table is found from the root table that its place names. */
  lemma {:induction false} FoundFromRoot(m: Machine, t: Addr)
    requires Inv(m) && t in m.place
    ensures var q := m.place[t];
            && q.path != [] && q.rd in m.realms && q.path[0] < |m.realms[q.rd].roots|
            && |q.path| - 1 <= PAGE_LEVEL - m.realms[q.rd].start <= 4
            && Below(m, q.rd, m.realms[q.rd].roots[q.path[0]], q.path[1..], t)
    decreases |m.place[t].path|
  {
    assert TableOk(m, t);
    var q := m.place[t];
    if |q.path| == 1 {
      assert q.path[1..] == [];
    } else {
      FoundFromRoot(m, q.parent);
      hide Inv, TableOk, ValidEntry, NumRootRtts;
      var p, i := q.path[..|q.path| - 1], q.path[|q.path| - 1];
      DescendsFurther(m.tables, m.realms[q.rd].roots[q.path[0]], p[1..], q.parent, i, t);
      assert p[1..] + [i] == q.path[1..];
    }
  }

  lemma RootIsPlaced(m: Machine, rd: Addr, t: Addr)
    requires Inv(m) && RootOf(m, rd, t)
    ensures t in m.place && |m.place[t].path| == 1 && m.place[t].rd == rd
    ensures m.place[t].path[0] < |m.realms[rd].roots| && m.realms[rd].roots[m.place[t].path[0]] == t
  {
    assert RootsOk(m, rd);
    var k :| 0 <= k < |m.realms[rd].roots| && m.realms[rd].roots[k] == t;
    assert m.place[m.realms[rd].roots[k]] == Place(rd, [k], rd);
  }

  /** A table is found from one root table of one realm only, and by one path. */
  lemma FoundOnce(m: Machine, rd: Addr, root: Addr, path: seq<nat>, rd': Addr, root': Addr, path': seq<nat>, t: Addr)
    requires Inv(m) && Below(m, rd, root, path, t) && Below(m, rd', root', path', t)
    ensures rd == rd' && root == root' && path == path'
  {
    RootIsPlaced(m, rd, root);
    RootIsPlaced(m, rd', root');
    DescendsPlace(m, root, path, t);
    DescendsPlace(m, root', path', t);
    hide Inv, Descends;
    var p := m.place[t].path;
    assert p[0] == m.place[root].path[0] == m.place[root'].path[0];
    assert path == p[1..] == path';
  }

  /** No entry leads back: no table is found below itself. */
  lemma NoCycle(m: Machine, t: Addr, path: seq<nat>)
    requires Inv(m) && Descends(m.tables, t, path, t)
    ensures path == []
  {
    if t in m.place {
      DescendsPlace(m, t, path, t);
      assert |m.place[t].path + path| == |m.place[t].path| + |path|;
    }
  }

  /** The tables of the machine form a forest whose roots are the root tables of the realms: the
      RTT granules are the tables found from them, each by exactly one path of at most four
      entries and within one realm; nothing is found below itself. */
  lemma Forest(m: Machine, t: Addr)
    requires Inv(m)
    ensures Is(m, t, RttState) <==> exists rd, root, path :: Below(m, rd, root, path, t)
    ensures forall rd, root, path, rd', root', path' | Below(m, rd, root, path, t) && Below(m, rd', root', path', t) ::
              rd == rd' && root == root' && path == path'
    ensures forall rd, root, path | Below(m, rd, root, path, t) :: |path| <= PAGE_LEVEL - m.realms[rd].start <= 4
    ensures forall path | Descends(m.tables, t, path, t) :: path == []
  {
    if Is(m, t, RttState) {
      assert GranuleOk(m, t);
      FoundFromRoot(m, t);
    }
    forall rd, root, path | Below(m, rd, root, path, t)
      ensures Is(m, t, RttState) && |path| <= PAGE_LEVEL - m.realms[rd].start <= 4
    {
      BelowIsTable(m, rd, root, path, t);
    }
    forall rd, root, path, rd', root', path' | Below(m, rd, root, path, t) && Below(m, rd', root', path', t)
      ensures rd == rd' && root == root' && path == path'
    {
      FoundOnce(m, rd, root, path, rd', root', path', t);
    }
    forall path | Descends(m.tables, t, path, t) ensures path == [] { NoCycle(m, t, path); }
  }

  lemma BelowIsTable(m: Machine, rd: Addr, root: Addr, path: seq<nat>, t: Addr)
    requires Inv(m) && Below(m, rd, root, path, t)
    ensures t in m.place && m.place[t].rd == rd && Is(m, t, RttState)
    ensures |path| <= PAGE_LEVEL - m.realms[rd].start <= 4
  {
    RootIsPlaced(m, rd, root);
    DescendsPlace(m, root, path, t);
    FoundFromRoot(m, t);
    assert GranuleOk(m, t);
    hide Inv, Descends;
    assert |m.place[root].path + path| == 1 + |path|;
  }
}
