/** Doubly linked lists whose links are two fields of nodes at addresses, and what relinking
    a few nodes does to the list. Address 0 is NULL. */
module LinkedLists {
  import opened HeapLayout

  type Links = map<Addr, Addr>

  function At(s: seq<Addr>, i: int): Addr { if 0 <= i < |s| then s[i] else 0 }

  predicate Distinct(s: seq<Addr>) {
    0 !in s && forall i, j | 0 <= i < j < |s| :: s[i] != s[j]
  }

  predicate LinkOk(s: seq<Addr>, prev: Links, next: Links, i: nat)
    requires i < |s|
  {
    s[i] in prev && s[i] in next && prev[s[i]] == At(s, i - 1) && next[s[i]] == At(s, i + 1)
  }

  /** The nodes of `s`, in this order, are linked by `prev` and `next`. */
  ghost predicate Linked(s: seq<Addr>, prev: Links, next: Links) {
    Distinct(s) && forall i: nat | i < |s| :: LinkOk(s, prev, next, i)
  }

  function Without(s: seq<Addr>, k: nat): seq<Addr>
    requires k < |s|
  {
    s[..k] + s[k + 1..]
  }

  function Inserted(s: seq<Addr>, k: nat, x: Addr): seq<Addr>
    requires k < |s|
  {
    s[..k + 1] + [x] + s[k + 1..]
  }

  /** `links[a] := x`, if there is a node `a`. */
  function Relink(links: Links, a: Addr, x: Addr): Links { if a != 0 then links[a := x] else links }

  /** Take node `k` out: its neighbours are linked to each other. */
  lemma Unlink(s: seq<Addr>, prev: Links, next: Links, k: nat)
    requires Linked(s, prev, next) && k < |s|
    ensures s[k] in prev && s[k] in next
    ensures var x := s[k]; Linked(Without(s, k), Relink(prev, next[x], prev[x]), Relink(next, prev[x], next[x]))
  {
    var x := s[k];
    assert LinkOk(s, prev, next, k);
    var t, p, n := Without(s, k), Relink(prev, next[x], prev[x]), Relink(next, prev[x], next[x]);
    forall i: nat | i < |t| ensures LinkOk(t, p, n, i) {
      assert LinkOk(s, prev, next, if i < k then i else i + 1);
    }
  }

  /** A node outside the list takes the place of node `k`. */
  lemma Substitute(s: seq<Addr>, prev: Links, next: Links, k: nat, y: Addr)
    requires Linked(s, prev, next) && k < |s| && y != 0 && y !in s
    ensures s[k] in prev && s[k] in next
    ensures var x := s[k];
            Linked(s[k := y], Relink(prev[y := prev[x]], next[x], y), Relink(next[y := next[x]], prev[x], y))
  {
    var x := s[k];
    assert LinkOk(s, prev, next, k);
    var t, p, n := s[k := y], Relink(prev[y := prev[x]], next[x], y), Relink(next[y := next[x]], prev[x], y);
    forall i: nat | i < |t| ensures LinkOk(t, p, n, i) {
      assert LinkOk(s, prev, next, i);
    }
  }

  /** A node outside the list goes in behind node `k`. */
  lemma InsertBehind(s: seq<Addr>, prev: Links, next: Links, k: nat, y: Addr)
    requires Linked(s, prev, next) && k < |s| && y != 0 && y !in s
    ensures s[k] in next
    ensures var x := s[k]; Linked(Inserted(s, k, y), Relink(prev[y := x], next[x], y), next[y := next[x]][x := y])
  {
    var x := s[k];
    assert LinkOk(s, prev, next, k);
    var t, p, n := Inserted(s, k, y), Relink(prev[y := x], next[x], y), next[y := next[x]][x := y];
    assert Distinct(t);
    forall i: nat | i < |t| ensures LinkOk(t, p, n, i) {
      if i != k + 1 { assert LinkOk(s, prev, next, if i <= k then i else i - 1); }
    }
  }

  /** A node outside the list becomes the first. */
  lemma Prepend(s: seq<Addr>, prev: Links, next: Links, y: Addr)
    requires Linked(s, prev, next) && y != 0 && y !in s && y in prev && prev[y] == 0
    ensures Linked([y] + s, Relink(prev, At(s, 0), y), next[y := At(s, 0)])
  {
    var t, p, n := [y] + s, Relink(prev, At(s, 0), y), next[y := At(s, 0)];
    forall i: nat | i < |t| ensures LinkOk(t, p, n, i) {
      if i > 0 { assert LinkOk(s, prev, next, i - 1); }
    }
  }

  /** Links of nodes outside the list do not matter. */
  lemma Outside(s: seq<Addr>, prev: Links, next: Links, y: Addr, a: Addr, b: Addr)
    requires Linked(s, prev, next) && y !in s
    ensures Linked(s, prev[y := a], next[y := b])
  {
    var p, n := prev[y := a], next[y := b];
    forall i: nat | i < |s| ensures LinkOk(s, p, n, i) { assert LinkOk(s, prev, next, i); }
  }
}
