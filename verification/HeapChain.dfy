/** The state of the allocator: header fields as maps from header addresses, the two lists
    they link, and what each relinking step of allocation and freeing does to the lists and
    to the layout. `blocks` and `free` are the two lists spelled out; no step reads them. */
module HeapChain {
  import opened HeapLayout
  import opened LinkedLists

  datatype Chain = Chain(
    buf: Addr, len: nat, first: Addr, firstFree: Addr,
    size: map<Addr, nat>, alloc: map<Addr, bool>,
    prev: Links, next: Links, prevFree: Links, nextFree: Links,
    blocks: seq<Addr>, free: seq<Addr>)

  predicate HasFields(c: Chain) { forall i: nat | i < |c.blocks| :: HasField(c, c.blocks[i]) }

  predicate HasField(c: Chain, a: Addr) { a in c.size && a in c.alloc }

  function BlockAt(c: Chain, i: nat): Block
    requires HasFields(c) && i < |c.blocks|
  {
    assert HasField(c, c.blocks[i]);
    Block(c.blocks[i], c.size[c.blocks[i]], c.alloc[c.blocks[i]])
  }

  function LayoutOf(c: Chain): (bs: Layout)
    requires HasFields(c)
    ensures |bs| == |c.blocks| && forall i: nat | i < |bs| :: bs[i] == BlockAt(c, i)
  {
    seq(|c.blocks|, i requires 0 <= i < |c.blocks| && HasFields(c) => BlockAt(c, i))
  }

  /** A block is in the free list exactly if it is free, where `but` may be missing; outside
      the list its links are NULL. */
  predicate Listed(c: Chain, a: Addr, but: Addr) {
    && a in c.alloc && (a in c.free <==> !c.alloc[a] && a != but)
    && (a !in c.free ==> a in c.prevFree && a in c.nextFree && c.prevFree[a] == 0 && c.nextFree[a] == 0)
  }

  /** Both lists are well formed and agree on what is free. */
  ghost predicate Lists(c: Chain, but: Addr) {
    && c.buf != 0 && |c.blocks| > 0 && c.first == c.blocks[0] == c.buf && HasFields(c)
    && Linked(c.blocks, c.prev, c.next) && Linked(c.free, c.prevFree, c.nextFree) && c.firstFree == At(c.free, 0)
    && (forall i: nat | i < |c.blocks| :: Listed(c, c.blocks[i], but))
    && (forall k: nat | k < |c.free| :: c.free[k] in c.blocks)
  }

  /** The state between commands. */
  ghost predicate Ready(c: Chain) { Lists(c, 0) && Tiled(LayoutOf(c), c.buf, c.buf + c.len) }

  /** While block `i` is being freed; it is in the free list if it was joined with the one before. */
  ghost predicate Freeing(c: Chain, i: nat, listed: bool) {
    i < |c.blocks| && Lists(c, if listed then 0 else c.blocks[i]) && TiledBut(LayoutOf(c), c.buf, c.buf + c.len, i)
  }

  /** The links and flags of block `i`. */
  lemma NodeFacts(c: Chain, i: nat, but: Addr)
    requires Lists(c, but) && i < |c.blocks|
    ensures var a := c.blocks[i];
            && a != 0 && a in c.prev && a in c.next && c.prev[a] == At(c.blocks, i - 1)
            && c.next[a] == At(c.blocks, i + 1)
            && HasField(c, a) && Listed(c, a, but) && BlockAt(c, i).addr == a
            && a in c.prevFree && a in c.nextFree
            && (c.prevFree[a] != 0 ==> c.prevFree[a] != c.nextFree[a])
  {
    var a := c.blocks[i];
    assert LinkOk(c.blocks, c.prev, c.next, i) && Listed(c, a, but) && HasField(c, a);
    if a in c.free {
      var k :| 0 <= k < |c.free| && c.free[k] == a;
      assert LinkOk(c.free, c.prevFree, c.nextFree, k);
    }
  }

  lemma FreeNode(c: Chain, k: nat, but: Addr) returns (i: nat)
    requires Lists(c, but) && k < |c.free|
    ensures i < |c.blocks| && c.blocks[i] == c.free[k] && !BlockAt(c, i).alloc
  {
    assert c.free[k] in c.blocks;
    i :| i < |c.blocks| && c.blocks[i] == c.free[k];
    assert Listed(c, c.blocks[i], but);
  }

  // ------------------------------------------------------------ the whole block is allocated

  function TakeWhole(c: Chain, k: nat): Chain
    requires k < |c.free| && c.free[k] in c.prevFree && c.free[k] in c.nextFree
  {
    var x := c.free[k];
    var p, n := c.prevFree[x], c.nextFree[x];
    c.(alloc := c.alloc[x := true],
       firstFree := if p == 0 then n else c.firstFree,
       prevFree := Relink(c.prevFree, n, p)[x := 0],
       nextFree := Relink(c.nextFree, p, n)[x := 0],
       free := Without(c.free, k))
  }

  /** Blocks that are in neither list, other than `x`, keep their free list links. */
  ghost predicate SameOutside(c: Chain, q: Chain, x: Addr) {
    forall a | a !in c.free && a != x && a in c.prevFree && a in c.nextFree ::
      a in q.prevFree && a in q.nextFree && q.prevFree[a] == c.prevFree[a] && q.nextFree[a] == c.nextFree[a]
  }

  lemma TakenFree(c: Chain, k: nat)
    requires Linked(c.free, c.prevFree, c.nextFree) && k < |c.free| && c.firstFree == At(c.free, 0)
    ensures c.free[k] in c.prevFree && c.free[k] in c.nextFree
    ensures var q := TakeWhole(c, k); Linked(q.free, q.prevFree, q.nextFree) && q.firstFree == At(q.free, 0)
    ensures forall a :: a in Without(c.free, k) <==> a in c.free && a != c.free[k]
    ensures SameOutside(c, TakeWhole(c, k), c.free[k])
  {
    assert LinkOk(c.free, c.prevFree, c.nextFree, k);
    var x := c.free[k];
    Unlink(c.free, c.prevFree, c.nextFree, k);
    var p, n := Relink(c.prevFree, c.nextFree[x], c.prevFree[x]), Relink(c.nextFree, c.prevFree[x], c.nextFree[x]);
    Outside(Without(c.free, k), p, n, x, 0, 0);
  }

  lemma TakenListed(c: Chain, k: nat, a: Addr)
    requires Lists(c, 0) && k < |c.free| && Listed(c, a, 0)
    ensures c.free[k] in c.prevFree && c.free[k] in c.nextFree && Listed(TakeWhole(c, k), a, 0)
  {
    TakenFree(c, k);
    hide Linked, Lists, Relink;
    assert TakeWhole(c, k).free == Without(c.free, k);
  }

  lemma TakenLayout(c: Chain, k: nat, i: nat)
    requires Lists(c, 0) && k < |c.free| && i < |c.blocks| && c.blocks[i] == c.free[k]
    requires c.free[k] in c.prevFree && c.free[k] in c.nextFree
    ensures var q := TakeWhole(c, k); HasFields(q) && LayoutOf(q) == LayoutOf(c)[i := LayoutOf(c)[i].(alloc := true)]
  {
    var q := TakeWhole(c, k);
    assert Distinct(c.blocks);
    hide Linked;
    forall j: nat | j < |c.blocks| ensures HasField(q, q.blocks[j]) { assert HasField(c, c.blocks[j]); }
    hide Lists;
    assert LayoutOf(q) == LayoutOf(c)[i := LayoutOf(c)[i].(alloc := true)];
  }

  lemma TakeWholeLists(c: Chain, k: nat, i: nat)
    requires Lists(c, 0) && k < |c.free| && i < |c.blocks| && c.blocks[i] == c.free[k]
    ensures c.free[k] in c.prevFree && c.free[k] in c.nextFree
    ensures var q := TakeWhole(c, k); Lists(q, 0) && LayoutOf(q) == LayoutOf(c)[i := LayoutOf(c)[i].(alloc := true)]
  {
    TakenFree(c, k);
    hide Linked, LayoutOf, Listed, Relink, HasField, SameOutside;
    TakenLayout(c, k, i);
    var q := TakeWhole(c, k);
    forall j: nat | j < |c.blocks| ensures Listed(q, q.blocks[j], 0) {
      assert Listed(c, c.blocks[j], 0);
      TakenListed(c, k, c.blocks[j]);
    }
    forall l: nat | l < |q.free| ensures q.free[l] in q.blocks {
      assert q.free[l] in Without(c.free, k);
      InBlocks(c, q.free[l]);
    }
  }

  lemma InBlocks(c: Chain, a: Addr)
    requires Lists(c, 0) && a in c.free
    ensures a in c.blocks
  {
    var l :| 0 <= l < |c.free| && c.free[l] == a;
    assert c.free[l] in c.blocks;
  }

  // ------------------------------------------------------------ the block is split

  /** The rest of the block becomes block `y`, which replaces it in the free list. */
  function SplitBlock(c: Chain, i: nat, k: nat, len: nat): Chain
    requires i < |c.blocks| && k < |c.free| && c.blocks[i] == c.free[k]
    requires var x := c.free[k];
             && x in c.size && c.size[x] >= len + HEADER && x in c.next && x in c.prevFree && x in c.nextFree
  {
    var x := c.free[k];
    var y := x + HEADER + len;
    var p, n := c.prevFree[x], c.nextFree[x];
    c.(size := c.size[y := c.size[x] - len - HEADER][x := len],
       alloc := c.alloc[y := false][x := true],
       prev := Relink(c.prev[y := x], c.next[x], y),
       next := c.next[y := c.next[x]][x := y],
       firstFree := if p == 0 then y else c.firstFree,
       prevFree := Relink(c.prevFree[y := p], n, y)[x := 0],
       nextFree := Relink(c.nextFree[y := n], p, y)[x := 0],
       blocks := Inserted(c.blocks, i, y),
       free := c.free[k := y])
  }

  /** Block `i` can be split at `len`: there is no header where the new one goes. */
  ghost predicate CanSplit(c: Chain, i: nat, k: nat, len: nat) {
    && Lists(c, 0) && i < |c.blocks| && k < |c.free| && c.blocks[i] == c.free[k]
    && BlockAt(c, i).size >= len + HEADER && c.blocks[i] + HEADER + len !in c.blocks
  }

  lemma SplitReady(c: Chain, i: nat, k: nat, len: nat)
    requires Ready(c) && i < |c.blocks| && k < |c.free| && c.blocks[i] == c.free[k] && Splits(BlockAt(c, i), len)
    ensures CanSplit(c, i, k, len)
  {
    var y := c.blocks[i] + HEADER + len;
    var bs := LayoutOf(c);
    forall j: nat | j < |c.blocks| ensures c.blocks[j] != y {
      Ordered(bs, c.buf, c.buf + c.len, if j < i then j else i, if j < i then i else j);
      assert bs[j] == BlockAt(c, j) && bs[i] == BlockAt(c, i);
    }
  }

  lemma SplitFields(c: Chain, i: nat, k: nat, len: nat)
    requires CanSplit(c, i, k, len)
    ensures var x := c.free[k];
            && x in c.size && c.size[x] >= len + HEADER && x in c.next && x in c.prevFree && x in c.nextFree
            && c.blocks[i] + HEADER + len !in c.free
  {
    NodeFacts(c, i, 0);
    assert forall j: nat | j < |c.free| :: c.free[j] in c.blocks;
  }

  lemma SplitLinks(c: Chain, i: nat, k: nat, len: nat)
    requires CanSplit(c, i, k, len)
    ensures var x := c.free[k];
            x in c.size && c.size[x] >= len + HEADER && x in c.next && x in c.prevFree && x in c.nextFree
    ensures var q := SplitBlock(c, i, k, len);
            && Linked(q.blocks, q.prev, q.next) && Linked(q.free, q.prevFree, q.nextFree)
            && q.firstFree == At(q.free, 0)
  {
    SplitFields(c, i, k, len);
    var x := c.free[k];
    var y := x + HEADER + len;
    assert LinkOk(c.free, c.prevFree, c.nextFree, k);
    assert Distinct(c.free);
    hide Relink, LinkOk;
    InsertBehind(c.blocks, c.prev, c.next, i, y);
    Substitute(c.free, c.prevFree, c.nextFree, k, y);
    var p, n := c.prevFree[x], c.nextFree[x];
    Outside(c.free[k := y], Relink(c.prevFree[y := p], n, y), Relink(c.nextFree[y := n], p, y), x, 0, 0);
  }

  lemma SplitListed(c: Chain, i: nat, k: nat, len: nat, a: Addr)
    requires CanSplit(c, i, k, len) && Listed(c, a, 0) && a != c.blocks[i] + HEADER + len
    ensures var x := c.free[k];
            x in c.size && c.size[x] >= len + HEADER && x in c.next && x in c.prevFree && x in c.nextFree
    ensures Listed(SplitBlock(c, i, k, len), a, 0)
  {
    SplitFields(c, i, k, len);
    assert LinkOk(c.free, c.prevFree, c.nextFree, k);
    assert Distinct(c.free);
    hide Lists, Linked;
    var t := c.free[k := c.free[k] + HEADER + len];
    if a in c.free && a != c.free[k] {
      var j :| 0 <= j < |c.free| && c.free[j] == a;
      assert t[j] == a;
    }
  }

  lemma SplitLayout(c: Chain, i: nat, k: nat, len: nat)
    requires CanSplit(c, i, k, len) && Splits(BlockAt(c, i), len)
    ensures var x := c.free[k];
            x in c.size && c.size[x] >= len + HEADER && x in c.next && x in c.prevFree && x in c.nextFree
    ensures var q := SplitBlock(c, i, k, len); HasFields(q) && LayoutOf(q) == Place(LayoutOf(c), i, len)
  {
    SplitFields(c, i, k, len);
    var q := SplitBlock(c, i, k, len);
    assert Distinct(c.blocks);
    assert HasFields(c);
    hide Lists, Linked, CanSplit, Relink;
    forall j: nat | j < |q.blocks| ensures HasField(q, q.blocks[j]) {
      if j != i + 1 { assert HasField(c, c.blocks[if j <= i then j else j - 1]); }
    }
    var bs, ps := LayoutOf(q), Place(LayoutOf(c), i, len);
    forall j: nat | j < |bs| ensures bs[j] == ps[j] {
      assert bs[j] == BlockAt(q, j);
      if j != i + 1 { assert LayoutOf(c)[if j <= i then j else j - 1] == BlockAt(c, if j <= i then j else j - 1); }
    }
    assert bs == ps;
  }

  lemma SplitLists(c: Chain, i: nat, k: nat, len: nat)
    requires CanSplit(c, i, k, len) && Splits(BlockAt(c, i), len)
    ensures var x := c.free[k];
            x in c.size && c.size[x] >= len + HEADER && x in c.next && x in c.prevFree && x in c.nextFree
    ensures var q := SplitBlock(c, i, k, len); Lists(q, 0) && LayoutOf(q) == Place(LayoutOf(c), i, len)
  {
    SplitLinks(c, i, k, len);
    SplitLayout(c, i, k, len);
    var q := SplitBlock(c, i, k, len);
    var y := c.blocks[i] + HEADER + len;
    hide Linked, LayoutOf, Place;
    assert q.free[k] == y && q.blocks[i + 1] == y;
    forall j: nat | j < |q.blocks| ensures Listed(q, q.blocks[j], 0) {
      if j != i + 1 { SplitListed(c, i, k, len, c.blocks[if j <= i then j else j - 1]); }
    }
    forall j: nat | j < |q.free| ensures q.free[j] in q.blocks {
      if j != k { InsertedKeeps(c.blocks, i, y, c.free[j]); }
    }
  }

  lemma InsertedKeeps(s: seq<Addr>, k: nat, y: Addr, a: Addr)
    requires k < |s| && a in s
    ensures a in Inserted(s, k, y)
  {
    var i :| 0 <= i < |s| && s[i] == a;
    assert Inserted(s, k, y)[if i <= k then i else i + 1] == a;
  }

  // ------------------------------------------------------------ freeing: the block is marked free

  lemma MarkFree(c: Chain, i: nat)
    requires Ready(c) && i < |c.blocks| && BlockAt(c, i).alloc
    ensures var q := c.(alloc := c.alloc[c.blocks[i] := false]);
            Freeing(q, i, false) && LayoutOf(q) == LayoutOf(c)[i := LayoutOf(c)[i].(alloc := false)]
  {
    var x := c.blocks[i];
    var q := c.(alloc := c.alloc[x := false]);
    assert Distinct(c.blocks);
    FreedBut(LayoutOf(c), c.buf, c.buf + c.len, i);
    hide Tiled, TiledBut, Linked;
    forall j: nat | j < |q.blocks| ensures HasField(q, q.blocks[j]) && Listed(q, q.blocks[j], x) {
      assert HasField(c, c.blocks[j]) && Listed(c, c.blocks[j], 0);
    }
    assert LayoutOf(q) == LayoutOf(c)[i := LayoutOf(c)[i].(alloc := false)];
  }

  // ------------------------------------------------------------ freeing: join with the block before

  /** Block `i` joins the one before it; its header is wiped. */
  function JoinBefore(c: Chain, i: nat): Chain
    requires 0 < i < |c.blocks| && c.blocks[i] in c.next && HasField(c, c.blocks[i]) && HasField(c, c.blocks[i - 1])
  {
    var p, x := c.blocks[i - 1], c.blocks[i];
    Wipe(c.(size := c.size[p := c.size[p] + HEADER + c.size[x]],
            next := c.next[p := c.next[x]],
            prev := Relink(c.prev, c.next[x], p),
            blocks := Without(c.blocks, i)), x)
  }

  function Wipe(c: Chain, a: Addr): Chain {
    c.(size := c.size[a := 0], alloc := c.alloc[a := false], prev := c.prev[a := 0], next := c.next[a := 0],
       prevFree := c.prevFree[a := 0], nextFree := c.nextFree[a := 0])
  }

  /** Wiping what is no header changes neither list. */
  lemma WipeLists(c: Chain, a: Addr, but: Addr)
    requires Lists(c, but) && a !in c.blocks
    ensures Lists(Wipe(c, a), but) && LayoutOf(Wipe(c, a)) == LayoutOf(c)
  {
    var q := Wipe(c, a);
    assert forall k: nat | k < |c.free| :: c.free[k] in c.blocks;
    Outside(c.blocks, c.prev, c.next, a, 0, 0);
    Outside(c.free, c.prevFree, c.nextFree, a, 0, 0);
    hide Linked;
    forall j: nat | j < |q.blocks| ensures HasField(q, q.blocks[j]) && Listed(q, q.blocks[j], but) {
      assert HasField(c, c.blocks[j]) && Listed(c, c.blocks[j], but);
    }
    assert LayoutOf(q) == LayoutOf(c);
  }

  lemma WithoutKeeps(s: seq<Addr>, k: nat, a: Addr)
    requires k < |s| && a in s && a != s[k]
    ensures a in Without(s, k)
  {
    var i :| 0 <= i < |s| && s[i] == a;
    assert Without(s, k)[if i < k then i else i - 1] == a;
  }

  lemma WithoutLess(s: seq<Addr>, k: nat)
    requires k < |s| && Distinct(s)
    ensures s[k] !in Without(s, k)
  {}

  /** Dropping node `i` from the block list, its size going to the node before it. */
  lemma DroppedLayout(c: Chain, q: Chain, i: nat)
    requires HasFields(c) && Distinct(c.blocks) && 0 < i < |c.blocks| && q.blocks == Without(c.blocks, i)
    requires q.alloc == c.alloc
    requires q.size == c.size[c.blocks[i - 1] := BlockAt(c, i - 1).size + HEADER + BlockAt(c, i).size]
    ensures HasFields(q) && LayoutOf(q) == Join(LayoutOf(c), i - 1)
  {
    forall j: nat | j < |q.blocks| ensures HasField(q, q.blocks[j]) {
      assert HasField(c, c.blocks[if j < i then j else j + 1]);
    }
    JoinShape(LayoutOf(c), i - 1);
    hide Join;
    var bs, ps := LayoutOf(q), Join(LayoutOf(c), i - 1);
    forall j: nat | j < |bs| ensures bs[j] == ps[j] {
      assert bs[j] == BlockAt(q, j);
      assert LayoutOf(c)[if j < i then j else j + 1] == BlockAt(c, if j < i then j else j + 1);
      if j == i - 1 { assert LayoutOf(c)[i] == BlockAt(c, i); }
    }
    assert bs == ps;
  }

  lemma JoinedBefore(c: Chain, q: Chain, i: nat)
    requires 0 < i < |c.blocks| && Lists(c, c.blocks[i]) && !BlockAt(c, i - 1).alloc && !BlockAt(c, i).alloc
    requires q == c.(size := q.size, next := q.next, prev := q.prev, blocks := Without(c.blocks, i))
    requires HasFields(q) && Linked(q.blocks, q.prev, q.next)
    ensures Lists(q, 0)
  {
    var x := c.blocks[i];
    hide Linked, HasField;
    forall j: nat | j < |q.blocks| ensures Listed(q, q.blocks[j], 0) {
      assert Listed(c, c.blocks[if j < i then j else j + 1], x);
      assert q.blocks[j] != x by { assert Distinct(c.blocks); }
    }
    forall k: nat | k < |q.free| ensures q.free[k] in q.blocks {
      assert c.free[k] in c.blocks;
      assert Listed(c, x, x);
      WithoutKeeps(c.blocks, i, c.free[k]);
    }
  }

  lemma JoinBeforeLists(c: Chain, i: nat)
    requires Freeing(c, i, false) && 0 < i && !BlockAt(c, i - 1).alloc
    ensures c.blocks[i] in c.next && HasField(c, c.blocks[i]) && HasField(c, c.blocks[i - 1])
    ensures var q := JoinBefore(c, i);
            && |q.blocks| == |c.blocks| - 1 && q.blocks[i - 1] == c.blocks[i - 1]
            && Lists(q, 0) && LayoutOf(q) == Join(LayoutOf(c), i - 1)
  {
    var p, x := c.blocks[i - 1], c.blocks[i];
    hide Linked, Lists, TiledBut, Join, Listed, HasField, LinkOk;
    BeforeFields(c, i);
    var q := c.(size := c.size[p := c.size[p] + HEADER + c.size[x]], next := c.next[p := c.next[x]],
                prev := Relink(c.prev, c.next[x], p), blocks := Without(c.blocks, i));
    Unlink(c.blocks, c.prev, c.next, i);
    WithoutLess(c.blocks, i);
    DroppedLayout(c, q, i);
    hide LayoutOf;
    JoinedBefore(c, q, i);
    WipeLists(q, x, 0);
  }

  lemma BeforeFields(c: Chain, i: nat)
    requires Freeing(c, i, false) && 0 < i && !BlockAt(c, i - 1).alloc
    ensures var p, x := c.blocks[i - 1], c.blocks[i];
            && Linked(c.blocks, c.prev, c.next) && Distinct(c.blocks) && HasFields(c) && !BlockAt(c, i).alloc
            && HasField(c, p) && HasField(c, x) && p in c.size && x in c.size && x in c.next && x in c.prev
            && c.prev[x] == p != 0
            && BlockAt(c, i).size == c.size[x] && BlockAt(c, i - 1).size == c.size[p] && Lists(c, x)
  {
    NodeFacts(c, i, c.blocks[i]);
    NodeFacts(c, i - 1, c.blocks[i]);
  }

  // ------------------------------------------------------------ freeing: join with the block after

  ghost predicate FreeOk(c: Chain) { Linked(c.free, c.prevFree, c.nextFree) && c.firstFree == At(c.free, 0) }

  predicate Quiet(c: Chain, a: Addr) { a in c.prevFree && a in c.nextFree && c.prevFree[a] == 0 && c.nextFree[a] == 0 }

  /** Node `k` leaves the free list. */
  function UnlinkFree(c: Chain, k: nat): Chain
    requires k < |c.free| && c.free[k] in c.prevFree && c.free[k] in c.nextFree
  {
    var x := c.free[k];
    var p, n := c.prevFree[x], c.nextFree[x];
    c.(firstFree := if p == 0 then n else c.firstFree,
       prevFree := Relink(c.prevFree, n, p), nextFree := Relink(c.nextFree, p, n),
       free := Without(c.free, k))
  }

  lemma UnlinkFreeOk(c: Chain, k: nat)
    requires FreeOk(c) && k < |c.free|
    ensures c.free[k] in c.prevFree && c.free[k] in c.nextFree
    ensures var q := UnlinkFree(c, k);
            && FreeOk(q) && (forall a :: a in q.free <==> a in c.free && a != c.free[k])
            && (forall a | a !in c.free && Quiet(c, a) :: Quiet(q, a))
  {
    assert LinkOk(c.free, c.prevFree, c.nextFree, k);
    Unlink(c.free, c.prevFree, c.nextFree, k);
    forall a | a in c.free && a != c.free[k] ensures a in Without(c.free, k) { WithoutKeeps(c.free, k, a); }
  }

  /** `x` takes the place of node `k` of the free list. */
  function SubstituteFree(c: Chain, k: nat, x: Addr): Chain
    requires k < |c.free| && c.free[k] in c.prevFree && c.free[k] in c.nextFree
  {
    var y := c.free[k];
    var p, n := c.prevFree[y], c.nextFree[y];
    c.(firstFree := if p == 0 then x else c.firstFree,
       prevFree := Relink(c.prevFree[x := p], n, x), nextFree := Relink(c.nextFree[x := n], p, x),
       free := c.free[k := x])
  }

  lemma SubstituteFreeOk(c: Chain, k: nat, x: Addr)
    requires FreeOk(c) && k < |c.free| && x != 0 && x !in c.free
    ensures c.free[k] in c.prevFree && c.free[k] in c.nextFree
    ensures var q := SubstituteFree(c, k, x);
            && FreeOk(q) && (forall a :: a in q.free <==> (a in c.free && a != c.free[k]) || a == x)
            && (forall a | a !in c.free && a != x && Quiet(c, a) :: Quiet(q, a))
  {
    assert LinkOk(c.free, c.prevFree, c.nextFree, k);
    Substitute(c.free, c.prevFree, c.nextFree, k, x);
    var t := c.free[k := x];
    assert t[k] == x && Distinct(c.free);
    forall a | a in c.free && a != c.free[k] ensures a in t {
      var i :| 0 <= i < |c.free| && c.free[i] == a;
      assert t[i] == a;
    }
  }

  /** Block `i`, which is in no free list, takes over the block after it, free list place `k`
      included. */
  function JoinAfter(c: Chain, i: nat, k: nat): Chain
    requires i + 1 < |c.blocks| && k < |c.free| && c.free[k] in c.prevFree && c.free[k] in c.nextFree
    requires HasField(c, c.blocks[i]) && HasField(c, c.blocks[i + 1]) && c.blocks[i + 1] in c.next
  {
    Wipe(TakenOver(c, i, k), c.blocks[i + 1])
  }

  function TakenOver(c: Chain, i: nat, k: nat): Chain
    requires i + 1 < |c.blocks| && k < |c.free| && c.free[k] in c.prevFree && c.free[k] in c.nextFree
    requires HasField(c, c.blocks[i]) && HasField(c, c.blocks[i + 1]) && c.blocks[i + 1] in c.next
  {
    var x, y := c.blocks[i], c.blocks[i + 1];
    SubstituteFree(c, k, x).(
      size := c.size[x := c.size[x] + HEADER + c.size[y]],
      next := c.next[x := c.next[y]],
      prev := Relink(c.prev, c.next[y], x),
      blocks := Without(c.blocks, i + 1))
  }

  /** Block `i` is marked free and in no free list, the block after it is node `k`. */
  ghost predicate CanJoin(c: Chain, i: nat, k: nat) {
    && c.buf != 0 && i + 1 < |c.blocks| && c.first == c.blocks[0] == c.buf && HasFields(c)
    && Linked(c.blocks, c.prev, c.next) && FreeOk(c) && k < |c.free| && c.free[k] == c.blocks[i + 1]
    && c.blocks[i] !in c.free && !BlockAt(c, i).alloc && !BlockAt(c, i + 1).alloc
    && (forall j: nat | j < |c.blocks| && j != i :: Listed(c, c.blocks[j], 0))
    && (forall k: nat | k < |c.free| :: c.free[k] in c.blocks)
  }

  lemma CanJoinFields(c: Chain, i: nat, k: nat)
    requires CanJoin(c, i, k)
    ensures c.free[k] in c.prevFree && c.free[k] in c.nextFree && c.blocks[i + 1] in c.next && c.blocks[i] != 0
    ensures HasField(c, c.blocks[i]) && HasField(c, c.blocks[i + 1]) && c.blocks[i] in c.next
    ensures c.blocks[i] in c.size && c.blocks[i + 1] in c.size && c.blocks[i] !in c.free && FreeOk(c)
    ensures Linked(c.blocks, c.prev, c.next) && Distinct(c.blocks) && HasFields(c)
    ensures BlockAt(c, i).size == c.size[c.blocks[i]] && BlockAt(c, i + 1).size == c.size[c.blocks[i + 1]]
    ensures c.next[c.blocks[i]] == c.blocks[i + 1] && c.blocks[i + 1] in c.prev
    ensures c.prev[c.blocks[i + 1]] == c.blocks[i]
  {
    assert LinkOk(c.blocks, c.prev, c.next, i) && LinkOk(c.blocks, c.prev, c.next, i + 1);
    assert LinkOk(c.free, c.prevFree, c.nextFree, k);
  }

  /** Before the header of the block after is wiped. */
  lemma JoinedAfter(c: Chain, q: Chain, i: nat, k: nat)
    requires CanJoin(c, i, k)
    requires c.free[k] in c.prevFree && c.free[k] in c.nextFree
    requires q == SubstituteFree(c, k, c.blocks[i]).(
                    size := q.size, next := q.next, prev := q.prev, blocks := Without(c.blocks, i + 1))
    requires HasFields(q) && Linked(q.blocks, q.prev, q.next)
    ensures Lists(q, 0)
  {
    CanJoinFields(c, i, k);
    SubstituteFreeOk(c, k, c.blocks[i]);
    var x, y := c.blocks[i], c.blocks[i + 1];
    hide Linked, HasField, SubstituteFree, HasFields;
    assert q.free == SubstituteFree(c, k, x).free && q.prevFree == SubstituteFree(c, k, x).prevFree
           && q.nextFree == SubstituteFree(c, k, x).nextFree;
    forall j: nat | j < |q.blocks| ensures Listed(q, q.blocks[j], 0) {
      var j' := if j <= i then j else j + 1;
      assert q.blocks[j] == c.blocks[j'];
      if j != i { assert Listed(c, c.blocks[j'], 0); }
    }
    forall k': nat | k' < |q.free| ensures q.free[k'] in q.blocks {
      var a := q.free[k'];
      assert a in q.free;
      if a != x {
        var l :| 0 <= l < |c.free| && c.free[l] == a;
        assert c.free[l] in c.blocks;
      } else {
        assert c.blocks[i] in c.blocks;
      }
      WithoutKeeps(c.blocks, i + 1, a);
    }
  }

  lemma TakenOverLists(c: Chain, i: nat, k: nat)
    requires CanJoin(c, i, k)
    ensures i + 1 < |c.blocks| && k < |c.free| && HasFields(c)
    ensures c.free[k] in c.prevFree && c.free[k] in c.nextFree && c.blocks[i + 1] in c.next
    ensures HasField(c, c.blocks[i]) && HasField(c, c.blocks[i + 1])
    ensures var q := TakenOver(c, i, k);
            Lists(q, 0) && LayoutOf(q) == Join(LayoutOf(c), i) && c.blocks[i + 1] !in q.blocks
  {
    var x, y := c.blocks[i], c.blocks[i + 1];
    hide CanJoin, Linked, Lists, Join, LinkOk, HasField, Relink, SubstituteFree, Without;
    CanJoinFields(c, i, k);
    hide FreeOk;
    Unlink(c.blocks, c.prev, c.next, i + 1);
    WithoutLess(c.blocks, i + 1);
    var q := TakenOver(c, i, k);
    RelinkIs(c.next, c.prev[y], c.next[y]);
    SubstituteKeeps(c, k, x);
    DroppedLayout(c, q, i + 1);
    hide LayoutOf;
    JoinedAfter(c, q, i, k);
  }

  lemma SubstituteKeeps(c: Chain, k: nat, x: Addr)
    requires k < |c.free| && c.free[k] in c.prevFree && c.free[k] in c.nextFree
    ensures SubstituteFree(c, k, x).alloc == c.alloc
  {}

  lemma JoinAfterLists(c: Chain, i: nat, k: nat)
    requires CanJoin(c, i, k)
    ensures c.free[k] in c.prevFree && c.free[k] in c.nextFree && c.blocks[i + 1] in c.next
    ensures HasField(c, c.blocks[i]) && HasField(c, c.blocks[i + 1])
    ensures var q := JoinAfter(c, i, k); Lists(q, 0) && LayoutOf(q) == Join(LayoutOf(c), i)
  {
    hide TakenOver, Lists, CanJoin, Join, Wipe;
    TakenOverLists(c, i, k);
    WipeLists(TakenOver(c, i, k), c.blocks[i + 1], 0);
  }

  lemma RelinkIs(links: Links, a: Addr, x: Addr)
    ensures a != 0 ==> Relink(links, a, x) == links[a := x]
  {}

  // ------------------------------------------------------------ freeing: a block of its own

  function PushFree(c: Chain, x: Addr): Chain {
    c.(nextFree := c.nextFree[x := c.firstFree], prevFree := Relink(c.prevFree, c.firstFree, x),
       firstFree := x, free := [x] + c.free)
  }

  lemma PushFreeLists(c: Chain, i: nat)
    requires i < |c.blocks| && Lists(c, c.blocks[i]) && !BlockAt(c, i).alloc
    ensures Lists(PushFree(c, c.blocks[i]), 0) && LayoutOf(PushFree(c, c.blocks[i])) == LayoutOf(c)
  {
    var x := c.blocks[i];
    var q := PushFree(c, x);
    NodeFacts(c, i, x);
    Prepend(c.free, c.prevFree, c.nextFree, x);
    assert forall a :: a in q.free <==> a in c.free || a == x;
    assert c.firstFree == 0 || c.firstFree in c.free;
    hide Linked;
    forall j: nat | j < |q.blocks| ensures HasField(q, q.blocks[j]) && Listed(q, q.blocks[j], 0) {
      assert HasField(c, c.blocks[j]) && Listed(c, c.blocks[j], x);
    }
    assert LayoutOf(q) == LayoutOf(c);
  }

  // ------------------------------------------------------------ the steps of one free

  lemma IndexIn(s: seq<Addr>, a: Addr) returns (k: nat)
    requires a in s
    ensures k < |s| && s[k] == a
  {
    k :| k < |s| && s[k] == a;
  }

  /** A block that is in the free list together with the block after it has a neighbour there. */
  lemma ListedNeighbour(c: Chain, i: nat, listed: bool)
    requires Freeing(c, i, listed) && i + 1 < |c.blocks| && !BlockAt(c, i + 1).alloc
    ensures c.blocks[i] in c.prevFree && c.blocks[i] in c.nextFree
    ensures listed <==> c.prevFree[c.blocks[i]] != 0 || c.nextFree[c.blocks[i]] != 0
    ensures listed <==> c.blocks[i] in c.free
    ensures c.blocks[i + 1] in c.free && c.blocks[i] != c.blocks[i + 1]
  {
    var x, y := c.blocks[i], c.blocks[i + 1];
    var but := if listed then 0 else x;
    NodeFacts(c, i, but);
    NodeFacts(c, i + 1, but);
    assert !BlockAt(c, i).alloc;
    assert Distinct(c.blocks);
    hide TiledBut;
    if listed {
      var k := IndexIn(c.free, x);
      var l := IndexIn(c.free, y);
      assert LinkOk(c.free, c.prevFree, c.nextFree, k);
      assert Distinct(c.free);
      assert 0 <= k - 1 < |c.free| || 0 <= k + 1 < |c.free|;
    }
  }

  /** The state in which the block after can be taken over: block `i` has left the free list. */
  lemma JoinReady(c: Chain, i: nat)
    requires Freeing(c, i, false) && i + 1 < |c.blocks| && !BlockAt(c, i + 1).alloc
    ensures exists k: nat :: k < |c.free| && c.free[k] == c.blocks[i + 1]
    ensures forall k: nat | k < |c.free| && c.free[k] == c.blocks[i + 1] :: CanJoin(c, i, k)
  {
    ListedNeighbour(c, i, false);
    assert !BlockAt(c, i).alloc;
    var k := IndexIn(c.free, c.blocks[i + 1]);
    hide TiledBut, Linked;
    forall j: nat | j < |c.blocks| && j != i ensures Listed(c, c.blocks[j], 0) {
      assert Listed(c, c.blocks[j], c.blocks[i]);
      assert Distinct(c.blocks);
    }
  }

  lemma UnlinkReady(c: Chain, i: nat, l: nat, k: nat)
    requires Freeing(c, i, true) && i + 1 < |c.blocks| && !BlockAt(c, i + 1).alloc
    requires l < |c.free| && c.free[l] == c.blocks[i]
    ensures c.free[l] in c.prevFree && c.free[l] in c.nextFree
    ensures k < |UnlinkFree(c, l).free| && UnlinkFree(c, l).free[k] == c.blocks[i + 1] ==>
              CanJoin(UnlinkFree(c, l), i, k) && LayoutOf(UnlinkFree(c, l)) == LayoutOf(c)
    ensures c.blocks[i + 1] in UnlinkFree(c, l).free
  {
    ListedNeighbour(c, i, true);
    assert !BlockAt(c, i).alloc;
    UnlinkFreeOk(c, l);
    var q := UnlinkFree(c, l);
    hide TiledBut, Linked, Relink;
    forall j: nat | j < |q.blocks| ensures HasField(q, q.blocks[j]) && (j != i ==> Listed(q, q.blocks[j], 0)) {
      assert HasField(c, c.blocks[j]) && Listed(c, c.blocks[j], 0);
      assert Distinct(c.blocks);
      assert c.blocks[j] !in c.free ==> Quiet(c, c.blocks[j]);
    }
    forall k': nat | k' < |q.free| ensures q.free[k'] in q.blocks { assert q.free[k'] in q.free; }
    assert LayoutOf(q) == LayoutOf(c);
  }

  lemma BeforeStep(c: Chain, i: nat)
    requires Freeing(c, i, false) && FreeBefore(LayoutOf(c), i)
    ensures c.blocks[i] in c.next && HasField(c, c.blocks[i]) && HasField(c, c.blocks[i - 1])
    ensures var q := JoinBefore(c, i);
            && Freeing(q, i - 1, true) && q.blocks[i - 1] == c.blocks[i - 1]
            && LayoutOf(q) == Join(LayoutOf(c), i - 1) && !FreeBefore(LayoutOf(q), i - 1)
  {
    assert LayoutOf(c)[i - 1] == BlockAt(c, i - 1);
    JoinBeforeTiled(LayoutOf(c), c.buf, c.buf + c.len, i);
    JoinBeforeLists(c, i);
    hide Lists, Join, TiledBut, LayoutOf;
  }

  /** Nothing left to join with. */
  lemma SettledStep(c: Chain, i: nat, listed: bool)
    requires Freeing(c, i, listed) && !FreeBefore(LayoutOf(c), i) && !FreeAfter(LayoutOf(c), i)
    ensures var q := if listed then c else PushFree(c, c.blocks[i]);
            Ready(q) && HasFields(q) && LayoutOf(q) == LayoutOf(c)
  {
    assert LayoutOf(c)[i] == BlockAt(c, i) && !BlockAt(c, i).alloc;
    Settled(LayoutOf(c), c.buf, c.buf + c.len, i);
    hide Tiled, TiledBut, Linked, Listed;
    if !listed { PushFreeLists(c, i); }
  }

  /** The state after the block after has been taken over. */
  lemma AfterStep(c: Chain, i: nat, k: nat, bs: Layout)
    requires CanJoin(c, i, k) && LayoutOf(c) == bs && TiledBut(bs, c.buf, c.buf + c.len, i) && !FreeBefore(bs, i)
    ensures c.free[k] in c.prevFree && c.free[k] in c.nextFree && c.blocks[i + 1] in c.next
    ensures HasField(c, c.blocks[i]) && HasField(c, c.blocks[i + 1])
    ensures var q := JoinAfter(c, i, k); Ready(q) && HasFields(q) && i + 1 < |bs| && LayoutOf(q) == Join(bs, i)
  {
    assert bs[i + 1] == BlockAt(c, i + 1);
    assert FreeAfter(bs, i);
    JoinAfterTiled(bs, c.buf, c.buf + c.len, i);
    JoinAfterLists(c, i, k);
    hide Tiled, TiledBut, Linked, CanJoin, Join, Listed;
  }

  /** What the neighbours of block `i` tell. */
  lemma Around(c: Chain, i: nat, listed: bool)
    requires Freeing(c, i, listed)
    ensures var x := c.blocks[i];
            && x in c.prev && x in c.next && x in c.prevFree && x in c.nextFree
            && c.prev[x] == At(c.blocks, i - 1) && c.next[x] == At(c.blocks, i + 1)
            && (c.prev[x] != 0 ==> HasField(c, c.prev[x])) && (c.next[x] != 0 ==> HasField(c, c.next[x]))
            && HasFields(c)
            && (FreeBefore(LayoutOf(c), i) <==> c.prev[x] != 0 && !c.alloc[c.prev[x]])
            && (FreeAfter(LayoutOf(c), i) <==> c.next[x] != 0 && !c.alloc[c.next[x]])
  {
    var but := if listed then 0 else c.blocks[i];
    hide TiledBut;
    NodeFacts(c, i, but);
    if i > 0 {
      NodeFacts(c, i - 1, but);
      assert LayoutOf(c)[i - 1] == BlockAt(c, i - 1);
    }
    if i + 1 < |c.blocks| {
      NodeFacts(c, i + 1, but);
      assert LayoutOf(c)[i + 1] == BlockAt(c, i + 1);
    }
  }
}
