/** The heap of the allocator as a sequence of blocks in address order: what allocating and
    freeing do to it. A block is a 64-byte header and `size` bytes behind it. */
module HeapLayout {

  type Addr = nat

  const HEADER: nat := 64
  const ALIGN: nat := 8

  datatype Block = Block(addr: Addr, size: nat, alloc: bool)

  type Layout = seq<Block>

  /** Where a block ends, and the next one starts. */
  function End(b: Block): Addr { b.addr + HEADER + b.size }

  /** The blocks tile the buffer from `lo` to `hi`, start at multiples of 8, and no two
      neighbours are both free. */
  ghost predicate Tiled(bs: Layout, lo: Addr, hi: Addr) {
    && |bs| > 0 && bs[0].addr == lo && End(bs[|bs| - 1]) == hi
    && (forall i | 0 <= i < |bs| - 1 :: End(bs[i]) == bs[i + 1].addr)
    && (forall i | 0 <= i < |bs| :: bs[i].addr % ALIGN == 0)
    && (forall i | 0 <= i < |bs| - 1 :: bs[i].alloc || bs[i + 1].alloc)
  }

  /** Tiled but for two free neighbours at `i - 1`, `i` or `i`, `i + 1`. */
  ghost predicate TiledBut(bs: Layout, lo: Addr, hi: Addr, i: nat) {
    && i < |bs| && bs[0].addr == lo && End(bs[|bs| - 1]) == hi && !bs[i].alloc
    && (forall k | 0 <= k < |bs| - 1 :: End(bs[k]) == bs[k + 1].addr)
    && (forall k | 0 <= k < |bs| :: bs[k].addr % ALIGN == 0)
    && (forall k | 0 <= k < |bs| - 1 && k != i - 1 && k != i :: bs[k].alloc || bs[k + 1].alloc)
  }

  /** A block is split if the rest holds a header and at least one unit. */
  predicate Splits(b: Block, len: nat) { b.size >= len + HEADER + ALIGN }

  /** Allocate `len` bytes in the free block `i`. */
  function Place(bs: Layout, i: nat, len: nat): Layout
    requires i < |bs| && bs[i].size >= len
  {
    if Splits(bs[i], len) then
      bs[..i] + [Block(bs[i].addr, len, true),
                 Block(bs[i].addr + HEADER + len, bs[i].size - len - HEADER, false)] + bs[i + 1..]
    else bs[i := bs[i].(alloc := true)]
  }

  /** One block in the place of blocks `i` and `i + 1`. */
  function Join(bs: Layout, i: nat): Layout
    requires i + 1 < |bs|
  {
    bs[..i] + [bs[i].(size := bs[i].size + HEADER + bs[i + 1].size)] + bs[i + 2..]
  }

  predicate FreeBefore(bs: Layout, i: nat) { 0 < i < |bs| && !bs[i - 1].alloc }

  predicate FreeAfter(bs: Layout, i: nat) { i + 1 < |bs| && !bs[i + 1].alloc }

  /** Free block `i`: join it with a free block before it, then with one after it. */
  function Release(bs: Layout, i: nat): Layout
    requires i < |bs|
  {
    var bs1 := bs[i := bs[i].(alloc := false)];
    var (bs2, j) := if FreeBefore(bs1, i) then (Join(bs1, i - 1), i - 1) else (bs1, i);
    if FreeAfter(bs2, j) then Join(bs2, j) else bs2
  }

  // ------------------------------------------------------------ allocating

  lemma PlaceTiled(bs: Layout, lo: Addr, hi: Addr, i: nat, len: nat)
    requires Tiled(bs, lo, hi) && i < |bs| && !bs[i].alloc && bs[i].size >= len && len % ALIGN == 0
    ensures Tiled(Place(bs, i, len), lo, hi)
  {
    var q := Place(bs, i, len);
    if Splits(bs[i], len) {
      forall k | 0 <= k < |q| ensures q[k].addr % ALIGN == 0 {
        if k > i + 1 { assert q[k] == bs[k - 1]; }
      }
      forall k | 0 <= k < |q| - 1 ensures End(q[k]) == q[k + 1].addr && (q[k].alloc || q[k + 1].alloc) {
        if k < i - 1 {
          assert q[k] == bs[k] && q[k + 1] == bs[k + 1];
        } else if k == i - 1 {
          assert q[k] == bs[k] && End(bs[k]) == bs[k + 1].addr;
        } else if k == i + 1 {
          assert q[k + 1] == bs[i + 1] && End(bs[i]) == bs[i + 1].addr;
        } else if k > i + 1 {
          assert q[k] == bs[k - 1] && q[k + 1] == bs[k - 1 + 1];
        }
      }
    }
  }

  // ------------------------------------------------------------ freeing

  lemma JoinAddresses(bs: Layout, lo: Addr, hi: Addr, i: nat, j: nat)
    requires TiledBut(bs, lo, hi, j) && i + 1 < |bs|
    ensures var q := Join(bs, i);
            && |q| > 0 && q[0].addr == lo && End(q[|q| - 1]) == hi
            && (forall k | 0 <= k < |q| - 1 :: End(q[k]) == q[k + 1].addr)
            && (forall k | 0 <= k < |q| :: q[k].addr % ALIGN == 0)
  {}

  lemma JoinNeighbours(bs: Layout, lo: Addr, hi: Addr, i: nat, j: nat, k: nat)
    requires TiledBut(bs, lo, hi, j) && i + 1 < |bs| && (i == j || i + 1 == j) && k + 1 < |Join(bs, i)|
    ensures k != i - 1 && k != i ==> Join(bs, i)[k].alloc || Join(bs, i)[k + 1].alloc
    ensures k + 1 == i && bs[i - 1].alloc ==> Join(bs, i)[k].alloc
    ensures k == i && bs[i + 2].alloc ==> Join(bs, i)[k + 1].alloc
    ensures k == i && i == j && !bs[i + 1].alloc ==> Join(bs, i)[k + 1].alloc
  {}

  lemma JoinTiled(bs: Layout, lo: Addr, hi: Addr, i: nat, j: nat)
    requires TiledBut(bs, lo, hi, j) && i + 1 < |bs| && (i == j || i + 1 == j) && !bs[i].alloc && !bs[i + 1].alloc
    ensures TiledBut(Join(bs, i), lo, hi, i)
    ensures i == j && (i > 0 ==> bs[i - 1].alloc) ==> Tiled(Join(bs, i), lo, hi)
    ensures i + 1 == j && (i > 0 ==> bs[i - 1].alloc) && (i + 2 < |bs| ==> bs[i + 2].alloc) ==>
              Tiled(Join(bs, i), lo, hi)
  {
    var q := Join(bs, i);
    JoinShape(bs, i);
    JoinAddresses(bs, lo, hi, i, j);
    hide Join;
    forall k: nat | k + 1 < |q| ensures k != i - 1 && k != i ==> q[k].alloc || q[k + 1].alloc {
      JoinNeighbours(bs, lo, hi, i, j, k);
    }
    if i > 0 { JoinNeighbours(bs, lo, hi, i, j, i - 1); }
    if i + 1 < |q| { JoinNeighbours(bs, lo, hi, i, j, i); }
  }

  lemma Neighbours(bs: Layout, lo: Addr, hi: Addr, i: nat)
    requires Tiled(bs, lo, hi) && i + 1 < |bs|
    ensures bs[i].alloc || bs[i + 1].alloc
  {}

  lemma FreedBut(bs: Layout, lo: Addr, hi: Addr, i: nat)
    requires Tiled(bs, lo, hi) && i < |bs| && bs[i].alloc
    ensures TiledBut(bs[i := bs[i].(alloc := false)], lo, hi, i)
    ensures !FreeBefore(bs, i) && !FreeAfter(bs, i) ==> Tiled(bs[i := bs[i].(alloc := false)], lo, hi)
  {}

  lemma ReleaseTiled(bs: Layout, lo: Addr, hi: Addr, i: nat)
    requires Tiled(bs, lo, hi) && i < |bs| && bs[i].alloc
    ensures Tiled(Release(bs, i), lo, hi)
  {
    hide Join, Tiled, TiledBut;
    var bs1 := bs[i := bs[i].(alloc := false)];
    FreedBut(bs, lo, hi, i);
    if FreeBefore(bs1, i) {
      if i > 1 { Neighbours(bs, lo, hi, i - 2); }
      JoinTiled(bs1, lo, hi, i - 1, i);
      JoinShape(bs1, i - 1);
      var bs2 := Join(bs1, i - 1);
      if FreeAfter(bs2, i - 1) { JoinTiled(bs2, lo, hi, i - 1, i - 1); }
    } else if FreeAfter(bs1, i) {
      JoinTiled(bs1, lo, hi, i, i);
    }
  }

  lemma JoinShape(bs: Layout, i: nat)
    requires i + 1 < |bs|
    ensures |Join(bs, i)| == |bs| - 1 && Join(bs, i)[i] == bs[i].(size := bs[i].size + HEADER + bs[i + 1].size)
    ensures forall k | 0 <= k < i :: Join(bs, i)[k] == bs[k]
    ensures forall k | i < k < |bs| - 1 :: Join(bs, i)[k] == bs[k + 1]
  {}

  lemma Settled(bs: Layout, lo: Addr, hi: Addr, i: nat)
    requires TiledBut(bs, lo, hi, i) && !FreeBefore(bs, i) && !FreeAfter(bs, i)
    ensures Tiled(bs, lo, hi)
  {}

  /** Joining with the block before leaves at most the block after to join with. */
  lemma JoinBeforeTiled(bs: Layout, lo: Addr, hi: Addr, i: nat)
    requires TiledBut(bs, lo, hi, i) && FreeBefore(bs, i)
    ensures TiledBut(Join(bs, i - 1), lo, hi, i - 1) && !FreeBefore(Join(bs, i - 1), i - 1)
  {}

  lemma JoinAfterTiled(bs: Layout, lo: Addr, hi: Addr, i: nat)
    requires TiledBut(bs, lo, hi, i) && !FreeBefore(bs, i) && FreeAfter(bs, i)
    ensures Tiled(Join(bs, i), lo, hi)
  {
    JoinTiled(bs, lo, hi, i, i);
  }

  /** Freeing a block right after it was allocated restores the layout. */
  lemma ReleasePlace(bs: Layout, lo: Addr, hi: Addr, i: nat, len: nat)
    requires Tiled(bs, lo, hi) && i < |bs| && !bs[i].alloc && bs[i].size >= len
    ensures i < |Place(bs, i, len)| && Release(Place(bs, i, len), i) == bs
  {
    var q := Place(bs, i, len);
    if i > 0 { assert bs[i - 1].alloc; }
    if i + 1 < |bs| { assert bs[i + 1].alloc; }
    if Splits(bs[i], len) {
      assert q[i] == Block(bs[i].addr, len, true)
          && q[i + 1] == Block(bs[i].addr + HEADER + len, bs[i].size - len - HEADER, false);
      var q1 := q[i := q[i].(alloc := false)];
      assert FreeAfter(q1, i) && !FreeBefore(q1, i);
      assert Join(q1, i)[i] == bs[i];
      assert q1[i + 2..] == bs[i + 1..];
      assert Join(q1, i) == bs;
    } else {
      assert q[i := q[i].(alloc := false)] == bs;
    }
  }

  /** A heap without allocations is one free block. */
  lemma NothingAllocated(bs: Layout, lo: Addr, hi: Addr)
    requires Tiled(bs, lo, hi) && forall i | 0 <= i < |bs| :: !bs[i].alloc
    ensures lo + HEADER <= hi && bs == [Block(lo, hi - lo - HEADER, false)]
  {
    if |bs| > 1 { Neighbours(bs, lo, hi, 0); }
  }

  // ------------------------------------------------------------ allocations

  /** The allocated blocks. */
  function Live(bs: Layout): set<Block> { set b | b in bs && b.alloc }

  /** Allocating adds one block of at least `len` bytes at the place of a free one. */
  lemma PlaceLive(bs: Layout, lo: Addr, hi: Addr, i: nat, len: nat)
    requires Tiled(bs, lo, hi) && i < |bs| && !bs[i].alloc && bs[i].size >= len
    ensures i < |Place(bs, i, len)| && Place(bs, i, len)[i].addr == bs[i].addr && Place(bs, i, len)[i].size >= len
    ensures Live(Place(bs, i, len)) == Live(bs) + {Place(bs, i, len)[i]} && Place(bs, i, len)[i] !in bs
  {
    var q := Place(bs, i, len);
    forall b | b in Live(bs) ensures b in Live(q) {
      var k :| 0 <= k < |bs| && bs[k] == b;
      assert q[if k < i || !Splits(bs[i], len) then k else k + 1] == b;
    }
    forall b | b in Live(q) ensures b in Live(bs) + {q[i]} {
      var k :| 0 <= k < |q| && q[k] == b;
      if k < i { assert bs[k] == b; } else if k > i + 1 && Splits(bs[i], len) { assert bs[k - 1] == b; }
    }
    if q[i] in bs {
      var k :| 0 <= k < |bs| && bs[k] == q[i];
      Ordered(bs, lo, hi, if k < i then k else i, if k < i then i else k);
    }
  }

  /** Blocks do not overlap: each ends before a later one starts. */
  lemma {:induction false} Ordered(bs: Layout, lo: Addr, hi: Addr, i: nat, j: nat)
    requires Tiled(bs, lo, hi) && i <= j < |bs|
    ensures i < j ==> End(bs[i]) <= bs[j].addr
    ensures lo <= bs[i].addr && End(bs[j]) <= hi
    decreases |bs| - j + j - i
  {
    if i < j {
      assert End(bs[i]) == bs[i + 1].addr;
      Ordered(bs, lo, hi, i + 1, j);
      FromStart(bs, lo, hi, i);
    } else {
      FromStart(bs, lo, hi, i);
      ToEnd(bs, lo, hi, j);
    }
  }

  lemma {:induction false} FromStart(bs: Layout, lo: Addr, hi: Addr, i: nat)
    requires Tiled(bs, lo, hi) && i < |bs|
    ensures lo <= bs[i].addr
  {
    if i > 0 {
      FromStart(bs, lo, hi, i - 1);
      assert End(bs[i - 1]) == bs[i - 1 + 1].addr;
    }
  }

  lemma {:induction false} ToEnd(bs: Layout, lo: Addr, hi: Addr, i: nat)
    requires Tiled(bs, lo, hi) && i < |bs|
    ensures End(bs[i]) <= hi
    decreases |bs| - i
  {
    if i + 1 < |bs| {
      ToEnd(bs, lo, hi, i + 1);
      assert End(bs[i]) == bs[i + 1].addr;
    }
  }

  /** Freeing removes the block from the allocations and touches no other. */
  lemma ReleaseLive(bs: Layout, lo: Addr, hi: Addr, i: nat)
    requires Tiled(bs, lo, hi) && i < |bs| && bs[i].alloc
    ensures Live(Release(bs, i)) == Live(bs) - {bs[i]}
  {
    var bs1 := bs[i := bs[i].(alloc := false)];
    forall k, l | 0 <= k < l < |bs| ensures bs[k] != bs[l] { Ordered(bs, lo, hi, k, l); }
    assert Live(bs1) == Live(bs) - {bs[i]} by {
      forall b | b in Live(bs) && b != bs[i] ensures b in Live(bs1) {
        var k :| 0 <= k < |bs| && bs[k] == b;
        assert bs1[k] == b;
      }
      forall b | b in Live(bs1) ensures b in Live(bs) && b != bs[i] {
        var k :| 0 <= k < |bs1| && bs1[k] == b;
        assert bs[k] == b;
      }
    }
    if FreeBefore(bs1, i) {
      JoinLive(bs1, i - 1);
      JoinShape(bs1, i - 1);
      if FreeAfter(Join(bs1, i - 1), i - 1) { JoinLive(Join(bs1, i - 1), i - 1); }
    } else if FreeAfter(bs1, i) {
      JoinLive(bs1, i);
    }
  }

  lemma JoinLive(bs: Layout, i: nat)
    requires i + 1 < |bs| && !bs[i].alloc && !bs[i + 1].alloc
    ensures Live(Join(bs, i)) == Live(bs)
  {}

  /** Freeing blocks one after the other, each named by its index at that time. */
  ghost function ReleaseAll(bs: Layout, order: seq<nat>): Layout
    decreases |order|
  {
    if order == [] || order[0] >= |bs| then bs else ReleaseAll(Release(bs, order[0]), order[1..])
  }

  /** The order frees allocated blocks only, and all of them. */
  ghost predicate FreesAll(bs: Layout, order: seq<nat>)
    decreases |order|
  {
    if order == [] then Live(bs) == {}
    else order[0] < |bs| && bs[order[0]].alloc && FreesAll(Release(bs, order[0]), order[1..])
  }

  /** Freeing all live allocations in any order restores the one free block. */
  lemma {:induction false} ReleaseAllOne(bs: Layout, lo: Addr, hi: Addr, order: seq<nat>)
    requires Tiled(bs, lo, hi) && FreesAll(bs, order)
    ensures lo + HEADER <= hi && ReleaseAll(bs, order) == [Block(lo, hi - lo - HEADER, false)]
    decreases |order|
  {
    if order == [] {
      forall i | 0 <= i < |bs| ensures !bs[i].alloc {
        assert bs[i] in bs && bs[i] !in Live(bs);
      }
      NothingAllocated(bs, lo, hi);
    } else {
      ReleaseTiled(bs, lo, hi, order[0]);
      ReleaseAllOne(Release(bs, order[0]), lo, hi, order[1..]);
    }
  }
}
