/** The heap allocator: a first-fit search over the free list, splitting and coalescing of
    blocks, on headers that are nodes of two linked lists. */
module Allocator {
  import opened HeapLayout
  import opened LinkedLists
  import opened HeapChain
  import S2Geometry
  import RealmGeometry

  const WORD: nat := 0x1_0000_0000_0000_0000

  function RoundUp(n: nat): (r: nat)
    ensures r % ALIGN == 0 && n <= r < n + ALIGN
  {
    if n % ALIGN != 0 then n - n % ALIGN + ALIGN else n
  }

  /** No free block has `len` bytes. */
  predicate NoFit(bs: Layout, len: nat) { forall i | 0 <= i < |bs| && !bs[i].alloc :: bs[i].size < len }

  /** `bs2` is `bs` after an allocation of `len` bytes at `ret`. */
  ghost predicate Allocated(bs: Layout, bs2: Layout, len: nat, ret: Addr) {
    exists i: nat ::
      i < |bs| && !bs[i].alloc && bs[i].size >= len && ret == bs[i].addr + HEADER && bs2 == Place(bs, i, len)
  }

  /** `bs2` is `bs` after the block with payload `ptr` was freed. */
  ghost predicate Freed(bs: Layout, bs2: Layout, ptr: Addr) {
    exists i: nat :: i < |bs| && bs[i].alloc && ptr == bs[i].addr + HEADER && bs2 == Release(bs, i)
  }

  class Heap {
    var buf: Addr
    var len: nat
    var first: Addr
    var firstFree: Addr
    var size: map<Addr, nat>
    var alloc: map<Addr, bool>
    var prev: Links
    var next: Links
    var prevFree: Links
    var nextFree: Links
    /** The bytes of the buffer, as far as they are not headers. */
    var mem: seq<nat>
    ghost var blocks: seq<Addr>
    ghost var free: seq<Addr>

    ghost function State(): Chain
      reads this
    {
      Chain(buf, len, first, firstFree, size, alloc, prev, next, prevFree, nextFree, blocks, free)
    }

    lemma StateIs()
      ensures State() == Chain(buf, len, first, firstFree, size, alloc, prev, next, prevFree, nextFree, blocks, free)
    {}

    /** A heap whose buffer was too small is never used. */
    ghost predicate Valid()
      reads this
    {
      (buf == 0 && first == 0) || (Ready(State()) && buf + len <= WORD && |mem| == len)
    }

    // ---------------------------------------------------------- initialisation

    method Init(start: Addr, length: nat)
      requires start != 0 && start + length <= WORD
      modifies this
      ensures Valid()
      ensures length < HEADER + ALIGN ==> buf == 0
      ensures length >= HEADER + ALIGN ==>
                && buf == RoundUp(start) && buf + len == start + length && Ready(State()) && HasFields(State())
                && LayoutOf(State()) == [Block(buf, len - HEADER, false)]
    {
      buf, len, first, firstFree := 0, 0, 0, 0;
      if length < HEADER + ALIGN { return; }
      var p, n := start, length;
      if start % ALIGN != 0 {
        n := n - (ALIGN - start % ALIGN);
        p := p + (ALIGN - start % ALIGN);
      }
      InitAt(p, n);
      mem := seq(n, i => 0);
    }

    method InitAt(p: Addr, n: nat)
      requires p != 0 && p % ALIGN == 0 && n >= HEADER
      modifies this
      ensures buf == p && len == n && Ready(State()) && HasFields(State())
      ensures LayoutOf(State()) == [Block(p, n - HEADER, false)]
    {
      var all := n - HEADER;
      hide *;
      InitFields(p, n, all);
      buf, len, first, firstFree := p, n, p, p;
      blocks, free := [p], [p];
      StateIs();
      OneBlock(State(), p, n);
    }

    method InitFields(p: Addr, n: nat, all: nat)
      modifies this`size, this`alloc, this`prev, this`next, this`prevFree, this`nextFree
      ensures size == map[p := all] && alloc == map[p := false]
      ensures prev == map[p := 0] && next == map[p := 0] && prevFree == map[p := 0] && nextFree == map[p := 0]
    {
      var none: Links := map[p := 0];
      size, alloc := map[p := all], map[p := false];
      prev, next, prevFree, nextFree := none, none, none, none;
    }

    // ---------------------------------------------------------- the chain

    /** verify_header, for a header whose magic words are intact. */
    predicate HeaderOk(h: Addr)
      reads this
      requires h in prev && h in next && h in prevFree && h in nextFree
    {
      !(prev[h] != 0 && prev[h] == next[h]) && !(prevFree[h] != 0 && prevFree[h] == nextFree[h])
    }

    lemma HeaderAt(i: nat)
      requires Lists(State(), 0) && i < |blocks|
      ensures blocks[i] in prev && blocks[i] in next && blocks[i] in prevFree && blocks[i] in nextFree
      ensures HeaderOk(blocks[i])
      ensures prev[blocks[i]] == At(blocks, i - 1) && next[blocks[i]] == At(blocks, i + 1) && blocks[i] != 0
    {
      NodeFacts(State(), i, 0);
      assert Distinct(blocks);
    }

    /** The chain of every reachable heap passes the check. */
    method VerifyChain() returns (bad: bool)
      requires Valid()
      ensures bad <==> buf == 0
    {
      if first == 0 { return true; }
      HeaderAt(0);
      if !HeaderOk(first) || prev[first] != 0 { return true; }
      var prv, cur := first, next[first];
      ghost var i := 1;
      while cur != 0
        invariant 1 <= i <= |blocks| && cur == At(blocks, i) && prv == blocks[i - 1]
        decreases |blocks| - i
      {
        HeaderAt(i);
        if !HeaderOk(cur) || prev[cur] != prv { return true; }
        prv, cur := cur, next[cur];
        i := i + 1;
      }
      return false;
    }

    // ---------------------------------------------------------- allocation

    /** The first block of the free list that is large enough, or NULL. */
    method FindFit(need: nat) returns (cur: Addr, ghost k: nat)
      requires Ready(State())
      ensures cur == 0 ==> NoFit(LayoutOf(State()), need)
      ensures cur != 0 ==> k < |free| && cur == free[k] && cur in size && size[cur] >= need
      ensures cur != 0 ==> forall j: nat | j < k :: free[j] in size && size[free[j]] < need
    {
      cur, k := firstFree, 0;
      hide Tiled;
      while cur != 0
        invariant 0 <= k <= |free| && cur == At(free, k)
        invariant forall j: nat | j < k :: free[j] in size && size[free[j]] < need
        decreases |free| - k
      {
        assert LinkOk(free, prevFree, nextFree, k);
        ghost var i := FreeNode(State(), k, 0);
        NodeFacts(State(), i, 0);
        if size[cur] >= need { return; }
        cur := nextFree[cur];
        k := k + 1;
      }
      assert k == |free| by { assert Distinct(free); }
      ghost var bs := LayoutOf(State());
      forall i: nat | i < |bs| && !bs[i].alloc ensures bs[i].size < need {
        NodeFacts(State(), i, 0);
        assert blocks[i] in free;
        assert bs[i] == BlockAt(State(), i);
      }
    }

    method ClearMemory(ret: Addr, n: nat)
      requires |mem| == len && buf <= ret && ret + n <= buf + len
      modifies this`mem
      ensures |mem| == len && forall a | 0 <= a < len :: mem[a] == if ret <= buf + a < ret + n then 0 else old(mem)[a]
    {
      var off := ret - buf;
      mem := mem[..off] + seq(n, i => 0) + mem[off + n..];
    }

    /** Block `cur` of the free list is allocated, as a whole or its first `need` bytes. */
    method TakeFit(cur: Addr, ghost k: nat, need: nat)
      requires Ready(State()) && k < |free| && cur == free[k] && cur in size && size[cur] >= need && need % ALIGN == 0
      modifies this`size, this`alloc, this`prev, this`next, this`prevFree, this`nextFree, this`firstFree, this`blocks,
               this`free
      ensures Ready(State()) && HasFields(State()) && old(HasFields(State()))
      ensures Allocated(old(LayoutOf(State())), LayoutOf(State()), need, cur + HEADER)
    {
      ghost var c := State();
      ghost var i := TakePlan(c, k, need);
      var split := size[cur] - need >= HEADER + ALIGN;
      hide *;
      StateIs();
      if split {
        Split(cur, i, k, need);
      } else {
        Take(cur, k);
      }
    }

    method Take(cur: Addr, ghost k: nat)
      requires k < |free| && cur == free[k] && cur in prevFree && cur in nextFree
      modifies this`alloc, this`prevFree, this`nextFree, this`firstFree, this`free
      ensures State() == TakeWhole(old(State()), k)
    {
      alloc := alloc[cur := true];
      var p, n := prevFree[cur], nextFree[cur];
      if p != 0 { nextFree := nextFree[p := n]; } else { firstFree := n; }
      if n != 0 { prevFree := prevFree[n := p]; }
      prevFree := prevFree[cur := 0];
      nextFree := nextFree[cur := 0];
      free := Without(free, k);
    }

    method Split(cur: Addr, ghost i: nat, ghost k: nat, need: nat)
      requires i < |blocks| && k < |free| && cur == blocks[i] == free[k]
      requires cur in size && size[cur] >= need + HEADER && cur in next && cur in prevFree && cur in nextFree
      modifies this`size, this`alloc, this`prev, this`next, this`prevFree, this`nextFree, this`firstFree, this`blocks,
               this`free
      ensures State() == SplitBlock(old(State()), i, k, need)
    {
      var rest := cur + HEADER + need;
      assert rest != cur;
      hide *;
      ghost var c := State();
      StateIs();
      SplitHeader(cur, rest, i, need);
      ReplaceFree(cur, rest, k);
      StateIs();
      SplitIs(c, State(), i, k, need);
    }

    /** The header of the rest goes into the block list behind `cur`. */
    method SplitHeader(cur: Addr, rest: Addr, ghost i: nat, need: nat)
      requires i < |blocks| && cur in size && size[cur] >= need + HEADER && cur in next && rest != cur
      modifies this`size, this`alloc, this`prev, this`next, this`blocks
      ensures size == old(size)[rest := old(size)[cur] - need - HEADER][cur := need]
      ensures alloc == old(alloc)[rest := false][cur := true]
      ensures prev == Relink(old(prev)[rest := cur], old(next)[cur], rest)
      ensures next == old(next)[rest := old(next)[cur]][cur := rest]
      ensures blocks == Inserted(old(blocks), i, rest)
    {
      size := size[rest := size[cur] - need - HEADER];
      alloc := alloc[rest := false];
      var after := next[cur];
      var links := prev[rest := cur];
      if after != 0 { links := links[after := rest]; }
      prev := links;
      next := next[rest := after];
      alloc := alloc[cur := true];
      size := size[cur := need];
      next := next[cur := rest];
      blocks := Inserted(blocks, i, rest);
    }

    /** The new block takes the place of `cur` in the free list. */
    method ReplaceFree(cur: Addr, rest: Addr, ghost k: nat)
      requires k < |free| && cur == free[k] && cur in prevFree && cur in nextFree
      modifies this`prevFree, this`nextFree, this`firstFree, this`free
      ensures var p, n := old(prevFree)[cur], old(nextFree)[cur];
              && firstFree == (if p == 0 then rest else old(firstFree)) && free == old(free)[k := rest]
              && prevFree == Relink(old(prevFree)[rest := p], n, rest)[cur := 0]
              && nextFree == Relink(old(nextFree)[rest := n], p, rest)[cur := 0]
    {
      var p, n := prevFree[cur], nextFree[cur];
      var before, behind := prevFree[rest := p], nextFree[rest := n];
      if p != 0 { behind := behind[p := rest]; } else { firstFree := rest; }
      if n != 0 { before := before[n := rest]; }
      prevFree := before[cur := 0];
      nextFree := behind[cur := 0];
      free := free[k := rest];
    }

    /** calloc fails exactly for empty and overflowing requests and when no free block is
        large enough. Otherwise the result is the payload of a free block, which becomes
        allocated and is split if it is much larger, and the requested bytes are zero. */
    method Calloc(n: nat, sz: nat) returns (ret: Addr)
      requires Valid() && n < WORD && sz < WORD
      modifies this
      ensures Valid() && buf == old(buf) && len == old(len)
      ensures ret == 0 <==>
                || buf == 0 || n == 0 || sz == 0 || n * sz > WORD - ALIGN
                || NoFit(old(LayoutOf(State())), RoundUp(n * sz))
      ensures ret == 0 ==> State() == old(State()) && mem == old(mem)
      ensures ret != 0 ==> Allocated(old(LayoutOf(State())), LayoutOf(State()), RoundUp(n * sz), ret)
      ensures ret != 0 ==> buf <= ret && ret + n * sz <= buf + len && ret % ALIGN == 0
      ensures ret != 0 ==> forall a | 0 <= a < len ::
                mem[a] == if ret <= buf + a < ret + n * sz then 0 else old(mem)[a]
    {
      hide *;
      FromValid();
      if buf == 0 || first == 0 { return 0; }
      var ok, want, need := Request(n, sz);
      if !ok { return 0; }
      ret := Allocate(want, need);
      IsValid();
    }

    lemma FromValid()
      requires Valid()
      ensures buf != 0 ==> first != 0 && Ready(State()) && HasFields(State()) && |mem| == len && buf + len <= WORD
    {}

    lemma IsValid()
      ensures Ready(State()) && buf + len <= WORD && |mem| == len ==> Valid()
    {}

    method Allocate(want: nat, need: nat) returns (ret: Addr)
      requires Ready(State()) && |mem| == len && want <= need && need % ALIGN == 0
      modifies this
      ensures Ready(State()) && HasFields(State()) && old(HasFields(State())) && buf == old(buf) && len == old(len)
      ensures |mem| == len
      ensures ret == 0 <==> NoFit(old(LayoutOf(State())), need)
      ensures ret == 0 ==> State() == old(State()) && mem == old(mem)
      ensures ret != 0 ==> Allocated(old(LayoutOf(State())), LayoutOf(State()), need, ret)
      ensures ret != 0 ==> buf <= ret && ret + want <= buf + len && ret % ALIGN == 0
      ensures ret != 0 ==> forall a | 0 <= a < len ::
                mem[a] == if ret <= buf + a < ret + want then 0 else old(mem)[a]
    {
      ghost var bs := LayoutOf(State());
      assert Tiled(bs, buf, buf + len);
      hide Ready, Tiled, Allocated, NoFit, Place;
      var cur, k := FindFit(need);
      if cur == 0 { return 0; }
      TakeFit(cur, k, need);
      ret := cur + HEADER;
      AllocatedBounds(bs, LayoutOf(State()), buf, buf + len, need, ret);
      ClearMemory(ret, want);
    }

    // ---------------------------------------------------------- freeing

    /** Frees an allocation: its block joins free neighbours or goes to the head of the free list. */
    method Free(ptr: Addr)
      requires Valid()
      requires ptr == 0 || buf == 0 || IsAllocation(LayoutOf(State()), ptr)
      modifies this
      ensures Valid() && buf == old(buf) && len == old(len) && mem == old(mem)
      ensures ptr == 0 || buf == 0 ==> State() == old(State())
      ensures ptr != 0 && buf != 0 ==> Freed(old(LayoutOf(State())), LayoutOf(State()), ptr)
    {
      hide *;
      FromValid();
      ghost var c := State();
      StateIs();
      if ptr == 0 || buf == 0 || first == 0 { return; }
      ghost var i := AllocationIndex(c, ptr);
      var hdr := ptr - HEADER;
      alloc := alloc[hdr := false];
      StateIs();
      Coalesce(hdr, i);
      IsValid();
    }

    /** The rest of a free: block `i` with header `h` is marked free. */
    method Coalesce(h: Addr, ghost i: nat)
      requires Freeing(State(), i, false) && h == blocks[i]
      modifies this`size, this`alloc, this`prev, this`next, this`prevFree, this`nextFree, this`firstFree, this`blocks,
               this`free
      ensures Ready(State()) && HasFields(State()) && old(HasFields(State()))
      ensures i < |old(LayoutOf(State()))| && LayoutOf(State()) == Release(old(LayoutOf(State())), i)
    {
      ReleaseStart(State(), i);
      hide *;
      var hdr, joined;
      ghost var j;
      hdr, joined, j := FirstJoin(h, i);
      SecondJoin(hdr, j, joined);
    }

    /** Regroup with the block before. */
    method FirstJoin(h: Addr, ghost i: nat) returns (hdr: Addr, joined: bool, ghost j: nat)
      requires Freeing(State(), i, false) && h == blocks[i]
      modifies this`size, this`alloc, this`prev, this`next, this`prevFree, this`nextFree, this`blocks
      ensures old(HasFields(State())) && HasFields(State())
      ensures joined == FreeBefore(old(LayoutOf(State())), i) && j == (if joined then i - 1 else i)
      ensures Freeing(State(), j, joined) && j < |blocks| && hdr == blocks[j] && !FreeBefore(LayoutOf(State()), j)
      ensures joined ==> i < |old(LayoutOf(State()))| && LayoutOf(State()) == Join(old(LayoutOf(State())), i - 1)
      ensures !joined ==> LayoutOf(State()) == old(LayoutOf(State()))
    {
      Around(State(), i, false);
      assert i < |blocks| && |LayoutOf(State())| == |blocks|;
      hide *;
      StateIs();
      hdr, joined, j := h, false, i;
      var p := prev[hdr];
      if p != 0 && !alloc[p] {
        BeforeStep(State(), i);
        JoinPrevious(p, hdr, i);
        hdr, joined, j := p, true, i - 1;
        StateIs();
      }
    }

    /** Regroup with the block after, or put a block that joined none into the free list. */
    method SecondJoin(hdr: Addr, ghost j: nat, joined: bool)
      requires Freeing(State(), j, joined) && hdr == blocks[j] && !FreeBefore(LayoutOf(State()), j)
      modifies this`size, this`alloc, this`prev, this`next, this`prevFree, this`nextFree, this`firstFree, this`blocks,
               this`free
      ensures Ready(State()) && HasFields(State()) && old(HasFields(State())) && j < |old(LayoutOf(State()))|
      ensures FreeAfter(old(LayoutOf(State())), j) ==>
                j + 1 < |old(LayoutOf(State()))| && LayoutOf(State()) == Join(old(LayoutOf(State())), j)
      ensures !FreeAfter(old(LayoutOf(State())), j) ==> LayoutOf(State()) == old(LayoutOf(State()))
    {
      Around(State(), j, joined);
      assert j < |blocks| && |LayoutOf(State())| == |blocks|;
      hide *;
      StateIs();
      var n := next[hdr];
      if n != 0 && !alloc[n] {
        TakeOver(hdr, n, j, joined);
      } else {
        SettledStep(State(), j, joined);
        if !joined { Push(hdr); }
      }
    }

    method TakeOver(hdr: Addr, n: Addr, ghost j: nat, joined: bool)
      requires Freeing(State(), j, joined) && hdr == blocks[j] && !FreeBefore(LayoutOf(State()), j)
      requires FreeAfter(LayoutOf(State()), j)
      requires n == At(blocks, j + 1)
      modifies this`size, this`alloc, this`prev, this`next, this`prevFree, this`nextFree, this`firstFree, this`blocks,
               this`free
      ensures Ready(State()) && HasFields(State()) && old(HasFields(State())) && j + 1 < |old(LayoutOf(State()))|
      ensures LayoutOf(State()) == Join(old(LayoutOf(State())), j)
    {
      ghost var k := 0;
      AfterPlan(State(), j, joined);
      hide *;
      StateIs();
      if prevFree[hdr] != 0 || nextFree[hdr] != 0 {
        ghost var l := IndexIn(free, hdr);
        Leave(hdr, l);
        StateIs();
      }
      k := IndexIn(free, n);
      Absorb(hdr, n, j, k);
    }

    method JoinPrevious(p: Addr, hdr: Addr, ghost i: nat)
      requires 0 < i < |blocks| && hdr == blocks[i] && p == blocks[i - 1]
      requires hdr in next && HasField(State(), hdr) && HasField(State(), p)
      modifies this`size, this`alloc, this`prev, this`next, this`prevFree, this`nextFree, this`blocks
      ensures State() == JoinBefore(old(State()), i)
    {
      size := size[p := size[p] + HEADER + size[hdr]];
      next := next[p := next[hdr]];
      if next[p] != 0 { prev := prev[next[p] := p]; }
      blocks := Without(blocks, i);
      WipeHeader(hdr);
    }

    /** Headers that are gone are zeroed. */
    method WipeHeader(a: Addr)
      modifies this`size, this`alloc, this`prev, this`next, this`prevFree, this`nextFree
      ensures State() == Wipe(old(State()), a)
    {
      size, alloc := size[a := 0], alloc[a := false];
      prev, next := prev[a := 0], next[a := 0];
      prevFree, nextFree := prevFree[a := 0], nextFree[a := 0];
    }

    /** Node `l` leaves the free list; its own links are overwritten later. */
    method Leave(hdr: Addr, ghost l: nat)
      requires l < |free| && hdr == free[l] && hdr in prevFree && hdr in nextFree
      modifies this`prevFree, this`nextFree, this`firstFree, this`free
      ensures State() == UnlinkFree(old(State()), l)
    {
      var p, n := prevFree[hdr], nextFree[hdr];
      if p != 0 { nextFree := nextFree[p := n]; } else { firstFree := n; }
      if n != 0 { prevFree := prevFree[n := p]; }
      free := Without(free, l);
    }

    /** `hdr` takes over block `n` behind it and its place in the free list. */
    method Absorb(hdr: Addr, n: Addr, ghost j: nat, ghost k: nat)
      requires j + 1 < |blocks| && k < |free| && free[k] == n == blocks[j + 1] && hdr == blocks[j] && hdr != n
      requires n in prevFree && n in nextFree && n in next && HasField(State(), hdr) && HasField(State(), n)
      modifies this`size, this`alloc, this`prev, this`next, this`prevFree, this`nextFree, this`firstFree, this`blocks,
               this`free
      ensures State() == JoinAfter(old(State()), j, k)
    {
      ghost var c := State();
      TakePlace(hdr, n, k);
      AbsorbBlock(hdr, n, j);
      WipeHeader(n);
    }

    method TakePlace(hdr: Addr, n: Addr, ghost k: nat)
      requires k < |free| && free[k] == n && n in prevFree && n in nextFree && hdr != n
      modifies this`prevFree, this`nextFree, this`firstFree, this`free
      ensures State() == SubstituteFree(old(State()), k, hdr)
    {
      var p, a := prevFree[n], nextFree[n];
      prevFree, nextFree := prevFree[hdr := p], nextFree[hdr := a];
      if p != 0 { nextFree := nextFree[p := hdr]; } else { firstFree := hdr; }
      if a != 0 { prevFree := prevFree[a := hdr]; }
      free := free[k := hdr];
    }

    method AbsorbBlock(hdr: Addr, n: Addr, ghost j: nat)
      requires j + 1 < |blocks| && n == blocks[j + 1] && hdr == blocks[j] && hdr != n
      requires n in next && HasField(State(), hdr) && HasField(State(), n)
      modifies this`size, this`prev, this`next, this`blocks
      ensures State() == old(State()).(size := old(size)[hdr := old(size)[hdr] + HEADER + old(size)[n]],
                                       next := old(next)[hdr := old(next)[n]],
                                       prev := Relink(old(prev), old(next)[n], hdr),
                                       blocks := Without(old(blocks), j + 1))
    {
      size := size[hdr := size[hdr] + HEADER + size[n]];
      next := next[hdr := next[n]];
      if next[hdr] != 0 { prev := prev[next[hdr] := hdr]; }
      blocks := Without(blocks, j + 1);
    }

    method Push(hdr: Addr)
      modifies this`prevFree, this`nextFree, this`firstFree, this`free
      ensures State() == PushFree(old(State()), hdr)
    {
      nextFree := nextFree[hdr := firstFree];
      if firstFree != 0 { prevFree := prevFree[firstFree := hdr]; }
      firstFree := hdr;
      free := [hdr] + free;
    }
  }

  predicate IsAllocation(bs: Layout, ptr: Addr) {
    exists i: nat :: i < |bs| && bs[i].alloc && ptr == bs[i].addr + HEADER
  }


  /** A new allocation does not overlap any that was live, and all of those stay live. */
  lemma NewIsDisjoint(bs: Layout, bs2: Layout, lo: Addr, hi: Addr, need: nat, ret: Addr, b: Block)
    requires Tiled(bs, lo, hi) && Allocated(bs, bs2, need, ret) && b in Live(bs)
    ensures b in Live(bs2) && (End(b) + HEADER <= ret || ret + need <= b.addr)
  {
    var i: nat :| i < |bs| && !bs[i].alloc && bs[i].size >= need && ret == bs[i].addr + HEADER
        && bs2 == Place(bs, i, need);
    PlaceLive(bs, lo, hi, i, need);
    var k :| 0 <= k < |bs| && bs[k] == b;
    Ordered(bs, lo, hi, if k < i then k else i, if k < i then i else k);
  }

  /** Freeing an allocation at once restores the block layout. */
  lemma FreeRestores(bs: Layout, bs2: Layout, bs3: Layout, lo: Addr, hi: Addr, need: nat, ret: Addr)
    requires Tiled(bs, lo, hi) && need % ALIGN == 0 && Allocated(bs, bs2, need, ret) && Freed(bs2, bs3, ret)
    ensures bs3 == bs
  {
    var i: nat :| i < |bs| && !bs[i].alloc && bs[i].size >= need && ret == bs[i].addr + HEADER
        && bs2 == Place(bs, i, need);
    var k: nat :| k < |bs2| && bs2[k].alloc && ret == bs2[k].addr + HEADER && bs3 == Release(bs2, k);
    PlaceTiled(bs, lo, hi, i, need);
    PlaceLive(bs, lo, hi, i, need);
    Ordered(bs2, lo, hi, if k < i then k else i, if k < i then i else k);
    ReleasePlace(bs, lo, hi, i, need);
  }

  lemma AllocationIndex(c: Chain, ptr: Addr) returns (i: nat)
    requires Ready(c) && IsAllocation(LayoutOf(c), ptr)
    ensures i < |c.blocks| && ptr == c.blocks[i] + HEADER && HasFields(c)
    ensures var q := c.(alloc := c.alloc[c.blocks[i] := false]);
            Freeing(q, i, false) && HasFields(q) && i < |LayoutOf(q)|
            && Freed(LayoutOf(c), Release(LayoutOf(q), i), ptr)
  {
    i :| i < |LayoutOf(c)| && LayoutOf(c)[i].alloc && ptr == LayoutOf(c)[i].addr + HEADER;
    assert LayoutOf(c)[i] == BlockAt(c, i);
    MarkFree(c, i);
    FreedBy(LayoutOf(c), i, ptr);
  }

  lemma ReleaseStart(c: Chain, i: nat)
    requires Freeing(c, i, false)
    ensures i < |c.blocks| && HasFields(c) && i < |LayoutOf(c)| && |LayoutOf(c)| == |c.blocks|
    ensures var bs := LayoutOf(c);
            var bs2 := if FreeBefore(bs, i) then Join(bs, i - 1) else bs;
            var j := if FreeBefore(bs, i) then i - 1 else i;
            Release(bs, i) == if FreeAfter(bs2, j) then Join(bs2, j) else bs2
  {
    ReleaseCases(LayoutOf(c), i);
  }

  /** How the block after is taken over: block `j` leaves the free list if it was in it, then
      takes the place of the block after. */
  lemma AfterPlan(c: Chain, j: nat, joined: bool)
    requires Freeing(c, j, joined) && !FreeBefore(LayoutOf(c), j) && FreeAfter(LayoutOf(c), j)
    ensures j + 1 < |c.blocks| && HasFields(c) && |LayoutOf(c)| == |c.blocks|
    ensures c.blocks[j] in c.prevFree && c.blocks[j] in c.nextFree && At(c.blocks, j + 1) == c.blocks[j + 1]
    ensures joined <==> c.prevFree[c.blocks[j]] != 0 || c.nextFree[c.blocks[j]] != 0
    ensures joined ==> c.blocks[j] in c.free
    ensures !joined ==> AfterReady(c, j, LayoutOf(c))
    ensures joined ==> forall l: nat | l < |c.free| && c.free[l] == c.blocks[j] ::
              c.free[l] in c.prevFree && c.free[l] in c.nextFree && AfterReady(UnlinkFree(c, l), j, LayoutOf(c))
  {
    var bs := LayoutOf(c);
    assert bs[j + 1] == BlockAt(c, j + 1);
    ListedNeighbour(c, j, joined);
    if joined {
      forall l: nat | l < |c.free| && c.free[l] == c.blocks[j]
        ensures c.free[l] in c.prevFree && c.free[l] in c.nextFree && AfterReady(UnlinkFree(c, l), j, bs)
      {
        UnlinkReady(c, j, l, 0);
        AfterUnlinked(c, j, l);
      }
    } else {
      AfterUnlisted(c, j);
    }
  }

  /** Whatever place `k` the block after has in the free list, it can be taken over. */
  ghost predicate AfterReady(c: Chain, j: nat, bs: Layout) {
    && j + 1 < |c.blocks| && j + 1 < |bs| && c.blocks[j + 1] in c.free
    && forall k: nat | k < |c.free| && c.free[k] == c.blocks[j + 1] :: AfterDone(c, j, k, bs)
  }

  ghost predicate AfterDone(c: Chain, j: nat, k: nat, bs: Layout) {
    && j + 1 < |c.blocks| && j + 1 < |bs| && k < |c.free| && c.free[k] in c.prevFree && c.free[k] in c.nextFree
    && c.blocks[j + 1] in c.next && HasField(c, c.blocks[j]) && HasField(c, c.blocks[j + 1])
    && var q := JoinAfter(c, j, k); Ready(q) && HasFields(q) && LayoutOf(q) == Join(bs, j)
  }

  lemma AfterUnlisted(c: Chain, j: nat)
    requires Freeing(c, j, false) && !FreeBefore(LayoutOf(c), j) && FreeAfter(LayoutOf(c), j)
    ensures AfterReady(c, j, LayoutOf(c))
  {
    var bs := LayoutOf(c);
    assert bs[j + 1] == BlockAt(c, j + 1);
    ListedNeighbour(c, j, false);
    JoinReady(c, j);
    hide Join, JoinAfter, CanJoin, Lists;
    forall k: nat | k < |c.free| && c.free[k] == c.blocks[j + 1] ensures AfterDone(c, j, k, bs) {
      AfterStep(c, j, k, bs);
    }
  }

  lemma AfterUnlinked(c: Chain, j: nat, l: nat)
    requires Freeing(c, j, true) && !FreeBefore(LayoutOf(c), j) && FreeAfter(LayoutOf(c), j)
    requires l < |c.free| && c.free[l] == c.blocks[j] && c.free[l] in c.prevFree && c.free[l] in c.nextFree
    ensures AfterReady(UnlinkFree(c, l), j, LayoutOf(c))
  {
    var bs, q := LayoutOf(c), UnlinkFree(c, l);
    assert bs[j + 1] == BlockAt(c, j + 1);
    UnlinkReady(c, j, l, 0);
    hide Join, JoinAfter, CanJoin, Lists;
    forall k: nat | k < |q.free| && q.free[k] == q.blocks[j + 1] ensures AfterDone(q, j, k, bs) {
      UnlinkReady(c, j, l, k);
      AfterStep(q, j, k, bs);
    }
  }

  lemma FreedBy(bs: Layout, i: nat, ptr: Addr)
    requires i < |bs| && bs[i].alloc && ptr == bs[i].addr + HEADER
    ensures Freed(bs, Release(bs, i), ptr)
    ensures var bs1 := bs[i := bs[i].(alloc := false)]; Release(bs1, i) == Release(bs, i)
  {
    var bs1 := bs[i := bs[i].(alloc := false)];
    assert bs1[i := bs1[i].(alloc := false)] == bs1;
  }

  /** Freeing spelled out for a block that is marked free. */
  lemma ReleaseCases(bs: Layout, i: nat)
    requires i < |bs| && !bs[i].alloc
    ensures var bs2 := if FreeBefore(bs, i) then Join(bs, i - 1) else bs;
            var j := if FreeBefore(bs, i) then i - 1 else i;
            Release(bs, i) == if FreeAfter(bs2, j) then Join(bs2, j) else bs2
  {}

  /** The number of bytes to clear and to reserve, for a request that is neither empty nor too large. */
  method Request(n: nat, sz: nat) returns (ok: bool, want: nat, need: nat)
    requires n < WORD && sz < WORD
    ensures ok <==> n != 0 && sz != 0 && n * sz <= WORD - ALIGN
    ensures ok ==> want == n * sz && need == RoundUp(n * sz) && want <= need && need % ALIGN == 0
  {
    want := n * sz % WORD;
    need := want;
    Product(n, sz);
    if n == 0 || sz == 0 || want / n != sz { return false, 0, 0; }
    if want > WORD - ALIGN { return false, 0, 0; }
    if need % ALIGN != 0 { need := need - need % ALIGN + ALIGN; }
    ok := true;
  }

  /** An allocation is aligned, lies inside the buffer and was not possible nowhere. */
  lemma AllocatedBounds(bs: Layout, bs2: Layout, lo: Addr, hi: Addr, need: nat, ret: Addr)
    requires Tiled(bs, lo, hi) && Allocated(bs, bs2, need, ret)
    ensures lo <= ret && ret + need <= hi && ret % ALIGN == 0 && !NoFit(bs, need) && ret != 0
  {
    var i: nat :| i < |bs| && !bs[i].alloc && bs[i].size >= need && ret == bs[i].addr + HEADER
        && bs2 == Place(bs, i, need);
    Ordered(bs, lo, hi, i, i);
  }

  /** What allocating `need` bytes in node `k` of the free list comes to. */
  lemma TakePlan(c: Chain, k: nat, need: nat) returns (i: nat)
    requires Ready(c) && k < |c.free| && c.free[k] in c.size && c.size[c.free[k]] >= need && need % ALIGN == 0
    ensures i < |c.blocks| && c.blocks[i] == c.free[k] && c.free[k] in c.next && c.free[k] in c.prevFree
    ensures c.free[k] in c.nextFree
    ensures HasFields(c)
    ensures if c.size[c.free[k]] - need >= HEADER + ALIGN then
              && c.size[c.free[k]] >= need + HEADER
              && var q := SplitBlock(c, i, k, need);
              && Ready(q) && HasFields(q) && Allocated(LayoutOf(c), LayoutOf(q), need, c.free[k] + HEADER)
            else
              var q := TakeWhole(c, k);
              Ready(q) && HasFields(q) && Allocated(LayoutOf(c), LayoutOf(q), need, c.free[k] + HEADER)
  {
    i := FreeNode(c, k, 0);
    NodeFacts(c, i, 0);
    var bs := LayoutOf(c);
    assert bs[i] == BlockAt(c, i);
    PlaceTiled(bs, c.buf, c.buf + c.len, i, need);
    assert Place(bs, i, need) == Place(bs, i, need);
    hide Tiled, Linked, Listed;
    if c.size[c.free[k]] - need >= HEADER + ALIGN {
      SplitReady(c, i, k, need);
      SplitLists(c, i, k, need);
    } else {
      TakeWholeLists(c, k, i);
    }
  }

  lemma SplitIs(c: Chain, q: Chain, i: nat, k: nat, need: nat)
    requires i < |c.blocks| && k < |c.free| && c.blocks[i] == c.free[k]
    requires var x := c.free[k]; var y := x + HEADER + need;
             && x in c.size && c.size[x] >= need + HEADER && x in c.next && x in c.prevFree && x in c.nextFree
             && q.size == c.size[y := c.size[x] - need - HEADER][x := need]
             && q.alloc == c.alloc[y := false][x := true]
             && q.prev == Relink(c.prev[y := x], c.next[x], y)
             && q.next == c.next[y := c.next[x]][x := y]
             && q.blocks == Inserted(c.blocks, i, y)
             && var p, n := c.prevFree[x], c.nextFree[x];
             && q.firstFree == (if p == 0 then y else c.firstFree) && q.free == c.free[k := y]
             && q.prevFree == Relink(c.prevFree[y := p], n, y)[x := 0]
             && q.nextFree == Relink(c.nextFree[y := n], p, y)[x := 0]
    requires q.buf == c.buf && q.len == c.len && q.first == c.first
    ensures q == SplitBlock(c, i, k, need)
  {}

  lemma OneBlock(c: Chain, p: Addr, n: nat)
    requires p != 0 && p % ALIGN == 0 && n >= HEADER
    requires c == Chain(p, n, p, p, map[p := n - HEADER], map[p := false],
                        map[p := 0], map[p := 0], map[p := 0], map[p := 0], [p], [p])
    ensures Ready(c) && HasFields(c) && LayoutOf(c) == [Block(p, n - HEADER, false)]
  {}

  /** Dividing the wrapped product by a factor tells whether it wrapped. */
  lemma Product(n: nat, sz: nat)
    requires n < WORD && sz < WORD
    ensures n != 0 ==> ((n * sz % WORD) / n == sz <==> n * sz < WORD)
    ensures n * sz < WORD ==> n * sz % WORD == n * sz
  {
    if n != 0 { Wrapped(n * sz, n, sz); }
  }

  lemma Wrapped(x: nat, n: nat, sz: nat)
    requires n != 0 && x == n * sz
    ensures (x % WORD) / n == sz <==> x < WORD
    ensures x < WORD ==> x % WORD == x
  {
    var w := x % WORD;
    assert x == sz * n + 0;
    if x < WORD {
      assert w == x;
      S2Geometry.DivUnique(x, n, sz, 0);
    } else {
      assert w < x;
      RealmGeometry.QuotientBelow(w, sz, n);
    }
  }
}
