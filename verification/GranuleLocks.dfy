/** Ordered locking of several granules: the in-place sort, the locking loop with its
    rollback, and why threads that lock this way cannot wait for each other in a circle. */
module GranuleLocks {
  import opened S2Geometry
  import opened Rtt

  /** A granule to lock: its address, the state it must have, and where to return it. */
  datatype Item = Item(addr: Addr, state: GranuleState, slot: nat)

  predicate Sorted(s: seq<Item>) { forall i, j | 0 <= i < j < |s| :: s[i].addr <= s[j].addr }

  // ------------------------------------------------------------ sort_granules

  /** `x` put into `s` at `k`. */
  function Put(s: seq<Item>, k: nat, x: Item): seq<Item>
    requires k <= |s|
  {
    s[..k] + [x] + s[k..]
  }

  lemma PutSorted(s: seq<Item>, k: nat, x: Item)
    requires k <= |s| && Sorted(s)
    requires forall i | 0 <= i < k :: s[i].addr <= x.addr
    requires forall i | k <= i < |s| :: x.addr < s[i].addr
    ensures Sorted(Put(s, k, x)) && multiset(Put(s, k, x)) == multiset(s) + multiset{x}
  {
    assert s == s[..k] + s[k..];
  }

  lemma PutMade(q: seq<Item>, s: seq<Item>, k: nat, x: Item)
    requires k <= |s| && |q| == |s| + 1 && q[k] == x
    requires forall i | 0 <= i < k :: q[i] == s[i]
    requires forall i | k <= i < |s| :: q[i + 1] == s[i]
    ensures q == Put(s, k, x)
  {}

  /** Insertion sort in place: ascending addresses, the same items. */
  method SortGranules(gs: array<Item>)
    modifies gs
    ensures Sorted(gs[..]) && multiset(gs[..]) == multiset(old(gs[..]))
  {
    if gs.Length == 0 { return; }
    var i := 1;
    while i < gs.Length
      invariant 1 <= i <= gs.Length
      invariant Sorted(gs[..i]) && gs[i..] == old(gs[..])[i..]
      invariant multiset(gs[..i]) == multiset(old(gs[..])[..i])
    {
      ghost var was := old(gs[..]);
      assert was[..i + 1] == was[..i] + [was[i]] && gs[i] == gs[i..][0] == was[i];
      InsertGranule(gs, i);
      assert gs[i + 1..] == was[i + 1..];
      i := i + 1;
    }
    assert gs[..i] == gs[..] && old(gs[..])[..i] == old(gs[..]);
  }

  /** Moves item `i` down to its place among the sorted items before it. */
  method InsertGranule(gs: array<Item>, i: nat)
    requires 0 < i < gs.Length && Sorted(gs[..i])
    modifies gs
    ensures Sorted(gs[..i + 1]) && multiset(gs[..i + 1]) == multiset(old(gs[..i])) + multiset{old(gs[i])}
    ensures gs[i + 1..] == old(gs[i + 1..])
  {
    ghost var s := gs[..i];
    var temp := gs[i];
    var j := i;
    while j > 0 && gs[j - 1].addr > temp.addr
      invariant 0 <= j <= i
      invariant forall k | 0 <= k < j :: gs[k] == s[k]
      invariant forall k | j <= k < i :: gs[k + 1] == s[k] && s[k].addr > temp.addr
      invariant j == i ==> gs[i] == temp
      invariant gs[i + 1..] == old(gs[i + 1..])
    {
      gs[j] := gs[j - 1];
      j := j - 1;
    }
    if i != j { gs[j] := temp; }
    PutMade(gs[..i + 1], s, j, temp);
    PutSorted(s, j, temp);
  }

  // ------------------------------------------------------------ find_lock_granules

  /** What one PE sees: granule states, and the granules it has locked, in locking order. */
  class Locker {
    var states: map<Addr, GranuleState>
    var held: seq<Addr>

    predicate Matches(x: Item)
      reads this
    {
      x.addr in states && states[x.addr] == x.state
    }

    /** Locks every requested granule in strictly ascending address order, or none: it fails
        if two addresses are equal or a granule is missing or in another state, and then
        writes no result. */
    method FindLockGranules(gs: array<Item>, ret: array<Addr>) returns (ok: bool)
      requires held == []
      requires forall i | 0 <= i < gs.Length :: gs[i].slot < ret.Length
      requires forall i, j | 0 <= i < j < gs.Length :: gs[i].slot != gs[j].slot
      modifies gs, ret, this`held
      ensures multiset(gs[..]) == multiset(old(gs[..])) && Sorted(gs[..])
      ensures ok <==> Locks(gs[..], states)
      ensures ok ==> held == Addresses(gs[..]) && Ascending(held)
      ensures ok ==> forall i | 0 <= i < gs.Length :: gs[i].slot < ret.Length && ret[gs[i].slot] == gs[i].addr
      ensures !ok ==> held == [] && ret[..] == old(ret[..])
    {
      ghost var was := gs[..];
      SortGranules(gs);
      SlotsKept(was, gs[..], ret.Length);
      ok := LockAll(gs);
      if ok { Return(gs, ret); }
    }

    /** Locks the sorted granules, or none. */
    method LockAll(gs: array<Item>) returns (ok: bool)
      requires Sorted(gs[..]) && held == []
      modifies this`held
      ensures ok <==> Locks(gs[..], states)
      ensures if ok then held == Addresses(gs[..]) && Ascending(held) else held == []
    {
      ghost var s := gs[..];
      var i := 0;
      while i < gs.Length
        invariant 0 <= i <= gs.Length
        invariant held == Addresses(s[..i]) && Ascending(held)
        invariant forall k | 0 <= k < i :: Matches(s[k])
      {
        assert gs[i] == s[i];
        if i != 0 && gs[i].addr == gs[i - 1].addr {
          assert s[i].addr == s[i - 1].addr;
          Unlock(gs, i);
          return false;
        }
        if !Matches(gs[i]) {
          Unlock(gs, i);
          return false;
        }
        AscendingAdd(s, i);
        held := held + [gs[i].addr];
        i := i + 1;
      }
      assert s[..i] == s;
      AscendingDistinct(s);
      ok := true;
    }

    /** The rollback, from the last granule down. */
    method Unlock(gs: array<Item>, n: nat)
      requires n <= gs.Length && held == Addresses(gs[..n])
      modifies this`held
      ensures held == []
    {
      var i := n;
      while i != 0
        invariant 0 <= i <= n && held == Addresses(gs[..i])
      {
        i := i - 1;
        assert gs[..i + 1] == gs[..i] + [gs[i]];
        AddressesAdd(gs[..i], gs[i]);
        held := held[..|held| - 1];
      }
    }

    method Return(gs: array<Item>, ret: array<Addr>)
      requires forall i | 0 <= i < gs.Length :: gs[i].slot < ret.Length
      requires forall i, j | 0 <= i < j < gs.Length :: gs[i].slot != gs[j].slot
      modifies ret
      ensures forall i | 0 <= i < gs.Length :: ret[gs[i].slot] == gs[i].addr
    {
      var i := 0;
      while i < gs.Length
        invariant 0 <= i <= gs.Length
        invariant forall k | 0 <= k < i :: ret[gs[k].slot] == gs[k].addr
      {
        ret[gs[i].slot] := gs[i].addr;
        i := i + 1;
      }
    }
  }

  function Addresses(s: seq<Item>): seq<Addr> { seq(|s|, i requires 0 <= i < |s| => s[i].addr) }

  predicate Ascending(s: seq<Addr>) { forall i, j | 0 <= i < j < |s| :: s[i] < s[j] }

  /** All items name different granules in their expected states. */
  predicate Locks(s: seq<Item>, states: map<Addr, GranuleState>) {
    && (forall i | 0 <= i < |s| :: s[i].addr in states && states[s[i].addr] == s[i].state)
    && (forall i, j | 0 <= i < j < |s| :: s[i].addr != s[j].addr)
  }

  lemma AddressesAdd(s: seq<Item>, x: Item)
    ensures Addresses(s + [x]) == Addresses(s) + [x.addr]
  {}

  lemma AscendingAdd(s: seq<Item>, i: nat)
    requires Sorted(s) && i < |s| && Ascending(Addresses(s[..i])) && (i > 0 ==> s[i].addr != s[i - 1].addr)
    ensures Addresses(s[..i + 1]) == Addresses(s[..i]) + [s[i].addr] && Ascending(Addresses(s[..i + 1]))
  {}

  lemma AscendingDistinct(s: seq<Item>)
    requires Ascending(Addresses(s))
    ensures forall i, j | 0 <= i < j < |s| :: s[i].addr != s[j].addr
  {
    forall i, j | 0 <= i < j < |s| ensures s[i].addr != s[j].addr {
      assert Addresses(s)[i] < Addresses(s)[j];
    }
  }

  /** Sorting keeps the slots distinct and in bounds. */
  lemma SlotsKept(was: seq<Item>, s: seq<Item>, n: nat)
    requires multiset(was) == multiset(s)
    requires forall i | 0 <= i < |was| :: was[i].slot < n
    requires forall i, j | 0 <= i < j < |was| :: was[i].slot != was[j].slot
    ensures forall i | 0 <= i < |s| :: s[i].slot < n
    ensures forall i, j | 0 <= i < j < |s| :: s[i].slot != s[j].slot
  {
    forall i | 0 <= i < |s| ensures s[i] in was { assert s[i] in multiset(s); }
    forall i, j | 0 <= i < j < |s| ensures s[i].slot != s[j].slot {
      if s[i].slot == s[j].slot {
        assert s[i] in was && s[j] in was;
        assert s[i] == s[j];
        TwiceIn(s, i, j);
        OnceIn(was, s[i]);
      }
    }
  }

  lemma TwiceIn(s: seq<Item>, i: nat, j: nat)
    requires i < j < |s| && s[i] == s[j]
    ensures multiset(s)[s[i]] >= 2
  {
    assert s == s[..i] + [s[i]] + s[i + 1..j] + [s[j]] + s[j + 1..];
  }

  lemma {:induction false} OnceIn(s: seq<Item>, x: Item)
    requires forall i, j | 0 <= i < j < |s| :: s[i].slot != s[j].slot
    ensures multiset(s)[x] <= 1
  {
    if s != [] {
      var n := |s| - 1;
      OnceIn(s[..n], x);
      assert s == s[..n] + [s[n]];
      if s[n] == x {
        assert forall i | 0 <= i < n :: s[..n][i] != x;
        assert x !in s[..n];
      }
    }
  }

  // ------------------------------------------------------------ no circular wait

  /** A thread that locks the granules of `want` one after the other; it has the first `got`. */
  datatype Thread = Thread(want: seq<Addr>, got: nat)

  predicate Proper(t: Thread) { t.got <= |t.want| && Ascending(t.want) }

  predicate Holds(t: Thread, a: Addr) { exists k :: 0 <= k < t.got <= |t.want| && t.want[k] == a }

  predicate Waits(t: Thread) { t.got < |t.want| }

  type Threads = seq<Thread>

  datatype Step =
    | Acquire(who: nat)
    | ReleaseAll(who: nat)
    | Request(who: nat, want: seq<Addr>)

  /** A lock can be acquired if nobody holds it; a thread that failed or is done releases all
      it has; a thread that holds nothing may ask for any granules, sorted. */
  ghost predicate Enabled(ts: Threads, s: Step) {
    && s.who < |ts|
    && match s
       case Acquire(i) => Waits(ts[i]) && forall j | 0 <= j < |ts| :: !Holds(ts[j], ts[i].want[ts[i].got])
       case ReleaseAll(i) => true
       case Request(i, want) => ts[i].got == 0 && Ascending(want)
  }

  ghost function Next(ts: Threads, s: Step): Threads
    requires Enabled(ts, s)
  {
    match s
    case Acquire(i) => ts[i := ts[i].(got := ts[i].got + 1)]
    case ReleaseAll(i) => ts[i := Thread([], 0)]
    case Request(i, want) => ts[i := Thread(want, 0)]
  }

  /** Locks are held by one thread at most. */
  ghost predicate Exclusive(ts: Threads) {
    && (forall i | 0 <= i < |ts| :: Proper(ts[i]))
    && (forall i, j, a | 0 <= i < j < |ts| && Holds(ts[i], a) :: !Holds(ts[j], a))
  }

  lemma StepExclusive(ts: Threads, s: Step)
    requires Exclusive(ts) && Enabled(ts, s)
    ensures Exclusive(Next(ts, s))
  {
    var q := Next(ts, s);
    forall i, j, a | 0 <= i < j < |q| && Holds(q[i], a) ensures !Holds(q[j], a) {
      if s.Acquire? && s.who == i { AcquiredHolds(ts[i], a); }
      if s.Acquire? && s.who == j { AcquiredHolds(ts[j], a); }
    }
  }

  lemma AcquiredHolds(t: Thread, a: Addr)
    requires Proper(t) && Waits(t)
    ensures Holds(t.(got := t.got + 1), a) <==> Holds(t, a) || a == t.want[t.got]
  {}

  /** Thread `i` waits for a granule that thread `j` holds. */
  ghost predicate WaitsFor(ts: Threads, i: nat, j: nat) {
    i < |ts| && j < |ts| && Waits(ts[i]) && Holds(ts[j], ts[i].want[ts[i].got])
  }

  /** Whoever holds what another waits for waits, if at all, for a higher address. */
  lemma WaitRises(ts: Threads, i: nat, j: nat)
    requires Exclusive(ts) && WaitsFor(ts, i, j) && Waits(ts[j])
    ensures ts[i].want[ts[i].got] < ts[j].want[ts[j].got]
  {}

  /** A chain of threads each of which waits for the next. */
  ghost predicate WaitChain(ts: Threads, c: seq<nat>) {
    forall k | 0 <= k < |c| - 1 :: WaitsFor(ts, c[k], c[k + 1])
  }

  lemma {:induction false} ChainRises(ts: Threads, c: seq<nat>)
    requires Exclusive(ts) && |c| > 1 && WaitChain(ts, c) && c[|c| - 1] < |ts| && Waits(ts[c[|c| - 1]])
    ensures c[0] < |ts| && Waits(ts[c[0]])
    ensures ts[c[0]].want[ts[c[0]].got] < ts[c[|c| - 1]].want[ts[c[|c| - 1]].got]
  {
    var n := |c| - 1;
    assert WaitsFor(ts, c[n - 1], c[n - 1 + 1]);
    WaitRises(ts, c[n - 1], c[n]);
    if n > 1 {
      assert WaitChain(ts, c[..n]) by {
        forall k | 0 <= k < n - 1 ensures WaitsFor(ts, c[..n][k], c[..n][k + 1]) {
          assert WaitsFor(ts, c[k], c[k + 1]);
        }
      }
      ChainRises(ts, c[..n]);
    }
  }

  /** No circular wait: no chain of waiting threads returns to where it began. */
  lemma NoCircle(ts: Threads, c: seq<nat>)
    requires Exclusive(ts) && |c| > 1 && WaitChain(ts, c)
    ensures c[0] != c[|c| - 1]
  {
    if c[0] == c[|c| - 1] {
      assert WaitsFor(ts, c[0], c[0 + 1]);
      ChainRises(ts, c);
    }
  }

  /** Hence there is always somebody to move: if a thread waits, some thread can acquire what
      it waits for, or some thread has all it wants. */
  lemma {:induction false} SomebodyMoves(ts: Threads, i: nat)
    requires Exclusive(ts) && i < |ts| && Waits(ts[i])
    ensures exists j: nat :: j < |ts| && (Enabled(ts, Acquire(j)) || (!Waits(ts[j]) && ts[j].got > 0))
    decreases Above(ts, ts[i].want[ts[i].got])
  {
    var a := ts[i].want[ts[i].got];
    if j: nat :| j < |ts| && Holds(ts[j], a) {
      if Waits(ts[j]) {
        assert WaitsFor(ts, i, j);
        WaitRises(ts, i, j);
        var b := ts[j].want[ts[j].got];
        AboveShrinks(ts, a, b, j);
        SomebodyMoves(ts, j);
      }
    } else {
      assert Enabled(ts, Acquire(i));
    }
  }

  /** The threads that wait for an address above `a`. */
  function Above(ts: Threads, a: Addr): set<nat> {
    set j: nat | j < |ts| && ts[j].got < |ts[j].want| && ts[j].want[ts[j].got] > a
  }

  lemma AboveShrinks(ts: Threads, a: Addr, b: Addr, j: nat)
    requires a < b && j < |ts| && Waits(ts[j]) && ts[j].want[ts[j].got] == b
    ensures Above(ts, b) < Above(ts, a)
  {
    assert j in Above(ts, a) && j !in Above(ts, b);
  }

  /** A run: each step is enabled and leads to the next state. */
  ghost predicate RunOf(ts: seq<Threads>, ss: seq<Step>) {
    |ts| == |ss| + 1 && forall k | 0 <= k < |ss| :: Enabled(ts[k], ss[k]) && ts[k + 1] == Next(ts[k], ss[k])
  }

  lemma {:induction false} RunExclusive(ts: seq<Threads>, ss: seq<Step>, n: nat)
    requires RunOf(ts, ss) && n < |ts| && (forall i | 0 <= i < |ts[0]| :: ts[0][i] == Thread([], 0))
    ensures Exclusive(ts[n])
  {
    if n > 0 {
      RunExclusive(ts, ss, n - 1);
      assert ts[n - 1 + 1] == Next(ts[n - 1], ss[n - 1]);
      StepExclusive(ts[n - 1], ss[n - 1]);
    }
  }

  /** In every run from threads that hold nothing, at every moment: no lock has two holders, no
      chain of waiting threads returns to where it began, and if some thread waits, one can
      acquire what it waits for or has all it wants. */
  lemma RunNoCircle(ts: seq<Threads>, ss: seq<Step>, n: nat, c: seq<nat>, i: nat)
    requires RunOf(ts, ss) && n < |ts| && (forall i | 0 <= i < |ts[0]| :: ts[0][i] == Thread([], 0))
    ensures |c| > 1 && WaitChain(ts[n], c) ==> c[0] != c[|c| - 1]
    ensures i < |ts[n]| && Waits(ts[n][i]) ==>
              exists j: nat :: j < |ts[n]| && (Enabled(ts[n], Acquire(j)) || (!Waits(ts[n][j]) && ts[n][j].got > 0))
    ensures forall i, j, a | 0 <= i < j < |ts[n]| && Holds(ts[n][i], a) :: !Holds(ts[n][j], a)
  {
    RunExclusive(ts, ss, n);
    if |c| > 1 && WaitChain(ts[n], c) { NoCircle(ts[n], c); }
    if i < |ts[n]| && Waits(ts[n][i]) { SomebodyMoves(ts[n], i); }
  }
}
