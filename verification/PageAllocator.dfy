/** The page allocator: a free list threaded through the free pages themselves. The port drops the fills
    of freed and of allocated pages; clients that write a word of a page before they read it cannot tell. */
module PageAllocator {
  const WORDS: nat := 512
  const PGSIZE: nat := 4096

  /** The 64-bit words that memset(pa, 1, PGSIZE) and memset(pa, 5, PGSIZE) leave. */
  const ONES: nat := 0x0101_0101_0101_0101
  const FIVES: nat := 0x0505_0505_0505_0505

  /** A page as its 512 words; word 0 of a free page is the `next` of struct run. */
  type Page = p: seq<nat> | |p| == WORDS witness seq(WORDS, _ => 0)

  type Memory = map<nat, Page>

  function Filled(word: nat): (p: Page)
    ensures forall i | 0 <= i < WORDS :: p[i] == word
  {
    seq(WORDS, _ => word)
  }

  /** kmem.freelist (0 is the null pointer) and the memory it runs through. */
  datatype Heap = Heap(freelist: nat, mem: Memory)

  /** Which of the two fills are compiled in. Upstream has both, the port neither, and KFREE_POISON
      brings back the one on free. */
  datatype Fills = Fills(onAlloc: bool, onFree: bool)

  const UPSTREAM := Fills(true, true)
  const PORT := Fills(false, false)
  const KFREE_POISON := Fills(false, true)

  // ----- The two operations ----------------------------------------------------------------------

  function Alloc(h: Heap, fills: Fills): (Heap, nat)
    requires h.freelist != 0 ==> h.freelist in h.mem
  {
    if h.freelist == 0 then (h, 0)
    else
      var r := h.freelist;
      var next := h.mem[r][0];
      (Heap(next, if fills.onAlloc then h.mem[r := Filled(FIVES)] else h.mem), r)
  }

  function Free(h: Heap, fills: Fills, pa: nat): Heap
    requires pa in h.mem
  {
    var page := if fills.onFree then Filled(ONES) else h.mem[pa];
    Heap(pa, h.mem[pa := page[0 := h.freelist]])
  }

  /** Upstream fills a page with fives when it is handed out and, but for the link, with ones when it is
      freed; the port leaves it as it is; KFREE_POISON brings back the ones. */
  lemma WhatIsFilled(h: Heap, pa: nat, i: nat)
    requires pa in h.mem && 0 < i < WORDS
    ensures h.freelist == pa && pa != 0 ==>
              && Alloc(h, UPSTREAM).0.mem[pa][i] == 0x0505_0505_0505_0505
              && Alloc(h, PORT).0.mem == h.mem
              && Alloc(h, KFREE_POISON).0.mem == h.mem
    ensures Free(h, UPSTREAM, pa).mem[pa][i] == Free(h, KFREE_POISON, pa).mem[pa][i] == 0x0101_0101_0101_0101
    ensures Free(h, PORT, pa).mem[pa][i] == h.mem[pa][i]
  {
  }

  /** The check of kfree: not page-aligned, below `end`, or beyond PHYSTOP. */
  predicate Refused(end: nat, phystop: nat, pa: nat) {
    pa % PGSIZE != 0 || pa < end || pa >= phystop
  }

  // ----- The free list ---------------------------------------------------------------------------

  /** Following `next` from head visits exactly these pages and ends at null. */
  predicate Chain(head: nat, mem: Memory, free: seq<nat>)
    decreases |free|
  {
    if free == [] then head == 0
    else head != 0 && head == free[0] && head in mem && Chain(mem[head][0], mem, free[1..])
  }

  predicate Distinct(s: seq<nat>) {
    forall i, j | 0 <= i < j < |s| :: s[i] != s[j]
  }

  /** The free pages are distinct and, with the pages handed out, partition the pool. */
  predicate Partition(pool: set<nat>, free: seq<nat>, owned: set<nat>) {
    && Distinct(free)
    && (forall p | p in free :: p in pool && p !in owned)
    && (forall p | p in owned :: p in pool)
    && (forall p | p in pool :: p in owned || p in free)
  }

  predicate Inv(pool: set<nat>, h: Heap, free: seq<nat>, owned: set<nat>) {
    && 0 !in pool
    && (forall p | p in pool :: p in h.mem)
    && Partition(pool, free, owned)
    && Chain(h.freelist, h.mem, free)
  }

  /** Memory changes outside the listed pages do not disturb the list. */
  lemma {:induction false} ChainFrame(head: nat, mem: Memory, after: Memory, free: seq<nat>)
    requires Chain(head, mem, free)
    requires forall p | p in free :: p in mem && p in after && after[p] == mem[p]
    ensures Chain(head, after, free)
    decreases |free|
  {
    if free != [] {
      assert head in free;
      forall p | p in free[1..] ensures p in mem && p in after && after[p] == mem[p] {
        assert p in free;
      }
      ChainFrame(mem[head][0], mem, after, free[1..]);
    }
  }

  lemma PartitionPop(pool: set<nat>, free: seq<nat>, owned: set<nat>)
    requires Partition(pool, free, owned) && free != []
    ensures Partition(pool, free[1..], owned + {free[0]}) && free[0] !in free[1..]
  {
    assert free == [free[0]] + free[1..];
  }

  lemma PartitionPush(pool: set<nat>, free: seq<nat>, owned: set<nat>, pa: nat)
    requires Partition(pool, free, owned) && pa in owned
    ensures Partition(pool, [pa] + free, owned - {pa})
  {
    assert pa !in free;
    var after := [pa] + free;
    forall i, j | 0 <= i < j < |after| ensures after[i] != after[j] {
      assert after[j] == free[j - 1];
      if i > 0 {
        assert after[i] == free[i - 1];
      }
    }
  }

  /** With free pages left kalloc hands out the head of the list, a page nobody holds; with none it
      returns null and changes nothing. */
  lemma AllocKeeps(pool: set<nat>, h: Heap, free: seq<nat>, owned: set<nat>, fills: Fills)
    requires Inv(pool, h, free, owned)
    ensures h.freelist != 0 ==> h.freelist in h.mem
    ensures free == [] ==> Alloc(h, fills) == (h, 0)
    ensures free != [] ==>
      && Alloc(h, fills).1 == free[0] && free[0] in pool && free[0] !in owned
      && Inv(pool, Alloc(h, fills).0, free[1..], owned + {free[0]})
  {
    if free != [] {
      PartitionPop(pool, free, owned);
      var (after, r) := Alloc(h, fills);
      forall p | p in free[1..] ensures p in h.mem && p in after.mem && after.mem[p] == h.mem[p] {
        assert p in free;
      }
      ChainFrame(h.mem[r][0], h.mem, after.mem, free[1..]);
    }
  }

  /** Freeing a page that was handed out puts it at the head of the list. */
  lemma FreeKeeps(pool: set<nat>, h: Heap, free: seq<nat>, owned: set<nat>, fills: Fills, pa: nat)
    requires Inv(pool, h, free, owned) && pa in owned
    ensures pa in h.mem && Inv(pool, Free(h, fills, pa), [pa] + free, owned - {pa})
  {
    var after := Free(h, fills, pa);
    PartitionPush(pool, free, owned, pa);
    assert ([pa] + free)[1..] == free;
    ChainFrame(h.freelist, h.mem, after.mem, free);
  }

  /** Two chains from the same page stay together as long as the links do. */
  lemma {:induction false} Follow(head: nat, mem: Memory, after: Memory, free: seq<nat>, s: seq<nat>, i: nat)
    requires Chain(head, mem, free) && Chain(head, after, s) && i < |free|
    requires forall j | 0 <= j < i :: free[j] in mem && free[j] in after && after[free[j]] == mem[free[j]]
    ensures i <= |s| && Chain(free[i], after, s[i..])
    decreases i
  {
    if i == 0 {
      assert s[0..] == s;
    } else {
      assert free[0] == head;
      Follow(mem[head][0], mem, after, free[1..], s[1..], i - 1);
      assert s[1..][i - 1..] == s[i..];
    }
  }

  lemma FirstOccurrence(s: seq<nat>, x: nat) returns (i: nat)
    requires x in s
    ensures i < |s| && s[i] == x && x !in s[..i]
  {
    i := 0;
    while s[i] != x
      invariant i < |s| && x !in s[..i] && x in s[i..]
      decreases |s| - i
    {
      i := i + 1;
    }
  }

  /** A page that is linked in front of a list it is already on closes a cycle: no list goes from it to
      null. */
  lemma {:induction false} SecondFreeCloses(h: Heap, free: seq<nat>, fills: Fills, pa: nat, s: seq<nat>)
    requires Chain(h.freelist, h.mem, free) && pa in free && pa in h.mem
    ensures !Chain(pa, Free(h, fills, pa).mem, s)
    decreases |s|
  {
    var after := Free(h, fills, pa).mem;
    if Chain(pa, after, s) {
      assert pa != 0 by { ChainIsNotNull(h.freelist, h.mem, free, pa); }
      assert s != [] && Chain(h.freelist, after, s[1..]);
      var i := FirstOccurrence(free, pa);
      forall j | 0 <= j < i ensures free[j] in h.mem && free[j] in after && after[free[j]] == h.mem[free[j]] {
        ChainInMemory(h.freelist, h.mem, free, j);
        assert free[j] in free[..i];
      }
      Follow(h.freelist, h.mem, after, free, s[1..], i);
      SecondFreeCloses(h, free, fills, pa, s[1..][i..]);
    }
  }

  lemma {:induction false} ChainInMemory(head: nat, mem: Memory, free: seq<nat>, j: nat)
    requires Chain(head, mem, free) && j < |free|
    ensures free[j] in mem && free[j] != 0
    decreases j
  {
    if j > 0 {
      ChainInMemory(mem[head][0], mem, free[1..], j - 1);
    }
  }

  lemma ChainIsNotNull(head: nat, mem: Memory, free: seq<nat>, pa: nat)
    requires Chain(head, mem, free) && pa in free
    ensures pa != 0
  {
    var i := FirstOccurrence(free, pa);
    ChainInMemory(head, mem, free, i);
  }

  ghost predicate WellFormed(pool: set<nat>, h: Heap) {
    exists free, owned :: Inv(pool, h, free, owned)
  }

  /** kfree accepts every page of the pool; it leaves a well-formed list exactly if the page was not on
      the list already. */
  lemma FreeIsSafeIffNotFree(pool: set<nat>, h: Heap, free: seq<nat>, owned: set<nat>, fills: Fills, pa: nat)
    requires Inv(pool, h, free, owned) && pa in pool
    ensures WellFormed(pool, Free(h, fills, pa)) <==> pa !in free
  {
    if pa !in free {
      FreeKeeps(pool, h, free, owned, fills, pa);
      assert Inv(pool, Free(h, fills, pa), [pa] + free, owned - {pa});
    } else if WellFormed(pool, Free(h, fills, pa)) {
      var s, o :| Inv(pool, Free(h, fills, pa), s, o);
      SecondFreeCloses(h, free, fills, pa, s);
      assert false;
    }
  }

  lemma WriteKeeps(pool: set<nat>, h: Heap, free: seq<nat>, owned: set<nat>, pa: nat, page: Page)
    requires Inv(pool, h, free, owned) && pa in owned
    ensures Inv(pool, h.(mem := h.mem[pa := page]), free, owned)
  {
    ChainFrame(h.freelist, h.mem, h.mem[pa := page], free);
  }

  /** kalloc undoes kfree, whatever is filled: it returns the page freed last and the list is back. */
  lemma AllocUndoesFree(h: Heap, fills: Fills, pa: nat)
    requires pa in h.mem && pa != 0
    ensures Alloc(Free(h, fills, pa), fills).1 == pa
    ensures Alloc(Free(h, fills, pa), fills).0.freelist == h.freelist
  {
  }

  function Elements(s: seq<nat>): set<nat> {
    set p | p in s
  }

  lemma ElementsSplit(s: seq<nat>)
    requires Distinct(s) && s != []
    ensures Elements(s) == {s[0]} + Elements(s[1..]) && s[0] !in Elements(s[1..]) && Distinct(s[1..])
  {
    assert s == [s[0]] + s[1..];
  }

  lemma {:induction false} DistinctCount(s: seq<nat>)
    requires Distinct(s)
    ensures |Elements(s)| == |s|
  {
    if s != [] {
      ElementsSplit(s);
      DistinctCount(s[1..]);
    }
  }

  /** No page is ever lost: as many are free as are not handed out. */
  lemma FreePagesCounted(pool: set<nat>, h: Heap, free: seq<nat>, owned: set<nat>)
    requires Inv(pool, h, free, owned)
    ensures |free| == |pool| - |owned|
  {
    DistinctCount(free);
    assert pool == owned + Elements(free);
    assert owned * Elements(free) == {};
  }

  // ----- Clients and what they can observe ---------------------------------------------------------

  /** What the rest of the kernel does with pages: word accesses to pages it holds, and the two calls. */
  datatype Op = Kalloc | Kfree(pa: nat) | Write(pa: nat, index: nat, value: nat) | Read(pa: nat, index: nat)

  datatype Observation = Pointer(r: nat) | Panicked | Done | Value(v: nat)

  /** The allocator together with what its clients hold and which words they have written since. */
  datatype Kernel = Kernel(heap: Heap, owned: set<nat>, written: set<(nat, nat)>)

  /** A client decides on its next operation from everything it has seen. */
  type Client = seq<Observation> -> Op

  datatype Limits = Limits(end: nat, phystop: nat)

  function Pool(limits: Limits): set<nat> {
    set p: nat | limits.end <= p < limits.phystop && p % PGSIZE == 0
  }

  /** Clients free and access pages they hold, and read only words they have written. An address that
      kfree refuses may be passed: it panics. */
  predicate Legal(limits: Limits, k: Kernel, op: Op) {
    match op
    case Kalloc => true
    case Kfree(pa) => Refused(limits.end, limits.phystop, pa) || pa in k.owned
    case Write(pa, i, _) => pa in k.owned && i < WORDS
    case Read(pa, i) => pa in k.owned && i < WORDS && (pa, i) in k.written
  }

  /** One operation; an access outside memory, which no legal client makes, leaves everything alone. */
  function Step(limits: Limits, fills: Fills, k: Kernel, op: Op): (Kernel, Observation) {
    match op
    case Kalloc =>
      if k.heap.freelist == 0 || k.heap.freelist !in k.heap.mem then (k, Pointer(0))
      else
        var (h, r) := Alloc(k.heap, fills);
        (Kernel(h, k.owned + {r}, k.written), Pointer(r))
    case Kfree(pa) =>
      if Refused(limits.end, limits.phystop, pa) || pa !in k.heap.mem then (k, Panicked)
      else (Kernel(Free(k.heap, fills, pa), k.owned - {pa}, set w | w in k.written && w.0 != pa), Done)
    case Write(pa, i, v) =>
      if pa !in k.heap.mem || i >= WORDS then (k, Done)
      else (Kernel(k.heap.(mem := k.heap.mem[pa := k.heap.mem[pa][i := v]]), k.owned, k.written + {(pa, i)}), Done)
    case Read(pa, i) =>
      if pa !in k.heap.mem || i >= WORDS then (k, Done) else (k, Value(k.heap.mem[pa][i]))
  }

  /** The first n operations of a client, up to a panic. */
  function Run(limits: Limits, fills: Fills, k: Kernel, client: Client, n: nat): (Kernel, seq<Observation>) {
    if n == 0 then (k, [])
    else
      var (now, seen) := Run(limits, fills, k, client, n - 1);
      if Panicked in seen then (now, seen)
      else
        var (after, o) := Step(limits, fills, now, client(seen));
        (after, seen + [o])
  }

  /** Every operation the client makes in this run is legal. */
  predicate Disciplined(limits: Limits, fills: Fills, k: Kernel, client: Client, n: nat) {
    n > 0 ==>
      && Disciplined(limits, fills, k, client, n - 1)
      && var (now, seen) := Run(limits, fills, k, client, n - 1);
         Panicked in seen || Legal(limits, now, client(seen))
  }

  /** Pages of the pool do not overlap: their 512 words of 8 bytes each lie apart, and all of them lie from
      `end` on. */
  lemma PagesLieApart(limits: Limits, p: nat, q: nat)
    requires p in Pool(limits) && q in Pool(limits) && p < q
    ensures limits.end <= p && p + 512 * 8 <= q < limits.phystop && WORDS * 8 == PGSIZE
  {
  }

  // ----- Two runs side by side -----------------------------------------------------------------------

  /** Same list, same holdings, and the same value in every word written since it was handed out. */
  predicate Agree(a: Kernel, b: Kernel) {
    && a.owned == b.owned && a.written == b.written
    && forall w | w in a.written ::
         && w.0 in a.owned && w.1 < WORDS
         && w.0 in a.heap.mem && w.0 in b.heap.mem && a.heap.mem[w.0][w.1] == b.heap.mem[w.0][w.1]
  }

  predicate Alike(limits: Limits, a: Kernel, b: Kernel, free: seq<nat>) {
    && Inv(Pool(limits), a.heap, free, a.owned) && Inv(Pool(limits), b.heap, free, b.owned) && Agree(a, b)
  }

  lemma AllocAlike(limits: Limits, p: Fills, q: Fills, a: Kernel, b: Kernel, free: seq<nat>)
    requires Alike(limits, a, b, free)
    ensures Step(limits, p, a, Kalloc).1 == Step(limits, q, b, Kalloc).1
    ensures Alike(limits, Step(limits, p, a, Kalloc).0, Step(limits, q, b, Kalloc).0,
                  if free == [] then free else free[1..])
  {
    AllocKeeps(Pool(limits), a.heap, free, a.owned, p);
    AllocKeeps(Pool(limits), b.heap, free, b.owned, q);
  }

  lemma FreeAlike(limits: Limits, p: Fills, q: Fills, a: Kernel, b: Kernel, free: seq<nat>, pa: nat)
    requires Alike(limits, a, b, free) && pa in a.owned
    ensures Step(limits, p, a, Kfree(pa)).1 == Step(limits, q, b, Kfree(pa)).1 == Done
    ensures Alike(limits, Step(limits, p, a, Kfree(pa)).0, Step(limits, q, b, Kfree(pa)).0, [pa] + free)
  {
    assert pa in Pool(limits);
    FreeKeeps(Pool(limits), a.heap, free, a.owned, p, pa);
    FreeKeeps(Pool(limits), b.heap, free, b.owned, q, pa);
  }

  lemma WriteAlike(limits: Limits, p: Fills, q: Fills, a: Kernel, b: Kernel, free: seq<nat>, pa: nat, i: nat, v: nat)
    requires Alike(limits, a, b, free) && pa in a.owned && i < WORDS
    ensures Step(limits, p, a, Write(pa, i, v)).1 == Step(limits, q, b, Write(pa, i, v)).1
    ensures Alike(limits, Step(limits, p, a, Write(pa, i, v)).0, Step(limits, q, b, Write(pa, i, v)).0, free)
  {
    WriteKeeps(Pool(limits), a.heap, free, a.owned, pa, a.heap.mem[pa][i := v]);
    WriteKeeps(Pool(limits), b.heap, free, b.owned, pa, b.heap.mem[pa][i := v]);
  }

  /** One legal operation looks the same under any two choices of fills and keeps the two runs alike. */
  lemma StepAlike(limits: Limits, p: Fills, q: Fills, a: Kernel, b: Kernel, free: seq<nat>, op: Op)
    returns (after: seq<nat>)
    requires Alike(limits, a, b, free) && Legal(limits, a, op)
    ensures Step(limits, p, a, op).1 == Step(limits, q, b, op).1
    ensures Alike(limits, Step(limits, p, a, op).0, Step(limits, q, b, op).0, after)
  {
    after := free;
    match op
    case Kalloc =>
      AllocAlike(limits, p, q, a, b, free);
      after := if free == [] then free else free[1..];
    case Kfree(pa) =>
      if pa in a.owned {
        FreeAlike(limits, p, q, a, b, free, pa);
        after := [pa] + free;
      }
    case Write(pa, i, v) =>
      WriteAlike(limits, p, q, a, b, free, pa, i, v);
    case Read(pa, i) =>
      assert a.heap.mem[(pa, i).0][(pa, i).1] == b.heap.mem[(pa, i).0][(pa, i).1];
  }

  lemma {:induction false} RunsAlike(limits: Limits, p: Fills, q: Fills, k: Kernel, client: Client, n: nat,
                                     free: seq<nat>)
    returns (after: seq<nat>)
    requires Alike(limits, k, k, free) && Disciplined(limits, p, k, client, n)
    ensures Run(limits, p, k, client, n).1 == Run(limits, q, k, client, n).1
    ensures Alike(limits, Run(limits, p, k, client, n).0, Run(limits, q, k, client, n).0, after)
  {
    after := free;
    if n > 0 {
      after := RunsAlike(limits, p, q, k, client, n - 1, free);
      var (a, seen) := Run(limits, p, k, client, n - 1);
      var b := Run(limits, q, k, client, n - 1).0;
      if Panicked !in seen {
        after := StepAlike(limits, p, q, a, b, after, client(seen));
      }
    }
  }

  /** The allocator as it leaves kinit: nothing handed out, nothing written by a client. */
  predicate Booted(limits: Limits, h: Heap, free: seq<nat>) {
    Inv(Pool(limits), h, free, {})
  }

  /** Dropping the fills cannot be observed. Whatever a client does that is legal with the port's
      allocator, it sees the same pointers, panics and values with any combination of fills. */
  lemma FillsAreUnobservable(limits: Limits, fills: Fills, h: Heap, free: seq<nat>, client: Client, n: nat)
    requires Booted(limits, h, free) && Disciplined(limits, PORT, Kernel(h, {}, {}), client, n)
    ensures Run(limits, fills, Kernel(h, {}, {}), client, n).1 == Run(limits, PORT, Kernel(h, {}, {}), client, n).1
  {
    var _ := RunsAlike(limits, PORT, fills, Kernel(h, {}, {}), client, n, free);
  }

  /** At every point of every such run the free list is a duplicate-free chain through the pages that are
      not handed out, and none has been lost. */
  lemma RunsKeepThePartition(limits: Limits, fills: Fills, h: Heap, free: seq<nat>, client: Client, n: nat)
    returns (now: seq<nat>)
    requires Booted(limits, h, free) && Disciplined(limits, fills, Kernel(h, {}, {}), client, n)
    ensures var k := Run(limits, fills, Kernel(h, {}, {}), client, n).0;
            Inv(Pool(limits), k.heap, now, k.owned) && |now| + |k.owned| == |Pool(limits)|
  {
    now := RunsAlike(limits, fills, fills, Kernel(h, {}, {}), client, n, free);
    var k := Run(limits, fills, Kernel(h, {}, {}), client, n).0;
    FreePagesCounted(Pool(limits), k.heap, now, k.owned);
  }

  /** The discipline is what makes this work: a client that reads a word of its first page unwritten
      sees upstream's fill, and without the fill whatever the page held; it can tell the two apart unless
      the page happens to hold the fill. */
  lemma UnwrittenReadTells(limits: Limits, h: Heap, free: seq<nat>, client: Client, i: nat)
    requires Booted(limits, h, free) && free != [] && i < WORDS
    requires client([]) == Kalloc && client([Pointer(free[0])]) == Read(free[0], i)
    ensures Run(limits, UPSTREAM, Kernel(h, {}, {}), client, 2).1 == [Pointer(free[0]), Value(FIVES)]
    ensures Run(limits, PORT, Kernel(h, {}, {}), client, 2).1 == [Pointer(free[0]), Value(h.mem[free[0]][i])]
    ensures Run(limits, UPSTREAM, Kernel(h, {}, {}), client, 2).1 != Run(limits, PORT, Kernel(h, {}, {}), client, 2).1
       <==> h.mem[free[0]][i] != FIVES
  {
    FirstAlloc(limits, UPSTREAM, h, free, client);
    FirstAlloc(limits, PORT, h, free, client);
  }

  /** Passing kfree an address it refuses is legal, and ends in a panic. */
  lemma RefusalIsSeen(limits: Limits, fills: Fills, h: Heap, client: Client, pa: nat)
    requires client([]) == Kfree(pa) && (pa % 4096 != 0 || pa < limits.end || pa >= limits.phystop)
    ensures Disciplined(limits, fills, Kernel(h, {}, {}), client, 1)
    ensures Run(limits, fills, Kernel(h, {}, {}), client, 1) == (Kernel(h, {}, {}), [Panicked])
  {
    assert Run(limits, fills, Kernel(h, {}, {}), client, 0) == (Kernel(h, {}, {}), []);
    assert Disciplined(limits, fills, Kernel(h, {}, {}), client, 0);
    assert [] + [Panicked] == [Panicked];
  }

  lemma AfterWrite(limits: Limits, fills: Fills, h: Heap, free: seq<nat>, client: Client, i: nat, v: nat)
    returns (k: Kernel)
    requires Booted(limits, h, free) && free != [] && i < WORDS
    requires client([]) == Kalloc && client([Pointer(free[0])]) == Write(free[0], i, v)
    ensures Disciplined(limits, fills, Kernel(h, {}, {}), client, 2)
    ensures Run(limits, fills, Kernel(h, {}, {}), client, 2) == (k, [Pointer(free[0]), Done])
    ensures free[0] in k.owned && (free[0], i) in k.written && free[0] in k.heap.mem && k.heap.mem[free[0]][i] == v
  {
    var p, start := free[0], Kernel(h, {}, {});
    FirstAlloc(limits, fills, h, free, client);
    AllocKeeps(Pool(limits), h, free, {}, fills);
    assert Disciplined(limits, fills, start, client, 0);
    assert Disciplined(limits, fills, start, client, 1);
    var k1 := Run(limits, fills, start, client, 1).0;
    k := Step(limits, fills, k1, Write(p, i, v)).0;
    assert [Pointer(p)] + [Done] == [Pointer(p), Done];
  }

  /** An honest client: it takes a page, writes a word, reads it and gives the page back. All of this is
      legal, and it sees the page, its own value and no panic, under any fills. */
  lemma HonestClient(limits: Limits, fills: Fills, h: Heap, free: seq<nat>, client: Client, i: nat, v: nat)
    requires Booted(limits, h, free) && free != [] && i < WORDS
    requires var p := free[0];
             && client([]) == Kalloc && client([Pointer(p)]) == Write(p, i, v)
             && client([Pointer(p), Done]) == Read(p, i) && client([Pointer(p), Done, Value(v)]) == Kfree(p)
    ensures Disciplined(limits, fills, Kernel(h, {}, {}), client, 4)
    ensures Run(limits, fills, Kernel(h, {}, {}), client, 4).1 == [Pointer(free[0]), Done, Value(v), Done]
  {
    var p, start := free[0], Kernel(h, {}, {});
    assert p in Pool(limits);
    var k := AfterWrite(limits, fills, h, free, client, i, v);
    assert [Pointer(p), Done] + [Value(v)] == [Pointer(p), Done, Value(v)];
    assert Run(limits, fills, start, client, 3) == (k, [Pointer(p), Done, Value(v)]);
    assert Disciplined(limits, fills, start, client, 3);
    assert Run(limits, fills, start, client, 4).1 == [Pointer(p), Done, Value(v)] + [Done];
  }

  lemma FirstAlloc(limits: Limits, fills: Fills, h: Heap, free: seq<nat>, client: Client)
    requires Booted(limits, h, free) && free != [] && client([]) == Kalloc
    ensures Run(limits, fills, Kernel(h, {}, {}), client, 1)
         == (Kernel(Alloc(h, fills).0, {free[0]}, {}), [Pointer(free[0])])
  {
    var k := Kernel(h, {}, {});
    AllocKeeps(Pool(limits), h, free, {}, fills);
    assert Run(limits, fills, k, client, 0) == (k, []);
    var (after, o) := Step(limits, fills, k, Kalloc);
    assert o == Pointer(free[0]);
    assert Run(limits, fills, k, client, 1) == (after, [] + [o]);
    assert k.owned + {free[0]} == {free[0]};
    assert [] + [o] == [o];
  }

  // ----- The allocator itself ------------------------------------------------------------------------

  class Kmem {
    const limits: Limits
    const fills: Fills
    var freelist: nat
    var mem: Memory
    var freeing: bool

    ghost var free: seq<nat>
    ghost var owned: set<nat>

    function State(): Heap
      reads `freelist, `mem
    {
      Heap(freelist, mem)
    }

    ghost predicate Valid()
      reads this
    {
      Inv(Pool(limits), State(), free, owned)
    }

    /** Before kinit: an empty list over the memory of the machine; every page counts as held. */
    constructor (limits: Limits, fills: Fills, mem: Memory)
      requires limits.end > 0 && forall p | p in Pool(limits) :: p in mem
      ensures Valid() && free == [] && owned == Pool(limits) && !freeing
      ensures this.limits == limits && this.fills == fills && this.mem == mem
    {
      this.limits, this.fills, this.mem := limits, fills, mem;
      freelist, freeing, free, owned := 0, false, [], Pool(limits);
    }

    /** The fill of kfree is skipped while kinit runs. */
    function FillsNow(): Fills
      reads `freeing
    {
      Fills(fills.onAlloc, fills.onFree && !freeing)
    }

    /** kfree panics on an address it refuses and links any other page in front. The list stays in order
        if the page was handed out. */
    method Kfree(pa: nat) returns (panicked: bool)
      requires Valid()
      modifies `freelist, `mem, `free, `owned
      ensures panicked == Refused(limits.end, limits.phystop, pa)
      ensures panicked ==> State() == old(State()) && free == old(free) && owned == old(owned)
      ensures !panicked ==> old(pa in mem) && State() == Free(old(State()), FillsNow(), pa)
      ensures !panicked && pa in old(owned) ==> free == [pa] + old(free) && owned == old(owned) - {pa}
      ensures WellFormed(Pool(limits), State()) <==> panicked || pa in old(owned)
      ensures panicked || pa in old(owned) ==> Valid()
    {
      if pa % PGSIZE != 0 || pa < limits.end || pa >= limits.phystop {
        assert WellFormed(Pool(limits), State());
        return true;
      }
      assert pa in Pool(limits);
      FreeIsSafeIffNotFree(Pool(limits), State(), free, owned, FillsNow(), pa);
      if pa in owned {
        FreeKeeps(Pool(limits), State(), free, owned, FillsNow(), pa);
      }
      ghost var after := Free(State(), FillsNow(), pa);
      if fills.onFree && !freeing {
        mem := mem[pa := Filled(ONES)];
      }
      mem := mem[pa := mem[pa][0 := freelist]];
      assert mem == after.mem;
      freelist := pa;
      assert State() == after;
      free, owned := [pa] + free, owned - {pa};
      panicked := false;
    }

    method Kalloc() returns (r: nat)
      requires Valid()
      modifies `freelist, `mem, `free, `owned
      ensures Valid() && (State(), r) == Alloc(old(State()), fills)
      ensures r == 0 <==> old(owned) == Pool(limits)
      ensures r != 0 ==> r in Pool(limits) && r !in old(owned) && owned == old(owned) + {r} && old(free) == [r] + free
      ensures r == 0 ==> owned == old(owned) && free == old(free)
    {
      AllocKeeps(Pool(limits), State(), free, owned, fills);
      if free == [] {
        assert owned == Pool(limits);
      }
      r := freelist;
      if r != 0 {
        freelist := mem[r][0];
        free, owned := free[1..], owned + {r};
        if fills.onAlloc {
          mem := mem[r := Filled(FIVES)];
        }
      }
    }

    /** What freerange has still to free. */
    ghost function From(p: nat): set<nat> {
      set page | page in Pool(limits) && page >= p
    }

    /** freerange: every whole page from the first boundary at or above start. */
    method FreeRange(start: nat, stop: nat)
      requires Valid() && freeing && free == [] && owned == Pool(limits)
      requires start == limits.end && stop == limits.phystop && stop % PGSIZE == 0
      modifies `freelist, `mem, `free, `owned
      ensures Valid() && owned == {}
      ensures OnlyLinks(old(mem), mem)
    {
      var p := (start + PGSIZE - 1) / PGSIZE * PGSIZE;
      assert owned == From(p);
      while p + PGSIZE <= stop
        invariant p % PGSIZE == 0 && p >= start && Valid() && owned == From(p)
        invariant OnlyLinks(old(mem), mem)
      {
        FreeNext(p, old(mem));
        p := p + PGSIZE;
      }
      assert From(p) == {};
    }

    method FreeNext(p: nat, ghost start: Memory)
      requires p % PGSIZE == 0 && limits.end <= p < limits.phystop && freeing
      requires Valid() && owned == From(p) && OnlyLinks(start, mem)
      modifies `freelist, `mem, `free, `owned
      ensures Valid() && owned == From(p + PGSIZE) && OnlyLinks(start, mem)
    {
      assert p in owned;
      ghost var before, link := mem, freelist;
      var panicked := Kfree(p);
      OneLink(start, before, mem, p, link);
    }

    /** kinit: afterwards the free list holds every page of the pool and nothing but its links has been
        written, even in a kernel built with KFREE_POISON. */
    method Kinit()
      requires Valid() && free == [] && owned == Pool(limits) && limits.phystop % PGSIZE == 0
      modifies this
      ensures Valid() && !freeing && owned == {}
      ensures Booted(limits, State(), free)
      ensures OnlyLinks(old(mem), mem)
      ensures forall page, i | page in old(mem) && 0 < i < WORDS :: page in mem && mem[page][i] == old(mem)[page][i]
    {
      freeing := true;
      FreeRange(limits.end, limits.phystop);
      freeing := false;
      OnlyLinksMeans(old(mem), mem);
    }
  }

  lemma OnlyLinksMeans(before: Memory, after: Memory)
    requires OnlyLinks(before, after)
    ensures forall page, i | page in before && 0 < i < WORDS :: page in after && after[page][i] == before[page][i]
  {
    forall page, i | page in before && 0 < i < WORDS ensures page in after && after[page][i] == before[page][i] {
      assert after[page][1..][i - 1] == before[page][1..][i - 1];
    }
  }

  /** The two memories differ in word 0 of pages only. */
  ghost predicate OnlyLinks(before: Memory, after: Memory) {
    forall page | page in before :: page in after && after[page][1..] == before[page][1..]
  }

  lemma OneLink(start: Memory, before: Memory, after: Memory, pa: nat, link: nat)
    requires OnlyLinks(start, before) && pa in before
    requires after == before[pa := before[pa][0 := link]]
    ensures OnlyLinks(start, after)
  {
  }
}
