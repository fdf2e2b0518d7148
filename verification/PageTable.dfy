/** Page-table entries with A and D set from the start. Rocket's walker updates neither bit; an entry
    built by `mappages` is accepted by it exactly when a walker that does update them would accept
    the entry without them. Words are numbers below 2^64: a shift by a constant is a division or a
    multiplication, and `|` is Or, bit by bit. */
module PageTable {
  import opened Basics

  /** A page-table entry. */
  datatype Pte = Pte(bits: nat)

  const U64: nat := 0x1_0000_0000_0000_0000

  const PGSIZE: nat := 4096

  const V: nat := 0x01
  const R: nat := 0x02
  const W: nat := 0x04
  const X: nat := 0x08
  const U: nat := 0x10
  const A: nat := 0x40
  const D: nat := 0x80

  /** The permission argument of mappages: any subset of R, W, X and U. */
  datatype Perm = Perm(r: bool, w: bool, x: bool, u: bool)

  function PermBits(p: Perm): nat {
    One(p.r) * R + One(p.w) * W + One(p.x) * X + One(p.u) * U
  }

  /** x | y */
  function Or(x: nat, y: nat): nat {
    if x == 0 then y else if y == 0 then x
    else (if x % 2 == 1 || y % 2 == 1 then 1 else 0) + 2 * Or(x / 2, y / 2)
  }

  /** (pa >> 12) << 10 */
  function PA2PTE(pa: nat): nat {
    pa / 4096 * 1024 % U64
  }

  /** (pte >> 10) << 12 */
  function PTE2PA(p: Pte): (pa: nat)
    ensures pa < U64
  {
    p.bits / 1024 * 4096 % U64
  }

  /** What mappages stores, */
  function Preset(pa: nat, perm: Perm): Pte {
    Pte(Or(Or(Or(PA2PTE(pa), PermBits(perm)), V), Or(A, D)))
  }

  /** and what it stored before the port. */
  function Plain(pa: nat, perm: Perm): Pte {
    Pte(Or(Or(PA2PTE(pa), PermBits(perm)), V))
  }

  /** The entry has this flag, a power of two. */
  predicate Has(p: Pte, flag: nat)
    requires flag > 0
  {
    p.bits / flag % 2 == 1
  }

  // ----- Or ------------------------------------------------------------------------------------------

  lemma {:induction false} OrCommutes(x: nat, y: nat)
    ensures Or(x, y) == Or(y, x)
  {
    if x > 0 && y > 0 {
      OrCommutes(x / 2, y / 2);
    }
  }

  lemma Halve(hi: nat, lo: nat, p: nat)
    ensures (hi * (2 * p) + lo) / 2 == hi * p + lo / 2 && (hi * (2 * p) + lo) % 2 == lo % 2
  {
    assert hi * (2 * p) == 2 * (hi * p);
  }

  lemma OneBit(x: nat, y: nat)
    ensures Or(x, y) == (if x % 2 == 1 || y % 2 == 1 then 1 else 0) + 2 * Or(x / 2, y / 2)
  {
  }

  /** Or with a word below 2^k leaves the bits from k on alone. */
  lemma {:induction false} OrBelow(hi: nat, lo: nat, y: nat, k: nat)
    requires lo < PowerOfTwo(k) && y < PowerOfTwo(k)
    ensures Or(hi * PowerOfTwo(k) + lo, y) == hi * PowerOfTwo(k) + Or(lo, y)
  {
    if k > 0 {
      var p := PowerOfTwo(k - 1);
      Halve(hi, lo, p);
      OneBit(hi * (2 * p) + lo, y);
      OneBit(lo, y);
      OrBelow(hi, lo / 2, y / 2, k - 1);
      assert hi * (2 * p) == 2 * (hi * p);
    }
  }

  lemma Powers()
    ensures PowerOfTwo(1) == 2 && PowerOfTwo(6) == 64 && PowerOfTwo(10) == 1024
  {
    assert PowerOfTwo(3) == 8;
    assert PowerOfTwo(8) == 256;
  }

  /** A word with its low ten bits clear takes the flags by addition. */
  lemma OrFlags(ppn: nat, flags: nat)
    requires flags < 1024
    ensures Or(ppn * 1024, flags) == ppn * 1024 + flags
  {
    Powers();
    OrBelow(ppn, 0, flags, 10);
  }

  lemma OrValid(ppn: nat, flags: nat)
    requires flags % 2 == 0
    ensures Or(ppn * 1024 + flags, V) == ppn * 1024 + flags + 1
  {
    Powers();
    OrBelow(ppn * 512 + flags / 2, 0, 1, 1);
  }

  lemma AccessedAndDirty()
    ensures Or(A, D) == 0xC0
  {
    Powers();
    OrCommutes(A, D);
    OrBelow(2, 0, 0, 6);
    OneBit(128, 64);
    OneBit(64, 32);
    OneBit(32, 16);
    OneBit(16, 8);
    OneBit(8, 4);
    OneBit(4, 2);
    OneBit(2, 1);
  }

  lemma OrLow(flags: nat)
    requires flags < 64
    ensures Or(flags, 0xC0) == flags + 0xC0
  {
    Powers();
    OrBelow(3, 0, flags, 6);
    OrCommutes(flags, 0xC0);
  }

  lemma OrAccessedAndDirty(ppn: nat, flags: nat)
    requires flags < 64
    ensures Or(ppn * 1024 + flags, 0xC0) == ppn * 1024 + flags + 0xC0
  {
    Powers();
    OrBelow(ppn, flags, 0xC0, 10);
    OrLow(flags);
  }

  // ----- The entries ---------------------------------------------------------------------------------

  lemma FrameField(pa: nat)
    requires pa < U64
    ensures PA2PTE(pa) == pa / 4096 * 1024
  {
  }

  /** The permission bits as riscv.h numbers them. */
  lemma PermNumbers(perm: Perm)
    ensures PermBits(perm) / 2 % 2 == 1 <==> perm.r
    ensures PermBits(perm) / 4 % 2 == 1 <==> perm.w
    ensures PermBits(perm) / 8 % 2 == 1 <==> perm.x
    ensures PermBits(perm) / 16 % 2 == 1 <==> perm.u
  {
  }

  lemma PermRange(perm: Perm)
    ensures PermBits(perm) < 32 && PermBits(perm) % 2 == 0
  {
  }

  lemma PlainBits(pa: nat, perm: Perm)
    requires pa < U64
    ensures Plain(pa, perm).bits == pa / 4096 * 1024 + PermBits(perm) + 1
  {
    FrameField(pa);
    PermRange(perm);
    OrFlags(pa / 4096, PermBits(perm));
    OrValid(pa / 4096, PermBits(perm));
  }

  /** The entry as a number: the frame number from bit 10 on, the permissions, and V, A and D, which are
      0xC1. */
  lemma PresetBits(pa: nat, perm: Perm)
    requires pa < U64
    ensures Preset(pa, perm).bits == pa / 4096 * 1024 + PermBits(perm) + 0xC1
  {
    PlainBits(pa, perm);
    PermRange(perm);
    AccessedAndDirty();
    OrAccessedAndDirty(pa / 4096, PermBits(perm) + 1);
  }

  datatype Access = Load | Store | Fetch

  /** leaf() of Rocket's PTW.scala. */
  predicate RocketLeaf(p: Pte) {
    Has(p, V) && (Has(p, R) || (Has(p, X) && !Has(p, W))) && Has(p, A)
  }

  /** Rocket grants an access: a leaf with the permission, and D for a store (sw()). */
  predicate RocketGrants(p: Pte, access: Access) {
    RocketLeaf(p) &&
    match access
    case Load => Has(p, R)
    case Store => Has(p, W) && Has(p, D)
    case Fetch => Has(p, X)
  }

  /** Steps 3 to 7 of section 4.3.2 of the Privileged Architecture v1.12 for a walker that updates A
      and D itself: V must be set, W without R is reserved, R or X makes a leaf, and the permission
      must be there; then A and D are no obstacle. */
  predicate UpdatingWalkerGrants(p: Pte, access: Access) {
    && Has(p, V) && !(Has(p, W) && !Has(p, R)) && (Has(p, R) || Has(p, X))
    && match access
       case Load => Has(p, R)
       case Store => Has(p, W)
       case Fetch => Has(p, X)
  }

  lemma EvenPlus(a: nat, y: nat)
    ensures (2 * a + y) % 2 == y % 2
  {
  }

  /** Which flags a word has depends on its low ten bits. */
  lemma LowFlag(ppn: nat, low: nat, f: nat, g: nat)
    requires f > 0 && 2 * f * g == 1024
    ensures (ppn * 1024 + low) / f % 2 == low / f % 2
  {
    assert ppn * 1024 == f * (2 * (ppn * g)) by { Rearrange(ppn, f, g); }
    Divided(2 * (ppn * g), f, low);
    EvenPlus(ppn * g, low / f);
  }

  lemma Rearrange(ppn: nat, f: nat, g: nat)
    ensures ppn * (2 * f * g) == f * (2 * (ppn * g))
  {
    assert ppn * (2 * f * g) == 2 * (ppn * (f * g));
    assert ppn * (f * g) == f * (ppn * g);
  }

  lemma LowFlags(ppn: nat, low: nat)
    ensures var p := Pte(ppn * 1024 + low);
            && (Has(p, V) <==> low % 2 == 1) && (Has(p, R) <==> low / 2 % 2 == 1) && (Has(p, W) <==> low / 4 % 2 == 1)
            && (Has(p, X) <==> low / 8 % 2 == 1) && (Has(p, A) <==> low / 64 % 2 == 1)
            && (Has(p, D) <==> low / 128 % 2 == 1)
  {
    LowFlag(ppn, low, V, 512);
    LowFlag(ppn, low, R, 256);
    LowFlag(ppn, low, W, 128);
    LowFlag(ppn, low, X, 64);
    LowFlag(ppn, low, A, 8);
    LowFlag(ppn, low, D, 4);
  }

  /** For any entry, Rocket grants what an A/D-updating walker grants if A is set and, for a store, D. */
  lemma RocketNeedsAccessedAndDirty(p: Pte, access: Access)
    ensures RocketGrants(p, access) <==>
              UpdatingWalkerGrants(p, access) && p.bits / 0x40 % 2 == 1 && (access.Store? ==> p.bits / 0x80 % 2 == 1)
  {
  }

  lemma PermFlags(perm: Perm, extra: nat)
    requires extra == 1 || extra == 0xC1
    ensures var low := PermBits(perm) + extra;
            && low < 1024 && low % 2 == 1
            && (low / 2 % 2 == 1 <==> perm.r) && (low / 4 % 2 == 1 <==> perm.w) && (low / 8 % 2 == 1 <==> perm.x)
            && (low / 64 % 2 == 1 <==> extra == 0xC1) && (low / 128 % 2 == 1 <==> extra == 0xC1)
  {
  }

  lemma PresetFlags(pa: nat, perm: Perm)
    requires pa < U64
    ensures Has(Preset(pa, perm), V) && Has(Preset(pa, perm), A) && Has(Preset(pa, perm), D)
    ensures Has(Preset(pa, perm), R) <==> perm.r
    ensures Has(Preset(pa, perm), W) <==> perm.w
    ensures Has(Preset(pa, perm), X) <==> perm.x
  {
    PresetBits(pa, perm);
    PermFlags(perm, 0xC1);
    LowFlags(pa / 4096, PermBits(perm) + 0xC1);
  }

  lemma PlainFlags(pa: nat, perm: Perm)
    requires pa < U64
    ensures Has(Plain(pa, perm), V) && !Has(Plain(pa, perm), A) && !Has(Plain(pa, perm), D)
    ensures Has(Plain(pa, perm), R) <==> perm.r
    ensures Has(Plain(pa, perm), W) <==> perm.w
    ensures Has(Plain(pa, perm), X) <==> perm.x
  {
    PlainBits(pa, perm);
    PermFlags(perm, 1);
    LowFlags(pa / 4096, PermBits(perm) + 1);
  }

  /** For every address, permission set and access, Rocket grants through the preset entry exactly what
      an A/D-updating walker grants through the entry without A and D, which are loads with R, stores
      with R and W and fetches with X and not W alone; through the latter entry Rocket grants nothing at
      all. D on a page without W gives no store. */
  lemma PresetEqualsHardwareUpdate(pa: nat, perm: Perm, access: Access)
    requires pa < U64
    ensures RocketGrants(Preset(pa, perm), access) <==> UpdatingWalkerGrants(Plain(pa, perm), access)
    ensures RocketGrants(Preset(pa, perm), access) <==>
              match access
              case Load => perm.r
              case Store => perm.r && perm.w
              case Fetch => perm.x && (perm.r || !perm.w)
    ensures !RocketGrants(Plain(pa, perm), access)
  {
    PresetFlags(pa, perm);
    PlainFlags(pa, perm);
  }

  /** Decoding an entry recovers the frame it was made for. */
  lemma PresetDecodes(pa: nat, perm: Perm)
    requires pa % 4096 == 0 && pa < 0x0100_0000_0000_0000
    ensures PTE2PA(Preset(pa, perm)) == pa
  {
    PresetBits(pa, perm);
    PermRange(perm);
    FrameNumber(pa / 4096, PermBits(perm) + 0xC1);
    WholeFrames(pa);
  }

  lemma WholeFrames(pa: nat)
    requires pa % 4096 == 0 && pa < 0x0100_0000_0000_0000
    ensures pa / 4096 * 4096 % U64 == pa
  {
  }

  lemma FrameNumber(ppn: nat, low: nat)
    requires low < 1024
    ensures (ppn * 1024 + low) / 1024 == ppn
  {
  }

  /** The entry decodes to the frame and holds its number, the permissions and V, A and D. */
  predicate Reads(e: Pte, frame: nat, perm: Perm) {
    PTE2PA(e) == frame && e.bits == frame / 4096 * 1024 + PermBits(perm) + 0xC1
  }

  lemma PresetReads(pa: nat, perm: Perm)
    requires pa % 4096 == 0 && pa < 0x0100_0000_0000_0000
    ensures Reads(Preset(pa, perm), pa, perm)
  {
    PresetBits(pa, perm);
    PresetDecodes(pa, perm);
  }

  // ----- mappages ------------------------------------------------------------------------------------

  datatype Outcome = Mapped | NoMemory | Remap

  function NextFrame(pa: nat): nat {
    (pa + PGSIZE) % U64
  }

  /** The k-th frame after pa. */
  function NthFrame(pa: nat, k: nat): nat {
    if k == 0 then pa else NextFrame(NthFrame(pa, k - 1))
  }

  /** It lies 4096 * k bytes on, while that does not wrap. */
  lemma {:induction false} FrameLies(pa: nat, k: nat)
    requires pa + 4096 * k < U64
    ensures NthFrame(pa, k) == pa + 4096 * k
  {
    if k > 0 {
      FrameLies(pa, k - 1);
    }
  }

  /** The entries mappages is to store for n pages. */
  function Entries(pa: nat, perm: Perm, n: nat): (r: seq<Pte>)
    ensures |r| == n
  {
    if n == 0 then [] else Entries(pa, perm, n - 1) + [Preset(NthFrame(pa, n - 1), perm)]
  }

  lemma {:induction false} EntryAt(pa: nat, perm: Perm, n: nat, k: nat)
    requires k < n
    ensures Entries(pa, perm, n)[k] == Preset(NthFrame(pa, k), perm)
  {
    if k < n - 1 {
      EntryAt(pa, perm, n - 1, k);
    }
  }

  lemma EntryLies(pa: nat, perm: Perm, n: nat, k: nat)
    requires k < n && pa + 4096 * k < U64
    ensures Entries(pa, perm, n)[k] == Preset(pa + 4096 * k, perm)
  {
    EntryAt(pa, perm, n, k);
    FrameLies(pa, k);
  }

  /** Read back: as long as the frames stay within the 56 physical address bits, the k-th entry is that of
      the frame 4096 * k bytes on. */
  lemma EntriesDecode(pa: nat, perm: Perm, n: nat, k: nat)
    requires pa % 4096 == 0 && k < n && pa + 4096 * k < 0x0100_0000_0000_0000
    ensures Reads(Entries(pa, perm, n)[k], pa + 4096 * k, perm)
  {
    var e := Entries(pa, perm, n)[k];
    EntryLies(pa, perm, n, k);
    AlignedOn(pa, k);
    PresetReads(pa + 4096 * k, perm);
    assert Reads(e, pa + 4096 * k, perm);
  }

  lemma AlignedOn(pa: nat, k: nat)
    requires pa % 4096 == 0
    ensures (pa + 4096 * k) % 4096 == 0
  {
  }

  /** What mappages leaves, page by page: page 4096 * k from va on maps to the frame 4096 * k from pa on. */
  lemma MappedPages(leaves: Leaves, va: nat, pa: nat, perm: Perm, n: nat, k: nat)
    requires Maps(leaves, va, Entries(pa, perm, n))
    requires pa % 4096 == 0 && k < n && pa + 4096 * k < 0x0100_0000_0000_0000
    ensures va + 4096 * k in leaves
    ensures PTE2PA(leaves[va + 4096 * k]) == pa + 4096 * k
    ensures leaves[va + 4096 * k].bits == (pa + 4096 * k) / 4096 * 1024 + PermBits(perm) + 0xC1
  {
    EntriesDecode(pa, perm, n, k);
    assert Page(va, k) == va + 4096 * k;
  }

  /** The leaf slots of a page table by page address; `walk` creates them zeroed. */
  type Leaves = map<nat, Pte>

  function Page(va: nat, k: nat): nat {
    va + k * PGSIZE
  }

  /** The pages from va on hold these entries. */
  predicate Maps(leaves: Leaves, va: nat, entries: seq<Pte>) {
    forall k | 0 <= k < |entries| :: Page(va, k) in leaves && leaves[Page(va, k)] == entries[k]
  }

  predicate InRange(page: nat, va: nat, n: nat) {
    exists k | 0 <= k < n :: page == Page(va, k)
  }

  predicate SameOutside(before: Leaves, after: Leaves, page: nat) {
    if page in before then page in after && after[page] == before[page]
    else page in after ==> after[page] == Pte(0)
  }

  /** Slots may have been created, but no entry outside the first n pages has changed. */
  ghost predicate KeepsOthers(before: Leaves, after: Leaves, va: nat, n: nat) {
    forall page: nat | !InRange(page, va, n) :: SameOutside(before, after, page)
  }

  /** What walk may do: create zeroed slots. */
  ghost predicate OnlyGrows(before: Leaves, after: Leaves) {
    forall page: nat :: SameOutside(before, after, page)
  }

  lemma OutOfRange(page: nat, va: nat, n: nat)
    requires page < va || page >= va + 4096 * n
    ensures !InRange(page, va, n)
  {
  }

  /** No entry below or above the range has changed. */
  lemma OthersKept(before: Leaves, after: Leaves, va: nat, n: nat, page: nat)
    requires KeepsOthers(before, after, va, n) && (page < va || page >= va + 4096 * n)
    ensures page in before ==> page in after && after[page] == before[page]
  {
    OutOfRange(page, va, n);
    assert SameOutside(before, after, page);
  }

  lemma WalkKeeps(before: Leaves, now: Leaves, walked: Leaves, va: nat, entries: seq<Pte>)
    requires Maps(now, va, entries) && KeepsOthers(before, now, va, |entries|) && OnlyGrows(now, walked)
    ensures Maps(walked, va, entries) && KeepsOthers(before, walked, va, |entries|)
  {
    forall k | 0 <= k < |entries| ensures Page(va, k) in walked && walked[Page(va, k)] == entries[k] {
      assert SameOutside(now, walked, Page(va, k));
    }
    forall page: nat | !InRange(page, va, |entries|) ensures SameOutside(before, walked, page) {
      assert SameOutside(before, now, page) && SameOutside(now, walked, page);
    }
  }

  lemma StoreExtends(now: Leaves, va: nat, entries: seq<Pte>, pte: Pte)
    requires Maps(now, va, entries)
    ensures Maps(now[Page(va, |entries|) := pte], va, entries + [pte])
  {
  }

  lemma StoreKeeps(before: Leaves, now: Leaves, va: nat, n: nat, pte: Pte)
    requires KeepsOthers(before, now, va, n)
    ensures KeepsOthers(before, now[Page(va, n) := pte], va, n + 1)
  {
    var after := now[Page(va, n) := pte];
    forall page: nat | !InRange(page, va, n + 1) ensures SameOutside(before, after, page) {
      InRangeGrows(page, va, n);
      assert SameOutside(before, now, page);
    }
  }

  lemma InRangeGrows(page: nat, va: nat, n: nat)
    ensures InRange(page, va, n) || page == Page(va, n) ==> InRange(page, va, n + 1)
  {
    if page == Page(va, n) {
      assert 0 <= n < n + 1;
    }
  }

  /** A page that already has a valid entry: mappages panics on it. */
  predicate Valid(leaves: Leaves, page: nat) {
    page in leaves && Has(leaves[page], V)
  }

  lemma ZeroIsNotValid()
    ensures !Has(Pte(0), V)
  {
  }

  /** The loop reaches page n with the entry it had before the call. */
  lemma ValidSinceBefore(before: Leaves, now: Leaves, va: nat, n: nat)
    requires KeepsOthers(before, now, va, n)
    ensures Valid(now, Page(va, n)) <==> Valid(before, Page(va, n))
  {
    ZeroIsNotValid();
    assert !InRange(Page(va, n), va, n);
    assert SameOutside(before, now, Page(va, n));
  }

  class PageMap {
    var leaves: Leaves

    /** walk with alloc set, by its contract: the slot of the page, unless memory runs out. */
    method Walk(page: nat) returns (ok: bool)
      modifies `leaves
      ensures if ok then page in leaves else page !in leaves
      ensures OnlyGrows(old(leaves), leaves)
    {
      ok := *;
      if page in leaves {
        ok := true;
      } else if ok {
        leaves := leaves[page := Pte(0)];
      }
    }

    /** One round of the loop of mappages: find the slot, refuse a mapped page, store the entry. */
    method MapPage(a: nat, p: nat, perm: Perm, ghost before: Leaves, ghost va: nat, ghost entries: seq<Pte>)
      returns (outcome: Outcome)
      requires a == Page(va, |entries|)
      requires Maps(leaves, va, entries) && KeepsOthers(before, leaves, va, |entries|)
      modifies `leaves
      ensures outcome == Mapped ==> Maps(leaves, va, entries + [Preset(p, perm)])
      ensures outcome == Mapped ==> KeepsOthers(before, leaves, va, |entries| + 1)
      ensures outcome != Mapped ==> Maps(leaves, va, entries) && KeepsOthers(before, leaves, va, |entries|)
      ensures outcome == Remap <==> Valid(before, a)
    {
      ghost var now := leaves;
      var ok := Walk(a);
      WalkKeeps(before, now, leaves, va, entries);
      ValidSinceBefore(before, leaves, va, |entries|);
      if !ok {
        return NoMemory;
      }
      if Has(leaves[a], V) {
        return Remap;
      }
      var pte := Preset(p, perm);
      StoreExtends(leaves, va, entries, pte);
      StoreKeeps(before, leaves, va, |entries|, pte);
      leaves := leaves[a := pte];
      outcome := Mapped;
    }

    /** mappages on a nonempty page-aligned range. When it returns 0, every page of the range holds the
        entry of its consecutive frame; in every outcome the pages before the failing one do, and no
        entry outside them has changed. It panics at the first page that was valid before the call, unless
        memory runs out first. */
    method MapPages(va: nat, pages: nat, pa: nat, perm: Perm) returns (outcome: Outcome, ghost done: nat)
      requires va % PGSIZE == 0 && pages > 0
      modifies `leaves
      ensures done <= pages && (outcome == Mapped <==> done == pages)
      ensures Maps(leaves, va, Entries(pa, perm, done)) && KeepsOthers(old(leaves), leaves, va, done)
      ensures outcome == Remap <==> done < pages && Valid(old(leaves), Page(va, done))
      ensures forall k | 0 <= k < done :: !Valid(old(leaves), Page(va, k))
    {
      var a, p := va, pa;
      var last := va + pages * PGSIZE - PGSIZE;
      done := 0;
      while true
        invariant done < pages && a == Page(va, done) && p == NthFrame(pa, done)
        invariant Maps(leaves, va, Entries(pa, perm, done)) && KeepsOthers(old(leaves), leaves, va, done)
        invariant forall k | 0 <= k < done :: !Valid(old(leaves), Page(va, k))
        decreases pages - done
      {
        outcome := MapPage(a, p, perm, old(leaves), va, Entries(pa, perm, done));
        if outcome != Mapped {
          return;
        }
        done := done + 1;
        if a == last {
          return;
        }
        a := a + PGSIZE;
        p := NextFrame(p);
      }
    }
  }
}
