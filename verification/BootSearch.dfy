/** The boot-image search of the first-stage boot loader: the header checksum, the search for the
    next valid image and the chain of fallbacks. A u32 is a natural number below 2^32 with the wrap
    written out; `x & mask` with mask = 2^k - 1 is x modulo 2^k. Sizes and offsets that come from
    headers of the vendor library are parameters. */
module BootSearch {
  import opened Basics

  datatype Option<T> = None | Some(value: T)

  // ----- the header checksum ------------------------------------------------------------------

  predicate IsU32(x: nat) {
    x < U32
  }

  /** Exclusive or on words of the given number of bits. */
  function Xor(x: nat, y: nat, bits: nat): nat {
    if bits == 0 then 0 else (if x % 2 == y % 2 then 0 else 1) + 2 * Xor(x / 2, y / 2, bits - 1)
  }

  lemma Halves(x: nat, p: nat)
    requires x < 2 * p
    ensures x / 2 < p && x == 2 * (x / 2) + x % 2
    ensures (2 * p - 1) / 2 == p - 1 && (2 * p - 1) % 2 == 1
  {
  }

  /** Exclusive or with all ones is subtraction from all ones. */
  lemma {:induction false} XorWithOnes(x: nat, bits: nat)
    requires x < PowerOfTwo(bits)
    ensures Xor(x, PowerOfTwo(bits) - 1, bits) == PowerOfTwo(bits) - 1 - x
  {
    if bits > 0 {
      Halves(x, PowerOfTwo(bits - 1));
      XorWithOnes(x / 2, bits - 1);
    }
  }

  lemma AllOnes()
    ensures PowerOfTwo(32) == U32
  {
    assert PowerOfTwo(8) == 0x100;
    assert PowerOfTwo(16) == 0x1_0000;
    assert PowerOfTwo(24) == 0x100_0000;
  }

  function Complement(x: nat): (r: nat)
    requires x < U32
    ensures r < U32
  {
    U32 - 1 - x
  }

  /** Inverting a word by exclusive or with all ones. */
  method Invert(x: nat, bits: nat) returns (r: nat)
    requires x < PowerOfTwo(bits)
    ensures r == PowerOfTwo(bits) - 1 - x
  {
    XorWithOnes(x, bits);
    r := Xor(x, PowerOfTwo(bits) - 1, bits);
  }

  /** The unbounded sum of the words. */
  function Total(words: seq<nat>): nat {
    if words == [] then 0 else Total(words[..|words| - 1]) + words[|words| - 1]
  }

  /** The stored word is the complement of the sum modulo 2^32. */
  predicate Sealed(words: seq<nat>, stored: nat) {
    stored == Complement(Total(words) % U32)
  }

  lemma SumOneMore(words: seq<nat>, count: nat)
    requires count < |words|
    ensures Total(words[..count + 1]) % U32 == (Total(words[..count]) % U32 + words[count]) % U32
  {
    assert words[..count + 1][..count] == words[..count];
  }

  /** How much b differs from a, word by word, summed up. */
  function Drift(a: seq<nat>, b: seq<nat>): int
    requires |a| == |b|
  {
    if a == [] then 0 else Drift(a[..|a| - 1], b[..|b| - 1]) + b[|b| - 1] - a[|a| - 1]
  }

  lemma {:induction false} TotalDrifts(a: seq<nat>, b: seq<nat>)
    requires |a| == |b|
    ensures Total(b) == Total(a) + Drift(a, b)
  {
    if a != [] {
      TotalDrifts(a[..|a| - 1], b[..|b| - 1]);
    }
  }

  lemma SameResidue(x: int, d: int)
    ensures (x + d) % U32 == x % U32 <==> d % U32 == 0
  {
    assert x == U32 * (x / U32) + x % U32;
    assert d == U32 * (d / U32) + d % U32;
    assert x + d == U32 * ((x + d) / U32) + (x + d) % U32;
  }

  /** A change of any number of words of an accepted header goes unnoticed exactly if the
      differences sum up to 0 modulo 2^32. */
  lemma ChangeNoticedUnlessDriftIsZero(words: seq<nat>, changed: seq<nat>, stored: nat)
    requires |words| == |changed| && Sealed(words, stored)
    ensures Sealed(changed, stored) <==> Drift(words, changed) % U32 == 0
  {
    TotalDrifts(words, changed);
    SameResidue(Total(words), Drift(words, changed));
  }

  lemma {:induction false} NoDrift(words: seq<nat>)
    ensures Drift(words, words) == 0
  {
    if words != [] {
      NoDrift(words[..|words| - 1]);
    }
  }

  lemma {:induction false} DriftOfOne(words: seq<nat>, i: nat, w: nat)
    requires i < |words|
    ensures Drift(words, words[i := w]) == w - words[i]
  {
    var last := |words| - 1;
    if i == last {
      NoDrift(words[..last]);
      assert words[i := w][..last] == words[..last];
    } else {
      DriftOfOne(words[..last], i, w);
      assert words[i := w][..last] == words[..last][i := w];
    }
  }

  /** Any change of a single word, or of the stored sum, of an accepted header is noticed. */
  lemma SingleChangeIsNoticed(words: seq<nat>, stored: nat, i: nat, w: nat, other: nat)
    requires Sealed(words, stored) && i < |words| && IsU32(words[i]) && IsU32(w)
    ensures w != words[i] ==> !Sealed(words[i := w], stored)
    ensures other != stored ==> !Sealed(words, other)
  {
    ChangeNoticedUnlessDriftIsZero(words, words[i := w], stored);
    DriftOfOne(words, i, w);
  }

  // ----- the flash and its headers ------------------------------------------------------------

  /** What the headers and the board fix: where the fields of an image header lie, how many words the
      checksum covers, the identification word, the distance between slots, the number of slots that
      the multiboot field can name (mask + 1, a power of two) and the size of the flash. */
  datatype Layout = Layout(identAt: nat, ident: nat, widthAt: nat, words: nat, checksumAt: nat,
                           slotSize: nat, slots: nat, flashSize: nat)

  /** 2^k divides 2^32, every slot address fits a u32 and so does the flash size. */
  predicate Sane(c: Layout) {
    c.slots > 0 && U32 % c.slots == 0 && c.slotSize > 0 && (c.slots - 1) * c.slotSize < U32 && c.flashSize < U32
  }

  lemma {:induction false} PowersDivide(k: nat, n: nat)
    requires k <= n
    ensures PowerOfTwo(n) % PowerOfTwo(k) == 0 && PowerOfTwo(k) <= PowerOfTwo(n)
    decreases n
  {
    var p := PowerOfTwo(k);
    if k == n {
      DivUnique(p, 1, 0, p);
    } else {
      PowersDivide(k, n - 1);
      var q := PowerOfTwo(n - 1) / p;
      SplitOff(PowerOfTwo(n - 1), p);
      assert PowerOfTwo(n) == p * (2 * q);
      DivUnique(PowerOfTwo(n), 2 * q, 0, p);
    }
  }

  /** Any mask of the form 2^k - 1 will do. */
  lemma MasksAreSane(c: Layout, k: nat)
    requires k <= 32 && c.slots == PowerOfTwo(k)
    requires c.slotSize > 0 && (c.slots - 1) * c.slotSize < 0x1_0000_0000 && c.flashSize < 0x1_0000_0000
    ensures Sane(c)
  {
    AllOnes();
    PowersDivide(k, 32);
  }

  /** The words that the checksum of the image at `base` covers. */
  function HeaderWords(c: Layout, flash: nat -> nat, base: nat): seq<nat> {
    seq(c.words, i => flash((base + c.widthAt + i * 4) % U32))
  }

  predicate HasIdent(c: Layout, flash: nat -> nat, base: nat) {
    flash((base + c.identAt) % U32) == c.ident
  }

  predicate HasSeal(c: Layout, flash: nat -> nat, base: nat) {
    Sealed(HeaderWords(c, flash, base), flash((base + c.checksumAt) % U32))
  }

  predicate ValidSlot(c: Layout, flash: nat -> nat, slot: nat) {
    HasIdent(c, flash, slot * c.slotSize) && HasSeal(c, flash, slot * c.slotSize)
  }

  /** The sum of n words of the flash, four bytes apart. */
  function SumOf(flash: nat -> nat, at: nat, n: nat): nat {
    if n == 0 then 0 else SumOf(flash, at, n - 1) + flash((at + 4 * (n - 1)) % U32)
  }

  lemma {:induction false} TotalIsSumOf(c: Layout, flash: nat -> nat, base: nat, n: nat)
    requires n <= c.words
    ensures Total(HeaderWords(c, flash, base)[..n]) == SumOf(flash, base + c.widthAt, n)
  {
    if n > 0 {
      var words := HeaderWords(c, flash, base);
      assert words[..n][..n - 1] == words[..n - 1];
      TotalIsSumOf(c, flash, base, n - 1);
    }
  }

  lemma SealReads(c: Layout, flash: nat -> nat, base: nat)
    ensures HasSeal(c, flash, base) <==>
              flash((base + c.checksumAt) % U32) == 0xFFFF_FFFF - SumOf(flash, base + c.widthAt, c.words) % U32
  {
    var words := HeaderWords(c, flash, base);
    assert words[..c.words] == words;
    TotalIsSumOf(c, flash, base, c.words);
  }

  /** A slot is valid exactly if the word at the ID offset is the identification word and the word at the
      checksum offset is all ones minus the sum, modulo 2^32, of the words from the first offset on. */
  lemma ValidSlotReads(c: Layout, flash: nat -> nat, slot: nat)
    ensures var base := slot * c.slotSize;
            ValidSlot(c, flash, slot) <==>
              && flash((base + c.identAt) % U32) == c.ident
              && flash((base + c.checksumAt) % U32) == 0xFFFF_FFFF - SumOf(flash, base + c.widthAt, c.words) % U32
  {
    SealReads(c, flash, slot * c.slotSize);
  }

  predicate InFlash(c: Layout, slot: nat) {
    slot * c.slotSize < c.flashSize
  }

  // ----- the search as a function --------------------------------------------------------------

  /** The first valid slot from `slot` up to the end of the flash. */
  function FirstFrom(c: Layout, flash: nat -> nat, slot: nat): Option<nat>
    requires c.slotSize > 0
    decreases c.flashSize - slot * c.slotSize
  {
    if !InFlash(c, slot) then None
    else if ValidSlot(c, flash, slot) then Some(slot)
    else
      assert (slot + 1) * c.slotSize == slot * c.slotSize + c.slotSize;
      FirstFrom(c, flash, slot + 1)
  }

  /** What it finds is in the flash and valid and nothing before it is; it finds nothing only if no slot
      from there to the end is valid. */
  lemma {:induction false} FirstFromFinds(c: Layout, flash: nat -> nat, slot: nat)
    requires c.slotSize > 0
    ensures var r := FirstFrom(c, flash, slot);
            if r.Some? then
              && r.value >= slot && InFlash(c, r.value) && ValidSlot(c, flash, r.value)
              && forall s | slot <= s < r.value :: !ValidSlot(c, flash, s)
            else forall s | slot <= s && InFlash(c, s) :: !ValidSlot(c, flash, s)
    decreases c.flashSize - slot * c.slotSize
  {
    if !InFlash(c, slot) {
      AllBeyond(c, slot);
    } else if !ValidSlot(c, flash, slot) {
      assert (slot + 1) * c.slotSize == slot * c.slotSize + c.slotSize;
      FirstFromFinds(c, flash, slot + 1);
    }
  }

  lemma AllBeyond(c: Layout, slot: nat)
    requires !InFlash(c, slot)
    ensures forall s | slot <= s :: !InFlash(c, s)
  {
    forall s | slot <= s
      ensures !InFlash(c, s)
    {
      assert s * c.slotSize >= slot * c.slotSize;
    }
  }

  // ----- the multiboot register -------------------------------------------------------------------

  /** The slot that a register value names. */
  function Slot(c: Layout, reg: nat): nat
    requires c.slots > 0
  {
    reg % c.slots
  }

  /** The value j increments after reg. */
  function Probe(reg: nat, j: nat): nat {
    (reg + j) % U32
  }

  lemma ProbeZero(reg: nat)
    requires IsU32(reg)
    ensures Probe(reg, 0) == reg
  {
  }

  lemma ProbeNext(reg: nat, j: nat)
    ensures Probe(reg, j + 1) == (Probe(reg, j) + 1) % U32
  {
  }

  /** The search loop goes on at probe j: still inside the flash, and no valid image there. */
  predicate GoesOn(c: Layout, flash: nat -> nat, reg: nat, j: nat)
    requires Sane(c)
  {
    InFlash(c, Slot(c, Probe(reg, j))) && !ValidSlot(c, flash, Slot(c, Probe(reg, j)))
  }

  /** The search stops at probe j and not before. */
  predicate StopsAt(c: Layout, flash: nat -> nat, reg: nat, j: nat)
    requires Sane(c)
  {
    !GoesOn(c, flash, reg, j) && forall i | 0 <= i < j :: GoesOn(c, flash, reg, i)
  }

  lemma ProbeSlot(c: Layout, reg: nat, j: nat)
    requires Sane(c)
    ensures Slot(c, Probe(reg, j)) == (reg + j) % c.slots
  {
    var x := reg + j;
    var q := U32 / c.slots;
    assert U32 == q * c.slots;
    assert x == U32 * (x / U32) + x % U32;
    assert x == c.slots * (q * (x / U32)) + x % U32;
    ModSkip(x % U32, q * (x / U32), c.slots);
  }

  lemma WholeRoundFits(x: nat, m: nat, n: nat)
    requires m > 0 && n % m == 0 && x < n
    ensures m * (x / m) + m <= n
  {
    var q, k := x / m, n / m;
    assert m * q <= x;
    assert n == m * k;
    Cancel(m, q + 1, k);
    Monotone(m, q + 1, k);
  }

  /** As long as the slot field has not reached its last value, an increment of the register goes to
      the slot field alone. */
  lemma NoCarry(c: Layout, reg: nat, j: nat)
    requires Sane(c) && IsU32(reg) && Slot(c, reg) + j < c.slots
    ensures Probe(reg, j) == reg + j
    ensures Slot(c, reg + j) == Slot(c, reg) + j && (reg + j) / c.slots == reg / c.slots
  {
    DivUnique(reg + j, reg / c.slots, Slot(c, reg) + j, c.slots);
    WholeRoundFits(reg, c.slots, U32);
  }

  // ----- when the search ends, and with what --------------------------------------------------------

  /** The last slot that the register can name lies at or beyond the end of the flash. */
  predicate Bounded(c: Layout)
    requires c.slots > 0
  {
    c.flashSize <= (c.slots - 1) * c.slotSize
  }

  ghost predicate SomeValid(c: Layout, flash: nat -> nat) {
    exists s | 0 <= s < c.slots :: ValidSlot(c, flash, s)
  }

  /** The number of increments from the slot of `reg` to slot s, going round the slot field. */
  function StepsTo(c: Layout, reg: nat, s: nat): nat
    requires c.slots > 0 && s < c.slots
  {
    (s - Slot(c, reg) + c.slots) % c.slots
  }

  lemma StepsReach(c: Layout, reg: nat, s: nat)
    requires Sane(c) && s < c.slots
    ensures Slot(c, Probe(reg, StepsTo(c, reg, s))) == s
  {
    ProbeSlot(c, reg, StepsTo(c, reg, s));
    GoRound(reg, s, c.slots);
  }

  lemma GoRound(x: nat, s: nat, m: nat)
    requires s < m
    ensures (x + (s - x % m + m) % m) % m == s
  {
    var y := s - x % m + m;
    SplitOff(x, m);
    SplitOff(y, m);
    assert x + y % m == m * (x / m) - m * (y / m) + m + s;
    assert m * (x / m) - m * (y / m) + m == m * (x / m - y / m + 1);
    ModUnique(x + y % m, x / m - y / m + 1, s, m);
  }

  lemma SlotInFlash(c: Layout, slot: nat)
    requires c.slots > 0 && slot < c.slots && !Bounded(c)
    ensures InFlash(c, slot)
  {
    Monotone(c.slotSize, slot, c.slots - 1);
  }

  lemma EverySlotInFlash(c: Layout)
    requires c.slots > 0 && !Bounded(c)
    ensures forall slot: nat | slot < c.slots :: InFlash(c, slot)
  {
    forall slot: nat | slot < c.slots ensures InFlash(c, slot) {
      SlotInFlash(c, slot);
    }
  }

  lemma NeverEnds(c: Layout, flash: nat -> nat, reg: nat, j: nat)
    requires Sane(c) && !Bounded(c) && !SomeValid(c, flash)
    ensures GoesOn(c, flash, reg, j)
  {
    SlotInFlash(c, Slot(c, Probe(reg, j)));
  }

  lemma EndsAtOrBefore(c: Layout, flash: nat -> nat, reg: nat) returns (j: nat)
    requires Sane(c) && (Bounded(c) || SomeValid(c, flash))
    ensures !GoesOn(c, flash, reg, j)
  {
    var s := c.slots - 1;
    if !Bounded(c) {
      s :| 0 <= s < c.slots && ValidSlot(c, flash, s);
    }
    j := StepsTo(c, reg, s);
    StepsReach(c, reg, s);
  }

  /** The search loop ends if and only if the flash ends below the last slot or some slot is valid. */
  lemma SearchEndsExactlyWhen(c: Layout, flash: nat -> nat, reg: nat)
    requires Sane(c)
    ensures (exists j: nat :: !GoesOn(c, flash, reg, j)) <==> Bounded(c) || SomeValid(c, flash)
  {
    if Bounded(c) || SomeValid(c, flash) {
      var j := EndsAtOrBefore(c, flash, reg);
    } else {
      forall j: nat
        ensures GoesOn(c, flash, reg, j)
      {
        NeverEnds(c, flash, reg, j);
      }
    }
  }

  /** The first valid slot from `slot` on that the register can name. */
  function NextInRound(c: Layout, flash: nat -> nat, slot: nat): Option<nat>
    requires Sane(c)
  {
    match FirstFrom(c, flash, slot)
    case Some(s) => if s < c.slots then Some(s) else None
    case None => None
  }

  lemma FoundInRound(c: Layout, flash: nat -> nat, slot: nat)
    requires Sane(c)
    ensures match NextInRound(c, flash, slot)
            case Some(s) =>
              && slot <= s < c.slots && InFlash(c, s) && ValidSlot(c, flash, s)
              && forall t | slot <= t < s :: !ValidSlot(c, flash, t)
            case None => forall t | slot <= t < c.slots && InFlash(c, t) :: !ValidSlot(c, flash, t)
  {
    FirstFromFinds(c, flash, slot);
  }

  /** The register with the slot field at 0 and one carried into the bits above it. */
  function NextRound(c: Layout, reg: nat): nat
    requires c.slots > 0
  {
    (reg - Slot(c, reg) + c.slots) % U32
  }

  /** What the search leaves in the multiboot register: the first valid slot from the starting slot on,
      with the upper bits as they were; if there is none and the flash has every slot, the search goes
      round, carries into the upper bits and finds the first valid slot of all. */
  function SearchResult(c: Layout, flash: nat -> nat, reg: nat): Option<nat>
    requires Sane(c)
  {
    match NextInRound(c, flash, Slot(c, reg))
    case Some(s) => Some(reg - Slot(c, reg) + s)
    case None =>
      if Bounded(c) then None
      else
        match NextInRound(c, flash, 0)
        case Some(s) => Some(NextRound(c, reg) + s)
        case None => None
  }

  lemma StopIsUnique(c: Layout, flash: nat -> nat, reg: nat, j: nat, k: nat)
    requires Sane(c) && StopsAt(c, flash, reg, j) && StopsAt(c, flash, reg, k)
    ensures j == k
  {
  }

  lemma BelowIsInFlash(c: Layout, s: nat, t: nat)
    requires InFlash(c, t) && s <= t
    ensures InFlash(c, s)
  {
    assert s * c.slotSize <= t * c.slotSize;
  }

  lemma StopsAhead(c: Layout, flash: nat -> nat, reg: nat, s: nat)
    requires Sane(c) && IsU32(reg) && NextInRound(c, flash, Slot(c, reg)) == Some(s)
    ensures s >= Slot(c, reg) && StopsAt(c, flash, reg, s - Slot(c, reg))
    ensures Probe(reg, s - Slot(c, reg)) == reg - Slot(c, reg) + s
    ensures var r := reg - Slot(c, reg) + s; Slot(c, r) == s && r / c.slots == reg / c.slots
  {
    var start := Slot(c, reg);
    FoundInRound(c, flash, start);
    NoCarry(c, reg, s - start);
    forall i | 0 <= i < s - start ensures GoesOn(c, flash, reg, i) {
      NoCarry(c, reg, i);
      BelowIsInFlash(c, start + i, s);
    }
  }

  lemma BoundedStop(c: Layout, flash: nat -> nat, reg: nat, j: nat)
    requires Sane(c) && IsU32(reg) && Bounded(c) && StopsAt(c, flash, reg, j)
    ensures Slot(c, reg) + j < c.slots
  {
    var last := c.slots - 1 - Slot(c, reg);
    NoCarry(c, reg, last);
    assert !GoesOn(c, flash, reg, last);
  }

  lemma StopsAtTheEnd(c: Layout, flash: nat -> nat, reg: nat, j: nat)
    requires Sane(c) && IsU32(reg) && Bounded(c) && NextInRound(c, flash, Slot(c, reg)) == None
    requires StopsAt(c, flash, reg, j)
    ensures !InFlash(c, Slot(c, Probe(reg, j)))
  {
    BoundedStop(c, flash, reg, j);
    NoCarry(c, reg, j);
    FoundInRound(c, flash, Slot(c, reg));
  }

  lemma SmallMod(x: nat, n: nat)
    requires n > 0 && x <= n
    ensures x % n == if x == n then 0 else x
  {
    if x < n {
      ModUnique(x, 0, x, n);
    } else {
      ModUnique(x, 1, 0, n);
    }
  }

  /** One more round of m within k rounds, going back to 0 after the last. */
  lemma OneRoundOn(q: nat, k: nat, m: nat, n: nat)
    requires m > 0 && q < k && n == m * k
    ensures m * (q + 1) <= n && n > 0
    ensures m * (q + 1) % n == m * ((q + 1) % k)
  {
    SmallMod(q + 1, k);
    Monotone(m, q + 1, k);
    if q + 1 < k {
      Monotone(m, q + 2, k);
      assert m * (q + 2) == m * (q + 1) + m;
    }
    SmallMod(m * (q + 1), n);
  }

  lemma RoundUpFits(x: nat, m: nat, n: nat)
    requires m > 0 && n % m == 0 && x < n
    ensures x - x % m + m <= n
    ensures (x - x % m + m) % n == m * ((x / m + 1) % (n / m))
    ensures m * ((x / m + 1) % (n / m)) + m <= n
  {
    var q, k := x / m, n / m;
    SplitOff(x, m);
    SplitOff(n, m);
    assert x - x % m + m == m * (q + 1);
    Cancel(m, q + 1, k);
    OneRoundOn(q, k, m, n);
    RoundBelow((q + 1) % k, k, m, n);
  }

  lemma RoundBelow(r: nat, k: nat, m: nat, n: nat)
    requires r < k && n == m * k
    ensures m * r + m <= n
  {
    Monotone(m, r + 1, k);
    assert m * (r + 1) == m * r + m;
  }

  lemma NextRoundIs(c: Layout, reg: nat) returns (q: nat)
    requires Sane(c) && IsU32(reg)
    ensures q == (reg / c.slots + 1) % (U32 / c.slots)
    ensures NextRound(c, reg) == c.slots * q && NextRound(c, reg) + c.slots <= U32
  {
    q := (reg / c.slots + 1) % (U32 / c.slots);
    RoundUpFits(reg, c.slots, U32);
  }

  /** Past the last slot the probes start from slot 0 of the next round. */
  lemma RoundProbe(c: Layout, reg: nat, s: nat)
    requires Sane(c) && IsU32(reg) && s < c.slots
    ensures Probe(reg, c.slots - Slot(c, reg) + s) == NextRound(c, reg) + s
    ensures var r := NextRound(c, reg) + s;
            IsU32(r) && Slot(c, r) == s && r / c.slots == (reg / c.slots + 1) % (U32 / c.slots)
  {
    var q := NextRoundIs(c, reg);
    DivUnique(NextRound(c, reg) + s, q, s, c.slots);
    AddAfterMod(reg - Slot(c, reg) + c.slots, s);
  }

  lemma AddAfterMod(x: nat, s: nat)
    requires x % U32 + s < U32
    ensures (x + s) % U32 == x % U32 + s
  {
  }

  lemma StopsNextRound(c: Layout, flash: nat -> nat, reg: nat, s: nat)
    requires Sane(c) && IsU32(reg) && !Bounded(c)
    requires NextInRound(c, flash, Slot(c, reg)) == None && NextInRound(c, flash, 0) == Some(s)
    ensures StopsAt(c, flash, reg, c.slots - Slot(c, reg) + s) && s < Slot(c, reg)
  {
    var start := Slot(c, reg);
    FoundInRound(c, flash, start);
    FoundInRound(c, flash, 0);
    EverySlotInFlash(c);
    RoundProbe(c, reg, s);
    forall i | 0 <= i < c.slots - start + s ensures GoesOn(c, flash, reg, i) {
      if i < c.slots - start {
        NoCarry(c, reg, i);
      } else {
        RoundProbe(c, reg, i - (c.slots - start));
      }
    }
  }

  lemma SomeRound(c: Layout, flash: nat -> nat, reg: nat, j: nat)
    requires Sane(c) && !Bounded(c) && !GoesOn(c, flash, reg, j)
    ensures NextInRound(c, flash, 0).Some?
  {
    SlotInFlash(c, Slot(c, Probe(reg, j)));
    FoundInRound(c, flash, 0);
  }

  /** For every layout the probe at which the loop stops is the specified one, and it stops outside the
      flash exactly when the specification finds nothing. */
  lemma SearchFinds(c: Layout, flash: nat -> nat, reg: nat, j: nat)
    requires Sane(c) && IsU32(reg) && StopsAt(c, flash, reg, j)
    ensures SearchResult(c, flash, reg)
         == if InFlash(c, Slot(c, Probe(reg, j))) then Some(Probe(reg, j)) else None
  {
    FoundInRound(c, flash, Slot(c, reg));
    match NextInRound(c, flash, Slot(c, reg))
    case Some(s) =>
      StopsAhead(c, flash, reg, s);
      StopIsUnique(c, flash, reg, j, s - Slot(c, reg));
    case None =>
      if Bounded(c) {
        StopsAtTheEnd(c, flash, reg, j);
      } else {
        SomeRound(c, flash, reg, j);
        var s := NextInRound(c, flash, 0).value;
        FoundInRound(c, flash, 0);
        StopsNextRound(c, flash, reg, s);
        RoundProbe(c, reg, s);
        StopIsUnique(c, flash, reg, j, c.slots - Slot(c, reg) + s);
      }
  }

  /** The search stays in this round: the flash ends below the last slot, or a slot from here on is
      valid. */
  ghost predicate Ahead(c: Layout, flash: nat -> nat, slot: nat)
    requires c.slots > 0
  {
    Bounded(c) || exists s :: slot <= s < c.slots && ValidSlot(c, flash, s)
  }

  lemma AheadIsFound(c: Layout, flash: nat -> nat, slot: nat)
    requires Sane(c)
    ensures Ahead(c, flash, slot) <==> Bounded(c) || NextInRound(c, flash, slot).Some?
  {
    FoundInRound(c, flash, slot);
    if !Bounded(c) {
      EverySlotInFlash(c);
    }
  }

  lemma FoundAhead(c: Layout, flash: nat -> nat, reg: nat)
    requires Sane(c) && IsU32(reg) && NextInRound(c, flash, Slot(c, reg)).Some?
    ensures SearchResult(c, flash, reg).Some?
    ensures var r := SearchResult(c, flash, reg).value;
            && IsU32(r) && InFlash(c, Slot(c, r)) && ValidSlot(c, flash, Slot(c, r))
            && Slot(c, reg) <= Slot(c, r) && r / c.slots == reg / c.slots
            && forall s | Slot(c, reg) <= s < Slot(c, r) :: !ValidSlot(c, flash, s)
  {
    FoundInRound(c, flash, Slot(c, reg));
    StopsAhead(c, flash, reg, NextInRound(c, flash, Slot(c, reg)).value);
  }

  lemma FoundNextRound(c: Layout, flash: nat -> nat, reg: nat)
    requires Sane(c) && IsU32(reg) && NextInRound(c, flash, Slot(c, reg)).None? && SearchResult(c, flash, reg).Some?
    ensures var r := SearchResult(c, flash, reg).value;
            && IsU32(r) && InFlash(c, Slot(c, r)) && ValidSlot(c, flash, Slot(c, r))
            && Slot(c, r) < Slot(c, reg) && r / c.slots == (reg / c.slots + 1) % (U32 / c.slots)
            && forall s | 0 <= s < Slot(c, r) :: !ValidSlot(c, flash, s)
  {
    FoundInRound(c, flash, 0);
    var s := NextInRound(c, flash, 0).value;
    StopsNextRound(c, flash, reg, s);
    RoundProbe(c, reg, s);
  }

  /** A register that a search has written names a valid slot of the flash. It is the first from the
      starting slot on, with the upper bits unchanged, if and only if the search stays in its round; else
      it is an earlier slot, the first valid one of all, with one carried into the upper bits. */
  lemma FoundSlot(c: Layout, flash: nat -> nat, reg: nat)
    requires Sane(c) && IsU32(reg) && SearchResult(c, flash, reg).Some?
    ensures var r := SearchResult(c, flash, reg).value;
            && IsU32(r) && InFlash(c, Slot(c, r)) && ValidSlot(c, flash, Slot(c, r))
            && (Slot(c, reg) <= Slot(c, r) <==> Ahead(c, flash, Slot(c, reg)))
            && if Ahead(c, flash, Slot(c, reg)) then
                 && r / c.slots == reg / c.slots
                 && forall s | Slot(c, reg) <= s < Slot(c, r) :: !ValidSlot(c, flash, s)
               else
                 && r / c.slots == (reg / c.slots + 1) % (U32 / c.slots)
                 && forall s | 0 <= s < Slot(c, r) :: !ValidSlot(c, flash, s)
  {
    AheadIsFound(c, flash, Slot(c, reg));
    if NextInRound(c, flash, Slot(c, reg)).Some? {
      FoundAhead(c, flash, reg);
    } else {
      FoundNextRound(c, flash, reg);
    }
  }

  /** The image at this slot has the wrong ID or the wrong checksum. */
  predicate Unbootable(c: Layout, flash: nat -> nat, slot: nat) {
    var base := slot * c.slotSize;
    || flash((base + c.identAt) % U32) != c.ident
    || flash((base + c.checksumAt) % U32) != 0xFFFF_FFFF - SumOf(flash, base + c.widthAt, c.words) % U32
  }

  /** The image found has the right ID and the right checksum and every image passed over has one of them
      wrong; if none is found, that is true of every slot of the flash from the start on. */
  predicate Justified(c: Layout, flash: nat -> nat, reg: nat, result: Option<nat>)
    requires c.slots > 0
  {
    match result
    case Some(r) =>
      && !Unbootable(c, flash, r % c.slots)
      && (if reg % c.slots <= r % c.slots then
            forall s | reg % c.slots <= s < r % c.slots :: Unbootable(c, flash, s)
          else
            && (forall s | reg % c.slots <= s < c.slots :: Unbootable(c, flash, s))
            && forall s | 0 <= s < r % c.slots :: Unbootable(c, flash, s))
    case None =>
      forall s | reg % c.slots <= s < c.slots && s * c.slotSize < c.flashSize :: Unbootable(c, flash, s)
  }

  lemma UnbootableIsInvalid(c: Layout, flash: nat -> nat, slot: nat)
    ensures Unbootable(c, flash, slot) <==> !ValidSlot(c, flash, slot)
  {
    ValidSlotReads(c, flash, slot);
  }

  lemma ResultIsJustified(c: Layout, flash: nat -> nat, reg: nat)
    requires Sane(c) && IsU32(reg)
    ensures Justified(c, flash, reg, SearchResult(c, flash, reg))
  {
    forall s: nat ensures Unbootable(c, flash, s) <==> !ValidSlot(c, flash, s) {
      UnbootableIsInvalid(c, flash, s);
    }
    FoundInRound(c, flash, Slot(c, reg));
    AheadIsFound(c, flash, Slot(c, reg));
    if SearchResult(c, flash, reg).Some? {
      FoundSlot(c, flash, reg);
      if !Bounded(c) {
        EverySlotInFlash(c);
      }
    }
  }

  // ----- the chain of fallbacks -----------------------------------------------------------------------

  /** Update_MultiBootRegister: silicon 1.0 has no multiboot register to step. */
  function Stepped(reg: nat, siliconVersion1: bool): nat {
    if siliconVersion1 then reg else (reg + 1) % U32
  }

  /** The register after a fallback that found an image. */
  function FallbackResult(c: Layout, flash: nat -> nat, reg: nat, siliconVersion1: bool): Option<nat>
    requires Sane(c)
  {
    SearchResult(c, flash, Stepped(reg, siliconVersion1))
  }

  /** Successive registers of fallbacks that each found an image. */
  predicate Chain(c: Layout, flash: nat -> nat, siliconVersion1: bool, regs: seq<nat>)
    requires Sane(c)
  {
    && (forall i | 0 <= i < |regs| :: IsU32(regs[i]))
    && (forall i | 0 < i < |regs| :: FallbackResult(c, flash, regs[i - 1], siliconVersion1) == Some(regs[i]))
  }

  lemma ChainGrows(c: Layout, flash: nat -> nat, siliconVersion1: bool, regs: seq<nat>, r: nat)
    requires Sane(c) && (regs == [] || Chain(c, flash, siliconVersion1, regs)) && IsU32(r)
    requires regs != [] ==> FallbackResult(c, flash, regs[|regs| - 1], siliconVersion1) == Some(r)
    ensures Chain(c, flash, siliconVersion1, regs + [r])
  {
  }

  lemma InFlashIsBelowLast(c: Layout, s: nat)
    requires c.slots > 0 && Bounded(c) && InFlash(c, s)
    ensures s < c.slots - 1
  {
    if s >= c.slots - 1 {
      Monotone(c.slotSize, c.slots - 1, s);
    }
  }

  /** A fallback beyond silicon 1.0 that stays in the round goes to a later slot, and none between was
      valid. */
  lemma FallbackAdvances(c: Layout, flash: nat -> nat, reg: nat)
    requires Sane(c) && IsU32(reg) && InFlash(c, Slot(c, reg)) && Ahead(c, flash, Slot(c, reg) + 1)
    requires FallbackResult(c, flash, reg, false).Some?
    ensures var r := FallbackResult(c, flash, reg, false).value;
            && IsU32(r) && InFlash(c, Slot(c, r)) && ValidSlot(c, flash, Slot(c, r)) && r / c.slots == reg / c.slots
            && Slot(c, reg) < Slot(c, r)
            && (forall s | Slot(c, reg) < s < Slot(c, r) :: !ValidSlot(c, flash, s))
  {
    if Bounded(c) {
      InFlashIsBelowLast(c, Slot(c, reg));
    }
    NoCarry(c, reg, 1);
    FoundSlot(c, flash, reg + 1);
  }

  /** A fallback does not come back to its slot or an earlier one: it finds a later slot or none. */
  predicate GoesForward(c: Layout, flash: nat -> nat, reg: nat, siliconVersion1: bool)
    requires Sane(c)
  {
    match FallbackResult(c, flash, reg, siliconVersion1)
    case Some(r) => Slot(c, reg) < Slot(c, r)
    case None => true
  }

  lemma StaysOnSilicon1(c: Layout, flash: nat -> nat, reg: nat)
    requires Sane(c) && IsU32(reg) && InFlash(c, Slot(c, reg)) && ValidSlot(c, flash, Slot(c, reg))
    ensures FallbackResult(c, flash, reg, true) == Some(reg)
  {
  }

  lemma GoesRound(c: Layout, flash: nat -> nat, reg: nat)
    requires Sane(c) && IsU32(reg) && ValidSlot(c, flash, Slot(c, reg)) && !Ahead(c, flash, Slot(c, reg) + 1)
    ensures FallbackResult(c, flash, reg, false).Some?
    ensures Slot(c, FallbackResult(c, flash, reg, false).value) <= Slot(c, reg)
  {
    var next := (reg + 1) % U32;
    assert next == Probe(reg, 1);
    FoundInRound(c, flash, 0);
    EverySlotInFlash(c);
    assert InFlash(c, Slot(c, reg));
    if Slot(c, reg) + 1 < c.slots {
      NoCarry(c, reg, 1);
    } else {
      RoundProbe(c, reg, 0);
    }
    FoundInRound(c, flash, Slot(c, next));
    FoundSlot(c, flash, next);
  }

  /** From a valid slot a fallback goes forward if and only if the silicon is not 1.0 and either the
      flash ends below the last slot or a later slot is valid. */
  lemma FallbackGoesForwardExactlyWhen(c: Layout, flash: nat -> nat, reg: nat, siliconVersion1: bool)
    requires Sane(c) && IsU32(reg) && InFlash(c, Slot(c, reg)) && ValidSlot(c, flash, Slot(c, reg))
    ensures GoesForward(c, flash, reg, siliconVersion1) <==> !siliconVersion1 && Ahead(c, flash, Slot(c, reg) + 1)
  {
    if siliconVersion1 {
      StaysOnSilicon1(c, flash, reg);
    } else if !Ahead(c, flash, Slot(c, reg) + 1) {
      GoesRound(c, flash, reg);
    } else if FallbackResult(c, flash, reg, false).Some? {
      FallbackAdvances(c, flash, reg);
    }
  }

  /** A flash of two slots, as many as the register names, with one valid image. */
  const FULL_FLASH := Layout(0, 7, 4, 2, 12, 16, 2, 32)

  /** The image in slot 0 has the ID 7, the words 10 and 20 and their checksum; the one in slot 1 has the
      same ID and words and a checksum that is off by one. */
  function OneImage(address: nat): nat {
    if address % 16 == 0 then 7 else if address % 16 == 4 then 10 else if address % 16 == 8 then 20
    else if address == 12 then 0xFFFF_FFFF - 30 else 0xFFFF_FFFF - 31
  }

  lemma OneImageSums()
    ensures SumOf(OneImage, 4, 2) == 30 && SumOf(OneImage, 20, 2) == 30
  {
    assert SumOf(OneImage, 4, 1) == 10 && SumOf(OneImage, 20, 1) == 10;
  }

  /** There a fallback from the only image finds that image again on newer silicon too. */
  lemma OnlyImageIsFoundAgain()
    ensures Sane(FULL_FLASH) && !Bounded(FULL_FLASH)
    ensures ValidSlot(FULL_FLASH, OneImage, 0) && !ValidSlot(FULL_FLASH, OneImage, 1)
    ensures !Unbootable(FULL_FLASH, OneImage, 0) && Unbootable(FULL_FLASH, OneImage, 1)
    ensures !GoesForward(FULL_FLASH, OneImage, 0, false)
  {
    OneImageSums();
    ValidSlotReads(FULL_FLASH, OneImage, 0);
    ValidSlotReads(FULL_FLASH, OneImage, 1);
    FallbackGoesForwardExactlyWhen(FULL_FLASH, OneImage, 0, false);
  }

  /** The fallback chain makes progress: as long as its fallbacks stay in the round, as they always do on a
      flash that ends below the last slot, each one that finds an image finds a later slot and none is
      tried twice. */
  lemma {:induction false} ChainClimbs(c: Layout, flash: nat -> nat, regs: seq<nat>, i: nat, j: nat)
    requires Sane(c) && Chain(c, flash, false, regs)
    requires 1 <= i <= j < |regs|
    requires forall k | i <= k < j :: Ahead(c, flash, Slot(c, regs[k]) + 1)
    ensures InFlash(c, Slot(c, regs[j])) && ValidSlot(c, flash, Slot(c, regs[j]))
    ensures Slot(c, regs[i]) + (j - i) <= Slot(c, regs[j]) && regs[j] / c.slots == regs[i] / c.slots
    decreases j
  {
    assert FallbackResult(c, flash, regs[j - 1], false) == Some(regs[j]);
    if i == j {
      FoundSlot(c, flash, Stepped(regs[j - 1], false));
    } else {
      ChainClimbs(c, flash, regs, i, j - 1);
      FallbackAdvances(c, flash, regs[j - 1]);
    }
  }

  /** So a run of such fallbacks finds at most as many images as there are slots in the flash. */
  lemma ChainIsShort(c: Layout, flash: nat -> nat, regs: seq<nat>)
    requires Sane(c) && Chain(c, flash, false, regs) && |regs| >= 2
    requires forall k | 1 <= k < |regs| - 1 :: Ahead(c, flash, Slot(c, regs[k]) + 1)
    ensures (|regs| - 2) * c.slotSize < c.flashSize
  {
    ChainClimbs(c, flash, regs, 1, |regs| - 1);
    BelowIsInFlash(c, |regs| - 2, Slot(c, regs[|regs| - 1]));
  }

  // ----- the loader ---------------------------------------------------------------------------------

  /** How FsblFallback leaves: through the fallback hook, by loading the image the register names, or
      by resetting the processor. */
  datatype Leave = Hook | Load | Reset

  class Loader {
    const c: Layout
    const flash: nat -> nat
    const siliconVersion1: bool
    var multiboot: nat
    var failMarked: bool

    constructor (c: Layout, flash: nat -> nat, siliconVersion1: bool, multiboot: nat)
      ensures this.c == c && this.flash == flash && this.siliconVersion1 == siliconVersion1
      ensures this.multiboot == multiboot && !failMarked
    {
      this.c, this.flash, this.siliconVersion1 := c, flash, siliconVersion1;
      this.multiboot, failMarked := multiboot, false;
    }

    method ImageCheckID(base: nat) returns (ok: bool)
      ensures ok <==> HasIdent(c, flash, base)
    {
      var id := flash((base + c.identAt) % U32);
      ok := id == c.ident;
    }

    method HeaderChecksum(base: nat) returns (ok: bool)
      ensures ok <==> HasSeal(c, flash, base)
    {
      var checksum := SumWords(base);
      AllOnes();
      checksum := Invert(checksum, 32);
      var stored := flash((base + c.checksumAt) % U32);
      ok := stored == checksum;
    }

    /** The loop of HeaderChecksum. */
    method SumWords(base: nat) returns (checksum: nat)
      ensures checksum == Total(HeaderWords(c, flash, base)) % U32
    {
      checksum := 0;
      var count := 0;
      ghost var words := HeaderWords(c, flash, base);
      while count < c.words
        invariant 0 <= count <= c.words
        invariant checksum == Total(words[..count]) % U32
      {
        var temp := flash((base + c.widthAt + count * 4) % U32);
        SumOneMore(words, count);
        checksum := (checksum + temp) % U32;
        count := count + 1;
      }
      assert words[..c.words] == words;
    }

    /** ID first, checksum only when the ID is right. */
    method CheckSlot(slot: nat) returns (ok: bool)
      ensures ok <==> ValidSlot(c, flash, slot)
    {
      ok := ImageCheckID(slot * c.slotSize);
      if ok {
        ok := HeaderChecksum(slot * c.slotSize);
      }
    }

    /** The loop of NextValidImageCheck on its local copy of the register. */
    method Search() returns (found: bool, reg: nat, ghost j: nat)
      requires Sane(c) && IsU32(multiboot)
      requires Bounded(c) || SomeValid(c, flash)
      ensures StopsAt(c, flash, multiboot, j) && reg == Probe(multiboot, j)
      ensures found <==> InFlash(c, Slot(c, reg))
    {
      ghost var end := EndsAtOrBefore(c, flash, multiboot);
      j, reg, found := 0, multiboot, false;
      ProbeZero(multiboot);
      while InFlash(c, Slot(c, reg))
        invariant reg == Probe(multiboot, j) && j <= end
        invariant forall i | 0 <= i < j :: GoesOn(c, flash, multiboot, i)
        decreases end - j
      {
        found := CheckSlot(Slot(c, reg));
        if found {
          return;
        }
        assert GoesOn(c, flash, multiboot, j);
        ProbeNext(multiboot, j);
        reg := (reg + 1) % U32;
        j := j + 1;
      }
      found := false;
    }

    /** The search ends where it must, writes the register exactly when it finds an image, and what it
        writes is the specified result on every layout on which the loop ends. The slot found is not
        before the starting slot if and only if the search stays in its round. */
    method NextValidImageCheck() returns (ok: bool)
      requires Sane(c) && IsU32(multiboot)
      requires Bounded(c) || SomeValid(c, flash)
      modifies `multiboot
      ensures IsU32(multiboot)
      ensures SearchResult(c, flash, old(multiboot)) == if ok then Some(multiboot) else None
      ensures !ok ==> multiboot == old(multiboot)
      ensures Justified(c, flash, old(multiboot), if ok then Some(multiboot) else None)
      ensures ok ==> !Unbootable(c, flash, Slot(c, multiboot))
      ensures ok ==> forall s | Slot(c, old(multiboot)) <= s < Slot(c, multiboot) :: Unbootable(c, flash, s)
      ensures !ok ==> forall s | Slot(c, multiboot) <= s < c.slots && InFlash(c, s) :: Unbootable(c, flash, s)
      ensures ok ==> (Slot(c, old(multiboot)) <= Slot(c, multiboot) <==> Ahead(c, flash, Slot(c, old(multiboot))))
    {
      var found, reg, j := Search();
      SearchFinds(c, flash, multiboot, j);
      ResultIsJustified(c, flash, multiboot);
      if found {
        FoundSlot(c, flash, multiboot);
        multiboot := reg;
      }
      ok := found;
    }

    method UpdateMultiBootRegister()
      modifies `multiboot
      ensures multiboot == Stepped(old(multiboot), siliconVersion1)
    {
      if !siliconVersion1 {
        multiboot := (multiboot + 1) % U32;
      }
    }

    /** FsblFallback. The hook does not return. `fallbackMode` says that the boot mode is one of QSPI,
        NAND and NOR, `aesFuse` that the AES key comes from the fuses, `initialised` that the system
        was initialised and `fabric` that the fabric could be cleaned. */
    method FsblFallback(fallbackMode: bool, aesFuse: bool, initialised: bool, fabric: bool) returns (leave: Leave)
      requires Sane(c) && IsU32(multiboot)
      requires Bounded(c) || SomeValid(c, flash)
      modifies `multiboot, `failMarked
      ensures leave == Reset <==> fallbackMode && !aesFuse
      ensures leave == Load ==> fallbackMode && aesFuse && initialised && fabric
      ensures fallbackMode && aesFuse && initialised && fabric ==>
                FallbackResult(c, flash, old(multiboot), siliconVersion1)
                == if leave == Load then Some(multiboot) else None
      ensures leave != Load ==>
                multiboot == if fallbackMode then Stepped(old(multiboot), siliconVersion1) else old(multiboot)
      ensures failMarked == (old(failMarked) || fallbackMode)
    {
      if !fallbackMode {
        return Hook;
      }
      UpdateMultiBootRegister();
      failMarked := true;
      if aesFuse {
        if !initialised || !fabric {
          return Hook;
        }
        var found := NextValidImageCheck();
        return if found then Load else Hook;
      }
      return Reset;
    }
  }
}
