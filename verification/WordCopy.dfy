/** memset and memmove of string.c over one byte memory: the word-at-a-time forms agree with the
    byte-at-a-time meaning for every overlap and alignment. An address is an index of `mem`; every
    double-word access requires an address that is a multiple of 8. */
module WordCopy {
  import opened Basics

  datatype Byte = B(v: bv8)

  /** i + 8 in a 32-bit unsigned int. */
  function PlusEight(i: nat): nat {
    (i + 8) % U32
  }

  // ----- double words ---------------------------------------------------------------------------

  /** Byte number k of a double word in memory order (little-endian). */
  function ByteOf(w: bv64, k: int): Byte
    requires 0 <= k < 8
  {
    match k
    case 0 => B((w & 0xff) as bv8)
    case 1 => B(((w >> 8) & 0xff) as bv8)
    case 2 => B(((w >> 16) & 0xff) as bv8)
    case 3 => B(((w >> 24) & 0xff) as bv8)
    case 4 => B(((w >> 32) & 0xff) as bv8)
    case 5 => B(((w >> 40) & 0xff) as bv8)
    case 6 => B(((w >> 48) & 0xff) as bv8)
    case _ => B(((w >> 56) & 0xff) as bv8)
  }

  function Bytes(w: bv64): (b: seq<Byte>)
    ensures |b| == 8
  {
    seq(8, k requires 0 <= k < 8 => ByteOf(w, k))
  }

  function Word(b0: bv8, b1: bv8, b2: bv8, b3: bv8, b4: bv8, b5: bv8, b6: bv8, b7: bv8): bv64 {
    (b0 as bv64) | ((b1 as bv64) << 8) | ((b2 as bv64) << 16) | ((b3 as bv64) << 24)
    | ((b4 as bv64) << 32) | ((b5 as bv64) << 40) | ((b6 as bv64) << 48) | ((b7 as bv64) << 56)
  }

  lemma RawBytes(b0: bv8, b1: bv8, b2: bv8, b3: bv8, b4: bv8, b5: bv8, b6: bv8, b7: bv8, w: bv64)
    requires w == Word(b0, b1, b2, b3, b4, b5, b6, b7)
    ensures (w & 0xff) as bv8 == b0 && ((w >> 8) & 0xff) as bv8 == b1
    ensures ((w >> 16) & 0xff) as bv8 == b2 && ((w >> 24) & 0xff) as bv8 == b3
    ensures ((w >> 32) & 0xff) as bv8 == b4 && ((w >> 40) & 0xff) as bv8 == b5
    ensures ((w >> 48) & 0xff) as bv8 == b6 && ((w >> 56) & 0xff) as bv8 == b7
  {
  }

  /** A loaded double word consists of the bytes it was loaded from. */
  lemma WordBytes(b: seq<Byte>, w: bv64)
    requires |b| == 8
    requires w == Word(b[0].v, b[1].v, b[2].v, b[3].v, b[4].v, b[5].v, b[6].v, b[7].v)
    ensures Bytes(w) == b
  {
    RawBytes(b[0].v, b[1].v, b[2].v, b[3].v, b[4].v, b[5].v, b[6].v, b[7].v, w);
    forall k | 0 <= k < 8
      ensures Bytes(w)[k] == b[k]
    {
    }
  }

  function Doubled(c: Byte): bv64 {
    var w0 := c.v as bv64;
    var w1 := w0 | (w0 << 8);
    var w2 := w1 | (w1 << 16);
    w2 | (w2 << 32)
  }

  /** Doubling the byte three times fills the word with copies of it. */
  lemma DoubledBytes(c: Byte)
    ensures Bytes(Doubled(c)) == Fill(c, 8)
  {
    forall k | 0 <= k < 8
      ensures Bytes(Doubled(c))[k] == c
    {
    }
  }

  method LoadWord(mem: array<Byte>, a: nat) returns (w: bv64)
    requires a % 8 == 0 && a + 8 <= mem.Length
    ensures Bytes(w) == mem[..][a..a + 8]
  {
    var b := mem[a..a + 8];
    assert b == mem[..][a..a + 8];
    w := Word(b[0].v, b[1].v, b[2].v, b[3].v, b[4].v, b[5].v, b[6].v, b[7].v);
    WordBytes(b, w);
  }

  method StoreWord(mem: array<Byte>, a: nat, w: bv64)
    requires a % 8 == 0 && a + 8 <= mem.Length
    modifies mem
    ensures mem[..] == Splice(old(mem[..]), a, Bytes(w))
  {
    var b := Bytes(w);
    forall k | 0 <= k < 8 {
      mem[a + k] := b[k];
    }
  }

  // ----- what the two functions mean --------------------------------------------------------------

  /** `s` with `data` written over it from position `at` on. */
  function Splice(s: seq<Byte>, at: nat, data: seq<Byte>): (r: seq<Byte>)
    requires at + |data| <= |s|
    ensures |r| == |s|
    ensures forall k | 0 <= k < |s| :: r[k] == if at <= k < at + |data| then data[k - at] else s[k]
  {
    s[..at] + data + s[at + |data|..]
  }

  function Fill(c: Byte, n: nat): (r: seq<Byte>)
    ensures |r| == n && forall k | 0 <= k < n :: r[k] == c
  {
    seq(n, _ => c)
  }

  lemma SpliceMore(s: seq<Byte>, at: nat, data: seq<Byte>, more: seq<Byte>)
    requires at + |data| + |more| <= |s|
    ensures Splice(Splice(s, at, data), at + |data|, more) == Splice(s, at, data + more)
  {
  }

  // ----- memset -----------------------------------------------------------------------------------

  /** The low byte of an int, which is what an assignment to char keeps. */
  function LowByte(c: bv32): Byte {
    B((c & 0xff) as bv8)
  }

  /** That is the int modulo 256. */
  lemma LowByteIs(c: bv32)
    ensures LowByte(c).v as bv32 == c % 256
  {
  }

  /** How many bytes lie between an address and the next multiple of 8. */
  function Phase(a: nat): nat {
    (8 - a % 8) % 8
  }

  /** Up to the bound on n, i + 8 fits a uint whenever the loop can see it. */
  lemma NoWrap(i: nat, done: nat, n: nat)
    requires done < 8 && done <= i <= n && (i - done) % 8 == 0
    requires n < U32 - 8 + done && n < U32
    ensures PlusEight(i) == i + 8
  {
    assert i == done + 8 * ((i - done) / 8);
  }

  /** memset sets exactly n bytes, for every address and every int c. The uint index cannot wrap, and
      the loop therefore ends, below the bound on n. */
  method Memset(mem: array<Byte>, dst: nat, c: bv32, n: nat)
    requires dst + n <= mem.Length && n < U32
    requires n < U32 - 8 + Phase(dst)
    modifies mem
    ensures mem[..] == Splice(old(mem[..]), dst, Fill(LowByte(c), n))
  {
    SetBytes(mem, dst, LowByte(c), n);
  }

  method SetBytes(mem: array<Byte>, dst: nat, c: Byte, n: nat)
    requires dst + n <= mem.Length && n < U32
    requires n < U32 - 8 + Phase(dst)
    modifies mem
    ensures mem[..] == Splice(old(mem[..]), dst, Fill(c, n))
  {
    ghost var start := mem[..];
    assert start == Splice(start, dst, Fill(c, 0));
    var i := 0;
    if n >= 16 {
      i := SetToAlignment(mem, dst, c);
      i := SetWords(mem, dst, c, n, i, start);
    }
    SetRest(mem, dst, c, n, i, start);
  }

  /** The last loop of memset: single bytes. */
  method SetRest(mem: array<Byte>, dst: nat, c: Byte, n: nat, done: nat, ghost start: seq<Byte>)
    requires dst + n <= mem.Length == |start| && done <= n
    requires mem[..] == Splice(start, dst, Fill(c, done))
    modifies mem
    ensures mem[..] == Splice(start, dst, Fill(c, n))
  {
    var i := done;
    while i < n
      invariant i <= n
      invariant mem[..] == Splice(start, dst, Fill(c, i))
    {
      SetByte(mem, dst, c, i, start);
      i := i + 1;
    }
  }

  /** One byte of the fill. */
  method SetByte(mem: array<Byte>, dst: nat, c: Byte, i: nat, ghost start: seq<Byte>)
    requires dst + i < mem.Length == |start| && mem[..] == Splice(start, dst, Fill(c, i))
    modifies mem
    ensures mem[..] == Splice(start, dst, Fill(c, i + 1))
  {
    mem[dst + i] := c;
  }

  /** The first loop of memset: single bytes up to the first multiple of 8. */
  method SetToAlignment(mem: array<Byte>, dst: nat, c: Byte) returns (i: nat)
    requires dst + 8 <= mem.Length
    modifies mem
    ensures i == Phase(dst) && i < 8 && (dst + i) % 8 == 0
    ensures mem[..] == Splice(old(mem[..]), dst, Fill(c, i))
  {
    ghost var start := mem[..];
    i := 0;
    assert start == Splice(start, dst, Fill(c, 0));
    while (dst + i) % 8 != 0
      invariant i <= Phase(dst)
      invariant mem[..] == Splice(start, dst, Fill(c, i))
      decreases Phase(dst) - i
    {
      StillMisaligned(dst, i);
      SetByte(mem, dst, c, i, start);
      i := i + 1;
    }
    PhaseReached(dst, i);
  }

  /** The second loop of memset: double words while another one fits. */
  method SetWords(mem: array<Byte>, dst: nat, c: Byte, n: nat, done: nat, ghost start: seq<Byte>) returns (i: nat)
    requires dst + n <= mem.Length == |start| && done <= n < U32 - 8 + done && done < 8
    requires (dst + done) % 8 == 0 && n < U32
    requires mem[..] == Splice(start, dst, Fill(c, done))
    modifies mem
    ensures i <= n && mem[..] == Splice(start, dst, Fill(c, i))
  {
    var word := Doubled(c);
    DoubledBytes(c);
    i := done;
    while PlusEight(i) <= n
      invariant i <= n && (dst + i) % 8 == 0 && (i - done) % 8 == 0
      invariant mem[..] == Splice(start, dst, Fill(c, i))
      decreases n - i
    {
      NoWrap(i, done, n);
      SetWord(mem, dst, c, i, word, start);
      i := i + 8;
    }
  }

  /** The byte index after j rounds of the double-word loop that started at i = phase. */
  function IndexAfter(phase: nat, j: nat): nat {
    (phase + 8 * j) % U32
  }

  /** The bound on n is exact: from 16 bytes on, the double-word loop of memset ends if and only if
      n is below it. At the bound the index wraps and the guard never fails again. */
  lemma MemsetEndsExactlyBelowTheBound(dst: nat, n: nat)
    requires 16 <= n < U32
    ensures (exists j: nat :: PlusEight(IndexAfter(Phase(dst), j)) > n) <==> n < U32 - 8 + Phase(dst)
  {
    var phase := Phase(dst);
    if n < U32 - 8 + phase {
      var j: nat := U32 / 8 - 2;
      assert IndexAfter(phase, j) == U32 - 16 + phase;
      assert PlusEight(IndexAfter(phase, j)) > n;
    } else {
      forall j: nat
        ensures PlusEight(IndexAfter(phase, j)) <= n
      {
        IndexKeepsPhase(phase, j);
      }
    }
  }

  lemma IndexKeepsPhase(phase: nat, j: nat)
    requires phase < 8
    ensures IndexAfter(phase, j) % 8 == phase
    ensures PlusEight(IndexAfter(phase, j)) <= U32 - 8 + phase
  {
    var i := IndexAfter(phase, j);
    assert phase + 8 * j == U32 * ((phase + 8 * j) / U32) + i;
    assert i == phase + 8 * (j - (U32 / 8) * ((phase + 8 * j) / U32));
  }

  /** One store of the word. */
  method SetWord(mem: array<Byte>, dst: nat, c: Byte, i: nat, word: bv64, ghost start: seq<Byte>)
    requires dst + i + 8 <= mem.Length == |start| && (dst + i) % 8 == 0 && Bytes(word) == Fill(c, 8)
    requires mem[..] == Splice(start, dst, Fill(c, i))
    modifies mem
    ensures mem[..] == Splice(start, dst, Fill(c, i + 8))
  {
    StoreWord(mem, dst + i, word);
    SpliceMore(start, dst, Fill(c, i), Fill(c, 8));
    assert Fill(c, i) + Fill(c, 8) == Fill(c, i + 8);
  }

  // ----- memmove ----------------------------------------------------------------------------------

  /** memmove leaves in the destination the bytes that the source held before the call, and every
      other byte as it was, whatever the overlap. */
  method Memmove(mem: array<Byte>, dst: nat, src: nat, n: nat)
    requires dst + n <= mem.Length && src + n <= mem.Length
    modifies mem
    ensures mem[..] == Splice(old(mem[..]), dst, old(mem[src..src + n]))
  {
    if src < dst && src + n > dst {
      MoveBackwards(mem, dst, src, n);
      return;
    }
    ghost var start := mem[..];
    NothingMoved(start, dst, src);
    var i := 0;
    if n >= 16 && src % 8 == dst % 8 {
      i := MoveToAlignment(mem, dst, src, n, start);
      i := MoveWords(mem, dst, src, n, i, start);
    }
    MoveRest(mem, dst, src, n, i, start);
  }

  lemma NothingMoved(start: seq<Byte>, dst: nat, src: nat)
    requires dst <= |start| && src <= |start|
    ensures Moved(start, start, dst, src, 0)
  {
  }

  /** The first i bytes have been moved. */
  predicate Moved(now: seq<Byte>, start: seq<Byte>, dst: nat, src: nat, i: nat)
    requires dst + i <= |start| && src + i <= |start|
  {
    now == Splice(start, dst, start[src..src + i])
  }

  /** Going up, what is still to be read has not been written yet. */
  predicate Forward(dst: nat, src: nat, n: nat) {
    dst <= src || src + n <= dst
  }

  lemma MovedByte(now: seq<Byte>, start: seq<Byte>, dst: nat, src: nat, n: nat, i: nat)
    requires Forward(dst, src, n) && i < n && dst + n <= |start| && src + n <= |start|
    requires Moved(now, start, dst, src, i)
    ensures Moved(now[dst + i := now[src + i]], start, dst, src, i + 1)
  {
  }

  /** Overlapping ranges are safe for double words too: the word is loaded before any byte at or above
      it is overwritten. */
  lemma MovedWord(now: seq<Byte>, start: seq<Byte>, dst: nat, src: nat, n: nat, i: nat)
    requires Forward(dst, src, n) && i + 8 <= n && dst + n <= |start| && src + n <= |start|
    requires Moved(now, start, dst, src, i)
    ensures Moved(Splice(now, dst + i, now[src + i..src + i + 8]), start, dst, src, i + 8)
  {
    var w := now[src + i..src + i + 8];
    assert w == start[src + i..src + i + 8];
    SpliceMore(start, dst, start[src..src + i], w);
    assert start[src..src + i] + w == start[src..src + (i + 8)];
  }

  /** One byte of a copy going up. */
  method MoveByte(mem: array<Byte>, dst: nat, src: nat, n: nat, i: nat, ghost start: seq<Byte>)
    requires dst + n <= mem.Length && src + n <= mem.Length == |start| && i < n && Forward(dst, src, n)
    requires Moved(mem[..], start, dst, src, i)
    modifies mem
    ensures Moved(mem[..], start, dst, src, i + 1)
  {
    MovedByte(mem[..], start, dst, src, n, i);
    mem[dst + i] := mem[src + i];
  }

  /** One double word of a copy going up. */
  method MoveWord(mem: array<Byte>, dst: nat, src: nat, n: nat, i: nat, ghost start: seq<Byte>)
    requires dst + n <= mem.Length && src + n <= mem.Length == |start| && i + 8 <= n && Forward(dst, src, n)
    requires (dst + i) % 8 == 0 && src % 8 == dst % 8
    requires Moved(mem[..], start, dst, src, i)
    modifies mem
    ensures Moved(mem[..], start, dst, src, i + 8)
  {
    ghost var now := mem[..];
    SamePhase(dst, src, i);
    CopyWord(mem, dst + i, src + i);
    ghost var next := mem[..];
    assert next == Splice(now, dst + i, now[src + i..src + i + 8]);
    MovedWord(now, start, dst, src, n, i);
    assert Moved(next, start, dst, src, i + 8);
  }

  /** A double word is loaded as a whole before it is stored. */
  method CopyWord(mem: array<Byte>, to: nat, from: nat)
    requires to % 8 == 0 && from % 8 == 0 && to + 8 <= mem.Length && from + 8 <= mem.Length
    modifies mem
    ensures mem[..] == Splice(old(mem[..]), to, old(mem[..])[from..from + 8])
  {
    var w := LoadWord(mem, from);
    StoreWord(mem, to, w);
  }

  /** With equal phases both addresses reach a multiple of 8 together. */
  lemma SamePhase(dst: nat, src: nat, i: nat)
    requires (dst + i) % 8 == 0 && src % 8 == dst % 8
    ensures (src + i) % 8 == 0
  {
  }

  /** The bytes from number k on have been moved. */
  predicate MovedFrom(now: seq<Byte>, start: seq<Byte>, dst: nat, src: nat, n: nat, k: nat)
    requires k <= n && dst + n <= |start| && src + n <= |start|
  {
    now == Splice(start, dst + k, start[src + k..src + n])
  }

  lemma NothingMovedBack(start: seq<Byte>, dst: nat, src: nat, n: nat)
    requires dst + n <= |start| && src + n <= |start|
    ensures MovedFrom(start, start, dst, src, n, n)
  {
  }

  /** Going down over an overlap, the byte to be read next has not been written yet. */
  lemma MovedBack(now: seq<Byte>, start: seq<Byte>, dst: nat, src: nat, n: nat, k: nat)
    requires src < dst && dst + n <= |start| && k < n
    requires MovedFrom(now, start, dst, src, n, k + 1)
    ensures MovedFrom(now[dst + k := now[src + k]], start, dst, src, n, k)
  {
  }

  /** One byte of a copy going down. */
  method MoveByteBack(mem: array<Byte>, dst: nat, src: nat, n: nat, k: nat, ghost start: seq<Byte>)
    requires src < dst && dst + n <= mem.Length == |start| && k < n
    requires MovedFrom(mem[..], start, dst, src, n, k + 1)
    modifies mem
    ensures MovedFrom(mem[..], start, dst, src, n, k)
  {
    MovedBack(mem[..], start, dst, src, n, k);
    mem[dst + k] := mem[src + k];
  }

  method MoveBackwards(mem: array<Byte>, dst: nat, src: nat, n: nat)
    requires src < dst && dst + n <= mem.Length
    modifies mem
    ensures Moved(mem[..], old(mem[..]), dst, src, n)
  {
    ghost var start := mem[..];
    var k := n;
    NothingMovedBack(start, dst, src, n);
    while k > 0
      invariant 0 <= k <= n
      invariant MovedFrom(mem[..], start, dst, src, n, k)
    {
      k := k - 1;
      MoveByteBack(mem, dst, src, n, k, start);
    }
  }

  method MoveToAlignment(mem: array<Byte>, dst: nat, src: nat, n: nat, ghost start: seq<Byte>) returns (i: nat)
    requires dst + n <= mem.Length && src + n <= mem.Length == |start| && n >= 16 && Forward(dst, src, n)
    requires Moved(mem[..], start, dst, src, 0)
    modifies mem
    ensures i <= n && (dst + i) % 8 == 0 && Moved(mem[..], start, dst, src, i)
  {
    i := 0;
    while (dst + i) % 8 != 0 && i < n
      invariant i <= Phase(dst)
      invariant Moved(mem[..], start, dst, src, i)
      decreases n - i
    {
      StillMisaligned(dst, i);
      MoveByte(mem, dst, src, n, i, start);
      i := i + 1;
    }
    PhaseReached(dst, i);
  }

  lemma StillMisaligned(dst: nat, i: nat)
    requires i <= Phase(dst) && (dst + i) % 8 != 0
    ensures i < Phase(dst) < 8
  {
  }

  lemma PhaseReached(dst: nat, i: nat)
    requires i <= Phase(dst)
    ensures i < 16 && ((dst + i) % 8 == 0 || i < Phase(dst))
  {
  }

  method MoveRest(mem: array<Byte>, dst: nat, src: nat, n: nat, done: nat, ghost start: seq<Byte>)
    requires dst + n <= mem.Length && src + n <= mem.Length == |start| && done <= n && Forward(dst, src, n)
    requires Moved(mem[..], start, dst, src, done)
    modifies mem
    ensures Moved(mem[..], start, dst, src, n)
  {
    var i := done;
    while i < n
      invariant i <= n
      invariant Moved(mem[..], start, dst, src, i)
    {
      MoveByte(mem, dst, src, n, i, start);
      i := i + 1;
    }
  }

  method MoveWords(mem: array<Byte>, dst: nat, src: nat, n: nat, done: nat, ghost start: seq<Byte>) returns (i: nat)
    requires dst + n <= mem.Length && src + n <= mem.Length == |start| && done <= n && Forward(dst, src, n)
    requires (dst + done) % 8 == 0 && src % 8 == dst % 8
    requires Moved(mem[..], start, dst, src, done)
    modifies mem
    ensures i <= n && Moved(mem[..], start, dst, src, i)
  {
    i := done;
    while n - i >= 8
      invariant i <= n && (dst + i) % 8 == 0 && Moved(mem[..], start, dst, src, i)
    {
      MoveWord(mem, dst, src, n, i, start);
      i := i + 8;
    }
  }
}
