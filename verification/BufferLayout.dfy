/** Where the data of the cached buffers lies: with the 64-byte alignment of the data field every element of
    bcache.buf can be a DMA target; upstream's layout makes that true of one buffer in eight. */
module BufferLayout {
  import opened BlockDevice

  /** The fields of struct buf before data end at byte 88 and need 8-byte alignment. */
  const HEADER: nat := 88
  const WORD: nat := 8

  function RoundUp(n: nat, align: nat): nat
    requires align > 0
  {
    n + (align - n % align) % align
  }

  /** The offset of data when the field is aligned so, and the size of the struct: the elements of an array
      are this far apart. */
  function DataOffset(header: nat, align: nat): nat
    requires align > 0
  {
    RoundUp(header, align)
  }

  function Stride(header: nat, align: nat): nat
    requires align > 0
  {
    RoundUp(DataOffset(header, align) + BSIZE, align)
  }

  /** Where buffer k of the array has its data. */
  function DataAddress(base: nat, stride: nat, offset: nat, k: nat): nat {
    base + k * stride + offset
  }

  /** Buffer k can be a DMA target. */
  predicate Aligned(base: nat, stride: nat, offset: nat, k: nat) {
    DataAddress(base, stride, offset, k) % CHUNK == 0
  }

  lemma NextBuffer(base: nat, stride: nat, offset: nat, k: nat)
    ensures DataAddress(base, stride, offset, k + 1) == DataAddress(base, stride, offset, k) + stride
  {
    assert (k + 1) * stride == k * stride + stride;
  }

  lemma SumOfMultiples(a: nat, b: nat)
    requires a % CHUNK == 0 && b % CHUNK == 0
    ensures (a + b) % CHUNK == 0
  {
  }

  lemma {:induction false} AlignedThroughout(base: nat, stride: nat, offset: nat, k: nat)
    requires base % CHUNK == 0 && stride % CHUNK == 0 && offset % CHUNK == 0
    ensures Aligned(base, stride, offset, k)
  {
    if k == 0 {
      SumOfMultiples(base, offset);
    } else {
      AlignedThroughout(base, stride, offset, k - 1);
      NextBuffer(base, stride, offset, k - 1);
      SumOfMultiples(DataAddress(base, stride, offset, k - 1), stride);
    }
  }

  /** The numbers of upstream's layout */
  lemma UpstreamLayout()
    ensures DataOffset(HEADER, WORD) == 88 && Stride(HEADER, WORD) == 1112
  {
  }

  /** and of the port's. */
  lemma PortLayout()
    ensures DataOffset(HEADER, CHUNK) == 128 && Stride(HEADER, CHUNK) == 1152
  {
  }

  lemma RoundUpToChunk(n: nat)
    ensures RoundUp(n, CHUNK) % CHUNK == 0 && n <= RoundUp(n, CHUNK)
  {
  }

  /** With the attribute, whatever precedes data in the struct, every element of an array of any length
      has its data 64-byte aligned, and the data of different elements does not overlap. */
  lemma EveryBufferIsAligned(base: nat, header: nat, k: nat)
    requires base % CHUNK == 0
    ensures var stride, offset := Stride(header, CHUNK), DataOffset(header, CHUNK);
            && Aligned(base, stride, offset, k)
            && DataAddress(base, stride, offset, k) + BSIZE <= DataAddress(base, stride, offset, k + 1)
  {
    RoundUpToChunk(header);
    RoundUpToChunk(DataOffset(header, CHUNK) + BSIZE);
    AlignedThroughout(base, Stride(header, CHUNK), DataOffset(header, CHUNK), k);
    NextBuffer(base, Stride(header, CHUNK), DataOffset(header, CHUNK), k);
  }

  /** Without it, in an array that is 8-byte aligned as its pointers demand, the aligned buffers are one
      residue class modulo 8: 1112 is 3 * 8 modulo 64, and 3 is invertible modulo 8. */
  lemma UpstreamAlignsOneClass(base: nat, k: nat)
    requires base % WORD == 0
    ensures Aligned(base, Stride(HEADER, WORD), DataOffset(HEADER, WORD), k)
       <==> k % 8 == (5 * (base / 8) + 7) % 8
  {
    UpstreamLayout();
    var e := base / 8;
    var m := e % 8 + 3 * (k % 8) + 3;
    assert e + 139 * k + 11 == m + 8 * (e / 8 + 139 * (k / 8) + 17 * (k % 8) + 1);
    Shift(m, e / 8 + 139 * (k / 8) + 17 * (k % 8) + 1);
    assert DataAddress(base, 1112, 88, k) == 8 * (e + 139 * k + 11);
    Eights(e + 139 * k + 11);
    Invert(e % 8, k % 8);
    assert 5 * e + 7 == 5 * (e % 8) + 7 + 8 * (5 * (e / 8));
    Shift(5 * (e % 8) + 7, 5 * (e / 8));
  }

  lemma Shift(m: nat, q: nat)
    ensures (m + 8 * q) % 8 == m % 8
  {
  }

  lemma Eights(m: nat)
    ensures 8 * m % CHUNK == 0 <==> m % 8 == 0
  {
  }

  lemma Invert(e: nat, r: nat)
    requires e < 8 && r < 8
    ensures (e + 3 * r + 3) % 8 == 0 <==> r == (5 * e + 7) % 8
  {
  }

  /** So of any eight consecutive buffers exactly one is aligned. */
  lemma OneBufferInEightIsAligned(base: nat, k: nat) returns (i: nat)
    requires base % WORD == 0
    ensures k <= i < k + 8
    ensures forall n: nat | k <= n < k + 8 ::
              Aligned(base, Stride(HEADER, WORD), DataOffset(HEADER, WORD), n) <==> n == i
  {
    var c := (5 * (base / 8) + 7) % 8;
    i := OneOfEight(k, c);
    forall n: nat | k <= n < k + 8
      ensures Aligned(base, Stride(HEADER, WORD), DataOffset(HEADER, WORD), n) <==> n == i
    {
      UpstreamAlignsOneClass(base, n);
    }
  }

  lemma OneOfEight(k: nat, c: nat) returns (i: nat)
    requires c < 8
    ensures k <= i < k + 8 && forall n: nat | k <= n < k + 8 :: n % 8 == c <==> n == i
  {
    i := k + (c + 8 - k % 8) % 8;
  }

  // ----- The chunks of a transfer ------------------------------------------------------------------------

  /** Chunk c of a transfer to this address covers the byte. */
  predicate Covers(address: nat, c: nat, byte: nat) {
    address + CHUNK * c <= byte < address + CHUNK * (c + 1)
  }

  /** The sixteen chunks cover each of the 1024 bytes exactly once and no other byte; each is a legal
      64-byte Put exactly if the destination is aligned. */
  lemma ChunksCoverOnce(address: nat, byte: nat)
    ensures address <= byte < address + BSIZE ==>
              exists c :: 0 <= c < 16 && Covers(address, c, byte) && forall e: nat | Covers(address, e, byte) :: e == c
    ensures !(address <= byte < address + BSIZE) ==> forall c: nat | c < 16 :: !Covers(address, c, byte)
    ensures forall c: nat :: (address + CHUNK * c) % CHUNK == 0 <==> address % CHUNK == 0
  {
    if address <= byte < address + BSIZE {
      var c := (byte - address) / CHUNK;
      assert Covers(address, c, byte);
    }
  }
}
