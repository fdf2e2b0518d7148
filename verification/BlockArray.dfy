/** The disk as the file system means it: a plain array of blocks, one of which is read or written at a
    time. Over this array a block reads back what was written to it last. */
module BlockArray {
  import W = WordCopy
  import opened Basics
  import opened BlockDevice

  type Block = seq<Byte>

  /** The array and the memory of the machine. */
  datatype Store = Store(blocks: seq<Block>, mem: seq<Byte>)

  /** What the kernel does between and with the calls: its own stores, and block reads and writes. */
  datatype Request = Poke(at: nat, bytes: seq<Byte>) | Get(n: nat, data: nat) | Put(n: nat, data: nat)

  predicate InMemory(r: Request, size: nat) {
    match r
    case Poke(at, bytes) => at + |bytes| <= size
    case Get(_, data) => data + BSIZE <= size
    case Put(_, data) => data + BSIZE <= size
  }

  predicate WholeBlocks(s: Store) {
    forall b | b in s.blocks :: |b| == BSIZE
  }

  /** One atomic operation; false if the block number is out of range, which is a panic. */
  function Apply(s: Store, r: Request): (t: (Store, bool))
    requires WholeBlocks(s) && InMemory(r, |s.mem|)
    ensures WholeBlocks(t.0) && |t.0.mem| == |s.mem| && |t.0.blocks| == |s.blocks|
  {
    match r
    case Poke(at, bytes) => (s.(mem := W.Splice(s.mem, at, bytes)), true)
    case Get(n, data) => if n < |s.blocks| then (s.(mem := W.Splice(s.mem, data, s.blocks[n])), true) else (s, false)
    case Put(n, data) =>
      if n < |s.blocks| then (s.(blocks := s.blocks[n := s.mem[data..data + BSIZE]]), true) else (s, false)
  }

  predicate AllInMemory(rs: seq<Request>, size: nat) {
    forall i | 0 <= i < |rs| :: InMemory(rs[i], size)
  }

  /** A whole run, up to a panic. */
  function ApplyAll(s: Store, rs: seq<Request>): (r: (Store, bool))
    requires WholeBlocks(s) && AllInMemory(rs, |s.mem|)
    ensures WholeBlocks(r.0) && |r.0.mem| == |s.mem| && |r.0.blocks| == |s.blocks|
  {
    if rs == [] then (s, true)
    else
      var (before, ok) := ApplyAll(s, rs[..|rs| - 1]);
      if ok then Apply(before, rs[|rs| - 1]) else (before, false)
  }

  /** A block changes only by a Put to its own number. */
  lemma {:induction false} OnlyPutsChange(s: Store, rs: seq<Request>, n: nat)
    requires WholeBlocks(s) && AllInMemory(rs, |s.mem|) && n < |s.blocks|
    requires forall i | 0 <= i < |rs| :: !(rs[i].Put? && rs[i].n == n)
    ensures ApplyAll(s, rs).0.blocks[n] == s.blocks[n]
  {
    if rs != [] {
      OnlyPutsChange(s, rs[..|rs| - 1], n);
    }
  }

  /** Read your writes: after a Put to block n and anything but another Put to it, a Get brings the bytes
      the Put took from memory. */
  lemma ReadsBackTheLastPut(s: Store, n: nat, from: nat, rs: seq<Request>, to: nat)
    requires WholeBlocks(s) && n < |s.blocks| && InMemory(Put(n, from), |s.mem|) && InMemory(Get(n, to), |s.mem|)
    requires AllInMemory(rs, |s.mem|) && forall i | 0 <= i < |rs| :: !(rs[i].Put? && rs[i].n == n)
    ensures var before := ApplyAll(Apply(s, Put(n, from)).0, rs).0;
            Apply(before, Get(n, to)).0.mem[to..to + BSIZE] == s.mem[from..from + BSIZE]
  {
    var put := Apply(s, Put(n, from)).0;
    assert put.blocks[n] == s.mem[from..from + BSIZE];
    OnlyPutsChange(put, rs, n);
    GetBrings(ApplyAll(put, rs).0, n, to);
  }

  lemma GetBrings(s: Store, n: nat, to: nat)
    requires WholeBlocks(s) && n < |s.blocks| && InMemory(Get(n, to), |s.mem|)
    ensures Apply(s, Get(n, to)).0.mem[to..to + BSIZE] == s.blocks[n]
  {
  }

  // ----- The array on the disk -----------------------------------------------------------------------------

  /** The blocks a disk holds: block n is sectors 2n and 2n + 1. */
  function BlocksOf(disk: seq<Byte>): (r: seq<Block>)
    ensures |r| == |disk| / BSIZE
    ensures forall n | 0 <= n < |r| :: r[n] == disk[BSIZE * n..BSIZE * (n + 1)]
    ensures forall b | b in r :: |b| == BSIZE
  {
    seq(|disk| / BSIZE, n requires 0 <= n < |disk| / BSIZE => disk[BSIZE * n..BSIZE * (n + 1)])
  }

  function Abstract(d: Device): (s: Store)
    ensures WholeBlocks(s)
  {
    Store(BlocksOf(d.disk), d.mem)
  }

  /** Writing the bytes of one block changes that block and no other. */
  lemma PutOnDisk(disk: seq<Byte>, n: nat, data: Block)
    requires |data| == BSIZE && n < |disk| / BSIZE
    ensures BlocksOf(W.Splice(disk, BSIZE * n, data)) == BlocksOf(disk)[n := data]
  {
    var after := W.Splice(disk, BSIZE * n, data);
    forall m | 0 <= m < |disk| / BSIZE ensures BlocksOf(after)[m] == BlocksOf(disk)[n := data][m] {
      if m != n {
        OtherSlice(disk, n, data, m);
      }
    }
  }

  lemma OtherSlice(disk: seq<Byte>, n: nat, data: Block, m: nat)
    requires |data| == BSIZE && n < |disk| / BSIZE && m < |disk| / BSIZE && m != n
    ensures W.Splice(disk, BSIZE * n, data)[BSIZE * m..BSIZE * (m + 1)] == disk[BSIZE * m..BSIZE * (m + 1)]
  {
  }

  // ----- The range check of blkdev_rw ------------------------------------------------------------------------

  /** b->blockno * SECTORS_PER_BLOCK in uint32. */
  function OffsetOf(blockno: nat): nat {
    blockno * SECTORS_PER_BLOCK % U32
  }

  /** The block whose sectors a request for this block number addresses. */
  function ActsOn(blockno: nat): nat {
    blockno % 0x8000_0000
  }

  /** The check before the panic, in uint32. */
  predicate Rejects(blockno: nat, nsectors: nat) {
    nsectors != 0 && (OffsetOf(blockno) + SECTORS_PER_BLOCK) % U32 > nsectors
  }

  /** What the check is for. */
  predicate OutOfRange(blockno: nat, nsectors: nat) {
    blockno * SECTORS_PER_BLOCK + SECTORS_PER_BLOCK > nsectors
  }

  /** The 32-bit arithmetic wraps. */
  predicate Wraps(blockno: nat) {
    blockno * SECTORS_PER_BLOCK + SECTORS_PER_BLOCK >= U32
  }

  /** The check panics exactly on the blocks out of range, unless there is no backing store or the
      arithmetic wraps to something within it. Only block numbers from 2^31 - 1 on can wrap. */
  lemma CheckIsExactUnlessItWraps(blockno: nat, nsectors: nat)
    requires blockno < U32 && nsectors < U32
    ensures (Rejects(blockno, nsectors) <==> OutOfRange(blockno, nsectors))
       <==> nsectors != 0
            && !(Wraps(blockno) && (blockno * SECTORS_PER_BLOCK + SECTORS_PER_BLOCK) % U32 <= nsectors)
    ensures Wraps(blockno) <==> blockno >= 0x7fff_ffff
  {
    var end := blockno * SECTORS_PER_BLOCK + SECTORS_PER_BLOCK;
    assert (OffsetOf(blockno) + SECTORS_PER_BLOCK) % U32 == end % U32;
  }

  /** Block 2^31 - 1 passes the check of every disk. */
  lemma LastBlockPasses(nsectors: nat)
    requires nsectors < U32
    ensures !Rejects(0x7fff_ffff, nsectors) && OutOfRange(0x7fff_ffff, nsectors)
  {
    assert OffsetOf(0x7fff_ffff) == 0xffff_fffe;
  }

  /** Two block numbers address overlapping sectors exactly if they act on the same block: below 2^31,
      distinct blocks touch disjoint sectors. */
  lemma SectorsAreDisjoint(a: nat, b: nat)
    requires a < U32 && b < U32
    ensures (OffsetOf(a) < OffsetOf(b) + SECTORS_PER_BLOCK && OffsetOf(b) < OffsetOf(a) + SECTORS_PER_BLOCK)
       <==> ActsOn(a) == ActsOn(b)
  {
    OffsetIsTwice(a);
    OffsetIsTwice(b);
  }

  lemma OffsetIsTwice(blockno: nat)
    requires blockno < U32
    ensures OffsetOf(blockno) == 2 * ActsOn(blockno)
    ensures blockno < 0x8000_0000 ==> ActsOn(blockno) == blockno
  {
  }
}
