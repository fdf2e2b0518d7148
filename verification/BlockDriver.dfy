/** blkdev.c: the polling driver, with the device acting between any two of its register accesses. */
module BlockDriver {
  import W = WordCopy
  import opened Basics
  import opened BlockDevice
  import opened BlockArray

  datatype Registers = Registers(addr: nat, offset: nat, len: nat, write: bool)

  /** The fields of struct buf the driver uses; `data` is the address of the data array. */
  class Buf {
    const blockno: nat
    const data: nat
    var disk: int

    constructor (blockno: nat, data: nat, disk: int)
      ensures this.blockno == blockno && this.data == data && this.disk == disk
    {
      this.blockno, this.data, this.disk := blockno, data, disk;
    }
  }

  /** The job a read of `allocate` issues. */
  function JobOf(r: Registers, tag: nat, reach: nat): Job {
    Job(tag, r.addr, r.offset, r.len, r.write, reach, 0)
  }

  /** The trackers free to take a request. */
  function Free(trackers: nat, held: bool, d: Device): int {
    trackers - |d.jobs| - if held then |d.done| else 0
  }

  lemma {:induction false} RunConserves(d: Device, schedule: seq<nat>)
    ensures Outstanding(Run(d, schedule)) == Outstanding(d)
    decreases |schedule|
  {
    if schedule != [] {
      if schedule[0] < |d.jobs| {
        StepConserves(d, schedule[0]);
        RunConserves(Step(d, schedule[0]), schedule[1..]);
      } else {
        RunConserves(d, schedule[1..]);
      }
    }
  }

  /** Left alone, the device can finish everything in flight. */
  lemma {:induction false} AllFinish(d: Device) returns (schedule: seq<nat>)
    ensures Run(d, schedule).jobs == []
    decreases Work(d.jobs)
  {
    if d.jobs == [] {
      schedule := [];
    } else {
      StepWorks(d, 0);
      var rest := AllFinish(Step(d, 0));
      schedule := [0] + rest;
      assert schedule[1..] == rest;
    }
  }

  /** The wait for a tracker can end if and only if there are trackers and, where finished requests keep
      theirs until popped, fewer requests are outstanding than trackers. Otherwise no schedule of the
      device ends it. */
  lemma TrackerComesIffLive(trackers: nat, held: bool, d: Device)
    ensures (exists schedule :: Free(trackers, held, Run(d, schedule)) > 0)
       <==> trackers > 0 && (held ==> Outstanding(d) < trackers)
  {
    if trackers > 0 && (held ==> Outstanding(d) < trackers) {
      var schedule := AllFinish(d);
      RunConserves(d, schedule);
      assert Free(trackers, held, Run(d, schedule)) > 0;
    } else {
      forall schedule ensures Free(trackers, held, Run(d, schedule)) <= 0 {
        RunConserves(d, schedule);
      }
    }
  }

  class Driver {
    const trackers: nat
    /** Whether a finished request keeps its tracker until its tag is popped. */
    const held: bool
    /** The size of the backing store in sectors. */
    const nsectors: nat
    var dev: Device
    var regs: Registers
    /** blkdev_nsectors */
    var seen: nat

    constructor (trackers: nat, held: bool, dev: Device)
      requires trackers > 0
      ensures this.trackers == trackers && this.held == held && this.dev == dev
      ensures nsectors == |dev.disk| / SECTOR
    {
      this.trackers, this.held, this.dev := trackers, held, dev;
      nsectors := |dev.disk| / SECTOR;
      regs, seen := Registers(0, 0, 0, false), 0;
    }

    /** The driver can get a tracker sooner or later. */
    predicate Live()
      reads `dev
    {
      trackers > 0 && (held ==> Outstanding(dev) < trackers)
    }

    // ----- The device acts -----------------------------------------------------------------------------

    /** The sizes and the number of requests outstanding never change by themselves. */
    twostate predicate Kept()
      reads `dev
    {
      && Outstanding(dev) == Outstanding(old(dev)) && |dev.jobs| <= |old(dev).jobs|
      && |dev.mem| == |old(dev).mem| && |dev.disk| == |old(dev).disk|
    }

    /** One step of some request in flight. */
    method DeviceStep(ghost s: Start) returns (ghost i: nat)
      requires dev.jobs != []
      modifies `dev
      ensures dev == DrainStep(old(dev), Acts(i))
      ensures Kept() && Work(dev.jobs) < Work(old(dev).jobs)
      ensures Solo(s, old(dev)) ==> Solo(s, dev)
      ensures Lone(s.job.tag, old(dev)) ==> Lone(s.job.tag, dev)
    {
      var next: int := *;
      if next < 0 || next >= |dev.jobs| {
        next := 0;
      }
      StepConserves(dev, next);
      StepWorks(dev, next);
      if Solo(s, dev) {
        SoloAnyStep(s, dev, next);
      }
      if Lone(s.job.tag, dev) {
        LoneStep(s.job.tag, dev, next);
      }
      i := next;
      dev := Step(dev, next);
    }

    /** Any number of steps; at least one, if there is one to make, while the driver polls. */
    method DeviceTurns(polling: bool, ghost s: Start) returns (ghost acts: seq<Drained>)
      modifies `dev
      ensures dev == Drain(old(dev), acts)
      ensures Kept() && (old(dev).jobs == [] ==> dev == old(dev))
      ensures polling && old(dev).jobs != [] ==> Work(dev.jobs) < Work(old(dev).jobs)
      ensures Solo(s, old(dev)) ==> Solo(s, dev)
      ensures Lone(s.job.tag, old(dev)) ==> Lone(s.job.tag, dev)
    {
      acts := [];
      var steps: nat := *;
      if polling && steps == 0 {
        steps := 1;
      }
      ghost var first := steps > 0;
      while steps > 0 && dev.jobs != []
        invariant Kept() && (old(dev).jobs == [] ==> dev == old(dev))
        invariant dev == old(dev) || Work(dev.jobs) < Work(old(dev).jobs)
        invariant steps == 0 ==> !first || Work(dev.jobs) < Work(old(dev).jobs)
        invariant dev == Drain(old(dev), acts)
        invariant Solo(s, old(dev)) ==> Solo(s, dev)
        invariant Lone(s.job.tag, old(dev)) ==> Lone(s.job.tag, dev)
        decreases steps
      {
        ghost var i := DeviceStep(s);
        DrainMore(old(dev), acts, Acts(i));
        acts := acts + [Acts(i)];
        steps := steps - 1;
      }
    }

    // ----- Registers with side effects -------------------------------------------------------------------

    function Nallocate(): int
      reads `dev
    {
      Free(trackers, held, dev)
    }

    /** Reading `allocate` issues the request in the registers; how much of a transfer with a misaligned
        buffer arrives is the device's choice. */
    method Allocate() returns (tag: nat, ghost reach: nat)
      requires Nallocate() > 0 && regs.len > 0
      modifies `dev
      ensures dev == Issue(old(dev), JobOf(regs, tag, reach)) && Reaches(JobOf(regs, tag, reach))
    {
      tag := *;
      var arrives: nat := *;
      var all := regs.len * (SECTOR / CHUNK);
      if regs.addr % CHUNK == 0 {
        arrives := all;
      } else if arrives >= all {
        arrives := 0;
      }
      reach := arrives;
      dev := Issue(dev, JobOf(regs, tag, arrives));
    }

    /** Reading `complete` pops one of the queued tags. */
    method Complete() returns (tag: nat, ghost i: nat)
      requires |dev.done| > 0
      modifies `dev
      ensures i < |old(dev).done| && tag == old(dev).done[i] && dev == Pop(old(dev), i)
    {
      var next: int := *;
      if next < 0 || next >= |dev.done| {
        next := 0;
      }
      tag, i := dev.done[next], next;
      dev := Pop(dev, next);
    }

    // ----- blkdev_init -----------------------------------------------------------------------------------

    /** blkdev_init: the drain loop ends, having popped at most what was outstanding, and what is left is
        in flight. Nothing is left if nothing was in flight, and the driver is ready if there is a disk. */
    method Init() returns (stale: nat, ghost steps: seq<Drained>)
      modifies `dev, `seen
      ensures seen == nsectors
      ensures dev == Drain(old(dev), steps)
      ensures stale + Outstanding(dev) == Outstanding(old(dev)) && dev.done == []
      ensures |dev.mem| == |old(dev).mem| && |dev.disk| == |old(dev).disk|
      ensures old(dev).jobs == [] ==> Quiet(dev) && dev.mem == old(dev).mem && dev.disk == old(dev).disk
    {
      seen := nsectors;
      stale := 0;
      ghost var any := Start(JobOf(regs, 0, 0), [], []);
      steps := DeviceTurns(false, any);
      while dev.done != []
        invariant seen == nsectors && stale + Outstanding(dev) == Outstanding(old(dev))
        invariant dev == Drain(old(dev), steps)
        invariant |dev.mem| == |old(dev).mem| && |dev.disk| == |old(dev).disk|
        invariant old(dev).jobs == [] ==> dev.jobs == [] && dev.mem == old(dev).mem && dev.disk == old(dev).disk
        decreases Outstanding(dev)
      {
        ghost var more := Discard(any);
        DrainAppend(old(dev), steps, more);
        steps := steps + more;
        stale := stale + 1;
      }
    }

    /** One round of the drain loop, and what the device does until the next look. */
    method Discard(ghost any: Start) returns (ghost steps: seq<Drained>)
      requires |dev.done| > 0
      modifies `dev
      ensures dev == Drain(old(dev), steps) && Outstanding(dev) == Outstanding(old(dev)) - 1
      ensures |dev.mem| == |old(dev).mem| && |dev.disk| == |old(dev).disk|
      ensures old(dev).jobs == [] ==> dev.jobs == [] && dev.mem == old(dev).mem && dev.disk == old(dev).disk
    {
      var tag;
      ghost var i;
      tag, i := Complete();
      assert Drain(old(dev), []) == old(dev);
      DrainMore(old(dev), [], Pops(i));
      assert [] + [Pops(i)] == [Pops(i)];
      steps := DeviceTurns(false, any);
      DrainAppend(old(dev), [Pops(i)], steps);
      steps := [Pops(i)] + steps;
    }

    // ----- blkdev_xfer -----------------------------------------------------------------------------------

    /** The wait for a free tracker. */
    method AwaitTracker()
      requires Live()
      modifies `dev
      ensures Kept() && Nallocate() > 0 && (old(dev).jobs == [] ==> dev == old(dev))
    {
      ghost var any := Start(JobOf(regs, 0, 0), [], []);
      while Nallocate() <= 0
        invariant Kept() && (old(dev).jobs == [] ==> dev == old(dev))
        decreases Work(dev.jobs)
      {
        ghost var _ := DeviceTurns(true, any);
      }
    }

    /** The four register writes; the device goes on with whatever is in flight. */
    method SetRegisters(pa: nat, offset: nat, write: bool)
      requires Nallocate() > 0
      modifies `dev, `regs
      ensures regs == Registers(pa, offset, SECTORS_PER_BLOCK, write)
      ensures Kept() && Nallocate() > 0 && (old(dev).jobs == [] ==> dev == old(dev))
    {
      ghost var any := Start(JobOf(regs, 0, 0), [], []);
      ghost var acts;
      regs := regs.(addr := pa);
      acts := DeviceTurns(false, any);
      regs := regs.(offset := offset);
      acts := DeviceTurns(false, any);
      regs := regs.(len := SECTORS_PER_BLOCK);
      acts := DeviceTurns(false, any);
      regs := regs.(write := write);
      acts := DeviceTurns(false, any);
    }

    /** The wait for a completion. */
    method AwaitCompletion(ghost s: Start)
      requires Outstanding(dev) > 0
      modifies `dev
      ensures Kept() && |dev.done| > 0
      ensures Solo(s, old(dev)) ==> Solo(s, dev)
      ensures Lone(s.job.tag, old(dev)) ==> Lone(s.job.tag, dev)
    {
      while |dev.done| == 0
        invariant Kept()
        invariant Solo(s, old(dev)) ==> Solo(s, dev)
        invariant Lone(s.job.tag, old(dev)) ==> Lone(s.job.tag, dev)
        decreases Work(dev.jobs)
      {
        ghost var _ := DeviceTurns(true, s);
      }
    }

    /** The request blkdev_xfer makes, as the device would do it alone. */
    ghost function Alone(tag: nat, pa: nat, offset: nat, write: bool, reach: nat, d: Device): Start {
      Start(JobOf(Registers(pa, offset, SECTORS_PER_BLOCK, write), tag, reach), d.mem, d.disk)
    }

    /** blkdev_xfer ends, and as much is outstanding as before: a stale completion stays one for ever.
        With nothing outstanding before, the tag it pops is the one it was given, wherever the request
        points to, and nothing is outstanding after; and if the request lies within memory and disk, these
        are changed by it, all of it, and by nothing else. */
    method Xfer(pa: nat, offset: nat, write: bool) returns (mine: nat, popped: nat, ghost reach: nat)
      requires Live()
      modifies `dev, `regs
      ensures Outstanding(dev) == Outstanding(old(dev))
      ensures |dev.mem| == |old(dev).mem| && |dev.disk| == |old(dev).disk|
      ensures Quiet(old(dev)) ==> Quiet(dev) && popped == mine
      ensures var s := Alone(mine, pa, offset, write, reach, old(dev));
              Reaches(s.job) &&
              (Quiet(old(dev)) && Fits(s) ==>
                dev.mem == MemAfter(s, Chunks(s.job)) && dev.disk == DiskAfter(s, Chunks(s.job)))
    {
      AwaitTracker();
      SetRegisters(pa, offset, write);
      mine, reach := Allocate();
      ghost var s := Alone(mine, pa, offset, write, reach, old(dev));
      ghost var alone := Quiet(old(dev)) && Fits(s);
      if alone {
        SoloStarts(s, old(dev));
      }
      AwaitCompletion(s);
      assert Quiet(old(dev)) ==> dev.jobs == [] && dev.done == [mine];
      ghost var i;
      popped, i := Complete();
    }

    // ----- blkdev_rw -------------------------------------------------------------------------------------

    /** The driver after blkdev_init, with a backing store and nothing in flight then. */
    predicate Ready()
      reads this
    {
      trackers > 0 && Quiet(dev) && seen == nsectors && 0 < nsectors < U32 && |dev.disk| == nsectors * SECTOR
    }

    /** blkdev_rw. It panics exactly when the range check rejects the block, having touched nothing.
        When it returns, and the buffer is 64-byte aligned, it has done one atomic operation on the array of
        blocks: on the block itself below 2^31 - 1, on the block 2^31 before it from 2^31 on. With a
        misaligned buffer the first `reach` chunks of the block have been moved, for a read not all
        sixteen. */
    method Rw(b: Buf, write: bool) returns (panicked: bool, ghost reach: nat)
      requires Live() && b.blockno < U32
      modifies `dev, `regs, b`disk
      ensures panicked == Rejects(b.blockno, seen)
      ensures panicked ==> dev == old(dev) && regs == old(regs) && b.disk == old(b.disk)
      ensures !panicked ==> b.disk == 0 && Outstanding(dev) == Outstanding(old(dev))
      ensures old(Ready()) && ActsOn(b.blockno) < 0x7fff_ffff && b.data + BSIZE <= |old(dev).mem| ==>
                var n := ActsOn(b.blockno);
                && Ready() && (panicked <==> n >= |Abstract(old(dev)).blocks|)
                && (!panicked && b.data % CHUNK == 0 ==>
                      Abstract(dev) == Apply(Abstract(old(dev)), RequestOf(n, b.data, write)).0)
                && (!panicked ==>
                      && reach <= 16 && (b.data % CHUNK != 0 && !write ==> reach < 16)
                      && dev.mem == MemWith(old(dev), n, b.data, write, reach)
                      && dev.disk == DiskWith(old(dev), n, b.data, write, reach))
    {
      var pa := b.data;
      var offset := b.blockno * SECTORS_PER_BLOCK % U32;
      reach := 0;
      RangeCheck(b.blockno, seen);
      if seen != 0 && (offset + SECTORS_PER_BLOCK) % U32 > seen {
        return true, reach;
      }
      panicked := false;
      var mine, popped;
      mine, popped, reach := Xfer(pa, offset, write);
      b.disk := 0;
      ghost var n := ActsOn(b.blockno);
      if old(Ready()) && n < 0x7fff_ffff && b.data + BSIZE <= |old(dev).mem| {
        TransferMovesChunks(old(dev), dev, mine, n, pa, write, reach);
        if pa % CHUNK == 0 {
          AllChunksAreApply(old(dev), dev, n, pa, write);
        }
      }
    }

    /** What the file system asks for, one request after the other, with the kernel's own stores to memory
        between them. */
    method Serve(rs: seq<Request>) returns (panicked: bool)
      requires Ready() && AllInMemory(rs, |dev.mem|) && forall i | 0 <= i < |rs| :: Proper(rs[i])
      modifies `dev, `regs
      ensures Ready()
      ensures (Abstract(dev), !panicked) == ApplyAll(Abstract(old(dev)), rs)
    {
      panicked := false;
      var i := 0;
      while i < |rs| && !panicked
        invariant 0 <= i <= |rs| && Ready() && |dev.mem| == |old(dev).mem|
        invariant (Abstract(dev), !panicked) == ApplyAll(Abstract(old(dev)), rs[..i])
      {
        assert rs[..i + 1][..i] == rs[..i];
        panicked := ServeOne(rs[i]);
        i := i + 1;
      }
      PanicStays(Abstract(old(dev)), rs, i);
    }

    /** From the reset of the device on: blkdev_init and then any requests, with nothing in flight at the
        start and a disk of whole sectors. Completions queued before do no harm. */
    method Boot(rs: seq<Request>) returns (panicked: bool)
      requires trackers > 0 && dev.jobs == [] && 0 < nsectors < U32 && |dev.disk| == nsectors * SECTOR
      requires AllInMemory(rs, |dev.mem|) && forall i | 0 <= i < |rs| :: Proper(rs[i])
      modifies `dev, `regs, `seen
      ensures Ready()
      ensures (Abstract(dev), !panicked) == ApplyAll(Abstract(old(dev)), rs)
    {
      var stale;
      ghost var steps;
      stale, steps := Init();
      panicked := Serve(rs);
    }

    /** A block comes back from the disk as it was written. */
    method WriteAndReadBack(n: nat, from: nat, to: nat) returns (panicked: bool)
      requires Ready() && n < 0x7fff_ffff && from % 64 == 0 && to % 64 == 0
      requires from + 1024 <= |dev.mem| && to + 1024 <= |dev.mem|
      modifies `dev, `regs
      ensures Ready() && |dev.mem| == |old(dev).mem| && (panicked <==> n >= nsectors / 2)
      ensures !panicked ==> dev.mem[to..to + 1024] == old(dev).mem[from..from + 1024]
      ensures !panicked ==> dev.disk[1024 * n..1024 * (n + 1)] == old(dev).mem[from..from + 1024]
    {
      panicked := ServeOne(Put(n, from));
      if !panicked {
        ghost var written := dev;
        var again := ServeOne(Get(n, to));
        assert BlocksOf(written.disk)[n] == old(dev).mem[from..from + 1024];
        GetBrings(Abstract(written), n, to);
        assert BlocksOf(dev.disk)[n] == BlocksOf(written.disk)[n];
      }
    }

    method ServeOne(r: Request) returns (panicked: bool)
      requires Ready() && InMemory(r, |dev.mem|) && Proper(r)
      modifies `dev, `regs
      ensures Ready() && |dev.mem| == |old(dev).mem|
      ensures (Abstract(dev), !panicked) == Apply(Abstract(old(dev)), r)
    {
      match r
      case Poke(at, bytes) =>
        dev := dev.(mem := W.Splice(dev.mem, at, bytes));
        panicked := false;
      case Get(n, data) =>
        OffsetIsTwice(n);
        var b := new Buf(n, data, 1);
        ghost var reach;
        panicked, reach := Rw(b, false);
      case Put(n, data) =>
        OffsetIsTwice(n);
        var b := new Buf(n, data, 1);
        ghost var reach;
        panicked, reach := Rw(b, true);
    }
  }

  function RequestOf(n: nat, data: nat, write: bool): Request {
    if write then Put(n, data) else Get(n, data)
  }

  /** Requests of the buffer cache: 64-byte aligned buffers, block numbers the check can judge. */
  predicate Proper(r: Request) {
    match r
    case Poke(_, _) => true
    case Get(n, data) => n < 0x7fff_ffff && data % CHUNK == 0
    case Put(n, data) => n < 0x7fff_ffff && data % CHUNK == 0
  }

  /** Memory and disk with the first chunks of block n moved: a read brings them to data, */
  function MemWith(d: Device, n: nat, data: nat, write: bool, reach: nat): seq<Byte>
    requires reach <= 16 && n < |d.disk| / BSIZE && data + BSIZE <= |d.mem|
  {
    if write then d.mem else W.Splice(d.mem, data, BlocksOf(d.disk)[n][..CHUNK * reach])
  }

  /** a write takes them from there. */
  function DiskWith(d: Device, n: nat, data: nat, write: bool, reach: nat): seq<Byte>
    requires reach <= 16 && n < |d.disk| / BSIZE && data + BSIZE <= |d.mem|
  {
    if write then W.Splice(d.disk, BSIZE * n, d.mem[data..data + CHUNK * reach]) else d.disk
  }

  lemma RangeCheck(blockno: nat, nsectors: nat)
    requires blockno < U32
    ensures ActsOn(blockno) < 0x7fff_ffff && 0 < nsectors ==>
              && OffsetOf(blockno) == 2 * ActsOn(blockno) == OffsetOf(ActsOn(blockno))
              && (Rejects(blockno, nsectors) <==> ActsOn(blockno) >= nsectors * SECTOR / BSIZE)
  {
    OffsetIsTwice(blockno);
    OffsetIsTwice(ActsOn(blockno));
  }

  /** The state after the lone request that blkdev_rw makes for a block. */
  predicate Finished(before: Device, after: Device, tag: nat, n: nat, data: nat, write: bool, reach: nat) {
    var job := JobOf(Registers(data, OffsetOf(n), SECTORS_PER_BLOCK, write), tag, reach);
    var s := Start(job, before.mem, before.disk);
    Reaches(job) && Fits(s) && after.mem == MemAfter(s, 16) && after.disk == DiskAfter(s, 16)
  }

  /** It has moved the first chunks of the block. */
  lemma TransferMovesChunks(before: Device, after: Device, tag: nat, n: nat, data: nat, write: bool, reach: nat)
    requires n < 0x7fff_ffff && n < |before.disk| / BSIZE && data + BSIZE <= |before.mem|
    requires Finished(before, after, tag, n, data, write, reach)
    ensures reach <= 16 && (data % CHUNK == 0 ==> reach == 16) && (data % CHUNK != 0 && !write ==> reach < 16)
    ensures after.mem == MemWith(before, n, data, write, reach)
    ensures after.disk == DiskWith(before, n, data, write, reach)
  {
    OffsetInBytes(n);
    assert Least(16, reach) == reach;
    if !write {
      FirstOfBlock(before.disk, n, reach);
    }
  }

  lemma OffsetInBytes(n: nat)
    requires n < 0x7fff_ffff
    ensures OffsetOf(n) * SECTOR == BSIZE * n
  {
  }

  lemma FirstOfBlock(disk: seq<Byte>, n: nat, k: nat)
    requires n < |disk| / BSIZE && k <= 16
    ensures BlocksOf(disk)[n][..CHUNK * k] == disk[BSIZE * n..BSIZE * n + CHUNK * k]
  {
  }

  /** All sixteen chunks are one operation on the array of blocks. */
  lemma AllChunksAreApply(before: Device, after: Device, n: nat, data: nat, write: bool)
    requires n < |before.disk| / BSIZE && data + BSIZE <= |before.mem|
    requires after.mem == MemWith(before, n, data, write, 16) && after.disk == DiskWith(before, n, data, write, 16)
    ensures Abstract(after) == Apply(Abstract(before), RequestOf(n, data, write)).0
  {
    if write {
      PutOnDisk(before.disk, n, before.mem[data..data + BSIZE]);
    } else {
      var block := BlocksOf(before.disk)[n];
      assert block[..BSIZE] == block;
    }
  }

  lemma {:induction false} PanicStays(s: Store, rs: seq<Request>, i: nat)
    requires WholeBlocks(s) && AllInMemory(rs, |s.mem|) && i <= |rs|
    requires i == |rs| || !ApplyAll(s, rs[..i]).1
    ensures ApplyAll(s, rs) == ApplyAll(s, rs[..i])
    decreases |rs|
  {
    if i == |rs| {
      assert rs[..i] == rs;
    } else {
      var rest := rs[..|rs| - 1];
      assert rest[..i] == rs[..i];
      PanicStays(s, rest, i);
    }
  }
}
