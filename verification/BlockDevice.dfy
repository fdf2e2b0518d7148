/** testchipip's block device as xv6's driver sees it: a DMA engine with trackers. Requests in flight move
    64-byte chunks and finish in any order and at any time; the tags of finished requests wait in a queue. */
module BlockDevice {
  import W = WordCopy

  type Byte = W.Byte

  const SECTOR: nat := 512
  const CHUNK: nat := 64
  const BSIZE: nat := 1024
  const SECTORS_PER_BLOCK: nat := 2

  /** A request in flight: `pos` chunks are done. Only the first `reach` chunks get to where they go. */
  datatype Job = Job(tag: nat, addr: nat, offset: nat, len: nat, write: bool, reach: nat, pos: nat)

  /** The requests in flight, the tags of the finished ones, the memory of the machine and the disk. */
  datatype Device = Device(jobs: seq<Job>, done: seq<nat>, mem: seq<Byte>, disk: seq<Byte>)

  function Chunks(j: Job): nat {
    j.len * (SECTOR / CHUNK)
  }

  /** With a 64-byte aligned buffer everything arrives. A read into a misaligned one loses at least the
      last chunk; about a write from one nothing is promised. */
  predicate Reaches(j: Job) {
    if j.addr % CHUNK == 0 then j.reach == Chunks(j)
    else if j.write then j.reach <= Chunks(j)
    else j.reach < Chunks(j)
  }

  function Outstanding(d: Device): nat {
    |d.jobs| + |d.done|
  }

  predicate Quiet(d: Device) {
    d.jobs == [] && d.done == []
  }

  // ----- Steps of the device ---------------------------------------------------------------------------

  function Moved(j: Job): Job {
    j.(pos := j.pos + 1)
  }

  /** The next chunk of one request; a chunk outside memory or disk or out of reach is not moved. */
  function MoveChunk(d: Device, i: nat): Device
    requires i < |d.jobs|
  {
    var j := d.jobs[i];
    var m := j.addr + CHUNK * j.pos;
    var s := j.offset * SECTOR + CHUNK * j.pos;
    var next := d.(jobs := d.jobs[i := Moved(j)]);
    if m + CHUNK > |d.mem| || s + CHUNK > |d.disk| || j.pos >= j.reach then next
    else if j.write then next.(disk := W.Splice(d.disk, s, d.mem[m..m + CHUNK]))
    else next.(mem := W.Splice(d.mem, m, d.disk[s..s + CHUNK]))
  }

  /** A request whose chunks are all done queues its tag. */
  function Finish(d: Device, i: nat): Device
    requires i < |d.jobs|
  {
    d.(jobs := d.jobs[..i] + d.jobs[i + 1..], done := d.done + [d.jobs[i].tag])
  }

  function Step(d: Device, i: nat): Device
    requires i < |d.jobs|
  {
    if d.jobs[i].pos < Chunks(d.jobs[i]) then MoveChunk(d, i) else Finish(d, i)
  }

  /** Reading `allocate`. */
  function Issue(d: Device, j: Job): Device {
    d.(jobs := d.jobs + [j])
  }

  /** Reading `complete`: some finished request's tag leaves the queue. */
  function Pop(d: Device, i: nat): Device
    requires i < |d.done|
  {
    d.(done := d.done[..i] + d.done[i + 1..])
  }

  lemma PopRemovesOne(d: Device, i: nat)
    requires i < |d.done|
    ensures multiset(Pop(d, i).done) == multiset(d.done) - multiset{d.done[i]}
    ensures Pop(d, i).jobs == d.jobs && Pop(d, i).mem == d.mem && Pop(d, i).disk == d.disk
  {
    assert d.done == d.done[..i] + [d.done[i]] + d.done[i + 1..];
  }

  /** Steps neither create nor lose requests; they keep the sizes of memory and disk. */
  lemma StepConserves(d: Device, i: nat)
    requires i < |d.jobs|
    ensures Outstanding(Step(d, i)) == Outstanding(d)
    ensures |Step(d, i).mem| == |d.mem| && |Step(d, i).disk| == |d.disk|
    ensures |Step(d, i).jobs| <= |d.jobs|
  {
  }

  // ----- Every step is progress ------------------------------------------------------------------------

  function Remaining(j: Job): nat {
    (if j.pos < Chunks(j) then Chunks(j) - j.pos else 0) + 1
  }

  function Work(jobs: seq<Job>): nat {
    if jobs == [] then 0 else Remaining(jobs[0]) + Work(jobs[1..])
  }

  lemma {:induction false} WorkOfUpdate(jobs: seq<Job>, i: nat, j: Job)
    requires i < |jobs|
    ensures Work(jobs[i := j]) == Work(jobs) - Remaining(jobs[i]) + Remaining(j)
  {
    if i == 0 {
      assert jobs[0 := j][1..] == jobs[1..];
    } else {
      assert jobs[i := j][1..] == jobs[1..][i - 1 := j];
      WorkOfUpdate(jobs[1..], i - 1, j);
    }
  }

  lemma {:induction false} WorkOfRemoval(jobs: seq<Job>, i: nat)
    requires i < |jobs|
    ensures Work(jobs[..i] + jobs[i + 1..]) == Work(jobs) - Remaining(jobs[i])
  {
    if i == 0 {
      assert jobs[..0] + jobs[1..] == jobs[1..];
    } else {
      assert (jobs[..i] + jobs[i + 1..])[1..] == jobs[1..][..i - 1] + jobs[1..][i..];
      WorkOfRemoval(jobs[1..], i - 1);
    }
  }

  /** So a device with requests in flight, left alone, finishes them all. */
  lemma StepWorks(d: Device, i: nat)
    requires i < |d.jobs|
    ensures Work(Step(d, i).jobs) < Work(d.jobs)
  {
    var j := d.jobs[i];
    if j.pos < Chunks(j) {
      WorkOfUpdate(d.jobs, i, Moved(j));
    } else {
      WorkOfRemoval(d.jobs, i);
    }
  }

  // ----- One request on its own -------------------------------------------------------------------------

  /** A request just issued to a quiet device. */
  datatype Start = Start(job: Job, mem: seq<Byte>, disk: seq<Byte>)

  predicate Fits(s: Start) {
    && s.job.pos == 0
    && s.job.addr + CHUNK * Chunks(s.job) <= |s.mem|
    && s.job.offset * SECTOR + CHUNK * Chunks(s.job) <= |s.disk|
  }

  function Least(a: nat, b: nat): nat {
    if a < b then a else b
  }

  /** Memory after k chunks: the first min(k, reach) chunks of the sectors, if it is a read; */
  function MemAfter(s: Start, k: nat): seq<Byte>
    requires Fits(s) && k <= Chunks(s.job)
  {
    var from := s.job.offset * SECTOR;
    if s.job.write then s.mem
    else W.Splice(s.mem, s.job.addr, s.disk[from..from + CHUNK * Least(k, s.job.reach)])
  }

  /** and the disk after k chunks: the first min(k, reach) chunks of the buffer, if it is a write. */
  function DiskAfter(s: Start, k: nat): seq<Byte>
    requires Fits(s) && k <= Chunks(s.job)
  {
    if s.job.write then
      W.Splice(s.disk, s.job.offset * SECTOR, s.mem[s.job.addr..s.job.addr + CHUNK * Least(k, s.job.reach)])
    else s.disk
  }

  /** The request is in flight with k chunks done, and nothing else is. */
  predicate At(s: Start, d: Device, k: nat)
    requires Fits(s) && k <= Chunks(s.job)
  {
    d == Device([s.job.(pos := k)], [], MemAfter(s, k), DiskAfter(s, k))
  }

  /** The device has done some part of this request and nothing else. */
  predicate Solo(s: Start, d: Device) {
    Fits(s) &&
    if d.jobs == [] then
      d == Device([], [s.job.tag], MemAfter(s, Chunks(s.job)), DiskAfter(s, Chunks(s.job)))
    else
      d.jobs[0].pos <= Chunks(s.job) && At(s, d, d.jobs[0].pos)
  }

  lemma SoloStarts(s: Start, d: Device)
    requires Fits(s) && Quiet(d) && d.mem == s.mem && d.disk == s.disk
    ensures Solo(s, Issue(d, s.job))
  {
  }

  lemma NextSlice(a: seq<Byte>, from: nat, k: nat)
    requires from + CHUNK * k + CHUNK <= |a|
    ensures a[from..from + CHUNK * k] + a[from + CHUNK * k..from + CHUNK * k + CHUNK] == a[from..from + CHUNK * (k + 1)]
  {
  }

  lemma DiskGrows(s: Start, k: nat)
    requires Fits(s) && k < Chunks(s.job) && s.job.write && k < s.job.reach
    ensures var at, m := s.job.offset * SECTOR, s.job.addr + CHUNK * k;
            DiskAfter(s, k + 1) == W.Splice(DiskAfter(s, k), at + CHUNK * k, s.mem[m..m + CHUNK])
  {
    var at, m := s.job.offset * SECTOR, s.job.addr;
    NextSlice(s.mem, m, k);
    W.SpliceMore(s.disk, at, s.mem[m..m + CHUNK * k], s.mem[m + CHUNK * k..m + CHUNK * k + CHUNK]);
  }

  lemma MemGrows(s: Start, k: nat)
    requires Fits(s) && k < Chunks(s.job) && !s.job.write && k < s.job.reach
    ensures var at, from := s.job.addr, s.job.offset * SECTOR + CHUNK * k;
            MemAfter(s, k + 1) == W.Splice(MemAfter(s, k), at + CHUNK * k, s.disk[from..from + CHUNK])
  {
    var at, from := s.job.addr, s.job.offset * SECTOR;
    NextSlice(s.disk, from, k);
    W.SpliceMore(s.mem, at, s.disk[from..from + CHUNK * k], s.disk[from + CHUNK * k..from + CHUNK * k + CHUNK]);
  }

  lemma ChunkWritten(s: Start, d: Device, k: nat)
    requires Fits(s) && k < Chunks(s.job) && At(s, d, k) && s.job.write && k < s.job.reach
    ensures At(s, MoveChunk(d, 0), k + 1)
  {
    DiskGrows(s, k);
    assert MoveChunk(d, 0).jobs == [s.job.(pos := k + 1)];
  }

  lemma ChunkRead(s: Start, d: Device, k: nat)
    requires Fits(s) && k < Chunks(s.job) && At(s, d, k) && !s.job.write && k < s.job.reach
    ensures At(s, MoveChunk(d, 0), k + 1)
  {
    MemGrows(s, k);
    assert MoveChunk(d, 0).jobs == [s.job.(pos := k + 1)];
  }

  /** A chunk beyond the reach of a misaligned transfer leaves everything as it is. */
  lemma ChunkLost(s: Start, d: Device, k: nat)
    requires Fits(s) && k < Chunks(s.job) && At(s, d, k) && k >= s.job.reach
    ensures At(s, MoveChunk(d, 0), k + 1)
  {
    assert Least(k, s.job.reach) == Least(k + 1, s.job.reach);
    assert MoveChunk(d, 0).jobs == [s.job.(pos := k + 1)];
  }

  lemma TagQueued(s: Start, d: Device)
    requires Fits(s) && At(s, d, Chunks(s.job))
    ensures Solo(s, Finish(d, 0))
  {
    assert Finish(d, 0).jobs == [] && Finish(d, 0).done == [s.job.tag];
  }

  lemma ChunkDone(s: Start, d: Device, k: nat)
    requires Fits(s) && k < Chunks(s.job) && At(s, d, k)
    ensures At(s, MoveChunk(d, 0), k + 1)
  {
    if k >= s.job.reach {
      ChunkLost(s, d, k);
    } else if s.job.write {
      ChunkWritten(s, d, k);
    } else {
      ChunkRead(s, d, k);
    }
  }

  lemma SoloChunk(s: Start, d: Device)
    requires Solo(s, d) && d.jobs != [] && d.jobs[0].pos < Chunks(s.job)
    ensures Solo(s, MoveChunk(d, 0))
  {
    ChunkDone(s, d, d.jobs[0].pos);
    assert MoveChunk(d, 0).jobs[0].pos == d.jobs[0].pos + 1;
  }

  /** Whatever the device does next is the rest of that request. */
  lemma SoloStep(s: Start, d: Device)
    requires Solo(s, d) && d.jobs != []
    ensures Solo(s, Step(d, 0))
  {
    if d.jobs[0].pos == Chunks(s.job) {
      TagQueued(s, d);
    } else {
      SoloChunk(s, d);
    }
  }

  lemma SoloAnyStep(s: Start, d: Device, i: nat)
    requires Solo(s, d) && i < |d.jobs|
    ensures Solo(s, Step(d, i))
  {
    SoloStep(s, d);
    assert i == 0;
  }

  /** One request with this tag is in flight or its tag is queued, and nothing else is outstanding, wherever
      the request points to. */
  predicate Lone(tag: nat, d: Device) {
    || (d.done == [] && |d.jobs| == 1 && d.jobs[0].tag == tag)
    || (d.done == [tag] && d.jobs == [])
  }

  lemma LoneStep(tag: nat, d: Device, i: nat)
    requires Lone(tag, d) && i < |d.jobs|
    ensures Lone(tag, Step(d, i))
  {
  }

  // ----- Stale requests ------------------------------------------------------------------------------------

  /** The device acting alone; an index that names no request in flight does nothing. */
  function Run(d: Device, schedule: seq<nat>): Device
    decreases |schedule|
  {
    if schedule == [] then d
    else Run(if schedule[0] < |d.jobs| then Step(d, schedule[0]) else d, schedule[1..])
  }

  /** After the driver has issued j, a completion can be there to pop while j has not even started. */
  ghost predicate EarlyReturn(d: Device, j: Job) {
    exists schedule :: Run(Issue(d, j), schedule).done != [] && j in Run(Issue(d, j), schedule).jobs
  }

  lemma {:induction false} QuietRun(s: Start, d: Device, schedule: seq<nat>)
    requires Solo(s, d)
    ensures Solo(s, Run(d, schedule))
    decreases |schedule|
  {
    if schedule != [] {
      if schedule[0] < |d.jobs| {
        SoloStep(s, d);
        QuietRun(s, Step(d, schedule[0]), schedule[1..]);
      } else {
        QuietRun(s, d, schedule[1..]);
      }
    }
  }

  /** An older request can always be finished before the newest one moves. */
  lemma {:induction false} OldestFinishes(d: Device) returns (schedule: seq<nat>)
    requires |d.jobs| >= 2
    ensures Run(d, schedule).done != []
    ensures d.jobs[|d.jobs| - 1] in Run(d, schedule).jobs
    decreases Remaining(d.jobs[0])
  {
    var j, last := d.jobs[0], d.jobs[|d.jobs| - 1];
    var next := Step(d, 0);
    assert next.jobs[|next.jobs| - 1] == last;
    if j.pos < Chunks(j) {
      var rest := OldestFinishes(next);
      schedule := [0] + rest;
      assert schedule[1..] == rest;
    } else {
      schedule := [0];
      assert Run(next, schedule[1..]) == next;
    }
  }

  lemma {:induction false} LoneRun(tag: nat, d: Device, schedule: seq<nat>)
    requires Lone(tag, d)
    ensures Lone(tag, Run(d, schedule))
    decreases |schedule|
  {
    if schedule != [] {
      if schedule[0] < |d.jobs| {
        LoneStep(tag, d, schedule[0]);
        LoneRun(tag, Step(d, schedule[0]), schedule[1..]);
      } else {
        LoneRun(tag, d, schedule[1..]);
      }
    }
  }

  /** The driver, which takes the first completion for its own, can be answered early exactly if
      something was outstanding before: in flight or queued. */
  lemma EarlyReturnIffOutstanding(d: Device, j: Job)
    ensures EarlyReturn(d, j) <==> Outstanding(d) > 0
  {
    var issued := Issue(d, j);
    if Outstanding(d) == 0 {
      forall schedule ensures !(Run(issued, schedule).done != [] && j in Run(issued, schedule).jobs) {
        LoneRun(j.tag, issued, schedule);
      }
    } else if d.done != [] {
      assert Run(issued, []) == issued;
    } else {
      var schedule := OldestFinishes(issued);
      assert issued.jobs[|issued.jobs| - 1] == j;
      assert Run(issued, schedule).done != [] && j in Run(issued, schedule).jobs;
    }
  }

  // ----- Draining ------------------------------------------------------------------------------------------

  /** While the driver drains the queue, the device steps and the driver pops, in any order. */
  datatype Drained = Acts(i: nat) | Pops(i: nat)

  function DrainStep(d: Device, step: Drained): Device {
    match step
    case Acts(i) => if i < |d.jobs| then Step(d, i) else d
    case Pops(i) => if i < |d.done| then Pop(d, i) else d
  }

  function Drain(d: Device, steps: seq<Drained>): Device {
    if steps == [] then d else DrainStep(Drain(d, steps[..|steps| - 1]), steps[|steps| - 1])
  }

  lemma DrainMore(d: Device, steps: seq<Drained>, step: Drained)
    ensures Drain(d, steps + [step]) == DrainStep(Drain(d, steps), step)
  {
    assert (steps + [step])[..|steps|] == steps;
  }

  lemma OneMoreOnBoth(d: Device, steps: seq<Drained>, most: seq<Drained>, last: Drained)
    requires Drain(d, steps + most) == Drain(Drain(d, steps), most)
    ensures Drain(d, steps + most + [last]) == Drain(Drain(d, steps), most + [last])
  {
    DrainMore(d, steps + most, last);
    DrainMore(Drain(d, steps), most, last);
  }

  lemma {:induction false} DrainAppend(d: Device, steps: seq<Drained>, more: seq<Drained>)
    ensures Drain(d, steps + more) == Drain(Drain(d, steps), more)
  {
    if more == [] {
      assert steps + more == steps;
    } else {
      var most, last := more[..|more| - 1], more[|more| - 1];
      DrainAppend(d, steps, most);
      assert more == most + [last] && steps + more == steps + most + [last];
      OneMoreOnBoth(d, steps, most, last);
    }
  }

  lemma {:induction false} DrainInvents(d: Device, steps: seq<Drained>)
    requires d.jobs == []
    ensures Drain(d, steps).jobs == []
  {
    if steps != [] {
      DrainInvents(d, steps[..|steps| - 1]);
    }
  }

  /** The device may stand still until n tags have been popped. */
  lemma {:induction false} PopsAlone(d: Device, n: nat) returns (steps: seq<Drained>)
    requires n <= |d.done|
    ensures |Drain(d, steps).done| == |d.done| - n && Drain(d, steps).jobs == d.jobs
  {
    if n == 0 {
      steps := [];
    } else {
      var before := PopsAlone(d, n - 1);
      steps := before + [Pops(0)];
      DrainMore(d, before, Pops(0));
    }
  }

  /** A drain that found the queue empty at the end can have left something outstanding exactly if
      something was in flight when it began. */
  lemma DrainCanLeaveIffInFlight(d: Device)
    ensures (exists steps :: Drain(d, steps).done == [] && Outstanding(Drain(d, steps)) > 0) <==> d.jobs != []
  {
    if d.jobs == [] {
      forall steps ensures !(Drain(d, steps).done == [] && Outstanding(Drain(d, steps)) > 0) {
        DrainInvents(d, steps);
      }
    } else {
      var steps := PopsAlone(d, |d.done|);
      assert Drain(d, steps).done == [] && Outstanding(Drain(d, steps)) > 0;
    }
  }
}
