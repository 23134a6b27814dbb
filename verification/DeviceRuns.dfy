/**
 Whole runs of the device: any number of open files, any sequence of calls with any outcome of
 allocation, copying and interruption.
 */
module DeviceRuns {
  import opened Bytes
  import opened CircularBuffers
  import opened DeviceModel
  import opened DeviceMeaning

  datatype Request = Request(file: nat, call: Call)

  /**
   The device, each open file's position, and the results each file's owner has received.
   `crashed` says that a call died holding the lock; a later call that needs it never returns.
   */
  datatype Sys = Sys(dev: Device, pos: seq<int>, rets: seq<seq<Ret>>, crashed: bool)

  ghost predicate Ok(s: Sys) {
    && |s.pos| == |s.rets|
    && (forall i :: 0 <= i < |s.pos| ==> IsOffset(s.pos[i]))
    && (!s.crashed ==> Valid(s.dev))
  }

  predicate Serves(n: nat, r: Request) {
    r.file < n && Legal(r.call)
  }

  ghost function Init(n: nat): (s: Sys)
    ensures Ok(s) && |s.pos| == n && !s.crashed && Leaked(s.dev) == {}
  {
    Sys(InitDevice(), seq(n, _ => 0), seq(n, _ => []), false)
  }

  function Answer(s: Sys, f: nat, ret: Ret): Sys
    requires f < |s.rets|
  {
    s.(rets := s.rets[f := s.rets[f] + [ret]])
  }

  lemma CallKeepsValid(d: Device, fPos: int, call: Call)
    requires Valid(d) && IsOffset(fPos) && Legal(call)
    ensures var o := DoCall(d, fPos, call);
            o.ret.Ret? ==> Valid(o.dev) && IsOffset(o.fPos)
    ensures !call.Write? ==> DoCall(d, fPos, call).ret.Ret? && DoCall(d, fPos, call).dev == d
  {
    match call
    case Read(_, _, _) =>
      ReadMeaning(d, fPos, call);
      ReadPosition(d, fPos, call);
    case Write(_, _, _, _) =>
      WriteMeaning(d, fPos, call);
    case SeekTo(_, _, _, _) =>
      SeekMeaning(d, fPos, call);
      StreamTotal(d);
    case OtherIoctl =>
  }

  lemma CrashKeepsPosition(d: Device, fPos: int, call: Call)
    requires Valid(d) && IsOffset(fPos) && Legal(call)
    ensures DoCall(d, fPos, call).ret.Crash? ==> DoCall(d, fPos, call).fPos == fPos
  {
    hide Holds;
    CallKeepsValid(d, fPos, call);
  }

  lemma ReadPosition(d: Device, fPos: int, call: Call)
    requires Valid(d) && IsOffset(fPos) && call.Read? && Legal(call)
    ensures IsOffset(DoCall(d, fPos, call).fPos) && DoCall(d, fPos, call).ret.Ret?
  {
    HoldsFacts(d.heap, d.ring.Queue(), d.wip);
    EntriesPosition(d.heap, d.ring.Queue(), fPos, call.count, call.faults);
  }

  lemma EntriesPosition(h: Heap, q: seq<Entry>, fPos: int, count: nat, faults: bool)
    requires IsOffset(fPos) && SizeSum(q) < HEAP_LIMIT
    ensures IsOffset(ReadEntries(h, q, fPos, count, faults).0) && ReadEntries(h, q, fPos, count, faults).1.Ret?
  {
    if SizeT(fPos) < SizeSum(q) {
      var k := Locate(q, SizeT(fPos));
      StartMonotone(q, k + 1, |q|);
    }
  }

  /** One call, run from start to finish. */
  ghost function Step(s: Sys, r: Request): (s': Sys)
    requires Ok(s) && Serves(|s.pos|, r)
    ensures Ok(s') && |s'.pos| == |s.pos|
  {
    if Early(r.call).Some? then Answer(s, r.file, Early(r.call).value)
    else if s.crashed then s
    else
      CallKeepsValid(s.dev, s.pos[r.file], r.call);
      var o := DoCall(s.dev, s.pos[r.file], r.call);
      if o.ret.Crash? then s.(dev := o.dev, crashed := true)
      else Answer(Sys(o.dev, s.pos[r.file := o.fPos], s.rets, false), r.file, o.ret)
  }

  ghost predicate AllServe(n: nat, rs: seq<Request>) {
    forall i :: 0 <= i < |rs| ==> Serves(n, rs[i])
  }

  /** The state after the first `k` calls of a run. */
  ghost function Exec(s: Sys, rs: seq<Request>, k: nat): (s': Sys)
    requires Ok(s) && AllServe(|s.pos|, rs) && k <= |rs|
    ensures Ok(s') && |s'.pos| == |s.pos|
  {
    if k == 0 then s else Step(Exec(s, rs, k - 1), rs[k - 1])
  }

  // ---------------------------------------------------------------------------------------
  // What a run leaves behind

  /** The buffer of a write that succeeds in state `s`. */
  ghost function Accepts(s: Sys, r: Request): seq<Bytes>
    requires Ok(s) && Serves(|s.pos|, r)
  {
    if !s.crashed && r.call.Write? && !WriteFails(s.dev, r.call) && !ReadsByteMinusOne(s.dev, r.call) then [r.call.buf]
    else []
  }

  /** Buffers of the successful writes among the first `k` calls, in order. */
  ghost function Accepted(s: Sys, rs: seq<Request>, k: nat): seq<Bytes>
    requires Ok(s) && AllServe(|s.pos|, rs) && k <= |rs|
  {
    if k == 0 then [] else Accepted(s, rs, k - 1) + Accepts(Exec(s, rs, k - 1), rs[k - 1])
  }

  /** All commands ever completed by writing `bufs` in turn, and what is left over. */
  datatype History = History(done: seq<Bytes>, pending: Bytes)

  ghost function Record(bufs: seq<Bytes>): History {
    if bufs == [] then History([], [])
    else
      var h := Record(bufs[..|bufs| - 1]);
      var p := h.pending + bufs[|bufs| - 1];
      if EndsInNewline(p) then History(h.done + [p], []) else History(h.done, p)
  }

  /** No byte is lost, invented or reordered, and commands are exactly the newline-terminated runs. */
  lemma {:induction false} RecordConserves(bufs: seq<Bytes>)
    ensures Flatten(Record(bufs).done) + Record(bufs).pending == Flatten(bufs)
    ensures forall i :: 0 <= i < |Record(bufs).done| ==> EndsInNewline(Record(bufs).done[i])
    ensures !EndsInNewline(Record(bufs).pending)
  {
    if bufs != [] {
      var front, last := bufs[..|bufs| - 1], bufs[|bufs| - 1];
      RecordConserves(front);
      var h := Record(front);
      FlattenSnoc(h.done, h.pending + last);
      Associate(Flatten(h.done), h.pending, last);
    }
  }

  lemma Associate(a: Bytes, b: Bytes, c: Bytes)
    ensures (a + b) + c == a + (b + c)
  {
  }

  ghost predicate Represents(s: Sys, h: History)
    requires Ok(s)
  {
    !s.crashed ==> Abs(s.dev) == Contents(LastTen(h.done), h.pending)
  }

  lemma RecordSnoc(bufs: seq<Bytes>, buf: Bytes)
    ensures var h, h' := Record(bufs), Record(bufs + [buf]);
            Contents(LastTen(h'.done), h'.pending) == Contents(LastTen(h.done), h.pending).Append(buf)
  {
    assert (bufs + [buf])[..|bufs|] == bufs;
    var h := Record(bufs);
    LastTenStep(h.done, h.pending + buf);
    LastTenStep(LastTen(h.done), h.pending + buf);
  }

  lemma StepRepresents(s: Sys, r: Request, bufs: seq<Bytes>)
    requires Ok(s) && Serves(|s.pos|, r) && Represents(s, Record(bufs))
    ensures Represents(Step(s, r), Record(bufs + Accepts(s, r)))
  {
    if s.crashed || !r.call.Write? {
      assert bufs + [] == bufs;
      if !s.crashed {
        CallKeepsValid(s.dev, s.pos[r.file], r.call);
      }
    } else {
      WriteMeaning(s.dev, s.pos[r.file], r.call);
      RecordSnoc(bufs, r.call.buf);
      assert bufs + [] == bufs;
    }
  }

  /**
   Whole-device refinement. After any run from an empty device that no call crashed, the ring
   holds exactly the last ten commands that the successful writes completed, the pending entry
   holds what is left, and together all completed commands and the pending bytes are the bytes
   written, in order. Failed writes contribute nothing.
   */
  lemma WholeDevice(n: nat, rs: seq<Request>)
    requires AllServe(n, rs)
    ensures var s, bufs := Exec(Init(n), rs, |rs|), Accepted(Init(n), rs, |rs|);
            && (!s.crashed ==> View(s.dev) == LastTen(Record(bufs).done) && Pending(s.dev) == Record(bufs).pending)
            && Flatten(Record(bufs).done) + Record(bufs).pending == Flatten(bufs)
  {
    RunRepresents(n, rs, |rs|);
    RecordConserves(Accepted(Init(n), rs, |rs|));
  }

  lemma {:induction false} RunRepresents(n: nat, rs: seq<Request>, k: nat)
    requires AllServe(n, rs) && k <= |rs|
    ensures Represents(Exec(Init(n), rs, k), Record(Accepted(Init(n), rs, k)))
  {
    hide Step, Accepts, Represents, Ok, Init, Record;
    if k > 0 {
      RunRepresents(n, rs, k - 1);
      StepRepresents(Exec(Init(n), rs, k - 1), rs[k - 1], Accepted(Init(n), rs, k - 1));
    } else {
      EmptyRepresents(n);
    }
  }

  lemma EmptyRepresents(n: nat)
    ensures Represents(Init(n), Record([]))
  {
  }

  /** A run that crashed has a call that is a write adding nothing to nothing; it names it. */
  lemma {:induction false} CrashCause(n: nat, rs: seq<Request>, k: nat) returns (i: nat)
    requires AllServe(n, rs) && k <= |rs| && Exec(Init(n), rs, k).crashed
    ensures i < k && CrashesAt(n, rs, i)
  {
    hide Step, ReadsByteMinusOne, Ok, Init, Serves;
    if Exec(Init(n), rs, k - 1).crashed {
      i := CrashCause(n, rs, k - 1);
    } else {
      i := k - 1;
      StepCrash(Exec(Init(n), rs, i), rs[i]);
    }
  }

  /** Conversely any such call crashes every run it occurs in, for good. */
  lemma {:induction false} CrashStays(n: nat, rs: seq<Request>, i: nat, k: nat)
    requires AllServe(n, rs) && i < k <= |rs| && CrashesAt(n, rs, i)
    ensures Exec(Init(n), rs, k).crashed
    decreases k
  {
    hide Step, ReadsByteMinusOne, Ok, Init;
    if i < k - 1 {
      CrashStays(n, rs, i, k - 1);
    }
    StepCrash(Exec(Init(n), rs, k - 1), rs[k - 1]);
  }

  lemma StepCrash(s: Sys, r: Request)
    requires Ok(s) && Serves(|s.pos|, r)
    ensures Step(s, r).crashed <==> s.crashed || ReadsByteMinusOne(s.dev, r.call)
  {
    if !s.crashed {
      CallKeepsValid(s.dev, s.pos[r.file], r.call);
      if r.call.Write? {
        WriteMeaning(s.dev, s.pos[r.file], r.call);
      }
    }
  }

  /** Call `i` of the run is a write that adds nothing to nothing. */
  ghost predicate CrashesAt(n: nat, rs: seq<Request>, i: nat)
    requires AllServe(n, rs) && i < |rs|
  {
    !Exec(Init(n), rs, i).crashed && ReadsByteMinusOne(Exec(Init(n), rs, i).dev, rs[i].call)
  }

  // ---------------------------------------------------------------------------------------
  // Ownership

  ghost predicate Leaks(s: Sys, r: Request)
    requires Ok(s) && Serves(|s.pos|, r)
  {
    && !s.crashed
    && r.call.Write?
    && !r.call.interrupted && !r.call.noMemory && s.dev.heap.Fits(NewBlockSize(s.dev, r.call.buf))
    && r.call.faults && r.call.buf != []
  }

  /** Writes among the first `k` calls whose copy from the user faulted after the block was allocated. */
  ghost function LeakCount(s: Sys, rs: seq<Request>, k: nat): nat
    requires Ok(s) && AllServe(|s.pos|, rs) && k <= |rs|
  {
    if k == 0 then 0 else LeakCount(s, rs, k - 1) + if Leaks(Exec(s, rs, k - 1), rs[k - 1]) then 1 else 0
  }

  ghost function PendingPointers(w: Entry): set<Ptr> {
    if w == EMPTY then {} else {w.buffptr}
  }

  lemma {:induction false} PointersCount(q: seq<Entry>)
    requires forall i, j :: 0 <= i < j < |q| ==> q[i].buffptr != q[j].buffptr
    ensures |Pointers(q)| == |q|
  {
    if q != [] {
      var front := q[..|q| - 1];
      forall i, j | 0 <= i < j < |front| ensures front[i].buffptr != front[j].buffptr {
        assert q[i].buffptr != q[j].buffptr;
      }
      PointersCount(front);
      PointersSnoc(front, q[|q| - 1]);
      assert front + [q[|q| - 1]] == q;
    }
  }

  lemma PointersSnoc(q: seq<Entry>, e: Entry)
    ensures Pointers(q + [e]) == Pointers(q) + {e.buffptr}
  {
    var q' := q + [e];
    forall p | p in Pointers(q) + {e.buffptr} ensures p in Pointers(q') {
      if p == e.buffptr {
        assert q'[|q|].buffptr == p;
      } else {
        var i :| 0 <= i < |q| && q[i].buffptr == p;
        assert q'[i].buffptr == p;
      }
    }
  }

  /** The live blocks are exactly the pending entry's, the ring's and the leaked ones, all distinct. */
  lemma LiveBlocks(d: Device)
    requires Sound(d)
    ensures var q, w := d.ring.Queue(), d.wip;
            && d.heap.blocks.Keys == Pointers(q) + PendingPointers(w) + Leaked(d)
            && |d.heap.blocks.Keys| == |q| + |PendingPointers(w)| + |Leaked(d)|
            && |q| + |PendingPointers(w)| <= CAPACITY + 1
  {
    LiveParts(d.heap, d.ring.Queue(), d.wip);
  }

  lemma LiveParts(h: Heap, q: seq<Entry>, w: Entry)
    requires Holds(h, q, w)
    ensures h.blocks.Keys == Pointers(q) + PendingPointers(w) + Unowned(h, q, w)
    ensures |h.blocks.Keys| == |q| + |PendingPointers(w)| + |Unowned(h, q, w)|
  {
    QueuePointers(h, q, w);
    LiveSets(h.blocks.Keys, q, w);
  }

  lemma LiveSets(keys: set<Ptr>, q: seq<Entry>, w: Entry)
    requires Distinct(q, w) && Pointers(q) <= keys && NULL !in keys
    requires w == EMPTY || w.buffptr in keys
    ensures var rest := keys - Pointers(q) - {w.buffptr};
            && keys == Pointers(q) + PendingPointers(w) + rest
            && |keys| == |q| + |PendingPointers(w)| + |rest|
  {
    PointersCount(q);
    assert w.buffptr !in Pointers(q);
    Partition(keys, Pointers(q), PendingPointers(w), keys - Pointers(q) - {w.buffptr});
  }

  lemma Partition(all: set<Ptr>, a: set<Ptr>, b: set<Ptr>, c: set<Ptr>)
    requires a <= all && b <= all && a !! b && c == all - a - b
    ensures all == a + b + c && |all| == |a| + |b| + |c|
  {
    assert all == a + b + c;
  }

  lemma StepLeaks(s: Sys, r: Request)
    requires Ok(s) && Serves(|s.pos|, r) && !Step(s, r).crashed
    ensures !s.crashed
    ensures Leaked(Step(s, r).dev) == Leaked(s.dev) + if Leaks(s, r) then {s.dev.heap.next} else {}
    ensures s.dev.heap.next !in Leaked(s.dev)
  {
    CallKeepsValid(s.dev, s.pos[r.file], r.call);
    if r.call.Write? {
      WriteMeaning(s.dev, s.pos[r.file], r.call);
    }
  }

  /**
   Ownership conservation. After any run from an empty device that no call crashed, the live
   blocks are the pending entry's and the ring's, at most eleven, plus one for every write whose
   user copy faulted; with no such write nothing else is live. The released blocks are exactly
   the other ones ever allocated, each released once.
   */
  lemma OwnershipConserved(n: nat, rs: seq<Request>)
    requires AllServe(n, rs) && !Exec(Init(n), rs, |rs|).crashed
    ensures var d, leaks := Exec(Init(n), rs, |rs|).dev, LeakCount(Init(n), rs, |rs|);
            && |Leaked(d)| == leaks
            && d.heap.blocks.Keys == Pointers(d.ring.Queue()) + PendingPointers(d.wip) + Leaked(d)
            && |d.heap.blocks.Keys| == |d.ring.Queue()| + |PendingPointers(d.wip)| + leaks <= CAPACITY + 1 + leaks
            && FreedOnce(d.heap)
  {
    LeaksCounted(n, rs, |rs|);
    LiveBlocks(Exec(Init(n), rs, |rs|).dev);
  }

  lemma {:induction false} LeaksCounted(n: nat, rs: seq<Request>, k: nat)
    requires AllServe(n, rs) && k <= |rs| && !Exec(Init(n), rs, k).crashed
    ensures |Leaked(Exec(Init(n), rs, k).dev)| == LeakCount(Init(n), rs, k)
  {
    hide Step, Leaks, Leaked, Ok, Init;
    if k > 0 {
      StepLeaks(Exec(Init(n), rs, k - 1), rs[k - 1]);
      LeaksCounted(n, rs, k - 1);
    }
  }

  /** Every allocation made so far is either live or was released exactly once; nothing else was released. */
  ghost predicate FreedOnce(h: Heap) {
    forall p :: h.freed[p] == if 1 <= p < h.next && p !in h.blocks then 1 else 0
  }
}
