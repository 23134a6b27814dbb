/** A critical section run statement by statement to its end has the effect `DoCall` states. */
module CallEffects {
  import opened Bytes
  import opened CircularBuffers
  import opened DeviceModel
  import opened DeviceMeaning
  import opened AesdDevice
  import opened CallSteps

  lemma OneStep(call: Call, c: Conf, c': Conf)
    requires !Terminal(c.pc) && Micro(call, c) == c'
    ensures Finish(call, c) == Finish(call, c')
    ensures Terminal(c'.pc) ==> Finish(call, c) == c'
  {
  }

  /** The scan's next slot, and a running sum that does not wrap. */
  lemma ScanSlot(d: Device, i: nat)
    requires Sound(d) && i < CAPACITY
    ensures Scanned(d.ring, i) == d.ring.Slots()[i]
    ensures SizeT(Start(d.ring.Slots(), i) + d.ring.Slots()[i].size) == Start(d.ring.Slots(), i + 1) < HEAP_LIMIT
  {
    hide Holds;
    d.ring.SlotAt(i);
    SlotsBound(d.ring, i + 1);
    HoldsFacts(d.heap, d.ring.Queue(), d.wip);
  }

  // ---------------------------------------------------------------------------------------
  // aesd_read

  lemma {:induction false} FinishLookup(d: Device, fPos: int, call: Call, i: nat)
    requires Sound(d) && IsOffset(fPos) && call.Read? && i <= CAPACITY
    requires Start(d.ring.Slots(), i) <= SizeT(fPos)
    ensures Finish(call, Conf(d, fPos, RLookup(i, Start(d.ring.Slots(), i)))) == Ended(DoRead(d, fPos, call.count, call.faults))
    decreases CAPACITY - i
  {
    hide Finish, Holds, DoRead;
    var c := Conf(d, fPos, RLookup(i, Start(d.ring.Slots(), i)));
    if i == CAPACITY {
      LookupMiss(d, fPos, call);
      OneStep(call, c, c.(pc := Unlocking(Ret(0, []))));
    } else {
      ScanSlot(d, i);
      var next := Start(d.ring.Slots(), i + 1);
      if next > SizeT(fPos) {
        var c' := c.(pc := RCopy((d.ring.outOffs + i) % CAPACITY, SizeT(fPos) - Start(d.ring.Slots(), i)));
        assert Micro(call, c) == c';
        OneStep(call, c, c');
        ScanHit(d.ring, i, SizeT(fPos));
        FinishCopy(d, fPos, call, i);
      } else {
        assert Micro(call, c) == c.(pc := RLookup(i + 1, next));
        OneStep(call, c, c.(pc := RLookup(i + 1, next)));
        FinishLookup(d, fPos, call, i + 1);
      }
    }
  }

  lemma LookupMiss(d: Device, fPos: int, call: Call)
    requires Sound(d) && IsOffset(fPos) && call.Read? && Start(d.ring.Slots(), CAPACITY) <= SizeT(fPos)
    ensures DoRead(d, fPos, call.count, call.faults) == Outcome(d, fPos, Ret(0, []))
  {
    SlotsStart(d.ring, CAPACITY);
  }

  lemma FinishCopy(d: Device, fPos: int, call: Call, i: nat)
    requires Sound(d) && IsOffset(fPos) && call.Read? && i < |d.ring.Queue()|
    requires SizeT(fPos) < SizeSum(d.ring.Queue()) && Locate(d.ring.Queue(), SizeT(fPos)) == i
    requires Scanned(d.ring, i) == d.ring.Queue()[i]
    ensures Finish(call, Conf(d, fPos, RCopy((d.ring.outOffs + i) % CAPACITY, Inner(d.ring.Queue(), SizeT(fPos)))))
            == Ended(DoRead(d, fPos, call.count, call.faults))
  {
    hide Finish, Holds, Start;
    QueueBlocks(d);
    var e, b := d.ring.Queue()[i], Inner(d.ring.Queue(), SizeT(fPos));
    var n := Min(call.count, e.size - b);
    var c := Conf(d, fPos, RCopy((d.ring.outOffs + i) % CAPACITY, b));
    assert HasBlock(d.heap, e);
    if call.faults && n > 0 {
      OneStep(call, c, c.(pc := Unlocking(Ret(-EFAULT, []))));
    } else {
      var data := d.heap.blocks[e.buffptr][b..b + n];
      BlockSlice(d.heap, e, b, n);
      OneStep(call, c, c.(pc := RAdvance(data)));
      OneStep(call, c.(pc := RAdvance(data)), c.(fPos := fPos + n, pc := Unlocking(Ret(n, data))));
    }
  }

  // ---------------------------------------------------------------------------------------
  // aesd_adjust_file_offset

  /** The slot the seek loop is at: the queue's next entry, or an empty slot behind the last. */
  lemma SeekSlot(d: Device, index: nat)
    requires Sound(d) && index < CAPACITY && index <= |d.ring.Queue()|
    ensures var q, e := d.ring.Queue(), Scanned(d.ring, index);
            if index < |q| then
              && e == q[index] && e.buffptr != NULL
              && SizeT(Start(q, index) + e.size) == Start(q, index + 1)
              && forall off: nat :: off < e.size ==>
                   SizeT(Start(q, index) + off) == Position(q, index, off) == AsLoff(Position(q, index, off))
            else e.buffptr == NULL
  {
    hide Holds;
    QueueBlocks(d);
    ScannedSlot(d.ring, d.heap, index);
    var q := d.ring.Queue();
    if index < |q| {
      StartMonotone(q, index + 1, |q|);
    }
  }

  lemma {:induction false} FinishSeek(d: Device, fPos: int, call: Call, index: nat)
    requires Sound(d) && call.SeekTo? && call.writeCmd < CAPACITY
    requires index <= call.writeCmd && index <= |d.ring.Queue()|
    ensures Finish(call, Conf(d, fPos, SLoop(index, Start(d.ring.Queue(), index))))
            == Ended(DoSeek(d, fPos, call.writeCmd, call.writeCmdOffset))
    decreases CAPACITY - index
  {
    hide Finish, Holds, Start, Scanned, AsLoff, Position;
    var q, cmd, off := d.ring.Queue(), call.writeCmd, call.writeCmdOffset;
    var c := Conf(d, fPos, SLoop(index, Start(q, index)));
    SeekSlot(d, index);
    var e := Scanned(d.ring, index);
    if e.buffptr == NULL {
      OneStep(call, c, c.(pc := Unlocking(Ret(-EINVAL, []))));
    } else if index != cmd {
      OneStep(call, c, c.(pc := SLoop(index + 1, Start(q, index + 1))));
      FinishSeek(d, fPos, call, index + 1);
    } else if off >= e.size {
      OneStep(call, c, c.(pc := Unlocking(Ret(-EINVAL, []))));
    } else {
      var c1 := c.(pc := SLoop(index + 1, Position(q, cmd, off)));
      OneStep(call, c, c1);
      OneStep(call, c1, c.(pc := SSetPos(Position(q, cmd, off))));
      OneStep(call, c.(pc := SSetPos(Position(q, cmd, off))), c.(fPos := Position(q, cmd, off), pc := Unlocking(Ret(0, []))));
    }
  }

  // ---------------------------------------------------------------------------------------
  // aesd_write

  /** The size computed, the position is set and the lock released. */
  lemma FinishPos(d: Device, fPos: int, call: Call)
    requires Sound(d) && call.Write?
    ensures Finish(call, Conf(d, fPos, WSize(CAPACITY, Start(d.ring.Slots(), CAPACITY))))
            == Conf(d, AfterWritePos(d.ring), Unlocking(Ret(|call.buf|, [])))
  {
    hide Finish, Holds, ReadStep, SeekStep;
    SlotsStart(d.ring, CAPACITY);
    HoldsFacts(d.heap, d.ring.Queue(), d.wip);
    var size: int := SizeSum(d.ring.Queue());
    var c := Conf(d, fPos, WSize(CAPACITY, size));
    OneStep(call, c, c.(pc := WSetPos(size)));
    OneStep(call, c.(pc := WSetPos(size)), c.(fPos := size - 1, pc := Unlocking(Ret(|call.buf|, []))));
  }

  lemma {:induction false} FinishSize(d: Device, fPos: int, call: Call, i: nat)
    requires Sound(d) && call.Write? && i <= CAPACITY
    ensures Finish(call, Conf(d, fPos, WSize(i, Start(d.ring.Slots(), i))))
            == Conf(d, AfterWritePos(d.ring), Unlocking(Ret(|call.buf|, [])))
    decreases CAPACITY - i
  {
    hide Finish, Holds, Start;
    if i == CAPACITY {
      FinishPos(d, fPos, call);
    } else {
      ScanSlot(d, i);
      var c := Conf(d, fPos, WSize(i, Start(d.ring.Slots(), i)));
      OneStep(call, c, c.(pc := WSize(i + 1, Start(d.ring.Slots(), i + 1))));
      FinishSize(d, fPos, call, i + 1);
    }
  }

  /** add_entry's assignments in turn are `Push`. */
  lemma PushSteps(r: Ring, e: Entry) returns (r1: Ring, r2: Ring, r3: Ring, r4: Ring)
    requires r.Valid()
    ensures r1 == r.(entry := r.entry[r.inOffs := e])
    ensures r2 == r1.(inOffs := r1.inOffs + 1)
    ensures r3 == if r2.inOffs == CAPACITY then r2.(inOffs := 0, full := true) else r2
    ensures r4 == if r3.full then r3.(outOffs := r3.inOffs) else r3
    ensures r4 == r.Push(e)
  {
    r1 := r.(entry := r.entry[r.inOffs := e]);
    r2 := r1.(inOffs := r1.inOffs + 1);
    r3 := if r2.inOffs == CAPACITY then r2.(inOffs := 0, full := true) else r2;
    r4 := if r3.full then r3.(outOffs := r3.inOffs) else r3;
  }

  lemma FinishAdd(d: Device, fPos: int, call: Call)
    requires d.ring.Valid() && call.Write?
    ensures Finish(call, Conf(d, fPos, AEvict))
            == Finish(call, Conf(d.(ring := d.ring.Push(d.wip)), fPos, WFreeEvicted(Evicted(d.ring))))
  {
    hide Finish, Ring.Push, ReadStep, SeekStep;
    var p := Evicted(d.ring);
    var r1, r2, r3, r4 := PushSteps(d.ring, d.wip);
    OneStep(call, Conf(d, fPos, AEvict), Conf(d, fPos, AStore(p)));
    OneStep(call, Conf(d, fPos, AStore(p)), Conf(d.(ring := r1), fPos, AIndex(p)));
    FinishIndices(d, fPos, call, p, r1, r2, r3, r4);
  }

  lemma FinishIndices(d: Device, fPos: int, call: Call, p: Ptr, r1: Ring, r2: Ring, r3: Ring, r4: Ring)
    requires call.Write?
    requires r2 == r1.(inOffs := r1.inOffs + 1)
    requires r3 == if r2.inOffs == CAPACITY then r2.(inOffs := 0, full := true) else r2
    requires r4 == if r3.full then r3.(outOffs := r3.inOffs) else r3
    ensures Finish(call, Conf(d.(ring := r1), fPos, AIndex(p))) == Finish(call, Conf(d.(ring := r4), fPos, WFreeEvicted(p)))
  {
    hide Finish, ReadStep, SeekStep;
    OneStep(call, Conf(d.(ring := r1), fPos, AIndex(p)), Conf(d.(ring := r2), fPos, AWrap(p)));
    OneStep(call, Conf(d.(ring := r2), fPos, AWrap(p)), Conf(d.(ring := r3), fPos, AOut(p)));
    OneStep(call, Conf(d.(ring := r3), fPos, AOut(p)), Conf(d.(ring := r4), fPos, WFreeEvicted(p)));
  }

  /** From a completed entry on: the flush. */
  lemma FinishFlush(d: Device, fPos: int, call: Call)
    requires Sound(d) && call.Write? && EndsInNewline(Pending(d))
    ensures Finish(call, Conf(d, fPos, AEvict)) == Finish(call, Conf(Flushed(d), fPos, WSize(0, 0)))
  {
    hide Finish, Holds, Ring.Push, EndsInNewline, ReadStep, SeekStep;
    SoundFacts(d);
    FinishAdd(d, fPos, call);
    var p := Evicted(d.ring);
    var d1 := d.(ring := d.ring.Push(d.wip));
    var d2 := d1.(heap := d.heap.KFree(p));
    OneStep(call, Conf(d1, fPos, WFreeEvicted(p)), Conf(d2, fPos, WNullPtr));
    var d3 := d2.(wip := d2.wip.(buffptr := NULL));
    OneStep(call, Conf(d2, fPos, WNullPtr), Conf(d3, fPos, WNullSize));
    OneStep(call, Conf(d3, fPos, WNullSize), Conf(Flushed(d), fPos, WSize(0, 0)));
  }

  /** From the allocation to the copy from the user. */
  lemma FinishGrow(d: Device, fPos: int, call: Call)
    requires Valid(d) && call.Write? && |call.buf| < HEAP_LIMIT
    requires !call.noMemory && d.heap.Fits(NewBlockSize(d, call.buf))
    ensures Finish(call, Conf(d, fPos, WAlloc))
            == Finish(call, Conf(d.(heap := GrownHeap(d.heap, d.wip, call.buf)), fPos, WCopyNew(d.heap.next)))
  {
    hide Finish, Holds, Overwrite, GrownHeap, ReadStep, SeekStep;
    PendingFacts(d, call.buf);
    var b := d.heap.next;
    var h1 := d.heap.Alloc(NewBlockSize(d, call.buf));
    var h2 := h1.Store(b, d.wip.size + |call.buf|, [NUL]);
    OneStep(call, Conf(d, fPos, WAlloc), Conf(d.(heap := h1), fPos, WTerminate(b)));
    OneStep(call, Conf(d.(heap := h1), fPos, WTerminate(b)), Conf(d.(heap := h2), fPos, WCopyOld(b)));
    FinishCopyOld(d, fPos, call);
  }

  lemma FinishCopyOld(d: Device, fPos: int, call: Call)
    requires call.Write? && (d.wip == EMPTY || (Owns(d.heap, d.wip) && d.wip.buffptr < d.heap.next))
    ensures var h2 := d.heap.Alloc(NewBlockSize(d, call.buf)).Store(d.heap.next, d.wip.size + |call.buf|, [NUL]);
            Finish(call, Conf(d.(heap := h2), fPos, WCopyOld(d.heap.next)))
            == Finish(call, Conf(d.(heap := GrownHeap(d.heap, d.wip, call.buf)), fPos, WCopyNew(d.heap.next)))
  {
    hide Finish, Overwrite, GrownHeap, ReadStep, SeekStep;
    GrownSteps(d.heap, d.wip, call.buf);
    var b := d.heap.next;
    var h2 := d.heap.Alloc(NewBlockSize(d, call.buf)).Store(b, d.wip.size + |call.buf|, [NUL]);
    OneStep(call, Conf(d.(heap := h2), fPos, WCopyOld(b)),
            Conf(d.(heap := GrownHeap(d.heap, d.wip, call.buf)), fPos, WCopyNew(b)));
  }

  /** From the copy to the test for a completed entry. */
  lemma FinishFill(d: Device, fPos: int, call: Call)
    requires Valid(d) && call.Write? && |call.buf| < HEAP_LIMIT && !(call.faults && call.buf != [])
    ensures Finish(call, Conf(d.(heap := GrownHeap(d.heap, d.wip, call.buf)), fPos, WCopyNew(d.heap.next)))
            == Finish(call, Conf(Extended(d, call.buf), fPos, WTest))
  {
    hide Finish, Holds, Overwrite, ExtendedHeap, GrownHeap, Heap.KFree, Owns, Unflushed, ReadStep, SeekStep;
    PendingFacts(d, call.buf);
    ExtendedSteps(d.heap, d.wip, call.buf);
    var h, w, b := d.heap, d.wip, d.heap.next;
    var h3 := GrownHeap(h, w, call.buf);
    var h4 := h3.Store(b, w.size, call.buf);
    OneStep(call, Conf(d.(heap := h3), fPos, WCopyNew(b)), Conf(d.(heap := h4), fPos, WFreeOld(b)));
    OneStep(call, Conf(d.(heap := h4), fPos, WFreeOld(b)), Conf(d.(heap := ExtendedHeap(h, w, call.buf)), fPos, WSetPtr(b)));
    FinishSwap(d.(heap := ExtendedHeap(h, w, call.buf)), fPos, call, b);
  }

  lemma FinishSwap(d: Device, fPos: int, call: Call, b: Ptr)
    requires call.Write?
    ensures Finish(call, Conf(d, fPos, WSetPtr(b)))
            == Finish(call, Conf(d.(wip := Entry(b, d.wip.size + |call.buf|)), fPos, WTest))
  {
    hide Finish, ReadStep, SeekStep;
    var d1 := d.(wip := Entry(b, d.wip.size));
    OneStep(call, Conf(d, fPos, WSetPtr(b)), Conf(d1, fPos, WSetSize));
    OneStep(call, Conf(d1, fPos, WSetSize), Conf(d.(wip := Entry(b, d.wip.size + |call.buf|)), fPos, WTest));
  }

  lemma FinishTest(d: Device, fPos: int, call: Call)
    requires Valid(d) && call.Write? && d.heap.Fits(NewBlockSize(d, call.buf))
    ensures Finish(call, Conf(Extended(d, call.buf), fPos, WTest))
            == if d.wip.size + |call.buf| == 0 then Conf(Extended(d, call.buf), fPos, Dead)
               else Conf(Committed(d, call.buf), AfterWritePos(Committed(d, call.buf).ring), Unlocking(Ret(|call.buf|, [])))
  {
    hide Finish, Holds, ExtendedHeap;
    var d1 := Extended(d, call.buf);
    if d.wip.size + |call.buf| == 0 {
      OneStep(call, Conf(d1, fPos, WTest), Conf(d1, fPos, Dead));
    } else {
      ExtendedSound(d, call.buf);
      TestedByte(d1);
      if EndsInNewline(Pending(d1)) {
        OneStep(call, Conf(d1, fPos, WTest), Conf(d1, fPos, AEvict));
        FlushedSound(d1);
        FinishFlush(d1, fPos, call);
      } else {
        OneStep(call, Conf(d1, fPos, WTest), Conf(d1, fPos, WSize(0, 0)));
      }
      FinishSize(Committed(d, call.buf), fPos, call, 0);
    }
  }

  lemma TestedByte(d: Device)
    requires Sound(d) && d.wip != EMPTY
    ensures d.wip.size > 0 && d.wip.buffptr in d.heap.blocks && d.wip.size <= |d.heap.blocks[d.wip.buffptr]|
    ensures EndsInNewline(Pending(d)) <==> d.heap.blocks[d.wip.buffptr][d.wip.size - 1] == NEWLINE
  {
  }

  lemma FinishWrite(d: Device, fPos: int, call: Call)
    requires Valid(d) && call.Write? && Legal(call)
    ensures Finish(call, Conf(d, fPos, WAlloc)) == Ended(DoWrite(d, fPos, call.buf, call.noMemory, call.faults))
  {
    hide Finish, Holds;
    PendingFacts(d, call.buf);
    if call.noMemory || !d.heap.Fits(NewBlockSize(d, call.buf)) {
      OneStep(call, Conf(d, fPos, WAlloc), Conf(d, fPos, Unlocking(Ret(-ENOMEM, []))));
    } else {
      FinishGrow(d, fPos, call);
      var d3 := d.(heap := GrownHeap(d.heap, d.wip, call.buf));
      if call.faults && call.buf != [] {
        OneStep(call, Conf(d3, fPos, WCopyNew(d.heap.next)), Conf(d3, fPos, Unlocking(Ret(-EFAULT, []))));
      } else {
        FinishFill(d, fPos, call);
        FinishTest(d, fPos, call);
      }
    }
  }

  /**
   A call that takes the lock, run one statement at a time from a valid device with nobody
   interfering, dies only where `DoCall` crashes and otherwise unlocks with `DoCall`'s result,
   device and position.
   */
  lemma FinishIsDoCall(d: Device, fPos: int, call: Call)
    requires Valid(d) && IsOffset(fPos) && Legal(call) && Early(call).None?
    ensures Finish(call, Conf(d, fPos, First(call))) == Ended(DoCall(d, fPos, call))
  {
    match call
    case Read(_, _, _) =>
      FinishLookup(d, fPos, call, 0);
      ReadMeaning(d, fPos, call);
    case Write(_, _, _, _) =>
      FinishWrite(d, fPos, call);
    case SeekTo(_, _, _, _) =>
      FinishSeek(d, fPos, call, 0);
    case OtherIoctl =>
  }
}
