/**
 The driver's file operations as imperative code (aesd-char-driver/main.c), each proved to have
 exactly the effect `DoCall` gives it.
 */
module AesdDevice {
  import opened Bytes
  import opened CircularBuffers
  import opened DeviceModel
  import opened DeviceMeaning

  const AESDCHAR_IOCSEEKTO: int := 0xC008_1601  // _IOWR(0x16, 1, struct aesd_seekto)

  /** What the driver uses of struct file. */
  class OpenFile {
    var fPos: int

    constructor ()
      ensures fPos == 0
    {
      fPos := 0;
    }
  }

  /** A size_t stored into a loff_t. */
  function AsLoff(x: int): int {
    if x >= HEAP_LIMIT then x - SIZE_T else x
  }

  /** The size computed in size_t less one, stored into a loff_t: -1 when the ring is empty. */
  function LastBytePos(size: nat): (r: int)
    ensures size <= HEAP_LIMIT ==> r == size - 1
  {
    AsLoff(SizeT(size - 1))
  }

  /** kmalloc, the terminator and memcpy move the pending bytes to a larger block. */
  lemma GrownSteps(h: Heap, w: Entry, buf: Bytes)
    requires w == EMPTY || (Owns(h, w) && w.buffptr < h.next)
    ensures h.Alloc(w.size + |buf| + 1).Store(h.next, w.size + |buf|, [NUL]).Store(h.next, 0, Unflushed(h, w))
            == GrownHeap(h, w, buf)
    ensures w == EMPTY ==> h.Alloc(w.size + |buf| + 1).Store(h.next, w.size + |buf|, [NUL]) == GrownHeap(h, w, buf)
  {
    var h0 := h.Alloc(w.size + |buf| + 1).Store(h.next, w.size + |buf|, [NUL]);
    if w == EMPTY {
      assert h0.blocks[h.next] == Unflushed(h, w) + seq(|buf| + 1, _ => NUL);
      assert h0.blocks == GrownHeap(h, w, buf).blocks;
    }
    var h1 := h.Alloc(w.size + |buf| + 1).Store(h.next, w.size + |buf|, [NUL]).Store(h.next, 0, Unflushed(h, w));
    assert h1.blocks[h.next] == Unflushed(h, w) + seq(|buf| + 1, _ => NUL);
    assert h1.blocks == GrownHeap(h, w, buf).blocks;
  }

  /** copy_from_user and kfree make it the extended entry's block. */
  lemma ExtendedSteps(h: Heap, w: Entry, buf: Bytes)
    requires w == EMPTY || (Owns(h, w) && w.buffptr < h.next)
    ensures var h1 := GrownHeap(h, w, buf);
            && h1.Room(h.next, w.size, buf)
            && (w.buffptr == NULL || w.buffptr in h1.blocks)
            && h1.Store(h.next, w.size, buf).KFree(w.buffptr) == ExtendedHeap(h, w, buf)
  {
    var h2 := GrownHeap(h, w, buf).Store(h.next, w.size, buf);
    assert h2.blocks[h.next] == Unflushed(h, w) + buf + [NUL];
    assert h2.KFree(w.buffptr).blocks == ExtendedHeap(h, w, buf).blocks;
  }

  lemma PendingFacts(d: Device, buf: Bytes)
    requires Sound(d) && |buf| < HEAP_LIMIT
    ensures d.wip == EMPTY || (Owns(d.heap, d.wip) && d.wip.buffptr < d.heap.next)
    ensures d.wip.size + |buf| + 1 < SIZE_T
  {
    HoldsFacts(d.heap, d.ring.Queue(), d.wip);
  }

  /** What the second half of a write arrives at. */
  lemma CommittedPending(d: Device, buf: Bytes)
    requires Valid(d) && d.heap.Fits(NewBlockSize(d, buf)) && d.wip.size + |buf| > 0 && |buf| < HEAP_LIMIT
    ensures var d1 := Extended(d, buf);
            && Sound(d1)
            && Committed(d, buf) == (if EndsInNewline(Pending(d1)) then Flushed(d1) else d1)
    ensures SizeSum(Committed(d, buf).ring.Queue()) <= HEAP_LIMIT
  {
    ExtendedSound(d, buf);
    SoundFacts(Committed(d, buf));
  }

  /** Every slot's pointer is null or that of exactly one queued entry. */
  lemma SlotPointers(r: Ring)
    requires r.Valid() && Distinct(r.Queue(), EMPTY)
    ensures forall i, j :: 0 <= i < j < CAPACITY && r.entry[i].buffptr != NULL ==> r.entry[i].buffptr != r.entry[j].buffptr
    ensures forall p :: p != NULL ==> (p in Pointers(r.entry) <==> p in Pointers(r.Queue()))
  {
    forall i | 0 <= i < CAPACITY
      ensures r.entry[i] == EMPTY || (QueueIndex(r, i) < |r.Queue()| && r.entry[i] == r.Queue()[QueueIndex(r, i)])
    {
    }
    forall k | 0 <= k < |r.Queue()| ensures r.Queue()[k] == r.entry[(r.outOffs + k) % CAPACITY] {
      r.SlotAt(k);
    }
  }

  ghost function QueueIndex(r: Ring, i: nat): nat
    requires r.Valid() && i < CAPACITY
  {
    if i < r.outOffs then i + CAPACITY - r.outOffs else i - r.outOffs
  }

  class CharDevice {
    const buffer: CircularBuffer
    var wipEntry: Entry
    var heap: Heap

    ghost function State(): Device
      reads this, buffer, buffer.entry
    {
      Device(buffer.State(), wipEntry, heap)
    }

    ghost predicate Valid()
      reads this, buffer, buffer.entry
    {
      DeviceModel.Valid(State())
    }

    /** The device part of aesd_init_module. */
    constructor ()
      ensures Valid() && fresh(buffer) && fresh(buffer.entry)
      ensures State() == InitDevice()
    {
      buffer := new CircularBuffer();
      wipEntry := EMPTY;
      heap := EMPTY_HEAP;
    }

    /** aesd_read. */
    method Read(filp: OpenFile, count: nat, interrupted: bool, faults: bool) returns (retval: int, data: Bytes)
      requires Valid() && IsOffset(filp.fPos)
      requires DeviceModel.Legal(DeviceModel.Read(count, interrupted, faults))
      modifies filp
      ensures Outcome(State(), filp.fPos, Ret(retval, data))
              == DoCall(old(State()), old(filp.fPos), DeviceModel.Read(count, interrupted, faults))
    {
      if interrupted {
        return -ERESTARTSYS, [];
      }
      QueueBlocks(State());
      retval, data := ReadLocked(filp, count, faults);
    }

    /** aesd_read between lock and unlock. */
    method ReadLocked(filp: OpenFile, count: nat, faults: bool) returns (retval: int, data: Bytes)
      requires buffer.Valid() && Readable(heap, buffer.State().Queue()) && IsOffset(filp.fPos)
      modifies filp
      ensures (filp.fPos, Ret(retval, data))
              == old(ReadEntries(heap, buffer.State().Queue(), filp.fPos, count, faults))
    {
      ghost var q := buffer.State().Queue();
      var off := SizeT(filp.fPos);
      var slot, entryPos := buffer.FindEntryOffsetForFpos(off);
      if slot.None? {
        return 0, [];
      }
      var e := buffer.entry[slot.value];
      assert HasBlock(heap, q[Locate(q, off)]);
      var n := count;
      if n > e.size - entryPos {
        n := e.size - entryPos;
      }
      if faults && n > 0 {
        return -EFAULT, [];
      }
      data := heap.blocks[e.buffptr][entryPos..entryPos + n];
      BlockSlice(heap, e, entryPos, n);
      filp.fPos := filp.fPos + n;
      retval := n;
    }

    /** aesd_write. */
    method Write(filp: OpenFile, buf: Bytes, interrupted: bool, noMemory: bool, faults: bool) returns (ret: Ret)
      requires Valid() && IsOffset(filp.fPos)
      requires DeviceModel.Legal(DeviceModel.Write(buf, interrupted, noMemory, faults))
      modifies this, buffer, buffer.entry, filp
      ensures ret.Ret? ==> Valid()
      ensures Outcome(State(), filp.fPos, ret)
              == DoCall(old(State()), old(filp.fPos), DeviceModel.Write(buf, interrupted, noMemory, faults))
    {
      WriteMeaning(State(), filp.fPos, DeviceModel.Write(buf, interrupted, noMemory, faults));
      PendingFacts(State(), buf);
      if interrupted {
        return Ret(-ERESTARTSYS, []);
      }
      ret := WriteLocked(filp, buf, noMemory, faults);
    }

    /** aesd_write between lock and unlock. */
    method WriteLocked(filp: OpenFile, buf: Bytes, noMemory: bool, faults: bool) returns (ret: Ret)
      requires Valid() && |buf| < HEAP_LIMIT
      modifies this, buffer, buffer.entry, filp
      ensures Outcome(State(), filp.fPos, ret) == old(DoWrite(State(), filp.fPos, buf, noMemory, faults))
    {
      PendingFacts(State(), buf);
      var n := SizeT(wipEntry.size + |buf| + 1);
      if noMemory || !heap.Fits(n) {
        return Ret(-ENOMEM, []);
      }
      var bptr := AllocPending(n, buf);
      if faults && |buf| > 0 {
        return Ret(-EFAULT, []);
      }
      var completed := CommitPending(filp, bptr, buf, old(State()));
      ret := if completed then Ret(|buf|, []) else Crash;
    }

    /** The write's second half, from device `d` with the new block ready. It is not completed when
        there is no last byte to look at. */
    method CommitPending(filp: OpenFile, bptr: Ptr, buf: Bytes, ghost d: Device) returns (completed: bool)
      requires DeviceModel.Valid(d) && d.heap.Fits(NewBlockSize(d, buf)) && |buf| < HEAP_LIMIT && bptr == d.heap.next
      requires State() == d.(heap := GrownHeap(d.heap, d.wip, buf))
      modifies this, buffer, buffer.entry, filp
      ensures completed <==> d.wip.size + |buf| > 0
      ensures !completed ==> State() == Extended(d, buf) && filp.fPos == old(filp.fPos)
      ensures completed ==> State() == Committed(d, buf) && filp.fPos == AfterWritePos(Committed(d, buf).ring)
    {
      FillPending(bptr, buf, d);
      if wipEntry.size == 0 {
        return false;
      }
      CommittedPending(d, buf);
      FlushWhenComplete();
      assert State() == Committed(d, buf);
      var size := buffer.Size();
      filp.fPos := LastBytePos(size);
      completed := true;
    }

    /** A new block of `n` bytes, terminated, with the pending bytes copied in. */
    method AllocPending(n: nat, ghost buf: Bytes) returns (bptr: Ptr)
      requires wipEntry == EMPTY || (Owns(heap, wipEntry) && wipEntry.buffptr < heap.next)
      requires n == wipEntry.size + |buf| + 1
      modifies this`heap
      ensures bptr == old(heap.next)
      ensures heap == GrownHeap(old(heap), wipEntry, buf)
    {
      GrownSteps(heap, wipEntry, buf);
      bptr := heap.next;
      heap := heap.Alloc(n);
      heap := heap.Store(bptr, n - 1, [NUL]);
      if wipEntry.buffptr != NULL {
        heap := heap.Store(bptr, 0, heap.blocks[wipEntry.buffptr][..wipEntry.size]);
      }
    }

    /** The user's bytes copied in, the old block freed, the entry updated: the pending bytes of `d`
        have grown by `buf`, its commands and its lost blocks are the same. */
    method FillPending(bptr: Ptr, buf: Bytes, ghost d: Device)
      requires DeviceModel.Valid(d) && d.heap.Fits(NewBlockSize(d, buf)) && |buf| < HEAP_LIMIT && bptr == d.heap.next
      requires State() == d.(heap := GrownHeap(d.heap, d.wip, buf))
      modifies this
      ensures State() == Extended(d, buf)
      ensures Pending(State()) == Pending(d) + buf && View(State()) == View(d) && Leaked(State()) == Leaked(d)
    {
      ExtendedSound(d, buf);
      PendingFacts(d, buf);
      ExtendedSteps(d.heap, d.wip, buf);
      heap := heap.Store(bptr, wipEntry.size, buf);
      heap := heap.KFree(wipEntry.buffptr);
      wipEntry := wipEntry.(buffptr := bptr);
      wipEntry := wipEntry.(size := wipEntry.size + |buf|);
    }

    /** A pending entry whose last byte is a newline goes into the ring. */
    method FlushWhenComplete()
      requires Sound(State()) && wipEntry != EMPTY
      modifies this, buffer, buffer.entry
      ensures State() == if EndsInNewline(old(Pending(State()))) then Flushed(old(State())) else old(State())
    {
      SoundFacts(State());
      if heap.blocks[wipEntry.buffptr][wipEntry.size - 1] == NEWLINE {
        var oldbuf := buffer.AddEntry(wipEntry);
        heap := heap.KFree(oldbuf);
        wipEntry := wipEntry.(buffptr := NULL);
        wipEntry := wipEntry.(size := 0);
      }
    }

    /** aesd_adjust_file_offset. */
    method AdjustFileOffset(filp: OpenFile, writeCmd: nat, writeCmdOffset: nat, interrupted: bool) returns (retval: int)
      requires Valid() && IsOffset(filp.fPos)
      modifies filp
      ensures Outcome(State(), filp.fPos, Ret(retval, []))
              == DoCall(old(State()), old(filp.fPos), SeekTo(writeCmd, writeCmdOffset, interrupted, false))
    {
      if writeCmd >= CAPACITY {
        return -EINVAL;
      }
      if interrupted {
        return -ERESTARTSYS;
      }
      QueueBlocks(State());
      retval := AdjustLocked(filp, writeCmd, writeCmdOffset);
    }

    /** aesd_adjust_file_offset between lock and unlock. */
    method AdjustLocked(filp: OpenFile, writeCmd: nat, writeCmdOffset: nat) returns (retval: int)
      requires buffer.Valid() && Readable(heap, buffer.State().Queue()) && writeCmd < CAPACITY
      modifies filp
      ensures (filp.fPos, Ret(retval, []))
              == old(SeekEntries(buffer.State().Queue(), filp.fPos, writeCmd, writeCmdOffset))
    {
      ghost var q := buffer.State().Queue();
      ghost var result := SeekEntries(q, filp.fPos, writeCmd, writeCmdOffset);
      var offset := 0;
      var index := 0;
      while index <= writeCmd
        invariant index <= writeCmd + 1
        invariant index <= |q|
        invariant result == SeekEntries(q, filp.fPos, writeCmd, writeCmdOffset)
        invariant offset <= SizeSum(q)
        invariant index <= writeCmd ==> offset == Start(q, index)
        invariant index > writeCmd ==> writeCmdOffset < q[writeCmd].size && offset == Position(q, writeCmd, writeCmdOffset) < SizeSum(q)
      {
        var currentPos := (buffer.outOffs + index) % CAPACITY;
        ScannedSlot(buffer.State(), heap, index);
        var e := buffer.entry[currentPos];
        if e.buffptr == NULL {
          return -EINVAL;
        }
        assert index < |q| && e == q[index];
        StartMonotone(q, index + 1, |q|);
        if index != writeCmd {
          offset := SizeT(offset + e.size);
        } else {
          if writeCmdOffset >= e.size {
            return -EINVAL;
          }
          offset := SizeT(offset + writeCmdOffset);
        }
        index := index + 1;
      }
      filp.fPos := AsLoff(offset);
      retval := 0;
    }

    /** aesd_ioctl. */
    method Ioctl(filp: OpenFile, cmd: int, writeCmd: nat, writeCmdOffset: nat, interrupted: bool, faults: bool)
      returns (retval: int)
      requires Valid() && IsOffset(filp.fPos)
      modifies filp
      ensures Outcome(State(), filp.fPos, Ret(retval, []))
              == DoCall(old(State()), old(filp.fPos),
                        if cmd == AESDCHAR_IOCSEEKTO then SeekTo(writeCmd, writeCmdOffset, interrupted, faults) else OtherIoctl)
      ensures cmd != AESDCHAR_IOCSEEKTO ==> retval == -ENOTTY && filp.fPos == old(filp.fPos) && State() == old(State())
      ensures cmd == AESDCHAR_IOCSEEKTO && retval != 0 ==> filp.fPos == old(filp.fPos) && State() == old(State())
      ensures cmd == AESDCHAR_IOCSEEKTO ==>
                retval == if faults then -EFAULT
                          else if writeCmd >= CAPACITY then -EINVAL
                          else if interrupted then -ERESTARTSYS
                          else if !Stored(View(State()), writeCmd, writeCmdOffset) then -EINVAL
                          else 0
    {
      OtherIoctlMeaning(State(), filp.fPos);
      SeekCodes(State(), filp.fPos, writeCmd, writeCmdOffset, interrupted, faults);
      if cmd != AESDCHAR_IOCSEEKTO {
        return -ENOTTY;
      }
      if faults {
        return -EFAULT;
      }
      retval := AdjustFileOffset(filp, writeCmd, writeCmdOffset, interrupted);
    }

    /** The buffer-freeing part of aesd_cleanup_module. */
    method Cleanup()
      requires Valid()
      modifies this`heap
      ensures heap.Valid()
      ensures heap.blocks.Keys == Leaked(old(State()))
      ensures old(heap).freed <= heap.freed && heap.next == old(heap.next)
    {
      CleanupFacts(State());
      ghost var h0, slots := heap, buffer.entry[..];
      var index := 0;
      while index < CAPACITY
        invariant index <= CAPACITY
        invariant heap.Valid() && heap.next == h0.next && h0.freed <= heap.freed
        invariant heap.blocks.Keys == h0.blocks.Keys - Pointers(slots[..index])
      {
        var p := buffer.entry[index].buffptr;
        PointersOfSlots(slots, index);
        if p != NULL {
          FreeValid(heap, p);
          heap := heap.Free(p);
        }
        index := index + 1;
      }
      assert slots[..CAPACITY] == slots;
      if wipEntry.buffptr != NULL {
        FreeValid(heap, wipEntry.buffptr);
        heap := heap.Free(wipEntry.buffptr);
      }
    }
  }

  lemma PointersOfSlots(q: seq<Entry>, i: nat)
    requires i < |q|
    ensures Pointers(q[..i + 1]) == Pointers(q[..i]) + {q[i].buffptr}
  {
    assert q[..i + 1] == q[..i] + [q[i]];
    assert q[..i + 1][i] == q[i];
    forall j | 0 <= j < i ensures q[..i][j] == q[..i + 1][j] {
    }
  }

  /** The ring holds a command `k`, and it has a byte `b`. */
  ghost predicate Stored(v: seq<Bytes>, k: nat, b: nat) {
    k < |v| && b < |v[k]|
  }

  lemma SeekCodes(d: Device, fPos: int, k: nat, b: nat, interrupted: bool, faults: bool)
    requires Valid(d) && IsOffset(fPos)
    ensures var o := DoCall(d, fPos, SeekTo(k, b, interrupted, faults));
      && o.dev == d && (o.ret != Ret(0, []) ==> o.fPos == fPos)
      && o.ret == Ret(if faults then -EFAULT
                      else if k >= CAPACITY then -EINVAL
                      else if interrupted then -ERESTARTSYS
                      else if !Stored(View(d), k, b) then -EINVAL
                      else 0, [])
  {
    HoldsFacts(d.heap, d.ring.Queue(), d.wip);
  }

  /** Cleanup frees live blocks only, and no block twice. */
  lemma CleanupFacts(d: Device)
    requires Sound(d)
    ensures forall i :: 0 <= i < CAPACITY && d.ring.entry[i].buffptr != NULL ==>
              && d.ring.entry[i].buffptr in d.heap.blocks
              && d.ring.entry[i].buffptr !in Pointers(d.ring.entry[..i])
    ensures d.wip.buffptr != NULL ==> d.wip.buffptr in d.heap.blocks && d.wip.buffptr !in Pointers(d.ring.entry)
    ensures d.heap.blocks.Keys - Pointers(d.ring.entry) - {d.wip.buffptr} == Leaked(d)
    ensures NULL !in d.heap.blocks
  {
    QueuePointers(d.heap, d.ring.Queue(), d.wip);
    SlotPointers(d.ring);
    forall i | 0 <= i < CAPACITY ensures d.ring.entry[i].buffptr in Pointers(d.ring.entry) {
    }
  }

  /** The slot the scan looks at: the queue's next entry, with a pointer, or an empty slot. */
  lemma ScannedSlot(r: Ring, h: Heap, i: nat)
    requires r.Valid() && i < CAPACITY && Readable(h, r.Queue())
    ensures var e := r.entry[(r.outOffs + i) % CAPACITY];
            if i < |r.Queue()| then e == r.Queue()[i] && e.buffptr != NULL else e == EMPTY
  {
    r.SlotAt(i);
    SlotsStart(r, i);
  }

  ghost predicate HasBlock(h: Heap, e: Entry) {
    e.buffptr != NULL && e.buffptr in h.blocks && |h.blocks[e.buffptr]| == e.size + 1
  }

  lemma BlockSlice(h: Heap, e: Entry, b: nat, n: nat)
    requires HasBlock(h, e) && b + n <= e.size
    ensures h.blocks[e.buffptr][b..b + n] == Slice(Content(h, e), b, n)
  {
    var block := h.blocks[e.buffptr];
    assert block[..e.size][b..b + n] == block[b..b + n];
  }

  /** The entries `q` can be read, and their sizes can be summed without wrapping. */
  ghost predicate Readable(h: Heap, q: seq<Entry>) {
    SizeSum(q) <= HEAP_LIMIT && forall i :: 0 <= i < |q| ==> HasBlock(h, q[i])
  }

  lemma QueueBlocks(d: Device)
    requires Sound(d)
    ensures Readable(d.heap, d.ring.Queue())
  {
    HoldsFacts(d.heap, d.ring.Queue(), d.wip);
  }
}
