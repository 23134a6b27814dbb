/**
 The critical sections of the driver's operations, one C statement (or one loop iteration) at a
 time (aesd-char-driver/main.c, aesd-char-driver/aesd-circular-buffer.c). CallEffects proves that a
 critical section run to its end has exactly the effect `DoCall` gives the call.

 Between two statements the device is in no meaningful state: blocks are referenced twice, freed
 blocks are still pointed to, the ring's indices disagree. That is what the lock is for.
 */
module CallSteps {
  import opened Bytes
  import opened CircularBuffers
  import opened DeviceModel
  import opened AesdDevice

  /** Where a caller stands inside the critical section, with its local variables. */
  datatype Pc =
    // aesd_read
    | RLookup(i: nat, accLength: int)
    | RCopy(slot: nat, entryPos: int)
    | RAdvance(data: Bytes)
    // aesd_write
    | WAlloc
    | WTerminate(bptr: Ptr)
    | WCopyOld(bptr: Ptr)
    | WCopyNew(bptr: Ptr)
    | WFreeOld(bptr: Ptr)
    | WSetPtr(bptr: Ptr)
    | WSetSize
    | WTest
    | AEvict
    | AStore(removed: Ptr)
    | AIndex(removed: Ptr)
    | AWrap(removed: Ptr)
    | AOut(removed: Ptr)
    | WFreeEvicted(removed: Ptr)
    | WNullPtr
    | WNullSize
    | WSize(i: nat, accSize: int)
    | WSetPos(size: int)
    // aesd_adjust_file_offset
    | SLoop(index: nat, offset: int)
    | SSetPos(offset: int)
    // the lock is about to be released; or the caller died on a bad access, holding it
    | Unlocking(ret: Ret)
    | Dead

  /** What a caller in its critical section works on: the device and its own file position. */
  datatype Conf = Conf(dev: Device, fPos: int, pc: Pc)

  predicate Terminal(pc: Pc) {
    pc.Unlocking? || pc.Dead?
  }

  function First(call: Call): Pc {
    match call
    case Read(_, _, _) => RLookup(0, 0)
    case Write(_, _, _, _) => WAlloc
    case SeekTo(_, _, _, _) => SLoop(0, 0)
    case OtherIoctl => Dead
  }

  function EntryAt(r: Ring, i: nat): Entry {
    if i < |r.entry| then r.entry[i] else EMPTY
  }

  function Scanned(r: Ring, i: nat): Entry {
    EntryAt(r, (r.outOffs + i) % CAPACITY)
  }

  predicate CanFree(h: Heap, p: Ptr) {
    p == NULL || p in h.blocks
  }

  function ReadStep(c: Conf, count: nat, faults: bool): Conf {
    match c.pc
    case RLookup(i, acc) =>
      if i >= CAPACITY then c.(pc := Unlocking(Ret(0, [])))
      else
        var next := SizeT(acc + Scanned(c.dev.ring, i).size);
        if next > SizeT(c.fPos) then c.(pc := RCopy((c.dev.ring.outOffs + i) % CAPACITY, SizeT(c.fPos) - acc))
        else c.(pc := RLookup(i + 1, next))
    case RCopy(slot, pos) =>
      var e := EntryAt(c.dev.ring, slot);
      var n := if count > e.size - pos then e.size - pos else count;
      if faults && n > 0 then c.(pc := Unlocking(Ret(-EFAULT, [])))
      else if e.buffptr !in c.dev.heap.blocks || !(0 <= pos <= pos + n <= |c.dev.heap.blocks[e.buffptr]|) then c.(pc := Dead)
      else c.(pc := RAdvance(c.dev.heap.blocks[e.buffptr][pos..pos + n]))
    case RAdvance(data) => c.(fPos := c.fPos + |data|, pc := Unlocking(Ret(|data|, data)))
    case _ => c.(pc := Dead)
  }

  function WriteStep(c: Conf, buf: Bytes, noMemory: bool, faults: bool): Conf {
    var Device(ring, wip, heap) := c.dev;
    match c.pc
    case WAlloc =>
      var n := SizeT(wip.size + |buf| + 1);
      if noMemory || !heap.Fits(n) then c.(pc := Unlocking(Ret(-ENOMEM, [])))
      else c.(dev := c.dev.(heap := heap.Alloc(n)), pc := WTerminate(heap.next))
    case WTerminate(b) =>
      if !heap.Room(b, wip.size + |buf|, [NUL]) then c.(pc := Dead)
      else c.(dev := c.dev.(heap := heap.Store(b, wip.size + |buf|, [NUL])), pc := WCopyOld(b))
    case WCopyOld(b) =>
      if wip.buffptr == NULL then c.(pc := WCopyNew(b))
      else if wip.buffptr !in heap.blocks || |heap.blocks[wip.buffptr]| < wip.size
              || !heap.Room(b, 0, heap.blocks[wip.buffptr][..wip.size]) then c.(pc := Dead)
      else c.(dev := c.dev.(heap := heap.Store(b, 0, heap.blocks[wip.buffptr][..wip.size])), pc := WCopyNew(b))
    case WCopyNew(b) =>
      if faults && |buf| > 0 then c.(pc := Unlocking(Ret(-EFAULT, [])))
      else if !heap.Room(b, wip.size, buf) then c.(pc := Dead)
      else c.(dev := c.dev.(heap := heap.Store(b, wip.size, buf)), pc := WFreeOld(b))
    case WFreeOld(b) =>
      if !CanFree(heap, wip.buffptr) then c.(pc := Dead)
      else c.(dev := c.dev.(heap := heap.KFree(wip.buffptr)), pc := WSetPtr(b))
    case WSetPtr(b) => c.(dev := c.dev.(wip := wip.(buffptr := b)), pc := WSetSize)
    case WSetSize => c.(dev := c.dev.(wip := wip.(size := wip.size + |buf|)), pc := WTest)
    case WTest =>
      if wip.size == 0 || wip.buffptr !in heap.blocks || |heap.blocks[wip.buffptr]| < wip.size then c.(pc := Dead)
      else if heap.blocks[wip.buffptr][wip.size - 1] == NEWLINE then c.(pc := AEvict)
      else c.(pc := WSize(0, 0))
    case AEvict => c.(pc := AStore(EntryAt(ring, ring.inOffs).buffptr))
    case AStore(p) =>
      if ring.inOffs >= |ring.entry| then c.(pc := Dead)
      else c.(dev := c.dev.(ring := ring.(entry := ring.entry[ring.inOffs := wip])), pc := AIndex(p))
    case AIndex(p) => c.(dev := c.dev.(ring := ring.(inOffs := ring.inOffs + 1)), pc := AWrap(p))
    case AWrap(p) =>
      c.(dev := c.dev.(ring := if ring.inOffs == CAPACITY then ring.(inOffs := 0, full := true) else ring), pc := AOut(p))
    case AOut(p) =>
      c.(dev := c.dev.(ring := if ring.full then ring.(outOffs := ring.inOffs) else ring), pc := WFreeEvicted(p))
    case WFreeEvicted(p) =>
      if !CanFree(heap, p) then c.(pc := Dead)
      else c.(dev := c.dev.(heap := heap.KFree(p)), pc := WNullPtr)
    case WNullPtr => c.(dev := c.dev.(wip := wip.(buffptr := NULL)), pc := WNullSize)
    case WNullSize => c.(dev := c.dev.(wip := wip.(size := 0)), pc := WSize(0, 0))
    case WSize(i, acc) =>
      if i >= CAPACITY then c.(pc := WSetPos(acc)) else c.(pc := WSize(i + 1, SizeT(acc + Scanned(ring, i).size)))
    case WSetPos(size) => c.(fPos := AsLoff(SizeT(size - 1)), pc := Unlocking(Ret(|buf|, [])))
    case _ => c.(pc := Dead)
  }

  function SeekStep(c: Conf, cmd: nat, off: nat): Conf {
    match c.pc
    case SLoop(index, offset) =>
      if index > cmd then c.(pc := SSetPos(offset))
      else
        var e := Scanned(c.dev.ring, index);
        if e.buffptr == NULL then c.(pc := Unlocking(Ret(-EINVAL, [])))
        else if index != cmd then c.(pc := SLoop(index + 1, SizeT(offset + e.size)))
        else if off >= e.size then c.(pc := Unlocking(Ret(-EINVAL, [])))
        else c.(pc := SLoop(index + 1, SizeT(offset + off)))
    case SSetPos(offset) => c.(fPos := AsLoff(offset), pc := Unlocking(Ret(0, [])))
    case _ => c.(pc := Dead)
  }

  /** One statement of the call's critical section. */
  function Micro(call: Call, c: Conf): Conf {
    match call
    case Read(count, _, faults) => ReadStep(c, count, faults)
    case Write(buf, _, noMemory, faults) => WriteStep(c, buf, noMemory, faults)
    case SeekTo(cmd, off, _, _) => SeekStep(c, cmd, off)
    case OtherIoctl => c.(pc := Dead)
  }

  /** Statements left at most; the loops count their remaining iterations. */
  function Rank(call: Call, pc: Pc): nat {
    match pc
    case RLookup(i, _) => if i < CAPACITY then 10 + CAPACITY - i else 10
    case RCopy(_, _) => 9
    case RAdvance(_) => 8
    case WAlloc => 60
    case WTerminate(_) => 59
    case WCopyOld(_) => 58
    case WCopyNew(_) => 57
    case WFreeOld(_) => 56
    case WSetPtr(_) => 55
    case WSetSize => 54
    case WTest => 53
    case AEvict => 52
    case AStore(_) => 51
    case AIndex(_) => 50
    case AWrap(_) => 49
    case AOut(_) => 48
    case WFreeEvicted(_) => 47
    case WNullPtr => 46
    case WNullSize => 45
    case WSize(i, _) => if i < CAPACITY then 10 + CAPACITY - i else 10
    case WSetPos(_) => 9
    case SLoop(index, _) => if call.SeekTo? && index <= call.writeCmd then 10 + call.writeCmd + 1 - index else 10
    case SSetPos(_) => 9
    case Unlocking(_) => 0
    case Dead => 0
  }

  lemma ReadDescends(call: Call, c: Conf)
    requires !Terminal(c.pc) && call.Read?
    ensures Rank(call, ReadStep(c, call.count, call.faults).pc) < Rank(call, c.pc)
  {
  }

  lemma WriteDescends(call: Call, c: Conf)
    requires !Terminal(c.pc) && call.Write?
    ensures Rank(call, WriteStep(c, call.buf, call.noMemory, call.faults).pc) < Rank(call, c.pc)
  {
  }

  lemma SeekDescends(call: Call, c: Conf)
    requires !Terminal(c.pc) && call.SeekTo?
    ensures Rank(call, SeekStep(c, call.writeCmd, call.writeCmdOffset).pc) < Rank(call, c.pc)
  {
  }

  /** Every statement brings the end of the critical section nearer. */
  lemma MicroDescends(call: Call, c: Conf)
    requires !Terminal(c.pc)
    ensures Rank(call, Micro(call, c).pc) < Rank(call, c.pc)
  {
    hide ReadStep, WriteStep, SeekStep;
    match call
    case Read(_, _, _) => ReadDescends(call, c);
    case Write(_, _, _, _) => WriteDescends(call, c);
    case SeekTo(_, _, _, _) => SeekDescends(call, c);
    case OtherIoctl =>
  }

  /** The critical section run to its end from `c`. */
  function Finish(call: Call, c: Conf): (r: Conf)
    ensures Terminal(r.pc)
    decreases Rank(call, c.pc)
  {
    if Terminal(c.pc) then c
    else
      MicroDescends(call, c);
      Finish(call, Micro(call, c))
  }

  /** The end `DoCall` describes: about to unlock with the result, or dead. */
  function Ended(o: Outcome): Conf {
    Conf(o.dev, o.fPos, if o.ret.Crash? then Dead else Unlocking(o.ret))
  }
}
