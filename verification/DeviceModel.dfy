/**
 The aesdchar device as a value, and what one system call does to it
 (aesd-char-driver/main.c).

 `Device` is the concrete state: ring structure, pending entry and kernel heap. `Contents` is
 what a user can tell: the stored commands and the pending bytes. `DoCall` gives the whole
 effect of one call; `CallContents` says what that effect means on contents.
 */
module DeviceModel {
  import opened Bytes
  import opened CircularBuffers

  const ENOMEM: int := 12
  const EFAULT: int := 14
  const EINVAL: int := 22
  const ENOTTY: int := 25
  const ERESTARTSYS: int := 512

  /** Half of the 64-bit address space: no kernel heap, and no ssize_t, goes beyond it. */
  const HEAP_LIMIT: int := 0x8000_0000_0000_0000

  // ---------------------------------------------------------------------------------------
  // Kernel heap

  /**
   `blocks` are the live allocations, `freed` the releases so far. An identity is never
   handed out twice, so a pointer stands for one allocation, not for an address.
   */
  datatype Heap = Heap(blocks: map<Ptr, Bytes>, next: Ptr, used: int, freed: multiset<Ptr>) {

    ghost predicate Valid() {
      && 1 <= next
      && used <= HEAP_LIMIT
      && (forall p :: p in blocks ==> 1 <= p < next)
      // every identity ever handed out is either live or was released exactly once
      && (forall p :: freed[p] == if 1 <= p < next && p !in blocks then 1 else 0)
    }

    predicate Fits(n: nat) {
      used + n <= HEAP_LIMIT
    }

    /** kmalloc(n): block `next`, zeros standing for its uninitialised bytes. */
    function Alloc(n: nat): Heap {
      Heap(blocks[next := seq(n, _ => NUL)], next + 1, used + n, freed)
    }

    predicate Room(p: Ptr, at: nat, src: Bytes) {
      p in blocks && at + |src| <= |blocks[p]|
    }

    /** A copy of `src` into block `p`. */
    function Store(p: Ptr, at: nat, src: Bytes): Heap
      requires Room(p, at, src)
    {
      this.(blocks := blocks[p := Overwrite(blocks[p], at, src)])
    }

    /** kfree of a live block. */
    function Free(p: Ptr): Heap
      requires p in blocks
    {
      Heap(blocks - {p}, next, used - |blocks[p]|, freed + multiset{p})
    }

    /** kfree, for which the null pointer is a no-op. */
    function KFree(p: Ptr): Heap
      requires p == NULL || p in blocks
    {
      if p == NULL then this else Free(p)
    }
  }

  const EMPTY_HEAP: Heap := Heap(map[], 1, 0, multiset{})

  // ---------------------------------------------------------------------------------------
  // Device

  datatype Device = Device(ring: Ring, wip: Entry, heap: Heap)

  ghost function InitDevice(): (d: Device)
    ensures Valid(d) && View(d) == [] && Pending(d) == [] && Leaked(d) == {}
  {
    Device(InitRing(), EMPTY, EMPTY_HEAP)
  }

  /** An entry with its own block: `size` bytes and the terminating NUL. */
  ghost predicate Owns(h: Heap, e: Entry) {
    && e.buffptr != NULL
    && e.buffptr in h.blocks
    && 0 < e.size
    && |h.blocks[e.buffptr]| == e.size + 1
  }

  function Content(h: Heap, e: Entry): Bytes {
    if e.buffptr in h.blocks && e.size <= |h.blocks[e.buffptr]| then h.blocks[e.buffptr][..e.size] else []
  }

  predicate EndsInNewline(s: Bytes) {
    s != [] && s[|s| - 1] == NEWLINE
  }

  ghost predicate Distinct(q: seq<Entry>, w: Entry) {
    && (forall i, j :: 0 <= i < j < |q| ==> q[i].buffptr != q[j].buffptr)
    && (forall i :: 0 <= i < |q| ==> q[i].buffptr != w.buffptr)
  }

  /** Bytes of heap the ring and the pending entry account for. */
  ghost function OwnedBytes(q: seq<Entry>, w: Entry): nat {
    SizeSum(q) + |q| + if w == EMPTY then 0 else w.size + 1
  }

  /** Heap `h` holds the ring's entries `q` and the pending entry `w`, each in its own block. */
  ghost predicate Holds(h: Heap, q: seq<Entry>, w: Entry) {
    && h.Valid()
    && |q| <= CAPACITY
    && (w == EMPTY || Owns(h, w))
    && (forall i :: 0 <= i < |q| ==> Owns(h, q[i]) && EndsInNewline(Content(h, q[i])))
    && Distinct(q, w)
    && OwnedBytes(q, w) <= h.used
  }

  /** Everything that holds of the device even while a completed entry waits to be flushed. */
  ghost predicate Sound(d: Device) {
    d.ring.Valid() && Holds(d.heap, d.ring.Queue(), d.wip)
  }

  /** The invariant between calls. */
  ghost predicate Valid(d: Device) {
    Sound(d) && !EndsInNewline(Pending(d))
  }

  ghost function Commands(h: Heap, q: seq<Entry>): (v: seq<Bytes>)
    ensures |v| == |q|
  {
    seq(|q|, i requires 0 <= i < |q| => Content(h, q[i]))
  }

  /** The stored commands, oldest first. */
  ghost function View(d: Device): (v: seq<Bytes>)
    requires d.ring.Valid()
  {
    Commands(d.heap, d.ring.Queue())
  }

  ghost function Pending(d: Device): Bytes {
    Unflushed(d.heap, d.wip)
  }

  ghost function Unflushed(h: Heap, w: Entry): Bytes {
    if w == EMPTY then [] else Content(h, w)
  }

  ghost function Pointers(q: seq<Entry>): set<Ptr> {
    set i | 0 <= i < |q| :: q[i].buffptr
  }

  /** Blocks that are live but neither the pending entry's nor the ring's. */
  ghost function Unowned(h: Heap, q: seq<Entry>, w: Entry): set<Ptr> {
    h.blocks.Keys - Pointers(q) - {w.buffptr}
  }

  ghost function Leaked(d: Device): set<Ptr>
    requires d.ring.Valid()
  {
    Unowned(d.heap, d.ring.Queue(), d.wip)
  }

  // ---------------------------------------------------------------------------------------
  // Calls

  /** A system call together with what the kernel around it decides. */
  datatype Call =
    | Read(count: nat, interrupted: bool, faults: bool)
    | Write(buf: Bytes, interrupted: bool, noMemory: bool, faults: bool)
    | SeekTo(writeCmd: nat, writeCmdOffset: nat, interrupted: bool, faults: bool)
    | OtherIoctl

  /** Return value, and for a read the bytes delivered. `Crash` is the read of byte -1. */
  datatype Ret = Ret(value: int, data: Bytes) | Crash

  datatype Outcome = Outcome(dev: Device, fPos: int, ret: Ret)

  /** What the kernel guarantees of arguments: count is an ssize_t, the seek pair is uint32_t. */
  predicate Legal(call: Call) {
    match call
    case Read(count, _, _) => count < HEAP_LIMIT
    case Write(buf, _, _, _) => |buf| < HEAP_LIMIT
    case SeekTo(cmd, off, _, _) => cmd < 0x1_0000_0000 && off < 0x1_0000_0000
    case OtherIoctl => true
  }

  predicate IsOffset(fPos: int) {
    -HEAP_LIMIT <= fPos < HEAP_LIMIT
  }

  /** The result of a call that returns before it takes the device lock. */
  function Early(call: Call): Option<Ret> {
    match call
    case Read(_, interrupted, _) => if interrupted then Some(Ret(-ERESTARTSYS, [])) else None
    case Write(_, interrupted, _, _) => if interrupted then Some(Ret(-ERESTARTSYS, [])) else None
    case SeekTo(cmd, _, interrupted, faults) =>
      if faults then Some(Ret(-EFAULT, []))
      else if cmd >= CAPACITY then Some(Ret(-EINVAL, []))
      else if interrupted then Some(Ret(-ERESTARTSYS, []))
      else None
    case OtherIoctl => Some(Ret(-ENOTTY, []))
  }

  /** New position and result of aesd_read under the lock, for entries `q` held by heap `h`. */
  ghost function ReadEntries(h: Heap, q: seq<Entry>, fPos: int, count: nat, faults: bool): (int, Ret)
    requires IsOffset(fPos)
  {
    var off := SizeT(fPos);
    if off >= SizeSum(q) then (fPos, Ret(0, []))
    else
      var e, b := q[Locate(q, off)], Inner(q, off);
      var n := Min(count, e.size - b);
      if faults && n > 0 then (fPos, Ret(-EFAULT, [])) else (fPos + n, Ret(n, Slice(Content(h, e), b, n)))
  }

  ghost function DoRead(d: Device, fPos: int, count: nat, faults: bool): Outcome
    requires d.ring.Valid() && IsOffset(fPos)
  {
    var r := ReadEntries(d.heap, d.ring.Queue(), fPos, count, faults);
    Outcome(d, r.0, r.1)
  }

  function Slice(s: Bytes, from: nat, n: nat): Bytes {
    if from + n <= |s| then s[from..from + n] else []
  }

  ghost function NewBlockSize(d: Device, buf: Bytes): nat {
    d.wip.size + |buf| + 1
  }

  /** A new block holding the pending bytes of `w`, with room for `buf` and the NUL. */
  ghost function GrownHeap(h: Heap, w: Entry, buf: Bytes): Heap {
    Heap(h.blocks[h.next := Unflushed(h, w) + seq(|buf| + 1, _ => NUL)], h.next + 1, h.used + w.size + |buf| + 1, h.freed)
  }

  /** The same with `buf` copied in behind them and the old block freed. */
  ghost function ExtendedHeap(h: Heap, w: Entry, buf: Bytes): Heap {
    var full := Unflushed(h, w) + buf + [NUL];
    if w == EMPTY then Heap(h.blocks[h.next := full], h.next + 1, h.used + |buf| + 1, h.freed)
    else Heap((h.blocks - {w.buffptr})[h.next := full], h.next + 1, h.used + |buf|, h.freed + multiset{w.buffptr})
  }

  /** The pending entry extended by `buf`. */
  ghost function Extended(d: Device, buf: Bytes): Device {
    Device(d.ring, Entry(d.heap.next, d.wip.size + |buf|), ExtendedHeap(d.heap, d.wip, buf))
  }

  /** The pending entry handed to the ring, the evicted block freed. */
  ghost function Flushed(d: Device): Device
    requires d.ring.Valid()
  {
    Device(d.ring.Push(d.wip), EMPTY, Released(d.heap, d.ring.entry[d.ring.inOffs]))
  }

  /** The heap without the block of entry `e`, if it has one. */
  ghost function Released(h: Heap, e: Entry): Heap {
    if e.buffptr == NULL then h
    else Heap(h.blocks - {e.buffptr}, h.next, h.used - (e.size + 1), h.freed + multiset{e.buffptr})
  }

  /** The ring's total size minus one as the loff_t the write stores: -1 for an empty ring. */
  ghost function AfterWritePos(r: Ring): int
    requires r.Valid()
  {
    SizeSum(r.Queue()) - 1
  }

  /** The device once the new bytes are in: flushed if they complete a command. */
  ghost function Committed(d: Device, buf: Bytes): Device
    requires Sound(d) && d.heap.Fits(NewBlockSize(d, buf)) && d.wip.size + |buf| > 0
    ensures Sound(Committed(d, buf))
  {
    ExtendedSound(d, buf);
    var d1 := Extended(d, buf);
    if EndsInNewline(Pending(d1)) then
      FlushedSound(d1);
      Flushed(d1)
    else d1
  }

  /** aesd_write under the lock. */
  ghost function DoWrite(d: Device, fPos: int, buf: Bytes, noMemory: bool, faults: bool): Outcome
    requires Valid(d)
  {
    SoundFacts(d);
    if noMemory || !d.heap.Fits(NewBlockSize(d, buf)) then Outcome(d, fPos, Ret(-ENOMEM, []))
    else if faults && |buf| > 0 then Outcome(d.(heap := GrownHeap(d.heap, d.wip, buf)), fPos, Ret(-EFAULT, []))
    else if d.wip.size + |buf| == 0 then Outcome(Extended(d, buf), fPos, Crash)
    else
      var d' := Committed(d, buf);
      Outcome(d', AfterWritePos(d'.ring), Ret(|buf|, []))
  }

  /** New position and result of aesd_adjust_file_offset under the lock, for stored entries `q`. */
  ghost function SeekEntries(q: seq<Entry>, fPos: int, cmd: nat, off: nat): (int, Ret) {
    if cmd < |q| && off < q[cmd].size then (Position(q, cmd, off), Ret(0, [])) else (fPos, Ret(-EINVAL, []))
  }

  ghost function DoSeek(d: Device, fPos: int, cmd: nat, off: nat): Outcome
    requires d.ring.Valid()
  {
    var r := SeekEntries(d.ring.Queue(), fPos, cmd, off);
    Outcome(d, r.0, r.1)
  }

  /** The whole effect of one call. */
  ghost function DoCall(d: Device, fPos: int, call: Call): Outcome
    requires Valid(d) && IsOffset(fPos)
  {
    if Early(call).Some? then Outcome(d, fPos, Early(call).value)
    else match call
      case Read(count, _, faults) => DoRead(d, fPos, count, faults)
      case Write(buf, _, noMemory, faults) => DoWrite(d, fPos, buf, noMemory, faults)
      case SeekTo(cmd, off, _, _) => DoSeek(d, fPos, cmd, off)
      case OtherIoctl => Outcome(d, fPos, Crash)  // decided early
  }

  // ---------------------------------------------------------------------------------------
  // The two halves of a write keep the device sound

  lemma HoldsFacts(h: Heap, q: seq<Entry>, w: Entry)
    requires Holds(h, q, w)
    ensures NULL !in h.blocks
    ensures |Unflushed(h, w)| == w.size
    ensures w.buffptr == NULL || w.buffptr in h.blocks
    ensures forall i :: 0 <= i < |q| ==> |Commands(h, q)[i]| == q[i].size > 0
    ensures SizeSum(q) < HEAP_LIMIT && w.size < HEAP_LIMIT
  {
  }

  lemma QueuePointers(h: Heap, q: seq<Entry>, w: Entry)
    requires Holds(h, q, w)
    ensures Distinct(q, EMPTY)
    ensures NULL !in h.blocks && (w.buffptr != NULL ==> w.buffptr in h.blocks)
    ensures forall p :: p in Pointers(q) ==> p in h.blocks && p != w.buffptr
  {
    HoldsFacts(h, q, w);
  }

  lemma SoundFacts(d: Device)
    requires Sound(d)
    ensures |Pending(d)| == d.wip.size
    ensures d.wip.buffptr == NULL || d.wip.buffptr in d.heap.blocks
    ensures Evicted(d.ring) == if |d.ring.Queue()| == CAPACITY then d.ring.Queue()[0].buffptr else NULL
    ensures Evicted(d.ring) == NULL || Evicted(d.ring) in d.heap.blocks
    ensures Released(d.heap, d.ring.entry[d.ring.inOffs]) == d.heap.KFree(Evicted(d.ring))
    ensures SizeSum(d.ring.Queue()) < HEAP_LIMIT && d.wip.size < HEAP_LIMIT
  {
    HoldsFacts(d.heap, d.ring.Queue(), d.wip);
    PushQueue(d.ring, EMPTY);
    assert d.ring.full ==> Owns(d.heap, d.ring.Queue()[0]);
  }

  lemma FreeValid(h: Heap, p: Ptr)
    requires h.Valid() && p in h.blocks
    ensures h.Free(p).Valid()
  {
  }

  /** The entries of `q` are untouched when their blocks are. */
  lemma EntriesKept(h: Heap, h': Heap, q: seq<Entry>)
    requires forall i :: 0 <= i < |q| ==> Owns(h, q[i])
    requires forall i :: 0 <= i < |q| ==>
               && q[i].buffptr in h.blocks && q[i].buffptr in h'.blocks
               && h'.blocks[q[i].buffptr] == h.blocks[q[i].buffptr]
    ensures forall i :: 0 <= i < |q| ==> Owns(h', q[i]) && Content(h', q[i]) == Content(h, q[i])
    ensures Commands(h', q) == Commands(h, q)
  {
  }

  lemma GrownHolds(h: Heap, q: seq<Entry>, w: Entry, buf: Bytes)
    requires Holds(h, q, w) && h.Fits(w.size + |buf| + 1)
    ensures var h' := GrownHeap(h, w, buf);
            && Holds(h', q, w)
            && Commands(h', q) == Commands(h, q)
            && Unflushed(h', w) == Unflushed(h, w)
            && Unowned(h', q, w) == Unowned(h, q, w) + {h.next}
  {
    HoldsFacts(h, q, w);
    var h' := GrownHeap(h, w, buf);
    EntriesKept(h, h', q);
    assert h.next !in Pointers(q);
  }

  lemma ExtendedHeapValid(h: Heap, w: Entry, buf: Bytes)
    requires h.Valid() && h.Fits(w.size + |buf| + 1)
    requires w == EMPTY || Owns(h, w)
    ensures ExtendedHeap(h, w, buf).Valid()
  {
  }

  lemma ExtendedHolds(h: Heap, q: seq<Entry>, w: Entry, buf: Bytes)
    requires Holds(h, q, w) && h.Fits(w.size + |buf| + 1)
    ensures var h', w' := ExtendedHeap(h, w, buf), Entry(h.next, w.size + |buf|);
            && Commands(h', q) == Commands(h, q)
            && Unflushed(h', w') == Unflushed(h, w) + buf
            && Unowned(h', q, w') == Unowned(h, q, w)
            && (w'.size > 0 ==> Holds(h', q, w'))
  {
    ExtendedHeapValid(h, w, buf);
    HoldsFacts(h, q, w);
    EntriesKept(h, ExtendedHeap(h, w, buf), q);
    assert Unflushed(h, w) + buf == (Unflushed(h, w) + buf + [NUL])[..w.size + |buf|];
    assert h.next !in Pointers(q);
  }

  /** Extending keeps the device sound, leaves the commands alone and appends to the pending bytes. */
  lemma ExtendedSound(d: Device, buf: Bytes)
    requires Sound(d) && d.heap.Fits(NewBlockSize(d, buf))
    ensures View(Extended(d, buf)) == View(d)
    ensures Pending(Extended(d, buf)) == Pending(d) + buf
    ensures Leaked(Extended(d, buf)) == Leaked(d)
    ensures d.wip.size + |buf| > 0 ==> Sound(Extended(d, buf))
  {
    ExtendedHolds(d.heap, d.ring.Queue(), d.wip, buf);
  }

  lemma AfterPushDistinct(q: seq<Entry>, w: Entry)
    requires |q| <= CAPACITY && Distinct(q, w) && w.buffptr != NULL
    requires forall i :: 0 <= i < |q| ==> q[i].buffptr != NULL
    ensures Distinct(AfterPush(q, w), EMPTY)
    ensures |q| == CAPACITY ==> forall i :: 0 <= i < |AfterPush(q, w)| ==> AfterPush(q, w)[i].buffptr != q[0].buffptr
  {
  }

  lemma AfterPushCommands(h: Heap, q: seq<Entry>, w: Entry)
    requires |q| <= CAPACITY
    ensures Commands(h, AfterPush(q, w)) == (if |q| == CAPACITY then Commands(h, q)[1..] else Commands(h, q)) + [Content(h, w)]
  {
  }

  lemma FlushedHolds(h: Heap, q: seq<Entry>, w: Entry)
    requires Holds(h, q, w) && EndsInNewline(Unflushed(h, w))
    ensures var h' := Released(h, if |q| == CAPACITY then q[0] else EMPTY);
            && Holds(h', AfterPush(q, w), EMPTY)
            && Commands(h', AfterPush(q, w)) == Commands(h, AfterPush(q, w))
            && Unowned(h', AfterPush(q, w), EMPTY) == Unowned(h, q, w)
  {
    var h' := Released(h, if |q| == CAPACITY then q[0] else EMPTY);
    if |q| == CAPACITY {
      assert Owns(h, q[0]);
      FreeValid(h, q[0].buffptr);
      assert h' == h.Free(q[0].buffptr);
    }
    HoldsFacts(h, q, w);
    AfterPushDistinct(q, w);
    FlushedBytes(q, w);
    FlushedPointers(q, w);
    AfterPushOwned(h, q, w);
    EntriesKept(h, h', AfterPush(q, w));
  }

  lemma AfterPushOwned(h: Heap, q: seq<Entry>, w: Entry)
    requires Holds(h, q, w) && EndsInNewline(Unflushed(h, w))
    ensures forall i :: 0 <= i < |AfterPush(q, w)| ==>
              Owns(h, AfterPush(q, w)[i]) && EndsInNewline(Content(h, AfterPush(q, w)[i]))
  {
  }

  /** Flushing moves the pending bytes to the end of the ring as one command. */
  lemma FlushedSound(d: Device)
    requires Sound(d) && EndsInNewline(Pending(d))
    ensures Valid(Flushed(d)) && Pending(Flushed(d)) == []
    ensures View(Flushed(d)) == (if |View(d)| == CAPACITY then View(d)[1..] else View(d)) + [Pending(d)]
    ensures Leaked(Flushed(d)) == Leaked(d)
  {
    PushQueue(d.ring, d.wip);
    FlushedHolds(d.heap, d.ring.Queue(), d.wip);
    AfterPushCommands(d.heap, d.ring.Queue(), d.wip);
  }

  lemma FlushedBytes(q: seq<Entry>, w: Entry)
    requires |q| <= CAPACITY && w != EMPTY
    ensures OwnedBytes(AfterPush(q, w), EMPTY) == OwnedBytes(q, w) - if |q| == CAPACITY then q[0].size + 1 else 0
  {
    if |q| == CAPACITY {
      StartTail(q, |q| - 1);
      SizeSumSnoc(q[1..], w);
    } else {
      SizeSumSnoc(q, w);
    }
  }

  lemma FlushedPointers(q: seq<Entry>, w: Entry)
    requires |q| <= CAPACITY
    ensures Pointers(AfterPush(q, w)) + (if |q| == CAPACITY then {q[0].buffptr} else {}) == Pointers(q) + {w.buffptr}
  {
    var q' := AfterPush(q, w);
    forall i | 0 <= i < |q| ensures q[i].buffptr in Pointers(q') + (if |q| == CAPACITY then {q[0].buffptr} else {}) {
      if |q| < CAPACITY {
        assert q'[i] == q[i];
      } else if i > 0 {
        assert q'[i - 1] == q[i];
      }
    }
    assert q'[|q'| - 1] == w;
    forall i | 0 <= i < |q'| ensures q'[i].buffptr in Pointers(q) + {w.buffptr} {
      if i < |q'| - 1 {
        assert q'[i] == q[if |q| == CAPACITY then i + 1 else i];
      }
    }
  }
}
