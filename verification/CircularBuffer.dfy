/**
 The ring of the ten most recent commands (aesd-char-driver/aesd-circular-buffer.c).

 `Ring` is the value of the C structure; `Queue` reads it as what it stands for, the stored
 entries from the oldest to the newest. The class `CircularBuffer` holds the structure itself
 and its methods are the four C functions.
 */
module CircularBuffers {
  import opened Bytes

  const CAPACITY: nat := 10  // AESDCHAR_MAX_WRITE_OPERATIONS_SUPPORTED

  /** Identity of one allocation; 0 is the null pointer. */
  type Ptr = nat
  const NULL: Ptr := 0

  datatype Entry = Entry(buffptr: Ptr, size: nat)

  const EMPTY: Entry := Entry(NULL, 0)

  datatype Ring = Ring(entry: seq<Entry>, inOffs: nat, outOffs: nat, full: bool) {

    ghost predicate Valid() {
      && |entry| == CAPACITY
      && inOffs < CAPACITY
      && outOffs == (if full then inOffs else 0)
      && (!full ==> forall i :: inOffs <= i < CAPACITY ==> entry[i] == EMPTY)
    }

    /** All ten slots in reading order. */
    ghost function Slots(): (s: seq<Entry>)
      requires Valid()
      ensures |s| == CAPACITY
    {
      entry[outOffs..] + entry[..outOffs]
    }

    /** The modular index of the C loops walks the slots in that order. */
    lemma SlotAt(i: nat)
      requires Valid() && i < CAPACITY
      ensures Slots()[i] == entry[(outOffs + i) % CAPACITY]
    {
    }

    ghost function Count(): nat {
      if full then CAPACITY else inOffs
    }

    /** The stored entries, oldest first. */
    ghost function Queue(): seq<Entry>
      requires Valid()
    {
      Slots()[..Count()]
    }

    /** The structure after add_entry's assignments. */
    ghost function Push(e: Entry): Ring
      requires Valid()
    {
      var stored := entry[inOffs := e];
      var wraps := inOffs + 1 == CAPACITY;
      var next := if wraps then 0 else inOffs + 1;
      Ring(stored, next, if full || wraps then next else outOffs, full || wraps)
    }
  }

  ghost function InitRing(): (r: Ring)
    ensures r.Valid() && r.Queue() == []
  {
    Ring(seq(CAPACITY, _ => EMPTY), 0, 0, false)
  }

  // ---------------------------------------------------------------------------------------
  // Sizes and positions

  /** Where entry `k` begins in the concatenation; for `k == |q|`, where the concatenation ends. */
  ghost function Start(q: seq<Entry>, k: nat): nat
    requires k <= |q|
  {
    if k == 0 then 0 else Start(q, k - 1) + q[k - 1].size
  }

  ghost function SizeSum(q: seq<Entry>): nat {
    Start(q, |q|)
  }

  lemma {:induction false} StartMonotone(q: seq<Entry>, i: nat, j: nat)
    requires i <= j <= |q|
    ensures Start(q, i) <= Start(q, j)
    decreases j
  {
    if i < j {
      StartMonotone(q, i, j - 1);
    }
  }

  /** Starts depend on the earlier entries only. */
  lemma {:induction false} StartPrefix(q: seq<Entry>, q': seq<Entry>, k: nat)
    requires k <= |q| && k <= |q'|
    requires forall i :: 0 <= i < k ==> q[i] == q'[i]
    ensures Start(q, k) == Start(q', k)
  {
    if k > 0 {
      StartPrefix(q, q', k - 1);
    }
  }

  /** Without its first entry every other entry starts that much earlier. */
  lemma {:induction false} StartTail(q: seq<Entry>, k: nat)
    requires 0 < |q| && k < |q|
    ensures Start(q, k + 1) == q[0].size + Start(q[1..], k)
  {
    if k > 0 {
      StartTail(q, k - 1);
    }
  }

  lemma SizeSumSnoc(q: seq<Entry>, e: Entry)
    ensures SizeSum(q + [e]) == SizeSum(q) + e.size
  {
    StartPrefix(q, q + [e], |q|);
  }

  lemma {:induction false} LocateExists(q: seq<Entry>, off: nat, n: nat)
    requires n <= |q| && off < Start(q, n)
    ensures exists k :: 0 <= k < |q| && Start(q, k) <= off < Start(q, k + 1)
  {
    if off < Start(q, n - 1) {
      LocateExists(q, off, n - 1);
    } else {
      assert 0 <= n - 1 < |q| && Start(q, n - 1) <= off < Start(q, n - 1 + 1);
    }
  }

  /** Index of the entry that holds the byte at position `off` of the concatenation. */
  ghost function Locate(q: seq<Entry>, off: nat): (k: nat)
    requires off < SizeSum(q)
    ensures k < |q|
    ensures Start(q, k) <= off < Start(q, k + 1)
  {
    LocateExists(q, off, |q|);
    var k :| 0 <= k < |q| && Start(q, k) <= off < Start(q, k + 1);
    k
  }

  /** Offset of that byte inside its entry. */
  ghost function Inner(q: seq<Entry>, off: nat): (b: nat)
    requires off < SizeSum(q)
    ensures b < q[Locate(q, off)].size
  {
    off - Start(q, Locate(q, off))
  }

  /** Position of byte `b` of entry `k`: what the seek ioctl computes. */
  ghost function Position(q: seq<Entry>, k: nat, b: nat): nat
    requires k < |q|
  {
    Start(q, k) + b
  }

  /** Looking up the position of a pair gives the pair back. */
  lemma LocatePosition(q: seq<Entry>, k: nat, b: nat)
    requires k < |q| && b < q[k].size
    ensures Position(q, k, b) < SizeSum(q)
    ensures Locate(q, Position(q, k, b)) == k && Inner(q, Position(q, k, b)) == b
  {
    StartMonotone(q, k + 1, |q|);
    var j := Locate(q, Position(q, k, b));
    if j < k {
      StartMonotone(q, j + 1, k);
    } else if k < j {
      StartMonotone(q, k + 1, j);
    }
  }

  /** Every position below the total is the position of exactly one pair. */
  lemma PositionUnique(q: seq<Entry>, off: nat, k: nat, b: nat)
    requires off < SizeSum(q)
    ensures Position(q, Locate(q, off), Inner(q, off)) == off
    ensures (k < |q| && b < q[k].size && Position(q, k, b) == off)
            <==> (k == Locate(q, off) && b == Inner(q, off))
  {
    if k < |q| && b < q[k].size && Position(q, k, b) == off {
      LocatePosition(q, k, b);
    }
  }

  // ---------------------------------------------------------------------------------------
  // add_entry

  ghost function AfterPush(q: seq<Entry>, e: Entry): (r: seq<Entry>)
    requires |q| <= CAPACITY
    ensures |r| <= CAPACITY
  {
    (if |q| == CAPACITY then q[1..] else q) + [e]
  }

  /** Adding an entry is a bounded queue's enqueue; the slot given up is the oldest entry's. */
  lemma PushQueue(r: Ring, e: Entry)
    requires r.Valid()
    ensures r.Push(e).Valid()
    ensures r.Push(e).Queue() == AfterPush(r.Queue(), e)
    ensures r.full <==> |r.Queue()| == CAPACITY
    ensures r.entry[r.inOffs] == if r.full then r.Queue()[0] else EMPTY
  {
    var r' := r.Push(e);
    var q, q' := r.Queue(), r'.Queue();
    if r.full {
      assert q[1..] == r.entry[r.inOffs + 1..] + r.entry[..r.inOffs];
      assert q' == r'.entry[r'.inOffs..] + r'.entry[..r'.inOffs];
      if r.inOffs + 1 < CAPACITY {
        assert r'.entry[r'.inOffs..] == r.entry[r.inOffs + 1..];
        assert r'.entry[..r'.inOffs] == r.entry[..r.inOffs] + [e];
      } else {
        assert r'.entry == r.entry[..r.inOffs] + [e];
      }
    } else {
      assert q == r.entry[..r.inOffs];
      assert q' == r'.entry[..r.inOffs + 1];
    }
  }

  /** The state after adding the entries in turn to an empty ring. */
  ghost function PushAll(es: seq<Entry>): (r: Ring)
    ensures r.Valid()
  {
    if es == [] then InitRing()
    else
      var before := PushAll(es[..|es| - 1]);
      PushQueue(before, es[|es| - 1]);
      before.Push(es[|es| - 1])
  }

  ghost function LastTen<T>(s: seq<T>): (r: seq<T>)
    ensures |r| == Min(|s|, CAPACITY)
  {
    if |s| <= CAPACITY then s else s[|s| - CAPACITY..]
  }

  lemma LastTenStep<T>(s: seq<T>, x: T)
    ensures LastTen(s + [x]) == (if |LastTen(s)| == CAPACITY then LastTen(s)[1..] else LastTen(s)) + [x]
  {
  }

  /** What add_entry returns: the buffer of the slot it overwrites. */
  ghost function Evicted(r: Ring): Ptr
    requires r.Valid()
  {
    r.entry[r.inOffs].buffptr
  }

  /** Where the two indices and the full flag stand after n adds. */
  ghost predicate IndicesAfter(r: Ring, n: nat) {
    && r.inOffs == n % CAPACITY
    && (r.full <==> n >= CAPACITY)
    && r.outOffs == (if n < CAPACITY then 0 else n % CAPACITY)
  }

  lemma IndicesStep(r: Ring, n: nat, e: Entry)
    requires r.Valid() && IndicesAfter(r, n)
    ensures IndicesAfter(r.Push(e), n + 1)
  {
  }

  lemma {:induction false} PushAllIndices(es: seq<Entry>)
    ensures IndicesAfter(PushAll(es), |es|)
  {
    if es != [] {
      var front := es[..|es| - 1];
      PushAllIndices(front);
      IndicesStep(PushAll(front), |front|, es[|front|]);
    }
  }

  lemma {:induction false} PushAllQueue(es: seq<Entry>)
    ensures PushAll(es).Queue() == LastTen(es)
  {
    if es != [] {
      var front, last := es[..|es| - 1], es[|es| - 1];
      PushAllQueue(front);
      PushQueue(PushAll(front), last);
      LastTenStep(front, last);
      assert es == front + [last];
    }
  }

  /**
   FIFO over every run of adds: where the indices stand after n adds, what is stored, and that
   the n-th add (counting from zero) hands back exactly the buffer of add n - 10.
   */
  lemma FifoEviction(es: seq<Entry>)
    ensures IndicesAfter(PushAll(es), |es|)
    ensures PushAll(es).Queue() == LastTen(es)
    ensures es != [] ==> PushAll(es).entry[PushAll(es).outOffs] == LastTen(es)[0]
    ensures Evicted(PushAll(es)) == if |es| < CAPACITY then NULL else es[|es| - CAPACITY].buffptr
  {
    PushAllIndices(es);
    PushAllQueue(es);
    PushQueue(PushAll(es), EMPTY);
    if es != [] {
      PushAll(es).SlotAt(0);
    }
  }

  /** Dropping the oldest entry moves every later byte down by that entry's size. */
  lemma DropFirst(q: seq<Entry>, p: nat)
    requires q != [] && q[0].size <= p < SizeSum(q)
    ensures SameByte(q, p, q[1..], p - q[0].size)
  {
    StartTail(q, |q| - 1);
    var k, b := Locate(q[1..], p - q[0].size), Inner(q[1..], p - q[0].size);
    StartTail(q, k);
    LocatePosition(q, k + 1, b);
  }

  /** Adding at the end moves no byte. */
  lemma AppendKeeps(q: seq<Entry>, e: Entry, p: nat)
    requires p < SizeSum(q)
    ensures SameByte(q, p, q + [e], p)
  {
    var k, b := Locate(q, p), Inner(q, p);
    StartPrefix(q, q + [e], k);
    LocatePosition(q + [e], k, b);
  }

  /** Position `p` of `q` and position `p'` of `q'` are the same byte of the same entry. */
  ghost predicate SameByte(q: seq<Entry>, p: nat, q': seq<Entry>, p': nat) {
    && p < SizeSum(q)
    && p' < SizeSum(q')
    && q[Locate(q, p)] == q'[Locate(q', p')]
    && Inner(q, p) == Inner(q', p')
  }

  lemma ShiftAfterPush(q: seq<Entry>, e: Entry, p: nat)
    requires |q| <= CAPACITY && p < SizeSum(q)
    requires |q| == CAPACITY ==> q[0].size <= p
    ensures SameByte(q, p, AfterPush(q, e), if |q| == CAPACITY then p - q[0].size else p)
  {
    if |q| == CAPACITY {
      DropFirst(q, p);
      AppendKeeps(q[1..], e, p - q[0].size);
    } else {
      AppendKeeps(q, e, p);
    }
  }

  /**
   What an add does to positions, as lookup sees it: nothing to the bytes of a ring with room;
   in a full ring every surviving byte moves down by the size of the evicted entry, staying in
   its entry at its place.
   */
  lemma EvictionShift(r: Ring, e: Entry, p: nat)
    requires r.Valid() && p < SizeSum(r.Queue())
    requires r.full ==> r.Queue()[0].size <= p
    ensures r.Push(e).Valid()
    ensures SameByte(r.Queue(), p, r.Push(e).Queue(), if r.full then p - r.Queue()[0].size else p)
  {
    PushQueue(r, e);
    ShiftAfterPush(r.Queue(), e, p);
  }

  /** The scan's running sum: the queue's starts, then the total through the empty slots. */
  lemma {:induction false} SlotsStart(r: Ring, i: nat)
    requires r.Valid() && i <= CAPACITY
    ensures Start(r.Slots(), i) == if i <= |r.Queue()| then Start(r.Queue(), i) else SizeSum(r.Queue())
    ensures i < CAPACITY ==> r.Slots()[i] == if i < |r.Queue()| then r.Queue()[i] else EMPTY
  {
    if i > 0 {
      SlotsStart(r, i - 1);
    }
  }

  lemma SlotsBound(r: Ring, i: nat)
    requires r.Valid() && i <= CAPACITY
    ensures Start(r.Slots(), i) <= SizeSum(r.Queue())
  {
    SlotsStart(r, i);
    if i <= |r.Queue()| {
      StartMonotone(r.Queue(), i, |r.Queue()|);
    }
  }

  /** The first slot of the scan whose running sum passes `off` is the located entry. */
  lemma ScanHit(r: Ring, i: nat, off: nat)
    requires r.Valid() && i < CAPACITY
    requires Start(r.Slots(), i) <= off < Start(r.Slots(), i) + r.Slots()[i].size
    ensures i < |r.Queue()| && off < SizeSum(r.Queue())
    ensures r.Slots()[i] == r.Queue()[i]
    ensures Locate(r.Queue(), off) == i && Inner(r.Queue(), off) == off - Start(r.Slots(), i)
  {
    SlotsStart(r, i);
    LocatePosition(r.Queue(), i, off - Start(r.Slots(), i));
  }

  class CircularBuffer {
    const entry: array<Entry>
    var inOffs: nat
    var outOffs: nat
    var full: bool

    ghost function State(): Ring
      reads this, entry
    {
      Ring(entry[..], inOffs, outOffs, full)
    }

    ghost predicate Valid()
      reads this, entry
    {
      State().Valid()
    }

    /** aesd_circular_buffer_init on fresh memory. */
    constructor ()
      ensures Valid() && fresh(entry) && State() == InitRing()
    {
      entry := new Entry[CAPACITY](_ => EMPTY);
      inOffs, outOffs, full := 0, 0, false;
    }

    /** aesd_circular_buffer_find_entry_offset_for_fpos. */
    method FindEntryOffsetForFpos(charOffset: nat) returns (slot: Option<nat>, entryOffset: nat)
      requires Valid() && SizeSum(State().Queue()) < SIZE_T
      ensures slot.None? <==> charOffset >= SizeSum(State().Queue())
      ensures slot.Some? ==>
                && slot.value < CAPACITY
                && entry[slot.value] == State().Queue()[Locate(State().Queue(), charOffset)]
                && entryOffset == Inner(State().Queue(), charOffset)
    {
      ghost var r := State();
      var accLength := 0;
      var i := 0;
      while i < CAPACITY
        invariant i <= CAPACITY
        invariant accLength == Start(r.Slots(), i) <= charOffset
      {
        var currentPos := (outOffs + i) % CAPACITY;
        assert r.Slots()[i] == entry[currentPos] by { r.SlotAt(i); }
        SlotsBound(r, i + 1);
        var next := SizeT(accLength + entry[currentPos].size);
        if next > charOffset {
          ScanHit(r, i, charOffset);
          return Some(currentPos), charOffset - accLength;
        }
        accLength := next;
        i := i + 1;
      }
      SlotsStart(r, CAPACITY);
      return None, 0;
    }

    /** aesd_circular_buffer_add_entry. */
    method AddEntry(e: Entry) returns (removed: Ptr)
      requires Valid()
      modifies this, entry
      ensures Valid()
      ensures State() == old(State()).Push(e)
      ensures State().Queue() == AfterPush(old(State().Queue()), e)
      ensures removed == if |old(State().Queue())| == CAPACITY then old(State().Queue())[0].buffptr else NULL
    {
      PushQueue(State(), e);
      removed := NULL;
      if entry[inOffs].buffptr != NULL {
        removed := entry[inOffs].buffptr;
      }
      entry[inOffs] := e;
      inOffs := inOffs + 1;
      if inOffs == CAPACITY {
        inOffs := 0;
        full := true;
      }
      if full {
        outOffs := inOffs;
      }
    }

    /** aesd_circular_buffer_size. */
    method Size() returns (bufferSize: nat)
      requires Valid() && SizeSum(State().Queue()) < SIZE_T
      ensures bufferSize == SizeSum(State().Queue())
    {
      bufferSize := 0;
      var i := 0;
      while i < CAPACITY
        invariant i <= CAPACITY
        invariant bufferSize == Start(State().Slots(), i)
      {
        var currentPos := (outOffs + i) % CAPACITY;
        SlotsBound(State(), i + 1);
        State().SlotAt(i);
        bufferSize := SizeT(bufferSize + entry[currentPos].size);
        i := i + 1;
      }
      SlotsStart(State(), CAPACITY);
    }
  }
}
