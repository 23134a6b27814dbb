/** What the device's calls mean on the command sequence a user sees. */
module DeviceMeaning {
  import opened Bytes
  import opened CircularBuffers
  import opened DeviceModel

  /** Stored commands and pending bytes: everything about the device that calls can observe. */
  datatype Contents = Contents(view: seq<Bytes>, pending: Bytes) {

    /** The bytes a reader sees, commands end to end. */
    ghost function Stream(): Bytes {
      Flatten(view)
    }

    /** A successful write: the pending bytes grow and, once they end in a newline, become a command. */
    ghost function Append(buf: Bytes): Contents {
      var p := pending + buf;
      if EndsInNewline(p) then Contents(LastTen(view + [p]), []) else Contents(view, p)
    }
  }

  ghost function Abs(d: Device): Contents
    requires d.ring.Valid()
  {
    Contents(View(d), Pending(d))
  }

  // ---------------------------------------------------------------------------------------
  // The concatenation

  /** The entries `q` hold the commands `v`, as far as sizes go. */
  ghost predicate Matches(q: seq<Entry>, v: seq<Bytes>) {
    |q| == |v| && forall i :: 0 <= i < |q| ==> |v[i]| == q[i].size
  }

  /** Prefix sums of the entry sizes are the lengths of the concatenated commands. */
  lemma {:induction false} StreamLength(q: seq<Entry>, v: seq<Bytes>, k: nat)
    requires Matches(q, v) && k <= |v|
    ensures |Flatten(v[..k])| == Start(q, k)
  {
    if k > 0 {
      StreamLength(q, v, k - 1);
      assert v[..k] == v[..k - 1] + [v[k - 1]];
      FlattenSnoc(v[..k - 1], v[k - 1]);
    }
  }

  lemma StreamTotal(d: Device)
    requires Sound(d)
    ensures Matches(d.ring.Queue(), View(d))
    ensures |Abs(d).Stream()| == SizeSum(d.ring.Queue()) <= HEAP_LIMIT
  {
    HoldsFacts(d.heap, d.ring.Queue(), d.wip);
    var q, v := d.ring.Queue(), View(d);
    StreamLength(q, v, |v|);
    assert v[..|v|] == v;
  }

  /** From byte `b` of command `k` on, the stream is the rest of that command and the later ones. */
  lemma StreamFrom(v: seq<Bytes>, k: nat, b: nat)
    requires k < |v| && b <= |v[k]|
    ensures var at := |Flatten(v[..k])| + b;
            at <= |Flatten(v)| && Flatten(v)[at..] == v[k][b..] + Flatten(v[k + 1..])
  {
    assert v == v[..k] + ([v[k]] + v[k + 1..]);
    FlattenAppend(v[..k], [v[k]] + v[k + 1..]);
    FlattenCons(v[k], v[k + 1..]);
  }

  /** Position `p` of the stream is byte `b` of command `k`. */
  ghost predicate InCommand(v: seq<Bytes>, p: int, k: nat, b: nat) {
    k < |v| && b < |v[k]| && p == |Flatten(v[..k])| + b
  }

  /** From there, `n` bytes of the command are `n` bytes of the stream. */
  lemma CommandSlice(v: seq<Bytes>, p: nat, k: nat, b: nat, n: nat)
    requires InCommand(v, p, k, b) && b + n <= |v[k]|
    ensures p + n <= |Flatten(v)| && v[k][b..b + n] == Flatten(v)[p..p + n]
  {
    StreamFrom(v, k, b);
    var rest := v[k][b..];
    assert Flatten(v)[p..p + n] == Flatten(v)[p..][..n] == rest[..n];
  }

  /**
   Lookup refines indexing: a position is found exactly when it is below the length of the
   concatenation, and the entry and offset found hold the concatenation's byte there.
   */
  lemma LookupIsIndexing(d: Device, off: nat)
    requires Sound(d)
    ensures off < SizeSum(d.ring.Queue()) <==> off < |Abs(d).Stream()|
    ensures off < SizeSum(d.ring.Queue()) ==>
              var k, b := Locate(d.ring.Queue(), off), Inner(d.ring.Queue(), off);
              && InCommand(View(d), off, k, b)
              && View(d)[k] == Content(d.heap, d.ring.Queue()[k])
              && View(d)[k][b] == Abs(d).Stream()[off]
  {
    StreamTotal(d);
    if off < SizeSum(d.ring.Queue()) {
      FoundInCommand(d.ring.Queue(), View(d), off);
    }
  }

  lemma FoundInCommand(q: seq<Entry>, v: seq<Bytes>, off: nat)
    requires Matches(q, v) && off < SizeSum(q)
    ensures InCommand(v, off, Locate(q, off), Inner(q, off))
    ensures off < |Flatten(v)| && v[Locate(q, off)][Inner(q, off)] == Flatten(v)[off]
  {
    var k, b := Locate(q, off), Inner(q, off);
    StreamLength(q, v, k);
    CommandSlice(v, off, k, b, 1);
    assert v[k][b..b + 1][0] == Flatten(v)[off..off + 1][0];
  }

  // ---------------------------------------------------------------------------------------
  // Read

  /**
   One read of the commands `v`: 0 and nothing outside the stream; inside it the next bytes of
   the command the position falls in, at most `count` and never beyond that command.
   */
  ghost predicate IsRead(v: seq<Bytes>, fPos: int, count: nat, faults: bool, fPos': int, ret: Ret) {
    if !(0 <= fPos < |Flatten(v)|) then fPos' == fPos && ret == Ret(0, [])
    else exists k: nat, b: nat :: InCommand(v, fPos, k, b) && IsReadAt(v, fPos, k, b, count, faults, fPos', ret)
  }

  ghost predicate IsReadAt(v: seq<Bytes>, fPos: nat, k: nat, b: nat, count: nat, faults: bool, fPos': int, ret: Ret)
    requires InCommand(v, fPos, k, b)
  {
    var n := Min(count, |v[k]| - b);
    if faults && n > 0 then fPos' == fPos && ret == Ret(-EFAULT, [])
    else fPos' == fPos + n && ret == Ret(n, v[k][b..b + n])
  }

  lemma ReadMeaning(d: Device, fPos: int, call: Call)
    requires Valid(d) && IsOffset(fPos) && call.Read? && Legal(call)
    ensures DoCall(d, fPos, call).dev == d
    ensures var o := DoCall(d, fPos, call);
            if call.interrupted then o.fPos == fPos && o.ret == Ret(-ERESTARTSYS, [])
            else IsRead(View(d), fPos, call.count, call.faults, o.fPos, o.ret)
  {
    StreamTotal(d);
    if !call.interrupted {
      if fPos >= 0 {
        ReadInside(d.heap, d.ring.Queue(), fPos, call.count, call.faults);
      }
    }
  }

  lemma ReadInside(h: Heap, q: seq<Entry>, fPos: nat, count: nat, faults: bool)
    requires IsOffset(fPos) && Matches(q, Commands(h, q)) && |Flatten(Commands(h, q))| == SizeSum(q)
    ensures var r := ReadEntries(h, q, fPos, count, faults);
            IsRead(Commands(h, q), fPos, count, faults, r.0, r.1)
  {
    var v := Commands(h, q);
    if fPos < SizeSum(q) {
      FoundInCommand(q, v, fPos);
      var k, b := Locate(q, fPos), Inner(q, fPos);
      var r := ReadEntries(h, q, fPos, count, faults);
      assert v[k] == Content(h, q[k]) && |v[k]| == q[k].size;
      assert IsReadAt(v, fPos, k, b, count, faults, r.0, r.1);
    }
  }

  /** A read's bytes are the stream's bytes from the position on, and the position follows. */
  lemma ReadIsSlice(v: seq<Bytes>, fPos: int, count: nat, fPos': int, ret: Ret)
    requires IsRead(v, fPos, count, false, fPos', ret)
    ensures ret.Ret? && ret.value == |ret.data| == fPos' - fPos && |ret.data| <= count
    ensures !(0 <= fPos < |Flatten(v)|) ==> fPos' == fPos && ret.data == []
    ensures 0 <= fPos < |Flatten(v)| ==>
              && fPos' <= |Flatten(v)|
              && ret.data == Flatten(v)[fPos..fPos']
              && (count > 0 ==> fPos < fPos')
  {
    if 0 <= fPos < |Flatten(v)| {
      var k: nat, b: nat :| InCommand(v, fPos, k, b) && IsReadAt(v, fPos, k, b, count, false, fPos', ret);
      CommandSlice(v, fPos, k, b, Min(count, |v[k]| - b));
    }
  }

  // ---------------------------------------------------------------------------------------
  // Write

  /** A write crashes exactly when it adds nothing to nothing: byte size - 1 is then byte -1. */
  ghost predicate ReadsByteMinusOne(d: Device, call: Call)
    requires d.ring.Valid()
  {
    && call.Write?
    && Early(call).None?
    && !call.noMemory && d.heap.Fits(NewBlockSize(d, call.buf))
    && call.buf == [] && Pending(d) == []
  }

  lemma CommittedWrite(d: Device, buf: Bytes)
    requires Valid(d) && d.heap.Fits(NewBlockSize(d, buf)) && d.wip.size + |buf| > 0
    ensures var d' := Committed(d, buf);
            && Valid(d')
            && Abs(d') == Abs(d).Append(buf)
            && AfterWritePos(d'.ring) == |Abs(d').Stream()| - 1 < HEAP_LIMIT
            && Leaked(d') == Leaked(d)
  {
    ExtendedSound(d, buf);
    var d1 := Extended(d, buf);
    if EndsInNewline(Pending(d1)) {
      FlushedSound(d1);
      LastTenStep(View(d), Pending(d1));
    }
    StreamTotal(Committed(d, buf));
  }

  ghost predicate Appended(d: Device, buf: Bytes, o: Outcome)
    requires d.ring.Valid()
  {
    && Valid(o.dev)
    && o.ret == Ret(|buf|, [])
    && Abs(o.dev) == Abs(d).Append(buf)
    && o.fPos == |Abs(o.dev).Stream()| - 1 < HEAP_LIMIT
    && Leaked(o.dev) == Leaked(d)
  }

  /** Which failure gives which code. */
  ghost predicate Rejected(d: Device, fPos: int, call: Call, o: Outcome)
    requires d.ring.Valid() && call.Write?
  {
    && Valid(o.dev)
    && o.ret == (if call.interrupted then Ret(-ERESTARTSYS, [])
                 else if call.noMemory || !d.heap.Fits(NewBlockSize(d, call.buf)) then Ret(-ENOMEM, [])
                 else Ret(-EFAULT, []))
    && Abs(o.dev) == Abs(d)
    && o.fPos == fPos
    && Leaked(o.dev) == Leaked(d) + if o.ret.value == -EFAULT then {d.heap.next} else {}
  }

  /**
   Every write either appends its whole buffer and leaves the position one before the end of the
   ring, or changes neither contents nor position, or crashes, and each exactly when stated.
   Only a faulting copy leaks its new block.
   */
  lemma WriteMeaning(d: Device, fPos: int, call: Call)
    requires Valid(d) && IsOffset(fPos) && call.Write? && Legal(call)
    ensures DoCall(d, fPos, call).ret.Crash? <==> ReadsByteMinusOne(d, call)
    ensures WriteFails(d, call) ==> Rejected(d, fPos, call, DoCall(d, fPos, call))
    ensures !WriteFails(d, call) && !ReadsByteMinusOne(d, call) ==> Appended(d, call.buf, DoCall(d, fPos, call))
  {
    SoundFacts(d);
    if Early(call).None? && !call.noMemory && d.heap.Fits(NewBlockSize(d, call.buf)) {
      if call.faults && |call.buf| > 0 {
        GrownHolds(d.heap, d.ring.Queue(), d.wip, call.buf);
      } else if d.wip.size + |call.buf| > 0 {
        CommittedWrite(d, call.buf);
      }
    }
  }

  ghost predicate WriteFails(d: Device, call: Call)
    requires call.Write?
  {
    call.interrupted || call.noMemory || !d.heap.Fits(NewBlockSize(d, call.buf)) || (call.faults && call.buf != [])
  }

  // ---------------------------------------------------------------------------------------
  // Seek

  /**
   The seek ioctl succeeds exactly for a stored command and an offset inside it; looking up the
   position it leaves gives that same pair, and reading on from there gives the rest of that
   command followed by the later ones.
   */
  lemma SeekMeaning(d: Device, fPos: int, call: Call)
    requires Valid(d) && IsOffset(fPos) && call.SeekTo? && Legal(call)
    ensures DoCall(d, fPos, call).dev == d
    ensures var o, v := DoCall(d, fPos, call), View(d);
            if !call.interrupted && !call.faults && call.writeCmd < |v| && call.writeCmdOffset < |v[call.writeCmd]|
            then o.ret == Ret(0, []) && o.fPos >= 0
                 && SeekLands(d.ring.Queue(), v, o.fPos, call.writeCmd, call.writeCmdOffset)
            else o.fPos == fPos
                 && o.ret == (if call.faults then Ret(-EFAULT, [])
                              else if call.writeCmd >= CAPACITY then Ret(-EINVAL, [])
                              else if call.interrupted then Ret(-ERESTARTSYS, [])
                              else Ret(-EINVAL, []))
  {
    HoldsFacts(d.heap, d.ring.Queue(), d.wip);
    if Early(call).None? && call.writeCmd < |View(d)| && call.writeCmdOffset < |View(d)[call.writeCmd]| {
      SeekLanding(d.ring.Queue(), View(d), call.writeCmd, call.writeCmdOffset);
    }
  }

  /** Any other ioctl command is refused. */
  lemma OtherIoctlMeaning(d: Device, fPos: int)
    requires Valid(d) && IsOffset(fPos)
    ensures DoCall(d, fPos, OtherIoctl) == Outcome(d, fPos, Ret(-ENOTTY, []))
  {
  }

  ghost predicate SeekLands(q: seq<Entry>, v: seq<Bytes>, p: nat, k: nat, b: nat) {
    && InCommand(v, p, k, b)
    && p < SizeSum(q)
    && Locate(q, p) == k
    && Inner(q, p) == b
    && p <= |Flatten(v)|
    && Flatten(v)[p..] == v[k][b..] + Flatten(v[k + 1..])
  }

  lemma SeekLanding(q: seq<Entry>, v: seq<Bytes>, k: nat, b: nat)
    requires Matches(q, v) && k < |v| && b < |v[k]|
    ensures SeekLands(q, v, Position(q, k, b), k, b)
  {
    LocatePosition(q, k, b);
    StreamLength(q, v, k);
    StreamFrom(v, k, b);
  }

  /** Conversely every position below the total is left by exactly one successful seek. */
  lemma SeekReachesEveryPosition(d: Device, p: nat, k: nat, b: nat)
    requires Valid(d) && p < |Abs(d).Stream()|
    ensures p < SizeSum(d.ring.Queue())
    ensures DoCall(d, 0, SeekTo(Locate(d.ring.Queue(), p), Inner(d.ring.Queue(), p), false, false))
            == Outcome(d, p, Ret(0, []))
    ensures DoCall(d, 0, SeekTo(k, b, false, false)) == Outcome(d, p, Ret(0, []))
            <==> k == Locate(d.ring.Queue(), p) && b == Inner(d.ring.Queue(), p)
  {
    StreamTotal(d);
    PositionUnique(d.ring.Queue(), p, k, b);
  }
}
