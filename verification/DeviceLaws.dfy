/** Laws a user of the device can rely on: splitting writes, reading to the end, seeking. */
module DeviceLaws {
  import opened Bytes
  import opened DeviceModel
  import opened DeviceMeaning
  import opened DeviceRuns

  // ---------------------------------------------------------------------------------------
  // Splitting a write

  ghost function AppendAll(c: Contents, ps: seq<Bytes>): Contents {
    if ps == [] then c else AppendAll(c, ps[..|ps| - 1]).Append(ps[|ps| - 1])
  }

  ghost predicate NonEmpty(ps: seq<Bytes>) {
    forall i :: 0 <= i < |ps| ==> ps[i] != []
  }

  /** No piece before the last ends in a newline. */
  ghost predicate OneCommand(ps: seq<Bytes>) {
    forall i :: 0 <= i < |ps| - 1 ==> !EndsInNewline(ps[i])
  }

  /** While no piece completes a command the pieces just pile up. */
  lemma {:induction false} PilesUp(c: Contents, ps: seq<Bytes>)
    requires NonEmpty(ps) && ps != []
    requires forall i :: 0 <= i < |ps| ==> !EndsInNewline(ps[i])
    ensures AppendAll(c, ps) == Contents(c.view, c.pending + Flatten(ps))
    ensures !EndsInNewline(Flatten(ps)) && Flatten(ps) != []
  {
    var front, last := ps[..|ps| - 1], ps[|ps| - 1];
    if front == [] {
      assert AppendAll(c, ps) == c.Append(last);
      assert Flatten(ps) == last;
    } else {
      PilesUp(c, front);
      assert c.pending + Flatten(ps) == (c.pending + Flatten(front)) + last;
    }
  }

  /** Once a piece has completed a command, fewer bytes are pending than came in. */
  lemma {:induction false} PendingBound(c: Contents, ps: seq<Bytes>)
    requires NonEmpty(ps)
    ensures |AppendAll(c, ps).pending| <= |c.pending| + |Flatten(ps)|
    ensures (exists i :: 0 <= i < |ps| && EndsInNewline(ps[i])) ==>
              |AppendAll(c, ps).pending| < |c.pending| + |Flatten(ps)|
  {
    if ps != [] {
      var front, last := ps[..|ps| - 1], ps[|ps| - 1];
      PendingBound(c, front);
      if i :| 0 <= i < |ps| && EndsInNewline(ps[i]) {
        if i < |front| {
          assert EndsInNewline(front[i]);
        }
      }
    }
  }

  lemma EndOfFlatten(ps: seq<Bytes>)
    requires NonEmpty(ps) && ps != []
    ensures EndsInNewline(Flatten(ps)) == EndsInNewline(ps[|ps| - 1])
  {
  }

  /**
   Writing a packet in non-empty pieces leaves the device as writing it at once exactly when no
   piece but the last ends in a newline. In particular every split of a packet whose only newline
   is its last byte does.
   */
  lemma SplitExact(c: Contents, ps: seq<Bytes>)
    requires NonEmpty(ps) && ps != []
    ensures AppendAll(c, ps) == c.Append(Flatten(ps)) <==> OneCommand(ps)
  {
    var front, last := ps[..|ps| - 1], ps[|ps| - 1];
    EndOfFlatten(ps);
    assert c.pending + Flatten(ps) == (c.pending + Flatten(front)) + last;
    if OneCommand(ps) {
      if front == [] {
        assert Flatten(ps) == last;
      } else {
        PilesUp(c, front);
      }
    } else {
      PendingBound(c, front);
      var split, once := AppendAll(c, ps), c.Append(Flatten(ps));
      var i :| 0 <= i < |ps| - 1 && EndsInNewline(ps[i]);
      assert EndsInNewline(front[i]);
      if EndsInNewline(last) {
        assert |split.view[|split.view| - 1]| < |once.view[|once.view| - 1]|;
      } else {
        assert |split.pending| < |once.pending|;
      }
    }
  }

  function WriteRequest(f: nat, p: Bytes): Request {
    Request(f, Write(p, false, false, false))
  }

  /** Writing the pieces in turn to file `f`. */
  ghost function WriteAll(s: Sys, f: nat, ps: seq<Bytes>): (s': Sys)
    requires Ok(s) && f < |s.pos| && forall i :: 0 <= i < |ps| ==> |ps[i]| < HEAP_LIMIT
    ensures Ok(s') && |s'.pos| == |s.pos|
  {
    if ps == [] then s else Step(WriteAll(s, f, ps[..|ps| - 1]), WriteRequest(f, ps[|ps| - 1]))
  }

  ghost predicate AllAccepted(s: Sys, f: nat, ps: seq<Bytes>)
    requires Ok(s) && f < |s.pos| && forall i :: 0 <= i < |ps| ==> |ps[i]| < HEAP_LIMIT
  {
    ps == [] || (AllAccepted(s, f, ps[..|ps| - 1])
                 && Accepts(WriteAll(s, f, ps[..|ps| - 1]), WriteRequest(f, ps[|ps| - 1])) != [])
  }

  /** The writes of `ps` to file `f` all went through between `s` and `s'`. */
  ghost predicate Wrote(s: Sys, s': Sys, f: nat, ps: seq<Bytes>)
    requires Ok(s) && Ok(s') && f < |s.pos|
  {
    && !s.crashed && !s'.crashed
    && Abs(s'.dev) == AppendAll(Abs(s.dev), ps)
    && s'.pos == if ps == [] then s.pos else s.pos[f := |Abs(s'.dev).Stream()| - 1]
  }

  lemma {:induction false} WriteAllMeaning(s: Sys, f: nat, ps: seq<Bytes>)
    requires Ok(s) && !s.crashed && f < |s.pos| && forall i :: 0 <= i < |ps| ==> |ps[i]| < HEAP_LIMIT
    requires AllAccepted(s, f, ps)
    ensures Wrote(s, WriteAll(s, f, ps), f, ps)
  {
    hide Step, Abs, Valid, Accepts;
    if ps != [] {
      var front, last := ps[..|ps| - 1], ps[|ps| - 1];
      WriteAllMeaning(s, f, front);
      WriteStep(s, WriteAll(s, f, front), f, front, last);
      assert front + [last] == ps;
    }
  }

  lemma WriteStep(s: Sys, m: Sys, f: nat, front: seq<Bytes>, p: Bytes)
    requires Ok(s) && Ok(m) && f < |s.pos| && |m.pos| == |s.pos| && Wrote(s, m, f, front)
    requires |p| < HEAP_LIMIT && Accepts(m, WriteRequest(f, p)) != []
    ensures Wrote(s, Step(m, WriteRequest(f, p)), f, front + [p])
  {
    hide Valid, DoWrite;
    WriteMeaning(m.dev, m.pos[f], WriteRequest(f, p).call);
    assert (front + [p])[..|front|] == front;
  }

  /**
   Write-split invariance on the device itself: from any state, splitting an accepted write into
   accepted non-empty pieces reaches the same ring contents, pending bytes and file positions,
   exactly when no piece but the last ends in a newline.
   */
  lemma WriteSplit(s: Sys, f: nat, ps: seq<Bytes>)
    requires Ok(s) && !s.crashed && f < |s.pos| && forall i :: 0 <= i < |ps| ==> |ps[i]| < HEAP_LIMIT
    requires NonEmpty(ps) && ps != [] && |Flatten(ps)| < HEAP_LIMIT
    requires AllAccepted(s, f, ps) && AllAccepted(s, f, [Flatten(ps)])
    ensures var split, once := WriteAll(s, f, ps), WriteAll(s, f, [Flatten(ps)]);
            && Wrote(s, split, f, ps) && Wrote(s, once, f, [Flatten(ps)])
            && (OneCommand(ps) ==> Abs(split.dev) == Abs(once.dev) && split.pos == once.pos)
            && (!OneCommand(ps) ==> Abs(split.dev) != Abs(once.dev))
  {
    WriteAllMeaning(s, f, ps);
    WriteAllMeaning(s, f, [Flatten(ps)]);
    AppendOne(Abs(s.dev), Flatten(ps));
    SplitExact(Abs(s.dev), ps);
  }

  lemma AppendOne(c: Contents, p: Bytes)
    ensures AppendAll(c, [p]) == c.Append(p)
  {
    assert [p][..0] == [];
  }

  // ---------------------------------------------------------------------------------------
  // Reading

  /** The result of a read is bytes of command `k` from its byte `b` on, and reaches its end exactly
      if `count` does. */
  ghost predicate InOneCommand(v: seq<Bytes>, fPos: int, count: nat, k: nat, b: nat, fPos': int, ret: Ret) {
    && InCommand(v, fPos, k, b)
    && fPos <= fPos' <= |Flatten(v[..k + 1])|
    && (fPos' == |Flatten(v[..k + 1])| <==> count >= |v[k]| - b)
    && b + (fPos' - fPos) <= |v[k]|
    && ret == Ret(fPos' - fPos, v[k][b..b + (fPos' - fPos)])
  }

  lemma ReadInOneCommand(v: seq<Bytes>, fPos: int, count: nat, fPos': int, ret: Ret) returns (k: nat, b: nat)
    requires IsRead(v, fPos, count, false, fPos', ret) && 0 <= fPos < |Flatten(v)|
    ensures InOneCommand(v, fPos, count, k, b, fPos', ret)
  {
    k, b :| InCommand(v, fPos, k, b) && IsReadAt(v, fPos, k, b, count, false, fPos', ret);
    FlattenSnoc(v[..k], v[k]);
    assert v[..k + 1] == v[..k] + [v[k]];
  }

  /** No read crosses a command boundary, and one that asks for enough ends at it. */
  lemma ReadStaysInCommand(d: Device, fPos: int, call: Call) returns (k: nat, b: nat)
    requires Valid(d) && IsOffset(fPos) && call.Read? && Legal(call) && !call.interrupted && !call.faults
    requires 0 <= fPos < |Abs(d).Stream()|
    ensures InOneCommand(View(d), fPos, call.count, k, b, DoCall(d, fPos, call).fPos, DoCall(d, fPos, call).ret)
  {
    hide Holds, DoCall, Flatten, View;
    ReadMeaning(d, fPos, call);
    k, b := ReadInOneCommand(View(d), fPos, call.count, DoCall(d, fPos, call).fPos, DoCall(d, fPos, call).ret);
  }

  /** The bytes that results deliver. */
  ghost function Delivered(rets: seq<Ret>): Bytes {
    if rets == [] then []
    else Delivered(rets[..|rets| - 1]) + if rets[|rets| - 1].Ret? then rets[|rets| - 1].data else []
  }

  /** The call is a write that completes a command. */
  ghost predicate Flushes(s: Sys, r: Request)
    requires Ok(s) && Serves(|s.pos|, r)
  {
    Accepts(s, r) != [] && EndsInNewline(Pending(s.dev) + r.call.buf)
  }

  /** Among the first `k` calls, file `f` only reads, and no file completes a command. */
  ghost predicate OnlyReads(s: Sys, rs: seq<Request>, f: nat, k: nat)
    requires Ok(s) && AllServe(|s.pos|, rs) && k <= |rs|
  {
    forall i :: 0 <= i < k ==> (rs[i].file == f ==> rs[i].call.Read?) && !Flushes(Exec(s, rs, i), rs[i])
  }

  /** A read of file `f` that nothing disturbs. */
  ghost predicate Good(s: Sys, r: Request, f: nat) {
    r.file == f && r.call.Read? && !r.call.interrupted && !r.call.faults && r.call.count > 0 && !s.crashed
  }

  ghost function GoodReads(s: Sys, rs: seq<Request>, f: nat, k: nat): nat
    requires Ok(s) && AllServe(|s.pos|, rs) && k <= |rs|
  {
    if k == 0 then 0 else GoodReads(s, rs, f, k - 1) + if Good(Exec(s, rs, k - 1), rs[k - 1], f) then 1 else 0
  }

  /** Between `s` and `s'` file `f` has received the stream of commands `v` from its position on. */
  ghost predicate HasRead(v: seq<Bytes>, s: Sys, s': Sys, f: nat)
    requires Ok(s) && Ok(s') && f < |s.pos| == |s'.pos|
  {
    && (!s'.crashed ==> View(s'.dev) == v)
    && 0 <= s.pos[f] <= s'.pos[f] <= |Flatten(v)|
    && s.rets[f] <= s'.rets[f]
    && Delivered(s'.rets[f][|s.rets[f]|..]) == Flatten(v)[s.pos[f]..s'.pos[f]]
  }

  lemma ReadStep(v: seq<Bytes>, s: Sys, r: Request, f: nat)
    requires Ok(s) && Serves(|s.pos|, r) && f < |s.pos| && (!s.crashed ==> View(s.dev) == v)
    requires 0 <= s.pos[f] <= |Flatten(v)| && (r.file == f ==> r.call.Read?) && !Flushes(s, r)
    ensures HasRead(v, s, Step(s, r), f)
    ensures Good(s, r, f) ==> Step(s, r).pos[f] == |Flatten(v)| || Step(s, r).pos[f] > s.pos[f]
  {
    hide Holds, DoCall, Flatten;
    if s.crashed || r.file != f {
      OtherStep(v, s, r, f);
    } else {
      OwnStep(v, s, r);
    }
  }

  lemma OtherStep(v: seq<Bytes>, s: Sys, r: Request, f: nat)
    requires Ok(s) && Serves(|s.pos|, r) && f < |s.pos| && (!s.crashed ==> View(s.dev) == v)
    requires 0 <= s.pos[f] <= |Flatten(v)| && (r.file == f ==> r.call.Read?) && !Flushes(s, r)
    requires s.crashed || r.file != f
    ensures HasRead(v, s, Step(s, r), f)
  {
    hide Holds, DoCall, Flatten;
    if !s.crashed {
      CallKeepsValid(s.dev, s.pos[r.file], r.call);
      if r.call.Write? { WriteMeaning(s.dev, s.pos[r.file], r.call); }
      assert Step(s, r).rets[f] == s.rets[f];
    } else if Early(r.call).Some? && r.file == f {
      assert Step(s, r).rets[f][|s.rets[f]|..] == [Early(r.call).value];
      OneDelivered(Early(r.call).value);
    }
  }

  lemma OneDelivered(ret: Ret)
    ensures Delivered([ret]) == if ret.Ret? then ret.data else []
  {
    assert [ret][..0] == [];
  }

  lemma OwnStep(v: seq<Bytes>, s: Sys, r: Request)
    requires Ok(s) && Serves(|s.pos|, r) && !s.crashed && View(s.dev) == v
    requires 0 <= s.pos[r.file] <= |Flatten(v)| && r.call.Read?
    ensures HasRead(v, s, Step(s, r), r.file)
    ensures Good(s, r, r.file) ==> Step(s, r).pos[r.file] == |Flatten(v)| || Step(s, r).pos[r.file] > s.pos[r.file]
  {
    hide Holds, DoCall, Flatten, IsRead;
    var fPos := s.pos[r.file];
    CallKeepsValid(s.dev, fPos, r.call);
    ReadMeaning(s.dev, fPos, r.call);
    var o := DoCall(s.dev, fPos, r.call);
    assert Step(s, r).rets[r.file][|s.rets[r.file]|..] == [o.ret];
    OneDelivered(o.ret);
    if !r.call.interrupted {
      ReadGives(v, fPos, r.call.count, r.call.faults, o.fPos, o.ret);
    }
  }

  /** One read, from a position in or at the end of the stream. */
  lemma ReadGives(v: seq<Bytes>, fPos: nat, count: nat, faults: bool, fPos': int, ret: Ret)
    requires IsRead(v, fPos, count, faults, fPos', ret) && fPos <= |Flatten(v)|
    ensures ret.Ret? && fPos <= fPos' <= |Flatten(v)| && ret.data == Flatten(v)[fPos..fPos']
    ensures !faults && count > 0 ==> fPos' == |Flatten(v)| || fPos' > fPos
  {
    if faults {
      if fPos < |Flatten(v)| {
        var k: nat, b: nat :| InCommand(v, fPos, k, b) && IsReadAt(v, fPos, k, b, count, faults, fPos', ret);
      }
    } else {
      ReadIsSlice(v, fPos, count, fPos', ret);
    }
  }

  lemma {:induction false} DeliveredAppend(a: seq<Ret>, b: seq<Ret>)
    ensures Delivered(a + b) == Delivered(a) + Delivered(b)
    decreases |b|
  {
    if b == [] {
      assert a + b == a;
    } else {
      assert (a + b)[..|a + b| - 1] == a + b[..|b| - 1];
      DeliveredAppend(a, b[..|b| - 1]);
    }
  }

  lemma HasReadOn(v: seq<Bytes>, s: Sys, m: Sys, s': Sys, f: nat)
    requires Ok(s) && Ok(m) && Ok(s') && f < |s.pos| == |m.pos| == |s'.pos|
    requires HasRead(v, s, m, f) && HasRead(v, m, s', f)
    ensures HasRead(v, s, s', f)
  {
    hide Valid, Flatten, View, Delivered;
    var n := |s.rets[f]|;
    var a, b := m.rets[f][n..], s'.rets[f][|m.rets[f]|..];
    assert s'.rets[f] == m.rets[f] + b;
    assert s'.rets[f][n..] == a + b;
    DeliveredAppend(a, b);
  }

  lemma {:induction false} ReadRun(v: seq<Bytes>, s: Sys, rs: seq<Request>, f: nat, k: nat)
    requires Ok(s) && AllServe(|s.pos|, rs) && k <= |rs| && f < |s.pos|
    requires HasRead(v, s, s, f) && OnlyReads(s, rs, f, k)
    ensures HasRead(v, s, Exec(s, rs, k), f)
    ensures Exec(s, rs, k).pos[f] == |Flatten(v)| || Exec(s, rs, k).pos[f] - s.pos[f] >= GoodReads(s, rs, f, k)
  {
    hide Step, Valid, View, Flatten, Flushes, Good, Delivered;
    if k > 0 {
      ReadRun(v, s, rs, f, k - 1);
      var m := Exec(s, rs, k - 1);
      ReadStep(v, m, rs[k - 1], f);
      HasReadOn(v, s, m, Exec(s, rs, k), f);
    }
  }

  /**
   Read completeness over runs. While any files make any calls, of which those of file `f` are
   reads and none completes a command, `f` receives exactly the stream from its position on, in
   order and without a gap; each undisturbed read moves on until the end, so as many of them as
   bytes remain deliver all of it.
   */
  lemma ReadCompleteness(s: Sys, rs: seq<Request>, f: nat, k: nat)
    requires Ok(s) && !s.crashed && AllServe(|s.pos|, rs) && k <= |rs| && f < |s.pos|
    requires 0 <= s.pos[f] <= |Abs(s.dev).Stream()| && OnlyReads(s, rs, f, k)
    ensures HasRead(View(s.dev), s, Exec(s, rs, k), f)
    ensures Exec(s, rs, k).pos[f] == |Abs(s.dev).Stream()| || Exec(s, rs, k).pos[f] - s.pos[f] >= GoodReads(s, rs, f, k)
  {
    hide Step, Flatten, OnlyReads, GoodReads, Exec;
    NothingRead(s, f);
    ReadRun(View(s.dev), s, rs, f, k);
  }

  lemma NothingRead(s: Sys, f: nat)
    requires Ok(s) && f < |s.pos| && !s.crashed && 0 <= s.pos[f] <= |Abs(s.dev).Stream()|
    ensures HasRead(View(s.dev), s, s, f)
  {
    assert s.rets[f][|s.rets[f]|..] == [];
  }

  /** At the position a write leaves, a read gives the last byte of the ring again, or nothing. */
  lemma ReadLastByte(d: Device, count: nat)
    requires Valid(d) && 0 < count < HEAP_LIMIT
    ensures |Abs(d).Stream()| <= HEAP_LIMIT
    ensures var s := Abs(d).Stream();
            DoCall(d, |s| - 1, Read(count, false, false)).ret == if s == [] then Ret(0, []) else Ret(1, [s[|s| - 1]])
  {
    hide Holds, DoCall, IsRead, Flatten, View, Pending;
    StreamTotal(d);
    var s := Abs(d).Stream();
    ReadMeaning(d, |s| - 1, Read(count, false, false));
    var o := DoCall(d, |s| - 1, Read(count, false, false));
    LastRead(View(d), count, o.fPos, o.ret);
  }

  lemma LastRead(v: seq<Bytes>, count: nat, fPos': int, ret: Ret)
    requires count > 0 && IsRead(v, |Flatten(v)| - 1, count, false, fPos', ret)
    ensures ret == if Flatten(v) == [] then Ret(0, []) else Ret(1, [Flatten(v)[|Flatten(v)| - 1]])
  {
    ReadIsSlice(v, |Flatten(v)| - 1, count, fPos', ret);
  }

  /** So the owner of a successful write, who expects the end of the ring, is one byte short of it. */
  lemma ReadAfterWrite(d: Device, fPos: int, call: Call, count: nat)
    requires Valid(d) && IsOffset(fPos) && call.Write? && Legal(call) && 0 < count < HEAP_LIMIT
    requires !WriteFails(d, call) && !ReadsByteMinusOne(d, call)
    ensures Appended(d, call.buf, DoCall(d, fPos, call))
    ensures var w := DoCall(d, fPos, call);
            DoCall(w.dev, w.fPos, Read(count, false, false)).ret
            == if Abs(w.dev).Stream() == [] then Ret(0, []) else Ret(1, [Abs(w.dev).Stream()[w.fPos]])
  {
    WriteMeaning(d, fPos, call);
    ReadLastByte(DoCall(d, fPos, call).dev, count);
  }

  /** What file `f` has received in the first `k` calls. */
  ghost function ReceivedBy(s: Sys, rs: seq<Request>, f: nat, k: nat): Bytes
    requires Ok(s) && AllServe(|s.pos|, rs) && k <= |rs| && f < |s.pos|
  {
    var before, after := s.rets[f], Exec(s, rs, k).rets[f];
    if |before| <= |after| then Delivered(after[|before|..]) else []
  }

  /**
   Seek, then read, over runs: from the state a successful seek of file `f` leaves, `f` receives a
   prefix of the rest of the named command and the later ones, all of it after enough reads, as long
   as no file completes a command.
   */
  lemma {:induction false} SeekThenRead(s: Sys, f: nat, call: Call, rs: seq<Request>)
    requires Ok(s) && !s.crashed && f < |s.pos| && call.SeekTo? && Legal(call)
    requires DoCall(s.dev, s.pos[f], call).ret == Ret(0, [])
    requires var s1 := Step(s, Request(f, call)); AllServe(|s1.pos|, rs) && OnlyReads(s1, rs, f, |rs|)
    ensures call.writeCmd < |View(s.dev)| && call.writeCmdOffset < |View(s.dev)[call.writeCmd]|
    ensures var s1, due := Step(s, Request(f, call)), View(s.dev)[call.writeCmd][call.writeCmdOffset..] + Flatten(View(s.dev)[call.writeCmd + 1..]);
      && ReceivedBy(s1, rs, f, |rs|) <= due
      && (GoodReads(s1, rs, f, |rs|) >= |due| ==> ReceivedBy(s1, rs, f, |rs|) == due)
  {
    hide Holds, DoCall, Flatten, View, OnlyReads, GoodReads, Exec;
    var s1 := Step(s, Request(f, call));
    SeekMeaning(s.dev, s.pos[f], call);
    SeekStepIs(s, f, call);
    ReadCompleteness(s1, rs, f, |rs|);
    RestOfStream(Flatten(View(s.dev)), s1.pos[f], Exec(s1, rs, |rs|).pos[f]);
  }

  lemma SeekStepIs(s: Sys, f: nat, call: Call)
    requires Ok(s) && !s.crashed && f < |s.pos| && call.SeekTo? && Legal(call) && DoCall(s.dev, s.pos[f], call).ret == Ret(0, [])
    ensures var s1 := Step(s, Request(f, call));
      s1.dev == s.dev && !s1.crashed && s1.pos[f] == DoCall(s.dev, s.pos[f], call).fPos
  {
    hide Holds, DoCall;
    CallKeepsValid(s.dev, s.pos[f], call);
    SeekMeaning(s.dev, s.pos[f], call);
  }

  lemma RestOfStream(stream: Bytes, from: nat, to: nat)
    requires from <= to <= |stream|
    ensures stream[from..to] <= stream[from..]
    ensures to == |stream| ==> stream[from..to] == stream[from..]
  {
    assert stream[from..][..to - from] == stream[from..to];
  }
}
