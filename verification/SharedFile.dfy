/**
 The server over a regular file (server/src/connection.c, server/src/signal.c): any number of
 connections and the timer append records to one file under one mutex, through writes that may
 take less than they are given; each connection then reads the file back without the mutex.

 A run is any sequence of events. The kernel's choices (how much a write, read or send takes,
 what fails, when a connection arrives, what it sends) are in the events.
 */
module SharedFile {
  import opened Bytes
  import Transfer

  const DATESIZE: nat := 30

  datatype Role = Connection | Timer

  /** Where a thread stands. `seg` is the index of the segment its critical section wrote. */
  datatype Phase =
    | Receiving                                              // the packet, or the timer's signal
    | WantLock(record: Bytes)
    | Writing(seg: nat, left: nat)                           // in putchars, holding the mutex
    | Unlocking(seg: nat, ok: bool)                          // putchars has returned 0 or -1
    | Seeking(seg: nat)
    | Reading(seg: nat, pos: nat)
    | Sending(seg: nat, pos: nat, chunk: Bytes, done: nat)   // in sock_putchars
    | Finishing(seg: nat, abort: bool)
    | Done(seg: nat, abort: bool)

  datatype Proc = Proc(role: Role, phase: Phase, sent: Bytes)

  datatype Status = Open | Whole | Cut

  /** What one critical section has appended so far: the first `written` bytes of its record. */
  datatype Segment = Segment(owner: nat, record: Bytes, written: nat, status: Status)

  datatype State = State(file: Bytes, lock: Option<nat>, procs: seq<Proc>, segs: seq<Segment>)

  datatype Event =
    | Accept
    | Receive(t: nat, record: Bytes)
    | ReceiveFail(t: nat)
    | TakeLock(t: nat)
    | WriteSome(t: nat, n: nat)
    | WriteFail(t: nat)
    | WriteEnd(t: nat)
    | Unlock(t: nat)
    | Seek(t: nat, ok: bool)
    | ReadSome(t: nat, n: nat)
    | ReadEof(t: nat)
    | ReadFail(t: nat)
    | SendSome(t: nat, n: nat)
    | SendFail(t: nat)
    | SendEnd(t: nat)
    | Close(t: nat, ok: bool)

  /** The timer thread alone, and an empty file. */
  const INIT: State := State([], None, [Proc(Timer, Receiving, [])], [])

  function Put(s: State, t: nat, phase: Phase): State
    requires t < |s.procs|
  {
    s.(procs := s.procs[t := s.procs[t].(phase := phase)])
  }

  /** An event that cannot happen now changes nothing. */
  function Next(s: State, e: Event): State {
    if e.Accept? then s.(procs := s.procs + [Proc(Connection, Receiving, [])])
    else if e.t >= |s.procs| then s
    else
      var p := s.procs[e.t];
      match p.phase
      case Receiving => ReceivingNext(s, e, p)
      case WantLock(record) =>
        if e.TakeLock? && s.lock.None? then
          Put(s, e.t, Writing(|s.segs|, |record|))
          .(lock := Some(e.t), segs := s.segs + [Segment(e.t, record, 0, Open)])
        else s
      case Writing(seg, left) => WritingNext(s, e, seg, left)
      case Unlocking(seg, ok) =>
        if e.Unlock? && seg < |s.segs| then
          Put(s, e.t, if !ok then Finishing(seg, true) else if p.role.Timer? then Receiving else Seeking(seg))
          .(lock := None, segs := s.segs[seg := s.segs[seg].(status := if ok then Whole else Cut)])
        else s
      case Seeking(seg) =>
        if e.Seek? then Put(s, e.t, if e.ok then Reading(seg, 0) else Finishing(seg, true)) else s
      case Reading(seg, pos) => ReadingNext(s, e, seg, pos)
      case Sending(seg, pos, chunk, done) => SendingNext(s, e, p, seg, pos, chunk, done)
      case Finishing(seg, abort) => if e.Close? then Put(s, e.t, Done(seg, abort || !e.ok)) else s
      case Done(_, _) => s
  }

  /** sock_getline returned, or the timer's signal came and the date was formatted. */
  function ReceivingNext(s: State, e: Event, p: Proc): State
    requires !e.Accept? && e.t < |s.procs|
  {
    match e
    case Receive(t, record) => if p.role.Timer? && |record| != DATESIZE then s else Put(s, t, WantLock(record))
    case ReceiveFail(t) => Put(s, t, Finishing(0, true))
    case _ => s
  }

  /** putchars: the kernel takes some of the bytes left, at the end of the file, or fails. */
  function WritingNext(s: State, e: Event, seg: nat, left: nat): State
    requires !e.Accept? && e.t < |s.procs|
  {
    if seg >= |s.segs| || left > |s.segs[seg].record| then s
    else
      var g := s.segs[seg];
      match e
      case WriteSome(t, n) =>
        if 0 < left && n <= left then
          var head := |g.record| - left;
          Put(s, t, Writing(seg, left - n))
          .(file := s.file + g.record[head..head + n], segs := s.segs[seg := g.(written := g.written + n)])
        else s
      case WriteFail(t) => if 0 < left then Put(s, t, Unlocking(seg, false)) else s
      case WriteEnd(t) => if left == 0 then Put(s, t, Unlocking(seg, true)) else s
      case _ => s
  }

  /** read: some bytes from the position on, 0 exactly at the end of a regular file, or a failure. */
  function ReadingNext(s: State, e: Event, seg: nat, pos: nat): State
    requires !e.Accept? && e.t < |s.procs|
  {
    match e
    case ReadSome(t, n) =>
      if 0 < n <= Transfer.CONN_BUFSIZE && pos + n <= |s.file| then Put(s, t, Sending(seg, pos + n, s.file[pos..pos + n], 0))
      else s
    case ReadEof(t) => if pos >= |s.file| then Put(s, t, Finishing(seg, false)) else s
    case ReadFail(t) => Put(s, t, Finishing(seg, true))
    case _ => s
  }

  /** sock_putchars. */
  function SendingNext(s: State, e: Event, p: Proc, seg: nat, pos: nat, chunk: Bytes, done: nat): State
    requires !e.Accept? && e.t < |s.procs|
  {
    match e
    case SendSome(t, n) =>
      if done < |chunk| && done + n <= |chunk| then
        s.(procs := s.procs[t := p.(phase := Sending(seg, pos, chunk, done + n), sent := p.sent + chunk[done..done + n])])
      else s
    case SendFail(t) => if done < |chunk| then Put(s, t, Finishing(seg, true)) else s
    case SendEnd(t) => if done == |chunk| then Put(s, t, Reading(seg, pos)) else s
    case _ => s
  }

  // ---------------------------------------------------------------------------------------
  // The invariant

  /** Where segment `k` begins in the file; for `k == |segs|`, where the file ends. */
  ghost function SegStart(segs: seq<Segment>, k: nat): nat
    requires k <= |segs|
  {
    if k == 0 then 0 else SegStart(segs, k - 1) + segs[k - 1].written
  }

  /** The file is the segments laid end to end, each a prefix of its record. */
  ghost predicate IsConcatenation(file: Bytes, segs: seq<Segment>) {
    && |file| == SegStart(segs, |segs|)
    && forall k :: 0 <= k < |segs| ==> SegmentAt(file, segs, k)
  }

  ghost predicate SegmentAt(file: Bytes, segs: seq<Segment>, k: nat)
    requires k < |segs|
  {
    PieceAt(file, SegStart(segs, k), segs[k])
  }

  ghost predicate PieceAt(file: Bytes, at: nat, g: Segment) {
    g.written <= |g.record| && at + g.written <= |file| && file[at..at + g.written] == g.record[..g.written]
  }

  /** Closed segments are whole or cut; only the last can be open, and only while the lock is held. */
  ghost predicate SegmentsClosed(s: State) {
    && (forall k :: 0 <= k < |s.segs| && s.segs[k].status.Whole? ==> s.segs[k].written == |s.segs[k].record|)
    && (forall k :: 0 <= k < |s.segs| && s.segs[k].status.Open? ==> k + 1 == |s.segs| && s.lock == Some(s.segs[k].owner))
  }

  ghost predicate Own(s: State, t: nat, seg: nat) {
    seg < |s.segs| && s.segs[seg].owner == t && s.segs[seg].status.Whole?
  }

  /** The lock's holder, alone, is in the critical section, and the last segment is its own. */
  ghost predicate Appending(s: State, t: nat, seg: nat) {
    s.lock == Some(t) && seg + 1 == |s.segs| && s.segs[seg].owner == t && s.segs[seg].status.Open?
  }

  ghost predicate ProcOk(s: State, t: nat, p: Proc) {
    && (s.lock == Some(t) ==> p.phase.Writing? || p.phase.Unlocking?)
    && match p.phase
       case Receiving => p.sent == []
       case WantLock(record) => p.sent == [] && (p.role.Timer? ==> |record| == DATESIZE)
       case Writing(seg, left) =>
         p.sent == [] && Appending(s, t, seg) && s.segs[seg].written + left == |s.segs[seg].record|
       case Unlocking(seg, ok) =>
         p.sent == [] && Appending(s, t, seg) && (ok ==> s.segs[seg].written == |s.segs[seg].record|)
       case Seeking(seg) => p.sent == [] && Own(s, t, seg)
       case Reading(seg, pos) => Own(s, t, seg) && pos <= |s.file| && p.sent == s.file[..pos]
       case Sending(seg, pos, chunk, done) =>
         && Own(s, t, seg)
         && done <= |chunk| <= pos <= |s.file|
         && chunk == s.file[pos - |chunk|..pos]
         && p.sent == s.file[..pos - |chunk| + done]
       case Finishing(seg, abort) => Finished(s, t, p, seg, abort)
       case Done(seg, abort) => Finished(s, t, p, seg, abort)
  }

  /** A finished connection has been sent a prefix of the file; without abort, one that reaches
      past its own whole segment. */
  ghost predicate Finished(s: State, t: nat, p: Proc, seg: nat, abort: bool) {
    && p.sent <= s.file
    && (!abort ==> Own(s, t, seg) && SegStart(s.segs, seg + 1) <= |p.sent|)
  }

  ghost predicate Inv(s: State) {
    && IsConcatenation(s.file, s.segs)
    && SegmentsClosed(s)
    && (s.lock.Some? ==> s.lock.value < |s.procs|)
    && forall t :: 0 <= t < |s.procs| ==> ProcOk(s, t, s.procs[t])
  }

  /** What never changes: the file only grows, segments keep their owner and their record, and
      closed segments stay as they are. */
  ghost predicate Grows(s: State, s': State) {
    && s.file <= s'.file
    && |s.segs| <= |s'.segs|
    && |s.procs| <= |s'.procs|
    && forall k :: 0 <= k < |s.segs| ==> Kept(s.segs[k], s'.segs[k])
  }

  ghost predicate Kept(g: Segment, g': Segment) {
    g'.owner == g.owner && g'.record == g.record && g.written <= g'.written && (g.status.Open? || g' == g)
  }

  // ---------------------------------------------------------------------------------------
  // One event

  lemma {:induction false} SegStartSame(segs: seq<Segment>, segs': seq<Segment>, k: nat)
    requires k <= |segs| && k <= |segs'|
    requires forall j :: 0 <= j < k ==> segs'[j].written == segs[j].written
    ensures SegStart(segs', k) == SegStart(segs, k)
  {
    if k > 0 { SegStartSame(segs, segs', k - 1); }
  }

  /** Segments up to one that is whole begin and end where they did. */
  lemma StartsStay(s: State, s': State, k: nat)
    requires Grows(s, s') && SegmentsClosed(s) && k <= |s.segs|
    requires k < |s.segs| || k == 0 || !s.segs[k - 1].status.Open?
    ensures SegStart(s'.segs, k) == SegStart(s.segs, k)
  {
    forall j | 0 <= j < k ensures s'.segs[j].written == s.segs[j].written {
      assert Kept(s.segs[j], s'.segs[j]);
    }
    SegStartSame(s.segs, s'.segs, k);
  }

  /** A thread outside the critical section, before and after, is not affected by the others. */
  lemma Bystander(s: State, s': State, t: nat, p: Proc)
    requires SegmentsClosed(s) && Grows(s, s') && ProcOk(s, t, p)
    requires s.lock != Some(t) && s'.lock != Some(t)
    ensures ProcOk(s', t, p)
  {
    match p.phase
    case Seeking(seg) => assert Kept(s.segs[seg], s'.segs[seg]);
    case Reading(seg, _) => assert Kept(s.segs[seg], s'.segs[seg]);
    case Sending(seg, _, _, _) => assert Kept(s.segs[seg], s'.segs[seg]);
    case Finishing(seg, abort) => FinishedStays(s, s', t, p, seg, abort);
    case Done(seg, abort) => FinishedStays(s, s', t, p, seg, abort);
    case _ =>
  }

  lemma FinishedStays(s: State, s': State, t: nat, p: Proc, seg: nat, abort: bool)
    requires SegmentsClosed(s) && Grows(s, s') && Finished(s, t, p, seg, abort)
    ensures Finished(s', t, p, seg, abort)
  {
    if !abort {
      assert Kept(s.segs[seg], s'.segs[seg]);
      StartsStay(s, s', seg + 1);
    }
  }

  /** Only thread `t` moved, and only the lock's holder touches the file, the segments or the lock. */
  ghost predicate OnlyMoves(s: State, s': State, t: nat) {
    && |s'.procs| == |s.procs|
    && t < |s.procs|
    && (forall u :: 0 <= u < |s.procs| && u != t ==> s'.procs[u] == s.procs[u])
    && ( || (s'.lock == s.lock && s'.segs == s.segs && s'.file == s.file)
         || ((s.lock == None || s.lock == Some(t)) && (s'.lock == None || s'.lock == Some(t))))
  }

  lemma Others(s: State, s': State, t: nat)
    requires Inv(s) && Grows(s, s') && OnlyMoves(s, s', t)
    requires IsConcatenation(s'.file, s'.segs) && SegmentsClosed(s') && ProcOk(s', t, s'.procs[t])
    ensures Inv(s')
  {
    forall u | 0 <= u < |s'.procs| ensures ProcOk(s', u, s'.procs[u]) {
      if u != t {
        assert ProcOk(s, u, s.procs[u]);
        if s.lock == Some(u) {
          assert s'.lock == s.lock && s'.segs == s.segs && s'.file == s.file;
          HolderStays(s, s', u, s.procs[u]);
        } else {
          Bystander(s, s', u, s.procs[u]);
        }
      }
    }
  }

  lemma HolderStays(s: State, s': State, t: nat, p: Proc)
    requires ProcOk(s, t, p) && s'.lock == s.lock && s'.segs == s.segs && s'.file == s.file
    ensures ProcOk(s', t, p)
  {
  }

  /** A step that leaves the file, the segments and the lock alone. */
  lemma QuietStep(s: State, t: nat, p: Proc)
    requires Inv(s) && t < |s.procs|
    requires ProcOk(s, t, p)
    ensures var s' := s.(procs := s.procs[t := p]); Inv(s') && Grows(s, s')
  {
    var s' := s.(procs := s.procs[t := p]);
    HolderStays(s, s', t, p);
    Others(s, s', t);
  }

  lemma AcceptStep(s: State)
    requires Inv(s)
    ensures var s' := s.(procs := s.procs + [Proc(Connection, Receiving, [])]); Inv(s') && Grows(s, s')
  {
    var s' := s.(procs := s.procs + [Proc(Connection, Receiving, [])]);
    forall u | 0 <= u < |s'.procs| ensures ProcOk(s', u, s'.procs[u]) {
      if u < |s.procs| { HolderStays(s, s', u, s.procs[u]); }
    }
  }

  /** Replacing the last segment, or adding one, keeps the earlier ones in place. */
  lemma LastSegment(file: Bytes, segs: seq<Segment>, file': Bytes, segs': seq<Segment>)
    requires IsConcatenation(file, segs) && file <= file' && 0 < |segs'|
    requires |segs'| - 1 <= |segs| && segs'[..|segs'| - 1] == segs[..|segs'| - 1]
    requires |file'| == SegStart(segs, |segs'| - 1) + segs'[|segs'| - 1].written
    requires segs'[|segs'| - 1].written <= |segs'[|segs'| - 1].record|
    requires file'[SegStart(segs, |segs'| - 1)..] == segs'[|segs'| - 1].record[..segs'[|segs'| - 1].written]
    ensures IsConcatenation(file', segs')
  {
    var last := |segs'| - 1;
    forall j | 0 <= j < last ensures segs'[j] == segs[j] {
      assert segs'[j] == segs'[..last][j];
      assert segs[j] == segs[..last][j];
    }
    SegStartSame(segs, segs', last);
    forall k | 0 <= k < |segs'| ensures SegmentAt(file', segs', k) {
      SegStartSame(segs, segs', k);
      if k < last {
        assert SegmentAt(file, segs, k);
        var at, end := SegStart(segs, k), SegStart(segs, k) + segs[k].written;
        assert file'[at..end] == file[at..end];
      } else {
        assert file'[SegStart(segs, last)..|file'|] == file'[SegStart(segs, last)..];
      }
    }
  }

  lemma TakeLockStep(s: State, t: nat)
    requires Inv(s) && t < |s.procs| && s.procs[t].phase.WantLock? && s.lock.None?
    ensures Inv(Next(s, TakeLock(t))) && Grows(s, Next(s, TakeLock(t)))
  {
    var s', record := Next(s, TakeLock(t)), s.procs[t].phase.record;
    assert ProcOk(s, t, s.procs[t]);
    LastSegment(s.file, s.segs, s'.file, s'.segs);
    Others(s, s', t);
  }

  lemma WriteSomeStep(s: State, t: nat, n: nat)
    requires Inv(s) && t < |s.procs| && s.procs[t].phase.Writing? && 0 < s.procs[t].phase.left && n <= s.procs[t].phase.left
    ensures Inv(Next(s, WriteSome(t, n))) && Grows(s, Next(s, WriteSome(t, n)))
  {
    var s', seg, left := Next(s, WriteSome(t, n)), s.procs[t].phase.seg, s.procs[t].phase.left;
    assert ProcOk(s, t, s.procs[t]);
    var g := s.segs[seg];
    assert SegmentAt(s.file, s.segs, seg);
    var at := SegStart(s.segs, seg);
    assert |s.file| == at + g.written;
    assert s'.file[at..] == g.record[..g.written + n] by {
      assert s.file[at..] == g.record[..g.written];
      assert s'.file[at..] == s.file[at..] + g.record[g.written..g.written + n];
    }
    LastSegment(s.file, s.segs, s'.file, s'.segs);
    assert Grows(s, s') by {
      forall k | 0 <= k < |s.segs| ensures Kept(s.segs[k], s'.segs[k]) { }
    }
    Others(s, s', t);
  }

  lemma UnlockStep(s: State, t: nat)
    requires Inv(s) && t < |s.procs| && s.procs[t].phase.Unlocking?
    ensures Inv(Next(s, Unlock(t))) && Grows(s, Next(s, Unlock(t)))
  {
    var s', seg, ok := Next(s, Unlock(t)), s.procs[t].phase.seg, s.procs[t].phase.ok;
    assert ProcOk(s, t, s.procs[t]);
    assert SegmentAt(s.file, s.segs, seg);
    assert s.file[SegStart(s.segs, seg)..] == s.segs[seg].record[..s.segs[seg].written];
    LastSegment(s.file, s.segs, s'.file, s'.segs);
    assert Grows(s, s') by {
      forall k | 0 <= k < |s.segs| ensures Kept(s.segs[k], s'.segs[k]) { }
    }
    Others(s, s', t);
  }

  /** The reader, given `n` bytes from its position. */
  function Given(s: State, p: Proc, n: nat): Proc
    requires p.phase.Reading? && p.phase.pos + n <= |s.file|
  {
    p.(phase := Sending(p.phase.seg, p.phase.pos + n, s.file[p.phase.pos..p.phase.pos + n], 0))
  }

  lemma GivenOk(s: State, t: nat, p: Proc, n: nat)
    requires ProcOk(s, t, p) && p.phase.Reading? && p.phase.pos + n <= |s.file|
    ensures ProcOk(s, t, Given(s, p, n))
  {
  }

  lemma ReadSomeStep(s: State, t: nat, n: nat)
    requires Inv(s) && t < |s.procs| && s.procs[t].phase.Reading?
    requires 0 < n <= Transfer.CONN_BUFSIZE && s.procs[t].phase.pos + n <= |s.file|
    ensures Inv(Next(s, ReadSome(t, n))) && Grows(s, Next(s, ReadSome(t, n)))
  {
    hide ProcOk, Grows, IsConcatenation, SegmentsClosed;
    assert ProcOk(s, t, s.procs[t]);
    GivenOk(s, t, s.procs[t], n);
    QuietStep(s, t, Given(s, s.procs[t], n));
  }

  lemma ReadingStep(s: State, e: Event)
    requires Inv(s) && !e.Accept? && e.t < |s.procs| && s.procs[e.t].phase.Reading?
    ensures Inv(Next(s, e)) && Grows(s, Next(s, e))
  {
    var p := s.procs[e.t];
    assert ProcOk(s, e.t, p);
    var seg, pos := p.phase.seg, p.phase.pos;
    match e
    case ReadSome(t, n) => if 0 < n <= Transfer.CONN_BUFSIZE && pos + n <= |s.file| { ReadSomeStep(s, t, n); }
    case ReadEof(t) =>
      if pos >= |s.file| {
        SegmentEnds(s, seg);
        QuietStep(s, t, p.(phase := Finishing(seg, false)));
      }
    case ReadFail(t) => QuietStep(s, t, p.(phase := Finishing(seg, true)));
    case _ =>
  }

  lemma SegmentEnds(s: State, seg: nat)
    requires IsConcatenation(s.file, s.segs) && seg < |s.segs|
    ensures SegStart(s.segs, seg + 1) <= |s.file|
  {
    assert SegmentAt(s.file, s.segs, seg);
  }

  /** The sender, when `n` more bytes of its chunk have gone out. */
  function SentMore(p: Proc, n: nat): Proc
    requires p.phase.Sending? && p.phase.done + n <= |p.phase.chunk|
  {
    var Sending(seg, pos, chunk, done) := p.phase;
    p.(phase := Sending(seg, pos, chunk, done + n), sent := p.sent + chunk[done..done + n])
  }

  lemma SentMoreOk(s: State, t: nat, p: Proc, n: nat)
    requires ProcOk(s, t, p) && p.phase.Sending? && p.phase.done + n <= |p.phase.chunk|
    ensures ProcOk(s, t, SentMore(p, n))
  {
    SentGrows(s.file, p.phase.pos, p.phase.chunk, p.phase.done, n);
  }

  lemma SentGrows(file: Bytes, pos: nat, chunk: Bytes, done: nat, n: nat)
    requires done + n <= |chunk| <= pos <= |file| && chunk == file[pos - |chunk|..pos]
    ensures file[..pos - |chunk| + done] + chunk[done..done + n] == file[..pos - |chunk| + done + n]
  {
    var from := pos - |chunk|;
    var sent, part := chunk[done..done + n], file[from + done..from + done + n];
    assert |sent| == |part|;
    forall i | 0 <= i < n ensures sent[i] == part[i] {
      assert sent[i] == chunk[done + i] == file[from..pos][done + i] == part[i];
    }
    assert sent == part;
  }

  lemma SendSomeStep(s: State, t: nat, n: nat)
    requires Inv(s) && t < |s.procs| && s.procs[t].phase.Sending?
    requires s.procs[t].phase.done < |s.procs[t].phase.chunk| && s.procs[t].phase.done + n <= |s.procs[t].phase.chunk|
    ensures Inv(Next(s, SendSome(t, n))) && Grows(s, Next(s, SendSome(t, n)))
  {
    hide ProcOk, Grows, IsConcatenation, SegmentsClosed;
    assert ProcOk(s, t, s.procs[t]);
    SentMoreOk(s, t, s.procs[t], n);
    QuietStep(s, t, SentMore(s.procs[t], n));
  }

  lemma SendingStep(s: State, e: Event)
    requires Inv(s) && !e.Accept? && e.t < |s.procs| && s.procs[e.t].phase.Sending?
    ensures Inv(Next(s, e)) && Grows(s, Next(s, e))
  {
    var p := s.procs[e.t];
    assert ProcOk(s, e.t, p);
    var seg, pos, chunk, done := p.phase.seg, p.phase.pos, p.phase.chunk, p.phase.done;
    match e
    case SendSome(t, n) => if done < |chunk| && done + n <= |chunk| { SendSomeStep(s, t, n); }
    case SendFail(t) => if done < |chunk| { QuietStep(s, t, p.(phase := Finishing(seg, true))); }
    case SendEnd(t) => if done == |chunk| { QuietStep(s, t, p.(phase := Reading(seg, pos))); }
    case _ =>
  }

  /** The other phases touch nothing but the thread's own place. */
  lemma PrivateStep(s: State, e: Event)
    requires Inv(s) && !e.Accept? && e.t < |s.procs|
    requires var ph := s.procs[e.t].phase; ph.Receiving? || ph.Seeking? || ph.Finishing? || ph.Done?
    ensures Inv(Next(s, e)) && Grows(s, Next(s, e))
  {
    var p := s.procs[e.t];
    assert ProcOk(s, e.t, p);
    match p.phase
    case Seeking(seg) =>
      if e.Seek? { QuietStep(s, e.t, p.(phase := if e.ok then Reading(seg, 0) else Finishing(seg, true))); }
    case Finishing(seg, abort) => if e.Close? { QuietStep(s, e.t, p.(phase := Done(seg, abort || !e.ok))); }
    case Done(_, _) =>
    case Receiving =>
      if e.Receive? && (p.role.Timer? ==> |e.record| == DATESIZE) {
        QuietStep(s, e.t, p.(phase := WantLock(e.record)));
      } else if e.ReceiveFail? {
        QuietStep(s, e.t, p.(phase := Finishing(0, true)));
      }
  }

  /** In putchars. */
  lemma WritingStep(s: State, e: Event)
    requires Inv(s) && !e.Accept? && e.t < |s.procs| && s.procs[e.t].phase.Writing?
    ensures Inv(Next(s, e)) && Grows(s, Next(s, e))
  {
    var p := s.procs[e.t];
    assert ProcOk(s, e.t, p);
    var seg, left := p.phase.seg, p.phase.left;
    match e
    case WriteSome(t, n) => if 0 < left && n <= left { WriteSomeStep(s, t, n); }
    case WriteFail(t) => if 0 < left { QuietStep(s, t, p.(phase := Unlocking(seg, false))); }
    case WriteEnd(t) => if left == 0 { QuietStep(s, t, p.(phase := Unlocking(seg, true))); }
    case _ =>
  }

  /** Every event keeps the invariant, and changes nothing that is settled. */
  lemma NextKeeps(s: State, e: Event)
    requires Inv(s)
    ensures Inv(Next(s, e)) && Grows(s, Next(s, e))
  {
    if e.Accept? {
      AcceptStep(s);
    } else if e.t < |s.procs| {
      match s.procs[e.t].phase
      case WantLock(_) => if e.TakeLock? && s.lock.None? { TakeLockStep(s, e.t); }
      case Writing(_, _) => WritingStep(s, e);
      case Unlocking(_, _) => if e.Unlock? { UnlockStep(s, e.t); }
      case Reading(_, _) => ReadingStep(s, e);
      case Sending(_, _, _, _) => SendingStep(s, e);
      case _ => PrivateStep(s, e);
    }
  }

  // ---------------------------------------------------------------------------------------
  // Whole runs

  /** The state after the first `k` events. */
  ghost function RunTo(es: seq<Event>, k: nat): State
    requires k <= |es|
  {
    if k == 0 then INIT else Next(RunTo(es, k - 1), es[k - 1])
  }

  lemma {:induction false} RunInv(es: seq<Event>, k: nat)
    requires k <= |es|
    ensures Inv(RunTo(es, k))
  {
    if k > 0 {
      RunInv(es, k - 1);
      NextKeeps(RunTo(es, k - 1), es[k - 1]);
    }
  }

  /** The part of each record that has reached the file. */
  ghost function Pieces(segs: seq<Segment>): seq<Bytes>
    requires forall g <- segs :: g.written <= |g.record|
  {
    seq(|segs|, k requires 0 <= k < |segs| => segs[k].record[..segs[k].written])
  }

  lemma {:induction false} ConcatenationIsFlatten(file: Bytes, segs: seq<Segment>)
    requires IsConcatenation(file, segs)
    requires forall g <- segs :: g.written <= |g.record|
    ensures file == Flatten(Pieces(segs))
    decreases |segs|
  {
    if segs != [] {
      var last := |segs| - 1;
      var front, cut := segs[..last], SegStart(segs, last);
      assert SegmentAt(file, segs, last);
      SegStartSame(segs, front, last);
      forall k | 0 <= k < last ensures SegmentAt(file[..cut], front, k) {
        assert SegmentAt(file, segs, k);
        PrefixSegment(file, segs, k);
      }
      ConcatenationIsFlatten(file[..cut], front);
      assert Pieces(segs)[..last] == Pieces(front);
      assert file == file[..cut] + file[cut..cut + segs[last].written];
    }
  }

  lemma {:induction false} StartsGrow(segs: seq<Segment>, j: nat, k: nat)
    requires j <= k <= |segs|
    ensures SegStart(segs, j) <= SegStart(segs, k)
    decreases k
  {
    if j < k { StartsGrow(segs, j, k - 1); }
  }

  lemma PrefixSegment(file: Bytes, segs: seq<Segment>, k: nat)
    requires k + 1 < |segs| && SegmentAt(file, segs, k) && SegStart(segs, |segs| - 1) <= |file|
    ensures SegmentAt(file[..SegStart(segs, |segs| - 1)], segs[..|segs| - 1], k)
  {
    hide PieceAt;
    var last := |segs| - 1;
    StartsGrow(segs, k + 1, last);
    SegStartSame(segs, segs[..last], k);
    PieceInPrefix(file, SegStart(segs, last), SegStart(segs, k), segs[k]);
  }

  lemma PieceInPrefix(file: Bytes, cut: nat, at: nat, g: Segment)
    requires PieceAt(file, at, g) && at + g.written <= cut <= |file|
    ensures PieceAt(file[..cut], at, g)
  {
  }

  /** In every reachable state the file is the pieces of the critical sections laid end to end, in
      lock order: each a prefix of its record, the whole of it when putchars returned 0; only the
      present holder's piece, the last one, can still grow. */
  lemma AppendAtomicity(es: seq<Event>, k: nat)
    requires k <= |es|
    ensures var s := RunTo(es, k);
      && (forall g <- s.segs :: g.written <= |g.record|)
      && s.file == Flatten(Pieces(s.segs))
      && (forall g <- s.segs :: g.status.Whole? ==> g.written == |g.record|)
      && (forall j :: 0 <= j < |s.segs| && s.segs[j].status.Open? ==> j + 1 == |s.segs| && s.lock == Some(s.segs[j].owner))
  {
    RunInv(es, k);
    var s := RunTo(es, k);
    forall g | g in s.segs ensures g.written <= |g.record| {
      var j :| 0 <= j < |s.segs| && s.segs[j] == g;
      assert SegmentAt(s.file, s.segs, j);
    }
    ConcatenationIsFlatten(s.file, s.segs);
  }

  /** Nothing written is ever changed, and no segment that has been closed is. */
  lemma {:induction false} AppendOnly(es: seq<Event>, i: nat, k: nat)
    requires i <= k <= |es|
    ensures Grows(RunTo(es, i), RunTo(es, k))
    decreases k
  {
    hide Next, Inv, Grows;
    if i == k {
      GrowsHere(RunTo(es, i));
    } else {
      AppendOnly(es, i, k - 1);
      RunInv(es, k - 1);
      NextKeeps(RunTo(es, k - 1), es[k - 1]);
      GrowsOn(RunTo(es, i), RunTo(es, k - 1), RunTo(es, k));
    }
  }

  lemma GrowsHere(s: State)
    ensures Grows(s, s)
  {
  }

  lemma GrowsOn(a: State, b: State, c: State)
    requires Grows(a, b) && Grows(b, c)
    ensures Grows(a, c)
  {
    forall k | 0 <= k < |a.segs| ensures Kept(a.segs[k], c.segs[k]) {
      assert Kept(a.segs[k], b.segs[k]) && Kept(b.segs[k], c.segs[k]);
    }
  }

  /** Event `i` is the acquisition that opened segment `j`. */
  ghost predicate Acquires(es: seq<Event>, i: nat, j: nat, owner: nat, record: Bytes) {
    && i < |es|
    && es[i] == TakeLock(owner)
    && RunTo(es, i).lock.None?
    && owner < |RunTo(es, i).procs|
    && RunTo(es, i).procs[owner].phase == WantLock(record)
    && j == |RunTo(es, i).segs|
  }

  ghost predicate SegmentIs(s: State, j: nat, owner: nat, record: Bytes) {
    j < |s.segs| && s.segs[j].owner == owner && s.segs[j].record == record
  }

  /** One segment for each acquisition of the lock, in the order of the acquisitions, and none other. */
  lemma SegmentPerSection(es: seq<Event>, k: nat, j: nat, owner: nat, record: Bytes)
    requires k <= |es|
    ensures SegmentIs(RunTo(es, k), j, owner, record) <==> exists i: nat :: i < k && Acquires(es, i, j, owner, record)
  {
    hide Next, Inv, RunTo, Acquires;
    if SegmentIs(RunTo(es, k), j, owner, record) {
      var i := SegmentOpened(es, k, j);
    }
    forall i: nat | i < k && Acquires(es, i, j, owner, record) ensures SegmentIs(RunTo(es, k), j, owner, record) {
      SegmentStays(es, i, k, j, owner, record);
    }
  }

  lemma SegmentStays(es: seq<Event>, i: nat, k: nat, j: nat, owner: nat, record: Bytes)
    requires i < k <= |es| && Acquires(es, i, j, owner, record)
    ensures SegmentIs(RunTo(es, k), j, owner, record)
  {
    hide Inv, Next, Acquires, RunTo;
    AcquiredNow(es, i, j, owner, record);
    AppendOnly(es, i + 1, k);
    assert Kept(RunTo(es, i + 1).segs[j], RunTo(es, k).segs[j]);
  }

  lemma AcquiredNow(es: seq<Event>, i: nat, j: nat, owner: nat, record: Bytes)
    requires Acquires(es, i, j, owner, record)
    ensures SegmentIs(RunTo(es, i + 1), j, owner, record)
  {
  }

  lemma {:induction false} SegmentOpened(es: seq<Event>, k: nat, j: nat) returns (i: nat)
    requires k <= |es| && j < |RunTo(es, k).segs|
    ensures i < k && Acquires(es, i, j, RunTo(es, k).segs[j].owner, RunTo(es, k).segs[j].record)
    decreases k
  {
    hide Next, Inv, Acquires, Grows;
    if k == 0 { assert false; }
    if j < |RunTo(es, k - 1).segs| {
      i := SegmentOpened(es, k - 1, j);
      SameSegment(es, k, j);
    } else {
      i := k - 1;
      OpenedNow(es, k, j);
    }
  }

  lemma SameSegment(es: seq<Event>, k: nat, j: nat)
    requires 0 < k <= |es| && j < |RunTo(es, k - 1).segs| && j < |RunTo(es, k).segs|
    ensures RunTo(es, k).segs[j].owner == RunTo(es, k - 1).segs[j].owner
    ensures RunTo(es, k).segs[j].record == RunTo(es, k - 1).segs[j].record
  {
    hide Next, Inv;
    AppendOnly(es, k - 1, k);
    assert Kept(RunTo(es, k - 1).segs[j], RunTo(es, k).segs[j]);
  }

  lemma OpenedNow(es: seq<Event>, k: nat, j: nat)
    requires 0 < k <= |es| && |RunTo(es, k - 1).segs| <= j < |RunTo(es, k).segs|
    ensures Acquires(es, k - 1, j, RunTo(es, k).segs[j].owner, RunTo(es, k).segs[j].record)
  {
  }

  /** The record a thread waits to append is the one it received. */
  lemma {:induction false} RecordWasReceived(es: seq<Event>, k: nat, t: nat) returns (i: nat)
    requires k <= |es| && t < |RunTo(es, k).procs| && RunTo(es, k).procs[t].phase.WantLock?
    ensures i < k && es[i] == Receive(t, RunTo(es, k).procs[t].phase.record)
    decreases k
  {
    hide Next;
    if k == 0 { assert false; }
    WaitsBecause(RunTo(es, k - 1), es[k - 1], t);
    if es[k - 1] == Receive(t, RunTo(es, k).procs[t].phase.record) {
      i := k - 1;
    } else {
      i := RecordWasReceived(es, k - 1, t);
    }
  }

  lemma WaitsBecause(s: State, e: Event, t: nat)
    requires t < |Next(s, e).procs| && Next(s, e).procs[t].phase.WantLock?
    ensures || e == Receive(t, Next(s, e).procs[t].phase.record)
            || (t < |s.procs| && s.procs[t].phase == Next(s, e).procs[t].phase)
  {
  }

  /** A segment's record is one its owner received, before the owner took the lock. */
  lemma SegmentWasReceived(es: seq<Event>, k: nat, j: nat) returns (i: nat)
    requires k <= |es| && j < |RunTo(es, k).segs|
    ensures i < k && es[i] == Receive(RunTo(es, k).segs[j].owner, RunTo(es, k).segs[j].record)
  {
    hide Next, Inv;
    var a := SegmentOpened(es, k, j);
    i := RecordWasReceived(es, a, RunTo(es, k).segs[j].owner);
  }

  ghost predicate Completed(p: Proc) {
    (p.phase.Finishing? || p.phase.Done?) && !p.phase.abort
  }

  /** A thread completes by reading nothing, and from then on sends nothing. */
  lemma CompletesAtEof(s: State, e: Event, t: nat)
    requires t < |Next(s, e).procs| && Completed(Next(s, e).procs[t])
    ensures t < |s.procs| && Next(s, e).procs[t].sent == s.procs[t].sent
    ensures Next(s, e).procs[t].phase.seg == s.procs[t].phase.seg
    ensures Completed(s.procs[t]) || (e == ReadEof(t) && s.procs[t].phase.Reading? && s.procs[t].phase.pos >= |s.file|)
  {
  }

  /** The zero-byte read after which a thread completed: it had then been sent the whole file. */
  lemma {:induction false} FinalRead(es: seq<Event>, k: nat, t: nat) returns (j: nat)
    requires k <= |es| && t < |RunTo(es, k).procs| && Completed(RunTo(es, k).procs[t])
    ensures j < k && es[j] == ReadEof(t)
    ensures t < |RunTo(es, j).procs| && RunTo(es, j).procs[t].phase.Reading?
    ensures RunTo(es, j).procs[t].phase.seg == RunTo(es, k).procs[t].phase.seg
    ensures RunTo(es, k).procs[t].sent == RunTo(es, j).file
    decreases k
  {
    hide Next, Inv;
    if k == 0 { assert false; }
    var s := RunTo(es, k - 1);
    CompletesAtEof(s, es[k - 1], t);
    if Completed(s.procs[t]) {
      j := FinalRead(es, k - 1, t);
    } else {
      j := k - 1;
      RunInv(es, j);
      ReaderAtEnd(s, t);
    }
  }

  lemma ReaderAtEnd(s: State, t: nat)
    requires Inv(s) && t < |s.procs| && s.procs[t].phase.Reading? && s.procs[t].phase.pos >= |s.file|
    ensures s.procs[t].sent == s.file
  {
    assert ProcOk(s, t, s.procs[t]);
  }

  /** At every step what a client has been sent is a prefix of the file. */
  lemma SentIsPrefix(es: seq<Event>, k: nat, t: nat)
    requires k <= |es| && t < |RunTo(es, k).procs|
    ensures RunTo(es, k).procs[t].sent <= RunTo(es, k).file
  {
    RunInv(es, k);
    var s := RunTo(es, k);
    assert ProcOk(s, t, s.procs[t]);
  }

  /** What a thread that has completed was sent holds its own record, whole and in one piece. */
  lemma OwnRecordSent(s: State, t: nat)
    requires Inv(s) && t < |s.procs| && Completed(s.procs[t])
    ensures HoldsOwnRecord(s, t)
  {
    var p := s.procs[t];
    var seg := p.phase.seg;
    assert ProcOk(s, t, p) && Finished(s, t, p, seg, false);
    var g, at := s.segs[seg], SegStart(s.segs, seg);
    assert SegmentAt(s.file, s.segs, seg);
    assert p.sent[at..at + g.written] == s.file[at..at + g.written];
  }

  /** ... at the place where its critical section wrote it. */
  ghost predicate HoldsOwnRecord(s: State, t: nat)
    requires t < |s.procs| && Completed(s.procs[t])
  {
    var seg, sent := s.procs[t].phase.seg, s.procs[t].sent;
    && seg < |s.segs|
    && s.segs[seg].owner == t
    && var at, record := SegStart(s.segs, seg), s.segs[seg].record;
       at + |record| <= |sent| && sent[at..at + |record|] == record
  }

  /** A connection that completes has sent exactly the file as it stood at its last read, which
      returned nothing; the packet it had received stands in it, whole and in one piece. */
  lemma ReadBack(es: seq<Event>, k: nat, t: nat) returns (j: nat, i: nat)
    requires k <= |es| && t < |RunTo(es, k).procs| && Completed(RunTo(es, k).procs[t])
    ensures j < k && es[j] == ReadEof(t) && RunTo(es, k).procs[t].sent == RunTo(es, j).file
    ensures HoldsOwnRecord(RunTo(es, k), t)
    ensures i < k && es[i] == Receive(t, RunTo(es, k).segs[RunTo(es, k).procs[t].phase.seg].record)
  {
    hide Next, Inv;
    j := FinalRead(es, k, t);
    RunInv(es, k);
    OwnRecordSent(RunTo(es, k), t);
    i := SegmentWasReceived(es, k, RunTo(es, k).procs[t].phase.seg);
  }

  /** What two clients have been sent never disagrees: one is a prefix of the other. */
  lemma TranscriptsAgree(es: seq<Event>, k: nat, t: nat, u: nat)
    requires k <= |es| && t < |RunTo(es, k).procs| && u < |RunTo(es, k).procs|
    ensures var a, b := RunTo(es, k).procs[t].sent, RunTo(es, k).procs[u].sent; a <= b || b <= a
  {
    SentIsPrefix(es, k, t);
    SentIsPrefix(es, k, u);
  }

  // ---------------------------------------------------------------------------------------
  // Who fails, and why

  /** The event makes thread `t` fail where it stands. */
  ghost predicate Failing(s: State, e: Event, t: nat) {
    && t < |s.procs| && !e.Accept? && e.t == t
    && match s.procs[t].phase
       case Receiving => e.ReceiveFail?
       case Writing(_, left) => e.WriteFail? && left > 0
       case Seeking(_) => e.Seek? && !e.ok
       case Reading(_, _) => e.ReadFail?
       case Sending(_, _, chunk, done) => e.SendFail? && done < |chunk|
       case Finishing(_, _) => e.Close? && !e.ok
       case _ => false
  }

  /** The thread has failed: it is about to finish with abort, or has. */
  predicate Broken(p: Proc) {
    match p.phase
    case Unlocking(_, ok) => !ok
    case Finishing(_, abort) => abort
    case Done(_, abort) => abort
    case _ => false
  }

  /** Threads do not move each other, and keep their roles. */
  lemma OwnEventsOnly(s: State, e: Event, t: nat)
    requires t < |s.procs|
    ensures t < |Next(s, e).procs| && Next(s, e).procs[t].role == s.procs[t].role
    ensures e.Accept? || e.t != t || s.procs[t].phase.Done? ==> Next(s, e).procs[t] == s.procs[t]
  {
  }

  lemma BreaksExactly(s: State, e: Event, t: nat)
    requires Inv(s) && t < |s.procs|
    ensures t < |Next(s, e).procs|
    ensures Broken(Next(s, e).procs[t]) <==> Broken(s.procs[t]) || Failing(s, e, t)
  {
    hide Inv, Next, Failing;
    OwnEventsOnly(s, e, t);
    if !e.Accept? && e.t == t {
      InPlace(s, t);
      OwnBreak(s, e, t);
    } else {
      OthersBreakNothing(s, e, t);
    }
  }

  lemma OthersBreakNothing(s: State, e: Event, t: nat)
    requires e.Accept? || e.t != t
    ensures !Failing(s, e, t)
  {
  }

  lemma OwnBreak(s: State, e: Event, t: nat)
    requires t < |s.procs| && !e.Accept? && e.t == t
    requires var ph := s.procs[t].phase;
      && (ph.Writing? ==> ph.seg < |s.segs| && ph.left <= |s.segs[ph.seg].record|)
      && (ph.Unlocking? ==> ph.seg < |s.segs|)
    ensures t < |Next(s, e).procs|
    ensures Broken(Next(s, e).procs[t]) <==> Broken(s.procs[t]) || Failing(s, e, t)
  {
  }

  /** What the steps of putchars and of the unlock look at is there. */
  lemma InPlace(s: State, t: nat)
    requires Inv(s) && t < |s.procs|
    ensures s.procs[t].phase.Writing? ==>
              s.procs[t].phase.seg < |s.segs| && s.procs[t].phase.left <= |s.segs[s.procs[t].phase.seg].record|
    ensures s.procs[t].phase.Unlocking? ==> s.procs[t].phase.seg < |s.segs|
  {
    assert ProcOk(s, t, s.procs[t]);
  }

  /** A connection, or the timer, finishes with abort exactly if it failed at some point. */
  lemma {:induction false} AbortsExactly(es: seq<Event>, k: nat, t: nat)
    requires k <= |es| && t < |RunTo(es, k).procs|
    ensures Broken(RunTo(es, k).procs[t]) <==> exists i :: 0 <= i < k && Failing(RunTo(es, i), es[i], t)
  {
    hide Next, Inv, Failing;
    if k > 0 {
      var before := RunTo(es, k - 1);
      RunInv(es, k - 1);
      if t < |before.procs| {
        AbortsExactly(es, k - 1, t);
        BreaksExactly(before, es[k - 1], t);
      } else {
        Newcomer(before, es[k - 1], t);
        NotThere(es, k - 1, t);
      }
    } else {
      InitialProcs();
    }
  }

  lemma InitialProcs()
    ensures INIT.procs == [Proc(Timer, Receiving, [])]
  {
  }

  lemma Newcomer(s: State, e: Event, t: nat)
    requires |s.procs| <= t < |Next(s, e).procs|
    ensures e.Accept? && t == |s.procs| && Next(s, e).procs[t] == Proc(Connection, Receiving, [])
    ensures !Failing(s, e, t)
  {
  }

  lemma {:induction false} NotThere(es: seq<Event>, k: nat, t: nat)
    requires k <= |es| && t >= |RunTo(es, k).procs|
    ensures forall i :: 0 <= i <= k ==> t >= |RunTo(es, i).procs|
    ensures forall i :: 0 <= i < k ==> !Failing(RunTo(es, i), es[i], t)
  {
    forall i | 0 <= i <= k ensures t >= |RunTo(es, i).procs| { AppendOnly(es, i, k); }
  }

  /** A thread that is done stays as it is. */
  lemma {:induction false} DoneStays(es: seq<Event>, i: nat, k: nat, t: nat)
    requires i <= k <= |es| && t < |RunTo(es, i).procs| && RunTo(es, i).procs[t].phase.Done?
    ensures t < |RunTo(es, k).procs| && RunTo(es, k).procs[t] == RunTo(es, i).procs[t]
    decreases k
  {
    hide Next;
    if i < k {
      DoneStays(es, i, k - 1, t);
      OwnEventsOnly(RunTo(es, k - 1), es[k - 1], t);
    }
  }

  ghost function Accepts(es: seq<Event>, k: nat): nat
    requires k <= |es|
  {
    if k == 0 then 0 else Accepts(es, k - 1) + if es[k - 1].Accept? then 1 else 0
  }

  /** Thread 0 is the timer, and there is one connection for each accept. */
  lemma {:induction false} Roles(es: seq<Event>, k: nat)
    requires k <= |es|
    ensures |RunTo(es, k).procs| == 1 + Accepts(es, k)
    ensures forall t :: 0 <= t < |RunTo(es, k).procs| ==> RunTo(es, k).procs[t].role == if t == 0 then Timer else Connection
  {
    hide Next;
    if k == 0 {
      InitialProcs();
    } else {
      Roles(es, k - 1);
      RolesStep(RunTo(es, k - 1), es[k - 1]);
    }
  }

  lemma RolesStep(s: State, e: Event)
    ensures |Next(s, e).procs| == |s.procs| + if e.Accept? then 1 else 0
    ensures forall t :: 0 <= t < |s.procs| ==> Next(s, e).procs[t].role == s.procs[t].role
    ensures e.Accept? ==> Next(s, e).procs[|s.procs|].role == Connection
  {
  }

  // ---------------------------------------------------------------------------------------
  // The timer

  /** Where a timer that has not failed can stand. */
  predicate TimerPlace(p: Proc) {
    p.role.Timer? ==> Broken(p) || p.phase.Receiving? || p.phase.WantLock? || p.phase.Writing? || p.phase.Unlocking?
  }

  lemma {:induction false} TimerLoops(es: seq<Event>, k: nat)
    requires k <= |es|
    ensures forall t :: 0 <= t < |RunTo(es, k).procs| ==> TimerPlace(RunTo(es, k).procs[t])
  {
    hide Next;
    if k == 0 {
      InitialProcs();
    } else {
      TimerLoops(es, k - 1);
      forall t | 0 <= t < |RunTo(es, k).procs| ensures TimerPlace(RunTo(es, k).procs[t]) {
        TimerStep(RunTo(es, k - 1), es[k - 1], t);
      }
    }
  }

  lemma TimerStep(s: State, e: Event, t: nat)
    requires t < |Next(s, e).procs| && (t < |s.procs| ==> TimerPlace(s.procs[t]))
    ensures TimerPlace(Next(s, e).procs[t])
  {
  }

  /** After each whole record the timer waits for its signal again. */
  lemma TimerReturns(es: seq<Event>, i: nat, k: nat)
    requires i < k < |es| && es[i] == WriteEnd(0) && es[k] == Unlock(0)
    requires RunTo(es, i).procs != [] && RunTo(es, i).procs[0].phase.Writing? && RunTo(es, i).procs[0].phase.left == 0
    requires forall m :: i < m < k ==> es[m].Accept? || es[m].t != 0
    ensures RunTo(es, k + 1).procs != [] && RunTo(es, k + 1).procs[0].phase == Receiving
  {
    hide Next, Inv;
    Roles(es, i);
    RunInv(es, i);
    InPlace(RunTo(es, i), 0);
    WriteEnds(RunTo(es, i));
    OwnEventsOnly(RunTo(es, i), es[i], 0);
    Waits(es, i + 1, k);
    Roles(es, k);
    RunInv(es, k);
    InPlace(RunTo(es, k), 0);
    TimerUnlocks(RunTo(es, k));
    OwnEventsOnly(RunTo(es, k), es[k], 0);
  }

  lemma WriteEnds(s: State)
    requires |s.procs| > 0 && s.procs[0].phase.Writing? && s.procs[0].phase.left == 0 && s.procs[0].phase.seg < |s.segs|
    ensures Next(s, WriteEnd(0)).procs[0].phase == Unlocking(s.procs[0].phase.seg, true)
  {
  }

  lemma TimerUnlocks(s: State)
    requires |s.procs| > 0 && s.procs[0].role.Timer? && s.procs[0].phase.Unlocking? && s.procs[0].phase.ok
    requires s.procs[0].phase.seg < |s.segs|
    ensures Next(s, Unlock(0)).procs[0].phase == Receiving
  {
  }

  lemma {:induction false} Waits(es: seq<Event>, i: nat, k: nat)
    requires i <= k <= |es| && 0 < |RunTo(es, i).procs|
    requires forall m :: i <= m < k ==> es[m].Accept? || es[m].t != 0
    ensures 0 < |RunTo(es, k).procs| && RunTo(es, k).procs[0] == RunTo(es, i).procs[0]
    decreases k
  {
    hide Next;
    if i < k {
      Waits(es, i, k - 1);
      OwnEventsOnly(RunTo(es, k - 1), es[k - 1], 0);
    }
  }

  /** The timer's records are timestamps. */
  lemma TimerRecords(es: seq<Event>, k: nat, j: nat)
    requires k <= |es| && j < |RunTo(es, k).segs| && RunTo(es, k).segs[j].owner == 0
    ensures |RunTo(es, k).segs[j].record| == DATESIZE
  {
    hide Next, Inv;
    var i := SegmentOpened(es, k, j);
    Roles(es, i);
    RunInv(es, i);
    WaitingRecord(RunTo(es, i), 0);
  }

  lemma WaitingRecord(s: State, t: nat)
    requires Inv(s) && t < |s.procs| && s.procs[t].phase.WantLock? && s.procs[t].role.Timer?
    ensures |s.procs[t].phase.record| == DATESIZE
  {
    assert ProcOk(s, t, s.procs[t]);
  }

  // ---------------------------------------------------------------------------------------
  // Every connection can complete

  ghost function After(s: State, es: seq<Event>): State
    decreases |es|
  {
    if es == [] then s else After(Next(s, es[0]), es[1..])
  }

  lemma {:induction false} AfterBoth(s: State, a: seq<Event>, b: seq<Event>)
    ensures After(s, a + b) == After(After(s, a), b)
    decreases |a|
  {
    hide Next;
    if a == [] {
      assert a + b == b;
    } else {
      assert (a + b)[0] == a[0] && (a + b)[1..] == a[1..] + b;
      AfterBoth(Next(s, a[0]), a[1..], b);
    }
  }

  predicate AllOf(es: seq<Event>, t: nat) {
    forall e <- es :: !e.Accept? && e.t == t
  }

  /** A step that thread `t` can take now, and that brings it on. */
  function StepOf(s: State, t: nat, record: Bytes): Event
    requires t < |s.procs|
  {
    match s.procs[t].phase
    case Receiving => Receive(t, record)
    case WantLock(_) => TakeLock(t)
    case Writing(_, left) => if left > 0 then WriteSome(t, left) else WriteEnd(t)
    case Unlocking(_, _) => Unlock(t)
    case Seeking(_) => Seek(t, true)
    case Reading(_, pos) => if pos < |s.file| then ReadSome(t, 1) else ReadEof(t)
    case Sending(_, _, chunk, done) => if done < |chunk| then SendSome(t, |chunk| - done) else SendEnd(t)
    case _ => Close(t, true)
  }

  ghost function Rank1(p: Proc): nat {
    match p.phase
    case Receiving => 7
    case WantLock(_) => 6
    case Writing(_, _) => 5
    case Unlocking(_, _) => 4
    case Seeking(_) => 3
    case Reading(_, _) => 2
    case Sending(_, _, _, _) => 2
    case Finishing(_, _) => 1
    case Done(_, _) => 0
  }

  ghost function Rank2(s: State, p: Proc): nat {
    match p.phase
    case Writing(_, left) => left
    case Reading(_, pos) => if pos < |s.file| then |s.file| - pos else 0
    case Sending(_, pos, _, _) => if pos < |s.file| then |s.file| - pos else 0
    case _ => 0
  }

  ghost function Rank3(p: Proc): nat {
    match p.phase
    case Sending(_, _, chunk, done) => if done < |chunk| then 2 else 1
    case _ => 0
  }

  ghost predicate Closer(s: State, s': State, t: nat)
    requires t < |s.procs| && t < |s'.procs|
  {
    var p, p' := s.procs[t], s'.procs[t];
    || Rank1(p') < Rank1(p)
    || (Rank1(p') == Rank1(p) && Rank2(s', p') < Rank2(s, p))
    || (Rank1(p') == Rank1(p) && Rank2(s', p') == Rank2(s, p) && Rank3(p') < Rank3(p))
  }

  /** A connection that nothing but the lock keeps from completing. */
  ghost predicate Ready(s: State, t: nat) {
    && t < |s.procs| && s.procs[t].role.Connection? && !Broken(s.procs[t])
    && (s.procs[t].phase.Receiving? || s.procs[t].phase.WantLock? ==> s.lock.None?)
    && (s.procs[t].phase.Finishing? || s.procs[t].phase.Done? ==> s.procs[t].sent == s.file)
  }

  lemma BringsOn(s: State, t: nat, record: Bytes)
    requires Inv(s) && Ready(s, t) && !s.procs[t].phase.Done?
    ensures var s' := Next(s, StepOf(s, t, record)); Ready(s', t) && Closer(s, s', t)
  {
    hide IsConcatenation, SegmentsClosed;
    BreaksExactly(s, StepOf(s, t, record), t);
    InPlace(s, t);
    assert ProcOk(s, t, s.procs[t]);
  }

  lemma {:induction false} Completes(s: State, t: nat, record: Bytes) returns (es: seq<Event>)
    requires Inv(s) && Ready(s, t)
    ensures AllOf(es, t)
    ensures var s' := After(s, es);
      t < |s'.procs| && s'.procs[t].phase.Done? && !s'.procs[t].phase.abort && s'.procs[t].sent == s'.file
    decreases Rank1(s.procs[t]), Rank2(s, s.procs[t]), Rank3(s.procs[t])
  {
    hide Inv, Next, StepOf;
    if s.procs[t].phase.Done? { return []; }
    var e := StepOf(s, t, record);
    BringsOn(s, t, record);
    NextKeeps(s, e);
    var rest := Completes(Next(s, e), t, record);
    es := [e] + rest;
    assert es[1..] == rest;
    OwnStep(s, t, record);
  }

  lemma OwnStep(s: State, t: nat, record: Bytes)
    requires t < |s.procs|
    ensures !StepOf(s, t, record).Accept? && StepOf(s, t, record).t == t
  {
  }

  /** The lock's holder can always give it back by its own steps. */
  lemma {:induction false} Releases(s: State) returns (es: seq<Event>)
    requires Inv(s) && s.lock.Some?
    ensures AllOf(es, s.lock.value)
    ensures After(s, es).lock.None? && Inv(After(s, es)) && |After(s, es).procs| == |s.procs|
    ensures forall u :: 0 <= u < |s.procs| && u != s.lock.value ==> After(s, es).procs[u] == s.procs[u]
    decreases Rank1(s.procs[s.lock.value]), Rank2(s, s.procs[s.lock.value])
  {
    hide Inv, Next, StepOf;
    var t := s.lock.value;
    HolderMoves(s);
    var e := StepOf(s, t, []);
    NextKeeps(s, e);
    OwnStep(s, t, []);
    var s' := Next(s, e);
    forall u | 0 <= u < |s.procs| && u != t ensures s'.procs[u] == s.procs[u] { OwnEventsOnly(s, e, u); }
    var rest := [];
    if s'.lock.Some? { rest := Releases(s'); }
    es := [e] + rest;
    assert es[1..] == rest;
  }

  lemma HolderMoves(s: State)
    requires Inv(s) && s.lock.Some?
    ensures s.lock.value < |s.procs|
    ensures var t := s.lock.value; var s' := Next(s, StepOf(s, t, []));
      && |s'.procs| == |s.procs|
      && (s'.lock.None? || (s'.lock == s.lock && (
           || Rank1(s'.procs[t]) < Rank1(s.procs[t])
           || (Rank1(s'.procs[t]) == Rank1(s.procs[t]) && Rank2(s', s'.procs[t]) < Rank2(s, s.procs[t])))))
  {
    hide IsConcatenation, SegmentsClosed;
    assert ProcOk(s, s.lock.value, s.procs[s.lock.value]);
    InPlace(s, s.lock.value);
  }

  /**
   From every reachable state each connection that has not failed can complete without abort, having
   been sent the whole file: the lock's holder gives the lock back by its own steps, and the rest are
   steps of the connection alone. `record` is what it receives if it has not yet.
   */
  lemma CanComplete(es: seq<Event>, k: nat, t: nat, record: Bytes) returns (first: seq<Event>, own: seq<Event>)
    requires k <= |es| && 0 < t < |RunTo(es, k).procs| && !Broken(RunTo(es, k).procs[t])
    requires !RunTo(es, k).procs[t].phase.Finishing? && !RunTo(es, k).procs[t].phase.Done?
    ensures RunTo(es, k).lock.None? || RunTo(es, k).lock == Some(t) ==> first == []
    ensures RunTo(es, k).lock.Some? ==> AllOf(first, RunTo(es, k).lock.value)
    ensures AllOf(own, t)
    ensures var s' := After(RunTo(es, k), first + own);
      t < |s'.procs| && s'.procs[t].phase.Done? && !s'.procs[t].phase.abort && s'.procs[t].sent == s'.file
  {
    hide Next, RunTo, Inv;
    var s := RunTo(es, k);
    RunInv(es, k);
    Roles(es, k);
    first := [];
    if s.lock.Some? && s.lock != Some(t) {
      first := Releases(s);
    } else if s.lock == Some(t) {
      HolderPhase(s, t);
    }
    var m := After(s, first);
    own := Completes(m, t, record);
    AfterBoth(s, first, own);
  }

  /** The timer, likewise: it comes back to waiting for its signal, and then appends a timestamp. */
  lemma {:induction false} ComesBack(s: State) returns (es: seq<Event>)
    requires Inv(s) && TimerReady(s)
    ensures AllOf(es, 0)
    ensures var s' := After(s, es); Inv(s') && TimerReady(s') && s'.procs[0].phase.Receiving? && s.file <= s'.file
    decreases Rank1(s.procs[0]), Rank2(s, s.procs[0])
  {
    hide Inv, Next, StepOf, Broken;
    if s.procs[0].phase.Receiving? { return []; }
    var e := StepOf(s, 0, []);
    TimerMoves(s);
    NextKeeps(s, e);
    OwnStep(s, 0, []);
    var s' := Next(s, e);
    var rest := [];
    if !s'.procs[0].phase.Receiving? { rest := ComesBack(s'); }
    es := [e] + rest;
    assert es[1..] == rest;
  }

  ghost predicate TimerReady(s: State) {
    && s.procs != [] && s.procs[0].role.Timer? && TimerPlace(s.procs[0]) && !Broken(s.procs[0])
    && (s.procs[0].phase.Receiving? || s.procs[0].phase.WantLock? ==> s.lock.None?)
  }

  lemma TimerMoves(s: State)
    requires Inv(s) && TimerReady(s) && !s.procs[0].phase.Receiving?
    ensures var s' := Next(s, StepOf(s, 0, []));
      && TimerReady(s') && s.file <= s'.file
      && (s'.procs[0].phase.Receiving?
          || Rank1(s'.procs[0]) < Rank1(s.procs[0])
          || (Rank1(s'.procs[0]) == Rank1(s.procs[0]) && Rank2(s', s'.procs[0]) < Rank2(s, s.procs[0])))
  {
    hide IsConcatenation, SegmentsClosed;
    BreaksExactly(s, StepOf(s, 0, []), 0);
    InPlace(s, 0);
    assert ProcOk(s, 0, s.procs[0]);
  }

  function Stamping(record: Bytes): seq<Event> {
    [Receive(0, record), TakeLock(0), WriteSome(0, |record|), WriteEnd(0), Unlock(0)]
  }

  lemma Stamps(s: State, record: Bytes)
    requires TimerReady(s) && s.procs[0].phase.Receiving? && |record| == DATESIZE
    ensures var s' := After(s, Stamping(record));
      s'.procs != [] && s'.procs[0].phase == Receiving && s'.file == s.file + record
  {
    hide Next;
    Stamps1(s, record);
    FiveEvents(s, Receive(0, record), TakeLock(0), WriteSome(0, |record|), WriteEnd(0), Unlock(0));
  }

  lemma FiveEvents(s: State, a: Event, b: Event, c: Event, d: Event, e: Event)
    ensures After(s, [a, b, c, d, e]) == Next(Next(Next(Next(Next(s, a), b), c), d), e)
  {
    hide Next;
    FirstEvent(s, a, [b, c, d, e]);
    FirstEvent(Next(s, a), b, [c, d, e]);
    FirstEvent(Next(Next(s, a), b), c, [d, e]);
    FirstEvent(Next(Next(Next(s, a), b), c), d, [e]);
    FirstEvent(Next(Next(Next(Next(s, a), b), c), d), e, []);
    assert [a] + [b, c, d, e] == [a, b, c, d, e] && [b] + [c, d, e] == [b, c, d, e];
    assert [c] + [d, e] == [c, d, e] && [d] + [e] == [d, e] && [e] + [] == [e];
  }

  lemma FirstEvent(s: State, e: Event, rest: seq<Event>)
    ensures After(s, [e] + rest) == After(Next(s, e), rest)
  {
    assert ([e] + rest)[1..] == rest;
  }

  lemma Stamps1(s: State, record: Bytes)
    requires TimerReady(s) && s.procs[0].phase.Receiving? && |record| == DATESIZE
    ensures var s' := Next(Next(Next(Next(Next(s, Receive(0, record)), TakeLock(0)), WriteSome(0, |record|)), WriteEnd(0)), Unlock(0));
      s'.procs != [] && s'.procs[0].phase == Receiving && s'.file == s.file + record
  {
    var a := Next(Next(s, Receive(0, record)), TakeLock(0));
    assert a.procs[0].phase == Writing(|s.segs|, |record|) && a.file == s.file && a.segs[|s.segs|].record == record;
    var b := Next(a, WriteSome(0, |record|));
    assert record[0..|record|] == record;
    assert b.procs[0].phase == Writing(|s.segs|, 0) && b.file == s.file + record && |b.segs| == |s.segs| + 1;
  }

  /** From every reachable state a timer that has not failed can append any timestamp, whole, and wait
      again, once the lock's holder has given the lock back. */
  lemma CanStamp(es: seq<Event>, k: nat, record: Bytes) returns (first: seq<Event>, own: seq<Event>)
    requires k <= |es| && RunTo(es, k).procs != [] && !Broken(RunTo(es, k).procs[0]) && |record| == DATESIZE
    ensures RunTo(es, k).lock.None? || RunTo(es, k).lock == Some(0) ==> first == []
    ensures RunTo(es, k).lock.Some? ==> AllOf(first, RunTo(es, k).lock.value)
    ensures AllOf(own, 0)
    ensures var s' := After(RunTo(es, k), first + own + Stamping(record));
      && s'.procs != [] && s'.procs[0].phase == Receiving
      && s'.file == After(RunTo(es, k), first + own).file + record
  {
    hide Next, RunTo, Inv;
    var s := RunTo(es, k);
    RunInv(es, k);
    Roles(es, k);
    TimerLoops(es, k);
    first := [];
    if s.lock.Some? && s.lock != Some(0) {
      first := Releases(s);
    } else if s.lock == Some(0) {
      HolderPhase(s, 0);
    }
    var m := After(s, first);
    own := ComesBack(m);
    AfterBoth(s, first, own);
    Stamps(After(m, own), record);
    AfterBoth(s, first + own, Stamping(record));
  }

  lemma HolderPhase(s: State, t: nat)
    requires Inv(s) && s.lock == Some(t)
    ensures t < |s.procs| && (s.procs[t].phase.Writing? || s.procs[t].phase.Unlocking?)
  {
    assert ProcOk(s, t, s.procs[t]);
  }
}
