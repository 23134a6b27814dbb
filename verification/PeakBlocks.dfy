/**
 How many blocks are live at once, at every statement of every interleaving: the ring's ten, the
 pending entry's, one more while a write has its new block, and those lost to faulted copies.
 */
module PeakBlocks {
  import opened Bytes
  import opened CircularBuffers
  import opened DeviceModel
  import opened DeviceRuns
  import opened CallSteps
  import opened Linearizability

  function Live(h: Heap): nat {
    |h.blocks.Keys|
  }

  lemma AllocAddsOne(h: Heap, n: nat)
    ensures Live(h.Alloc(n)) <= Live(h) + 1
  {
    assert h.Alloc(n).blocks.Keys == h.blocks.Keys + {h.next};
  }

  lemma StoreAddsNone(h: Heap, p: Ptr, at: nat, src: Bytes)
    requires h.Room(p, at, src)
    ensures Live(h.Store(p, at, src)) == Live(h)
  {
    assert h.Store(p, at, src).blocks.Keys == h.blocks.Keys;
  }

  lemma FreeAddsNone(h: Heap, p: Ptr)
    requires CanFree(h, p)
    ensures Live(h.KFree(p)) <= Live(h)
  {
    var freed := h.KFree(p).blocks.Keys;
    assert h.blocks.Keys == freed + (h.blocks.Keys - freed);
  }

  /** A statement of a critical section adds at most one block, and only the allocation does. */
  lemma MicroAdds(call: Call, c: Conf)
    ensures var c' := Micro(call, c);
      Live(c'.dev.heap) <= Live(c.dev.heap) + (if call.Write? && c.pc.WAlloc? then 1 else 0) && !c'.pc.WAlloc?
  {
    hide Live, WriteStep;
    if call.Write? { WriteAdds(c, call.buf, call.noMemory, call.faults); }
  }

  lemma WriteAdds(c: Conf, buf: Bytes, noMemory: bool, faults: bool)
    ensures var c' := WriteStep(c, buf, noMemory, faults);
      Live(c'.dev.heap) <= Live(c.dev.heap) + (if c.pc.WAlloc? then 1 else 0) && !c'.pc.WAlloc?
  {
    hide Live;
    var h, wip := c.dev.heap, c.dev.wip;
    match c.pc
    case WAlloc => AllocAddsOne(h, SizeT(wip.size + |buf| + 1));
    case WTerminate(b) => if h.Room(b, wip.size + |buf|, [NUL]) { StoreAddsNone(h, b, wip.size + |buf|, [NUL]); }
    case WCopyOld(b) => OldCopied(h, wip, b);
    case WCopyNew(b) => if h.Room(b, wip.size, buf) { StoreAddsNone(h, b, wip.size, buf); }
    case WFreeOld(_) => if CanFree(h, wip.buffptr) { FreeAddsNone(h, wip.buffptr); }
    case WFreeEvicted(p) => if CanFree(h, p) { FreeAddsNone(h, p); }
    case _ =>
  }

  lemma OldCopied(h: Heap, wip: Entry, b: Ptr)
    ensures wip.buffptr in h.blocks && wip.size <= |h.blocks[wip.buffptr]| && h.Room(b, 0, h.blocks[wip.buffptr][..wip.size]) ==>
              Live(h.Store(b, 0, h.blocks[wip.buffptr][..wip.size])) == Live(h)
  {
    if wip.buffptr in h.blocks && wip.size <= |h.blocks[wip.buffptr]| && h.Room(b, 0, h.blocks[wip.buffptr][..wip.size]) {
      StoreAddsNone(h, b, 0, h.blocks[wip.buffptr][..wip.size]);
    }
  }

  /** The lock's holder is in a write and past its allocation. */
  ghost predicate PastAlloc(w: World) {
    && w.holder.Some? && w.holder.value < |w.threads|
    && var Thread(_, script, pc, _) := w.threads[w.holder.value];
       script != [] && script[0].Write? && pc.Some? && !pc.value.WAlloc?
  }

  ghost predicate Bounded(w: World, leaks: nat) {
    Live(w.dev.heap) <= CAPACITY + 1 + leaks + if PastAlloc(w) then 1 else 0
  }

  /** One statement: `s` is the sequential run the world agrees with, `s'` the one it will. */
  lemma BoundedNext(w: World, s: Sys, s': Sys, t: nat, leaks: nat)
    requires Bounded(w, leaks) && Agrees(w, s) && Agrees(Next(w, t), s')
    requires Next(w, t).holder.None? ==> Live(Next(w, t).dev.heap) <= CAPACITY + 1 + leaks
    ensures Bounded(Next(w, t), leaks)
  {
    hide Finish, Micro, First, Ok, Valid, Live;
    if t < |w.threads| && w.threads[t].script != [] {
      var th := w.threads[t];
      if th.pc.Some? {
        HolderActs(w, s, t);
        MicroAdds(th.script[0], Conf(w.dev, th.fPos, th.pc.value));
      }
    }
  }

  lemma HolderActs(w: World, s: Sys, t: nat)
    requires Agrees(w, s) && t < |w.threads| && w.threads[t].pc.Some?
    ensures w.holder == Some(t)
  {
    hide Finish, Ok;
  }

  /** How many live blocks nothing points to. */
  ghost function Lost(s: Sys): nat
    requires Ok(s)
  {
    if s.crashed then 0 else |Leaked(s.dev)|
  }

  lemma StepLoses(s: Sys, r: Request)
    requires Ok(s) && Serves(|s.pos|, r) && !Step(s, r).crashed
    ensures !s.crashed && Lost(s) <= Lost(Step(s, r))
  {
    hide Step, Leaked, Leaks, Holds;
    StepLeaks(s, r);
    var after := Leaked(Step(s, r).dev);
    assert after == Leaked(s.dev) + (after - Leaked(s.dev));
  }

  /** The sequential run loses blocks but never finds them again, and does not recover from a crash. */
  lemma {:induction false} LossesStay(s: Sys, more: seq<Request>)
    requires Ok(s) && AllServe(|s.pos|, more) && |more| <= 1
    requires !Exec(s, more, |more|).crashed
    ensures !s.crashed && Lost(s) <= Lost(Exec(s, more, |more|))
  {
    hide Step, Lost, Ok, Exec;
    ExecOne(s, more);
    if |more| == 1 { StepLoses(s, more[0]); }
  }

  lemma {:induction false} ExecOne(s: Sys, more: seq<Request>)
    requires Ok(s) && AllServe(|s.pos|, more) && |more| <= 1
    ensures Exec(s, more, |more|) == if more == [] then s else Step(s, more[0])
  {
    hide Step, Ok;
    assert Exec(s, more, 0) == s;
  }

  lemma IdleBound(w: World, s: Sys)
    requires Agrees(w, s) && !s.crashed && w.holder.None?
    ensures Live(w.dev.heap) <= CAPACITY + 1 + Lost(s)
  {
    hide Finish, Leaked;
    LiveBlocks(s.dev);
  }

  lemma {:induction false} RunBounded(scripts: seq<seq<Call>>, schedule: seq<nat>, k: nat)
    requires k <= |schedule| && forall i :: 0 <= i < |scripts| ==> LegalScript(scripts[i])
    ensures AllServe(|scripts|, Log(scripts, schedule, k))
    ensures var s := Exec(Init(|scripts|), Log(scripts, schedule, k), |Log(scripts, schedule, k)|);
      s.crashed || Bounded(RunTo(scripts, schedule, k), Lost(s))
  {
    hide Agrees, Next, Logged, Step, Ok, Init, Lost, Live;
    AlwaysAgrees(scripts, schedule, k);
    var w', log' := RunTo(scripts, schedule, k), Log(scripts, schedule, k);
    var s' := Exec(Init(|scripts|), log', |log'|);
    if s'.crashed { return; }
    if w'.holder.None? { IdleBound(w', s'); }
    if k == 0 {
      StartIdle(scripts);
    } else {
      AlwaysAgrees(scripts, schedule, k - 1);
      var log, w, t := Log(scripts, schedule, k - 1), RunTo(scripts, schedule, k - 1), schedule[k - 1];
      var s := Exec(Init(|scripts|), log, |log|);
      AgreesNext(w, s, t);
      LoggedOne(w, t);
      ExecAppend(Init(|scripts|), log, Logged(w, t));
      LossesStay(s, Logged(w, t));
      RunBounded(scripts, schedule, k - 1);
      BoundedNext(w, s, s', t, Lost(s'));
    }
  }

  lemma StartIdle(scripts: seq<seq<Call>>)
    ensures StartWorld(scripts).holder.None?
  {
    hide InitDevice;
  }

  /**
   At every statement of every interleaving that nobody died in, at most eleven blocks are live,
   or twelve while a write is past its allocation, not counting the one lost by each write whose
   user copy faulted.
   */
  lemma AtMostTwelve(scripts: seq<seq<Call>>, schedule: seq<nat>, k: nat)
    requires k <= |schedule| && forall i :: 0 <= i < |scripts| ==> LegalScript(scripts[i])
    ensures AllServe(|scripts|, Log(scripts, schedule, k))
    ensures var w, log := RunTo(scripts, schedule, k), Log(scripts, schedule, k);
      || Exec(Init(|scripts|), log, |log|).crashed
      || Live(w.dev.heap) <= LeakCount(Init(|scripts|), log, |log|) + if PastAlloc(w) then 12 else 11
  {
    hide Step, Init, Leaked, Live, Leaks, Holds;
    RunBounded(scripts, schedule, k);
    var log := Log(scripts, schedule, k);
    if !Exec(Init(|scripts|), log, |log|).crashed {
      LeaksCounted(|scripts|, log, |log|);
    }
  }
}
