/**
 The imperative driver under any sequence of calls: its state and every caller's results follow
 `DeviceRuns.Exec` step for step, so everything proved of runs holds of the code.
 */
module DeviceDriver {
  import opened Bytes
  import opened DeviceModel
  import opened DeviceRuns
  import opened AesdDevice

  /** The file operation a call names. */
  method Perform(dev: CharDevice, filp: OpenFile, call: Call) returns (ret: Ret)
    requires dev.Valid() && IsOffset(filp.fPos) && Legal(call)
    modifies dev, dev.buffer, dev.buffer.entry, filp
    ensures ret.Ret? ==> dev.Valid() && IsOffset(filp.fPos)
    ensures Outcome(dev.State(), filp.fPos, ret) == old(DoCall(dev.State(), filp.fPos, call))
  {
    hide DoCall, Holds;
    CallKeepsValid(dev.State(), filp.fPos, call);
    match call
    case Read(count, interrupted, faults) =>
      var n, data := dev.Read(filp, count, interrupted, faults);
      ret := Ret(n, data);
    case Write(buf, interrupted, noMemory, faults) =>
      ret := dev.Write(filp, buf, interrupted, noMemory, faults);
    case SeekTo(cmd, off, interrupted, faults) =>
      var n := dev.Ioctl(filp, AESDCHAR_IOCSEEKTO, cmd, off, interrupted, faults);
      ret := Ret(n, []);
    case OtherIoctl =>
      var n := dev.Ioctl(filp, AESDCHAR_IOCSEEKTO + 1, 0, 0, false, false);
      ret := Ret(n, []);
  }

  ghost function Positions(files: seq<OpenFile>): (pos: seq<int>)
    reads files
    ensures |pos| == |files|
    ensures forall i :: 0 <= i < |files| ==> pos[i] == files[i].fPos
  {
    seq(|files|, i requires 0 <= i < |files| reads files => files[i].fPos)
  }

  /** The objects hold the run's state `s`. */
  ghost predicate InState(dev: CharDevice, files: seq<OpenFile>, rets: seq<seq<Ret>>, crashed: bool, s: Sys)
    reads dev, dev.buffer, dev.buffer.entry, files
  {
    && s == Sys(dev.State(), Positions(files), rets, crashed)
    && Ok(s)
    && forall i, j :: 0 <= i < j < |files| ==> files[i] != files[j]
  }

  /** What a run's step is made of. */
  lemma StepParts(s: Sys, r: Request)
    requires Ok(s) && Serves(|s.pos|, r)
    ensures s.crashed && Early(r.call).None? ==> Step(s, r) == s
    ensures s.crashed && Early(r.call).Some? ==>
              Step(s, r) == s.(rets := s.rets[r.file := s.rets[r.file] + [Early(r.call).value]])
    ensures !s.crashed ==>
              var o := DoCall(s.dev, s.pos[r.file], r.call);
              && Step(s, r).dev == o.dev && Step(s, r).crashed == o.ret.Crash?
              && Step(s, r).pos == s.pos[r.file := o.fPos]
              && Step(s, r).rets == if o.ret.Crash? then s.rets else s.rets[r.file := s.rets[r.file] + [o.ret]]
  {
    if !s.crashed {
      CallKeepsValid(s.dev, s.pos[r.file], r.call);
      if r.call.Write? {
        CrashKeepsPosition(s.dev, s.pos[r.file], r.call);
      }
    }
  }

  /** One call of a run. Once a caller has died with the lock, a call that needs it does not return. */
  method DriveOne(dev: CharDevice, files: seq<OpenFile>, r: Request, rets: seq<seq<Ret>>, crashed: bool, ghost s: Sys)
    returns (rets': seq<seq<Ret>>, crashed': bool)
    requires Ok(s) && InState(dev, files, rets, crashed, s)
    requires Serves(|s.pos|, r)
    modifies dev, dev.buffer, dev.buffer.entry, files
    ensures InState(dev, files, rets', crashed', Step(s, r))
  {
    hide Step, DoCall, Holds;
    StepParts(s, r);
    rets', crashed' := rets, crashed;
    if !crashed {
      var ret := Perform(dev, files[r.file], r.call);
      assert Positions(files) == s.pos[r.file := files[r.file].fPos];
      if ret.Crash? {
        crashed' := true;
      } else {
        rets' := rets[r.file := rets[r.file] + [ret]];
      }
    } else if Early(r.call).Some? {
      rets' := rets[r.file := rets[r.file] + [Early(r.call).value]];
    }
  }

  /** The first `k` calls of any run on any distinct open files. */
  method Drive(dev: CharDevice, files: seq<OpenFile>, rs: seq<Request>, k: nat, before: seq<seq<Ret>>, ghost s0: Sys)
    returns (rets: seq<seq<Ret>>, crashed: bool)
    requires Ok(s0) && InState(dev, files, before, false, s0)
    requires AllServe(|s0.pos|, rs) && k <= |rs|
    modifies dev, dev.buffer, dev.buffer.entry, files
    ensures InState(dev, files, rets, crashed, Exec(s0, rs, k))
    decreases k
  {
    hide Step, Ok, InState, Serves;
    if k == 0 {
      return before, false;
    }
    rets, crashed := Drive(dev, files, rs, k - 1, before, s0);
    rets, crashed := DriveOne(dev, files, rs[k - 1], rets, crashed, Exec(s0, rs, k - 1));
  }

  /**
   The module's whole life: loaded, any calls, unloaded unless a caller died with the lock. What
   stays allocated is one block for each write whose user copy faulted; every other block ever
   allocated has been freed exactly once.
   */
  method Lifetime(files: seq<OpenFile>, rs: seq<Request>) returns (heap: Option<Heap>)
    requires AllServe(|files|, rs)
    requires (forall f <- files :: f.fPos == 0) && forall i, j :: 0 <= i < j < |files| ==> files[i] != files[j]
    modifies files
    ensures heap.None? <==> Exec(Init(|files|), rs, |rs|).crashed
    ensures heap.Some? ==> |heap.value.blocks.Keys| == LeakCount(Init(|files|), rs, |rs|) && FreedOnce(heap.value)
  {
    hide Step, Leaks, Holds, Ok, DoCall, Leaked;
    var dev := new CharDevice();
    var none := seq(|files|, _ => []);
    StartState(dev, files, none);
    var rets, crashed := Drive(dev, files, rs, |rs|, none, Init(|files|));
    if crashed {
      return None;
    }
    DeviceOf(dev, files, rets, Exec(Init(|files|), rs, |rs|));
    LeaksCounted(|files|, rs, |rs|);
    dev.Cleanup();
    heap := Some(dev.heap);
  }

  lemma StartState(dev: CharDevice, files: seq<OpenFile>, none: seq<seq<Ret>>)
    requires dev.State() == InitDevice() && none == seq(|files|, _ => [])
    requires (forall f <- files :: f.fPos == 0) && forall i, j :: 0 <= i < j < |files| ==> files[i] != files[j]
    ensures InState(dev, files, none, false, Init(|files|))
  {
    assert Positions(files) == seq(|files|, _ => 0);
  }

  lemma DeviceOf(dev: CharDevice, files: seq<OpenFile>, rets: seq<seq<Ret>>, s: Sys)
    requires Ok(s) && InState(dev, files, rets, false, s)
    ensures dev.Valid() && dev.State() == s.dev
  {
  }
}
