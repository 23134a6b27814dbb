/**
 Any number of callers, each on its own open file, each with its own sequence of calls,
 interleaved one statement at a time under the device lock. Every interleaving gives every
 caller the results, and leaves the device and positions, of running the calls whole, one after
 the other, in the order the lock was taken.
 */
module Linearizability {
  import opened Bytes
  import opened DeviceModel
  import opened DeviceRuns
  import opened CallSteps
  import opened CallEffects

  /** A caller: its open file's position, the calls it has not finished, and the results it has. */
  datatype Thread = Thread(fPos: int, script: seq<Call>, pc: Option<Pc>, rets: seq<Ret>)

  datatype World = World(dev: Device, holder: Option<nat>, threads: seq<Thread>)

  ghost function StartWorld(scripts: seq<seq<Call>>): World {
    World(InitDevice(), None, seq(|scripts|, i requires 0 <= i < |scripts| => Thread(0, scripts[i], None, [])))
  }

  /**
   Caller `t` does its next statement: it gives up before the lock, takes the free lock, runs one
   statement of its critical section, or unlocks and returns. A caller with nothing to do, one
   that waits for the lock and one that died stay where they are.
   */
  function Next(w: World, t: nat): World {
    if t >= |w.threads| then w
    else
      var th := w.threads[t];
      if th.script == [] then w
      else
        var call := th.script[0];
        match th.pc
        case None =>
          if Early(call).Some? then
            w.(threads := w.threads[t := th.(script := th.script[1..], rets := th.rets + [Early(call).value])])
          else if w.holder.None? then
            w.(holder := Some(t), threads := w.threads[t := th.(pc := Some(First(call)))])
          else w
        case Some(Unlocking(ret)) =>
          w.(holder := None,
             threads := w.threads[t := th.(script := th.script[1..], pc := None, rets := th.rets + [ret])])
        case Some(Dead) => w
        case Some(pc) =>
          var c := Micro(call, Conf(w.dev, th.fPos, pc));
          w.(dev := c.dev, threads := w.threads[t := th.(fPos := c.fPos, pc := Some(c.pc))])
  }

  /** The call that takes effect with this statement: one that gives up early or takes the lock. */
  function Logged(w: World, t: nat): seq<Request> {
    if t < |w.threads| && w.threads[t].script != [] && w.threads[t].pc.None?
       && (Early(w.threads[t].script[0]).Some? || w.holder.None?)
    then [Request(t, w.threads[t].script[0])]
    else []
  }

  /** The world after the first `k` statements of the schedule, which names who runs next. */
  ghost function RunTo(scripts: seq<seq<Call>>, schedule: seq<nat>, k: nat): World
    requires k <= |schedule|
  {
    if k == 0 then StartWorld(scripts) else Next(RunTo(scripts, schedule, k - 1), schedule[k - 1])
  }

  /** The calls in the order in which they took the lock or gave up. */
  ghost function Log(scripts: seq<seq<Call>>, schedule: seq<nat>, k: nat): seq<Request>
    requires k <= |schedule|
  {
    if k == 0 then [] else Log(scripts, schedule, k - 1) + Logged(RunTo(scripts, schedule, k - 1), schedule[k - 1])
  }

  ghost predicate LegalScript(script: seq<Call>) {
    forall i :: 0 <= i < |script| ==> Legal(script[i])
  }

  // ---------------------------------------------------------------------------------------
  // The invariant

  /** A caller outside its critical section stands exactly where the sequential run `s` has it. */
  ghost predicate Settled(th: Thread, s: Sys, t: nat)
    requires t < |s.pos| == |s.rets|
  {
    th.pc.None? && th.fPos == s.pos[t] && th.rets == s.rets[t] && LegalScript(th.script)
  }

  /** The lock's holder will, left alone, end where the sequential run `s` already has it. */
  ghost predicate Underway(dev: Device, th: Thread, s: Sys, t: nat)
    requires t < |s.pos| == |s.rets|
  {
    && th.pc.Some? && th.script != [] && LegalScript(th.script)
    && var f := Finish(th.script[0], Conf(dev, th.fPos, th.pc.value));
    && s.dev == f.dev
    && s.pos[t] == f.fPos
    && s.crashed == f.pc.Dead?
    && s.rets[t] == if f.pc.Dead? then th.rets else th.rets + [f.pc.ret]
  }

  /** The world `w` in mid-run and the sequential run `s` of the calls logged so far. */
  ghost predicate Agrees(w: World, s: Sys) {
    && Ok(s) && |w.threads| == |s.pos|
    && (forall t :: 0 <= t < |w.threads| && w.holder != Some(t) ==> Settled(w.threads[t], s, t))
    && (w.holder.None? ==> !s.crashed && w.dev == s.dev)
    && (w.holder.Some? ==>
          w.holder.value < |w.threads| && Underway(w.dev, w.threads[w.holder.value], s, w.holder.value))
  }

  lemma AgreesEarly(w: World, s: Sys, t: nat)
    requires Agrees(w, s) && t < |w.threads| && w.holder != Some(t)
    requires w.threads[t].script != [] && Early(w.threads[t].script[0]).Some?
    ensures Serves(|s.pos|, Request(t, w.threads[t].script[0]))
    ensures Agrees(Next(w, t), Step(s, Request(t, w.threads[t].script[0])))
  {
    hide Finish, DoCall, Valid;
    var th := w.threads[t];
    assert Settled(th, s, t);
    var w', s' := Next(w, t), Step(s, Request(t, th.script[0]));
    assert s' == Answer(s, t, Early(th.script[0]).value);
    forall u | 0 <= u < |w'.threads| && w'.holder != Some(u) ensures Settled(w'.threads[u], s', u) {
      assert Settled(w.threads[u], s, u);
    }
  }

  lemma AgreesAcquire(w: World, s: Sys, t: nat)
    requires Agrees(w, s) && t < |w.threads| && w.holder.None?
    requires w.threads[t].script != [] && Early(w.threads[t].script[0]).None?
    ensures Serves(|s.pos|, Request(t, w.threads[t].script[0]))
    ensures Agrees(Next(w, t), Step(s, Request(t, w.threads[t].script[0])))
  {
    hide Finish, DoCall, Valid, Micro, First;
    var th := w.threads[t];
    assert Settled(th, s, t);
    var call := th.script[0];
    var w', s' := Next(w, t), Step(s, Request(t, call));
    FinishIsDoCall(s.dev, s.pos[t], call);
    CrashKeepsPosition(s.dev, s.pos[t], call);
    assert Underway(w'.dev, w'.threads[t], s', t);
    forall u | 0 <= u < |w'.threads| && w'.holder != Some(u) ensures Settled(w'.threads[u], s', u) {
      assert Settled(w.threads[u], s, u);
    }
  }

  lemma AgreesInside(w: World, s: Sys, t: nat)
    requires Agrees(w, s) && t < |w.threads| && w.holder == Some(t)
    ensures Agrees(Next(w, t), s)
  {
    hide DoCall, Valid, Micro;
    var th := w.threads[t];
    var w' := Next(w, t);
    assert Underway(w.dev, th, s, t);
    if !th.pc.value.Dead? {
      forall u | 0 <= u < |w'.threads| && w'.holder != Some(u) ensures Settled(w'.threads[u], s, u) {
        if u != t {
          assert Settled(w.threads[u], s, u);
        }
      }
    }
  }

  lemma AgreesIdle(w: World, s: Sys, t: nat)
    requires Agrees(w, s) && Logged(w, t) == [] && w.holder != Some(t)
    ensures Next(w, t) == w
  {
    hide Finish, DoCall, Valid, Micro;
    if t < |w.threads| {
      assert Settled(w.threads[t], s, t);
    }
  }

  lemma AgreesNext(w: World, s: Sys, t: nat)
    requires Ok(s) && Agrees(w, s)
    ensures AllServe(|s.pos|, Logged(w, t))
    ensures Agrees(Next(w, t), Exec(s, Logged(w, t), |Logged(w, t)|))
  {
    hide Agrees, Next, Step, Ok;
    if Logged(w, t) == [] {
      assert Exec(s, Logged(w, t), |Logged(w, t)|) == s;
      if w.holder == Some(t) && t < |w.threads| {
        AgreesInside(w, s, t);
      } else {
        HolderExists(w, s);
        AgreesIdle(w, s, t);
      }
    } else {
      var r := Request(t, w.threads[t].script[0]);
      if Early(r.call).Some? {
        NotHolder(w, s, t);
        AgreesEarly(w, s, t);
      } else {
        AgreesAcquire(w, s, t);
      }
      assert Logged(w, t) == [r];
      assert Exec(s, [r], 0) == s;
      assert Exec(s, [r], 1) == Step(s, r);
    }
  }

  lemma HolderExists(w: World, s: Sys)
    requires Agrees(w, s)
    ensures w.holder.Some? ==> w.holder.value < |w.threads|
  {
  }

  lemma NotHolder(w: World, s: Sys, t: nat)
    requires Agrees(w, s) && t < |w.threads| && w.threads[t].pc.None?
    ensures w.holder != Some(t)
  {
  }

  // ---------------------------------------------------------------------------------------
  // Runs

  lemma {:induction false} ExecPrefix(s: Sys, rs: seq<Request>, more: seq<Request>, k: nat)
    requires Ok(s) && AllServe(|s.pos|, rs) && AllServe(|s.pos|, rs + more) && k <= |rs|
    ensures Exec(s, rs + more, k) == Exec(s, rs, k)
  {
    hide Step, Ok;
    if k > 0 {
      ExecPrefix(s, rs, more, k - 1);
      assert (rs + more)[k - 1] == rs[k - 1];
    }
  }

  lemma ExecAppend(s: Sys, rs: seq<Request>, more: seq<Request>)
    requires Ok(s) && AllServe(|s.pos|, rs) && AllServe(|s.pos|, more) && |more| <= 1
    ensures AllServe(|s.pos|, rs + more)
    ensures Exec(s, rs + more, |rs + more|) == Exec(Exec(s, rs, |rs|), more, |more|)
  {
    hide Step, Ok;
    ExecPrefix(s, rs, more, |rs|);
    if |more| == 1 {
      assert (rs + more)[|rs|] == more[0];
      assert Exec(Exec(s, rs, |rs|), more, 0) == Exec(s, rs, |rs|);
    }
  }

  lemma StartAgrees(scripts: seq<seq<Call>>)
    requires forall i :: 0 <= i < |scripts| ==> LegalScript(scripts[i])
    ensures Agrees(StartWorld(scripts), Init(|scripts|))
  {
    hide Valid, Finish;
    var w, s := StartWorld(scripts), Init(|scripts|);
    assert w.dev == s.dev;
    forall t | 0 <= t < |w.threads| ensures Settled(w.threads[t], s, t) {
      assert w.threads[t] == Thread(0, scripts[t], None, []);
    }
  }

  /** At every moment of every interleaving the world agrees with the sequential run of the log. */
  lemma {:induction false} AlwaysAgrees(scripts: seq<seq<Call>>, schedule: seq<nat>, k: nat)
    requires k <= |schedule| && forall i :: 0 <= i < |scripts| ==> LegalScript(scripts[i])
    ensures AllServe(|scripts|, Log(scripts, schedule, k))
    ensures Agrees(RunTo(scripts, schedule, k),
                   Exec(Init(|scripts|), Log(scripts, schedule, k), |Log(scripts, schedule, k)|))
  {
    hide Agrees, Next, Logged, Step, Ok, Init, StartWorld;
    if k == 0 {
      StartAgrees(scripts);
    } else {
      AlwaysAgrees(scripts, schedule, k - 1);
      var log, w, t := Log(scripts, schedule, k - 1), RunTo(scripts, schedule, k - 1), schedule[k - 1];
      var s := Exec(Init(|scripts|), log, |log|);
      AgreesNext(w, s, t);
      LoggedOne(w, t);
      ExecAppend(Init(|scripts|), log, Logged(w, t));
    }
  }

  /** Calls of caller `t` in a log, in order. */
  ghost function CallsOf(log: seq<Request>, t: nat): seq<Call> {
    if log == [] then []
    else CallsOf(log[..|log| - 1], t) + if log[|log| - 1].file == t then [log[|log| - 1].call] else []
  }

  /** The calls of a caller that have not been logged. */
  function Waiting(th: Thread): seq<Call> {
    if th.pc.Some? && th.script != [] then th.script[1..] else th.script
  }

  lemma WaitingNext(w: World, t: nat, u: nat)
    requires u < |w.threads| && (w.threads[u].pc.Some? ==> w.threads[u].script != [])
    ensures |Next(w, t).threads| == |w.threads|
    ensures Next(w, t).threads[u].pc.Some? ==> Next(w, t).threads[u].script != []
    ensures CallsOf(Logged(w, t), u) + Waiting(Next(w, t).threads[u]) == Waiting(w.threads[u])
  {
    hide Micro;
    if Logged(w, t) != [] {
      assert Logged(w, t)[..0] == [];
    }
  }

  lemma CallsOfAppend(log: seq<Request>, more: seq<Request>, u: nat)
    requires |more| <= 1
    ensures CallsOf(log + more, u) == CallsOf(log, u) + CallsOf(more, u)
  {
    if more == [] {
      assert log + more == log;
    } else {
      assert (log + more)[..|log|] == log && more[..0] == [];
    }
  }

  /** The log keeps every caller's own order and leaves nothing out. */
  lemma {:induction false} ProgramOrder(scripts: seq<seq<Call>>, schedule: seq<nat>, k: nat, u: nat)
    requires k <= |schedule| && u < |scripts|
    ensures |RunTo(scripts, schedule, k).threads| == |scripts|
    ensures RunTo(scripts, schedule, k).threads[u].pc.Some? ==> RunTo(scripts, schedule, k).threads[u].script != []
    ensures CallsOf(Log(scripts, schedule, k), u) + Waiting(RunTo(scripts, schedule, k).threads[u]) == scripts[u]
  {
    hide Next, Logged, Waiting, InitDevice;
    if k == 0 {
      StartWaiting(scripts, u);
    } else {
      ProgramOrder(scripts, schedule, k - 1, u);
      var log, w, t := Log(scripts, schedule, k - 1), RunTo(scripts, schedule, k - 1), schedule[k - 1];
      WaitingNext(w, t, u);
      LoggedOne(w, t);
      CallsOfAppend(log, Logged(w, t), u);
    }
  }

  lemma StartWaiting(scripts: seq<seq<Call>>, u: nat)
    requires u < |scripts|
    ensures |StartWorld(scripts).threads| == |scripts| && StartWorld(scripts).threads[u].pc.None?
    ensures Waiting(StartWorld(scripts).threads[u]) == scripts[u]
  {
    hide InitDevice;
  }

  lemma LoggedOne(w: World, t: nat)
    ensures |Logged(w, t)| <= 1
  {
  }

  /**
   Linearizability. For any callers, any scripts and any interleaving of their statements: whenever
   the lock is free the device, every position and every result received are those of running the
   logged calls whole, one after the other; and the log holds each caller's calls in that caller's
   order, all but the ones it still has to make.
   */
  lemma Linearizable(scripts: seq<seq<Call>>, schedule: seq<nat>)
    requires forall i :: 0 <= i < |scripts| ==> LegalScript(scripts[i])
    ensures var w, log := RunTo(scripts, schedule, |schedule|), Log(scripts, schedule, |schedule|);
            && AllServe(|scripts|, log)
            && |w.threads| == |scripts|
            && (forall t :: 0 <= t < |scripts| ==> CallsOf(log, t) + Waiting(w.threads[t]) == scripts[t])
            && var s := Exec(Init(|scripts|), log, |log|);
            && (w.holder.None? ==>
                  && !s.crashed && w.dev == s.dev
                  && forall t :: 0 <= t < |scripts| ==> w.threads[t].fPos == s.pos[t] && w.threads[t].rets == s.rets[t])
            // and while somebody holds it, everybody else is outside and already agrees
            && (forall t :: 0 <= t < |scripts| && w.holder != Some(t) ==>
                  w.threads[t].pc.None? && w.threads[t].fPos == s.pos[t] && w.threads[t].rets == s.rets[t])
  {
    hide Exec, RunTo, Log, Finish, Valid, Init, Waiting;
    var w, log := RunTo(scripts, schedule, |schedule|), Log(scripts, schedule, |schedule|);
    AlwaysAgrees(scripts, schedule, |schedule|);
    var s := Exec(Init(|scripts|), log, |log|);
    forall t | 0 <= t < |scripts| ensures CallsOf(log, t) + Waiting(w.threads[t]) == scripts[t] {
      ProgramOrder(scripts, schedule, |schedule|, t);
    }
    forall t | 0 <= t < |scripts| && w.holder != Some(t)
      ensures w.threads[t].pc.None? && w.threads[t].fPos == s.pos[t] && w.threads[t].rets == s.rets[t]
    {
      assert Settled(w.threads[t], s, t);
    }
  }

  /** Only the holder can be dead, and then the sequential run has crashed. */
  lemma DeadHolder(w: World, s: Sys, t: nat)
    requires Agrees(w, s) && t < |w.threads| && w.threads[t].pc == Some(Dead)
    ensures w.holder == Some(t) && s.crashed
  {
    hide Valid, Micro;
    if w.holder == Some(t) {
      assert Finish(w.threads[t].script[0], Conf(w.dev, w.threads[t].fPos, Dead)).pc == Dead;
    }
  }

  /**
   Memory safety under concurrency: a caller can die of a bad access, a free of a block that is
   not live included, only if some logged call is a write that adds nothing to nothing.
   */
  lemma OnlyCrashesKill(scripts: seq<seq<Call>>, schedule: seq<nat>, t: nat) returns (i: nat)
    requires forall i :: 0 <= i < |scripts| ==> LegalScript(scripts[i])
    requires t < |RunTo(scripts, schedule, |schedule|).threads|
    requires RunTo(scripts, schedule, |schedule|).threads[t].pc == Some(Dead)
    ensures AllServe(|scripts|, Log(scripts, schedule, |schedule|))
    ensures i < |Log(scripts, schedule, |schedule|)|
    ensures CrashesAt(|scripts|, Log(scripts, schedule, |schedule|), i)
  {
    hide Exec, RunTo, Log, Ok, Init, CrashesAt, Micro, Agrees;
    var w, log := RunTo(scripts, schedule, |schedule|), Log(scripts, schedule, |schedule|);
    AlwaysAgrees(scripts, schedule, |schedule|);
    var s := Exec(Init(|scripts|), log, |log|);
    DeadHolder(w, s, t);
    i := CrashCause(|scripts|, log, |log|);
  }

  // ---------------------------------------------------------------------------------------
  // Every call can return

  /** Caller `t` runs `n` statements. */
  ghost function Repeat(w: World, t: nat, n: nat): World
    decreases n
  {
    if n == 0 then w else Repeat(Next(w, t), t, n - 1)
  }

  /** Caller `t` is in its critical section and nobody else is. */
  ghost predicate Inside(w: World, t: nat) {
    && w.holder == Some(t) && t < |w.threads|
    && w.threads[t].script != [] && w.threads[t].pc.Some?
    && forall u :: 0 <= u < |w.threads| && u != t ==> w.threads[u].pc.None?
  }

  ghost predicate Dies(w: World, t: nat) {
    t < |w.threads| && w.threads[t].pc == Some(Dead)
  }

  /** Caller `t` has returned from its first call, the lock is free, and the others have not moved. */
  ghost predicate Returned(w: World, w': World, t: nat) {
    && t < |w.threads| == |w'.threads|
    && w'.holder.None? && w'.threads[t].pc.None?
    && w.threads[t].script != [] && w'.threads[t].script == w.threads[t].script[1..]
    && |w'.threads[t].rets| == |w.threads[t].rets| + 1
    && forall u :: 0 <= u < |w.threads| && u != t ==> w'.threads[u] == w.threads[u]
  }

  /** A critical section ends by the caller's own statements, unless the caller dies. */
  lemma {:induction false} Leaves(w: World, t: nat) returns (n: nat)
    requires Inside(w, t)
    ensures Dies(Repeat(w, t, n), t) || Returned(w, Repeat(w, t, n), t)
    decreases Rank(w.threads[t].script[0], w.threads[t].pc.value)
  {
    hide Micro, Next;
    var call, pc := w.threads[t].script[0], w.threads[t].pc.value;
    if pc.Dead? { return 0; }
    var w' := Next(w, t);
    InsideStep(w, t);
    if pc.Unlocking? {
      n := 1;
      assert Repeat(w', t, 0) == w';
    } else {
      MicroDescends(call, Conf(w.dev, w.threads[t].fPos, pc));
      n := Leaves(w', t);
      ReturnedLater(w, w', Repeat(w', t, n), t);
      n := n + 1;
    }
  }

  lemma InsideStep(w: World, t: nat)
    requires Inside(w, t) && !w.threads[t].pc.value.Dead?
    ensures w.threads[t].pc.value.Unlocking? ==> Returned(w, Next(w, t), t)
    ensures !w.threads[t].pc.value.Unlocking? ==>
              && Inside(Next(w, t), t) && SameButPlace(w, Next(w, t), t)
              && Next(w, t).threads[t].pc
                 == Some(Micro(w.threads[t].script[0], Conf(w.dev, w.threads[t].fPos, w.threads[t].pc.value)).pc)
  {
    hide Micro;
  }

  ghost predicate SameButPlace(w: World, w': World, t: nat) {
    && t < |w.threads| == |w'.threads|
    && w'.threads[t].script == w.threads[t].script && w'.threads[t].rets == w.threads[t].rets
    && forall u :: 0 <= u < |w.threads| && u != t ==> w'.threads[u] == w.threads[u]
  }

  lemma ReturnedLater(w: World, w': World, w'': World, t: nat)
    requires SameButPlace(w, w', t)
    ensures Returned(w', w'', t) ==> Returned(w, w'', t)
  {
  }

  /** A caller outside, while the lock is free, returns from its next call by its own statements. */
  lemma ReturnsNext(w: World, t: nat) returns (n: nat)
    requires w.holder.None? && t < |w.threads| && w.threads[t].script != []
    requires forall u :: 0 <= u < |w.threads| ==> w.threads[u].pc.None?
    ensures Dies(Repeat(w, t, n), t) || Returned(w, Repeat(w, t, n), t)
  {
    hide Micro, First;
    var w' := Next(w, t);
    if Early(w.threads[t].script[0]).Some? {
      n := 1;
      assert Repeat(w', t, 0) == w';
    } else {
      assert Inside(w', t) && SameButPlace(w, w', t);
      n := Leaves(w', t);
      ReturnedLater(w, w', Repeat(w', t, n), t);
      n := n + 1;
    }
  }

  /**
   Whatever has happened, the caller that has the lock can leave its critical section by its own
   statements, and then any caller can return from its next call by its own, unless one of the two
   dies.
   */
  lemma CanReturn(scripts: seq<seq<Call>>, schedule: seq<nat>, t: nat) returns (h: nat, m: nat, n: nat)
    requires forall i :: 0 <= i < |scripts| ==> LegalScript(scripts[i])
    requires t < |RunTo(scripts, schedule, |schedule|).threads|
    requires RunTo(scripts, schedule, |schedule|).threads[t].script != []
    ensures var w := RunTo(scripts, schedule, |schedule|); var w1 := Repeat(w, h, m);
      && (w.holder == Some(h) || m == 0)
      && (Dies(w1, h) || Dies(Repeat(w1, t, n), t)
          || (t < |w1.threads| && Returned(w, w1, t))
          || (t < |w1.threads| && Returned(w1, Repeat(w1, t, n), t) && w1.threads[t] == w.threads[t]))
  {
    hide RunTo, Next, Micro, Agrees;
    var w := RunTo(scripts, schedule, |schedule|);
    AlwaysAgrees(scripts, schedule, |schedule|);
    var log := Log(scripts, schedule, |schedule|);
    OneInside(w, Exec(Init(|scripts|), log, |log|));
    h, m, n := t, 0, 0;
    if w.holder.Some? {
      h := w.holder.value;
      m := Leaves(w, h);
      if Dies(Repeat(w, h, m), h) || h == t { return; }
    }
    n := ReturnsNext(Repeat(w, h, m), t);
  }

  lemma OneInside(w: World, s: Sys)
    requires Agrees(w, s)
    ensures w.holder.Some? ==> Inside(w, w.holder.value)
    ensures w.holder.None? ==> forall u :: 0 <= u < |w.threads| ==> w.threads[u].pc.None?
  {
    hide Finish, Valid;
    assert forall u :: 0 <= u < |w.threads| && w.holder != Some(u) ==> Settled(w.threads[u], s, u);
  }
}
