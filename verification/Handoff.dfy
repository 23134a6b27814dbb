/**
 The main thread's list of connections and the hand-off of a worker's result, over whole runs
 (server/src/aesdsocket.c, server/src/connection.c).

 A worker ends by clearing `is_active`, then storing its result in the descriptor field of its
 record, then exiting; main looks at `is_active` without any lock, joins, reads the field through
 the pointer the join returned, and frees the record. New records go behind `tail`, which is not
 reset when the record it points to is freed. Steps of different threads interleave freely.
 Thread creation and joining are assumed to succeed.
 */
module Handoff {
  import opened Bytes

  datatype Pc = Serving | Cleared(abort: bool) | Stored(abort: bool) | Exited(abort: bool)

  /** A worker and its record. */
  datatype Worker = Worker(pc: Pc, isActive: bool, descriptor: int, freed: bool)

  datatype MainPc =
    | Checking                        // the condition of the main loop
    | Accepting                       // in accept
    | Scanning(at: nat)               // about to look at the record at this index of the list
    | Joining(at: nat)                // in pthread_join
    | Reading(at: nat)                // the join has returned
    | Draining
    | DrainJoining
    | DrainReading
    | Closing
    | Ended(status: int)
    | Undefined                       // wrote into a freed record: nothing is said of what follows

  /** A status main has read: from which worker, and what. */
  datatype Status = Status(worker: nat, value: int)

  /** `list` and `tail` name workers by their order of acceptance; `refused`: an accept failed. */
  datatype State = State(main: MainPc, abort: bool, refused: bool, sigExit: bool, tail: Option<nat>,
                         list: seq<nat>, workers: seq<Worker>, statuses: seq<Status>)

  datatype Event =
    | Accept(fd: nat)
    | NoConnection
    | AcceptFails
    | Signal                          // sets sig_exit
    | Main                            // the main thread's next step, outside accept
    | Serve(w: nat)                   // any earlier step of a worker: it reads its descriptor
    | Clear(w: nat, abort: bool)
    | Store(w: nat)
    | Exit(w: nat)

  const INIT: State := State(Checking, false, false, false, None, [], [], [])

  /** The result a worker leaves: -1 if it aborted. */
  function Code(abort: bool): int {
    if abort then -1 else 0
  }

  function IndexFrom(list: seq<nat>, w: nat, i: nat): (j: nat)
    requires i <= |list|
    ensures i <= j <= |list| && (j < |list| ==> list[j] == w) && (w in list[i..] ==> j < |list|)
    decreases |list| - i
  {
    if i == |list| || list[i] == w then i else IndexFrom(list, w, i + 1)
  }

  function Insert(list: seq<nat>, at: nat, w: nat): seq<nat>
    requires at <= |list|
  {
    list[..at] + [w] + list[at..]
  }

  function Remove(list: seq<nat>, at: nat): seq<nat>
    requires at < |list|
  {
    list[..at] + list[at + 1..]
  }

  function Next(s: State, e: Event): State {
    if s.main.Undefined? then s
    else
      match e
      case Accept(fd) =>
        if !s.main.Accepting? then s else if fd > 0 then AcceptNext(s, fd) else s.(main := Scanning(0))
      case NoConnection => if s.main.Accepting? then s.(main := Scanning(0)) else s
      case AcceptFails => if s.main.Accepting? then s.(main := Draining, abort := true, refused := true) else s
      case Signal => if s.main.Ended? then s else s.(sigExit := true)
      case Main => MainNext(s)
      case _ => if e.w < |s.workers| then WorkerNext(s, e) else s
  }

  /** The new record goes to the head if `tail` is NULL, otherwise behind the record `tail` points to. */
  function AcceptNext(s: State, fd: nat): State {
    if s.tail.Some? && TailFreed(s) then s.(main := Undefined)
    else
      var at := if s.tail.None? then 0 else IndexFrom(s.list, s.tail.value, 0) + 1;
      if at > |s.list| then s
      else
        s.(main := Scanning(0), tail := Some(|s.workers|), list := Insert(s.list, at, |s.workers|),
           workers := s.workers + [Worker(Serving, true, fd, false)])
  }

  predicate TailFreed(s: State) {
    s.tail.Some? && s.tail.value < |s.workers| && s.workers[s.tail.value].freed
  }

  function MainNext(s: State): State {
    match s.main
    case Checking => s.(main := if !s.abort && !s.sigExit then Accepting else Draining)
    case Scanning(at) =>
      if at >= |s.list| then s.(main := Checking)
      else if s.list[at] < |s.workers| && !s.workers[s.list[at]].isActive then s.(main := Joining(at))
      else s.(main := Scanning(at + 1))
    case Joining(at) => if at < |s.list| && HasExited(s, s.list[at]) then s.(main := Reading(at)) else s
    case Reading(at) => if at < |s.list| && s.list[at] < |s.workers| then Release(s, at, Scanning(at)) else s
    case Draining => s.(main := if s.list == [] then Closing else DrainJoining)
    case DrainJoining => if s.list != [] && HasExited(s, s.list[0]) then s.(main := DrainReading) else s
    case DrainReading => if s.list != [] && s.list[0] < |s.workers| then Release(s, 0, Draining) else s
    case Closing => s.(main := Ended(if s.abort && !s.sigExit then -1 else 0))
    case _ => s
  }

  predicate HasExited(s: State, w: nat) {
    w < |s.workers| && s.workers[w].pc.Exited?
  }

  /** Reads the status from the record, takes the record off the list and frees it. */
  function Release(s: State, at: nat, main: MainPc): State
    requires at < |s.list| && s.list[at] < |s.workers|
  {
    var w := s.list[at];
    var value := s.workers[w].descriptor;
    s.(main := main, abort := s.abort || value < 0, list := Remove(s.list, at),
       workers := s.workers[w := s.workers[w].(freed := true)], statuses := s.statuses + [Status(w, value)])
  }

  /** The end of conn_handler. */
  function WorkerNext(s: State, e: Event): State
    requires e.Serve? || e.Clear? || e.Store? || e.Exit?
    requires e.w < |s.workers|
  {
    var p := s.workers[e.w];
    match e
    case Clear(w, abort) => if p.pc.Serving? then SetWorker(s, w, p.(pc := Cleared(abort), isActive := false)) else s
    case Store(w) => if p.pc.Cleared? then SetWorker(s, w, p.(pc := Stored(p.pc.abort), descriptor := Code(p.pc.abort))) else s
    case Exit(w) => if p.pc.Stored? then SetWorker(s, w, p.(pc := Exited(p.pc.abort))) else s
    case _ => s
  }

  function SetWorker(s: State, w: nat, p: Worker): State
    requires w < |s.workers|
  {
    s.(workers := s.workers[w := p])
  }

  // ---------------------------------------------------------------------------------------
  // The invariant

  ghost predicate Increasing(list: seq<nat>) {
    forall i, j :: 0 <= i < j < |list| ==> list[i] < list[j]
  }

  /** `is_active` tells whether the worker is serving, not whether its result is there. */
  ghost predicate WorkerOk(p: Worker) {
    && p.isActive == p.pc.Serving?
    && (p.pc.Stored? || p.pc.Exited? ==> p.descriptor == Code(p.pc.abort))
    && (p.pc.Serving? || p.pc.Cleared? ==> p.descriptor > 0)
    && (p.freed ==> p.pc.Exited?)
  }

  /** The records on the list are those not freed, in the order of acceptance. */
  ghost predicate Listed(s: State) {
    && Increasing(s.list)
    && (forall w <- s.list :: w < |s.workers| && !s.workers[w].freed)
    && forall w :: 0 <= w < |s.workers| && !s.workers[w].freed ==> w in s.list
  }

  predicate InDrain(main: MainPc) {
    main.Draining? || main.DrainJoining? || main.DrainReading? || main.Closing? || main.Ended?
  }

  ghost predicate MainOk(s: State) {
    && (s.refused ==> InDrain(s.main) || s.main.Undefined?)
    && (InDrain(s.main) ==> s.abort || s.sigExit)
    && match s.main
       case Accepting => !s.abort
       case Joining(at) => at < |s.list| && s.list[at] < |s.workers| && !s.workers[s.list[at]].isActive
       case Reading(at) => at < |s.list| && HasExited(s, s.list[at])
       case DrainJoining => s.list != []
       case DrainReading => s.list != [] && HasExited(s, s.list[0])
       case Closing => s.list == []
       case Ended(status) => s.list == [] && status == Code(s.abort && !s.sigExit)
       case _ => true
  }

  /** `tail` points to the record of the connection accepted last, freed or not. */
  ghost predicate TailOk(s: State) {
    s.tail == if s.workers == [] then None else Some(|s.workers| - 1)
  }

  ghost predicate StatusOk(s: State, st: Status) {
    st.worker < |s.workers| && s.workers[st.worker].freed && st.value == s.workers[st.worker].descriptor
  }

  /** One status for each record freed. */
  ghost predicate Reported(s: State) {
    && (forall st <- s.statuses :: StatusOk(s, st))
    && (forall i, j :: 0 <= i < j < |s.statuses| ==> s.statuses[i].worker != s.statuses[j].worker)
    && forall w :: 0 <= w < |s.workers| && s.workers[w].freed ==> Status(w, s.workers[w].descriptor) in s.statuses
  }

  ghost predicate AbortOk(s: State) {
    s.abort <==> s.refused || exists st <- s.statuses :: st.value < 0
  }

  ghost predicate Inv(s: State) {
    && (forall w :: 0 <= w < |s.workers| ==> WorkerOk(s.workers[w]))
    && Listed(s) && MainOk(s) && Reported(s) && AbortOk(s) && TailOk(s)
  }

  lemma InsertKeeps(list: seq<nat>, w: nat)
    requires Increasing(list) && forall v <- list :: v < w
    ensures Increasing(Insert(list, |list|, w))
    ensures forall v :: v in Insert(list, |list|, w) <==> v == w || v in list
  {
    assert Insert(list, |list|, w) == list + [w];
    assert forall i :: 0 <= i < |list| ==> list[i] in list;
  }

  lemma RemoveKeeps(list: seq<nat>, at: nat)
    requires at < |list| && Increasing(list)
    ensures Increasing(Remove(list, at))
    ensures forall v :: v in Remove(list, at) <==> v != list[at] && v in list
  {
    RemoveDistinct(list, at);
  }

  /** A record that is not freed is the last on the list if it was accepted last. */
  lemma PlaceFound(s: State)
    requires Listed(s) && TailOk(s) && !TailFreed(s)
    ensures s.tail.Some? ==> IndexFrom(s.list, s.tail.value, 0) + 1 == |s.list|
    ensures s.tail.None? ==> s.list == []
  {
    assert s.list[0..] == s.list;
    assert s.list != [] ==> s.list[0] in s.list;
    if s.list != [] { assert s.list[|s.list| - 1] in s.list; }
  }

  lemma AcceptKeeps(s: State, fd: nat)
    requires Inv(s) && s.main.Accepting? && fd > 0
    ensures Inv(AcceptNext(s, fd))
  {
    if TailFreed(s) {
      MainMoves(s, Undefined);
    } else {
      PlaceFound(s);
      InsertKeeps(s.list, |s.workers|);
      Inserted(s, fd);
    }
  }

  lemma Inserted(s: State, fd: nat)
    requires Inv(s) && s.main.Accepting? && fd > 0
    requires Increasing(Insert(s.list, |s.list|, |s.workers|))
    requires forall v :: v in Insert(s.list, |s.list|, |s.workers|) <==> v == |s.workers| || v in s.list
    ensures Inv(s.(main := Scanning(0), tail := Some(|s.workers|), list := Insert(s.list, |s.list|, |s.workers|),
                   workers := s.workers + [Worker(Serving, true, fd, false)]))
  {
    hide Insert, Increasing;
  }

  lemma ReleaseListed(s: State, at: nat, main: MainPc)
    requires Listed(s) && at < |s.list| && s.list[at] < |s.workers|
    ensures Listed(Release(s, at, main))
  {
    RemoveKeeps(s.list, at);
    hide Increasing, Remove;
  }

  lemma ReleaseReported(s: State, at: nat, main: MainPc)
    requires Reported(s) && at < |s.list| && s.list[at] < |s.workers| && !s.workers[s.list[at]].freed
    ensures Reported(Release(s, at, main))
  {
    var s', w := Release(s, at, main), s.list[at];
    var last := |s.statuses|;
    assert s'.statuses[last] == Status(w, s.workers[w].descriptor);
    forall j | 0 <= j < last ensures s'.statuses[j] == s.statuses[j] && s.statuses[j].worker != w {
      assert StatusOk(s, s.statuses[j]);
    }
  }

  lemma ReleaseAbort(s: State, at: nat, main: MainPc)
    requires AbortOk(s) && at < |s.list| && s.list[at] < |s.workers|
    ensures AbortOk(Release(s, at, main))
  {
    var s' := Release(s, at, main);
    var st := s'.statuses[|s.statuses|];
    assert forall x :: x in s'.statuses <==> x in s.statuses || x == st;
  }

  lemma ReleaseKeeps(s: State, at: nat, main: MainPc)
    requires Inv(s) && at < |s.list| && HasExited(s, s.list[at])
    requires if main == Draining then s.abort || s.sigExit else !s.refused && main.Scanning?
    ensures Inv(Release(s, at, main))
  {
    hide Increasing, Reported, AbortOk, Remove;
    assert WorkerOk(s.workers[s.list[at]]);
    ReleaseListed(s, at, main);
    ReleaseReported(s, at, main);
    ReleaseAbort(s, at, main);
  }

  lemma MainMoves(s: State, main: MainPc)
    requires Inv(s) && MainOk(s.(main := main))
    ensures Inv(s.(main := main))
  {
    var s' := s.(main := main);
    assert forall st <- s.statuses :: StatusOk(s, st) ==> StatusOk(s', st);
  }

  lemma MainKeeps(s: State)
    requires Inv(s)
    ensures Inv(Next(s, Main))
  {
    hide Reported, Listed, Increasing, AbortOk, WorkerOk, TailOk, MainOk, AcceptNext, WorkerNext, Release;
    match s.main
    case Reading(at) =>
      AtExited(s);
      ReleaseKeeps(s, at, Scanning(at));
    case DrainReading =>
      AtExited(s);
      ReleaseKeeps(s, 0, Draining);
    case Accepting =>
    case Ended(_) =>
    case Undefined =>
    case _ =>
      MainPlaceOk(s);
      MainMoves(s, Next(s, Main).main);
  }

  lemma AtExited(s: State)
    requires MainOk(s)
    ensures s.main.Reading? ==> !s.refused && s.main.at < |s.list| && HasExited(s, s.list[s.main.at])
    ensures s.main.DrainReading? ==> (s.abort || s.sigExit) && s.list != [] && HasExited(s, s.list[0])
  {
  }

  lemma MainPlaceOk(s: State)
    requires MainOk(s) && !s.main.Reading? && !s.main.DrainReading?
    ensures MainOk(Next(s, Main)) && Next(s, Main) == s.(main := Next(s, Main).main)
  {
  }

  /** A worker's step changes its own record only, and that one is not yet freed. */
  lemma WorkerSet(s: State, w: nat, p: Worker)
    requires Inv(s) && w < |s.workers| && !s.workers[w].freed && !s.workers[w].pc.Exited?
    requires WorkerOk(p) && !p.freed && (s.workers[w].isActive || !p.isActive)
    ensures Inv(SetWorker(s, w, p))
  {
    hide Increasing;
    var s' := SetWorker(s, w, p);
    assert forall st <- s.statuses :: StatusOk(s, st) ==> StatusOk(s', st);
  }

  lemma WorkerKeeps(s: State, e: Event)
    requires Inv(s) && (e.Serve? || e.Clear? || e.Store? || e.Exit?) && e.w < |s.workers|
    ensures Inv(Next(s, e))
  {
    hide Reported, Listed, Increasing, AbortOk, MainOk, SetWorker;
    var p := s.workers[e.w];
    assert WorkerOk(p);
    match e
    case Clear(w, abort) => if p.pc.Serving? { WorkerSet(s, w, p.(pc := Cleared(abort), isActive := false)); }
    case Store(w) =>
      if p.pc.Cleared? { WorkerSet(s, w, p.(pc := Stored(p.pc.abort), descriptor := Code(p.pc.abort))); }
    case Exit(w) => if p.pc.Stored? { WorkerSet(s, w, p.(pc := Exited(p.pc.abort))); }
    case Serve(_) =>
  }

  lemma SignalKeeps(s: State)
    requires Inv(s) && !s.main.Ended?
    ensures Inv(s.(sigExit := true))
  {
    var s' := s.(sigExit := true);
    assert forall st <- s.statuses :: StatusOk(s, st) ==> StatusOk(s', st);
  }

  lemma RefusedKeeps(s: State)
    requires Inv(s) && s.main.Accepting?
    ensures Inv(s.(main := Draining, abort := true, refused := true))
  {
    var s' := s.(main := Draining, abort := true, refused := true);
    assert forall st <- s.statuses :: StatusOk(s, st) ==> StatusOk(s', st);
  }

  lemma NextKeeps(s: State, e: Event)
    requires Inv(s)
    ensures Inv(Next(s, e))
  {
    hide Listed, Reported, AbortOk, WorkerOk, TailOk, AcceptNext, MainNext, WorkerNext;
    if !s.main.Undefined? {
      match e
      case Accept(fd) =>
        if s.main.Accepting? && fd > 0 { AcceptKeeps(s, fd); }
        if s.main.Accepting? && fd == 0 { MainMoves(s, Scanning(0)); }
      case NoConnection => if s.main.Accepting? { MainMoves(s, Scanning(0)); }
      case AcceptFails => if s.main.Accepting? { RefusedKeeps(s); }
      case Signal => if !s.main.Ended? { SignalKeeps(s); }
      case Main => MainKeeps(s);
      case _ => if e.w < |s.workers| { WorkerKeeps(s, e); }
    }
  }

  // ---------------------------------------------------------------------------------------
  // Whole runs

  ghost function RunTo(es: seq<Event>, k: nat): State
    requires k <= |es|
  {
    if k == 0 then INIT else Next(RunTo(es, k - 1), es[k - 1])
  }

  lemma {:induction false} RunInv(es: seq<Event>, k: nat)
    requires k <= |es|
    ensures Inv(RunTo(es, k))
  {
    hide Next, Inv;
    if k == 0 {
      InitInv();
    } else {
      RunInv(es, k - 1);
      NextKeeps(RunTo(es, k - 1), es[k - 1]);
    }
  }

  lemma InitInv()
    ensures Inv(INIT)
  {
  }

  /** The step reads or writes the record of worker `w`. */
  ghost predicate Touches(s: State, e: Event, w: nat)
    requires w < |s.workers|
  {
    match e
    case Serve(v) => v == w && s.workers[w].pc.Serving?
    case Clear(v, _) => v == w && s.workers[w].pc.Serving?
    case Store(v) => v == w && s.workers[w].pc.Cleared?
    case Exit(v) => v == w && s.workers[w].pc.Stored?
    case Accept(fd) => s.main.Accepting? && fd > 0 && s.tail == Some(w)
    case Main => MainTouches(s, w)
    case _ => false
  }

  ghost predicate MainTouches(s: State, w: nat) {
    match s.main
    case Scanning(at) => at < |s.list| && s.list[at] == w
    case Joining(at) => at < |s.list| && s.list[at] == w
    case Reading(at) => at < |s.list| && s.list[at] == w
    case DrainJoining => s.list != [] && s.list[0] == w
    case DrainReading => s.list != [] && s.list[0] == w
    case _ => false
  }

  ghost predicate TouchesFreed(es: seq<Event>, k: nat, w: nat) {
    && k < |es| && w < |RunTo(es, k).workers|
    && Touches(RunTo(es, k), es[k], w) && RunTo(es, k).workers[w].freed
  }

  /** No step of a worker, and no step of main but an insertion, touches a freed record. */
  lemma NoUseAfterFree(es: seq<Event>, k: nat, w: nat)
    requires TouchesFreed(es, k, w)
    ensures es[k].Accept?
  {
    RunInv(es, k);
    assert WorkerOk(RunTo(es, k).workers[w]);
  }

  /** Event `i` is the step that takes worker `w` out of phase `from`. */
  ghost predicate Steps(es: seq<Event>, i: nat, e: Event, w: nat, from: Pc) {
    i < |es| && es[i] == e && w < |RunTo(es, i).workers| && RunTo(es, i).workers[w].pc == from
  }

  /** A worker's phase is what its last step made of the phase before. */
  lemma PcChanges(s: State, e: Event, w: nat)
    requires w < |Next(s, e).workers|
    ensures var now := Next(s, e).workers[w].pc;
      || (w < |s.workers| && s.workers[w].pc == now)
      || now == Serving
      || (w < |s.workers| && s.workers[w].pc == Serving && now.Cleared? && e == Clear(w, now.abort))
      || (w < |s.workers| && now.Stored? && s.workers[w].pc == Cleared(now.abort) && e == Store(w))
      || (w < |s.workers| && now.Exited? && s.workers[w].pc == Stored(now.abort) && e == Exit(w))
  {
  }

  /** The step that brought a worker where it is. */
  lemma {:induction false} CameFrom(es: seq<Event>, k: nat, w: nat) returns (i: nat)
    requires k <= |es| && w < |RunTo(es, k).workers| && !RunTo(es, k).workers[w].pc.Serving?
    ensures i < k
    ensures match RunTo(es, k).workers[w].pc
            case Cleared(abort) => Steps(es, i, Clear(w, abort), w, Serving)
            case Stored(abort) => Steps(es, i, Store(w), w, Cleared(abort))
            case Exited(abort) => Steps(es, i, Exit(w), w, Stored(abort))
            case Serving => false
    decreases k
  {
    hide Next;
    if k == 0 { assert false; }
    var before := RunTo(es, k - 1);
    PcChanges(before, es[k - 1], w);
    if w < |before.workers| && before.workers[w].pc == RunTo(es, k).workers[w].pc {
      i := CameFrom(es, k - 1, w);
    } else {
      i := k - 1;
    }
  }

  /** The step in which main read a status. */
  lemma {:induction false} WasRead(es: seq<Event>, k: nat, j: nat) returns (r: nat)
    requires k <= |es| && j < |RunTo(es, k).statuses|
    ensures r < k && es[r] == Main && (RunTo(es, r).main.Reading? || RunTo(es, r).main.DrainReading?)
    ensures MainTouches(RunTo(es, r), RunTo(es, k).statuses[j].worker)
    ensures var st := RunTo(es, k).statuses[j];
      st.worker < |RunTo(es, r).workers| && st.value == RunTo(es, r).workers[st.worker].descriptor
    decreases k
  {
    hide Next;
    if k == 0 { assert false; }
    StatusesGrow(RunTo(es, k - 1), es[k - 1]);
    if j < |RunTo(es, k - 1).statuses| {
      r := WasRead(es, k - 1, j);
    } else {
      r := k - 1;
    }
  }

  lemma StatusesGrow(s: State, e: Event)
    ensures || Next(s, e).statuses == s.statuses
            || (e == Main && (s.main.Reading? || s.main.DrainReading?)
                && |Next(s, e).statuses| == |s.statuses| + 1
                && Next(s, e).statuses[..|s.statuses|] == s.statuses
                && var st := Next(s, e).statuses[|s.statuses|];
                   MainTouches(s, st.worker) && st.worker < |s.workers| && st.value == s.workers[st.worker].descriptor)
    ensures s.statuses <= Next(s, e).statuses
  {
  }

  /** Every status main has read is the result the worker decided on, cleared its flag with, stored,
      and exited after, in this order, all before main read it. */
  lemma HandedOver(es: seq<Event>, k: nat, j: nat) returns (abort: bool, clear: nat, store: nat, exit: nat, read: nat)
    requires k <= |es| && j < |RunTo(es, k).statuses|
    ensures var st := RunTo(es, k).statuses[j];
      && st.value == Code(abort)
      && clear < store < exit < read < k
      && Steps(es, clear, Clear(st.worker, abort), st.worker, Serving)
      && Steps(es, store, Store(st.worker), st.worker, Cleared(abort))
      && Steps(es, exit, Exit(st.worker), st.worker, Stored(abort))
      && es[read] == Main && MainTouches(RunTo(es, read), st.worker)
  {
    hide Next, RunTo;
    var w := RunTo(es, k).statuses[j].worker;
    read := WasRead(es, k, j);
    RunInv(es, read);
    ReadsAfterExit(RunTo(es, read), w);
    abort := RunTo(es, read).workers[w].pc.abort;
    exit := CameFrom(es, read, w);
    store := CameFrom(es, exit, w);
    clear := CameFrom(es, store, w);
  }

  lemma ReadsAfterExit(s: State, w: nat)
    requires Inv(s) && (s.main.Reading? || s.main.DrainReading?) && MainTouches(s, w) && w < |s.workers|
    ensures s.workers[w].pc.Exited? && s.workers[w].descriptor == Code(s.workers[w].pc.abort)
  {
    assert WorkerOk(s.workers[w]);
  }

  // ---------------------------------------------------------------------------------------
  // The stale tail

  /** Event `i` brings a connection, for which main makes a worker and inserts its record. */
  ghost predicate Accepts(es: seq<Event>, i: nat) {
    i < |es| && Takes(RunTo(es, i), es[i])
  }

  /** The last connection before event `k` came with event `i`. */
  ghost predicate LastBefore(es: seq<Event>, i: nat, k: nat) {
    i < k && Accepts(es, i) && forall j :: i < j < k ==> !Accepts(es, j)
  }

  /** Event `r` is main's step that frees the record of worker `w`. */
  ghost predicate Frees(es: seq<Event>, r: nat, w: nat) {
    r < |es| && es[r] == Main && FreesNow(RunTo(es, r), w)
  }

  ghost predicate FreesNow(s: State, w: nat) {
    (s.main.Reading? || s.main.DrainReading?) && MainTouches(s, w) && w < |s.workers|
  }

  /** Event `k` brings a connection after the record of the connection before it has been freed. */
  ghost predicate LateAccept(es: seq<Event>, k: nat) {
    Accepts(es, k) && exists i: nat, r: nat :: i < r < k && LastBefore(es, i, k) && Frees(es, r, |RunTo(es, i).workers|)
  }

  /** How one event changes who has been accepted and whose record is freed. */
  lemma StepWorkers(s: State, e: Event)
    requires Inv(s)
    ensures s.main.Undefined? ==> Next(s, e) == s
    ensures Next(s, e).main.Undefined? && !s.main.Undefined? <==> Takes(s, e) && TailFreed(s)
    ensures |Next(s, e).workers| == |s.workers| + if Takes(s, e) && !TailFreed(s) then 1 else 0
    ensures |Next(s, e).workers| > |s.workers| ==> !Next(s, e).workers[|s.workers|].freed
    ensures forall w :: 0 <= w < |s.workers| ==>
              (Next(s, e).workers[w].freed <==> s.workers[w].freed || (e == Main && FreesNow(s, w)))
  {
    hide Next, FreesNow, Inv, TailFreed;
    if Takes(s, e) {
      StepTakes(s, e.fd);
    } else if e.Main? {
      StepMain(s);
    } else {
      StepOther(s, e);
    }
  }

  /** The event brings a connection. */
  ghost predicate Takes(s: State, e: Event) {
    e.Accept? && e.fd > 0 && s.main.Accepting?
  }

  lemma StepTakes(s: State, fd: nat)
    requires Inv(s) && Takes(s, Accept(fd))
    ensures var s' := Next(s, Accept(fd));
      if TailFreed(s) then s'.main.Undefined? && s'.workers == s.workers
      else !s'.main.Undefined? && s'.workers == s.workers + [Worker(Serving, true, fd, false)]
  {
    if !TailFreed(s) { PlaceFound(s); }
  }

  lemma StepMain(s: State)
    ensures var s' := Next(s, Main);
      && s'.main.Undefined? == s.main.Undefined? && (s.main.Undefined? ==> s' == s)
      && |s'.workers| == |s.workers|
      && forall w :: 0 <= w < |s.workers| ==> (s'.workers[w].freed <==> s.workers[w].freed || FreesNow(s, w))
  {
  }

  lemma StepOther(s: State, e: Event)
    requires !Takes(s, e) && !e.Main?
    ensures var s' := Next(s, e);
      && s'.main.Undefined? == s.main.Undefined? && (s.main.Undefined? ==> s' == s)
      && |s'.workers| == |s.workers|
      && forall w :: 0 <= w < |s.workers| ==> s'.workers[w].freed == s.workers[w].freed
  {
    hide AcceptNext, MainNext;
  }

  lemma StepAt(es: seq<Event>, k: nat)
    requires 0 < k <= |es|
    ensures Inv(RunTo(es, k - 1)) && RunTo(es, k) == Next(RunTo(es, k - 1), es[k - 1])
  {
    hide Next, Inv;
    RunInv(es, k - 1);
  }

  lemma {:induction false} WorkersStay(es: seq<Event>, i: nat, k: nat)
    requires i <= k <= |es|
    ensures |RunTo(es, i).workers| <= |RunTo(es, k).workers|
    ensures forall w :: 0 <= w < |RunTo(es, i).workers| && RunTo(es, i).workers[w].freed ==> RunTo(es, k).workers[w].freed
    ensures RunTo(es, i).main.Undefined? ==> RunTo(es, k).main.Undefined?
    decreases k
  {
    hide Next, Inv, RunTo, FreesNow;
    if i < k {
      WorkersStay(es, i, k - 1);
      StepAt(es, k);
      StepWorkers(RunTo(es, k - 1), es[k - 1]);
    }
  }

  /** The worker accepted last is that of the last connection. */
  lemma {:induction false} LastAccepted(es: seq<Event>, k: nat) returns (i: nat)
    requires k <= |es| && !RunTo(es, k).main.Undefined? && |RunTo(es, k).workers| > 0
    ensures LastBefore(es, i, k) && |RunTo(es, i).workers| + 1 == |RunTo(es, k).workers|
    decreases k
  {
    hide Next, Inv, FreesNow;
    if k == 0 { assert false; }
    StepAt(es, k);
    StepWorkers(RunTo(es, k - 1), es[k - 1]);
    if Accepts(es, k - 1) {
      i := k - 1;
    } else {
      i := LastAccepted(es, k - 1);
    }
  }

  lemma {:induction false} FreedBy(es: seq<Event>, k: nat, w: nat) returns (r: nat)
    requires k <= |es| && w < |RunTo(es, k).workers| && RunTo(es, k).workers[w].freed
    ensures r < k && Frees(es, r, w)
    decreases k
  {
    hide Next, Inv, FreesNow;
    if k == 0 { assert false; }
    StepAt(es, k);
    var before := RunTo(es, k - 1);
    StepWorkers(before, es[k - 1]);
    if w < |before.workers| && before.workers[w].freed {
      r := FreedBy(es, k - 1, w);
    } else {
      r := k - 1;
    }
  }

  /** `tail` is stale exactly when the record of the connection before has been freed. */
  lemma LateMeaning(es: seq<Event>, k: nat)
    requires Accepts(es, k)
    ensures LateAccept(es, k) <==> TailFreed(RunTo(es, k))
  {
    hide Next, Inv, FreesNow, RunTo;
    TailIs(es, k);
    if TailFreed(RunTo(es, k)) {
      var w := |RunTo(es, k).workers| - 1;
      var i := LastAccepted(es, k);
      var r := FreedBy(es, k, w);
      FreesItsOwn(es, r, w);
      if r <= i { WorkersStay(es, r, i); }
    }
    forall i: nat, r: nat | i < r < k && LastBefore(es, i, k) && Frees(es, r, |RunTo(es, i).workers|)
      ensures TailFreed(RunTo(es, k))
    {
      LateFreed(es, k, i, r);
    }
  }

  lemma TailIs(es: seq<Event>, k: nat)
    requires k <= |es|
    ensures TailOk(RunTo(es, k))
  {
    RunInv(es, k);
  }

  lemma FreesItsOwn(es: seq<Event>, r: nat, w: nat)
    requires Frees(es, r, w)
    ensures w < |RunTo(es, r).workers| && w < |RunTo(es, r + 1).workers| && RunTo(es, r + 1).workers[w].freed
  {
    hide Next, Inv;
    StepAt(es, r + 1);
    StepWorkers(RunTo(es, r), es[r]);
  }

  lemma LateFreed(es: seq<Event>, k: nat, i: nat, r: nat)
    requires Accepts(es, k) && i < r < k && LastBefore(es, i, k) && Frees(es, r, |RunTo(es, i).workers|)
    ensures TailFreed(RunTo(es, k))
  {
    hide Next, Inv, FreesNow, RunTo;
    var w := |RunTo(es, i).workers|;
    FreesItsOwn(es, r, w);
    WorkersStay(es, r + 1, k);
    TailIs(es, k);
    var i' := LastAccepted(es, k);
    assert i' == i;
  }

  /** Some thread touches a freed record exactly when a connection comes after the record of the one
      before it has been freed; from then on C says nothing of the program. */
  lemma UseAfterFreeExactly(es: seq<Event>, k: nat)
    ensures (exists w :: TouchesFreed(es, k, w)) <==> LateAccept(es, k)
    ensures LateAccept(es, k) ==> RunTo(es, k + 1).main.Undefined?
  {
    hide Next, Inv;
    if Accepts(es, k) {
      LateMeaning(es, k);
      TailIs(es, k);
      StepAt(es, k + 1);
      StepWorkers(RunTo(es, k), es[k]);
      if LateAccept(es, k) { assert TouchesFreed(es, k, |RunTo(es, k).workers| - 1); }
    }
    forall w | TouchesFreed(es, k, w) ensures LateAccept(es, k) {
      NoUseAfterFree(es, k, w);
      assert TailFreed(RunTo(es, k));
    }
  }

  /** A run gets lost exactly at such a connection. */
  lemma {:induction false} UndefinedExactly(es: seq<Event>, k: nat)
    requires k <= |es|
    ensures RunTo(es, k).main.Undefined? <==> exists i :: 0 <= i < k && LateAccept(es, i)
  {
    hide Next, Inv, LateAccept, FreesNow;
    if k > 0 {
      UndefinedExactly(es, k - 1);
      StepAt(es, k);
      StepWorkers(RunTo(es, k - 1), es[k - 1]);
      if Accepts(es, k - 1) { LateMeaning(es, k - 1); }
      OnlyAccepts(es, k - 1);
      if RunTo(es, k).main.Undefined? && !RunTo(es, k - 1).main.Undefined? {
        assert LateAccept(es, k - 1);
      }
    }
  }

  lemma OnlyAccepts(es: seq<Event>, k: nat)
    ensures LateAccept(es, k) ==> Accepts(es, k)
  {
  }

  // It does happen: one connection that ends before its pass, then another.

  const LATE: seq<Event> := [Main, Accept(5), Clear(0, false), Store(0), Exit(0), Main, Main, Main, Main, Main, Accept(6)]

  const SERVED: State :=
    State(Scanning(0), false, false, false, Some(0), [0], [Worker(Exited(false), false, 0, false)], [])

  const REAPED: State :=
    State(Accepting, false, false, false, Some(0), [], [Worker(Exited(false), false, 0, true)], [Status(0, 0)])

  lemma FirstIsServed()
    ensures RunTo(LATE, 5) == SERVED
  {
    hide Next;
    FirstSteps();
    assert RunTo(LATE, 2) == Next(Next(INIT, Main), Accept(5));
    assert RunTo(LATE, 4) == Next(Next(RunTo(LATE, 2), Clear(0, false)), Store(0));
  }

  lemma FirstSteps()
    ensures Next(Next(INIT, Main), Accept(5)) == SERVED.(workers := [Worker(Serving, true, 5, false)])
    ensures Next(SERVED.(workers := [Worker(Serving, true, 5, false)]), Clear(0, false))
            == SERVED.(workers := [Worker(Cleared(false), false, 5, false)])
    ensures Next(SERVED.(workers := [Worker(Cleared(false), false, 5, false)]), Store(0))
            == SERVED.(workers := [Worker(Stored(false), false, 0, false)])
    ensures Next(SERVED.(workers := [Worker(Stored(false), false, 0, false)]), Exit(0)) == SERVED
  {
  }

  lemma ThenReaped()
    ensures Next(Next(Next(Next(Next(SERVED, Main), Main), Main), Main), Main) == REAPED
  {
    assert Next(Next(SERVED, Main), Main) == SERVED.(main := Reading(0));
    assert Next(SERVED.(main := Reading(0)), Main) == REAPED.(main := Scanning(0));
  }

  lemma SecondConnectionLate()
    ensures RunTo(LATE, 10) == REAPED && LateAccept(LATE, 10) && RunTo(LATE, 11).main.Undefined?
  {
    hide LateAccept, Next;
    FirstIsServed();
    ThenReaped();
    assert RunTo(LATE, 7) == Next(Next(SERVED, Main), Main);
    assert RunTo(LATE, 10) == REAPED;
    LateMeaning(LATE, 10);
    UseAfterFreeExactly(LATE, 10);
  }

  /** When main ends, no connection came late, every accepted connection has its worker, every worker
      has exited, its record is freed, and its result has been read exactly once. Main returns -1
      exactly if an accept failed or a worker aborted, and no signal asked it to stop. */
  lemma EndAccounts(es: seq<Event>, k: nat)
    requires k <= |es| && RunTo(es, k).main.Ended?
    ensures forall i :: 0 <= i < k ==> !LateAccept(es, i)
    ensures var s := RunTo(es, k);
      && (forall i :: 0 <= i < k && Accepts(es, i) ==> |RunTo(es, i).workers| < |s.workers|)
      && (forall w :: 0 <= w < |s.workers| ==>
            && s.workers[w].freed && s.workers[w].pc.Exited?
            && Status(w, Code(s.workers[w].pc.abort)) in s.statuses)
      && |s.statuses| == |s.workers|
      && (s.main.status == -1 <==>
            !s.sigExit && (s.refused || exists w :: 0 <= w < |s.workers| && s.workers[w].pc == Exited(true)))
  {
    hide Next, LateAccept;
    RunInv(es, k);
    UndefinedExactly(es, k);
    AllAccounted(RunTo(es, k));
    AbortAtEnd(RunTo(es, k));
    forall i | 0 <= i < k && Accepts(es, i) ensures |RunTo(es, i).workers| < |RunTo(es, k).workers| {
      AcceptedHasWorker(es, i, k);
    }
  }

  lemma AcceptedHasWorker(es: seq<Event>, i: nat, k: nat)
    requires i < k <= |es| && Accepts(es, i) && !RunTo(es, k).main.Undefined?
    ensures |RunTo(es, i).workers| < |RunTo(es, k).workers|
  {
    hide Next, Inv, FreesNow;
    StepAt(es, i + 1);
    StepWorkers(RunTo(es, i), es[i]);
    WorkersStay(es, i + 1, k);
  }

  /** The flags are what happened: a signal before main ended, a failed accept. */
  lemma {:induction false} FlagsMean(es: seq<Event>, k: nat)
    requires k <= |es|
    ensures RunTo(es, k).sigExit <==> exists i :: 0 <= i < k && es[i] == Signal && Running(es, i)
    ensures RunTo(es, k).refused <==> exists i :: 0 <= i < k && es[i] == AcceptFails && RunTo(es, i).main.Accepting?
  {
    hide Next;
    if k > 0 {
      FlagsMean(es, k - 1);
      StepFlags(RunTo(es, k - 1), es[k - 1]);
      assert Running(es, k - 1) || !Running(es, k - 1);
    }
  }

  ghost predicate Running(es: seq<Event>, i: nat)
    requires i <= |es|
  {
    !RunTo(es, i).main.Ended? && !RunTo(es, i).main.Undefined?
  }

  lemma StepFlags(s: State, e: Event)
    ensures Next(s, e).sigExit <==> s.sigExit || (e == Signal && !s.main.Ended? && !s.main.Undefined?)
    ensures Next(s, e).refused <==> s.refused || (e == AcceptFails && s.main.Accepting?)
  {
  }

  lemma AllAccounted(s: State)
    requires Inv(s) && s.main.Ended?
    ensures forall w :: 0 <= w < |s.workers| ==>
              && s.workers[w].freed && s.workers[w].pc.Exited?
              && Status(w, Code(s.workers[w].pc.abort)) in s.statuses
    ensures |s.statuses| == |s.workers|
  {
    forall w | 0 <= w < |s.workers|
      ensures s.workers[w].freed && s.workers[w].pc.Exited? && Status(w, Code(s.workers[w].pc.abort)) in s.statuses
    {
      assert WorkerOk(s.workers[w]);
    }
    var reported := seq(|s.statuses|, i requires 0 <= i < |s.statuses| => s.statuses[i].worker);
    forall w | 0 <= w < |s.workers| ensures w in reported {
      var st := Status(w, s.workers[w].descriptor);
      assert st in s.statuses;
      var i :| 0 <= i < |s.statuses| && s.statuses[i] == st;
      assert reported[i] == w;
    }
    forall i | 0 <= i < |reported| ensures StatusOk(s, s.statuses[i]) && reported[i] < |s.workers| {
      assert s.statuses[i] in s.statuses;
    }
    Counted(reported, |s.workers|);
  }

  ghost predicate Distinct(list: seq<nat>) {
    forall i, j :: 0 <= i < j < |list| ==> list[i] != list[j]
  }

  lemma RemoveDistinct(list: seq<nat>, at: nat)
    requires at < |list| && Distinct(list)
    ensures Distinct(Remove(list, at))
    ensures forall v :: v in Remove(list, at) <==> v != list[at] && v in list
  {
    var now := Remove(list, at);
    forall v | v in list && v != list[at] ensures v in now {
      var i :| 0 <= i < |list| && list[i] == v;
      assert now[if i < at then i else i - 1] == v;
    }
  }

  /** Distinct numbers, all those below `n` and only those, are `n` in number. */
  lemma {:induction false} Counted(list: seq<nat>, n: nat)
    requires Distinct(list)
    requires forall w: nat :: w in list <==> w < n
    ensures |list| == n
    decreases n
  {
    if n == 0 {
      HasElement(list);
    } else {
      assert n - 1 in list;
      var i :| 0 <= i < |list| && list[i] == n - 1;
      RemoveDistinct(list, i);
      Counted(Remove(list, i), n - 1);
    }
  }

  lemma HasElement(list: seq<nat>)
    ensures list == [] || exists w: nat :: w in list
  {
    if list != [] { assert list[0] in list; }
  }

  lemma AbortAtEnd(s: State)
    requires Inv(s) && s.main.Ended?
    ensures s.abort <==> s.refused || exists w :: 0 <= w < |s.workers| && s.workers[w].pc == Exited(true)
  {
    AllAccounted(s);
    if st :| st in s.statuses && st.value < 0 {
      assert StatusOk(s, st) && WorkerOk(s.workers[st.worker]);
      assert s.workers[st.worker].pc == Exited(true);
    }
    if w :| 0 <= w < |s.workers| && s.workers[w].pc == Exited(true) {
      assert Status(w, Code(true)) in s.statuses;
    }
  }

  // ---------------------------------------------------------------------------------------
  // What main does

  /** The list holds the accepted connections whose records are not freed, in the order they came. */
  lemma ListInOrder(es: seq<Event>, k: nat)
    requires k <= |es|
    ensures var s := RunTo(es, k);
      && Increasing(s.list)
      && forall w: nat :: w in s.list <==> w < |s.workers| && !s.workers[w].freed
  {
    RunInv(es, k);
  }

  ghost predicate Signalled(es: seq<Event>, k: nat)
    requires k <= |es|
  {
    exists i :: 0 <= i < k && es[i] == Signal && Running(es, i)
  }

  ghost predicate Refused(es: seq<Event>, k: nat)
    requires k <= |es|
  {
    exists i :: 0 <= i < k && es[i] == AcceptFails && RunTo(es, i).main.Accepting?
  }

  ghost predicate BadStatus(s: State) {
    exists st <- s.statuses :: st.value < 0
  }

  /** At the loop condition main goes on to accept exactly if no signal has come and no status it has
      read is negative; otherwise it leaves the loop. */
  lemma LoopCondition(es: seq<Event>, k: nat)
    requires k < |es| && es[k] == Main && RunTo(es, k).main.Checking?
    ensures var s := RunTo(es, k);
      RunTo(es, k + 1).main == if Signalled(es, k) || BadStatus(s) then Draining else Accepting
  {
    hide Listed, Reported, WorkerOk, TailOk;
    RunInv(es, k);
    FlagsMean(es, k);
  }

  /** While main is in accept no accept has failed and no status it has read is negative. */
  lemma AcceptsUnharmed(es: seq<Event>, k: nat)
    requires k <= |es| && RunTo(es, k).main.Accepting?
    ensures !Refused(es, k) && !BadStatus(RunTo(es, k))
  {
    hide Listed, Reported, WorkerOk, TailOk, RunTo;
    RunInv(es, k);
    FlagsMean(es, k);
  }

  /** Main leaves the loop only after a signal, a failed accept or a negative status. */
  lemma DrainsBecause(es: seq<Event>, k: nat)
    requires k <= |es| && InDrain(RunTo(es, k).main)
    ensures Signalled(es, k) || Refused(es, k) || BadStatus(RunTo(es, k))
  {
    hide Listed, Reported, WorkerOk, TailOk, RunTo;
    RunInv(es, k);
    FlagsMean(es, k);
  }

  /** After a signal at most one more connection is taken. */
  lemma OneMoreConnection(es: seq<Event>, i: nat, j: nat, k: nat)
    requires i < j < k < |es| && es[i] == Signal && Running(es, i) && Accepts(es, j)
    ensures !Accepts(es, k)
  {
    hide Next;
    FlagsMean(es, j);
    RunInv(es, j);
    LeavesAccept(RunTo(es, j), es[j]);
    StaysOut(es, j + 1, k);
  }

  lemma LeavesAccept(s: State, e: Event)
    requires Inv(s) && Takes(s, e) && s.sigExit
    ensures Next(s, e).sigExit && !Next(s, e).main.Accepting?
  {
    if !TailFreed(s) { PlaceFound(s); }
  }

  lemma {:induction false} StaysOut(es: seq<Event>, m: nat, k: nat)
    requires m <= k <= |es| && RunTo(es, m).sigExit && !RunTo(es, m).main.Accepting?
    ensures RunTo(es, k).sigExit && !RunTo(es, k).main.Accepting?
    decreases k
  {
    hide Next;
    if m < k {
      StaysOut(es, m, k - 1);
      StepOut(RunTo(es, k - 1), es[k - 1]);
    }
  }

  lemma StepOut(s: State, e: Event)
    requires s.sigExit && !s.main.Accepting?
    ensures Next(s, e).sigExit && !Next(s, e).main.Accepting?
  {
  }

  // The pass over the list

  /** Accept has returned, with or without a connection. */
  ghost predicate Answered(es: seq<Event>, i: nat) {
    i < |es| && (es[i].Accept? || es[i].NoConnection?) && RunTo(es, i).main.Accepting?
  }

  predicate InPass(main: MainPc) {
    main.Scanning? || main.Joining? || main.Reading? || main.Checking? || main.Accepting?
  }

  /** Main looks at the flag of worker `w`. */
  ghost predicate Looks(s: State, w: nat) {
    s.main.Scanning? && s.main.at < |s.list| && s.list[s.main.at] == w && w < |s.workers|
  }

  ghost predicate Visits(es: seq<Event>, x: nat, w: nat) {
    x < |es| && es[x] == Main && Looks(RunTo(es, x), w)
  }

  /** Worker `w` is still ahead. */
  ghost predicate Ahead(s: State, w: nat) {
    match s.main
    case Scanning(at) => exists p :: at <= p < |s.list| && s.list[p] == w
    case Joining(at) => exists p :: at < p < |s.list| && s.list[p] == w
    case Reading(at) => exists p :: at < p < |s.list| && s.list[p] == w
    case _ => false
  }

  /** It is being joined. */
  ghost predicate Taken(s: State, w: nat) {
    (s.main.Joining? || s.main.Reading?) && s.main.at < |s.list| && s.list[s.main.at] == w
  }

  /** It is behind: freed, or passed over. */
  ghost predicate Behind(s: State, w: nat, freed: bool) {
    && w < |s.workers| && s.workers[w].freed == freed
    && (!freed ==> exists p :: 0 <= p < |s.list| && s.list[p] == w
                     && (s.main.Scanning? || s.main.Joining? || s.main.Reading? ==> p < s.main.at))
  }

  /** During the pass only main moves along the list. */
  lemma OnlyMain(s: State, e: Event)
    requires InPass(s.main) && !s.main.Accepting? && !e.Main?
    ensures var s' := Next(s, e);
      && s'.main == s.main && s'.list == s.list && |s'.workers| == |s.workers|
      && forall w :: 0 <= w < |s.workers| ==> s'.workers[w].freed == s.workers[w].freed
  {
  }

  /** Taking the record at `at` off moves the later ones up. */
  lemma MovedUp(list: seq<nat>, at: nat, p: nat)
    requires at < |list| && p < |list| && p != at
    ensures var q := if p < at then p else p - 1; q < |Remove(list, at)| && Remove(list, at)[q] == list[p]
  {
  }

  lemma AheadStep(s: State, e: Event, w: nat)
    requires Inv(s) && Ahead(s, w)
    ensures Ahead(Next(s, e), w)
            || (e == Main && Looks(s, w)
                && if s.workers[w].isActive then Behind(Next(s, e), w, false) else Taken(Next(s, e), w))
  {
    hide Reported, AbortOk, WorkerOk, TailOk, AcceptNext, WorkerNext, Increasing, Remove;
    if !e.Main? {
      OnlyMain(s, e);
    } else {
      AheadMain(s, w);
    }
  }

  lemma AheadMain(s: State, w: nat)
    requires Inv(s) && Ahead(s, w)
    ensures Ahead(Next(s, Main), w)
            || (Looks(s, w) && if s.workers[w].isActive then Behind(Next(s, Main), w, false) else Taken(Next(s, Main), w))
  {
    hide Reported, AbortOk, WorkerOk, TailOk, AcceptNext, WorkerNext, Increasing, Remove;
    var s' := Next(s, Main);
    match s.main
    case Scanning(at) =>
      var p :| at <= p < |s.list| && s.list[p] == w;
      assert s.list[at] in s.list && w in s.list;
      if p == at && s.workers[w].isActive {
        assert s'.list[at] == w;
      } else if p > at {
        assert s'.list[p] == w;
      }
    case Joining(at) =>
    case Reading(at) =>
      var p :| at < p < |s.list| && s.list[p] == w;
      MovedUp(s.list, at, p);
      assert s'.list[p - 1] == w;
  }

  lemma TakenStep(s: State, e: Event, w: nat)
    requires Inv(s) && Taken(s, w)
    ensures Taken(Next(s, e), w) || Behind(Next(s, e), w, true)
  {
    hide Reported, AbortOk, WorkerOk, TailOk, AcceptNext, WorkerNext, Increasing;
    if !e.Main? { OnlyMain(s, e); }
  }

  lemma BehindStep(s: State, e: Event, w: nat, freed: bool)
    requires Inv(s) && Behind(s, w, freed) && InPass(s.main) && !s.main.Accepting?
    ensures Behind(Next(s, e), w, freed)
  {
    hide Reported, AbortOk, WorkerOk, TailOk, AcceptNext, WorkerNext, Remove;
    if !e.Main? {
      OnlyMain(s, e);
    } else if !freed {
      BehindMain(s, w);
    }
  }

  lemma BehindMain(s: State, w: nat)
    requires Inv(s) && Behind(s, w, false) && InPass(s.main) && !s.main.Accepting?
    ensures Behind(Next(s, Main), w, false)
  {
    hide Reported, AbortOk, WorkerOk, TailOk, AcceptNext, WorkerNext, Remove;
    var s' := Next(s, Main);
    var p :| 0 <= p < |s.list| && s.list[p] == w
             && (s.main.Scanning? || s.main.Joining? || s.main.Reading? ==> p < s.main.at);
    if s.main.Reading? {
      MovedUp(s.list, s.main.at, p);
      assert s.list[p] < s.list[s.main.at];
    }
    assert s'.list[p] == w;
  }

  /** Where the pass that began with event `i` has got to with worker `w`. */
  ghost predicate Progress(es: seq<Event>, i: nat, m: nat, w: nat)
    requires m <= |es|
  {
    || Ahead(RunTo(es, m), w)
    || exists x :: i < x < m && Visits(es, x, w) && Met(es, x, m, w)
  }

  ghost predicate Met(es: seq<Event>, x: nat, m: nat, w: nat)
    requires x <= |es| && m <= |es|
  {
    && w < |RunTo(es, x).workers|
    && if RunTo(es, x).workers[w].isActive then Behind(RunTo(es, m), w, false)
       else Taken(RunTo(es, m), w) || Behind(RunTo(es, m), w, true)
  }

  lemma ProgressStep(es: seq<Event>, i: nat, m: nat, w: nat)
    requires i < m < |es| && Progress(es, i, m, w) && InPass(RunTo(es, m).main) && !RunTo(es, m).main.Accepting?
    ensures Progress(es, i, m + 1, w)
  {
    hide Next, Inv, Ahead, Taken, Behind, Looks;
    StepAt(es, m + 1);
    var s := RunTo(es, m);
    if Ahead(s, w) {
      AheadStep(s, es[m], w);
      if !Ahead(RunTo(es, m + 1), w) {
        LooksAtWorker(s, w);
        assert Visits(es, m, w) && Met(es, m, m + 1, w);
      }
    } else {
      var x :| i < x < m && Visits(es, x, w) && Met(es, x, m, w);
      if Taken(s, w) { TakenStep(s, es[m], w); }
      if Behind(s, w, true) { BehindStep(s, es[m], w, true); }
      if Behind(s, w, false) { BehindStep(s, es[m], w, false); }
      assert Met(es, x, m + 1, w);
    }
  }

  lemma LooksAtWorker(s: State, w: nat)
    requires Looks(s, w)
    ensures w < |s.workers|
  {
  }

  /** From a pass main goes to accept again only through the loop condition. */
  lemma {:induction false} StaysInPass(es: seq<Event>, m: nat, k: nat)
    requires m <= k <= |es| && !InPass(RunTo(es, m).main)
    ensures !InPass(RunTo(es, k).main)
    decreases k
  {
    hide Next;
    if m < k {
      StaysInPass(es, m, k - 1);
      StepOutside(RunTo(es, k - 1), es[k - 1]);
    }
  }

  lemma StepOutside(s: State, e: Event)
    requires !InPass(s.main)
    ensures !InPass(Next(s, e).main)
  {
  }

  lemma {:induction false} PassProgress(es: seq<Event>, i: nat, m: nat, j: nat, w: nat)
    requires i < m <= j <= |es| && Answered(es, i) && RunTo(es, j).main.Accepting?
    requires forall k :: i < k < j ==> !RunTo(es, k).main.Accepting?
    requires w in RunTo(es, i + 1).list
    ensures Progress(es, i, m, w)
    decreases m
  {
    hide Next, Ahead, Looks, Met;
    if !InPass(RunTo(es, m).main) { StaysInPass(es, m, j); }
    if m == i + 1 {
      PassBegins(es, i, w);
    } else {
      if !InPass(RunTo(es, m - 1).main) { StaysInPass(es, m - 1, j); }
      PassProgress(es, i, m - 1, j, w);
      ProgressStep(es, i, m - 1, w);
    }
  }

  lemma PassBegins(es: seq<Event>, i: nat, w: nat)
    requires Answered(es, i) && InPass(RunTo(es, i + 1).main) && w in RunTo(es, i + 1).list
    ensures Ahead(RunTo(es, i + 1), w)
  {
    StepAt(es, i + 1);
    Begins(RunTo(es, i), es[i], w);
  }

  lemma Begins(s: State, e: Event, w: nat)
    requires Inv(s) && s.main.Accepting? && (e.Accept? || e.NoConnection?) && InPass(Next(s, e).main)
    requires w in Next(s, e).list
    ensures Ahead(Next(s, e), w)
  {
    if !TailFreed(s) { PlaceFound(s); }
    var s' := Next(s, e);
    var p :| 0 <= p < |s'.list| && s'.list[p] == w;
  }

  /** Between two accepts main looks at every worker that was on the list after the first, and by the
      second it has joined and freed exactly those whose flag it found cleared. */
  lemma WholePass(es: seq<Event>, i: nat, j: nat, w: nat) returns (x: nat)
    requires i < j <= |es| && Answered(es, i) && RunTo(es, j).main.Accepting?
    requires forall k :: i < k < j ==> !RunTo(es, k).main.Accepting?
    requires w in RunTo(es, i + 1).list
    ensures i < x < j && Visits(es, x, w) && w < |RunTo(es, x).workers| && w < |RunTo(es, j).workers|
    ensures RunTo(es, j).workers[w].freed <==> !RunTo(es, x).workers[w].isActive
  {
    hide Next;
    PassProgress(es, i, j, j, w);
    x :| i < x < j && Visits(es, x, w) && Met(es, x, j, w);
  }

  /** The flag alone would not do: main can see a worker inactive while its record still holds the
      descriptor of the connection. Only the join makes the read safe. */
  lemma FlagIsNotEnough()
    ensures RunTo([Main, Accept(5), Clear(0, true), Main], 4)
            == State(Joining(0), false, false, false, Some(0), [0], [Worker(Cleared(true), false, 5, false)], [])
  {
    hide Next;
    var es := [Main, Accept(5), Clear(0, true), Main];
    FirstSteps();
    FlagSteps();
    assert RunTo(es, 2) == Next(Next(INIT, Main), Accept(5));
    assert RunTo(es, 4) == Next(Next(RunTo(es, 2), Clear(0, true)), Main);
  }

  lemma FlagSteps()
    ensures Next(Next(SERVED.(workers := [Worker(Serving, true, 5, false)]), Clear(0, true)), Main)
            == SERVED.(main := Joining(0), workers := [Worker(Cleared(true), false, 5, false)])
  {
    assert Next(SERVED.(workers := [Worker(Serving, true, 5, false)]), Clear(0, true))
        == SERVED.(workers := [Worker(Cleared(true), false, 5, false)]);
  }

  // ---------------------------------------------------------------------------------------
  // Main is never stuck

  /** The state that further events lead to. */
  ghost function After(s: State, es: seq<Event>): State
    decreases |es|
  {
    if es == [] then s else After(Next(s, es[0]), es[1..])
  }

  ghost function StepsLeft(pc: Pc): nat {
    match pc
    case Serving => 3
    case Cleared(_) => 2
    case Stored(_) => 1
    case Exited(_) => 0
  }

  ghost function AllLeft(workers: seq<Worker>, n: nat): nat
    requires n <= |workers|
  {
    if n == 0 then 0 else AllLeft(workers, n - 1) + StepsLeft(workers[n - 1].pc)
  }

  lemma {:induction false} AllLeftSet(workers: seq<Worker>, n: nat, w: nat, p: Worker)
    requires n <= |workers| && w < |workers|
    ensures AllLeft(workers[w := p], n) == AllLeft(workers, n) - if w < n then StepsLeft(workers[w].pc) - StepsLeft(p.pc) else 0
  {
    if n > 0 { AllLeftSet(workers, n - 1, w, p); }
  }

  ghost function MainPhase(main: MainPc): nat {
    if main.Scanning? || main.Joining? || main.Reading? then 3
    else if main.Checking? then 2
    else if main.Accepting? then 1
    else 0
  }

  ghost function MainPlace(main: MainPc): nat {
    match main
    case Scanning(_) => 2
    case Joining(_) => 1
    case Draining => 4
    case DrainJoining => 3
    case DrainReading => 2
    case Closing => 1
    case _ => 0
  }

  function NextStep(w: nat, pc: Pc): Event {
    match pc
    case Serving => Clear(w, false)
    case Cleared(_) => Store(w)
    case _ => Exit(w)
  }

  lemma WorkerAdvances(s: State, w: nat)
    requires w < |s.workers| && !s.workers[w].pc.Exited? && !s.main.Undefined?
    ensures var s' := Next(s, NextStep(w, s.workers[w].pc)); AllLeft(s'.workers, |s'.workers|) < AllLeft(s.workers, |s.workers|)
  {
    var s' := Next(s, NextStep(w, s.workers[w].pc));
    AllLeftSet(s.workers, |s.workers|, w, s'.workers[w]);
    assert s'.workers == s.workers[w := s'.workers[w]];
  }

  ghost predicate MainCloser(s: State, s': State) {
    && AllLeft(s'.workers, |s'.workers|) == AllLeft(s.workers, |s.workers|)
    && ( || MainPhase(s'.main) < MainPhase(s.main)
         || (MainPhase(s'.main) == MainPhase(s.main) && |s'.list| < |s.list|)
         || (MainPhase(s'.main) == MainPhase(s.main) && |s'.list| == |s.list| && MainPlace(s'.main) < MainPlace(s.main)))
  }

  lemma MainAdvances(s: State)
    requires Inv(s) && !s.main.Ended? && !s.main.Undefined?
    requires forall w :: 0 <= w < |s.workers| ==> s.workers[w].pc.Exited?
    ensures MainCloser(s, Next(s, if s.main.Accepting? then AcceptFails else Main))
  {
    hide Inv, AllLeft, Remove;
    ListedReady(s);
    match s.main
    case Reading(at) =>
      FreedKeepsSteps(s, at);
      Shorter(s.list, at);
    case DrainReading =>
      FreedKeepsSteps(s, 0);
      Shorter(s.list, 0);
    case Scanning(at) => if at < |s.list| { assert s.list[at] in s.list; }
    case DrainJoining => assert s.list[0] in s.list;
    case _ =>
  }

  lemma Shorter(list: seq<nat>, at: nat)
    requires at < |list|
    ensures |Remove(list, at)| == |list| - 1
  {
  }

  lemma ListedReady(s: State)
    requires Inv(s)
    requires forall w :: 0 <= w < |s.workers| ==> s.workers[w].pc.Exited?
    ensures forall w <- s.list :: HasExited(s, w) && !s.workers[w].isActive
    ensures MainOk(s)
  {
    assert forall w :: 0 <= w < |s.workers| ==> WorkerOk(s.workers[w]);
  }

  lemma FreedKeepsSteps(s: State, at: nat)
    requires at < |s.list| && s.list[at] < |s.workers|
    ensures var w := s.list[at];
      AllLeft(s.workers[w := s.workers[w].(freed := true)], |s.workers|) == AllLeft(s.workers, |s.workers|)
  {
    AllLeftSet(s.workers, |s.workers|, s.list[at], s.workers[s.list[at]].(freed := true));
  }

  /** From every reachable state but a lost one some continuation ends main: no interleaving leads
      into a deadlock. */
  lemma {:induction false} CanFinish(s: State) returns (es: seq<Event>)
    requires Inv(s) && !s.main.Undefined?
    ensures After(s, es).main.Ended?
    decreases AllLeft(s.workers, |s.workers|), MainPhase(s.main), |s.list|, MainPlace(s.main)
  {
    hide Inv, Next;
    if s.main.Ended? { return []; }
    var e := if s.main.Accepting? then AcceptFails else Main;
    if w :| 0 <= w < |s.workers| && !s.workers[w].pc.Exited? {
      e := NextStep(w, s.workers[w].pc);
      WorkerAdvances(s, w);
    } else {
      MainAdvances(s);
    }
    NextKeeps(s, e);
    StepWorkers(s, e);
    var rest := CanFinish(Next(s, e));
    es := [e] + rest;
    assert es[1..] == rest;
  }
}
