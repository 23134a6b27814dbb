/**
 The server's list of connections (server/src/aesdsocket.c): a singly linked list that the main
 thread appends to, and edits while it walks over it, joining the workers it sees inactive.

 Workers clear `isActive` whenever they like; a schedule says which ones do so before each visit.
 The value a worker leaves for its join is in `results`; Handoff shows that it is what join reads.
 */
module ConnectionLists {

  class ClEntry {
    var descriptor: int
    var isActive: bool
    var next: ClEntry?

    constructor (fd: int)
      ensures descriptor == fd && isActive && next == null
    {
      descriptor, isActive, next := fd, true, null;
    }
  }

  type Schedule = seq<set<ClEntry>>

  // ---------------------------------------------------------------------------------------
  // What a pass sees, and what it leaves

  /** The workers that finish before visit `k`. */
  function Workers(schedule: Schedule, k: nat): set<ClEntry> {
    if k < |schedule| then schedule[k] else {}
  }

  /** The workers still active when `k` visits have been prepared. */
  ghost function Active(running: set<ClEntry>, schedule: Schedule, k: nat): set<ClEntry> {
    if k == 0 then running else Active(running, schedule, k - 1) - Workers(schedule, k - 1)
  }

  /** The worker visited `k`-th is inactive by then. */
  ghost predicate Seen(nodes: seq<ClEntry>, running: set<ClEntry>, schedule: Schedule, k: nat)
    requires k < |nodes|
  {
    nodes[k] !in Active(running, schedule, k + 1)
  }

  /** A worker is inactive once it was so at the beginning or its turn to finish has come. */
  lemma {:induction false} ActiveMeaning(n: ClEntry, running: set<ClEntry>, schedule: Schedule, k: nat)
    ensures n in Active(running, schedule, k) <==> n in running && forall j: nat :: j < k ==> n !in Workers(schedule, j)
  {
    if k > 0 { ActiveMeaning(n, running, schedule, k - 1); }
  }

  /** Of the first `k` workers those seen inactive, in the order of the list. */
  ghost function Reaped(nodes: seq<ClEntry>, running: set<ClEntry>, schedule: Schedule, k: nat): seq<ClEntry>
    requires k <= |nodes|
  {
    if k == 0 then []
    else Reaped(nodes, running, schedule, k - 1) + if Seen(nodes, running, schedule, k - 1) then [nodes[k - 1]] else []
  }

  /** ... and the others. */
  ghost function Survivors(nodes: seq<ClEntry>, running: set<ClEntry>, schedule: Schedule, k: nat): seq<ClEntry>
    requires k <= |nodes|
  {
    if k == 0 then []
    else Survivors(nodes, running, schedule, k - 1) + if Seen(nodes, running, schedule, k - 1) then [] else [nodes[k - 1]]
  }

  ghost predicate Distinct(s: seq<ClEntry>) {
    forall i, j :: 0 <= i < j < |s| ==> s[i] != s[j]
  }

  /** `s` with `x` put in before index `at`. */
  ghost function Inserted(s: seq<ClEntry>, at: nat, x: ClEntry): seq<ClEntry>
    requires at <= |s|
  {
    s[..at] + [x] + s[at..]
  }

  ghost function Source(s: seq<ClEntry>, at: nat, x: ClEntry, i: nat): ClEntry
    requires at <= |s| && i <= |s|
  {
    if i < at then s[i] else if i == at then x else s[i - 1]
  }

  lemma InsertedAt(s: seq<ClEntry>, at: nat, x: ClEntry)
    requires at <= |s|
    ensures |Inserted(s, at, x)| == |s| + 1
    ensures forall i :: 0 <= i <= |s| ==> Inserted(s, at, x)[i] == Source(s, at, x, i)
  {
  }

  lemma DistinctInsert(s: seq<ClEntry>, at: nat, x: ClEntry)
    requires Distinct(s) && at <= |s| && x !in s
    ensures Distinct(Inserted(s, at, x))
  {
    InsertedAt(s, at, x);
    hide Inserted;
  }

  lemma DistinctFrom(s: seq<ClEntry>, at: nat)
    requires Distinct(s) && at < |s|
    ensures forall i :: 0 <= i < |s| && i != at ==> s[i] != s[at]
  {
  }

  /** `s` without the element at index `at`. */
  ghost function Without(s: seq<ClEntry>, at: nat): seq<ClEntry>
    requires at < |s|
  {
    s[..at] + s[at + 1..]
  }

  lemma WithoutAt(s: seq<ClEntry>, at: nat)
    requires at < |s|
    ensures |Without(s, at)| == |s| - 1
    ensures forall i :: 0 <= i < |s| - 1 ==> Without(s, at)[i] == Shifted(s, at, i)
  {
  }

  ghost function Shifted(s: seq<ClEntry>, at: nat, i: nat): ClEntry
    requires at < |s| && i < |s| - 1
  {
    if i < at then s[i] else s[i + 1]
  }

  lemma DistinctWithout(s: seq<ClEntry>, at: nat)
    requires Distinct(s) && at < |s|
    ensures Distinct(Without(s, at)) && s[at] !in Without(s, at)
  {
    WithoutAt(s, at);
    hide Without;
  }

  /** The reaped are exactly the workers seen inactive, the survivors exactly the others. */
  lemma {:induction false} Membership(nodes: seq<ClEntry>, running: set<ClEntry>, schedule: Schedule, k: nat, j: nat)
    requires k <= |nodes| && j < |nodes| && Distinct(nodes)
    ensures nodes[j] in Reaped(nodes, running, schedule, k) <==> j < k && Seen(nodes, running, schedule, j)
    ensures nodes[j] in Survivors(nodes, running, schedule, k) <==> j < k && !Seen(nodes, running, schedule, j)
  {
    hide Seen;
    if k > 0 { Membership(nodes, running, schedule, k - 1, j); }
  }

  /** No worker is reaped twice, and none is lost. */
  lemma {:induction false} OnceEach(nodes: seq<ClEntry>, running: set<ClEntry>, schedule: Schedule, k: nat)
    requires k <= |nodes| && Distinct(nodes)
    ensures Distinct(Reaped(nodes, running, schedule, k)) && Distinct(Survivors(nodes, running, schedule, k))
    ensures |Reaped(nodes, running, schedule, k)| + |Survivors(nodes, running, schedule, k)| == k
  {
    hide Seen;
    if k > 0 {
      OnceEach(nodes, running, schedule, k - 1);
      Membership(nodes, running, schedule, k - 1, k - 1);
    }
  }

  /** Survivors stay in the order they had. */
  lemma {:induction false} OrderKept(nodes: seq<ClEntry>, running: set<ClEntry>, schedule: Schedule, k: nat, a: nat, b: nat)
    returns (i: nat, j: nat)
    requires k <= |nodes|
    requires a < b < |Survivors(nodes, running, schedule, k)|
    ensures i < j < k
    ensures nodes[i] == Survivors(nodes, running, schedule, k)[a] && nodes[j] == Survivors(nodes, running, schedule, k)[b]
    decreases k
  {
    var before := Survivors(nodes, running, schedule, k - 1);
    if b < |before| {
      i, j := OrderKept(nodes, running, schedule, k - 1, a, b);
    } else {
      j := k - 1;
      i := Position(nodes, running, schedule, k - 1, a);
    }
  }

  lemma {:induction false} Position(nodes: seq<ClEntry>, running: set<ClEntry>, schedule: Schedule, k: nat, a: nat) returns (i: nat)
    requires k <= |nodes| && a < |Survivors(nodes, running, schedule, k)|
    ensures i < k && nodes[i] == Survivors(nodes, running, schedule, k)[a]
    decreases k
  {
    if a < |Survivors(nodes, running, schedule, k - 1)| {
      i := Position(nodes, running, schedule, k - 1, a);
    } else {
      i := k - 1;
    }
  }

  // ---------------------------------------------------------------------------------------
  // The list

  class ConnectionList {
    var first: ClEntry?
    ghost var spine: seq<ClEntry>
    /** The records that have been allocated and not freed. */
    var live: set<ClEntry>

    ghost predicate Valid()
      reads this, spine
    {
      && Distinct(spine)
      && (forall n <- spine :: n in live)
      && first == At(spine, 0)
      && forall i :: 0 <= i < |spine| ==> spine[i].next == At(spine, i + 1)
    }

    /** `tail` is NULL on an empty list, otherwise the last record on it. */
    ghost predicate TailOk(tail: ClEntry?)
      reads this
    {
      if spine == [] then tail == null else tail == spine[|spine| - 1]
    }

    /** SLIST_INIT. */
    constructor ()
      ensures Valid() && spine == [] && live == {}
    {
      first, spine, live := null, [], {};
    }

    /** SLIST_INSERT_HEAD. */
    method InsertHead(connection: ClEntry)
      requires Valid() && connection !in live
      modifies this, connection`next
      ensures Valid()
      ensures spine == [connection] + old(spine)
      ensures live == old(live) + {connection}
    {
      connection.next := first;
      first := connection;
      spine := [connection] + spine;
      live := live + {connection};
    }

    /** SLIST_INSERT_AFTER, where `tail` is the record before index `at`. */
    method InsertAfter(tail: ClEntry, connection: ClEntry, ghost at: nat)
      requires Valid() && connection !in live
      requires 0 < at <= |spine| && spine[at - 1] == tail
      modifies this, tail`next, connection`next
      ensures Valid()
      ensures spine == Inserted(old(spine), at, connection)
      ensures live == old(live) + {connection}
    {
      hide Distinct, Inserted;
      DistinctInsert(spine, at, connection);
      InsertedAt(spine, at, connection);
      DistinctFrom(spine, at - 1);
      connection.next := tail.next;
      tail.next := connection;
      spine := Inserted(spine, at, connection);
      live := live + {connection};
    }

    /** SLIST_REMOVE_HEAD. */
    method RemoveHead()
      requires Valid() && spine != []
      modifies this`first, this`spine
      ensures Valid() && spine == old(spine)[1..] && first == At(spine, 0)
    {
      first := first.next;
      spine := spine[1..];
    }

    /** Unlinks the record after `cur`, which is the one at index `at`. */
    method RemoveAfter(cur: ClEntry, ghost at: nat)
      requires Valid() && 0 < at < |spine| && spine[at - 1] == cur
      modifies this`spine, cur`next
      ensures Valid() && spine == Without(old(spine), at)
    {
      hide Distinct, Without;
      DistinctWithout(spine, at);
      WithoutAt(spine, at);
      DistinctFrom(spine, at - 1);
      cur.next := cur.next.next;
      spine := Without(spine, at);
    }

    /** SLIST_REMOVE: walks from the head to the record before `entry`. */
    method Remove(entry: ClEntry, ghost at: nat)
      requires Valid() && at < |spine| && spine[at] == entry
      modifies this`first, this`spine, spine`next
      ensures Valid() && spine == Without(old(spine), at)
    {
      DistinctFrom(spine, at);
      hide Distinct;
      if first == entry {
        RemoveHead();
      } else {
        var cur := first;
        ghost var i := 0;
        while cur.next != entry
          invariant 0 <= i < at && cur == spine[i]
          decreases at - i
        {
          cur := cur.next;
          i := i + 1;
        }
        RemoveAfter(cur, at);
      }
    }

    /** What workers do meanwhile: those in `workers` that are still active clear their flags. */
    method Finish(workers: set<ClEntry>, ghost start: set<ClEntry>)
      requires workers <= start && live <= start && ActiveIn(start) <= live
      modifies live`isActive
      ensures ActiveIn(start) == old(ActiveIn(start)) - workers
      ensures Valid() == old(Valid())
    {
      forall n | n in workers && n.isActive { n.isActive := false; }
    }

    /** Takes a joined worker's record off the list, frees it, and moves on to the one after it. */
    method Release(previous: ClEntry?, entry: ClEntry, ghost at: nat) returns (following: ClEntry?)
      requires Valid() && at < |spine| && spine[at] == entry
      requires previous == if at == 0 then null else spine[at - 1]
      modifies this, spine`next
      ensures Valid() && spine == Without(old(spine), at) && live == old(live) - {entry}
      ensures following == At(spine, at)
    {
      DistinctWithout(spine, at);
      WithoutAt(spine, at);
      hide Distinct, Without;
      Remove(entry, at);
      live := live - {entry};
      if previous != null {
        assert previous == spine[at - 1];
        following := previous.next;
      } else {
        following := first;
      }
    }

    /** One visit of the join loop, to the record at index `at`, after `workers` have finished. */
    method Visit(previous: ClEntry?, current: ClEntry, workers: set<ClEntry>, ghost at: nat, ghost start: set<ClEntry>)
      returns (seen: bool, previous': ClEntry?, current': ClEntry?)
      requires Valid() && at < |spine| && spine[at] == current
      requires previous == if at == 0 then null else spine[at - 1]
      requires workers <= start && live <= start && ActiveIn(start) <= live
      modifies this, live`next, live`isActive
      ensures Valid()
      ensures seen <==> current !in ActiveIn(start)
      ensures spine == (if seen then Without(old(spine), at) else old(spine))
      ensures live == if seen then old(live) - {current} else old(live)
      ensures ActiveIn(start) == old(ActiveIn(start)) - workers
      ensures previous' == if seen then previous else current
      ensures current' == At(spine, if seen then at else at + 1)
    {
      hide Distinct, Without;
      Finish(workers, start);
      seen, previous' := !current.isActive, previous;
      if seen {
        current' := Release(previous, current, at);
      } else {
        previous' := current;
        current' := current.next;
      }
    }

    /** The list in the middle of a pass, when `i` workers have been visited: `left` are those passed
        over, `joined` those removed. `nodes` were on the list, `start` allocated and `running`
        active when the pass began. */
    ghost predicate Midway(nodes: seq<ClEntry>, running: set<ClEntry>, start: set<ClEntry>, schedule: Schedule,
                           i: nat, left: seq<ClEntry>, joined: seq<ClEntry>)
      reads this, spine, start
    {
      && Valid() && i <= |nodes|
      && left == Survivors(nodes, running, schedule, i) && spine == left + nodes[i..]
      && joined == Reaped(nodes, running, schedule, i)
      && live == start - Elements(joined)
      && ActiveIn(start) == Active(running, schedule, i) && ActiveIn(start) <= live
    }

    lemma MidwayStart(nodes: seq<ClEntry>, running: set<ClEntry>, start: set<ClEntry>, schedule: Schedule)
      requires Valid() && nodes == spine && start == live && running == ActiveIn(live)
      ensures Midway(nodes, running, start, schedule, 0, [], []) && first == At(nodes, 0)
    {
      hide Distinct;
      ReapStart(nodes, running, schedule);
    }

    lemma MidwayEnd(nodes: seq<ClEntry>, running: set<ClEntry>, start: set<ClEntry>, schedule: Schedule,
                    left: seq<ClEntry>, joined: seq<ClEntry>)
      requires Midway(nodes, running, start, schedule, |nodes|, left, joined)
      ensures Valid() && spine == left && live == start - Elements(joined)
      ensures left == Survivors(nodes, running, schedule, |nodes|) && joined == Reaped(nodes, running, schedule, |nodes|)
      ensures ActiveIn(start) == Active(running, schedule, |nodes|)
    {
    }

    /** The visit to the worker at index `i` of `nodes`. */
    method VisitNext(ghost nodes: seq<ClEntry>, ghost running: set<ClEntry>, ghost start: set<ClEntry>, schedule: Schedule,
                     i: nat, ghost left: seq<ClEntry>, ghost joined: seq<ClEntry>, previous: ClEntry?, current: ClEntry)
      returns (seen: bool, previous': ClEntry?, current': ClEntry?)
      requires Midway(nodes, running, start, schedule, i, left, joined) && i < |nodes|
      requires current == nodes[i] && previous == LastOf(left)
      requires Workers(schedule, i) <= start
      modifies this, live`next, live`isActive
      ensures seen == Seen(nodes, running, schedule, i)
      ensures var (left', joined') := if seen then (left, joined + [current]) else (left + [current], joined);
        && Midway(nodes, running, start, schedule, i + 1, left', joined')
        && previous' == LastOf(left')
      ensures current' == At(nodes, i + 1) && live <= old(live)
    {
      hide Distinct, Seen, Without, Survivors, Reaped, Active, Elements, Workers, ActiveIn, Valid;
      ReapStep(nodes, running, schedule, i);
      Middle(left, nodes, i);
      ElementsStep(joined, current, start);
      seen, previous', current' := Visit(previous, current, Workers(schedule, i), |left|, start);
    }

    /** The join loop. */
    method Reap(schedule: Schedule, results: ClEntry -> int, aborted: bool)
      returns (abort: bool, joined: seq<ClEntry>, ghost visited: seq<ClEntry>)
      requires Valid()
      requires forall k: nat :: Workers(schedule, k) <= live
      modifies this, live`next, live`isActive
      ensures Valid()
      ensures visited == old(spine)
      ensures var running := old(ActiveIn(live));
        && joined == Reaped(old(spine), running, schedule, |visited|)
        && spine == Survivors(old(spine), running, schedule, |visited|)
        && ActiveIn(old(live)) == Active(running, schedule, |visited|)
      ensures abort == (aborted || AnyFailed(joined, results))
      ensures live == old(live) - Elements(joined)
    {
      hide Distinct, Seen, Survivors, Reaped, AnyFailed, Active, Elements, Workers, ActiveIn, Valid, Midway;
      abort, joined, visited := aborted, [], [];
      ghost var nodes, running, start := spine, ActiveIn(live), live;
      ghost var left: seq<ClEntry> := [];
      var previous: ClEntry?, current, i := null, first, 0;
      MidwayStart(nodes, running, start, schedule);
      NoneFailed(results);
      while current != null
        invariant 0 <= i <= |nodes| && Midway(nodes, running, start, schedule, i, left, joined)
        invariant visited == nodes[..i] && current == At(nodes, i) && previous == LastOf(left)
        invariant abort == (aborted || AnyFailed(joined, results))
        invariant live <= start
        decreases |nodes| - i
      {
        var visiting, seen := current, false;
        seen, previous, current := VisitNext(nodes, running, start, schedule, i, left, joined, previous, current);
        if seen {
          FailedStep(joined, visiting, results);
          joined := joined + [visiting];
          abort := abort || results(visiting) < 0;
        } else {
          left := left + [visiting];
        }
        visited := visited + [visiting];
        i := i + 1;
      }
      MidwayEnd(nodes, running, start, schedule, left, joined);
    }

    /** `tail` is the address of a record that has been freed. */
    ghost predicate Stale(tail: ClEntry?)
      reads this
    {
      tail != null && tail !in live
    }

    /** One round of the main loop: a new connection, if there is one, and a pass of the join loop.
        With a stale `tail` an insertion writes into a freed record; the round is then not defined.
        Otherwise `tail'` can serve the next insertion if and only if `tail` could serve this one and
        the last worker on the list was not reaped; if it cannot, it is stale. */
    method Round(accepted: ClEntry?, tail: ClEntry?, schedule: Schedule, results: ClEntry -> int, aborted: bool)
      returns (defined: bool, tail': ClEntry?, abort: bool, joined: seq<ClEntry>)
      requires Valid() && (TailOk(tail) || Stale(tail))
      requires accepted != null ==> accepted !in live && accepted.isActive
      requires forall k: nat :: Workers(schedule, k) <= live + Elements(Maybe(accepted))
      modifies this, live`next, live`isActive, Elements(Maybe(accepted))
      ensures Valid()
      ensures !defined <==> accepted != null && old(Stale(tail))
      ensures defined ==> var nodes, running := old(spine) + Maybe(accepted), old(ActiveIn(live)) + Elements(Maybe(accepted));
        && joined == Reaped(nodes, running, schedule, |nodes|)
        && spine == Survivors(nodes, running, schedule, |nodes|)
        && abort == (aborted || AnyFailed(joined, results))
        && live == old(live) + Elements(Maybe(accepted)) - Elements(joined)
        && tail' == (if accepted != null then accepted else tail)
        && (TailOk(tail') <==> old(TailOk(tail)) && (nodes == [] || !Seen(nodes, running, schedule, |nodes| - 1)))
        && (TailOk(tail') || Stale(tail'))
    {
      hide Distinct, Seen, Survivors, Reaped, AnyFailed, Active, Workers, Midway, ActiveIn, Elements, Valid;
      MaybeElements(accepted);
      TailApart(tail);
      defined, tail', abort, joined := true, tail, aborted, [];
      if accepted != null {
        if tail != null && tail !in live {
          defined := false;
          return;
        }
        Append(accepted, tail);
        tail' := accepted;
      }
      ghost var nodes, running := spine, ActiveIn(live);
      assert nodes == old(spine) + Maybe(accepted);
      assert running == old(ActiveIn(live)) + Elements(Maybe(accepted));
      DistinctSpine();
      ghost var visited;
      abort, joined, visited := Reap(schedule, results, aborted);
      TailApart(tail');
      if nodes != [] {
        TailAfter(nodes, running, schedule);
        ElementsHas(joined, nodes[|nodes| - 1]);
      } else {
        ReapStart(nodes, running, schedule);
      }
    }

    lemma TailApart(tail: ClEntry?)
      requires Valid()
      ensures !(TailOk(tail) && Stale(tail))
    {
    }

    /** Inserts after `tail`, or at the head of an empty list: in both cases at the end. */
    method Append(connection: ClEntry, tail: ClEntry?)
      requires Valid() && TailOk(tail) && connection !in live
      modifies this, live`next, connection`next
      ensures Valid() && TailOk(connection)
      ensures spine == old(spine) + [connection] && live == old(live) + {connection}
      ensures ActiveIn(live) == old(ActiveIn(live)) + if connection.isActive then {connection} else {}
    {
      hide Distinct, Inserted;
      InsertedAtEnd(spine, connection);
      if tail != null {
        InsertAfter(tail, connection, |spine|);
      } else {
        InsertHead(connection);
      }
    }

    /** Takes the first record off the list and frees it. */
    method PopHead(connection: ClEntry)
      requires Valid() && first == connection
      modifies this
      ensures Valid() && old(spine) == [connection] + spine && first == At(spine, 0)
      ensures live == old(live) - {connection}
    {
      RemoveHead();
      live := live - {connection};
    }

    lemma DistinctSpine()
      requires Valid()
      ensures Distinct(spine) && first == At(spine, 0)
    {
    }

    /** The loop after the main loop: joins whoever is left, from the head on. */
    method Drain(results: ClEntry -> int, aborted: bool) returns (abort: bool, joined: seq<ClEntry>)
      requires Valid()
      modifies this
      ensures Valid() && spine == [] && first == null
      ensures joined == old(spine)
      ensures abort == (aborted || AnyFailed(joined, results))
      ensures live == old(live) - Elements(joined)
    {
      hide Distinct, AnyFailed, Elements, Valid;
      DistinctSpine();
      abort, joined := aborted, [];
      NoneFailed(results);
      ReapStart([], {}, []);
      while first != null
        invariant Valid() && old(spine) == joined + spine && first == At(spine, 0)
        invariant abort == (aborted || AnyFailed(joined, results))
        invariant live == old(live) - Elements(joined)
        decreases |spine|
      {
        var connection := first;
        abort := abort || results(connection) < 0;
        FailedStep(joined, connection, results);
        ElementsStep(joined, connection, old(live));
        joined := joined + [connection];
        PopHead(connection);
      }
    }
  }

  function Maybe(n: ClEntry?): seq<ClEntry> {
    if n == null then [] else [n]
  }

  lemma MaybeElements(n: ClEntry?)
    ensures Elements(Maybe(n)) == if n == null then {} else {n}
  {
  }

  lemma ElementsHas(s: seq<ClEntry>, n: ClEntry)
    ensures n in Elements(s) <==> n in s
  {
  }

  lemma InsertedAtEnd(s: seq<ClEntry>, x: ClEntry)
    ensures Inserted(s, |s|, x) == s + [x]
  {
  }

  /** After a pass the list still ends with the worker it ended with, unless that one was reaped. */
  lemma TailAfter(nodes: seq<ClEntry>, running: set<ClEntry>, schedule: Schedule)
    requires nodes != [] && Distinct(nodes)
    ensures var last, left := nodes[|nodes| - 1], Survivors(nodes, running, schedule, |nodes|);
      if Seen(nodes, running, schedule, |nodes| - 1)
      then last !in left && last in Reaped(nodes, running, schedule, |nodes|)
      else left != [] && left[|left| - 1] == last
  {
    Membership(nodes, running, schedule, |nodes|, |nodes| - 1);
  }

  /** A single connection that ends before the pass leaves `tail` pointing to a freed record. */
  method StaleTail(c: ClEntry) returns (list: ConnectionList, tail: ClEntry?)
    requires c.isActive
    modifies c
    ensures fresh(list) && list.Valid() && list.spine == []
    ensures tail == c && c !in list.live && !list.TailOk(tail)
  {
    list := new ConnectionList();
    var defined, abort, joined;
    MaybeElements(c);
    assert Active({} + Elements(Maybe(c)), [{c}], 1) == {};
    assert [] + Maybe(c) == [c];
    defined, tail, abort, joined := list.Round(c, null, [{c}], n => 0, false);
    assert Seen([] + Maybe(c), {} + Elements(Maybe(c)), [{c}], 0);
  }

  ghost function LastOf(s: seq<ClEntry>): ClEntry? {
    if s == [] then null else s[|s| - 1]
  }

  ghost function ActiveIn(s: set<ClEntry>): (active: set<ClEntry>)
    reads s
    ensures active <= s
  {
    set n | n in s && n.isActive
  }

  ghost function Elements(s: seq<ClEntry>): set<ClEntry> {
    set n | n in s
  }

  ghost predicate AnyFailed(joined: seq<ClEntry>, results: ClEntry -> int) {
    exists n <- joined :: results(n) < 0
  }

  lemma ReapStart(nodes: seq<ClEntry>, running: set<ClEntry>, schedule: Schedule)
    ensures Survivors(nodes, running, schedule, 0) == [] && Reaped(nodes, running, schedule, 0) == []
    ensures Active(running, schedule, 0) == running && Elements([]) == {}
  {
  }

  lemma NoneFailed(results: ClEntry -> int)
    ensures !AnyFailed([], results)
  {
  }

  lemma FailedStep(joined: seq<ClEntry>, n: ClEntry, results: ClEntry -> int)
    ensures AnyFailed(joined + [n], results) <==> AnyFailed(joined, results) || results(n) < 0
  {
    assert forall m :: m in joined + [n] <==> m in joined || m == n;
  }

  lemma ElementsStep(joined: seq<ClEntry>, n: ClEntry, start: set<ClEntry>)
    ensures start - Elements(joined + [n]) == start - Elements(joined) - {n}
    ensures start - Elements(joined) <= start
  {
    assert forall m :: m in joined + [n] <==> m in joined || m == n;
  }

  lemma ReapStep(nodes: seq<ClEntry>, running: set<ClEntry>, schedule: Schedule, k: nat)
    requires k < |nodes|
    ensures Active(running, schedule, k + 1) == Active(running, schedule, k) - Workers(schedule, k)
    ensures Seen(nodes, running, schedule, k) <==> nodes[k] !in Active(running, schedule, k + 1)
    ensures var left, gone := Survivors(nodes, running, schedule, k), Reaped(nodes, running, schedule, k);
      && Survivors(nodes, running, schedule, k + 1) == (if Seen(nodes, running, schedule, k) then left else left + [nodes[k]])
      && Reaped(nodes, running, schedule, k + 1) == (if Seen(nodes, running, schedule, k) then gone + [nodes[k]] else gone)
  {
  }

  lemma Middle(left: seq<ClEntry>, nodes: seq<ClEntry>, k: nat)
    requires k < |nodes|
    ensures Without(left + nodes[k..], |left|) == left + nodes[k + 1..]
    ensures left + nodes[k..] == left + [nodes[k]] + nodes[k + 1..]
    ensures nodes[..k] + [nodes[k]] == nodes[..k + 1]
  {
  }

  /** The record at an index of the list, NULL past its end. */
  ghost function At(s: seq<ClEntry>, i: nat): ClEntry? {
    if i < |s| then s[i] else null
  }
}
