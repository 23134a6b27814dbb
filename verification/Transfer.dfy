/**
 The loops that push a buffer through a descriptor that may take less than it is given
 (server/src/utils.c putchars, server/src/socket.c sock_putchars; the two bodies are the same).

 The kernel's answers are a sequence of integers: negative for an error, otherwise the number of
 bytes taken, which never exceeds what was offered.
 */
module Transfer {
  import opened Bytes

  /** Most the server reads from a file, and sends, at a time. */
  const CONN_BUFSIZE: nat := 256

  /** What has come out at the other end of a descriptor. */
  class Sink {
    var received: Bytes

    constructor ()
      ensures received == []
    {
      received := [];
    }
  }

  /** 0, -1, or still in the loop when the answers given so far run out. */
  datatype Status = Success | Failure | Running

  /** Bytes of an `n`-byte buffer the first `k` answers take. */
  function Taken(results: seq<int>, k: nat, n: nat): (t: nat)
    requires k <= |results|
    ensures t <= n
  {
    if k == 0 then 0
    else
      var before := Taken(results, k - 1, n);
      if results[k - 1] < 0 then before else before + Min(results[k - 1], n - before)
  }

  /** The loop is still running before answer `k`: no error yet and bytes left. */
  ghost predicate Unfinished(results: seq<int>, k: nat, n: nat)
    requires k <= |results|
  {
    (forall i :: 0 <= i < k ==> results[i] >= 0) && Taken(results, k, n) < n
  }

  method PutChars(sink: Sink, buffer: Bytes, results: seq<int>) returns (status: Status, ghost used: nat)
    modifies sink
    ensures used <= |results|
    ensures sink.received == old(sink.received) + buffer[..Taken(results, used, |buffer|)]
    ensures status.Success? ==> Taken(results, used, |buffer|) == |buffer|
    ensures status.Failure? ==> 0 < used && results[used - 1] < 0 && Unfinished(results, used - 1, |buffer|)
    ensures status.Running? ==> used == |results| && Unfinished(results, used, |buffer|)
    ensures forall k :: 0 <= k < used ==> Unfinished(results, k, |buffer|)
  {
    var bytesLeft := |buffer|;
    var bufHead := 0;
    used := 0;
    var next := 0;
    while bytesLeft > 0
      invariant next == used <= |results|
      invariant bufHead + bytesLeft == |buffer| && bufHead == Taken(results, used, |buffer|)
      invariant sink.received == old(sink.received) + buffer[..bufHead]
      invariant forall i :: 0 <= i < used ==> results[i] >= 0
      invariant forall k :: 0 <= k < used ==> Unfinished(results, k, |buffer|)
      decreases |results| - used
    {
      if next == |results| {
        return Running, used;
      }
      assert Unfinished(results, used, |buffer|);
      var bytesSent := results[next];
      next, used := next + 1, used + 1;
      if bytesSent < 0 {
        return Failure, used;
      }
      bytesSent := Min(bytesSent, bytesLeft);
      sink.received := sink.received + buffer[bufHead..bufHead + bytesSent];
      assert buffer[..bufHead + bytesSent] == buffer[..bufHead] + buffer[bufHead..bufHead + bytesSent];
      bytesLeft := bytesLeft - bytesSent;
      bufHead := bufHead + bytesSent;
    }
    status := Success;
  }

  /** Positive answers finish the loop after at most as many of them as there are bytes. */
  lemma {:induction false} PositiveAnswersFinish(results: seq<int>, k: nat, n: nat)
    requires k <= |results| && forall i :: 0 <= i < k ==> results[i] > 0
    ensures Taken(results, k, n) >= Min(k, n)
    ensures k >= n ==> !Unfinished(results, k, n)
  {
    if k > 0 {
      PositiveAnswersFinish(results, k - 1, n);
    }
  }

  /** Without errors the loop ends exactly when the answers add up to the buffer. */
  lemma {:induction false} TakenIsSum(results: seq<int>, k: nat, n: nat)
    requires k <= |results| && forall i :: 0 <= i < k ==> results[i] >= 0
    ensures Taken(results, k, n) == Min(Sum(results, k), n)
    ensures Unfinished(results, k, n) <==> Sum(results, k) < n
  {
    if k > 0 {
      TakenIsSum(results, k - 1, n);
    }
  }

  function Sum(results: seq<int>, k: nat): int
    requires k <= |results|
  {
    if k == 0 then 0 else Sum(results, k - 1) + results[k - 1]
  }
}
