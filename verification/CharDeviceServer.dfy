/**
 conn_handler over the character device (server/src/connection.c built with
 USE_AESD_CHAR_DEVICE): from the packet to what the client receives.
 */
module CharDeviceServer {
  import opened Bytes
  import opened CircularBuffers
  import opened DeviceModel
  import opened DeviceMeaning
  import opened DeviceRuns
  import opened DeviceLaws
  import opened AesdDevice
  import Transfer
  import SeekCommand

  /** The stream between two positions, as received behind `before`. */
  ghost predicate Sent(before: Bytes, after: Bytes, s: Bytes, from: int, to: int) {
    0 <= from <= to <= |s| && after == before + s[from..to]
  }

  lemma SentOn(before: Bytes, mid: Bytes, s: Bytes, from: int, to: int, further: int, t: nat)
    requires Sent(before, mid, s, from, to) && to <= further <= |s| && t <= further - to
    ensures Sent(before, mid + s[to..further][..t], s, from, to + t)
  {
    assert s[to..further][..t] == s[to..to + t];
    assert s[from..to + t] == s[from..to] + s[to..to + t];
  }

  /** One read of the copy loop. */
  method ReadChunk(dev: CharDevice, filp: OpenFile) returns (n: int, data: Bytes)
    requires dev.Valid() && IsOffset(filp.fPos) && 0 <= filp.fPos <= |Abs(dev.State()).Stream()|
    modifies filp
    ensures IsOffset(filp.fPos)
    ensures old(filp.fPos) <= filp.fPos <= |Abs(dev.State()).Stream()|
    ensures n == |data| == filp.fPos - old(filp.fPos)
    ensures data == Abs(dev.State()).Stream()[old(filp.fPos)..filp.fPos]
    ensures n == 0 <==> old(filp.fPos) == |Abs(dev.State()).Stream()|
    ensures n <= Transfer.CONN_BUFSIZE
  {
    hide DoCall, Holds, IsRead;
    var call := Read(Transfer.CONN_BUFSIZE, false, false);
    ReadMeaning(dev.State(), filp.fPos, call);
    CallKeepsValid(dev.State(), filp.fPos, call);
    ghost var o := DoCall(dev.State(), filp.fPos, call);
    ReadIsSlice(View(dev.State()), filp.fPos, Transfer.CONN_BUFSIZE, o.fPos, o.ret);
    n, data := dev.Read(filp, Transfer.CONN_BUFSIZE, false, false);
  }

  /** The socket takes something every time, and is asked often enough to take `n` bytes. */
  ghost predicate Willing(sends: seq<seq<int>>, n: nat) {
    && |sends| >= n
    && forall k :: 0 <= k < |sends| ==> |sends[k]| >= Transfer.CONN_BUFSIZE && AllPositive(sends[k])
  }

  ghost predicate AllPositive(results: seq<int>) {
    forall i :: 0 <= i < |results| ==> results[i] > 0
  }

  /** One chunk through sock_putchars. */
  method SendChunk(sock: Transfer.Sink, data: Bytes, results: seq<int>) returns (ok: bool, ghost t: nat)
    requires |data| <= Transfer.CONN_BUFSIZE
    modifies sock
    ensures t <= |data| && sock.received == old(sock.received) + data[..t]
    ensures ok <==> t == |data|
    ensures |results| >= Transfer.CONN_BUFSIZE && AllPositive(results) ==> ok
  {
    var status;
    ghost var used;
    status, used := Transfer.PutChars(sock, data, results);
    t := Transfer.Taken(results, used, |data|);
    ok := status == Transfer.Success;
    if AllPositive(results) {
      Transfer.PositiveAnswersFinish(results, used, |data|);
    }
  }

  /**
   The copy loop. `sends` are the socket's answers chunk by chunk. Whatever they are, the client
   has received the stream from the position on up to `to`, and the loop ends well exactly when
   that is all of it; a willing socket gets all of it.
   */
  method SendFile(dev: CharDevice, filp: OpenFile, sock: Transfer.Sink, sends: seq<seq<int>>) returns (ok: bool, ghost to: nat)
    requires dev.Valid() && IsOffset(filp.fPos) && 0 <= filp.fPos <= |Abs(dev.State()).Stream()|
    modifies filp, sock
    ensures Sent(old(sock.received), sock.received, Abs(dev.State()).Stream(), old(filp.fPos), to)
    ensures ok <==> to == |Abs(dev.State()).Stream()|
    ensures Willing(sends, |Abs(dev.State()).Stream()|) ==> ok
  {
    hide Holds, Abs;
    ghost var s := Abs(dev.State()).Stream();
    var k := 0;
    while true
      invariant IsOffset(filp.fPos) && 0 <= filp.fPos <= |s| && s == Abs(dev.State()).Stream()
      invariant k <= filp.fPos
      invariant Sent(old(sock.received), sock.received, s, old(filp.fPos), filp.fPos)
      decreases |s| - filp.fPos
    {
      ghost var at := filp.fPos;
      var n, data := ReadChunk(dev, filp);
      if n <= 0 {
        return true, filp.fPos;
      }
      ghost var mid := sock.received;
      var sent;
      ghost var t;
      sent, t := SendChunk(sock, data, if k < |sends| then sends[k] else []);
      SentOn(old(sock.received), mid, s, old(filp.fPos), at, filp.fPos, t);
      if !sent {
        return false, at + t;
      }
      k := k + 1;
    }
  }

  /** The client has received the first `n` bytes of `due`, and it was an abort if there are more. */
  ghost predicate Served(before: Bytes, after: Bytes, due: Bytes, n: nat, aborted: bool) {
    n <= |due| && after == before + due[..n] && (aborted <==> n < |due|)
  }

  /**
   A whole connection, from an open file at position 0 and the packet as sock_getline returns it:
   the memory it is in and its length. A seek command leaves the device alone; for a stored pair the
   rest of the command it names and the later ones are sent, for any other the connection aborts.
   Any other packet, unless its write fails, is appended to the pending bytes and then the whole
   ring sent. `n` bytes are sent, all that are due unless the socket fails. Nothing is said of a
   command whose parsing leaves the memory.
   */
  method Serve(dev: CharDevice, filp: OpenFile, sock: Transfer.Sink, mem: Bytes, size: nat, noMemory: bool, interrupted: bool,
               sends: seq<seq<int>>) returns (aborted: bool, ghost n: nat)
    requires dev.Valid() && filp.fPos == 0
    requires size <= |mem| && size < HEAP_LIMIT
    modifies dev, dev.buffer, dev.buffer.entry, filp, sock
    ensures dev.Valid()
    ensures SeekCommand.IsData(mem) ==>
              if size > 0 && WriteFails(old(dev.State()), Write(mem[..size], interrupted, noMemory, false))
              then aborted && Abs(dev.State()) == old(Abs(dev.State())) && sock.received == old(sock.received)
              else Abs(dev.State()) == (if size > 0 then old(Abs(dev.State())).Append(mem[..size]) else old(Abs(dev.State())))
                   && Served(old(sock.received), sock.received, Abs(dev.State()).Stream(), n, aborted)
                   && (Willing(sends, |Abs(dev.State()).Stream()|) ==> !aborted)
    ensures match SeekCommand.Parse(mem)
            case NotSeek => SeekCommand.IsData(mem)
            case Abort =>
              aborted && dev.State() == old(dev.State()) && sock.received == old(sock.received)
            case SeekTo(k, b) =>
              var v := old(View(dev.State()));
              && dev.State() == old(dev.State())
              && if k < |v| && b < |v[k]|
                 then Served(old(sock.received), sock.received, v[k][b..] + Flatten(v[k + 1..]), n, aborted)
                      && (Willing(sends, |Abs(dev.State()).Stream()|) ==> !aborted)
                 else aborted && sock.received == old(sock.received)
            case Stray => true
  {
    hide SeekCommand.Parse, SeekCommand.IsData, Served, Willing, Flatten, View, Holds, WriteFails;
    SeekCommand.DataPacket(mem);
    var parsed := SeekCommand.ParseSeek(mem);
    match parsed
    case Abort => aborted, n := true, 0;
    case SeekTo(k, b) => aborted, n := ServeSeek(dev, filp, sock, k, b, sends);
    case NotSeek => aborted, n := ServeWrite(dev, filp, sock, mem[..size], noMemory, interrupted, sends);
    case Stray => aborted, n := true, 0;
  }

  method ServeSeek(dev: CharDevice, filp: OpenFile, sock: Transfer.Sink, k: nat, b: nat, sends: seq<seq<int>>)
    returns (aborted: bool, ghost n: nat)
    requires dev.Valid() && filp.fPos == 0 && k < SeekCommand.UINT_RANGE && b < SeekCommand.UINT_RANGE
    modifies filp, sock
    ensures var v := View(dev.State());
            if k < |v| && b < |v[k]|
            then Served(old(sock.received), sock.received, v[k][b..] + Flatten(v[k + 1..]), n, aborted)
                 && (Willing(sends, |Abs(dev.State()).Stream()|) ==> !aborted)
            else aborted && sock.received == old(sock.received)
  {
    hide Holds, DoCall, SeekLands, Sent, Flatten, View, Served, Willing;
    var call := SeekTo(k, b, false, false);
    SeekMeaning(dev.State(), filp.fPos, call);
    CallKeepsValid(dev.State(), filp.fPos, call);
    ghost var v, before := View(dev.State()), sock.received;
    var error := dev.Ioctl(filp, AESDCHAR_IOCSEEKTO, k, b, false, false);
    if error < 0 {
      return true, 0;
    }
    ghost var p := filp.fPos;
    SeekInside(dev.State().ring.Queue(), v, p, k, b);
    var ok;
    ghost var to;
    ok, to := SendFile(dev, filp, sock, sends);
    SeekSent(dev.State().ring.Queue(), v, p, k, b, before, sock.received, to, ok);
    aborted, n := !ok, to - p;
  }

  lemma SeekInside(q: seq<Entry>, v: seq<Bytes>, p: nat, k: nat, b: nat)
    requires SeekLands(q, v, p, k, b)
    ensures p <= |Flatten(v)|
  {
  }

  lemma SeekSent(q: seq<Entry>, v: seq<Bytes>, p: nat, k: nat, b: nat, before: Bytes, after: Bytes, to: nat, ok: bool)
    requires SeekLands(q, v, p, k, b) && Sent(before, after, Flatten(v), p, to) && (ok <==> to == |Flatten(v)|)
    ensures k < |v| && b < |v[k]| && p <= to
    ensures Served(before, after, v[k][b..] + Flatten(v[k + 1..]), to - p, !ok)
  {
    assert Flatten(v)[p..to] == Flatten(v)[p..][..to - p];
  }

  method ServeWrite(dev: CharDevice, filp: OpenFile, sock: Transfer.Sink, packet: Bytes, noMemory: bool, interrupted: bool,
                    sends: seq<seq<int>>) returns (aborted: bool, ghost n: nat)
    requires dev.Valid() && filp.fPos == 0 && |packet| < HEAP_LIMIT
    modifies dev, dev.buffer, dev.buffer.entry, filp, sock
    ensures dev.Valid()
    ensures if packet != [] && WriteFails(old(dev.State()), Write(packet, interrupted, noMemory, false))
            then aborted && Abs(dev.State()) == old(Abs(dev.State())) && sock.received == old(sock.received)
            else Abs(dev.State()) == (if packet != [] then old(Abs(dev.State())).Append(packet) else old(Abs(dev.State())))
                 && Served(old(sock.received), sock.received, Abs(dev.State()).Stream(), n, aborted)
                 && (Willing(sends, |Abs(dev.State()).Stream()|) ==> !aborted)
  {
    hide Holds, DoCall, Willing;
    // putchars: the driver takes a buffer whole or not at all, so there is one write, or none of nothing
    if |packet| > 0 {
      WriteMeaning(dev.State(), filp.fPos, Write(packet, interrupted, noMemory, false));
      var written := dev.Write(filp, packet, interrupted, noMemory, false);
      if written.value < 0 {
        return true, 0;
      }
    }
    filp.fPos := 0;  // lseek(fd, 0, SEEK_SET)
    ghost var s := Abs(dev.State()).Stream();
    var ok;
    ghost var to;
    ok, to := SendFile(dev, filp, sock, sends);
    assert s[0..to] == s[..to];
    aborted, n := !ok, to;
  }

  /**
   End to end, over runs: the text of a seek to a stored command and an offset inside it, with its
   terminator, parses back to that pair, the ioctl it leads to succeeds, and while nobody completes
   a command the client's file receives a prefix of that command from that offset on and every
   later one, all of it after enough reads, whatever other files do.
   */
  lemma {:induction false} SeekEndToEnd(s: Sys, f: nat, x: nat, y: nat, behind: Bytes, rs: seq<Request>)
    requires Ok(s) && !s.crashed && f < |s.pos|
    requires x < |View(s.dev)| && y < |View(s.dev)[x]| && y < SeekCommand.UINT_RANGE - 1
    requires var s1 := Step(s, Request(f, SeekTo(x, y, false, false))); AllServe(|s1.pos|, rs) && OnlyReads(s1, rs, f, |rs|)
    ensures SeekCommand.Parse(SeekCommand.SeekPacket(x, y, behind)) == SeekCommand.SeekTo(x, y)
    ensures DoCall(s.dev, s.pos[f], SeekTo(x, y, false, false)).ret == Ret(0, [])
    ensures var s1, due := Step(s, Request(f, SeekTo(x, y, false, false))), View(s.dev)[x][y..] + Flatten(View(s.dev)[x + 1..]);
      && ReceivedBy(s1, rs, f, |rs|) <= due
      && (GoodReads(s1, rs, f, |rs|) >= |due| ==> ReceivedBy(s1, rs, f, |rs|) == due)
  {
    hide Holds, DoCall, Step, OnlyReads, GoodReads, ReceivedBy, SeekCommand.Parse, SeekCommand.SeekPacket, Flatten, View;
    SeekCommand.SeekRoundTrip(x, y, behind);
    AtMostTen(s.dev);
    SeekMeaning(s.dev, s.pos[f], SeekTo(x, y, false, false));
    SeekThenRead(s, f, SeekTo(x, y, false, false), rs);
  }

  lemma AtMostTen(d: Device)
    requires Valid(d)
    ensures |View(d)| <= CAPACITY
  {
  }
}
