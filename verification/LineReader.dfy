/**
 sock_getline (server/src/socket.c): a packet is assembled from receives of at most 64 bytes
 through a 65-byte buffer that is searched and copied as a C string.

 `GetLine` says what becomes of every sequence of receives, whatever the buffer and the allocated
 memory held before; a copy that leaves the allocated block is an outcome of its own. The method is
 proved against it, and the lemmas say on the receives alone when a line comes back whole.
 */
module LineReader {
  import opened Bytes

  const SOCK_READBUFSIZE: nat := 64

  /** One recv: its bytes, with realloc's answer should the string have to grow, or an error. */
  datatype Recv = Data(bytes: Bytes, noMemory: bool) | Error

  /**
   What the call finds: the receive buffer's bytes, the bytes the allocator gives behind the ones
   asked for (a copy that uses more leaves the block), and what newly allocated memory holds.
   */
  datatype Env = Env(stack: Bytes, spare: nat, raw: nat -> byte)

  /**
   Returned: the allocated block, the packet's length, and how many receives it took. Aborted:
   NULL. Waiting: the receives given so far run out in the loop. Overrun: the copy of a receive
   leaves the block.
   */
  datatype Outcome =
    | Returned(block: Bytes, length: nat, capacity: nat, used: nat)
    | Aborted
    | Waiting
    | Overrun(receive: nat)

  ghost predicate Receives(rs: seq<Recv>) {
    forall i :: 0 <= i < |rs| ==> rs[i].Data? ==> |rs[i].bytes| <= SOCK_READBUFSIZE
  }

  // ---------------------------------------------------------------------------------------
  // The specification

  function BytesOf(r: Recv): Bytes {
    if r.Data? then r.bytes else []
  }

  /** Everything the first `k` receives delivered. */
  function Received(rs: seq<Recv>, k: nat): Bytes
    requires k <= |rs|
  {
    if k == 0 then [] else Received(rs, k - 1) + BytesOf(rs[k - 1])
  }

  /** The capacity after `k` receives: doubled at most once for each. */
  function Capacity(rs: seq<Recv>, k: nat): nat
    requires k <= |rs|
  {
    if k == 0 then SOCK_READBUFSIZE
    else
      var before := Capacity(rs, k - 1);
      if |Received(rs, k)| > before then 2 * before else before
  }

  /** Bytes asked for: the first block has a place for the terminator, the later ones do not. */
  function BlockSize(capacity: nat): nat {
    if capacity == SOCK_READBUFSIZE then SOCK_READBUFSIZE + 1 else capacity
  }

  /** The receive buffer after `k` receives. */
  function Buffer(stack: Bytes, rs: seq<Recv>, k: nat): (buf: Bytes)
    requires k <= |rs| && |stack| == SOCK_READBUFSIZE
    ensures |buf| == SOCK_READBUFSIZE + 1 && buf[SOCK_READBUFSIZE] == NUL
  {
    if k == 0 then stack + [NUL]
    else
      var chunk := BytesOf(rs[k - 1]);
      if |chunk| <= SOCK_READBUFSIZE then Overwrite(Buffer(stack, rs, k - 1), 0, chunk)
      else Buffer(stack, rs, k - 1)
  }

  /** The first `b` from index `i` on, or the end. */
  function IndexFrom(s: Bytes, b: byte, i: nat): (j: nat)
    requires i <= |s|
    ensures i <= j <= |s| && (j < |s| ==> s[j] == b)
    ensures forall k :: i <= k < j ==> s[k] != b
    decreases |s| - i
  {
    if i == |s| || s[i] == b then i else IndexFrom(s, b, i + 1)
  }

  /** What is copied out of a buffer: its C string, up to the first newline in it. */
  function Line(buf: Bytes): (line: Bytes)
    ensures |line| <= |buf|
  {
    var text := buf[..IndexFrom(buf, NUL, 0)];
    var n := IndexFrom(text, NEWLINE, 0);
    if n < |text| then text[..n + 1] else text
  }

  /** What receive `k` copies. */
  function LineOf(stack: Bytes, rs: seq<Recv>, k: nat): Bytes
    requires k < |rs| && |stack| == SOCK_READBUFSIZE
  {
    Line(Buffer(stack, rs, k + 1))
  }

  predicate EndsLine(line: Bytes) {
    line != [] && line[|line| - 1] == NEWLINE
  }

  /** Receive `k` is an error, or there is no memory to grow. */
  predicate Fails(rs: seq<Recv>, k: nat)
    requires k < |rs|
  {
    rs[k].Error? || (rs[k].noMemory && Capacity(rs, k + 1) > Capacity(rs, k))
  }

  /** The copy of receive `k`, `n` bytes and a terminator, stays inside the block. */
  predicate Fits(rs: seq<Recv>, spare: nat, k: nat, n: nat)
    requires k < |rs|
  {
    |Received(rs, k)| + n + 1 <= BlockSize(Capacity(rs, k + 1)) + spare
  }

  function Resize(m: Bytes, size: nat, raw: nat -> byte): (r: Bytes)
    ensures |r| == size
  {
    if size <= |m| then m[..size] else m + seq(size - |m|, i requires 0 <= i => raw(|m| + i))
  }

  function StrCpy(m: Bytes, at: nat, src: Bytes): (r: Bytes)
    ensures |r| == |m|
  {
    if at + |src| + 1 <= |m| then Overwrite(m, at, src + [NUL]) else m
  }

  /** The allocated block after `k` receives. */
  function Block(env: Env, rs: seq<Recv>, k: nat): (m: Bytes)
    requires k <= |rs| && |env.stack| == SOCK_READBUFSIZE
    ensures |m| == BlockSize(Capacity(rs, k)) + env.spare
  {
    if k == 0 then Resize([], SOCK_READBUFSIZE + 1 + env.spare, env.raw)
    else
      var grown := Resize(Block(env, rs, k - 1), BlockSize(Capacity(rs, k)) + env.spare, env.raw);
      StrCpy(grown, |Received(rs, k - 1)|, LineOf(env.stack, rs, k - 1))
  }

  /** What becomes of the receives from `k` on. */
  function GetLine(env: Env, rs: seq<Recv>, k: nat): Outcome
    requires k <= |rs| && |env.stack| == SOCK_READBUFSIZE
    decreases |rs| - k
  {
    if k == |rs| then Waiting
    else if Fails(rs, k) then Aborted
    else
      var line := LineOf(env.stack, rs, k);
      if !Fits(rs, env.spare, k, |line|) then Overrun(k)
      else if EndsLine(line) then Returned(Block(env, rs, k + 1), |Received(rs, k + 1)|, Capacity(rs, k + 1), k + 1)
      else GetLine(env, rs, k + 1)
  }

  // ---------------------------------------------------------------------------------------
  // The code

  method StrLen(buffer: array<byte>) returns (n: nat)
    requires buffer.Length > 0 && buffer[buffer.Length - 1] == NUL
    ensures n == IndexFrom(buffer[..], NUL, 0) < buffer.Length
  {
    n := 0;
    while buffer[n] != NUL
      invariant n < buffer.Length && IndexFrom(buffer[..], NUL, 0) == IndexFrom(buffer[..], NUL, n)
      decreases buffer.Length - n
    {
      n := n + 1;
    }
  }

  /** strchr(buffer, newline), in the string of `len` bytes that the buffer holds. */
  method StrChrNewline(buffer: array<byte>, len: nat) returns (pos: nat)
    requires len <= buffer.Length
    ensures pos == IndexFrom(buffer[..len], NEWLINE, 0)
  {
    pos := 0;
    while pos < len && buffer[pos] != NEWLINE
      invariant pos <= len && IndexFrom(buffer[..len], NEWLINE, 0) == IndexFrom(buffer[..len], NEWLINE, pos)
    {
      assert buffer[..len][pos] == buffer[pos];
      pos := pos + 1;
    }
    assert pos < len ==> buffer[..len][pos] == buffer[pos];
  }

  /** One receive into the buffer, and the string to be copied from it. */
  method TakeChunk(buffer: array<byte>, chunk: Bytes) returns (line: Bytes, found: bool)
    requires buffer.Length == SOCK_READBUFSIZE + 1 && buffer[SOCK_READBUFSIZE] == NUL && |chunk| <= SOCK_READBUFSIZE
    modifies buffer
    ensures line == Line(Overwrite(old(buffer[..]), 0, chunk)) && found == EndsLine(line)
    ensures !found ==> buffer[..] == Overwrite(old(buffer[..]), 0, chunk)
  {
    forall i | 0 <= i < |chunk| {
      buffer[i] := chunk[i];
    }
    ghost var now := Overwrite(old(buffer[..]), 0, chunk);
    assert buffer[..] == now;
    var len := StrLen(buffer);
    var pos := StrChrNewline(buffer, len);
    assert buffer[..len] == now[..len];
    found := pos < len;
    if found {
      buffer[pos + 1] := NUL;
      line := buffer[..pos + 1];
      assert line == now[..len][..pos + 1];
    } else {
      line := buffer[..len];
      NoEnd(line);
    }
  }

  lemma NoEnd(line: Bytes)
    requires IndexFrom(line, NEWLINE, 0) == |line|
    ensures !EndsLine(line)
  {
  }

  /** realloc, or malloc for an empty block. */
  method Realloc(block: array<byte>, size: nat, raw: nat -> byte) returns (r: array<byte>)
    ensures fresh(r) && r[..] == Resize(block[..], size, raw)
  {
    r := new byte[size](i requires 0 <= i reads block => if i < block.Length then block[i] else raw(i));
  }

  /** strcpy into a block with room for it. */
  method CopyLine(block: array<byte>, at: nat, line: Bytes)
    requires at + |line| + 1 <= block.Length
    modifies block
    ensures block[..] == StrCpy(old(block[..]), at, line)
  {
    forall i | 0 <= i <= |line| {
      block[at + i] := if i < |line| then line[i] else NUL;
    }
  }

  lemma Begin(env: Env, rs: seq<Recv>)
    requires |env.stack| == SOCK_READBUFSIZE
    ensures Received(rs, 0) == [] && Capacity(rs, 0) == SOCK_READBUFSIZE
    ensures Buffer(env.stack, rs, 0) == env.stack + [NUL]
    ensures Block(env, rs, 0) == Resize([], SOCK_READBUFSIZE + 1 + env.spare, env.raw)
    ensures GetLine(env, rs, |rs|) == Waiting
  {
  }

  /** What receive `k` adds. */
  lemma OneMore(env: Env, rs: seq<Recv>, k: nat)
    requires Receives(rs) && |env.stack| == SOCK_READBUFSIZE && k < |rs| && rs[k].Data?
    ensures Received(rs, k + 1) == Received(rs, k) + rs[k].bytes
    ensures var cap := Capacity(rs, k);
      Capacity(rs, k + 1) == if |Received(rs, k)| + |rs[k].bytes| > cap then 2 * cap else cap
    ensures Capacity(rs, k) >= SOCK_READBUFSIZE && BlockSize(2 * Capacity(rs, k)) == 2 * Capacity(rs, k)
    ensures Buffer(env.stack, rs, k + 1) == Overwrite(Buffer(env.stack, rs, k), 0, rs[k].bytes)
  {
    CapacityGrows(rs, 0, k);
  }

  lemma {:induction false} CapacityGrows(rs: seq<Recv>, j: nat, k: nat)
    requires j <= k <= |rs|
    ensures Capacity(rs, j) <= Capacity(rs, k)
    decreases k
  {
    if j < k { CapacityGrows(rs, j, k - 1); }
  }

  lemma BlockStep(env: Env, rs: seq<Recv>, k: nat)
    requires |env.stack| == SOCK_READBUFSIZE && k < |rs|
    ensures Block(env, rs, k + 1)
            == StrCpy(Resize(Block(env, rs, k), BlockSize(Capacity(rs, k + 1)) + env.spare, env.raw),
                      |Received(rs, k)|, LineOf(env.stack, rs, k))
    ensures Resize(Block(env, rs, k), |Block(env, rs, k)|, env.raw) == Block(env, rs, k)
    ensures |Block(env, rs, k)| == BlockSize(Capacity(rs, k)) + env.spare
  {
    hide StrCpy, LineOf, Received, Capacity, BlockSize;
  }

  lemma GetLineStep(env: Env, rs: seq<Recv>, k: nat)
    requires |env.stack| == SOCK_READBUFSIZE && k < |rs|
    ensures GetLine(env, rs, k) ==
      if Fails(rs, k) then Aborted
      else if !Fits(rs, env.spare, k, |LineOf(env.stack, rs, k)|) then Overrun(k)
      else if EndsLine(LineOf(env.stack, rs, k))
      then Returned(Block(env, rs, k + 1), |Received(rs, k + 1)|, Capacity(rs, k + 1), k + 1)
      else GetLine(env, rs, k + 1)
  {
  }

  method SockGetLine(env: Env, rs: seq<Recv>) returns (r: Outcome)
    requires Receives(rs) && |env.stack| == SOCK_READBUFSIZE
    ensures r == GetLine(env, rs, 0)
  {
    hide Received, Capacity, Buffer, Block, GetLine, Resize, StrCpy, EndsLine, Line, Overwrite;
    Begin(env, rs);
    var buffer := new byte[SOCK_READBUFSIZE + 1](i => if 0 <= i < SOCK_READBUFSIZE then env.stack[i] else NUL);
    assert buffer[..] == env.stack + [NUL];
    var block := new byte[0];
    assert block[..] == [];
    block := Realloc(block, SOCK_READBUFSIZE + 1 + env.spare, env.raw);
    var capacity, length, k := SOCK_READBUFSIZE, 0, 0;
    while k < |rs|
      invariant k <= |rs| && fresh(buffer) && fresh(block) && buffer != block && buffer.Length == SOCK_READBUFSIZE + 1
      invariant length == |Received(rs, k)| && capacity == Capacity(rs, k)
      invariant buffer[..] == Buffer(env.stack, rs, k) && block[..] == Block(env, rs, k)
      invariant GetLine(env, rs, 0) == GetLine(env, rs, k)
    {
      GetLineStep(env, rs, k);
      if rs[k].Error? {
        return Aborted;
      }
      OneMore(env, rs, k);
      BlockStep(env, rs, k);
      var chunk := rs[k].bytes;
      var newLength := length + |chunk|;
      if newLength > capacity {
        if rs[k].noMemory {
          return Aborted;
        }
        capacity := 2 * capacity;
        block := Realloc(block, capacity + env.spare, env.raw);
      }
      var line, found := TakeChunk(buffer, chunk);
      if length + |line| + 1 > block.Length {
        return Overrun(k);
      }
      CopyLine(block, length, line);
      if found {
        return Returned(block[..], newLength, capacity, k + 1);
      }
      length := newLength;
      k := k + 1;
    }
    return Waiting;
  }

  /** Receive `k` is an error, or the line outgrows the capacity and there is no memory. */
  ghost predicate Failure(rs: seq<Recv>, k: nat)
    requires k < |rs|
  {
    rs[k].Error? || (rs[k].noMemory && |Received(rs, k)| + |rs[k].bytes| > Capacity(rs, k))
  }

  /** The copy of receive `k` and its terminator stay inside what was asked for and what is spare. */
  ghost predicate Inside(env: Env, rs: seq<Recv>, k: nat)
    requires k < |rs| && |env.stack| == SOCK_READBUFSIZE
  {
    var asked := if Capacity(rs, k + 1) == SOCK_READBUFSIZE then SOCK_READBUFSIZE + 1 else Capacity(rs, k + 1);
    |Received(rs, k)| + |LineOf(env.stack, rs, k)| + 1 <= asked + env.spare
  }

  /** On every input: when the reader gives up, when a copy leaves the block, and when it returns. */
  ghost predicate Explains(env: Env, rs: seq<Recv>, k: nat, r: Outcome)
    requires k <= |rs| && |env.stack| == SOCK_READBUFSIZE
  {
    match r
    case Aborted => exists n :: k <= n < |rs| && Failure(rs, n) && GoesOn(env, rs, k, n)
    case Overrun(n) => k <= n < |rs| && !Failure(rs, n) && !Inside(env, rs, n) && GoesOn(env, rs, k, n)
    case Waiting => GoesOn(env, rs, k, |rs|)
    case Returned(_, length, capacity, used) =>
      && k < used <= |rs| && GoesOn(env, rs, k, used - 1)
      && !Failure(rs, used - 1) && Inside(env, rs, used - 1) && NEWLINE in LineOf(env.stack, rs, used - 1)
      && length == |Received(rs, used)| && capacity == Capacity(rs, used)
  }

  ghost predicate GoesOn(env: Env, rs: seq<Recv>, k: nat, n: nat)
    requires k <= n <= |rs| && |env.stack| == SOCK_READBUFSIZE
  {
    forall i :: k <= i < n ==> !Failure(rs, i) && Inside(env, rs, i) && NEWLINE !in LineOf(env.stack, rs, i)
  }

  lemma {:induction false} Outcomes(env: Env, rs: seq<Recv>, k: nat)
    requires Receives(rs) && |env.stack| == SOCK_READBUFSIZE && k <= |rs|
    ensures Explains(env, rs, k, GetLine(env, rs, k))
    decreases |rs| - k
  {
    hide Block, LineOf, EndsLine, Received, Capacity, Inside, Failure;
    Begin(env, rs);
    if k < |rs| {
      GetLineStep(env, rs, k);
      SameTests(env, rs, k);
      Outcomes(env, rs, k + 1);
    }
  }

  lemma SameTests(env: Env, rs: seq<Recv>, k: nat)
    requires Receives(rs) && |env.stack| == SOCK_READBUFSIZE && k < |rs|
    ensures Fails(rs, k) <==> Failure(rs, k)
    ensures Fits(rs, env.spare, k, |LineOf(env.stack, rs, k)|) <==> Inside(env, rs, k)
    ensures EndsLine(LineOf(env.stack, rs, k)) <==> NEWLINE in LineOf(env.stack, rs, k)
  {
    hide Line, Buffer;
    if rs[k].Data? { OneMore(env, rs, k); }
    EndsIfContains(Buffer(env.stack, rs, k + 1));
  }

  /** A line's only newline is its last byte. */
  lemma EndsIfContains(buf: Bytes)
    ensures EndsLine(Line(buf)) <==> NEWLINE in Line(buf)
  {
    var text := buf[..IndexFrom(buf, NUL, 0)];
    var n := IndexFrom(text, NEWLINE, 0);
    if n < |text| { assert text[..n + 1][n] == NEWLINE; }
  }

  // ---------------------------------------------------------------------------------------
  // What the receives alone decide

  ghost predicate NoNul(rs: seq<Recv>, k: nat)
    requires k <= |rs|
  {
    forall i :: 0 <= i < k ==> NUL !in BytesOf(rs[i])
  }

  /** The first receive leaves nothing of what the buffer held before its newline. */
  ghost predicate Starts(rs: seq<Recv>) {
    rs != [] && (rs[0].Data? ==> |rs[0].bytes| == SOCK_READBUFSIZE || NEWLINE in rs[0].bytes)
  }

  /** The C string a buffer begins with, up to and with its first newline: nothing more, nothing else. */
  ghost predicate IsLine(buf: Bytes, line: Bytes) {
    && line <= buf && NUL !in line
    && (forall i :: 0 <= i < |line| - 1 ==> line[i] != NEWLINE)
    && (EndsLine(line) || (|line| < |buf| && buf[|line|] == NUL))
  }

  lemma LineMeans(buf: Bytes, line: Bytes)
    requires NUL in buf
    ensures line == Line(buf) <==> IsLine(buf, line)
  {
    LineIsLine(buf);
    if IsLine(buf, line) { OneLine(buf, line, Line(buf)); }
  }

  lemma LineIsLine(buf: Bytes)
    requires NUL in buf
    ensures IsLine(buf, Line(buf))
  {
    var z :| 0 <= z < |buf| && buf[z] == NUL;
    var len := IndexFrom(buf, NUL, 0);
    assert len <= z;
    var text := buf[..len];
    assert forall i :: 0 <= i < len ==> text[i] == buf[i];
    var n := IndexFrom(text, NEWLINE, 0);
    if n < |text| {
      assert Line(buf) == text[..n + 1] == buf[..n + 1];
    } else {
      assert Line(buf) == text;
    }
  }

  lemma OneLine(buf: Bytes, a: Bytes, b: Bytes)
    requires IsLine(buf, a) && IsLine(buf, b)
    ensures a == b
  {
    Beginnings(buf, a, b);
    Beginnings(buf, b, a);
    assert |a| == |b|;
    assert a == buf[..|a|] == b;
  }

  lemma Beginnings(buf: Bytes, a: Bytes, b: Bytes)
    requires a <= buf && b <= buf
    ensures forall i :: 0 <= i < |a| && i < |b| ==> a[i] == b[i]
    ensures |a| < |b| ==> b[|a|] == buf[|a|] && b[|a|] in b
  {
  }

  /** A byte of the buffer is from the last receive that reached it, or what lay there before. */
  lemma {:induction false} BufferMeans(stack: Bytes, rs: seq<Recv>, k: nat, i: nat, j: nat)
    requires Receives(rs) && |stack| == SOCK_READBUFSIZE && k <= |rs| && i < SOCK_READBUFSIZE && j <= k
    requires forall m :: j <= m < k ==> |BytesOf(rs[m])| <= i
    ensures j == 0 ==> Buffer(stack, rs, k)[i] == stack[i]
    ensures 0 < j && i < |BytesOf(rs[j - 1])| ==> Buffer(stack, rs, k)[i] == BytesOf(rs[j - 1])[i]
    decreases k
  {
    hide Buffer, Receives;
    NoReceive(stack, rs);
    if k > 0 {
      BufferByte(stack, rs, k - 1, i);
      if j < k { BufferMeans(stack, rs, k - 1, i, j); }
    }
  }

  lemma NoReceive(stack: Bytes, rs: seq<Recv>)
    requires |stack| == SOCK_READBUFSIZE
    ensures Buffer(stack, rs, 0) == stack + [NUL]
  {
  }

  lemma BufferByte(stack: Bytes, rs: seq<Recv>, k: nat, i: nat)
    requires Receives(rs) && |stack| == SOCK_READBUFSIZE && k < |rs| && i < SOCK_READBUFSIZE
    ensures Buffer(stack, rs, k + 1)[i]
            == if i < |BytesOf(rs[k])| then BytesOf(rs[k])[i] else Buffer(stack, rs, k)[i]
  {
    assert Buffer(stack, rs, k + 1) == Overwrite(Buffer(stack, rs, k), 0, BytesOf(rs[k]));
  }

  /** What the buffer held before can end no line: it has no newline, or none of it is left. */
  ghost predicate Quiet(env: Env, rs: seq<Recv>) {
    Starts(rs) || NEWLINE !in env.stack
  }

  /** Bytes receive `k` copies: up to its first newline, or the string the buffer then holds. */
  function Copied(stack: Bytes, rs: seq<Recv>, k: nat): nat
    requires k < |rs| && |stack| == SOCK_READBUFSIZE
  {
    var chunk := BytesOf(rs[k]);
    if NEWLINE in chunk then IndexFrom(chunk, NEWLINE, 0) + 1 else IndexFrom(Buffer(stack, rs, k + 1), NUL, 0)
  }

  /** The loop goes on after receive `k`. */
  predicate Passes(env: Env, rs: seq<Recv>, k: nat)
    requires k < |rs| && |env.stack| == SOCK_READBUFSIZE
  {
    !Fails(rs, k) && Fits(rs, env.spare, k, Copied(env.stack, rs, k)) && NEWLINE !in BytesOf(rs[k])
  }

  /** The first receive, from `k` on, after which it does not; or how many there are. */
  function Stop(env: Env, rs: seq<Recv>, k: nat): (n: nat)
    requires k <= |rs| && |env.stack| == SOCK_READBUFSIZE
    ensures k <= n <= |rs| && (n < |rs| ==> !Passes(env, rs, n))
    ensures forall i :: k <= i < n ==> Passes(env, rs, i)
    decreases |rs| - k
  {
    if k == |rs| || !Passes(env, rs, k) then k else Stop(env, rs, k + 1)
  }

  lemma {:induction false} IndexIs(s: Bytes, b: byte, i: nat, j: nat)
    requires i <= j <= |s| && (j < |s| ==> s[j] == b) && forall k :: i <= k < j ==> s[k] != b
    ensures IndexFrom(s, b, i) == j
    decreases j - i
  {
    if i < j { IndexIs(s, b, i + 1, j); }
  }

  ghost predicate CleanBuffer(buf: Bytes) {
    |buf| == SOCK_READBUFSIZE + 1 && buf[SOCK_READBUFSIZE] == NUL && NEWLINE !in buf
  }

  /** The line in a buffer that begins with a newline-terminated chunk. */
  lemma LineOfLast(buf: Bytes, chunk: Bytes)
    requires |buf| == SOCK_READBUFSIZE + 1 && chunk <= buf && |chunk| <= SOCK_READBUFSIZE
    requires buf[SOCK_READBUFSIZE] == NUL && NUL !in chunk && NEWLINE in chunk
    ensures Line(buf) == chunk[..IndexFrom(chunk, NEWLINE, 0) + 1] && EndsLine(Line(buf))
  {
    hide IndexFrom;
    var p, len := IndexFrom(chunk, NEWLINE, 0), IndexFrom(buf, NUL, 0);
    var j :| 0 <= j < |chunk| && chunk[j] == NEWLINE;
    assert p <= j;
    assert |chunk| <= len;
    SameIndex(buf[..len], chunk, p);
    assert buf[..len][..p + 1] == chunk[..p + 1];
  }

  lemma SameIndex(text: Bytes, chunk: Bytes, p: nat)
    requires chunk <= text && p == IndexFrom(chunk, NEWLINE, 0) < |chunk|
    ensures IndexFrom(text, NEWLINE, 0) == p
  {
    assert forall i :: 0 <= i < |chunk| ==> text[i] == chunk[i];
    IndexIs(text, NEWLINE, 0, p);
  }

  lemma LineOfClean(buf: Bytes)
    requires CleanBuffer(buf)
    ensures Line(buf) == buf[..IndexFrom(buf, NUL, 0)] && !EndsLine(Line(buf))
  {
    var text := buf[..IndexFrom(buf, NUL, 0)];
    assert forall i :: 0 <= i < |text| ==> text[i] == buf[i];
    IndexIs(text, NEWLINE, 0, |text|);
    NoEnd(text);
  }

  /** Receives without newline leave a buffer without one. */
  lemma {:induction false} StaysClean(env: Env, rs: seq<Recv>, k: nat)
    requires Receives(rs) && |env.stack| == SOCK_READBUFSIZE && Quiet(env, rs) && k <= |rs|
    requires k == 0 ==> NEWLINE !in env.stack
    requires forall i :: 0 <= i < k ==> rs[i].Data? && NEWLINE !in rs[i].bytes
    ensures CleanBuffer(Buffer(env.stack, rs, k))
  {
    if k > 0 {
      var chunk, before := rs[k - 1].bytes, Buffer(env.stack, rs, k - 1);
      assert Buffer(env.stack, rs, k) == Overwrite(before, 0, chunk);
      if k > 1 || NEWLINE !in env.stack { StaysClean(env, rs, k - 1); }
      CleanOver(before, chunk);
    }
  }

  lemma CleanOver(buf: Bytes, chunk: Bytes)
    requires |buf| == SOCK_READBUFSIZE + 1 && buf[SOCK_READBUFSIZE] == NUL && |chunk| <= SOCK_READBUFSIZE
    requires NEWLINE !in chunk && (CleanBuffer(buf) || |chunk| == SOCK_READBUFSIZE)
    ensures CleanBuffer(Overwrite(buf, 0, chunk))
  {
    var now := Overwrite(buf, 0, chunk);
    forall i | 0 <= i < |now| ensures now[i] != NEWLINE {
      if i < |chunk| { assert now[i] == chunk[i]; } else { assert now[i] == buf[i]; }
    }
  }

  /** Receive `k` is not an error, and nothing before it ends the line or confuses the C string. */
  ghost predicate Plain(env: Env, rs: seq<Recv>, k: nat) {
    && Receives(rs) && |env.stack| == SOCK_READBUFSIZE && Quiet(env, rs) && k < |rs| && NoNul(rs, k + 1)
    && (forall i :: 0 <= i <= k ==> rs[i].Data?)
    && forall i :: 0 <= i < k ==> NEWLINE !in rs[i].bytes
  }

  /** What receive `k` copies is decided by the receives. */
  lemma LineIs(env: Env, rs: seq<Recv>, k: nat)
    requires Plain(env, rs, k)
    ensures var line, chunk := LineOf(env.stack, rs, k), rs[k].bytes;
      && |line| == Copied(env.stack, rs, k)
      && (EndsLine(line) <==> NEWLINE in chunk)
      && (if NEWLINE in chunk then line <= chunk else chunk <= line)
  {
    hide Line, EndsLine, CleanBuffer, Buffer, Receives, Quiet, NoNul;
    var chunk, buf := rs[k].bytes, Buffer(env.stack, rs, k + 1);
    ChunkInBuffer(env, rs, k);
    if NEWLINE in chunk {
      LineOfLast(buf, chunk);
    } else {
      StaysClean(env, rs, k + 1);
      LineOfClean(buf);
      assert buf[..IndexFrom(buf, NUL, 0)][..|chunk|] == chunk;
    }
  }

  lemma ChunkInBuffer(env: Env, rs: seq<Recv>, k: nat)
    requires Plain(env, rs, k)
    ensures rs[k].bytes <= Buffer(env.stack, rs, k + 1) && |rs[k].bytes| <= SOCK_READBUFSIZE && NUL !in rs[k].bytes
  {
    hide Overwrite, Quiet, Buffer;
    OneMore(env, rs, k);
    OverwriteBegins(Buffer(env.stack, rs, k), rs[k].bytes);
    assert NUL !in BytesOf(rs[k]);
  }

  lemma OverwriteBegins(buf: Bytes, chunk: Bytes)
    requires |chunk| <= |buf|
    ensures chunk <= Overwrite(buf, 0, chunk)
  {
    assert Overwrite(buf, 0, chunk)[..|chunk|] == chunk;
  }

  lemma CopyCovers(m: Bytes, prefix: Bytes, line: Bytes, chunk: Bytes)
    requires prefix <= m && |prefix| + |line| + 1 <= |m| && chunk <= line
    ensures prefix + chunk <= StrCpy(m, |prefix|, line)
  {
    var now := StrCpy(m, |prefix|, line);
    assert now[..|prefix|] == prefix;
    assert now[|prefix|..][..|chunk|] == chunk;
    assert now[..|prefix| + |chunk|] == prefix + chunk;
  }

  lemma Differ(a: Bytes, b: Bytes, i: nat)
    requires i < |a| && i < |b| && a[i] != b[i]
    ensures !(a <= b)
  {
  }

  /** Copying less leaves the terminator where the chunk goes on. */
  lemma CopyFallsShort(m: Bytes, prefix: Bytes, line: Bytes, chunk: Bytes)
    requires |prefix| + |line| + 1 <= |m| && |line| < |chunk| && NUL !in chunk
    ensures !(prefix + chunk <= StrCpy(m, |prefix|, line))
  {
    var now, i := StrCpy(m, |prefix|, line), |prefix| + |line|;
    assert now[i] == NUL;
    assert (prefix + chunk)[i] == chunk[|line|];
    Differ(prefix + chunk, now, i);
  }

  lemma ResizeKeeps(m: Bytes, size: nat, raw: nat -> byte, prefix: Bytes)
    requires prefix <= m && |prefix| <= size
    ensures prefix <= Resize(m, size, raw)
  {
    assert Resize(m, size, raw)[..|prefix|] == m[..|prefix|];
  }

  /** While the loop goes on the block begins with what was received. */
  lemma {:induction false} BlockHolds(env: Env, rs: seq<Recv>, k: nat)
    requires k <= |rs| && (0 < k ==> Plain(env, rs, k - 1)) && |env.stack| == SOCK_READBUFSIZE
    requires forall i :: 0 <= i < k ==> Passes(env, rs, i)
    ensures Received(rs, k) <= Block(env, rs, k)
  {
    hide Received, Block, Fits, Fails, Quiet;
    if k > 0 {
      PlainBefore(env, rs, k - 1);
      BlockHolds(env, rs, k - 1);
      assert Passes(env, rs, k - 1);
      LastCopy(env, rs, k - 1);
    } else {
      Begin(env, rs);
    }
  }

  lemma PlainBefore(env: Env, rs: seq<Recv>, k: nat)
    requires Plain(env, rs, k)
    ensures |rs[k].bytes| <= SOCK_READBUFSIZE && (0 < k ==> Plain(env, rs, k - 1))
  {
  }

  /** A copy that stays inside the block extends it by the chunk exactly when it covers the chunk. */
  lemma LastCopy(env: Env, rs: seq<Recv>, k: nat)
    requires Plain(env, rs, k) && Received(rs, k) <= Block(env, rs, k) && Fits(rs, env.spare, k, Copied(env.stack, rs, k))
    ensures Received(rs, k + 1) <= Block(env, rs, k + 1) <==> Copied(env.stack, rs, k) >= |rs[k].bytes|
  {
    hide Line, Buffer, Resize, StrCpy, EndsLine, Quiet, Copied, Capacity, BlockSize, Fails;
    LineIs(env, rs, k);
    BlockStep(env, rs, k);
    OneMore(env, rs, k);
    var prefix, line, chunk := Received(rs, k), LineOf(env.stack, rs, k), rs[k].bytes;
    var size := BlockSize(Capacity(rs, k + 1)) + env.spare;
    ResizeKeeps(Block(env, rs, k), size, env.raw, prefix);
    var grown := Resize(Block(env, rs, k), size, env.raw);
    assert NUL !in BytesOf(rs[k]);
    if |line| >= |chunk| {
      assert chunk <= line;
      CopyCovers(grown, prefix, line, chunk);
    } else {
      CopyFallsShort(grown, prefix, line, chunk);
    }
  }

  /** The capacity always suffices, and is less than twice what is needed once it has grown. */
  lemma {:induction false} CapacitySuffices(rs: seq<Recv>, k: nat)
    requires Receives(rs) && k <= |rs|
    ensures |Received(rs, k)| <= Capacity(rs, k)
    ensures Capacity(rs, k) == SOCK_READBUFSIZE || Capacity(rs, k) < 2 * |Received(rs, k)|
    ensures Capacity(rs, k) >= SOCK_READBUFSIZE
  {
    if k > 0 { CapacitySuffices(rs, k - 1); }
  }

  /**
   What the reader makes of receives without NUL, if what the buffer held before has no newline, or
   none of it is left after the first receive. `n` is the first receive that is or causes an error,
   whose copy leaves the block, or that holds a newline; if there is none the reader waits. With the
   newline it returns, and what it returns is what it received exactly when the first newline is
   the last byte of that receive.
   */
  lemma Framing(env: Env, rs: seq<Recv>)
    requires Receives(rs) && |env.stack| == SOCK_READBUFSIZE && Quiet(env, rs) && NoNul(rs, |rs|)
    ensures IsFramed(env, rs, Stop(env, rs, 0), GetLine(env, rs, 0))
  {
    FramedFrom(env, rs, Stop(env, rs, 0), 0);
  }

  ghost predicate IsFramed(env: Env, rs: seq<Recv>, n: nat, r: Outcome)
    requires n <= |rs| && |env.stack| == SOCK_READBUFSIZE
  {
    if n == |rs| then r == Waiting
    else if Fails(rs, n) then r == Aborted
    else if !Fits(rs, env.spare, n, Copied(env.stack, rs, n)) then r == Overrun(n)
    else
      && r.Returned? && r.used == n + 1 && NEWLINE in rs[n].bytes
      && r.length == |Received(rs, n + 1)| <= r.capacity <= |r.block|
      && (r.block[..r.length] == Received(rs, n + 1) <==> Copied(env.stack, rs, n) == |rs[n].bytes|)
  }

  /** After a full first receive every copy without a newline is the whole buffer, so the outcome is
      decided by the receives alone. */
  lemma CopiedFull(env: Env, rs: seq<Recv>, k: nat)
    requires Plain(env, rs, k) && Starts(rs) && NEWLINE !in rs[k].bytes
    ensures Copied(env.stack, rs, k) == SOCK_READBUFSIZE
  {
    FullBuffer(env, rs, k + 1);
    IndexIs(Buffer(env.stack, rs, k + 1), NUL, 0, SOCK_READBUFSIZE);
  }

  lemma {:induction false} FullBuffer(env: Env, rs: seq<Recv>, k: nat)
    requires 0 < k <= |rs| && Plain(env, rs, k - 1) && Starts(rs) && NEWLINE !in rs[k - 1].bytes
    ensures forall i :: 0 <= i < SOCK_READBUFSIZE ==> Buffer(env.stack, rs, k)[i] != NUL
  {
    hide Starts, Quiet, Overwrite, Buffer;
    OneMore(env, rs, k - 1);
    var before, chunk := Buffer(env.stack, rs, k - 1), rs[k - 1].bytes;
    assert NUL !in BytesOf(rs[k - 1]);
    if k > 1 {
      FullBuffer(env, rs, k - 1);
    } else {
      FirstFull(rs);
    }
    NoNulOver(before, chunk);
  }

  lemma FirstFull(rs: seq<Recv>)
    requires Starts(rs) && rs[0].Data? && NEWLINE !in rs[0].bytes
    ensures |rs[0].bytes| == SOCK_READBUFSIZE
  {
  }

  lemma NoNulOver(buf: Bytes, chunk: Bytes)
    requires |buf| == SOCK_READBUFSIZE + 1 && NUL !in chunk && |chunk| <= SOCK_READBUFSIZE
    requires |chunk| == SOCK_READBUFSIZE || forall i :: 0 <= i < SOCK_READBUFSIZE ==> buf[i] != NUL
    ensures forall i :: 0 <= i < SOCK_READBUFSIZE ==> Overwrite(buf, 0, chunk)[i] != NUL
  {
    var now := Overwrite(buf, 0, chunk);
    forall i | 0 <= i < SOCK_READBUFSIZE ensures now[i] != NUL {
      if i < |chunk| { assert now[i] == chunk[i]; } else { assert now[i] == buf[i]; }
    }
  }

  lemma {:induction false} FramedFrom(env: Env, rs: seq<Recv>, n: nat, k: nat)
    requires Receives(rs) && |env.stack| == SOCK_READBUFSIZE && Quiet(env, rs) && NoNul(rs, |rs|) && k <= n <= |rs|
    requires n == Stop(env, rs, 0)
    ensures IsFramed(env, rs, n, GetLine(env, rs, k))
    decreases n - k
  {
    hide Copied, Received, Block, Fits, Fails, Quiet, LineOf, EndsLine, GetLine, NoNul, Receives, Stop;
    Begin(env, rs);
    if k < |rs| { GetLineStep(env, rs, k); }
    if k < n {
      assert Passes(env, rs, k);
      PlainAt(env, rs, k);
      LineIs(env, rs, k);
      FramedFrom(env, rs, n, k + 1);
    } else if n < |rs| && !Fails(rs, n) {
      PlainAt(env, rs, n);
      LineIs(env, rs, n);
      if Fits(rs, env.spare, n, Copied(env.stack, rs, n)) { LastReturned(env, rs, n); }
    }
  }

  lemma PlainAt(env: Env, rs: seq<Recv>, k: nat)
    requires Receives(rs) && |env.stack| == SOCK_READBUFSIZE && Quiet(env, rs) && NoNul(rs, |rs|)
    requires k < |rs| && !Fails(rs, k) && k <= Stop(env, rs, 0)
    ensures Plain(env, rs, k)
  {
    hide Fits, Capacity, Received, Copied, Quiet, Receives, Buffer, Stop;
    forall i | 0 <= i < k ensures rs[i].Data? && NEWLINE !in rs[i].bytes { assert Passes(env, rs, i); }
  }

  lemma LastReturned(env: Env, rs: seq<Recv>, n: nat)
    requires Plain(env, rs, n) && n == Stop(env, rs, 0) && Fits(rs, env.spare, n, Copied(env.stack, rs, n)) && NEWLINE in rs[n].bytes
    ensures var block, length := Block(env, rs, n + 1), |Received(rs, n + 1)|;
      && length <= Capacity(rs, n + 1) <= |block|
      && (block[..length] == Received(rs, n + 1) <==> Copied(env.stack, rs, n) == |rs[n].bytes|)
  {
    hide Received, Block, Fits, Fails, Quiet, NoNul, Copied, Capacity, BlockSize;
    if n > 0 { PlainBefore(env, rs, n); }
    BlockHolds(env, rs, n);
    LastCopy(env, rs, n);
    CapacitySuffices(rs, n + 1);
    CopiedBound(env.stack, rs, n);
    BlockAsked(env, rs, n + 1);
    Begins(Received(rs, n + 1), Block(env, rs, n + 1));
  }

  lemma Begins(a: Bytes, b: Bytes)
    requires |a| <= |b|
    ensures a <= b <==> b[..|a|] == a
  {
  }

  lemma CopiedBound(stack: Bytes, rs: seq<Recv>, k: nat)
    requires k < |rs| && |stack| == SOCK_READBUFSIZE && NEWLINE in BytesOf(rs[k])
    ensures Copied(stack, rs, k) <= |BytesOf(rs[k])|
  {
    var j :| 0 <= j < |BytesOf(rs[k])| && BytesOf(rs[k])[j] == NEWLINE;
  }

  lemma BlockAsked(env: Env, rs: seq<Recv>, k: nat)
    requires k <= |rs| && |env.stack| == SOCK_READBUFSIZE
    ensures Capacity(rs, k) <= BlockSize(Capacity(rs, k)) && |Block(env, rs, k)| == BlockSize(Capacity(rs, k)) + env.spare
  {
  }

  /** The reader returns after the first receive although that held no newline. */
  ghost predicate EndsEarly(env: Env, rs: seq<Recv>)
    requires rs != [] && |env.stack| == SOCK_READBUFSIZE
  {
    var r := GetLine(env, rs, 0);
    r.Returned? && r.used == 1 && NEWLINE !in BytesOf(rs[0])
  }

  /** Whenever the first receive neither fills the buffer nor holds a newline, and only then, what
      happens to lie in the buffer behind it can end the line. */
  lemma StaleNewline(rs: seq<Recv>, spare: nat, raw: nat -> byte)
    requires Receives(rs) && rs != [] && rs[0].Data? && NUL !in rs[0].bytes
    ensures (exists stack: Bytes :: |stack| == SOCK_READBUFSIZE && EndsEarly(Env(stack, spare, raw), rs)) <==> !Starts(rs)
  {
    if !Starts(rs) {
      var stack: Bytes := seq(SOCK_READBUFSIZE, _ => NEWLINE);
      AllNewlines(Env(stack, spare, raw), rs);
      assert |stack| == SOCK_READBUFSIZE && EndsEarly(Env(stack, spare, raw), rs);
    } else {
      forall stack: Bytes | |stack| == SOCK_READBUFSIZE ensures !EndsEarly(Env(stack, spare, raw), rs) {
        NotEarly(Env(stack, spare, raw), rs);
      }
    }
  }

  lemma AllNewlines(env: Env, rs: seq<Recv>)
    requires Receives(rs) && rs != [] && rs[0].Data? && NUL !in rs[0].bytes && !Starts(rs)
    requires env.stack == seq(SOCK_READBUFSIZE, _ => NEWLINE)
    ensures EndsEarly(env, rs)
  {
    hide Block, EndsLine;
    var chunk, buf := rs[0].bytes, Buffer(env.stack, rs, 1);
    assert Buffer(env.stack, rs, 0) == env.stack + [NUL];
    assert buf == Overwrite(env.stack + [NUL], 0, chunk);
    var ended := chunk + [NEWLINE];
    assert ended <= buf by { assert buf[..|ended|] == ended; }
    assert ended[|chunk|] == NEWLINE;
    LineOfLast(buf, ended);
    FirstFits(rs, env.spare, |Line(buf)|);
    GetLineStep(env, rs, 0);
  }

  lemma FirstFits(rs: seq<Recv>, spare: nat, n: nat)
    requires Receives(rs) && rs != [] && rs[0].Data? && n <= SOCK_READBUFSIZE
    ensures !Fails(rs, 0) && Fits(rs, spare, 0, n)
  {
    assert Received(rs, 1) == rs[0].bytes;
  }

  lemma NotEarly(env: Env, rs: seq<Recv>)
    requires Receives(rs) && |env.stack| == SOCK_READBUFSIZE && rs != [] && rs[0].Data? && NUL !in rs[0].bytes && Starts(rs)
    ensures !EndsEarly(env, rs)
  {
    if NEWLINE !in rs[0].bytes {
      assert Plain(env, rs, 0);
      LineIs(env, rs, 0);
      GetLineStep(env, rs, 0);
      if !Fails(rs, 0) && Fits(rs, env.spare, 0, |LineOf(env.stack, rs, 0)|) { LaterUse(env, rs, 1); }
    }
  }

  lemma {:induction false} LaterUse(env: Env, rs: seq<Recv>, k: nat)
    requires k <= |rs| && |env.stack| == SOCK_READBUFSIZE
    ensures GetLine(env, rs, k).Returned? ==> GetLine(env, rs, k).used > k
    decreases |rs| - k
  {
    hide Block, LineOf, EndsLine, Fits, Fails;
    if k < |rs| { LaterUse(env, rs, k + 1); }
  }

  // ---------------------------------------------------------------------------------------
  // Well-framed lines

  /** Every receive but the last is full and has neither newline nor NUL; the last one's only
      newline is its final byte. */
  ghost predicate WellFramed(rs: seq<Recv>) {
    && rs != []
    && (forall i :: 0 <= i < |rs| ==> rs[i].Data? && !rs[i].noMemory && NUL !in rs[i].bytes)
    && (forall i :: 0 <= i < |rs| - 1 ==> |rs[i].bytes| == SOCK_READBUFSIZE && NEWLINE !in rs[i].bytes)
    && var last := rs[|rs| - 1].bytes;
       last != [] && last[|last| - 1] == NEWLINE && NEWLINE !in last[..|last| - 1]
  }

  /** The whole line, and its length. */
  ghost predicate ReturnsWhole(rs: seq<Recv>, r: Outcome) {
    && r.Returned? && r.used == |rs|
    && r.length == |Received(rs, |rs|)| <= |r.block|
    && r.block[..r.length] == Received(rs, |rs|)
  }

  /**
   A well-framed line is returned whole if the allocator gives a byte more than it is asked for, or
   if the line is shorter than 128 bytes. Otherwise the second copy puts its terminator one byte
   behind the block: the doubled capacity has no place for it.
   */
  lemma WellFramedLine(env: Env, rs: seq<Recv>)
    requires Receives(rs) && |env.stack| == SOCK_READBUFSIZE && WellFramed(rs)
    ensures ReturnsWhole(rs, GetLine(env, rs, 0)) <==> env.spare >= 1 || |Received(rs, |rs|)| < 2 * SOCK_READBUFSIZE
    ensures !ReturnsWhole(rs, GetLine(env, rs, 0)) ==> GetLine(env, rs, 0) == Overrun(1)
  {
    hide Received, Capacity, GetLine, Fits, Fails;
    LastByte(env, rs);
    Framing(env, rs);
    WellFramedStop(env, rs);
  }

  lemma LastByte(env: Env, rs: seq<Recv>)
    requires WellFramed(rs) && |env.stack| == SOCK_READBUFSIZE
    ensures Starts(rs) && Quiet(env, rs) && NoNul(rs, |rs|)
    ensures NEWLINE in rs[|rs| - 1].bytes && Copied(env.stack, rs, |rs| - 1) == |rs[|rs| - 1].bytes|
  {
    var last := rs[|rs| - 1].bytes;
    assert forall i :: 0 <= i < |last| - 1 ==> last[..|last| - 1][i] == last[i];
    IndexIs(last, NEWLINE, 0, |last| - 1);
  }

  lemma {:induction false} FullReceives(rs: seq<Recv>, k: nat)
    requires WellFramed(rs) && k < |rs|
    ensures |Received(rs, k)| == SOCK_READBUFSIZE * k
  {
    if k > 0 { FullReceives(rs, k - 1); }
  }

  /** Where the copies of a well-framed line fit. */
  lemma WellFramedFits(env: Env, rs: seq<Recv>, k: nat)
    requires Receives(rs) && WellFramed(rs) && |env.stack| == SOCK_READBUFSIZE && k < |rs|
    ensures !Fails(rs, k)
    ensures env.spare >= 1 || k == 0 ==> Fits(rs, env.spare, k, Copied(env.stack, rs, k))
    ensures env.spare == 0 && k == 1 ==>
              (Fits(rs, env.spare, 1, Copied(env.stack, rs, 1)) <==> |Received(rs, 2)| < 2 * SOCK_READBUFSIZE)
  {
    hide Copied, Buffer, Quiet, Starts;
    FullReceives(rs, k);
    LastByte(env, rs);
    CopiedWhole(env, rs, k);
    CapacitySuffices(rs, k + 1);
    assert |Received(rs, k + 1)| == |Received(rs, k)| + |rs[k].bytes|;
    if k == 1 { SecondCapacity(rs); }
  }

  lemma CopiedWhole(env: Env, rs: seq<Recv>, k: nat)
    requires Receives(rs) && WellFramed(rs) && |env.stack| == SOCK_READBUFSIZE && k < |rs|
    ensures Copied(env.stack, rs, k) == |rs[k].bytes| <= SOCK_READBUFSIZE
  {
    LastByte(env, rs);
    if k < |rs| - 1 {
      assert Plain(env, rs, k);
      CopiedFull(env, rs, k);
    }
  }

  lemma SecondCapacity(rs: seq<Recv>)
    requires Receives(rs) && WellFramed(rs) && |rs| > 1
    ensures Capacity(rs, 2) == 2 * SOCK_READBUFSIZE
  {
    FullReceives(rs, 1);
    assert |Received(rs, 2)| == |Received(rs, 1)| + |rs[1].bytes|;
    assert Capacity(rs, 1) == SOCK_READBUFSIZE;
  }

  lemma WellFramedStop(env: Env, rs: seq<Recv>)
    requires Receives(rs) && WellFramed(rs) && |env.stack| == SOCK_READBUFSIZE
    ensures var n := Stop(env, rs, 0);
      if env.spare >= 1 || |Received(rs, |rs|)| < 2 * SOCK_READBUFSIZE
      then n == |rs| - 1 && !Fails(rs, n) && Fits(rs, env.spare, n, Copied(env.stack, rs, n))
      else |rs| > 1 && n == 1 && !Fails(rs, 1) && !Fits(rs, env.spare, 1, Copied(env.stack, rs, 1))
  {
    hide Received, Capacity, Fails, Fits, Copied, Starts, Quiet;
    var n := Stop(env, rs, 0);
    forall k | 0 <= k < |rs|
      ensures !Fails(rs, k) && (env.spare >= 1 || k == 0 ==> Fits(rs, env.spare, k, Copied(env.stack, rs, k)))
    {
      WellFramedFits(env, rs, k);
    }
    LastByte(env, rs);
    LengthAtLeast(rs);
    if |rs| > 1 {
      WellFramedFits(env, rs, 1);
      if |rs| > 2 { FullReceives(rs, 2); }
    }
    assert !Passes(env, rs, |rs| - 1);
    assert 0 < n ==> Passes(env, rs, n - 1);
    assert n > 1 ==> Passes(env, rs, 1);
  }

  lemma LengthAtLeast(rs: seq<Recv>)
    requires Receives(rs) && WellFramed(rs)
    ensures |Received(rs, |rs|)| > SOCK_READBUFSIZE * (|rs| - 1)
    ensures |rs| == 1 ==> |Received(rs, |rs|)| <= SOCK_READBUFSIZE
  {
    FullReceives(rs, |rs| - 1);
  }
}
