/**
 The seek command of the char-device build (server/src/connection.c): "AESDCHAR_IOCSEEKTO:X,Y"
 parsed with strtoul (ISO/IEC 9899:2011, section 7.22.1.4) through an int temporary. unsigned
 long has 64 bits, int 32.
 */
module SeekCommand {
  import opened Bytes

  const ULONG_RANGE: int := 0x1_0000_0000_0000_0000
  const UINT_RANGE: int := 0x1_0000_0000

  function ToByte(c: char): byte {
    if c as int < 256 then c as byte else NUL
  }

  /** The bytes of an ASCII literal. */
  function Ascii(s: string): Bytes {
    seq(|s|, i requires 0 <= i < |s| => ToByte(s[i]))
  }

  const PREFIX: Bytes := Ascii("AESDCHAR_IOCSEEKTO:")
  const COMMA: byte := 44

  predicate IsDigit(b: byte) {
    48 <= b <= 57
  }

  /** isspace in the C locale. */
  predicate IsSpace(b: byte) {
    b == 32 || 9 <= b <= 13
  }

  // ---------------------------------------------------------------------------------------
  // strtoul, base 10

  function SkipSpaces(s: Bytes, i: nat): (j: nat)
    requires i <= |s|
    ensures i <= j <= |s|
    decreases |s| - i
  {
    if i < |s| && IsSpace(s[i]) then SkipSpaces(s, i + 1) else i
  }

  function SkipDigits(s: Bytes, i: nat): (j: nat)
    requires i <= |s|
    ensures i <= j <= |s|
    ensures forall k :: i <= k < j ==> IsDigit(s[k])
    ensures j < |s| ==> !IsDigit(s[j])
    decreases |s| - i
  {
    if i < |s| && IsDigit(s[i]) then SkipDigits(s, i + 1) else i
  }

  /** The number a run of digits denotes. */
  function Value(digits: Bytes): nat
    requires forall k :: 0 <= k < |digits| ==> IsDigit(digits[k])
  {
    if digits == [] then 0 else 10 * Value(digits[..|digits| - 1]) + DigitValue(digits[|digits| - 1])
  }

  function DigitValue(b: byte): nat
    requires IsDigit(b)
  {
    b as int - 48
  }

  /** A conversion's value, where it says it ended, and the last index it looked at. */
  datatype Conversion = Conversion(value: nat, end: nat, seen: nat)

  /** With no digits the value is 0 and the end is the beginning. */
  function StrToUl(s: Bytes, from: nat): (c: Conversion)
    requires from <= |s|
    ensures c.value < ULONG_RANGE
    ensures from <= c.end <= c.seen <= |s|
    ensures c.end == from || (0 < c.end && IsDigit(s[c.end - 1]))
  {
    var signed := SkipSpaces(s, from);
    var start := if signed < |s| && (s[signed] == 43 || s[signed] == 45) then signed + 1 else signed;
    var end := SkipDigits(s, start);
    if end == start then Conversion(0, from, end)
    else
      var v := Value(s[start..end]);
      if v >= ULONG_RANGE then Conversion(ULONG_RANGE - 1, end, end)
      else if start > signed && s[signed] == 45 && v > 0 then Conversion(ULONG_RANGE - v, end, end)
      else Conversion(v, end, end)
  }

  // ---------------------------------------------------------------------------------------
  // The handler's parsing

  /** An unsigned long stored in an int. */
  function AsInt(v: nat): (r: int)
    ensures r == (v % UINT_RANGE) || r == (v % UINT_RANGE) - UINT_RANGE
    ensures r == -1 <==> v % UINT_RANGE == UINT_RANGE - 1
  {
    var low := v % UINT_RANGE;
    if low >= 0x8000_0000 then low - UINT_RANGE else low
  }

  /** An int converted to uint32_t. */
  function AsUint32(x: int): nat {
    x % UINT_RANGE
  }

  /** An int compared with ULONG_MAX is converted to unsigned long first. */
  predicate IsUlongMax(x: int) {
    (if x < 0 then x + ULONG_RANGE else x) == ULONG_RANGE - 1
  }

  /** `Stray`: the parsing looks outside the memory that holds the packet. */
  datatype Parsed = SeekTo(writeCmd: nat, writeCmdOffset: nat) | Abort | NotSeek | Stray

  /**
   strncmp with the prefix, then two conversions; each result goes through `error`, an int. `mem`
   is the memory from the packet on to the end of its block, terminators and all.
   */
  method ParseSeek(mem: Bytes) returns (r: Parsed)
    ensures r == Parse(mem)
  {
    hide AsInt, AsUint32, IsUlongMax, StrToUl;
    if !(PREFIX <= mem) {
      return if mem <= PREFIX then Stray else NotSeek;
    }
    var first := StrToUl(mem, |PREFIX|);
    if first.seen == |mem| {
      return Stray;
    }
    ThroughInt(first.value);
    var error := AsInt(first.value);
    if IsUlongMax(error) {
      return Abort;
    }
    var writeCmd := AsUint32(error);
    var second := StrToUl(mem, first.end + 1);
    if second.seen == |mem| {
      return Stray;
    }
    ThroughInt(second.value);
    error := AsInt(second.value);
    if IsUlongMax(error) {
      return Abort;
    }
    return SeekTo(writeCmd, AsUint32(error));
  }

  /** Through the int and back: the low 32 bits, with all ones taken for ULONG_MAX. */
  lemma ThroughInt(v: nat)
    ensures IsUlongMax(AsInt(v)) <==> v % UINT_RANGE == UINT_RANGE - 1
    ensures AsUint32(AsInt(v)) == v % UINT_RANGE
  {
  }

  lemma PrefixHasNoNewline()
    ensures |PREFIX| == 19 && forall i :: 0 <= i < |PREFIX| ==> PREFIX[i] != NEWLINE
  {
    var text := "AESDCHAR_IOCSEEKTO:";
    forall i | 0 <= i < |text| ensures PREFIX[i] != NEWLINE {
      assert PREFIX[i] == ToByte(text[i]);
      assert text[i] in text;
      assert '\n' !in text;
    }
  }

  /** What the handler makes of the packet at the beginning of `mem`. */
  function Parse(mem: Bytes): (r: Parsed)
    ensures r.SeekTo? ==> r.writeCmd < UINT_RANGE && r.writeCmdOffset < UINT_RANGE
  {
    if !(PREFIX <= mem) then if mem <= PREFIX then Stray else NotSeek
    else
      var first := StrToUl(mem, |PREFIX|);
      if first.seen == |mem| then Stray
      else if first.value % UINT_RANGE == UINT_RANGE - 1 then Abort
      else
        var second := StrToUl(mem, first.end + 1);
        if second.seen == |mem| then Stray
        else if second.value % UINT_RANGE == UINT_RANGE - 1 then Abort
        else SeekTo(first.value % UINT_RANGE, second.value % UINT_RANGE)
  }

  lemma ThePrefix()
    ensures PREFIX == [65, 69, 83, 68, 67, 72, 65, 82, 95, 73, 79, 67, 83, 69, 69, 75, 84, 79, 58]
  {
  }

  /** The packet differs from the prefix of a seek command at one of its nineteen bytes. */
  ghost predicate IsData(mem: Bytes) {
    exists i :: 0 <= i < |PREFIX| && i < |mem| && mem[i] != PREFIX[i]
  }

  /** Such packets, and no others, are data. */
  lemma DataPacket(mem: Bytes)
    ensures IsData(mem) <==> Parse(mem) == NotSeek
  {
    hide StrToUl;
    if !(PREFIX <= mem) && !(mem <= PREFIX) {
      var i := Differing(mem, PREFIX);
    }
  }

  lemma {:induction false} Differing(a: Bytes, b: Bytes) returns (i: nat)
    requires !(a <= b) && !(b <= a)
    ensures i < |b| && i < |a| && a[i] != b[i]
  {
    if a[0] != b[0] {
      i := 0;
    } else {
      assert a == [a[0]] + a[1..] && b == [b[0]] + b[1..];
      i := Differing(a[1..], b[1..]);
      i := i + 1;
    }
  }

  /** A conversion does not look behind a NUL. */
  lemma StopsAtNul(s: Bytes, from: nat, j: nat)
    requires from <= j < |s| && s[j] == NUL
    ensures StrToUl(s, from).seen <= j
  {
    SpacesStop(s, from, j);
    var signed := SkipSpaces(s, from);
    var start := if signed < |s| && (s[signed] == 43 || s[signed] == 45) then signed + 1 else signed;
    assert SkipDigits(s, start) <= j;
  }

  lemma {:induction false} SpacesStop(s: Bytes, i: nat, j: nat)
    requires i <= j < |s| && s[j] == NUL
    ensures SkipSpaces(s, i) <= j
    decreases j - i
  {
    if i < j { SpacesStop(s, i + 1, j); }
  }

  /** The parsing of a line stays inside it: the first conversion ends before the newline, so the
      second begins at the terminator at the latest. */
  lemma LineStaysInside(mem: Bytes, j: nat)
    requires 0 < j < |mem| && mem[j] == NUL && mem[j - 1] == NEWLINE
    ensures Parse(mem) != Stray
  {
    hide StrToUl;
    PrefixHasNoNewline();
    if PREFIX <= mem {
      assert |PREFIX| <= j - 1;
      StopsAtNul(mem, |PREFIX|, j);
      var first := StrToUl(mem, |PREFIX|);
      assert first.end != j;
      StopsAtNul(mem, first.end + 1, j);
    }
  }

  // ---------------------------------------------------------------------------------------
  // Round trip

  /** A number in decimal. */
  function Decimal(n: nat): (s: Bytes)
    ensures s != []
    ensures forall k :: 0 <= k < |s| ==> IsDigit(s[k])
    ensures Value(s) == n
  {
    var d := (48 + n % 10) as byte;
    if n < 10 then
      assert [d][..0] == [];
      [d]
    else
      var front := Decimal(n / 10);
      assert (front + [d])[..|front|] == front;
      front + [d]
  }

  /** The text a client sends to seek to (x, y). */
  function SeekText(x: nat, y: nat): Bytes {
    PREFIX + Decimal(x) + [COMMA] + Decimal(y) + [NEWLINE]
  }

  lemma {:induction false} SkipsRun(s: Bytes, i: nat, j: nat)
    requires i <= j < |s| && (forall k :: i <= k < j ==> IsDigit(s[k])) && !IsDigit(s[j])
    ensures SkipDigits(s, i) == j
    decreases j - i
  {
    if i < j {
      SkipsRun(s, i + 1, j);
    }
  }

  lemma {:induction false} SkipsSpaceRun(s: Bytes, i: nat, j: nat)
    requires i <= j < |s| && (forall k :: i <= k < j ==> IsSpace(s[k])) && !IsSpace(s[j])
    ensures SkipSpaces(s, i) == j
    decreases j - i
  {
    if i < j {
      SkipsSpaceRun(s, i + 1, j);
    }
  }

  function Saturated(n: nat): nat {
    if n < ULONG_RANGE then n else ULONG_RANGE - 1
  }

  /** What section 7.22.1.4 takes a conversion's input apart into: white space, a sign, digits. */
  datatype Subject = Subject(spaces: Bytes, sign: Bytes, digits: Bytes) {

    function Text(): Bytes {
      spaces + sign + digits
    }

    /** `after` is where the subject ends. */
    ghost predicate Before(after: Bytes) {
      && (forall k :: 0 <= k < |spaces| ==> IsSpace(spaces[k]))
      && (sign == [] || sign == [43] || sign == [45])
      && (forall k :: 0 <= k < |digits| ==> IsDigit(digits[k]))
      && after != [] && !IsDigit(after[0])
      && (sign == [] && digits == [] ==> !IsSpace(after[0]) && after[0] != 43 && after[0] != 45)
    }

    /** Nothing is 0; too much is the largest value; a minus sign negates in unsigned long. */
    function Denotes(): nat
      requires forall k :: 0 <= k < |digits| ==> IsDigit(digits[k])
    {
      var v := Value(digits);
      if v >= ULONG_RANGE then ULONG_RANGE - 1
      else if sign == [45] && v > 0 then ULONG_RANGE - v
      else v
    }
  }

  /** strtoul on every input that ends: the subject's value, and its end if it has digits. */
  lemma ReadsSubject(before: Bytes, n: Subject, after: Bytes)
    requires n.Before(after)
    ensures var end := |before| + |n.Text()|;
      StrToUl(before + n.Text() + after, |before|)
      == Conversion(n.Denotes(), if n.digits == [] then |before| else end, end)
  {
    hide IsSpace, IsDigit, Value, Subject.Text, Subject.Before;
    var s := before + n.Text() + after;
    var i := |before| + |n.spaces|;
    TextAt(before, n, after);
    NoValue();
    SkipsSpaceRun(s, |before|, i);
    SkipsRun(s, i + |n.sign|, i + |n.sign| + |n.digits|);
  }

  lemma NoValue()
    ensures Value([]) == 0
  {
  }

  lemma TextAt(before: Bytes, n: Subject, after: Bytes)
    requires n.Before(after)
    ensures var s, i := before + n.Text() + after, |before| + |n.spaces|;
      var j, end := i + |n.sign|, i + |n.sign| + |n.digits|;
      && (forall k :: |before| <= k < i ==> IsSpace(s[k])) && !IsSpace(s[i])
      && (i < j ==> s[i] == n.sign[0]) && (i == j ==> s[i] != 43 && s[i] != 45)
      && (forall k :: j <= k < end ==> IsDigit(s[k])) && end < |s| && !IsDigit(s[end])
      && s[j..end] == n.digits
      && end == |before| + |n.Text()|
      && (n.sign == [] || n.sign == [43] || n.sign == [45])
  {
    var s, i := before + n.Text() + after, |before| + |n.spaces|;
    var j, end := i + |n.sign|, i + |n.sign| + |n.digits|;
    forall k | |before| <= k < i ensures IsSpace(s[k]) { assert s[k] == n.spaces[k - |before|]; }
    if n.sign != [] { assert s[i] == n.sign[0]; }
    forall k | j <= k < end ensures IsDigit(s[k]) { assert s[k] == n.digits[k - j]; }
    assert s[end] == after[0];
    assert s[j..end] == n.digits;
  }

  /** Every input whose conversion stays inside it is of this form. */
  lemma SubjectOf(s: Bytes, from: nat) returns (n: Subject, after: Bytes)
    requires from <= |s| && StrToUl(s, from).seen < |s|
    ensures n.Before(after) && s[from..] == n.Text() + after
  {
    hide StrToUl, Subject.Before, IsSpace, IsDigit;
    var signed, start, end := ScanParts(s, from);
    n, after := Subject(s[from..signed], s[signed..start], s[start..end]), s[end..];
    PartsBefore(s, from, signed, start, end);
    Rejoined(s, from, signed, start, end);
  }

  /** Where the white space, the sign and the digits end. */
  ghost predicate IsScan(s: Bytes, from: nat, signed: nat, start: nat, end: nat) {
    && from <= signed <= start <= end < |s|
    && (forall k :: from <= k < signed ==> IsSpace(s[k]))
    && (if start == signed then s[signed] != 43 && s[signed] != 45 && !IsSpace(s[signed])
        else start == signed + 1 && (s[signed] == 43 || s[signed] == 45))
    && (forall k :: start <= k < end ==> IsDigit(s[k]))
    && !IsDigit(s[end])
  }

  lemma ScanParts(s: Bytes, from: nat) returns (signed: nat, start: nat, end: nat)
    requires from <= |s| && StrToUl(s, from).seen < |s|
    ensures IsScan(s, from, signed, start, end)
  {
    hide Value, IsDigit, IsSpace;
    SpacesSkipped(s, from);
    signed := SkipSpaces(s, from);
    start := if s[signed] == 43 || s[signed] == 45 then signed + 1 else signed;
    end := SkipDigits(s, start);
  }

  lemma PartsBefore(s: Bytes, from: nat, signed: nat, start: nat, end: nat)
    requires IsScan(s, from, signed, start, end)
    ensures Subject(s[from..signed], s[signed..start], s[start..end]).Before(s[end..])
  {
    hide IsDigit, IsSpace;
    if start > signed { assert s[signed..start] == [s[signed]]; }
  }

  lemma Rejoined(s: Bytes, a: nat, b: nat, c: nat, d: nat)
    requires a <= b <= c <= d <= |s|
    ensures s[a..b] + s[b..c] + s[c..d] + s[d..] == s[a..]
  {
  }

  lemma {:induction false} SpacesSkipped(s: Bytes, i: nat)
    requires i <= |s|
    ensures var j := SkipSpaces(s, i);
      (forall k :: i <= k < j ==> IsSpace(s[k])) && (j < |s| ==> !IsSpace(s[j]))
    decreases |s| - i
  {
    if i < |s| && IsSpace(s[i]) { SpacesSkipped(s, i + 1); }
  }

  /** Every seek command whose parsing stays inside its memory: two subjects, the second from behind
      the byte after the first number on, or, without one, behind the byte after the prefix. */
  lemma ParseNumbers(mem: Bytes, n: Subject, after: Bytes, m: Subject, behind: Bytes)
    requires mem == PREFIX + n.Text() + after && n.Before(after)
    requires var at := if n.digits == [] then |PREFIX| else |PREFIX| + |n.Text()|;
      at + 1 <= |mem| && mem[at + 1..] == m.Text() + behind && m.Before(behind)
    ensures var (p, q) := (n.Denotes() % UINT_RANGE, m.Denotes() % UINT_RANGE);
      Parse(mem) == if p == UINT_RANGE - 1 || q == UINT_RANGE - 1 then Abort else SeekTo(p, q)
  {
    hide StrToUl, Subject.Denotes, Subject.Text;
    ReadsSubject(PREFIX, n, after);
    var at := if n.digits == [] then |PREFIX| else |PREFIX| + |n.Text()|;
    var front := mem[..at + 1];
    assert mem == front + m.Text() + behind;
    ReadsSubject(front, m, behind);
  }

  /** strtoul reads a decimal number that something other than a digit follows. */
  lemma ReadsDecimal(before: Bytes, n: nat, after: Bytes)
    requires after != [] && !IsDigit(after[0])
    ensures StrToUl(before + Decimal(n) + after, |before|)
            == Conversion(Saturated(n), |before| + |Decimal(n)|, |before| + |Decimal(n)|)
  {
    hide StrToUl, Decimal, Value;
    var subject := Subject([], [], Decimal(n));
    assert subject.Text() == Decimal(n);
    ReadsSubject(before, subject, after);
  }

  /** The text as sock_getline leaves it: terminated, anything behind. */
  function SeekPacket(x: nat, y: nat, behind: Bytes): Bytes {
    SeekText(x, y) + [NUL] + behind
  }

  /** Where the two conversions find their numbers. */
  lemma PacketParts(x: nat, y: nat, behind: Bytes)
    ensures var mem, at := SeekPacket(x, y, behind), |PREFIX| + |Decimal(x)|;
      && PREFIX <= mem && at + 1 + |Decimal(y)| < |mem|
      && StrToUl(mem, |PREFIX|) == Conversion(Saturated(x), at, at)
      && StrToUl(mem, at + 1) == Conversion(Saturated(y), at + 1 + |Decimal(y)|, at + 1 + |Decimal(y)|)
  {
    hide StrToUl, Decimal, Value, Saturated;
    var mem := SeekPacket(x, y, behind);
    var tail := [NEWLINE] + [NUL] + behind;
    var rest := [COMMA] + Decimal(y) + tail;
    assert mem == PREFIX + Decimal(x) + rest;
    ReadsDecimal(PREFIX, x, rest);
    var before := PREFIX + Decimal(x) + [COMMA];
    assert mem == before + Decimal(y) + tail;
    ReadsDecimal(before, y, tail);
  }

  /** For all numbers: what the handler makes of the text a client sends. */
  lemma ParseText(x: nat, y: nat, behind: Bytes)
    ensures var (p, q) := (Saturated(x) % UINT_RANGE, Saturated(y) % UINT_RANGE);
            Parse(SeekPacket(x, y, behind)) == if p == UINT_RANGE - 1 || q == UINT_RANGE - 1 then Abort else SeekTo(p, q)
  {
    hide StrToUl, Decimal, Value, Saturated, SeekPacket;
    PacketParts(x, y, behind);
  }

  /** The command survives the trip exactly when both numbers are below 2^32 - 1. */
  lemma SeekRoundTrip(x: nat, y: nat, behind: Bytes)
    ensures Parse(SeekPacket(x, y, behind)) == SeekTo(x, y) <==> x < UINT_RANGE - 1 && y < UINT_RANGE - 1
  {
    hide Parse, SeekPacket;
    ParseText(x, y, behind);
    LowHalf(x);
    LowHalf(y);
  }

  /** What is left of a number after saturation and the int: itself exactly below 2^32. */
  lemma LowHalf(n: nat)
    ensures n < UINT_RANGE ==> Saturated(n) % UINT_RANGE == n
    ensures Saturated(n) % UINT_RANGE == n ==> n < UINT_RANGE
  {
  }
}
