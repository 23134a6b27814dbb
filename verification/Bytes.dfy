/** Bytes, byte strings and the little vocabulary the other modules share. */
module Bytes {

  newtype byte = x: int | 0 <= x < 256

  type Bytes = seq<byte>

  const NUL: byte := 0
  const NEWLINE: byte := 10

  /** Range of size_t on the 64-bit targets the driver and the server are built for. */
  const SIZE_T: int := 0x1_0000_0000_0000_0000

  /** Arithmetic in size_t wraps. */
  function SizeT(x: int): (r: int)
    ensures 0 <= r < SIZE_T
    ensures 0 <= x < SIZE_T ==> r == x
    ensures -SIZE_T <= x < 0 ==> r == x + SIZE_T
  {
    x % 0x1_0000_0000_0000_0000
  }

  datatype Option<+T> = None | Some(value: T)

  function Min(a: int, b: int): int {
    if a <= b then a else b
  }

  /** The byte string obtained by laying the parts end to end. */
  function Flatten(parts: seq<Bytes>): Bytes {
    if parts == [] then [] else Flatten(parts[..|parts| - 1]) + parts[|parts| - 1]
  }

  lemma {:induction false} FlattenAppend(a: seq<Bytes>, b: seq<Bytes>)
    ensures Flatten(a + b) == Flatten(a) + Flatten(b)
    decreases |b|
  {
    if b == [] {
      assert a + b == a;
    } else {
      var front := b[..|b| - 1];
      assert (a + b)[..|a + b| - 1] == a + front;
      FlattenAppend(a, front);
    }
  }

  lemma FlattenSnoc(a: seq<Bytes>, x: Bytes)
    ensures Flatten(a + [x]) == Flatten(a) + x
  {
    assert (a + [x])[..|a|] == a;
  }

  lemma FlattenCons(x: Bytes, a: seq<Bytes>)
    ensures Flatten([x] + a) == x + Flatten(a)
  {
    FlattenAppend([x], a);
    assert [x][..0] == [];
    assert Flatten([x]) == x;
  }

  /** Replaces the bytes of `s` from `at` on by `src`, as memcpy does. */
  function Overwrite(s: Bytes, at: nat, src: Bytes): (r: Bytes)
    requires at + |src| <= |s|
    ensures |r| == |s|
  {
    s[..at] + src + s[at + |src|..]
  }
}
