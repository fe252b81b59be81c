/** Byte strings, big-endian integers and the two ends a stream copier works between. */
module Bytes {
  type byte = b: int | 0 <= b < 256
  type bytes = seq<byte>

  // How a reader behaves once its bytes are used up: a clean end of file, or an error.
  datatype End = Eof | Broken

  // Unsigned big-endian decoding, as encoding/binary does it.
  function U2(b: bytes): nat
    requires |b| == 2
  {
    var hi: nat, lo: nat := b[0], b[1];
    hi * 0x100 + lo
  }

  function U4(b: bytes): nat
    requires |b| == 4
  {
    U2(b[..2]) * 0x1_0000 + U2(b[2..])
  }

  function Enc2(n: nat): (b: bytes)
    requires n < 0x1_0000
    ensures |b| == 2 && U2(b) == n
  {
    [n / 0x100, n % 0x100]
  }

  function Enc4(n: nat): (b: bytes)
    requires n < 0x1_0000_0000
    ensures |b| == 4 && U4(b) == n
  {
    var hi, lo := Enc2(n / 0x1_0000), Enc2(n % 0x1_0000);
    assert (hi + lo)[..2] == hi && (hi + lo)[2..] == lo;
    hi + lo
  }

  // The encodings are onto: every two or four bytes are the encoding of what they decode to.
  lemma Enc2OfU2(b: bytes)
    requires |b| == 2
    ensures U2(b) < 0x1_0000 && Enc2(U2(b)) == b
  {
  }

  lemma Enc4OfU4(b: bytes)
    requires |b| == 4
    ensures U4(b) < 0x1_0000_0000 && Enc4(U4(b)) == b
  {
    Enc2OfU2(b[..2]);
    Enc2OfU2(b[2..]);
    assert b == b[..2] + b[2..];
  }

  // The position of the first NUL at or after i, or |x|.
  function FirstNul(x: bytes, i: nat): (j: nat)
    requires i <= |x|
    ensures i <= j <= |x|
    ensures forall k :: i <= k < j ==> x[k] != 0
    ensures j < |x| ==> x[j] == 0
    decreases |x| - i
  {
    if i == |x| || x[i] == 0 then i else FirstNul(x, i + 1)
  }

  lemma FirstNulUnique(x: bytes, j: nat)
    requires j <= |x| && (j < |x| ==> x[j] == 0)
    requires forall i :: 0 <= i < j ==> x[i] != 0
    ensures FirstNul(x, 0) == j
  {
  }

  function Code(c: char): (b: byte)
    requires c as int < 128
  {
    c as int
  }

  // The bytes of a text without special characters.
  function Ascii(s: string): (b: bytes)
    requires forall i :: 0 <= i < |s| ==> s[i] as int < 128
    ensures |b| == |s| && forall i :: 0 <= i < |s| ==> b[i] == s[i] as int
  {
    seq(|s|, i requires 0 <= i < |s| => Code(s[i]))
  }

  function Zeros(n: nat): (z: bytes)
    ensures |z| == n && forall i :: 0 <= i < n ==> z[i] == 0
  {
    seq(n, _ => 0)
  }

  function Falses(n: nat): (m: seq<bool>)
    ensures |m| == n && forall i :: 0 <= i < n ==> !m[i]
  {
    seq(n, _ => false)
  }

  function Trues(n: nat): (m: seq<bool>)
    ensures |m| == n && forall i :: 0 <= i < n ==> m[i]
  {
    seq(n, _ => true)
  }

  /** Two equal concatenations with equally long left parts agree part by part. */
  lemma SplitEqual(a1: bytes, b1: bytes, a2: bytes, b2: bytes)
    requires a1 + b1 == a2 + b2
    requires |a1| == |a2|
    ensures a1 == a2 && b1 == b2
  {
    assert a1 == (a1 + b1)[..|a1|] && a2 == (a2 + b2)[..|a1|];
    assert b1 == (a1 + b1)[|a1|..] && b2 == (a2 + b2)[|a1|..];
  }
}
