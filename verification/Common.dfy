/**
 Machine words shared by the models: 8-bit bytes, 32-bit two's-complement integers
 with explicit wrap-around, and big-endian 16- and 32-bit fields inside a byte sequence.
 */
module Common {

  const TWO_8: int := 0x100
  const TWO_16: int := 0x1_0000
  const TWO_30: int := 0x4000_0000
  const TWO_31: int := 0x8000_0000
  const TWO_32: int := 0x1_0000_0000

  type byte = x: int | 0 <= x < 0x100
  type word32 = x: int | 0 <= x < 0x1_0000_0000
  type int32 = x: int | -0x8000_0000 <= x < 0x8000_0000

  datatype Option<+T> = None | Some(value: T)

  /** The 32-bit two's-complement value congruent to `x`. */
  function Wrap32(x: int): (r: int32)
    ensures (r - x) % 0x1_0000_0000 == 0
  {
    (x + 0x8000_0000) % 0x1_0000_0000 - 0x8000_0000
  }

  /** Adding back a wrapped difference recovers the second operand exactly. */
  lemma {:induction false} WrapDifference(a: int32, b: int32)
    ensures Wrap32(a + Wrap32(b - a)) == b
  {
  }

  /** The wrapped difference of a wrapped sum is the addend. */
  lemma {:induction false} WrapSum(a: int32, d: int32)
    ensures Wrap32(Wrap32(a + d) - a) == d
  {
  }

  function Min(a: int, b: int): int {
    if a < b then a else b
  }

  function Max(a: int, b: int): int {
    if a < b then b else a
  }

  lemma {:induction false} ConcatAssoc<T>(a: seq<T>, b: seq<T>, c: seq<T>)
    ensures (a + b) + c == a + (b + c)
  {
  }

  /** A non-empty sequence is its front followed by its last element. */
  lemma {:induction false} SplitLast<T>(s: seq<T>)
    requires s != []
    ensures s == s[..|s| - 1] + [s[|s| - 1]]
  {
  }

  lemma {:induction false} AppendLast<T>(a: seq<T>, b: seq<T>)
    requires b != []
    ensures (a + b)[..|a + b| - 1] == a + b[..|b| - 1]
    ensures (a + b)[|a + b| - 1] == b[|b| - 1]
  {
  }

  /** Big-endian fields, as written by storeword/htons and storelongint/htonl. */
  function Word16(v: int): (s: seq<byte>)
    ensures |s| == 2
  {
    [(v / 256) % 256, v % 256]
  }

  function Word32(v: int): (s: seq<byte>)
    ensures |s| == 4
  {
    Word16(v / TWO_16) + Word16(v)
  }

  function Read16(s: seq<byte>, at: nat): (v: int)
    requires at + 2 <= |s|
    ensures 0 <= v < TWO_16
  {
    (s[at] as int) * 256 + s[at + 1] as int
  }

  function Read32(s: seq<byte>, at: nat): (v: word32)
    requires at + 4 <= |s|
  {
    Read16(s, at) * TWO_16 + Read16(s, at + 2)
  }

  lemma {:induction false} Digits(v: int, b: int)
    requires b == TWO_8 || b == TWO_16
    ensures (v / b % b) * b + v % b == v % (b * b)
  {
    if b == TWO_8 {
      assert v % TWO_16 == v - (v / TWO_16) * TWO_16 && (v / TWO_8) / TWO_8 == v / TWO_16;
    } else {
      assert v % TWO_32 == v - (v / TWO_32) * TWO_32 && (v / TWO_16) / TWO_16 == v / TWO_32;
    }
  }

  lemma {:induction false} ReadBack16(v: int, s: seq<byte>, at: nat)
    requires at + 2 <= |s| && s[at..at + 2] == Word16(v)
    ensures Read16(s, at) == v % TWO_16
  {
    assert s[at] == s[at..at + 2][0] && s[at + 1] == s[at..at + 2][1];
    Digits(v, TWO_8);
  }

  lemma {:induction false} ReadBack32(v: int, s: seq<byte>, at: nat)
    requires at + 4 <= |s| && s[at..at + 4] == Word32(v)
    ensures Read32(s, at) == v % TWO_32
  {
    assert s[at..at + 2] == s[at..at + 4][..2] && s[at + 2..at + 4] == s[at..at + 4][2..];
    ReadBack16(v / TWO_16, s, at);
    ReadBack16(v, s, at + 2);
    Digits(v, TWO_16);
  }

  function Zeros(n: nat): (s: seq<byte>)
    ensures |s| == n
  {
    seq(n, _ => 0)
  }

  /** `s` with the bytes `b` written over it starting at `at`. */
  function Splice(s: seq<byte>, at: nat, b: seq<byte>): (r: seq<byte>)
    requires at + |b| <= |s|
    ensures |r| == |s|
    ensures r[at..at + |b|] == b
    ensures r[..at] == s[..at]
    ensures r[at + |b|..] == s[at + |b|..]
  {
    s[..at] + b + s[at + |b|..]
  }
}
