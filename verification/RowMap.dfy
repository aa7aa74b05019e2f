/**
 The row map of the FMash format: 3-bit values packed into bytes, eight of them to three bytes.
 */
module RowMap {
  import opened Common

  /** Value k of eight, read from three bytes. */
  function Get8(a: byte, b: byte, c: byte, k: nat): (v: nat)
    requires k < 8
    ensures v < 8
  {
    match k
    case 0 => a % 8
    case 1 => a / 8 % 8
    case 2 => a / 64 % 4 + b % 2 * 4
    case 3 => b / 2 % 8
    case 4 => b / 16 % 8
    case 5 => b / 128 % 2 + c % 4 * 2
    case 6 => c / 4 % 8
    case _ => c / 32 % 8
  }

  /** The three bytes with value k replaced, every other bit kept. */
  function Set8(a: byte, b: byte, c: byte, k: nat, v: nat): (r: (byte, byte, byte))
    requires k < 8 && v < 8
  {
    match k
    case 0 => (a / 8 * 8 + v, b, c)
    case 1 => (a / 64 * 64 + v * 8 + a % 8, b, c)
    case 2 => (v % 4 * 64 + a % 64, b / 2 * 2 + v / 4, c)
    case 3 => (a, b / 16 * 16 + v * 2 + b % 2, c)
    case 4 => (a, b / 128 * 128 + v * 16 + b % 16, c)
    case 5 => (a, v % 2 * 128 + b % 128, c / 4 * 4 + v / 2)
    case 6 => (a, b, c / 32 * 32 + v * 4 + c % 4)
    case _ => (a, b, v * 32 + c % 32)
  }

  // The fields of the three bytes: 3, 3 and 2 bits; 1, 3, 3 and 1 bits; 2, 3 and 3 bits.

  lemma {:induction false} FieldsA(x: nat, y: nat, z: nat)
    requires x < 8 && y < 8 && z < 4
    ensures var a := x + 8 * y + 64 * z;
            a < 256 && a % 8 == x && a / 8 % 8 == y && a / 64 == z && a / 64 % 4 == z && a % 64 == x + 8 * y
                && a / 8 == y + 8 * z
  {
  }

  lemma {:induction false} FieldsB(x: nat, y: nat, z: nat, w: nat)
    requires x < 2 && y < 8 && z < 8 && w < 2
    ensures var b := x + 2 * y + 16 * z + 128 * w;
            && b < 256 && b % 2 == x && b / 2 % 8 == y && b / 16 % 8 == z && b / 128 == w && b / 128 % 2 == w
            && b / 2 == y + 8 * z + 64 * w && b / 16 == z + 8 * w && b % 16 == x + 2 * y
               && b % 128 == x + 2 * y + 16 * z
  {
    var b := x + 2 * y + 16 * z + 128 * w;
    assert b / 2 == y + 8 * (z + 8 * w) && b / 16 == z + 8 * w;
  }

  lemma {:induction false} FieldsC(x: nat, y: nat, z: nat)
    requires x < 4 && y < 8 && z < 8
    ensures var c := x + 4 * y + 32 * z;
            c < 256 && c % 4 == x && c / 4 % 8 == y && c / 32 == z && c / 32 % 8 == z && c % 32 == x + 4 * y
                && c / 4 == y + 8 * z
  {
  }

  lemma {:induction false} SplitA(a: byte)
    ensures a == a % 8 + 8 * (a / 8 % 8) + 64 * (a / 64) && a / 64 < 4
  {
  }

  lemma {:induction false} SplitB(b: byte)
    ensures b == b % 2 + 2 * (b / 2 % 8) + 16 * (b / 16 % 8) + 128 * (b / 128) && b / 128 < 2
  {
    assert b / 16 == b / 2 / 8 && b / 128 == b / 16 / 8;
  }

  lemma {:induction false} SplitC(c: byte)
    ensures c == c % 4 + 4 * (c / 4 % 8) + 32 * (c / 32) && c / 32 < 8
  {
  }

  lemma {:induction false} GetSetFirst(a0: nat, a1: nat, a2: nat, b0: nat, b1: nat, b2: nat, b3: nat, c0: nat,
                                       c1: nat, c2: nat,
                                      a: byte, b: byte, c: byte, k: nat, v: nat, j: nat)
    requires a0 < 8 && a1 < 8 && a2 < 4 && b0 < 2 && b1 < 8 && b2 < 8 && b3 < 2 && c0 < 4 && c1 < 8 && c2 < 8
    requires a == a0 + 8 * a1 + 64 * a2 && b == b0 + 2 * b1 + 16 * b2 + 128 * b3 && c == c0 + 4 * c1 + 32 * c2
    requires k < 2 && v < 8 && j < 8
    ensures var r := Set8(a, b, c, k, v); Get8(r.0, r.1, r.2, j) == if j == k then v else Get8(a, b, c, j)
  {
    FieldsA(a0, a1, a2);
    FieldsB(b0, b1, b2, b3);
    FieldsC(c0, c1, c2);
    match k
    case 0 => FieldsA(v, a1, a2);
    case _ => FieldsA(a0, v, a2);
  }

  lemma {:induction false} GetSetThird(a0: nat, a1: nat, a2: nat, b0: nat, b1: nat, b2: nat, b3: nat, c0: nat,
                                       c1: nat, c2: nat,
                                      a: byte, b: byte, c: byte, k: nat, v: nat, j: nat)
    requires a0 < 8 && a1 < 8 && a2 < 4 && b0 < 2 && b1 < 8 && b2 < 8 && b3 < 2 && c0 < 4 && c1 < 8 && c2 < 8
    requires a == a0 + 8 * a1 + 64 * a2 && b == b0 + 2 * b1 + 16 * b2 + 128 * b3 && c == c0 + 4 * c1 + 32 * c2
    requires k == 2 && v < 8 && j < 8
    ensures var r := Set8(a, b, c, k, v); Get8(r.0, r.1, r.2, j) == if j == k then v else Get8(a, b, c, j)
  {
    FieldsA(a0, a1, a2);
    FieldsB(b0, b1, b2, b3);
    FieldsC(c0, c1, c2);
    FieldsA(a0, a1, v % 4);
    FieldsB(v / 4, b1, b2, b3);
  }

  lemma {:induction false} GetSetMid(a0: nat, a1: nat, a2: nat, b0: nat, b1: nat, b2: nat, b3: nat, c0: nat, c1: nat,
                                     c2: nat,
                                      a: byte, b: byte, c: byte, k: nat, v: nat, j: nat)
    requires a0 < 8 && a1 < 8 && a2 < 4 && b0 < 2 && b1 < 8 && b2 < 8 && b3 < 2 && c0 < 4 && c1 < 8 && c2 < 8
    requires a == a0 + 8 * a1 + 64 * a2 && b == b0 + 2 * b1 + 16 * b2 + 128 * b3 && c == c0 + 4 * c1 + 32 * c2
    requires 3 <= k < 5 && v < 8 && j < 8
    ensures var r := Set8(a, b, c, k, v); Get8(r.0, r.1, r.2, j) == if j == k then v else Get8(a, b, c, j)
  {
    FieldsA(a0, a1, a2);
    FieldsB(b0, b1, b2, b3);
    FieldsC(c0, c1, c2);
    match k
    case 3 => FieldsB(b0, v, b2, b3);
    case _ => FieldsB(b0, b1, v, b3);
  }

  lemma {:induction false} GetSetSixth(a0: nat, a1: nat, a2: nat, b0: nat, b1: nat, b2: nat, b3: nat, c0: nat,
                                       c1: nat, c2: nat,
                                      a: byte, b: byte, c: byte, k: nat, v: nat, j: nat)
    requires a0 < 8 && a1 < 8 && a2 < 4 && b0 < 2 && b1 < 8 && b2 < 8 && b3 < 2 && c0 < 4 && c1 < 8 && c2 < 8
    requires a == a0 + 8 * a1 + 64 * a2 && b == b0 + 2 * b1 + 16 * b2 + 128 * b3 && c == c0 + 4 * c1 + 32 * c2
    requires k == 5 && v < 8 && j < 8
    ensures var r := Set8(a, b, c, k, v); Get8(r.0, r.1, r.2, j) == if j == k then v else Get8(a, b, c, j)
  {
    FieldsA(a0, a1, a2);
    FieldsB(b0, b1, b2, b3);
    FieldsC(c0, c1, c2);
    FieldsB(b0, b1, b2, v % 2);
    FieldsC(v / 2, c1, c2);
  }

  lemma {:induction false} GetSetLast(a0: nat, a1: nat, a2: nat, b0: nat, b1: nat, b2: nat, b3: nat, c0: nat, c1: nat,
                                      c2: nat,
                                      a: byte, b: byte, c: byte, k: nat, v: nat, j: nat)
    requires a0 < 8 && a1 < 8 && a2 < 4 && b0 < 2 && b1 < 8 && b2 < 8 && b3 < 2 && c0 < 4 && c1 < 8 && c2 < 8
    requires a == a0 + 8 * a1 + 64 * a2 && b == b0 + 2 * b1 + 16 * b2 + 128 * b3 && c == c0 + 4 * c1 + 32 * c2
    requires 6 <= k < 8 && v < 8 && j < 8
    ensures var r := Set8(a, b, c, k, v); Get8(r.0, r.1, r.2, j) == if j == k then v else Get8(a, b, c, j)
  {
    FieldsA(a0, a1, a2);
    FieldsB(b0, b1, b2, b3);
    FieldsC(c0, c1, c2);
    match k
    case 6 => FieldsC(c0, v, c2);
    case _ => FieldsC(c0, c1, v);
  }

  /** Setting one value sets it and leaves the other seven alone. */
  lemma {:induction false} GetSet8(a: byte, b: byte, c: byte, k: nat, v: nat, j: nat)
    requires k < 8 && v < 8 && j < 8
    ensures var r := Set8(a, b, c, k, v); Get8(r.0, r.1, r.2, j) == if j == k then v else Get8(a, b, c, j)
  {
    SplitA(a);
    SplitB(b);
    SplitC(c);
    if k < 2 {
      GetSetFirst(a % 8, a / 8 % 8, a / 64, b % 2, b / 2 % 8, b / 16 % 8, b / 128, c % 4, c / 4 % 8, c / 32, a, b, c,
                  k, v, j);
    } else if k == 2 {
      GetSetThird(a % 8, a / 8 % 8, a / 64, b % 2, b / 2 % 8, b / 16 % 8, b / 128, c % 4, c / 4 % 8, c / 32, a, b, c,
                  k, v, j);
    } else if k < 5 {
      GetSetMid(a % 8, a / 8 % 8, a / 64, b % 2, b / 2 % 8, b / 16 % 8, b / 128, c % 4, c / 4 % 8, c / 32, a, b, c, k,
                v, j);
    } else if k == 5 {
      GetSetSixth(a % 8, a / 8 % 8, a / 64, b % 2, b / 2 % 8, b / 16 % 8, b / 128, c % 4, c / 4 % 8, c / 32, a, b, c,
                  k, v, j);
    } else {
      GetSetLast(a % 8, a / 8 % 8, a / 64, b % 2, b / 2 % 8, b / 16 % 8, b / 128, c % 4, c / 4 % 8, c / 32, a, b, c,
                 k, v, j);
    }
  }

  /** Value i of a map, and the map with it set. */
  function Get(m: seq<byte>, i: nat): (v: nat)
    requires i / 8 * 3 + 3 <= |m|
    ensures v < 8
  {
    var pos := i / 8 * 3;
    Get8(m[pos], m[pos + 1], m[pos + 2], i % 8)
  }

  function Set(m: seq<byte>, i: nat, v: nat): (r: seq<byte>)
    requires i / 8 * 3 + 3 <= |m| && v < 8
    ensures |r| == |m|
  {
    var pos := i / 8 * 3;
    var t := Set8(m[pos], m[pos + 1], m[pos + 2], i % 8, v);
    m[pos := t.0][pos + 1 := t.1][pos + 2 := t.2]
  }

  /** Setting one value of a map changes no other. */
  lemma {:induction false} GetSet(m: seq<byte>, i: nat, v: nat, j: nat)
    requires i / 8 * 3 + 3 <= |m| && v < 8 && j / 8 * 3 + 3 <= |m|
    ensures Get(Set(m, i, v), j) == if j == i then v else Get(m, j)
  {
    if i / 8 == j / 8 {
      GetSet8(m[i / 8 * 3], m[i / 8 * 3 + 1], m[i / 8 * 3 + 2], i % 8, v, j % 8);
    }
  }

  /** map_3_set on the map that stands at `at` in a buffer. */
  method SetInPlace(a: array<byte>, at: nat, i: nat, v: nat, n: nat)
    requires at + n <= a.Length && i / 8 * 3 + 3 <= n && v < 8
    modifies a
    ensures a[..] == Splice(old(a[..]), at, Set(old(a[..])[at..at + n], i, v))
  {
    ghost var was, m := a[..], a[..][at..at + n];
    var pos := at + i / 8 * 3;
    assert m[i / 8 * 3] == was[pos] && m[i / 8 * 3 + 1] == was[pos + 1] && m[i / 8 * 3 + 2] == was[pos + 2];
    var t := Set8(a[pos], a[pos + 1], a[pos + 2], i % 8, v);
    a[pos], a[pos + 1], a[pos + 2] := t.0, t.1, t.2;
    assert a[..] == was[pos := t.0][pos + 1 := t.1][pos + 2 := t.2];
    SpliceThree(was, at, n, i / 8 * 3, t.0, t.1, t.2);
  }

  lemma {:induction false} SpliceThree(s: seq<byte>, at: nat, n: nat, p: nat, x: byte, y: byte, z: byte)
    requires at + n <= |s| && p + 3 <= n
    ensures s[at + p := x][at + p + 1 := y][at + p + 2 := z]
            == Splice(s, at, s[at..at + n][p := x][p + 1 := y][p + 2 := z])
  {
  }
}
