/**
 Variable-length integers of the FMash format: a signed 32-bit value in one to five bytes. The first byte
 has a type in its two low bits and five bits of the value, every other byte seven (the fifth one six);
 the top bit says that another byte follows, the one below it is the sign when none does.
 */
module Varint {
  import opened Common

  /** The value as an unsigned 32-bit pattern. */
  function Pattern(v: int32): (u: nat)
    ensures u < 0x1_0000_0000
  {
    if v < 0 then v + 0x1_0000_0000 else v
  }

  /** Number of bytes: four bytes reach from -33554431 to 33554431, not to -33554432. */
  function Size(v: int32): (n: nat)
    ensures 1 <= n <= 5
  {
    if -17 < v < 16 then 1
    else if -2049 < v < 2048 then 2
    else if -262145 < v < 262144 then 3
    else if -33554432 < v < 33554432 then 4
    else 5
  }

  /** The bytes of a value with the type in the first one. */
  function Encode(v: int32, tag: nat): (bs: seq<byte>)
    requires tag <= 3
    ensures |bs| == Size(v)
  {
    var u := Pattern(v);
    Pack(Size(v), tag, u % 32, u / 32 % 128, u / 4096 % 128, u / 524288 % 128, u / 67108864 % 64)
  }

  /** The first n bytes: the value's groups of bits, the first one with the type, all but the last with the top bit. */
  function Pack(n: nat, tag: nat, d: nat, g1: nat, g2: nat, g3: nat, g4: nat): (bs: seq<byte>)
    requires 1 <= n <= 5 && tag <= 3 && d < 32 && g1 < 128 && g2 < 128 && g3 < 128 && g4 < 64
    ensures |bs| == n
  {
    match n
    case 1 => [d * 4 + tag]
    case 2 => [d * 4 + tag + 128, g1]
    case 3 => [d * 4 + tag + 128, g1 + 128, g2]
    case 4 => [d * 4 + tag + 128, g1 + 128, g2 + 128, g3]
    case _ => [d * 4 + tag + 128, g1 + 128, g2 + 128, g3 + 128, g4]
  }

  predicate More(b: byte) {
    b >= 128
  }

  predicate Negative(b: byte) {
    b / 64 % 2 == 1
  }

  /** A value of so many bits with its sign bit spread to 32. */
  function Spread(u: nat, b: byte, size: int): (v: int)
  {
    if Negative(b) then u - size else u
  }

  /** The value bits of the first byte, and of any byte after it. */
  function First(b: byte): (u: nat) {
    b / 4 % 32
  }

  function Rest(b: byte): (u: nat) {
    b % 128
  }

  /** The value at a position and the number of its bytes; nothing if the data ends within it. */
  function Decode(bs: seq<byte>, at: nat): Option<(int, nat)>
  {
    if at >= |bs| then None
    else
      var u0 := First(bs[at]);
      if !More(bs[at]) then Some((Spread(u0, bs[at], 32), 1))
      else if at + 1 >= |bs| then None
      else
        var u1 := u0 + Rest(bs[at + 1]) * 32;
        if !More(bs[at + 1]) then Some((Spread(u1, bs[at + 1], 4096), 2))
        else if at + 2 >= |bs| then None
        else
          var u2 := u1 + Rest(bs[at + 2]) * 4096;
          if !More(bs[at + 2]) then Some((Spread(u2, bs[at + 2], 524288), 3))
          else if at + 3 >= |bs| then None
          else
            var u3 := u2 + Rest(bs[at + 3]) * 524288;
            if !More(bs[at + 3]) then Some((Spread(u3, bs[at + 3], 67108864), 4))
            else if at + 4 >= |bs| then None
            else Some((Wrap32(u3 + Rest(bs[at + 4]) % 64 * 67108864), 5))
  }

  /** Decoding looks at no byte after the value. */
  lemma {:induction false} DecodeLocal(bs: seq<byte>, at: nat, cs: seq<byte>)
    requires Decode(bs, at).Some?
    requires |cs| >= |bs| && cs[..|bs|] == bs
    ensures Decode(cs, at) == Decode(bs, at) && at + Decode(bs, at).value.1 <= |bs|
  {
    assert forall i :: 0 <= i < |bs| ==> cs[i] == cs[..|bs|][i];
  }

  /** No other bytes for the value are fewer, but for -33554432, which four bytes could hold as well. */
  lemma {:induction false} Shortest(v: int32, bs: seq<byte>, at: nat)
    requires Decode(bs, at).Some? && Decode(bs, at).value.0 == v
    ensures Size(v) <= Decode(bs, at).value.1 || (v == -33554432 && Decode(bs, at).value.1 == 4)
  {
  }

  /** The groups of bits that the bytes carry: five bits, three times seven, and six. */
  ghost predicate Digits(u: nat, d: nat, g1: nat, g2: nat, g3: nat, g4: nat)
  {
    && d < 32 && g1 < 128 && g2 < 128 && g3 < 128 && g4 < 64
    && u == d + 32 * g1 + 4096 * g2 + 524288 * g3 + 67108864 * g4
  }

  lemma {:induction false} SplitDigits(u: nat)
    requires u < 0x1_0000_0000
    ensures Digits(u, u % 32, u / 32 % 128, u / 4096 % 128, u / 524288 % 128, u / 67108864 % 64)
  {
    assert u / 4096 == u / 32 / 128 && u / 524288 == u / 4096 / 128 && u / 67108864 == u / 524288 / 128;
  }

  /** The first byte gives its value bits and its type back. */
  lemma {:induction false} FirstByte(d: nat, tag: nat)
    requires tag <= 3 && d < 32
    ensures var b := d * 4 + tag;
            && b < 128 && First(b) == d && First(b + 128) == d && b % 4 == tag && (b + 128) % 4 == tag
            && (Negative(b) <==> d >= 16)
  {
    assert (d * 4 + tag) / 4 == d && (d * 4 + tag + 128) / 4 == d + 32;
    assert (d * 4 + tag) / 64 == d / 16;
  }

  lemma {:induction false} OtherByte(g: nat)
    requires g < 128
    ensures Rest(g) == g && Rest(g + 128) == g && (Negative(g) <==> g >= 64)
  {
  }

  lemma {:induction false} DecodeOne(b0: byte)
    requires b0 < 128
    ensures Decode([b0], 0) == Some((Spread(First(b0), b0, 32), 1))
  {
  }

  lemma {:induction false} DecodeTwo(b0: byte, b1: byte, u1: nat)
    requires b0 >= 128 > b1 && u1 == First(b0) + Rest(b1) * 32
    ensures Decode([b0, b1], 0) == Some((Spread(u1, b1, 4096), 2))
  {
  }

  lemma {:induction false} DecodeThree(b0: byte, b1: byte, b2: byte, u2: nat)
    requires b0 >= 128 && b1 >= 128 > b2 && u2 == First(b0) + Rest(b1) * 32 + Rest(b2) * 4096
    ensures Decode([b0, b1, b2], 0) == Some((Spread(u2, b2, 524288), 3))
  {
  }

  lemma {:induction false} DecodeFour(b0: byte, b1: byte, b2: byte, b3: byte, u3: nat)
    requires b0 >= 128 && b1 >= 128 && b2 >= 128 > b3 && u3 == First(b0) + Rest(b1) * 32 + Rest(b2) * 4096
             + Rest(b3) * 524288
    ensures Decode([b0, b1, b2, b3], 0) == Some((Spread(u3, b3, 67108864), 4))
  {
  }

  lemma {:induction false} DecodeFive(b0: byte, b1: byte, b2: byte, b3: byte, b4: byte, u4: nat)
    requires b0 >= 128 && b1 >= 128 && b2 >= 128 && b3 >= 128 && b4 < 64
    requires u4 == First(b0) + Rest(b1) * 32 + Rest(b2) * 4096 + Rest(b3) * 524288 + b4 * 67108864
    ensures Decode([b0, b1, b2, b3, b4], 0) == Some((Wrap32(u4), 5))
  {
  }

  lemma {:induction false} EncodedOne(v: int32, tag: nat, d: nat, g1: nat, g2: nat, g3: nat, g4: nat)
    requires tag <= 3 && Size(v) == 1 && Digits(Pattern(v), d, g1, g2, g3, g4)
    ensures Decode([d * 4 + tag], 0) == Some((v as int, 1))
  {
    FirstByte(d, tag);
    DecodeOne(d * 4 + tag);
  }

  lemma {:induction false} EncodedTwo(v: int32, tag: nat, d: nat, g1: nat, g2: nat, g3: nat, g4: nat)
    requires tag <= 3 && Size(v) == 2 && Digits(Pattern(v), d, g1, g2, g3, g4)
    ensures Decode([d * 4 + tag + 128, g1], 0) == Some((v as int, 2))
  {
    FirstByte(d, tag);
    OtherByte(g1);
    DecodeTwo(d * 4 + tag + 128, g1, d + 32 * g1);
  }

  lemma {:induction false} EncodedThree(v: int32, tag: nat, d: nat, g1: nat, g2: nat, g3: nat, g4: nat)
    requires tag <= 3 && Size(v) == 3 && Digits(Pattern(v), d, g1, g2, g3, g4)
    ensures Decode([d * 4 + tag + 128, g1 + 128, g2], 0) == Some((v as int, 3))
  {
    FirstByte(d, tag);
    OtherByte(g1);
    OtherByte(g2);
    DecodeThree(d * 4 + tag + 128, g1 + 128, g2, d + 32 * g1 + 4096 * g2);
  }

  lemma {:induction false} EncodedFour(v: int32, tag: nat, d: nat, g1: nat, g2: nat, g3: nat, g4: nat)
    requires tag <= 3 && Size(v) == 4 && Digits(Pattern(v), d, g1, g2, g3, g4)
    ensures Decode([d * 4 + tag + 128, g1 + 128, g2 + 128, g3], 0) == Some((v as int, 4))
  {
    FirstByte(d, tag);
    OtherByte(g1);
    OtherByte(g2);
    OtherByte(g3);
    DecodeFour(d * 4 + tag + 128, g1 + 128, g2 + 128, g3, d + 32 * g1 + 4096 * g2 + 524288 * g3);
  }

  lemma {:induction false} EncodedFive(v: int32, tag: nat, d: nat, g1: nat, g2: nat, g3: nat, g4: nat)
    requires tag <= 3 && Digits(Pattern(v), d, g1, g2, g3, g4)
    ensures Decode([d * 4 + tag + 128, g1 + 128, g2 + 128, g3 + 128, g4], 0) == Some((v as int, 5))
  {
    FirstByte(d, tag);
    OtherByte(g1);
    OtherByte(g2);
    OtherByte(g3);
    WrapPattern(v);
    DecodeFive(d * 4 + tag + 128, g1 + 128, g2 + 128, g3 + 128, g4, Pattern(v));
  }

  lemma {:induction false} WrapPattern(v: int32)
    ensures Wrap32(Pattern(v)) == v
  {
  }

  lemma {:induction false} PackDecodes(v: int32, tag: nat, d: nat, g1: nat, g2: nat, g3: nat, g4: nat)
    requires tag <= 3 && Digits(Pattern(v), d, g1, g2, g3, g4)
    ensures Decode(Pack(Size(v), tag, d, g1, g2, g3, g4), 0) == Some((v as int, Size(v)))
  {
    match Size(v)
    case 1 => EncodedOne(v, tag, d, g1, g2, g3, g4);
    case 2 => EncodedTwo(v, tag, d, g1, g2, g3, g4);
    case 3 => EncodedThree(v, tag, d, g1, g2, g3, g4);
    case 4 => EncodedFour(v, tag, d, g1, g2, g3, g4);
    case _ => EncodedFive(v, tag, d, g1, g2, g3, g4);
  }

  lemma {:induction false} PackTag(n: nat, tag: nat, d: nat, g1: nat, g2: nat, g3: nat, g4: nat)
    requires 1 <= n <= 5 && tag <= 3 && d < 32 && g1 < 128 && g2 < 128 && g3 < 128 && g4 < 64
    ensures Pack(n, tag, d, g1, g2, g3, g4)[0] % 4 == tag
  {
    FirstByte(d, tag);
  }

  /** What the bytes of a value decode to. */
  lemma {:induction false} EncodedDecodes(v: int32, tag: nat)
    requires tag <= 3
    ensures Decode(Encode(v, tag), 0) == Some((v as int, Size(v))) && Encode(v, tag)[0] % 4 == tag
  {
    var u := Pattern(v);
    SplitDigits(u);
    PackDecodes(v, tag, u % 32, u / 32 % 128, u / 4096 % 128, u / 524288 % 128, u / 67108864 % 64);
    PackTag(Size(v), tag, u % 32, u / 32 % 128, u / 4096 % 128, u / 524288 % 128, u / 67108864 % 64);
  }

  lemma {:induction false} FirstHasTag(v: int32, tag: nat)
    requires tag <= 3
    ensures Encode(v, tag)[0] % 4 == tag
  {
    EncodedDecodes(v, tag);
  }

  /** Decoding depends only on the bytes from the position on. */
  lemma {:induction false} DecodeShift(a: seq<byte>, b: seq<byte>)
    ensures Decode(a + b, |a|) == Decode(b, 0)
  {
    assert forall i :: 0 <= i < |b| ==> (a + b)[|a| + i] == b[i];
  }

  /** Every 32-bit value is decoded from its bytes, whatever its type, and exactly its bytes are used. */
  lemma {:induction false} RoundTrip(v: int32, tag: nat, a: seq<byte>, b: seq<byte>)
    requires tag <= 3
    ensures Decode(a + (Encode(v, tag) + b), |a|) == Some((v as int, Size(v)))
    ensures (a + (Encode(v, tag) + b))[|a|] % 4 == tag
  {
    EncodedDecodes(v, tag);
    DecodeShift(a, Encode(v, tag) + b);
    DecodeLocal(Encode(v, tag), 0, Encode(v, tag) + b);
  }
}
