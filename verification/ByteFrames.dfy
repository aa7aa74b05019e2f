/**
 Data frames as they stand in a record: sixteen big-endian 32-bit words to 64 bytes.
 */
module ByteFrames {
  import opened Common
  import opened Frames

  function FrameOf(bs: seq<byte>): Frame
    requires |bs| == 64
  {
    seq(16, i requires 0 <= i < 16 => Read32(bs, 4 * i))
  }

  /** The frames held by a run of bytes. */
  function FramesOf(bs: seq<byte>, n: nat): (fs: seq<Frame>)
    requires |bs| == 64 * n
    ensures |fs| == n
  {
    if n == 0 then [] else FramesOf(bs[..64 * (n - 1)], n - 1) + [FrameOf(bs[64 * (n - 1)..])]
  }

  /** The frames of a run of bytes of whole frames. */
  function DataFrames(bs: seq<byte>): seq<Frame>
    requires |bs| % 64 == 0
  {
    FramesOf(bs, |bs| / 64)
  }

  lemma {:induction false} FramesOfAppend(a: seq<byte>, m: nat, b: seq<byte>, n: nat)
    requires |a| == 64 * m && |b| == 64 * n
    ensures FramesOf(a + b, m + n) == FramesOf(a, m) + FramesOf(b, n)
  {
    if n == 0 {
      assert a + b == a;
    } else {
      var front, last := b[..64 * (n - 1)], b[64 * (n - 1)..];
      FramesOfAppend(a, m, front, n - 1);
      assert (a + b)[..64 * (m + n - 1)] == a + front && (a + b)[64 * (m + n - 1)..] == last;
    }
  }

  lemma {:induction false} DataFramesAppend(a: seq<byte>, b: seq<byte>)
    requires |a| % 64 == 0 && |b| % 64 == 0
    ensures DataFrames(a + b) == DataFrames(a) + DataFrames(b)
  {
    FramesOfAppend(a, |a| / 64, b, |b| / 64);
  }

  /** The four big-endian bytes of a word, as storelongint writes them. */
  function FrameBytes(f: Frame, n: nat): (bs: seq<byte>)
    requires n <= 16
    ensures |bs| == 4 * n
  {
    if n == 0 then [] else FrameBytes(f, n - 1) + Word32(f[n - 1])
  }

  function BytesOf(fs: seq<Frame>): (bs: seq<byte>)
    ensures |bs| == 64 * |fs|
  {
    if fs == [] then [] else BytesOf(fs[..|fs| - 1]) + FrameBytes(fs[|fs| - 1], 16)
  }

  lemma {:induction false} FrameBytesAt(f: Frame, n: nat, i: nat)
    requires i < n <= 16
    ensures FrameBytes(f, n)[4 * i..4 * i + 4] == Word32(f[i])
  {
    if i < n - 1 {
      FrameBytesAt(f, n - 1, i);
      assert FrameBytes(f, n)[4 * i..4 * i + 4] == FrameBytes(f, n - 1)[4 * i..4 * i + 4];
    }
  }

  /** Storing a frame's words and loading them again gives the frame. */
  lemma {:induction false} FrameStored(f: Frame)
    ensures FrameOf(FrameBytes(f, 16)) == f
  {
    forall i | 0 <= i < 16
      ensures FrameOf(FrameBytes(f, 16))[i] == f[i]
    {
      FrameBytesAt(f, 16, i);
      ReadBack32(f[i], FrameBytes(f, 16), 4 * i);
    }
  }

  lemma {:induction false} FramesStored(fs: seq<Frame>)
    ensures DataFrames(BytesOf(fs)) == fs
  {
    if fs != [] {
      var front, last := fs[..|fs| - 1], fs[|fs| - 1];
      FramesStored(front);
      DataFramesAppend(BytesOf(front), FrameBytes(last, 16));
      FrameStored(last);
      var b := FrameBytes(last, 16);
      assert b[..0] == [] && b[64 * 0..] == b && FramesOf(b, 1) == [FrameOf(b)];
    }
  }

  // --------------------------------------------------- the last-sample word

  /** The data bytes with word 2 of the first frame replaced. */
  function WithLast(data: seq<byte>, w: seq<byte>): (r: seq<byte>)
    requires |data| >= 64 && |w| == 4
    ensures |r| == |data|
  {
    Splice(data, 8, w)
  }

  lemma {:induction false} FrameWord2(bs: seq<byte>, w: seq<byte>)
    requires |bs| == 64 && |w| == 4
    ensures FrameOf(Splice(bs, 8, w)) == FrameOf(bs)[2 := Read32(w, 0)]
  {
    var s := Splice(bs, 8, w);
    forall i | 0 <= i < 16
      ensures FrameOf(s)[i] == FrameOf(bs)[2 := Read32(w, 0)][i]
    {
      if i == 2 {
        assert s[8] == w[0] && s[9] == w[1] && s[10] == w[2] && s[11] == w[3];
      } else {
        SpliceElsewhere(bs, w, 4 * i);
      }
    }
  }

  lemma {:induction false} SpliceElsewhere(bs: seq<byte>, w: seq<byte>, at: nat)
    requires |bs| >= 12 && |w| == 4 && at + 4 <= |bs| && (at + 4 <= 8 || at >= 12)
    ensures Read32(Splice(bs, 8, w), at) == Read32(bs, at)
  {
  }

  lemma {:induction false} FramesWord2(data: seq<byte>, w: seq<byte>)
    requires |data| % 64 == 0 && |data| >= 64 && |w| == 4
    ensures var fs := DataFrames(data);
            |fs| == |data| / 64 && DataFrames(WithLast(data, w)) == fs[0 := fs[0][2 := Read32(w, 0)]]
  {
    var a, b := data[..64], data[64..];
    assert data == a + b && WithLast(data, w) == Splice(a, 8, w) + b;
    DataFramesAppend(a, b);
    DataFramesAppend(Splice(a, 8, w), b);
    OneFrame(a);
    OneFrame(Splice(a, 8, w));
    FrameWord2(a, w);
  }

  lemma {:induction false} OneFrame(bs: seq<byte>)
    requires |bs| == 64
    ensures DataFrames(bs) == [FrameOf(bs)]
  {
    assert bs[..0] == [] && bs[64 * 0..] == bs && FramesOf(bs, 1) == FramesOf(bs[..0], 0) + [FrameOf(bs)];
  }
}
