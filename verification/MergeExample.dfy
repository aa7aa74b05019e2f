/**
 Two records of which the second one does not continue the first.
 */
module MergeExample {
  import opened Common
  import opened Steim
  import opened Frames
  import opened ByteFrames
  import opened Merge

  /** A frame with the one sample x, as a difference of 0 from the sample before. */
  function Lone(x: word32): Frame {
    [0x0200_0000, x, x, 0x4000_0000] + seq(12, _ => 0)
  }

  lemma {:induction false} LoneWords(x: word32, w: word32, ws: seq<word32>)
    requires ws == [x, x, w]
    ensures CodedWords(Codes(2, |ws|), ws) == [Coded(2, w)]
  {
    CodedWordsPush(0, [], 0, x);
    CodedWordsPush(0, [x], 0, x);
    CodedWordsPush(0, [x, x], 2, w);
    assert [] + [x] == [x] && [x] + [x] == [x, x] && [x, x] + [w] == ws;
  }

  lemma {:induction false} LoneFrame(f: Frame, ws: seq<word32>, pad: seq<word32>, flag: nat)
    requires f[1..] == ws + pad && f[0] == ShlCodes(flag, |pad|)
    ensures FrameCoded(f) == CodedWords(Codes(flag, |ws|), ws)
  {
    CodedWordsPad(flag, ws, pad);
    assert |f| - 1 == |ws + pad|;
  }

  lemma {:induction false} LoneCoded(x: word32)
    ensures FirstTwoUnused(Codes(Lone(x)[0], 15)) && FrameCoded(Lone(x)) == [Coded(2, 0x4000_0000)]
  {
    var ws, pad: seq<word32> := [x, x, 0x4000_0000], seq(12, _ => 0);
    LoneFlag();
    LoneWords(x, 0x4000_0000, ws);
    assert Lone(x)[1..] == ws + pad;
    LoneFrame(Lone(x), ws, pad, 2);
  }

  lemma {:induction false} LoneFlag()
    ensures ShlCodes(2, 12) == 0x0200_0000 && FirstTwoUnused(Codes(0x0200_0000, 15))
  {
    assert ShlCodes(2, 3) == 128 && ShlCodes(2, 6) == 0x2000 && ShlCodes(2, 9) == 0x8_0000;
    CodesFront(0x0200_0000, 13);
    assert Codes(0, 2) == [0, 0];
  }

  /** The first two of n + 2 codes. */
  lemma {:induction false} CodesFront(flag: nat, n: nat)
    ensures |Codes(flag, n + 2)| == n + 2 && Codes(flag, n + 2)[..2] == Codes(ShrCodes(flag, n), 2)
  {
    if n > 0 {
      CodesFront(flag / 4, n - 1);
    }
  }

  function ShrCodes(flag: nat, n: nat): nat {
    if n == 0 then flag else ShrCodes(flag / 4, n - 1)
  }

  lemma {:induction false} OneFrameDiffs(f: Frame, cs: seq<Coded>)
    requires FrameCoded(f) == cs
    ensures FrameDiffs([f]) == StreamDiffs(cs)
  {
    assert [f][..0] == [] && FramesCoded([f]) == [] + cs == cs;
  }

  lemma {:induction false} LoneSamples(x: int32)
    requires 0 <= x
    ensures FrameDiffs([Lone(x)]) == [0] && SeedDecode([Lone(x)]) == [x]
  {
    LoneCoded(x);
    LoneWord();
    OneFrameDiffs(Lone(x), [Coded(2, 0x4000_0000)]);
    LoneSum([Lone(x)], x, [0]);
  }

  lemma {:induction false} LoneSum(fs: seq<Frame>, x: int32, ds: seq<int>)
    requires fs != [] && FrameDiffs(fs) == ds == [0] && 0 <= x && fs[0][1] == x
    ensures SeedDecode(fs) == [x]
  {
    SeedForm(fs, ds, []);
  }

  lemma {:induction false} LoneWord()
    ensures StreamDiffs([Coded(2, 0x4000_0000)]) == [0]
  {
    assert StreamDiffs([Coded(2, 0x4000_0000)]) == [] + WordDiffs(Coded(2, 0x4000_0000)) == [0];
  }

  /** Merging fails for a record with the sample 5 and a difference of 0 after one with the sample 0. */
  lemma {:induction false} MergeFails()
    ensures var a, b := BytesOf([Lone(0)]), BytesOf([Lone(5)]);
            && RecordData(a) && RecordData(b) && Samples(a) == [0] && Samples(b) == [5]
            && |Merged(a, b)| % 64 == 0 && Samples(Merged(a, b)) != [0, 5]
  {
    var a, b := BytesOf([Lone(0)]), BytesOf([Lone(5)]);
    LoneRecord(0);
    LoneRecord(5);
    NotContinued(a, b);
  }

  lemma {:induction false} NotContinued(a: seq<byte>, b: seq<byte>)
    requires RecordData(a) && RecordData(b) && Samples(a) == [0] && Samples(b) == [5] && FirstSample(b) == 5
             && FirstDiff(b) == 0
    ensures |Merged(a, b)| % 64 == 0 && Samples(Merged(a, b)) != [0, 5]
  {
    MergeDecodesIff(a, b, Merged(a, b), [0], [5], 5, 0);
    assert [0] + [5] == [0, 5];
  }

  lemma {:induction false} LoneRecord(x: int32)
    requires 0 <= x
    ensures var a := BytesOf([Lone(x)]);
            RecordData(a) && Samples(a) == [x] && FirstSample(a) == x && FirstDiff(a) == 0
  {
    LoneCoded(x);
    LoneSamples(x);
    FramesStored([Lone(x)]);
  }
}
