/**
 Two data records made into one: the data frames of the second follow those of the first, and the
 last-sample word of the first is replaced by that of the second.
 */
module Merge {
  import opened Common
  import opened Steim
  import opened Frames
  import opened ByteFrames

  /** Whole data frames that hold samples, the first one starting with the two sample words. */
  ghost predicate RecordData(data: seq<byte>)
  {
    && |data| >= 64 && |data| % 64 == 0
    && FirstTwoUnused(Codes(DataFrames(data)[0][0], 15)) && FrameDiffs(DataFrames(data)) != []
  }

  /** The samples of a record's data frames. */
  function Samples(data: seq<byte>): seq<int32>
    requires |data| % 64 == 0
  {
    SeedDecode(DataFrames(data))
  }

  /** The sample that word 2 of the first data frame says is the record's last. */
  function SaidLast(data: seq<byte>): int32
    requires |data| >= 64 && |data| % 64 == 0
  {
    Wrap32(DataFrames(data)[0][2])
  }

  /** The first sample, as word 1 of the first data frame says it. */
  function FirstSample(data: seq<byte>): int32
    requires |data| >= 64 && |data| % 64 == 0
  {
    Wrap32(DataFrames(data)[0][1])
  }

  /** The first difference, which starts from the sample before the record. */
  function FirstDiff(data: seq<byte>): int
    requires |data| % 64 == 0 && FrameDiffs(DataFrames(data)) != []
  {
    FrameDiffs(DataFrames(data))[0]
  }

  /** The last-sample word of a record. */
  function LastWord(data: seq<byte>): (w: seq<byte>)
    requires |data| >= 64
    ensures |w| == 4
  {
    data[8..12]
  }

  function Merged(a: seq<byte>, b: seq<byte>): (data: seq<byte>)
    requires |a| >= 64 && |b| >= 64
    ensures |data| == |a| + |b|
  {
    WithLast(a + b, LastWord(b))
  }

  lemma {:induction false} ReadSame(s: seq<byte>, t: seq<byte>, at: nat)
    requires at + 4 <= |s| && |t| == 4 && s[at..at + 4] == t
    ensures Read32(t, 0) == Read32(s, at)
  {
    assert t[0] == s[at..at + 4][0] && t[1] == s[at..at + 4][1] && t[2] == s[at..at + 4][2] && t[3] == s[at..at + 4][3];
  }

  /** The last-sample word is word 2 of the first frame. */
  lemma {:induction false} FirstFrameSays(b: seq<byte>)
    requires |b| % 64 == 0 && |b| >= 64
    ensures DataFrames(b) != [] && DataFrames(b)[0][2] == Read32(LastWord(b), 0)
  {
    assert b == b[..64] + b[64..];
    DataFramesAppend(b[..64], b[64..]);
    OneFrame(b[..64]);
    ReadSame(b[..64], LastWord(b), 8);
  }

  /** The frames of a merged record. */
  lemma {:induction false} MergedFrames(a: seq<byte>, b: seq<byte>, m: seq<byte>)
    requires |a| % 64 == 0 && |b| % 64 == 0 && |a| >= 64 && |b| >= 64 && m == Merged(a, b)
    ensures var fs, fa, fb := DataFrames(m), DataFrames(a), DataFrames(b);
            fa != [] && fb != [] && fs == fa[0 := fa[0][2 := fb[0][2]]] + fb
  {
    FramesWord2(a + b, LastWord(b));
    DataFramesAppend(a, b);
    FirstFrameSays(a);
    FirstFrameSays(b);
  }

  lemma {:induction false} PatchDecodes(fs: seq<Frame>, w: word32)
    requires fs != [] && FirstTwoUnused(Codes(fs[0][0], 15))
    ensures var ps := fs[0 := fs[0][2 := w]];
            FrameDiffs(ps) == FrameDiffs(fs) && SeedDecode(ps) == SeedDecode(fs)
  {
    PatchFirstFrame(fs, 2, w);
  }

  lemma {:induction false} MergedFramesIff(fa: seq<Frame>, fb: seq<Frame>, sa: seq<int32>, sb: seq<int32>, d: int)
    requires fa != [] && fb != [] && FirstTwoUnused(Codes(fa[0][0], 15))
    requires FrameDiffs(fa) != [] && FrameDiffs(fb) != [] && d == FrameDiffs(fb)[0]
    requires sa == SeedDecode(fa) && sb == SeedDecode(fb)
    ensures var fs := fa[0 := fa[0][2 := fb[0][2]]] + fb;
            && FrameDiffs(fs) != [] && sa != [] && |SeedDecode(fs)| == |sa| + |sb| && SeedDecode(fs)[0] == sa[0]
            && (SeedDecode(fs) == sa + sb <==> Follows(Wrap32(fb[0][1]), LastOf(0, sa), d))
  {
    PatchDecodes(fa, fb[0][2]);
    ConcatDecodesIff(fa[0 := fa[0][2 := fb[0][2]]], fb, sa, sb, d);
    FrameDiffsAppend(fa[0 := fa[0][2 := fb[0][2]]], fb);
  }

  /**
   Merging preserves meaning exactly when the second record, with first sample x and first difference d,
   continues the samples sa of the first: then, and only then, the merged record m decodes to sa
   followed by the samples sb of the second.
   */
  lemma {:induction false} MergeDecodesIff(a: seq<byte>, b: seq<byte>, m: seq<byte>, sa: seq<int32>, sb: seq<int32>,
                                           x: int32, d: int)
    requires RecordData(a) && RecordData(b) && m == Merged(a, b)
    requires sa == Samples(a) && sb == Samples(b) && x == FirstSample(b) && d == FirstDiff(b)
    ensures RecordData(m) && SaidLast(m) == SaidLast(b)
    ensures Samples(m) == sa + sb <==> Follows(x, LastOf(0, sa), d)
    ensures sa != [] && |Samples(m)| == |sa| + |sb| && Samples(m)[0] == sa[0]
  {
    MergedFrames(a, b, m);
    FramesSay(m, DataFrames(a), DataFrames(b), DataFrames(m), sa, sb, d);
  }

  lemma {:induction false} FramesSay(m: seq<byte>, fa: seq<Frame>, fb: seq<Frame>, fm: seq<Frame>,
                                     sa: seq<int32>, sb: seq<int32>, d: int)
    requires fa != [] && FirstTwoUnused(Codes(fa[0][0], 15)) && FrameDiffs(fa) != [] && sa == SeedDecode(fa)
    requires fb != [] && FrameDiffs(fb) != [] && sb == SeedDecode(fb) && d == FrameDiffs(fb)[0]
    requires |m| % 64 == 0 && |m| >= 64 && DataFrames(m) == fm && fm == fa[0 := fa[0][2 := fb[0][2]]] + fb
    ensures RecordData(m) && SaidLast(m) == Wrap32(fb[0][2])
    ensures sa != [] && |Samples(m)| == |sa| + |sb| && Samples(m)[0] == sa[0]
    ensures Samples(m) == sa + sb <==> Follows(Wrap32(fb[0][1]), LastOf(0, sa), d)
  {
    MergedFramesIff(fa, fb, sa, sb, d);
  }

  /** Whatever is merged in, the samples of the first record stay as they were. */
  lemma {:induction false} MergeKeepsFirst(a: seq<byte>, b: seq<byte>, m: seq<byte>, sa: seq<int32>, sm: seq<int32>)
    requires RecordData(a) && RecordData(b) && m == Merged(a, b) && sa == Samples(a) && |m| % 64 == 0
             && sm == Samples(m)
    ensures |sm| >= |sa| && sm[..|sa|] == sa
  {
    MergedFrames(a, b, m);
    FramesKeepFirst(DataFrames(a), DataFrames(b), DataFrames(m), sa, sm);
  }

  lemma {:induction false} FramesKeepFirst(fa: seq<Frame>, fb: seq<Frame>, fm: seq<Frame>, sa: seq<int32>,
                                           sm: seq<int32>)
    requires fa != [] && fb != [] && FirstTwoUnused(Codes(fa[0][0], 15)) && FrameDiffs(fa) != []
    requires sa == SeedDecode(fa) && fm == fa[0 := fa[0][2 := fb[0][2]]] + fb && sm == SeedDecode(fm)
    ensures |sm| >= |sa| && sm[..|sa|] == sa
  {
    var ps := fa[0 := fa[0][2 := fb[0][2]]];
    PatchDecodes(fa, fb[0][2]);
    FrameDiffsAppend(ps, fb);
    RestKeepsFirst(ps, fm, FrameDiffs(fa), FrameDiffs(fb), sa, sm);
  }

  lemma {:induction false} RestKeepsFirst(ps: seq<Frame>, fm: seq<Frame>, p: seq<int>, q: seq<int>, sa: seq<int32>,
                                          sm: seq<int32>)
    requires ps != [] && fm != [] && fm[0] == ps[0] && p != [] && FrameDiffs(ps) == p && FrameDiffs(fm) == p + q
    requires sa == SeedDecode(ps) && sm == SeedDecode(fm)
    ensures |sm| >= |sa| && sm[..|sa|] == sa
  {
    var x := Wrap32(ps[0][1]);
    assert (p + q)[1..] == p[1..] + q;
    SeedForm(ps, p, p[1..]);
    SeedForm(fm, p + q, p[1..] + q);
    FrontKept(x, p[1..], q, sa, sm);
  }

  lemma {:induction false} FrontKept(x: int32, r: seq<int>, q: seq<int>, sa: seq<int32>, sm: seq<int32>)
    requires sa == [x] + Integrate(x, r) && sm == [x] + Integrate(x, r + q)
    ensures |sm| >= |sa| && sm[..|sa|] == sa
  {
    IntegrateKeepsFirst(x, r, q);
    SameFront(x, Integrate(x, r), Integrate(x, r + q), sa, sm);
  }

  lemma {:induction false} SameFront(x: int32, a: seq<int32>, b: seq<int32>, sa: seq<int32>, sb: seq<int32>)
    requires |b| >= |a| && b[..|a|] == a
    requires sa == [x] + a && sb == [x] + b
    ensures |sb| >= |sa| && sb[..|sa|] == sa
  {
  }

  /** Sums of differences do not depend on later differences. */
  lemma {:induction false} IntegrateKeepsFirst(x: int32, p: seq<int>, q: seq<int>)
    ensures |Integrate(x, p + q)| >= |p| && Integrate(x, p + q)[..|p|] == Integrate(x, p)
    decreases |q|
  {
    if q == [] {
      assert p + q == p;
    } else {
      var n := |q| - 1;
      assert (p + q)[..|p + q| - 1] == p + q[..n];
      IntegrateKeepsFirst(x, p, q[..n]);
    }
  }

  /** A finished record as it is stored: it holds its samples and says which one is the last. */
  lemma {:induction false} StoredRecord(fs: seq<Frame>)
    requires fs != [] && FirstTwoUnused(Codes(fs[0][0], 15)) && FrameDiffs(fs) != []
    ensures RecordData(BytesOf(fs)) && Samples(BytesOf(fs)) == SeedDecode(fs)
            && SaidLast(BytesOf(fs)) == Wrap32(fs[0][2])
  {
    FramesStored(fs);
  }
}
