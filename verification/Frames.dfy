/**
 Steim-2 data frames: sixteen 32-bit words, the first of which holds a 2-bit code for
 each of the sixteen. Words with code 0 carry no differences (SEED Reference Manual,
 Appendix B); in the first frame of a record words 1 and 2 are the first and the last sample.
 */
module Frames {
  import opened Common
  import opened Steim

  const WORDS_PER_FRAME: int := 16

  type Frame = f: seq<word32> | |f| == 16 witness seq(16, _ => 0)

  /** The n lowest 2-bit codes of a flag word, the earliest word's code first. */
  function Codes(flag: nat, n: nat): (cs: seq<int>)
    ensures |cs| == n
  {
    if n == 0 then [] else Codes(flag / 4, n - 1) + [flag % 4]
  }

  /** Words paired with their codes, in order, leaving out those with code 0. */
  function CodedWords(codes: seq<int>, words: seq<word32>): (cs: seq<Coded>)
    requires |codes| == |words|
  {
    if codes == [] then []
    else
      var n := |codes| - 1;
      CodedWords(codes[..n], words[..n]) + Kept(codes[n], words[n])
  }

  /** A word counts unless its code is 0. */
  function Kept(code: int, w: word32): seq<Coded> {
    if code == 0 then [] else [Coded(code, w)]
  }

  /** Words 1 and 2 of a record's first frame carry no differences. */
  predicate FirstTwoUnused(codes: seq<int>) {
    |codes| >= 2 && codes[0] == 0 && codes[1] == 0
  }

  /** The compressed words of one frame. */
  function FrameCoded(f: Frame): seq<Coded> {
    CodedWords(Codes(f[0], |f| - 1), f[1..])
  }

  function FramesCoded(fs: seq<Frame>): (cs: seq<Coded>)
  {
    if fs == [] then [] else FramesCoded(fs[..|fs| - 1]) + FrameCoded(fs[|fs| - 1])
  }

  /** All differences held by a run of frames. */
  function FrameDiffs(fs: seq<Frame>): seq<int> {
    StreamDiffs(FramesCoded(fs))
  }

  /** Decoding of a record's data frames: the stored first sample, then every further difference. */
  function SeedDecode(fs: seq<Frame>): seq<int32> {
    var ds := FrameDiffs(fs);
    if fs == [] || ds == [] then [] else
      [Wrap32(fs[0][1])] + Integrate(Wrap32(fs[0][1]), ds[1..])
  }

  lemma {:induction false} FramesCodedAppend(a: seq<Frame>, b: seq<Frame>)
    ensures FramesCoded(a + b) == FramesCoded(a) + FramesCoded(b)
  {
    if b == [] {
      assert a + b == a;
    } else {
      var front, last := b[..|b| - 1], b[|b| - 1];
      FramesCodedAppend(a, front);
      AppendLast(a, b);
      ConcatAssoc(FramesCoded(a), FramesCoded(front), FrameCoded(last));
    }
  }

  lemma {:induction false} FrameDiffsAppend(a: seq<Frame>, b: seq<Frame>)
    ensures FrameDiffs(a + b) == FrameDiffs(a) + FrameDiffs(b)
  {
    FramesCodedAppend(a, b);
    StreamDiffsAppend(FramesCoded(a), FramesCoded(b));
  }

  /** Shifting one more code into the flag word appends it to the codes. */
  lemma {:induction false} CodesPush(flag: nat, n: nat, code: int)
    requires 0 <= code <= 3
    ensures Codes(flag * 4 + code, n + 1) == Codes(flag, n) + [code]
  {
  }

  /** Adding a word with its code adds exactly that coded word. */
  lemma {:induction false} CodedWordsPush(flag: nat, words: seq<word32>, code: int, w: word32)
    requires 0 <= code <= 3
    ensures CodedWords(Codes(flag * 4 + code, |words| + 1), words + [w])
         == CodedWords(Codes(flag, |words|), words) + Kept(code, w)
  {
    CodesPush(flag, |words|, code);
    assert (Codes(flag, |words|) + [code])[..|words|] == Codes(flag, |words|);
    assert (words + [w])[..|words|] == words;
  }

  /** The flag word shifted left by n codes. */
  function ShlCodes(flag: nat, n: nat): nat {
    if n == 0 then flag else ShlCodes(flag, n - 1) * 4
  }

  /** Shifting in zero codes for unused words leaves the compressed words as they were. */
  lemma {:induction false} CodedWordsPad(flag: nat, words: seq<word32>, pad: seq<word32>)
    ensures CodedWords(Codes(ShlCodes(flag, |pad|), |words + pad|), words + pad)
         == CodedWords(Codes(flag, |words|), words)
  {
    if pad == [] {
      assert words + pad == words;
    } else {
      var front, last := pad[..|pad| - 1], pad[|pad| - 1];
      CodedWordsPad(flag, words, front);
      PadOne(ShlCodes(flag, |front|), words + front, last);
      SplitLast(pad);
      ConcatAssoc(words, front, [last]);
    }
  }

  lemma {:induction false} PadOne(flag: nat, words: seq<word32>, w: word32)
    ensures CodedWords(Codes(flag * 4, |words + [w]|), words + [w]) == CodedWords(Codes(flag, |words|), words)
  {
    CodedWordsPush(flag, words, 0, w);
  }

  /** Codes of the words that precede a word with a known code 0 do not matter to it. */
  lemma {:induction false} CodedWordsIgnore(codes: seq<int>, a: seq<word32>, j: nat, w: word32)
    requires |codes| == |a| && j < |a| && codes[j] == 0
    ensures CodedWords(codes, a[j := w]) == CodedWords(codes, a)
  {
    var n := |codes| - 1;
    if j == n {
      assert a[j := w][..n] == a[..n];
    } else {
      CodedWordsIgnore(codes[..n], a[..n], j, w);
      assert a[j := w][..n] == a[..n][j := w];
    }
  }

  /** Frame words 1 and 2 of a record's first frame may be patched without changing its data. */
  lemma {:induction false} PatchKeepsCoded(f: Frame, j: nat, w: word32)
    requires 1 <= j < 16 && Codes(f[0], |f| - 1)[j - 1] == 0
    ensures FrameCoded(f[j := w]) == FrameCoded(f)
  {
    CodedWordsIgnore(Codes(f[0], |f| - 1), f[1..], j - 1, w);
    assert f[j := w][1..] == f[1..][j - 1 := w];
  }

  lemma {:induction false} PatchFirstFrame(fs: seq<Frame>, j: nat, w: word32)
    requires fs != [] && 1 <= j < 16 && Codes(fs[0][0], |fs[0]| - 1)[j - 1] == 0
    ensures FramesCoded(fs[0 := fs[0][j := w]]) == FramesCoded(fs)
  {
    PatchKeepsCoded(fs[0], j, w);
    assert fs == [fs[0]] + fs[1..];
    assert fs[0 := fs[0][j := w]] == [fs[0][j := w]] + fs[1..];
    FramesCodedAppend([fs[0]], fs[1..]);
    FramesCodedAppend([fs[0][j := w]], fs[1..]);
    assert FramesCoded([fs[0]]) == FrameCoded(fs[0]);
    assert FramesCoded([fs[0][j := w]]) == FrameCoded(fs[0][j := w]);
  }

  lemma {:induction false} FirstThenRest(ds: seq<int>)
    requires ds != []
    ensures ds == [ds[0]] + ds[1..]
  {
  }

  /** Sample x is a difference d after the sample `last`. */
  predicate Follows(x: int32, last: int32, d: int) {
    x == Wrap32(last + d)
  }

  /**
   Two runs of frames one after the other decode to the samples sa of the first followed by the
   samples sb of the second exactly when the second one's first difference d continues from the last of sa.
   */
  lemma {:induction false} ConcatDecodesIff(a: seq<Frame>, b: seq<Frame>, sa: seq<int32>, sb: seq<int32>, d: int)
    requires FrameDiffs(a) != [] && FrameDiffs(b) != [] && d == FrameDiffs(b)[0]
    requires sa == SeedDecode(a) && sb == SeedDecode(b)
    ensures b != [] && sa != [] && |SeedDecode(a + b)| == |sa| + |sb| && SeedDecode(a + b)[0] == sa[0]
    ensures SeedDecode(a + b) == sa + sb <==> Follows(Wrap32(b[0][1]), LastOf(0, sa), d)
  {
    FrameDiffsAppend(a, b);
    ConcatForms(a, b, a + b, FrameDiffs(a), FrameDiffs(b), sa, sb, d);
  }

  lemma {:induction false} ConcatForms(a: seq<Frame>, b: seq<Frame>, ab: seq<Frame>, p: seq<int>, q: seq<int>,
                                       sa: seq<int32>, sb: seq<int32>, d: int)
    requires p == FrameDiffs(a) != [] && q == FrameDiffs(b) != [] && d == q[0]
    requires ab == a + b && FrameDiffs(ab) == p + q && sa == SeedDecode(a) && sb == SeedDecode(b)
    ensures b != [] && sa != [] && |SeedDecode(ab)| == |sa| + |sb| && SeedDecode(ab)[0] == sa[0]
    ensures SeedDecode(ab) == sa + sb <==> Follows(Wrap32(b[0][1]), LastOf(0, sa), d)
  {
    SeedForm(a, p, p[1..]);
    SeedForm(b, q, q[1..]);
    RestOfBoth(p, q);
    SeedForm(ab, p + q, p[1..] + ([d] + q[1..]));
    SeedJoinIff(sa, sb, SeedDecode(ab), Wrap32(a[0][1]), p[1..], Wrap32(b[0][1]), d, q[1..]);
  }

  lemma {:induction false} RestOfBoth(p: seq<int>, q: seq<int>)
    requires p != [] && q != []
    ensures (p + q)[1..] == p[1..] + ([q[0]] + q[1..])
  {
  }

  lemma {:induction false} SeedJoinIff(sa: seq<int32>, sb: seq<int32>, sab: seq<int32>,
                                       x: int32, da: seq<int>, y: int32, d: int, db: seq<int>)
    requires sa == [x] + Integrate(x, da) && sb == [y] + Integrate(y, db) && sab == [x] + Integrate(x, da + ([d] + db))
    ensures |sab| == |sa| + |sb|
    ensures sab == sa + sb <==> Follows(y, LastOf(0, sa), d)
  {
    ConcatIntegrateIff(x, da, y, d, db);
  }

  /** A record's samples, from its first sample and the differences after the first one. */
  function SeedSums(fs: seq<Frame>, ds: seq<int>): seq<int32>
    requires fs != []
  {
    [Wrap32(fs[0][1])] + Integrate(Wrap32(fs[0][1]), ds)
  }

  lemma {:induction false} SeedForm(fs: seq<Frame>, all: seq<int>, ds: seq<int>)
    requires FrameDiffs(fs) == all != [] && all[1..] == ds
    ensures fs != [] && SeedDecode(fs) == SeedSums(fs, ds)
  {
  }

  lemma {:induction false} ConcatIntegrateIff(x: int32, da: seq<int>, y: int32, d: int, db: seq<int>)
    ensures [x] + Integrate(x, da + ([d] + db)) == ([x] + Integrate(x, da)) + ([y] + Integrate(y, db))
       <==> Follows(y, LastOf(0, [x] + Integrate(x, da)), d)
  {
    var z := Wrap32(LastOf(x, Integrate(x, da)) + d);
    IntegrateAppend(x, da, [d] + db);
    IntegrateFirst(LastOf(x, Integrate(x, da)), d, db);
    JoinIff(x, Integrate(x, da), Integrate(x, da + ([d] + db)), d, Integrate(z, db), y, Integrate(y, db));
  }

  /** Two continuations that are determined by their first elements agree exactly when those do. */
  lemma {:induction false} JoinIff(x: int32, s: seq<int32>, all: seq<int32>, d: int, tz: seq<int32>, y: int32,
                                   ty: seq<int32>)
    requires var z := Wrap32(LastOf(x, s) + d); all == s + ([z] + tz) && (y == z ==> ty == tz)
    ensures [x] + all == ([x] + s) + ([y] + ty) <==> Follows(y, LastOf(0, [x] + s), d)
  {
    var z := Wrap32(LastOf(x, s) + d);
    LastOfCons(x, s);
    ConcatAssoc([x], s, [z] + tz);
    if y != z {
      FirstDiffers([x] + s, [z] + tz, [y] + ty);
    }
  }

  lemma {:induction false} FirstDiffers<T>(s: seq<T>, t: seq<T>, u: seq<T>)
    requires t != [] && u != [] && t[0] != u[0]
    ensures s + t != s + u
  {
    assert (s + t)[|s|] == t[0] && (s + u)[|s|] == u[0];
  }

  /** The first sum stands on its own. */
  lemma {:induction false} IntegrateFirst(prev: int32, d: int, ds: seq<int>)
    ensures var x := Wrap32(prev + d); Integrate(prev, [d] + ds) == [x] + Integrate(x, ds)
  {
    IntegrateAppend(prev, [d], ds);
    assert [d][..0] == [];
  }

  lemma {:induction false} LastOfCons(x: int32, s: seq<int32>)
    ensures LastOf(0, [x] + s) == LastOf(x, s)
  {
  }
}
