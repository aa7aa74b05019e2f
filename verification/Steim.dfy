/**
 Steim-2 words: the compressor's table, the decoder's table, how differences are
 packed into one 32-bit word and taken out of it again, and which table entry the
 compressor has to end on.
 */
module Steim {
  import opened Common

  const MAX_PER_WORD: int := 7
  const LAST_ENTRY: int := 6
  const BIG: int := 536870911

  /** A compressed word with its 2-bit map code. */
  datatype Coded = Coded(code: int, word: word32)

  /** Index into the compressor's table: entry k holds 7 - k differences. */
  type Entry = k: int | 0 <= k <= 6

  function Scan(k: Entry): (n: int)
    ensures 1 <= n <= 7
  {
    7 - k
  }

  function BlockCode(k: Entry): int {
    if k <= 2 then 3 else if k == 3 then 1 else 2
  }

  function ControlBits(k: Entry): int {
    match k
    case 0 => 8
    case 1 => 1
    case 2 => 0
    case 3 => 0
    case 4 => 3
    case 5 => 2
    case _ => 1
  }

  /** Number of bits of one field. */
  type Width = w: int | w in {4, 5, 6, 8, 10, 15, 30} witness 4

  function FieldWidth(k: Entry): Width {
    match k
    case 0 => 4
    case 1 => 5
    case 2 => 6
    case 3 => 8
    case 4 => 10
    case 5 => 15
    case _ => 30
  }

  /** Half the number of values a field of the width has: its sign bit. */
  function SignBit(width: Width): (h: int)
    ensures 8 <= h <= BIG + 1
  {
    match width
    case 4 => 8
    case 5 => 16
    case 6 => 32
    case 8 => 128
    case 10 => 512
    case 15 => 16384
    case _ => 536870912
  }

  /** The largest magnitude the entry accepts. */
  function Limit(k: Entry): int {
    SignBit(FieldWidth(k)) - 1
  }

  /** C's abs on a 32-bit operand: the most negative value is its own negation. */
  function Abs32(d: int32): int {
    if d == -TWO_31 then -TWO_31 else if d < 0 then -d else d
  }

  /** All differences that entry k would pack are within its limit. */
  predicate Fits(k: Entry, ds: seq<int32>)
    requires |ds| >= Scan(k)
  {
    forall i :: 0 <= i < Scan(k) ==> Abs32(ds[i]) <= Limit(k)
  }

  /** The smallest table index at or above lo whose differences all fit, or the last index. */
  function BestEntry(lo: Entry, ds: seq<int32>): (k: Entry)
    requires |ds| >= Scan(lo)
    ensures lo <= k
    ensures k == LAST_ENTRY || Fits(k, ds)
    ensures forall j: Entry :: lo <= j < k ==> !Fits(j, ds)
    decreases LAST_ENTRY - lo
  {
    if lo == LAST_ENTRY || Fits(lo, ds) then lo else BestEntry(lo + 1, ds)
  }

  /** Once an entry fits, every later one (fewer differences, wider fields) fits too. */
  lemma {:induction false} FitsUpward(j: Entry, k: Entry, ds: seq<int32>)
    requires j <= k && |ds| >= Scan(j) && Fits(j, ds)
    ensures Fits(k, ds)
  {
    assert Limit(j) <= Limit(k);
  }

  /** The best entry is the only one with no fitting entry below it that fits itself (or is the last). */
  lemma {:induction false} BestEntryUnique(lo: Entry, ds: seq<int32>, k: Entry)
    requires |ds| >= Scan(lo) && lo <= k
    requires k == LAST_ENTRY || Fits(k, ds)
    requires forall j: Entry :: lo <= j < k ==> !Fits(j, ds)
    ensures k == BestEntry(lo, ds)
  {
  }

  /** No entry that could be used packs more samples than the best one. */
  lemma {:induction false} BestEntryPacksMost(lo: Entry, ds: seq<int32>, j: Entry)
    requires |ds| >= Scan(lo) && lo <= j && Fits(j, ds)
    ensures Fits(BestEntry(lo, ds), ds)
    ensures Scan(j) <= Scan(BestEntry(lo, ds))
  {
    var k := BestEntry(lo, ds);
    if k < j {
    } else if k == LAST_ENTRY {
      FitsUpward(j, k, ds);
    }
  }

  /** Wrapped successive differences, the first one taken from `last`. */
  function Diffs(last: int32, s: seq<int32>): (ds: seq<int32>)
    ensures |ds| == |s|
  {
    seq(|s|, i requires 0 <= i < |s| => Wrap32(s[i] - if i == 0 then last else s[i - 1]))
  }

  /** Running sums of differences, wrapped to 32 bits. */
  function Integrate(start: int32, ds: seq<int>): (s: seq<int32>)
    ensures |s| == |ds|
  {
    if ds == [] then []
    else
      var front := Integrate(start, ds[..|ds| - 1]);
      front + [Wrap32(LastOf(start, front) + ds[|ds| - 1])]
  }

  function LastOf(start: int32, s: seq<int32>): int32 {
    if s == [] then start else s[|s| - 1]
  }

  lemma {:induction false} IntegrateAppend(start: int32, a: seq<int>, b: seq<int>)
    ensures Integrate(start, a + b) == Integrate(start, a) + Integrate(LastOf(start, Integrate(start, a)), b)
  {
    if b == [] {
      assert a + b == a;
    } else {
      var front := b[..|b| - 1];
      IntegrateAppend(start, a, front);
      AppendLast(a, b);
      var f, g := Integrate(start, a), Integrate(LastOf(start, Integrate(start, a)), front);
      assert LastOf(start, f + g) == LastOf(LastOf(start, f), g);
      ConcatAssoc(f, g, [Wrap32(LastOf(start, f + g) + b[|b| - 1])]);
    }
  }

  /** Summing the differences of a stream gives the stream back, wrap-around included. */
  lemma {:induction false} IntegrateDiffs(start: int32, s: seq<int32>)
    ensures Integrate(start, Diffs(start, s)) == s
  {
    if s != [] {
      var front := s[..|s| - 1];
      var x := s[|s| - 1];
      IntegrateDiffs(start, front);
      SplitLast(s);
      DiffsAppend(start, front, x);
      assert Diffs(start, s)[..|s| - 1] == Diffs(start, front);
      WrapDifference(LastOf(start, front), x);
    }
  }

  /** The only difference sequence in 32-bit range that sums to a given stream is its own. */
  lemma {:induction false} DiffsOfIntegrate(start: int32, ds: seq<int32>)
    ensures Diffs(start, Integrate(start, ds)) == ds
  {
    if ds != [] {
      var front := ds[..|ds| - 1];
      DiffsOfIntegrate(start, front);
      var f, d := Integrate(start, front), ds[|ds| - 1];
      var x := Wrap32(LastOf(start, f) + d);
      WrapSum(LastOf(start, f), d);
      SplitLast(ds);
      DiffsNext(start, f, x, front, d, f + [x], ds);
    }
  }

  lemma {:induction false} DiffsNext(start: int32, f: seq<int32>, x: int32, front: seq<int32>, d: int32,
                                     s: seq<int32>, ds: seq<int32>)
    requires Diffs(start, f) == front && Wrap32(x - LastOf(start, f)) == d && s == f + [x] && ds == front + [d]
    ensures Diffs(start, s) == ds
  {
    DiffsAppend(start, f, x);
  }

  lemma {:induction false} DiffsPrefix(last: int32, s: seq<int32>, m: nat, n: nat)
    requires m <= n <= |s|
    ensures Diffs(last, s[..m]) == Diffs(last, s[..n])[..m]
  {
  }

  lemma {:induction false} DiffsAppend(start: int32, s: seq<int32>, x: int32)
    ensures Diffs(start, s + [x]) == Diffs(start, s) + [Wrap32(x - LastOf(start, s))]
  {
  }

  // ---------------------------------------------------------------- packing

  function Shl(x: nat, width: Width): (y: nat) {
    match width
    case 4 => x * 16
    case 5 => x * 32
    case 6 => x * 64
    case 8 => x * 256
    case 10 => x * 1024
    case 15 => x * 32768
    case _ => x * 1073741824
  }

  function Shr(x: nat, width: Width): (y: nat) {
    match width
    case 4 => x / 16
    case 5 => x / 32
    case 6 => x / 64
    case 8 => x / 256
    case 10 => x / 1024
    case 15 => x / 32768
    case _ => x / 1073741824
  }

  /** The low bits of a two's-complement integer. */
  function Mask(x: int, width: Width): (y: nat)
    ensures y < 2 * SignBit(width)
  {
    match width
    case 4 => x % 16
    case 5 => x % 32
    case 6 => x % 64
    case 8 => x % 256
    case 10 => x % 1024
    case 15 => x % 32768
    case _ => x % 1073741824
  }

  /** Shift the fields of `ds` into `acc` one after the other. */
  function PackBits(acc: nat, width: Width, ds: seq<int>): (w: nat)
  {
    if ds == [] then acc else Shl(PackBits(acc, width, ds[..|ds| - 1]), width) + Mask(ds[|ds| - 1], width)
  }

  /** Sign-extend a field. */
  function Extend(v: int, width: Width): int {
    if v >= SignBit(width) then v - 2 * SignBit(width) else v
  }

  /** Take n fields out of a word, last field in the low bits. */
  function UnpackBits(w: nat, width: Width, n: nat): (ds: seq<int>)
    ensures |ds| == n
  {
    if n == 0 then [] else UnpackBits(Shr(w, width), width, n - 1) + [Extend(Mask(w, width), width)]
  }

  /** Masking a value in range only adds the field's size to a negative one. */
  lemma {:induction false} MaskInRange(d: int, width: Width)
    requires -SignBit(width) <= d < SignBit(width)
    ensures Mask(d, width) == if d < 0 then d + 2 * SignBit(width) else d
  {
    match width
    case 4 => assert d % 16 == if d < 0 then d + 16 else d;
    case 5 => assert d % 32 == if d < 0 then d + 32 else d;
    case 6 => assert d % 64 == if d < 0 then d + 64 else d;
    case 8 => assert d % 256 == if d < 0 then d + 256 else d;
    case 10 => assert d % 1024 == if d < 0 then d + 1024 else d;
    case 15 => assert d % 32768 == if d < 0 then d + 32768 else d;
    case _ => assert d % 1073741824 == if d < 0 then d + 1073741824 else d;
  }

  /** What a field keeps of a difference: its low bits, sign-extended. */
  function Truncate(d: int, width: Width): (t: int)
    ensures -SignBit(width) <= t < SignBit(width)
    ensures t == d <==> -SignBit(width) <= d < SignBit(width)
  {
    assert -SignBit(width) <= d < SignBit(width) ==> Extend(Mask(d, width), width) == d by {
      if -SignBit(width) <= d < SignBit(width) { MaskInRange(d, width); }
    }
    Extend(Mask(d, width), width)
  }

  lemma {:induction false} FieldOnTop(q: nat, r: nat, width: Width)
    requires r < 2 * SignBit(width)
    ensures Shr(Shl(q, width) + r, width) == q && Mask(Shl(q, width) + r, width) == r
  {
  }

  /** Unpacking what was packed yields every difference truncated to its field. */
  lemma {:induction false} UnpackPack(acc: nat, width: Width, ds: seq<int>)
    ensures UnpackBits(PackBits(acc, width, ds), width, |ds|)
         == seq(|ds|, i requires 0 <= i < |ds| => Truncate(ds[i], width))
  {
    if ds != [] {
      var front := ds[..|ds| - 1];
      UnpackPack(acc, width, front);
      FieldOnTop(PackBits(acc, width, front), Mask(ds[|ds| - 1], width), width);
    }
  }

  function ShlTimes(x: nat, width: Width, n: nat): nat {
    if n == 0 then x else Shl(ShlTimes(x, width, n - 1), width)
  }

  /** The control bits stay above the packed fields. */
  lemma {:induction false} PackRange(acc: nat, width: Width, ds: seq<int>)
    ensures ShlTimes(acc, width, |ds|) <= PackBits(acc, width, ds) < ShlTimes(acc + 1, width, |ds|)
  {
    if ds != [] {
      PackRange(acc, width, ds[..|ds| - 1]);
    }
  }

  /** Control bits and fields fill exactly one word, the control bits in the top two. */
  lemma {:induction false} EntryRange(k: Entry)
    ensures var c, w, n := ControlBits(k), FieldWidth(k), Scan(k);
            && ShlTimes(c + 1, w, n) <= TWO_32
            && (k == 0 ==> ShlTimes(c, w, n) == 2 * TWO_30 && ShlTimes(c + 1, w, n) <= 3 * TWO_30)
            && (k != 0 && k != 3 ==> ShlTimes(c, w, n) == c * TWO_30 && ShlTimes(c + 1, w, n) == (c + 1) * TWO_30)
  {
    var c, w := ControlBits(k), FieldWidth(k);
    assert ShlTimes(c, w, 1) == Shl(c, w) && ShlTimes(c + 1, w, 1) == Shl(c + 1, w);
    if k <= 5 { ShlNext(c, w, 1); }
    if k <= 4 { ShlNext(c, w, 2); }
    if k <= 3 { ShlNext(c, w, 3); }
    if k <= 2 { ShlNext(c, w, 4); }
    if k <= 1 { ShlNext(c, w, 5); }
    if k <= 0 { ShlNext(c, w, 6); }
  }

  lemma {:induction false} ShlNext(c: nat, w: Width, n: nat)
    ensures ShlTimes(c, w, n + 1) == Shl(ShlTimes(c, w, n), w)
    ensures ShlTimes(c + 1, w, n + 1) == Shl(ShlTimes(c + 1, w, n), w)
  {
  }

  function PackWord(k: Entry, ds: seq<int32>): (w: word32)
    requires |ds| == Scan(k)
  {
    PackRange(ControlBits(k), FieldWidth(k), ds);
    EntryRange(k);
    PackBits(ControlBits(k), FieldWidth(k), ds)
  }

  /** Packing only ever grows the word, so no prefix overflows. */
  lemma {:induction false} PackGrows(acc: nat, width: Width, ds: seq<int>, n: nat)
    requires n <= |ds|
    ensures PackBits(acc, width, ds[..n]) <= PackBits(acc, width, ds)
  {
    if n < |ds| {
      PackGrows(acc, width, ds[..|ds| - 1], n);
      assert ds[..|ds| - 1][..n] == ds[..n];
    } else {
      assert ds[..n] == ds;
    }
  }

  lemma {:induction false} PackStep(acc: nat, width: Width, ds: seq<int>, i: nat)
    requires i < |ds| && PackBits(acc, width, ds) < TWO_32
    ensures PackBits(acc, width, ds[..i + 1]) == Shl(PackBits(acc, width, ds[..i]), width) + Mask(ds[i], width) < TWO_32
  {
    assert ds[..i + 1][..i] == ds[..i];
    PackGrows(acc, width, ds, i + 1);
  }

  // -------------------------------------------------------------- unpacking

  /** Row of the decoder's table selected by the map code and the word's two top bits. */
  function Subcode(c: Coded): int {
    if c.code == 2 then c.word / TWO_30
    else if c.code == 3 then 4 + c.word / TWO_30
    else 0
  }

  /** Number of samples of a decoder row; the eighth row does not exist. */
  function RowSamples(sub: int): (n: nat)
    ensures n <= 7
  {
    match sub
    case 0 => 4
    case 1 => 1
    case 2 => 2
    case 3 => 3
    case 4 => 5
    case 5 => 6
    case 6 => 7
    case _ => 0
  }

  function RowWidth(sub: int): Width {
    match sub
    case 0 => 8
    case 1 => 30
    case 2 => 15
    case 3 => 10
    case 4 => 6
    case 5 => 5
    case _ => 4
  }

  predicate ValidCode(c: Coded) {
    0 <= c.code <= 3 && Subcode(c) <= 6
  }

  /** The differences a coded word stands for (none when its subcode is not valid). */
  function WordDiffs(c: Coded): (ds: seq<int>)
    ensures |ds| == RowSamples(Subcode(c))
  {
    UnpackBits(c.word, RowWidth(Subcode(c)), RowSamples(Subcode(c)))
  }

  function StreamDiffs(cs: seq<Coded>): (ds: seq<int>)
  {
    if cs == [] then [] else StreamDiffs(cs[..|cs| - 1]) + WordDiffs(cs[|cs| - 1])
  }

  lemma {:induction false} StreamDiffsAppend(a: seq<Coded>, b: seq<Coded>)
    ensures StreamDiffs(a + b) == StreamDiffs(a) + StreamDiffs(b)
  {
    if b == [] {
      assert a + b == a;
    } else {
      var front, last := b[..|b| - 1], b[|b| - 1];
      StreamDiffsAppend(a, front);
      AppendLast(a, b);
      ConcatAssoc(StreamDiffs(a), StreamDiffs(front), WordDiffs(last));
    }
  }

  /** Decoding a stream of coded words from the sample that precedes it. */
  function DecodeStream(start: int32, cs: seq<Coded>): seq<int32> {
    Integrate(start, StreamDiffs(cs))
  }

  /** Values a 30-bit field can hold. */
  predicate Small(ds: seq<int>) {
    forall i :: 0 <= i < |ds| ==> -BIG - 1 <= ds[i] <= BIG
  }

  lemma {:induction false} SmallAppend(a: seq<int>, b: seq<int>)
    requires Small(a) && Small(b)
    ensures Small(a + b)
  {
  }

  lemma {:induction false} UnpackSmall(w: nat, width: Width, n: nat)
    ensures Small(UnpackBits(w, width, n))
  {
    if n > 0 {
      UnpackSmall(Shr(w, width), width, n - 1);
      SmallAppend(UnpackBits(Shr(w, width), width, n - 1), [Extend(Mask(w, width), width)]);
    }
  }

  /** Whatever words arrive, the decoder adds only differences that fit 30 bits. */
  lemma {:induction false} StreamDiffsSmall(cs: seq<Coded>)
    ensures Small(StreamDiffs(cs))
  {
    if cs != [] {
      var front, c := cs[..|cs| - 1], cs[|cs| - 1];
      StreamDiffsSmall(front);
      UnpackSmall(c.word, RowWidth(Subcode(c)), RowSamples(Subcode(c)));
      SmallAppend(StreamDiffs(front), WordDiffs(c));
    }
  }

  /** A packed word selects the decoder row that matches its table entry. */
  lemma {:induction false} PackedRow(k: Entry, ds: seq<int32>)
    requires |ds| == Scan(k)
    ensures var c := Coded(BlockCode(k), PackWord(k, ds));
            ValidCode(c) && c.code != 0 && RowSamples(Subcode(c)) == Scan(k) && RowWidth(Subcode(c)) == FieldWidth(k)
  {
    PackRange(ControlBits(k), FieldWidth(k), ds);
    EntryRange(k);
    var w := PackWord(k, ds);
    if k == 0 { assert w / TWO_30 == 2; }
    else if k != 3 { assert w / TWO_30 == ControlBits(k); }
  }

  /** The decoder reads back each difference truncated to the entry's field width. */
  lemma {:induction false} PackedDiffs(k: Entry, ds: seq<int32>)
    requires |ds| == Scan(k)
    ensures WordDiffs(Coded(BlockCode(k), PackWord(k, ds)))
         == seq(|ds|, i requires 0 <= i < |ds| => Truncate(ds[i], FieldWidth(k)))
  {
    PackedRow(k, ds);
    UnpackPack(ControlBits(k), FieldWidth(k), ds);
  }
}
