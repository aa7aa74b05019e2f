/**
 Pre-compressed data arriving as a blockette: 32-bit words with a separate map of 2-bit codes,
 eight codes to a 16-bit map word. The words are decompressed into samples and then taken over,
 without recompressing them, into the frames of a record.
 */
module Blockette {
  import opened Common
  import opened Steim
  import opened Frames

  /** Code number j of a map. */
  function MapCode(maps: seq<nat>, j: nat): int
    requires j / 8 < |maps|
  {
    Codes(maps[j / 8], 8)[j % 8]
  }

  /** The code is found by shifting the map word right by 14 minus twice the index. */
  function ShiftedCode(map16: nat, midx: nat): (c: int)
    ensures 0 <= c <= 3
  {
    match midx
    case 0 => map16 / 16384 % 4
    case 2 => map16 / 4096 % 4
    case 4 => map16 / 1024 % 4
    case 6 => map16 / 256 % 4
    case 8 => map16 / 64 % 4
    case 10 => map16 / 16 % 4
    case 12 => map16 / 4 % 4
    case _ => map16 % 4
  }

  /** The code k places before the last one. */
  function NthCode(m: nat, k: nat): int {
    if k == 0 then m % 4 else NthCode(m / 4, k - 1)
  }

  lemma {:induction false} CodesNth(m: nat, n: nat, i: nat)
    requires i < n
    ensures Codes(m, n)[i] == NthCode(m, n - 1 - i)
  {
    if i < n - 1 {
      CodesNth(m / 4, n - 1, i);
    }
  }

  lemma {:induction false} ShiftedCodeIsMapCode(map16: nat, midx: nat)
    requires midx <= 14 && midx % 2 == 0
    ensures ShiftedCode(map16, midx) == Codes(map16, 8)[midx / 2]
  {
    CodesNth(map16, 8, midx / 2);
    ShiftFew(map16, (14 - midx) / 2);
  }

  /** Shifting by two bits k times. */
  lemma {:induction false} ShiftFew(m: nat, k: nat)
    requires k <= 7
    ensures NthCode(m, k) == ShiftedCode(m, 14 - 2 * k)
  {
    if k <= 3 {
      ShiftThree(m, k);
    } else {
      ShiftThree(m / 256, k - 4);
      NthSplit(m, k - 4);
    }
  }

  lemma {:induction false} ShiftThree(m: nat, k: nat)
    requires k <= 3
    ensures NthCode(m, k) == (match k case 0 => m % 4 case 1 => m / 4 % 4 case 2 => m / 16 % 4 case _ => m / 64 % 4)
  {
    assert m / 4 / 4 == m / 16 && m / 16 / 4 == m / 64;
    assert NthCode(m / 4, 0) == m / 4 % 4;
    assert NthCode(m / 4, 1) == NthCode(m / 16, 0);
    if k == 3 {
      assert NthCode(m / 4, 2) == NthCode(m / 16, 1) == NthCode(m / 64, 0);
    }
  }

  lemma {:induction false} NthSplit(m: nat, k: nat)
    ensures NthCode(m, 4 + k) == NthCode(m / 256, k)
  {
    var a := m / 4;
    var b := a / 4;
    var c := b / 4;
    assert NthCode(m, 4 + k) == NthCode(a, 3 + k) == NthCode(b, 2 + k);
    assert NthCode(b, 2 + k) == NthCode(c, 1 + k) == NthCode(c / 4, k);
    assert c / 4 == m / 256;
  }

  /** The coded words of a blockette whose codes start at position `at` of the map. */
  function BlocketteWords(maps: seq<nat>, data: seq<word32>, at: nat, n: nat): (cs: seq<Coded>)
    requires n <= |data| && (n > 0 ==> (at + n - 1) / 8 < |maps|)
    ensures |cs| == n
  {
    seq(n, i requires 0 <= i < n => Coded(MapCode(maps, at + i), data[i]))
  }

  /** Words k onwards are the n words at the data pointer, their codes starting at place `at` of the map. */
  ghost predicate Pointing(words: seq<Coded>, k: nat, n: nat, maps: seq<nat>, data: seq<word32>, at: nat)
  {
    && k + n == |words| && n <= |data| && at < 8 && (n > 0 ==> (at + n - 1) / 8 < |maps|)
    && words[k..] == BlocketteWords(maps, data, at, n)
  }

  /** Going on to the next word moves on by one data word and one code. */
  lemma {:induction false} PointNext(words: seq<Coded>, k: nat, n: nat, maps: seq<nat>, data: seq<word32>, at: nat)
    requires Pointing(words, k, n, maps, data, at) && n > 0
    ensures words[k] == Coded(MapCode(maps, at), data[0])
    ensures at < 7 ==> Pointing(words, k + 1, n - 1, maps, data[1..], at + 1)
    ensures at == 7 ==> Pointing(words, k + 1, n - 1, maps[1..], data[1..], 0)
  {
    var all := BlocketteWords(maps, data, at, n);
    assert words[k] == words[k..][0] && words[k + 1..] == words[k..][1..];
    if at < 7 {
      assert BlocketteWords(maps, data[1..], at + 1, n - 1) == all[1..];
    } else {
      forall i | 0 <= i < n - 1
        ensures MapCode(maps[1..], i) == MapCode(maps, at + 1 + i)
      {
        assert (8 + i) / 8 == i / 8 + 1 && (8 + i) % 8 == i % 8;
      }
      assert BlocketteWords(maps[1..], data[1..], 0, n - 1) == all[1..];
    }
  }

  // ------------------------------------------------- laying out a blockette

  /** The map word holding the given codes, earliest code in the high bits. */
  function CodesValue(cs: seq<int>): nat
    requires forall i :: 0 <= i < |cs| ==> 0 <= cs[i] <= 3
  {
    if cs == [] then 0 else CodesValue(cs[..|cs| - 1]) * 4 + cs[|cs| - 1]
  }

  lemma {:induction false} CodesOfValue(cs: seq<int>)
    requires forall i :: 0 <= i < |cs| ==> 0 <= cs[i] <= 3
    ensures Codes(CodesValue(cs), |cs|) == cs
  {
    if cs != [] {
      CodesOfValue(cs[..|cs| - 1]);
      CodesPush(CodesValue(cs[..|cs| - 1]), |cs| - 1, cs[|cs| - 1]);
    }
  }

  /** Map word k of a list of coded words, unused codes being 0. */
  function MapGroup(cs: seq<Coded>, k: nat): (g: seq<int>)
    requires forall i :: 0 <= i < |cs| ==> 0 <= cs[i].code <= 3
    ensures |g| == 8 && forall i :: 0 <= i < 8 ==> 0 <= g[i] <= 3
  {
    seq(8, i requires 0 <= i < 8 => if 8 * k + i < |cs| then cs[8 * k + i].code else 0)
  }

  function MapOf(cs: seq<Coded>): (maps: seq<nat>)
    requires forall i :: 0 <= i < |cs| ==> 0 <= cs[i].code <= 3
    ensures |maps| == |cs| / 8 + 1
  {
    seq(|cs| / 8 + 1, k requires 0 <= k => CodesValue(MapGroup(cs, k)))
  }

  function DataOf(cs: seq<Coded>): (data: seq<word32>)
    ensures |data| == |cs|
  {
    seq(|cs|, i requires 0 <= i < |cs| => cs[i].word)
  }

  /** Reading a laid-out blockette gives the coded words back. */
  lemma {:induction false} LayoutReads(cs: seq<Coded>)
    requires forall i :: 0 <= i < |cs| ==> 0 <= cs[i].code <= 3
    ensures BlocketteWords(MapOf(cs), DataOf(cs), 0, |cs|) == cs
  {
    forall i | 0 <= i < |cs|
      ensures MapCode(MapOf(cs), i) == cs[i].code
    {
      CodesOfValue(MapGroup(cs, i / 8));
    }
  }

  // ------------------------------------------------------------- decoding

  /** Samples in the first i words. */
  function Count(cs: seq<Coded>, i: nat): nat
    requires i <= |cs|
  {
    |StreamDiffs(cs[..i])|
  }

  /** Number of words, from word i on, that decode completely before the buffer is full or a subcode is bad. */
  function FitFrom(cs: seq<Coded>, rate: int, i: nat): (m: nat)
    requires i <= |cs|
    ensures i <= m <= |cs|
    decreases |cs| - i
  {
    if i == |cs| || Count(cs, i) >= rate || !ValidCode(cs[i]) || Count(cs, i + 1) > rate then i
    else FitFrom(cs, rate, i + 1)
  }

  /** All words decode and their samples fit the buffer. */
  predicate Complete(cs: seq<Coded>, rate: int) {
    FitFrom(cs, rate, 0) == |cs|
  }

  lemma {:induction false} CountNext(cs: seq<Coded>, i: nat)
    requires i < |cs|
    ensures StreamDiffs(cs[..i + 1]) == StreamDiffs(cs[..i]) + WordDiffs(cs[i])
    ensures Count(cs, i + 1) == Count(cs, i) + RowSamples(Subcode(cs[i]))
  {
    assert cs[..i + 1][..i] == cs[..i];
  }

  lemma {:induction false} CountMonotone(cs: seq<Coded>, i: nat, j: nat)
    requires i <= j <= |cs|
    ensures Count(cs, i) + (if forall k :: i <= k < j ==> ValidCode(cs[k]) then j - i else 0) <= Count(cs, j)
  {
    if i < j {
      CountMonotone(cs, i, j - 1);
      CountNext(cs, j - 1);
    }
  }

  /** Complete means exactly: every subcode is valid and the samples of all words fit. */
  lemma {:induction false} CompleteIff(cs: seq<Coded>, rate: int)
    requires rate >= 0
    ensures Complete(cs, rate) <==> (forall i :: 0 <= i < |cs| ==> ValidCode(cs[i])) && |StreamDiffs(cs)| <= rate
  {
    assert cs[..|cs|] == cs;
    CompleteFromIff(cs, rate, 0);
  }

  lemma {:induction false} CompleteFromIff(cs: seq<Coded>, rate: int, i: nat)
    requires i <= |cs| && Count(cs, i) <= rate
    ensures FitFrom(cs, rate, i) == |cs| <==>
              (forall k :: i <= k < |cs| ==> ValidCode(cs[k])) && Count(cs, |cs|) <= rate
    decreases |cs| - i
  {
    if i < |cs| {
      CountNext(cs, i);
      CountMonotone(cs, i, |cs|);
      CountMonotone(cs, i + 1, |cs|);
      if Count(cs, i + 1) <= rate {
        CompleteFromIff(cs, rate, i + 1);
      }
    }
  }

  lemma {:induction false} DecodeAppend(prev: int32, a: seq<Coded>, b: seq<Coded>)
    ensures DecodeStream(prev, a + b) == DecodeStream(prev, a) + DecodeStream(LastOf(prev, DecodeStream(prev, a)), b)
  {
    StreamDiffsAppend(a, b);
    IntegrateAppend(prev, StreamDiffs(a), StreamDiffs(b));
  }

  /** The whole decoding starts with the decoding of any first words. */
  lemma {:induction false} DecodePrefix(prev: int32, cs: seq<Coded>, i: nat)
    requires i <= |cs|
    ensures |DecodeStream(prev, cs[..i])| == Count(cs, i) <= |DecodeStream(prev, cs)|
    ensures DecodeStream(prev, cs)[..Count(cs, i)] == DecodeStream(prev, cs[..i])
  {
    assert cs == cs[..i] + cs[i..];
    DecodeAppend(prev, cs[..i], cs[i..]);
  }
}
