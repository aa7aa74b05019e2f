/**
 What one call of the compressor produces, stated on values: the pending samples are
 consumed from the front, one coded word at a time, and a run is any interleaving of
 samples arriving and words being packed.
 */
module Packing {
  import opened Common
  import opened Steim

  const PEEK_ELEMS: int := 16

  /** Lowest table index whose word does not need more samples than are pending. */
  function LowestEntry(pending: nat): (lo: Entry)
    requires pending >= 1
    ensures Scan(lo) == Min(pending, MAX_PER_WORD)
  {
    if pending < MAX_PER_WORD then MAX_PER_WORD - pending else 0
  }

  function Window(pending: seq<int32>): (w: seq<int32>)
    ensures |w| == Min(|pending|, MAX_PER_WORD)
  {
    pending[..Min(|pending|, MAX_PER_WORD)]
  }

  /** Table entry for the next word. */
  function NextEntry(last: int32, pending: seq<int32>): (k: Entry)
    requires pending != []
    ensures Scan(k) <= |Window(pending)|
  {
    BestEntry(LowestEntry(|pending|), Diffs(last, Window(pending)))
  }

  function NextWord(last: int32, pending: seq<int32>): Coded
    requires pending != []
  {
    var k := NextEntry(last, pending);
    Coded(BlockCode(k), PackWord(k, Diffs(last, Window(pending))[..Scan(k)]))
  }

  /** No table entry that fits the pending differences would have packed more of them. */
  lemma {:induction false} NextWordPacksMost(last: int32, pending: seq<int32>, j: Entry)
    requires pending != [] && Scan(j) <= |pending| && Fits(j, Diffs(last, Window(pending)))
    ensures Scan(j) <= Scan(NextEntry(last, pending)) <= |pending|
    ensures Fits(NextEntry(last, pending), Diffs(last, Window(pending)))
  {
    BestEntryPacksMost(LowestEntry(|pending|), Diffs(last, Window(pending)), j);
  }

  /**
   The table of SEED's Steim-2 words: how many differences a word holds, the largest magnitude of each, the word's map
   code and its two top bits (any, if the map code says it all).
   */
  ghost predicate SteimWord(n: int, m: int, code: int, top: int) {
    || (n, m, code, top) == (7, 7, 3, 2) || (n, m, code, top) == (6, 15, 3, 1) || (n, m, code, top) == (5, 31, 3, 0)
    || ((n, m, code) == (4, 127, 1) && 0 <= top <= 3) || (n, m, code, top) == (3, 511, 2, 3)
    || (n, m, code, top) == (2, 16383, 2, 2) || (n, m, code, top) == (1, 536870911, 2, 1)
  }

  /** The sample before pending sample i. */
  function Before(last: int32, pending: seq<int32>, i: nat): int32
    requires i < |pending|
  {
    if i == 0 then last else pending[i - 1]
  }

  /**
   The first n of the pending samples differ from the ones before by at most m, or by -2^31, which is its own negation
   in 32 bits.
   */
  ghost predicate Near(last: int32, pending: seq<int32>, n: nat, m: int) {
    n <= |pending| && forall i :: 0 <= i < n ==>
      var d := (pending[i] - Before(last, pending, i) + 0x8000_0000) % 0x1_0000_0000 - 0x8000_0000;
      -m <= d <= m || d == -0x8000_0000
  }

  /** A word takes n or more samples if and only if the first n differences are within the limit for n. */
  lemma {:induction false} NextWordTakesIff(last: int32, pending: seq<int32>, n: nat, m: int, code: int, top: int)
    requires pending != [] && SteimWord(n, m, code, top)
    ensures Scan(NextEntry(last, pending)) >= n <==> n == 1 || Near(last, pending, n, m)
  {
    var j: Entry, k := 7 - n, NextEntry(last, pending);
    var ds := Diffs(last, Window(pending));
    if n <= |pending| {
      FitsNear(last, pending, j, m);
      if Fits(j, ds) {
        NextWordPacksMost(last, pending, j);
      }
      if k <= j && k < LAST_ENTRY {
        FitsUpward(k, j, ds);
      }
    }
  }

  lemma {:induction false} FitsNear(last: int32, pending: seq<int32>, k: Entry, m: int)
    requires Scan(k) <= |pending|
    requires exists code, top :: SteimWord(Scan(k), m, code, top)
    ensures Fits(k, Diffs(last, Window(pending))) <==> Near(last, pending, Scan(k), m)
  {
    var ds := Diffs(last, Window(pending));
    assert Limit(k) == m;
    forall i | 0 <= i < Scan(k)
      ensures ds[i] == Wrap32(pending[i] - Before(last, pending, i))
    {
    }
  }

  /** The map code and the top bits of the next word are those of the number of samples it takes. */
  lemma {:induction false} NextWordMarked(last: int32, pending: seq<int32>)
    requires pending != []
    ensures var c := NextWord(last, pending);
            exists m :: SteimWord(Scan(NextEntry(last, pending)), m, c.code, c.word / 0x4000_0000)
  {
    var k := NextEntry(last, pending);
    var ds := Diffs(last, Window(pending))[..Scan(k)];
    var c := NextWord(last, pending);
    PackRange(ControlBits(k), FieldWidth(k), ds);
    EntryRange(k);
    if k == 0 { assert c.word / TWO_30 == 2; }
    else if k != 3 { assert c.word / TWO_30 == ControlBits(k); }
    assert SteimWord(Scan(k), Limit(k), c.code, c.word / 0x4000_0000);
  }

  /** A difference the 30-bit field can hold. */
  predicate Encodable(d: int32) {
    -BIG - 1 <= d <= BIG
  }

  predicate AllEncodable(ds: seq<int32>) {
    forall i :: 0 <= i < |ds| ==> Encodable(ds[i])
  }

  /** Unpacked differences ds are right just where the differences es of the samples fit 30 bits. */
  ghost predicate Marked(ds: seq<int>, es: seq<int32>)
  {
    |ds| == |es| && forall i :: 0 <= i < |es| ==> (ds[i] == es[i] <==> Encodable(es[i]))
  }

  /** All of them are right, or all but the first n, if and only if these fit. */
  lemma {:induction false} MarkedIff(ds: seq<int>, es: seq<int32>, n: nat)
    requires Marked(ds, es) && n <= |es|
    ensures ds[n..] == es[n..] <==> AllEncodable(es[n..])
    ensures ds == es <==> AllEncodable(es)
  {
    assert ds[0..] == ds && es[0..] == es;
    MarkedFrom(ds, es, 0);
    MarkedFrom(ds, es, n);
  }

  lemma {:induction false} MarkedFrom(ds: seq<int>, es: seq<int32>, n: nat)
    requires Marked(ds, es) && n <= |es|
    ensures ds[n..] == es[n..] <==> AllEncodable(es[n..])
  {
    if ds[n..] == es[n..] {
      forall i | 0 <= i < |es| - n
        ensures Encodable(es[n..][i])
      {
        assert ds[n + i] == ds[n..][i] == es[n..][i] == es[n + i];
      }
    }
    if AllEncodable(es[n..]) {
      forall i | 0 <= i < |es| - n
        ensures ds[n..][i] == es[n..][i]
      {
        assert Encodable(es[n..][i]) && ds[n + i] == es[n + i];
      }
    }
  }

  lemma {:induction false} MarkedAppend(a: seq<int>, b: seq<int>, c: seq<int32>, d: seq<int32>)
    requires Marked(a, c) && Marked(b, d)
    ensures Marked(a + b, c + d)
  {
  }

  /** One word carries the first n pending samples, each right exactly when its difference fits 30 bits. */
  lemma {:induction false} NextWordDecodes(last: int32, pending: seq<int32>)
    requires pending != []
    ensures var n, c := Scan(NextEntry(last, pending)), NextWord(last, pending);
            && ValidCode(c) && c.code != 0 && |WordDiffs(c)| == n && Small(WordDiffs(c))
            && Marked(WordDiffs(c), Diffs(last, pending[..n]))
  {
    var k := NextEntry(last, pending);
    var all := Diffs(last, Window(pending));
    var ds := all[..Scan(k)];
    assert ds == Diffs(last, pending[..Scan(k)]);
    PackedRow(k, ds);
    PackedDiffs(k, ds);
    StreamDiffsSmall([NextWord(last, pending)]);
    forall i | 0 <= i < |ds|
      ensures Truncate(ds[i], FieldWidth(k)) == ds[i] <==> Encodable(ds[i])
    {
      if k < LAST_ENTRY { assert Abs32(all[i]) <= Limit(k); }
    }
  }

  // --------------------------------------------------------- table search

  /**
   Progress of the table search from entry w: with no fit yet it has only seen misfits from w
   up to x; with a fit it stands just below that fit, at or below w; when done it stands on the best entry.
   */
  ghost predicate Searching(lo: Entry, w: int, fit: int, x: int, done: bool, ds: seq<int32>)
    requires |ds| >= Scan(lo)
  {
    && lo <= x <= LAST_ENTRY && lo <= w <= LAST_ENTRY
    && (done ==> x == BestEntry(lo, ds))
    && (!done && fit < 0 ==> w <= x && forall j: Entry :: w <= j < x ==> !Fits(j, ds))
    && (!done && fit >= 0 ==> fit == x + 1 <= w && Fits(fit, ds))
  }

  /** Every move of the search after probing entry x. */
  lemma {:induction false} SearchMoves(lo: Entry, w: int, fit: int, x: int, ok: bool, ds: seq<int32>)
    requires |ds| >= Scan(lo) && Searching(lo, w, fit, x, false, ds) && (ok <==> Fits(x, ds))
    ensures !ok && fit < 0 && x == LAST_ENTRY ==> Searching(lo, w, fit, x, true, ds)
    ensures !ok && fit < 0 && x < LAST_ENTRY ==> Searching(lo, w, fit, x + 1, false, ds)
    ensures !ok && fit >= 0 ==> Searching(lo, w, fit, fit, true, ds)
    ensures ok && (x > w || x == lo) ==> Searching(lo, w, fit, x, true, ds)
    ensures ok && lo < x <= w ==> Searching(lo, w, x, x - 1, false, ds)
  {
    if !ok && fit < 0 && x == LAST_ENTRY {
      NothingFits(lo, w, ds);
    } else if !ok && fit >= 0 {
      StopAbove(lo, fit, ds);
    } else if ok && x > w {
      FirstFitAbove(lo, w, x, ds);
    } else if ok && x == lo {
      BestEntryUnique(lo, ds, x);
    }
  }

  /** Nothing from the entry point up fits, so nothing below it does: the last entry is used. */
  lemma {:induction false} NothingFits(lo: Entry, w: Entry, ds: seq<int32>)
    requires lo <= w && |ds| >= Scan(lo)
    requires forall j: Entry :: w <= j <= LAST_ENTRY ==> !Fits(j, ds)
    ensures BestEntry(lo, ds) == LAST_ENTRY
  {
    var k := BestEntry(lo, ds);
    if k < LAST_ENTRY { FitsUpward(k, LAST_ENTRY, ds); }
  }

  /** The first fit at or above the entry point is the best entry when the entry point does not fit. */
  lemma {:induction false} FirstFitAbove(lo: Entry, w: Entry, k: Entry, ds: seq<int32>)
    requires lo <= w < k && |ds| >= Scan(lo) && Fits(k, ds)
    requires forall j: Entry :: w <= j < k ==> !Fits(j, ds)
    ensures BestEntry(lo, ds) == k
  {
    forall j: Entry | lo <= j < k ensures !Fits(j, ds) {
      if j < w && Fits(j, ds) { FitsUpward(j, w, ds); }
    }
    BestEntryUnique(lo, ds, k);
  }

  /** Going down, the last entry that fitted is the best one. */
  lemma {:induction false} StopAbove(lo: Entry, k: Entry, ds: seq<int32>)
    requires lo < k && |ds| >= Scan(lo) && Fits(k, ds) && !Fits(k - 1, ds)
    ensures BestEntry(lo, ds) == k
  {
    forall j: Entry | lo <= j < k ensures !Fits(j, ds) {
      if Fits(j, ds) { FitsUpward(j, k - 1, ds); }
    }
    BestEntryUnique(lo, ds, k);
  }

  // ------------------------------------------------------------------ runs

  /** The sample before the stream, the samples packed so far, those pending, and the words made. */
  datatype Packer = Packer(start: int32, packed: seq<int32>, pending: seq<int32>, out: seq<Coded>) {
    function Last(): int32 {
      LastOf(start, packed)
    }
  }

  datatype Step = Put(sample: int32) | Pack

  /** A sample arrives (the ring holds sixteen) or a word is packed (something is pending). */
  function Apply(p: Packer, step: Step): Packer {
    match step
    case Put(x) =>
      if |p.pending| < PEEK_ELEMS then p.(pending := p.pending + [x]) else p
    case Pack =>
      if p.pending == [] then p else PackOne(p)
  }

  function PackOne(p: Packer): Packer
    requires p.pending != []
  {
    var n := Scan(NextEntry(p.Last(), p.pending));
    Packer(p.start, p.packed + p.pending[..n], p.pending[n..], p.out + [NextWord(p.Last(), p.pending)])
  }

  function Run(p: Packer, steps: seq<Step>): Packer {
    if steps == [] then p else Apply(Run(p, steps[..|steps| - 1]), steps[|steps| - 1])
  }

  /** What a step takes in. */
  function Gain(p: Packer, step: Step): seq<int32> {
    if step.Put? && |p.pending| < PEEK_ELEMS then [step.sample] else []
  }

  /** The samples that a run took in. */
  function Taken(p: Packer, steps: seq<Step>): seq<int32> {
    if steps == [] then []
    else
      var front := steps[..|steps| - 1];
      Taken(p, front) + Gain(Run(p, front), steps[|steps| - 1])
  }

  /** The words made so far unpack to the packed samples' differences, each exactly if it is encodable. */
  ghost predicate Tracks(start: int32, packed: seq<int32>, out: seq<Coded>)
  {
    Small(StreamDiffs(out)) && Marked(StreamDiffs(out), Diffs(start, packed))
  }

  /**
   Words of a record that has its first sample elsewhere: all differences but the first one are those of the samples.
   */
  ghost predicate Right(start: int32, packed: seq<int32>, out: seq<Coded>)
  {
    |StreamDiffs(out)| == |packed| && (packed != [] ==> StreamDiffs(out)[1..] == Diffs(start, packed)[1..])
  }

  /** The record that the compressor makes is right if and only if all its differences but the first are encodable. */
  lemma {:induction false} RightIff(start: int32, packed: seq<int32>, out: seq<Coded>)
    requires Tracks(start, packed, out) && packed != []
    ensures Right(start, packed, out) <==> AllEncodable(Diffs(start, packed)[1..])
  {
    MarkedIff(StreamDiffs(out), Diffs(start, packed), 1);
  }

  /** Adding words with at most as many differences as there are more samples. */
  lemma {:induction false} RightAppend(start: int32, packed: seq<int32>, out: seq<Coded>, more: seq<int32>,
                                       cs: seq<Coded>)
    requires |StreamDiffs(out)| <= |packed| && |StreamDiffs(cs)| <= |more| && more != []
    ensures |StreamDiffs(out + cs)| <= |packed + more|
    ensures Right(start, packed + more, out + cs) <==>
              Right(start, packed, out)
              && if packed == [] then Right(start, more, cs) else StreamDiffs(cs) == Diffs(LastOf(start, packed), more)
  {
    StreamDiffsAppend(out, cs);
    DiffsSplit(start, packed, more);
    TailAppend(StreamDiffs(out), StreamDiffs(cs), Diffs(start, packed), Diffs(LastOf(start, packed), more));
  }

  lemma {:induction false} TailAppend(a: seq<int>, b: seq<int>, c: seq<int32>, d: seq<int32>)
    requires |a| <= |c| && |b| <= |d| && d != []
    ensures |a + b| == |c + d| && (a + b)[1..] == (c + d)[1..] <==>
              && |a| == |c| && |b| == |d|
              && if c == [] then b[1..] == d[1..] else a[1..] == c[1..] && b == d
  {
    if |a + b| == |c + d| {
      if c == [] {
        assert a + b == b && c + d == d;
      } else {
        assert (a + b)[1..] == a[1..] + b && (c + d)[1..] == c[1..] + d;
        SameHalves(a[1..], b, c[1..], d);
      }
    }
  }

  lemma {:induction false} DiffsSplit(start: int32, a: seq<int32>, b: seq<int32>)
    ensures Diffs(start, a + b) == Diffs(start, a) + Diffs(LastOf(start, a), b)
  {
  }

  /** Packing one word keeps track, and the word is one a decoder accepts. */
  lemma {:induction false} PackKeepsTrack(p: Packer)
    requires p.pending != [] && Tracks(p.start, p.packed, p.out)
    ensures var q := PackOne(p); Tracks(q.start, q.packed, q.out)
  {
    var n, c := Scan(NextEntry(p.Last(), p.pending)), NextWord(p.Last(), p.pending);
    NextWordDecodes(p.Last(), p.pending);
    TrackAppend(p.start, p.packed, p.pending[..n], StreamDiffs(p.out), WordDiffs(c));
    assert (p.out + [c])[..|p.out|] == p.out;
  }

  lemma {:induction false} TrackAppend(start: int32, packed: seq<int32>, more: seq<int32>, ds: seq<int>, es: seq<int>)
    requires Small(ds) && Small(es)
    requires Marked(ds, Diffs(start, packed)) && Marked(es, Diffs(LastOf(start, packed), more))
    ensures Small(ds + es) && Marked(ds + es, Diffs(start, packed + more))
  {
    DiffsSplit(start, packed, more);
    SmallAppend(ds, es);
    MarkedAppend(ds, es, Diffs(start, packed), Diffs(LastOf(start, packed), more));
  }

  lemma {:induction false} SameHalves<T>(a: seq<T>, b: seq<T>, c: seq<T>, d: seq<T>)
    requires |a| == |c|
    ensures a + b == c + d <==> a == c && b == d
  {
    if a + b == c + d {
      assert a == (a + b)[..|a|] && b == (a + b)[|a|..];
      assert c == (c + d)[..|a|] && d == (c + d)[|a|..];
    }
  }

  lemma {:induction false} EncodableSplit(a: seq<int32>, b: seq<int32>)
    ensures AllEncodable(a + b) <==> AllEncodable(a) && AllEncodable(b)
  {
    if AllEncodable(a + b) {
      forall i | 0 <= i < |a| ensures Encodable(a[i]) { assert a[i] == (a + b)[i]; }
      forall i | 0 <= i < |b| ensures Encodable(b[i]) { assert b[i] == (a + b)[|a| + i]; }
    }
  }

  /** No sample is lost or reordered by a step. */
  lemma {:induction false} StepConserves(p: Packer, step: Step)
    requires |p.pending| <= PEEK_ELEMS
    ensures var q := Apply(p, step);
            && q.start == p.start && |q.pending| <= PEEK_ELEMS
            && q.packed + q.pending == p.packed + p.pending + Gain(p, step)
  {
    match step
    case Put(x) =>
      ConcatAssoc(p.packed, p.pending, Gain(p, step));
    case Pack =>
      if p.pending != [] {
        PackConserves(p);
      }
  }

  lemma {:induction false} PackConserves(p: Packer)
    requires p.pending != []
    ensures var q := PackOne(p);
            |q.pending| < |p.pending| && q.start == p.start && q.packed + q.pending == p.packed + p.pending
  {
    var n := Scan(NextEntry(p.Last(), p.pending));
    SplitAt(p.pending, n);
    ConcatAssoc(p.packed, p.pending[..n], p.pending[n..]);
  }

  lemma {:induction false} SplitAt<T>(s: seq<T>, n: nat)
    requires n <= |s|
    ensures s == s[..n] + s[n..]
  {
  }

  lemma {:induction false} StepTracks(p: Packer, step: Step)
    requires Tracks(p.start, p.packed, p.out)
    ensures var q := Apply(p, step); Tracks(q.start, q.packed, q.out)
  {
    if step.Pack? && p.pending != [] {
      PackKeepsTrack(p);
    }
  }

  /** Every run keeps track and loses no sample: those taken in are the packed ones, then the pending ones. */
  lemma {:induction false} RunTracks(start: int32, steps: seq<Step>)
    ensures var p := Run(Packer(start, [], [], []), steps);
            && p.start == start && |p.pending| <= PEEK_ELEMS && Tracks(p.start, p.packed, p.out)
            && Taken(Packer(start, [], [], []), steps) == p.packed + p.pending
  {
    if steps != [] {
      var front, step := steps[..|steps| - 1], steps[|steps| - 1];
      RunTracks(start, front);
      var p := Run(Packer(start, [], [], []), front);
      StepConserves(p, step);
      StepTracks(p, step);
    }
  }

  /** Among 30-bit differences, only a stream's own differences sum to it. */
  lemma {:induction false} SumsOnlyToOwn(start: int32, s: seq<int32>, ds: seq<int>)
    requires Small(ds)
    ensures Integrate(start, ds) == s <==> ds == Diffs(start, s)
  {
    IntegrateDiffs(start, s);
    DiffsOfIntegrate(start, ds);
  }

  /**
   Stream round trip over every run: the words made so far decode, from the sample before
   the first one, to exactly the samples packed so far if and only if every successive
   difference (wrapped to 32 bits) fits 30 bits; the rest is still pending, in order.
   */
  lemma {:induction false} StreamRoundTrip(start: int32, steps: seq<Step>)
    ensures var p0 := Packer(start, [], [], []);
            var p := Run(p0, steps);
            && Taken(p0, steps) == p.packed + p.pending
            && (DecodeStream(start, p.out) == p.packed <==> AllEncodable(Diffs(start, p.packed)))
  {
    RunTracks(start, steps);
    var p := Run(Packer(start, [], [], []), steps);
    SumsOnlyToOwn(start, p.packed, StreamDiffs(p.out));
    MarkedIff(StreamDiffs(p.out), Diffs(start, p.packed), 0);
  }

  /** It fails for a first sample of 2^29 after 0. */
  lemma {:induction false} StreamFails()
    ensures var p := Run(Packer(0, [], [], []), [Put(0x2000_0000), Pack]);
            p.packed == [0x2000_0000] && DecodeStream(0, p.out) != p.packed
  {
    var steps := [Put(0x2000_0000), Pack];
    FirstSteps(Packer(0, [], [], []), 0x2000_0000, steps);
    StreamRoundTrip(0, steps);
    var ds := Diffs(0, Run(Packer(0, [], [], []), steps).packed);
    assert ds == [0x2000_0000] && !Encodable(ds[0]);
  }

  /** The first sample, packed alone. */
  lemma {:induction false} FirstSteps(p: Packer, x: int32, steps: seq<Step>)
    requires p.packed == [] && p.pending == [] && steps == [Put(x), Pack]
    ensures Run(p, steps).packed == [x]
  {
    var p1 := p.(pending := [x]);
    RunNext(p, [Put(x)], Pack);
    RunNext(p, [], Put(x));
    assert [] + [Put(x)] == [Put(x)] && [Put(x)] + [Pack] == steps && [] + [x] == [x];
    assert Scan(NextEntry(p1.Last(), p1.pending)) == 1 && [x][..1] == [x] && [] + [x] == [x];
  }

  lemma {:induction false} RunNext(p: Packer, steps: seq<Step>, step: Step)
    ensures Run(p, steps + [step]) == Apply(Run(p, steps), step)
  {
    assert (steps + [step])[..|steps|] == steps;
  }
}
