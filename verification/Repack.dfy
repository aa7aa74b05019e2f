/**
 Taking already compressed words over into a record: the words and their codes move into frames
 in order, and the first and last samples come from the decompressed buffer.
 */
module Repack {
  import opened Common
  import opened Steim
  import opened Frames
  import opened Packing
  import opened Blockette
  import opened FrameBuilder
  import opened Compressor
  import opened Precompressed
  import opened Channel

  /** Of words i to j, those that a reader of frames will see: the ones with a code other than 0. */
  function KeptWords(ws: seq<Coded>, i: nat, j: nat): seq<Coded>
    requires i <= j <= |ws|
  {
    if i == j then [] else KeptWords(ws, i, j - 1) + Kept(ws[j - 1].code, ws[j - 1].word)
  }

  ghost predicate NoZeroCode(cs: seq<Coded>)
  {
    forall i :: 0 <= i < |cs| ==> cs[i].code != 0
  }

  /** None of the words i to j has code 0. */
  ghost predicate NoZeroIn(ws: seq<Coded>, i: nat, j: nat)
    requires j <= |ws|
  {
    forall k :: i <= k < j ==> ws[k].code != 0
  }

  lemma {:induction false} KeptAll(ws: seq<Coded>, i: nat, j: nat)
    requires i <= j <= |ws| && NoZeroIn(ws, i, j)
    ensures KeptWords(ws, i, j) == ws[i..j]
  {
    if i < j {
      KeptAll(ws, i, j - 1);
      assert ws[i..j] == ws[i..j - 1] + [ws[j - 1]];
    }
  }

  /** Number of words with code 0 among the words i to j. */
  ghost function ZeroCodes(ws: seq<Coded>, i: nat, j: nat): (n: nat)
    requires i <= j <= |ws|
    ensures n == 0 <==> NoZeroIn(ws, i, j)
  {
    if i == j then 0 else ZeroCodes(ws, i, j - 1) + if ws[j - 1].code == 0 then 1 else 0
  }

  /** Samples of the words taken over out of words i to j and of those left out, less those of all words up to j. */
  ghost function Missing(ws: seq<Coded>, i: nat, j: nat): int
    requires i <= j <= |ws|
  {
    |StreamDiffs(KeptWords(ws, i, j))| + 4 * ZeroCodes(ws, i, j) - Count(ws, j)
  }

  /** Every word with code 0 takes exactly four samples away. */
  lemma {:induction false} KeptCounts(ws: seq<Coded>, i: nat, j: nat)
    requires i <= j <= |ws|
    ensures |StreamDiffs(KeptWords(ws, i, j))| + 4 * ZeroCodes(ws, i, j) == Count(ws, j) - Count(ws, i)
  {
    var f := (k: nat) requires i <= k <= |ws| => Missing(ws, i, k);
    forall k: nat | i < k <= j
      ensures f(k) == f(k - 1)
    {
      KeptStep(ws, i, k);
    }
    Constant(f, i, j);
    NoneMissing(ws, i);
  }

  lemma {:induction false} Constant(f: nat --> int, i: nat, j: nat)
    requires i <= j && (forall k: nat :: i <= k <= j ==> f.requires(k)) && forall k: nat :: i < k <= j ==>
             f(k) == f(k - 1)
    ensures f(j) == f(i)
  {
    if i < j {
      Constant(f, i, j - 1);
    }
  }

  lemma {:induction false} NoneMissing(ws: seq<Coded>, i: nat)
    requires i <= |ws|
    ensures Missing(ws, i, i) == -(Count(ws, i) as int)
  {
  }

  lemma {:induction false} KeptStep(ws: seq<Coded>, i: nat, j: nat)
    requires i < j <= |ws|
    ensures Missing(ws, i, j) == Missing(ws, i, j - 1)
  {
    CountNext(ws, j - 1);
    KeptOne(KeptWords(ws, i, j - 1), ws[j - 1]);
  }

  lemma {:induction false} KeptOne(front: seq<Coded>, c: Coded)
    ensures |StreamDiffs(front + Kept(c.code, c.word))| == |StreamDiffs(front)| + if c.code == 0 then 0
            else RowSamples(Subcode(c))
    ensures c.code == 0 ==> RowSamples(Subcode(c)) == 4
  {
    if c.code == 0 {
      assert front + [] == front;
    } else {
      assert (front + [c])[..|front|] == front;
    }
  }

  /**
   The frames carry all samples of the words exactly when no word has code 0: the decompressor
   reads such a word as four 8-bit differences, a reader of frames skips it.
   */
  lemma {:induction false} RepackLosslessIff(ws: seq<Coded>)
    ensures StreamDiffs(KeptWords(ws, 0, |ws|)) == StreamDiffs(ws) <==> NoZeroCode(ws)
  {
    assert ws[..|ws|] == ws && ws[0..|ws|] == ws && ws[..0] == [];
    KeptCounts(ws, 0, |ws|);
    if NoZeroCode(ws) {
      KeptAll(ws, 0, |ws|);
    }
  }

  /** A word with code 0, four differences of 1 to the decompressor and nothing to a reader of frames. */
  lemma {:induction false} RepackLoses()
    ensures var ws := [Coded(0, 0x0101_0101)]; StreamDiffs(KeptWords(ws, 0, |ws|)) != StreamDiffs(ws)
  {
    var ws := [Coded(0, 0x0101_0101)];
    assert ws[0].code == 0;
    RepackLosslessIff(ws);
  }

  /** The sample before word i of a decoded blockette. */
  function Before(prev: int32, samples: seq<int32>, cut: seq<nat>, i: nat): int32
    requires i < |cut| && cut[i] <= |samples|
  {
    LastOf(prev, samples[..cut[i]])
  }

  /** The record's history after words i to j of a blockette have been taken over. */
  function Built(p: Packer, samples: seq<int32>, cut: seq<nat>, ws: seq<Coded>, i: nat, j: nat): Packer
    requires i <= j <= |ws| && j < |cut| && cut[i] <= cut[j] <= |samples|
  {
    Packer(p.start, p.packed + samples[cut[i]..cut[j]], p.pending, p.out + KeptWords(ws, i, j))
  }

  /** Taken-over words keep the record decodable: they are their own samples' differences. */
  lemma {:induction false} BuiltTracks(p: Packer, prev: int32, samples: seq<int32>, cut: seq<nat>, ws: seq<Coded>,
                                       i: nat, j: nat)
    requires i <= j <= |ws| && TracksRecord(p) && NoZeroCode(ws)
    requires Cuts(ws, samples, cut) && CutsMean(prev, ws, samples, cut) && p.Last() == Before(prev, samples, cut, i)
    ensures TracksRecord(Built(p, samples, cut, ws, i, j))
  {
    KeptAll(ws, i, j);
    PieceDecodes(prev, ws, i, j);
    PartTracks(p.Last(), ws[i..j]);
    TrackAppend(p.start, p.packed, samples[cut[i]..cut[j]], StreamDiffs(p.out), StreamDiffs(ws[i..j]));
    StreamDiffsAppend(p.out, ws[i..j]);
  }

  /**
   With words i to j taken over, a record is right if and only if it was right before, no code is 0, and the
   words continue its samples or begin it.
   */
  lemma {:induction false} BuiltRightIff(p: Packer, prev: int32, samples: seq<int32>, cut: seq<nat>, ws: seq<Coded>,
                                         i: nat, j: nat)
    requires i < j <= |ws| && |StreamDiffs(p.out)| <= |p.packed|
    requires Cuts(ws, samples, cut) && CutsMean(prev, ws, samples, cut)
    ensures var q := Built(p, samples, cut, ws, i, j);
            && |StreamDiffs(q.out)| <= |q.packed|
            && (RightRecord(q) <==>
                  RightRecord(p) && NoZeroIn(ws, i, j) && (p.packed == [] || p.Last() == Before(prev, samples, cut, i)))
  {
    var more, cs := samples[cut[i]..cut[j]], KeptWords(ws, i, j);
    KeptCounts(ws, i, j);
    RightAppend(p.start, p.packed, p.out, more, cs);
    if NoZeroIn(ws, i, j) {
      KeptAll(ws, i, j);
      PieceDecodes(prev, ws, i, j);
      PartTracks(Before(prev, samples, cut, i), ws[i..j]);
      DiffsTellStart(Before(prev, samples, cut, i), p.Last(), more);
      DiffsTellStart(Before(prev, samples, cut, i), p.start, more);
    }
  }

  /** The differences of samples depend on the sample before them in the first one only. */
  lemma {:induction false} DiffsTellStart(a: int32, b: int32, s: seq<int32>)
    requires s != []
    ensures Diffs(a, s)[1..] == Diffs(b, s)[1..]
    ensures Diffs(a, s) == Diffs(b, s) <==> a == b
  {
    if Diffs(a, s) == Diffs(b, s) {
      assert Wrap32(s[0] - a) == Diffs(a, s)[0] == Diffs(b, s)[0] == Wrap32(s[0] - b);
      WrapDifference(a, s[0]);
      WrapDifference(b, s[0]);
      WrapMinus(a, b, s[0]);
    }
  }

  lemma {:induction false} WrapMinus(a: int32, b: int32, x: int32)
    requires Wrap32(x - a) == Wrap32(x - b)
    ensures a == b
  {
  }

  /** The samples of words i to j are what those words decode to from the sample before them. */
  lemma {:induction false} PieceDecodes(prev: int32, ws: seq<Coded>, i: nat, j: nat)
    requires i <= j <= |ws|
    ensures Count(ws, i) <= Count(ws, j) <= |DecodeStream(prev, ws)|
    ensures var s := DecodeStream(prev, ws);
            s[Count(ws, i)..Count(ws, j)] == DecodeStream(LastOf(prev, s[..Count(ws, i)]), ws[i..j])
  {
    DecodePrefix(prev, ws, i);
    DecodePrefix(prev, ws, j);
    assert ws[..j] == ws[..i] + ws[i..j];
    DecodeAppend(prev, ws[..i], ws[i..j]);
    var s, a, b := DecodeStream(prev, ws), Count(ws, i), Count(ws, j);
    assert s[a..b] == s[..b][a..];
  }

  /** Decoded words unpack to exactly the differences of their samples, all of which are encodable. */
  lemma {:induction false} PartTracks(prev: int32, cs: seq<Coded>)
    ensures Small(StreamDiffs(cs)) && Marked(StreamDiffs(cs), Diffs(prev, DecodeStream(prev, cs)))
    ensures StreamDiffs(cs) == Diffs(prev, DecodeStream(prev, cs)) && AllEncodable(Diffs(prev, DecodeStream(prev, cs)))
  {
    StreamDiffsSmall(cs);
    SumsOnlyToOwn(prev, DecodeStream(prev, cs), StreamDiffs(cs));
  }

  /**
   Words taken over after the wrong sample decode wrongly: a continued record stays correct exactly
   when the blockette's preceding sample is the record's last one.
   */
  lemma {:induction false} ContinuityIff(last: int32, prev: int32, ws: seq<Coded>)
    requires StreamDiffs(ws) != []
    ensures DecodeStream(last, ws) == DecodeStream(prev, ws) <==> last == prev
  {
    SumsTellStart(last, prev, StreamDiffs(ws));
  }

  /** Sums of the same differences from different starts differ, in the first element already. */
  lemma {:induction false} SumsTellStart(a: int32, b: int32, ds: seq<int>)
    requires ds != []
    ensures Integrate(a, ds) == Integrate(b, ds) <==> a == b
  {
    FirstThenRest(ds);
    IntegrateFirst(a, ds[0], ds[1..]);
    IntegrateFirst(b, ds[0], ds[1..]);
    WrapTells(a, b, ds[0]);
    FirstOf(Wrap32(a + ds[0]), Integrate(Wrap32(a + ds[0]), ds[1..]));
    FirstOf(Wrap32(b + ds[0]), Integrate(Wrap32(b + ds[0]), ds[1..]));
  }

  lemma {:induction false} FirstOf(x: int32, s: seq<int32>)
    ensures ([x] + s)[0] == x
  {
  }

  lemma {:induction false} WrapTells(a: int32, b: int32, d: int)
    ensures Wrap32(a + d) == Wrap32(b + d) <==> a == b
  {
  }

  ghost predicate Wellformed(cs: seq<Coded>) {
    forall i :: 0 <= i < |cs| ==> ValidCode(cs[i]) && cs[i].code != 0
  }

  /** Every word the compressor makes has a code other than 0 and a subcode the decoder knows. */
  lemma {:induction false} RunWellformed(start: int32, steps: seq<Step>)
    ensures Wellformed(Run(Packer(start, [], [], []), steps).out)
  {
    if steps != [] {
      var front := steps[..|steps| - 1];
      RunWellformed(start, front);
      var p := Run(Packer(start, [], [], []), front);
      if steps[|steps| - 1].Pack? && p.pending != [] {
        NextWordDecodes(p.Last(), p.pending);
      }
    }
  }

  /**
   Blockette round trip over every run: the words made so far, laid out as a blockette, are read
   back and decompressed completely into any buffer that has room, and they yield the packed samples
   exactly when every difference fits 30 bits.
   */
  lemma {:induction false} BlocketteRoundTrip(start: int32, steps: seq<Step>, rate: int)
    requires |Run(Packer(start, [], [], []), steps).packed| <= rate
    ensures var p := Run(Packer(start, [], [], []), steps);
            && Wellformed(p.out) && NoZeroCode(p.out)
            && BlocketteWords(MapOf(p.out), DataOf(p.out), 0, |p.out|) == p.out
            && Complete(p.out, rate)
            && (DecodeStream(start, p.out) == p.packed <==> AllEncodable(Diffs(start, p.packed)))
  {
    RunTracks(start, steps);
    RunWellformed(start, steps);
    StreamRoundTrip(start, steps);
    var p := Run(Packer(start, [], [], []), steps);
    LayoutReads(p.out);
    CompleteIff(p.out, rate);
  }

  // ------------------------------------------------------ filling frames

  lemma {:induction false} KeptNext(base: seq<Coded>, ws: seq<Coded>, i: nat, j: nat, next: nat, code: int, w: word32,
                                    held: seq<Coded>)
    requires i <= j < |ws| && next == j + 1 && Coded(code, w) == ws[j] && held == base + KeptWords(ws, i, j)
    ensures held + Kept(code, w) == base + KeptWords(ws, i, next)
  {
    ConcatAssoc(base, KeptWords(ws, i, j), Kept(ws[j].code, ws[j].word));
  }

  /** Words i to blockIdx of the blockette have followed the words that the record held before. */
  ghost predicate Moved(b: FrameBuilder, q: ChannelQueue, base: seq<Coded>, i: nat)
    reads b, b.frameBuffer, q
  {
    && b.Filling() && q.Pointers() && i <= q.blockIdx
    && b.coded == base + KeptWords(q.words, i, q.blockIdx)
  }

  /** Move one word with its code. */
  method MoveOne(b: FrameBuilder, q: ChannelQueue, ghost base: seq<Coded>, ghost i: nat)
    requires Moved(b, q, base, i) && b.block <= 15 && q.blocks > 0
    modifies b`block, b`flagWord, b`coded, b.frameBuffer, q`pmap, q`pdata, q`mapidx, q`curmap, q`blocks, q`blockIdx
    ensures Moved(b, q, base, i) && b.block <= 16 && i < q.blockIdx && q.blocks == old(q.blocks) - 1
    ensures b.block == old(b.block) + 1 && q.blockIdx == old(q.blockIdx) + 1
  {
    ghost var j, held := q.blockIdx, b.coded;
    var code, w := q.TakeWord();
    KeptNext(base, q.words, i, j, q.blockIdx, code, w, held);
    b.PutWord(code, w);
  }

  /** Move words into the frame buffer until it is full or the words run out. */
  method FillFrame(b: FrameBuilder, q: ChannelQueue)
    requires b.Filling() && b.block <= 15 && q.Pointers() && q.blocks > 0
    modifies b`block, b`flagWord, b`coded, b.frameBuffer, q`pmap, q`pdata, q`mapidx, q`curmap, q`blocks, q`blockIdx
    ensures Moved(b, q, old(b.coded), old(q.blockIdx)) && b.block <= 16 && old(q.blockIdx) < q.blockIdx
    ensures q.blocks == 0 || b.block == 16
    ensures b.block - old(b.block) == q.blockIdx - old(q.blockIdx)
  {
    ghost var i, base := q.blockIdx, b.coded;
    assert base + [] == base;
    while q.blocks > 0 && b.block < WORDS_PER_FRAME
      invariant Moved(b, q, base, i) && b.block <= 16 && b.block - old(b.block) == q.blockIdx - i
      invariant q.blockIdx == i ==> b.block <= 15 && q.blocks > 0
      decreases q.blocks
    {
      MoveOne(b, q, base, i);
    }
  }

  /** A record of n words got m more, and with them at most one more frame; its blockettes are the same. */
  ghost predicate Grew(b: FrameBuilder, m: int, n: int, frame: nat, blockettes: nat)
    reads b
  {
    && b.Words() == n + m && b.blocketteCount == blockettes
    && (b.frame == frame || (b.frame == frame + 1 && b.block == 1))
  }

  /** A compressor about to take words over from q: its ring is empty. */
  ghost predicate Fed(c: Compressor, q: ChannelQueue)
    reads c, c.ring, c.ring.peeks, c.builder, c.builder.frameBuffer, q, q.databuf, q.idxbuf
  {
    c.Valid() && c.rec.pending == [] && q.Pointers() && q.Decoded()
  }

  /** The next word of q continues the samples of the compressor. */
  ghost predicate Continues(c: Compressor, q: ChannelQueue)
    requires q.Decoded() && q.blockIdx <= |q.words|
    reads c, q, q.databuf, q.idxbuf
  {
    c.lastSample == Before(q.prevSample, q.samples, q.cut, q.blockIdx)
  }

  /** Begin a record with the sample the next word starts with, unless one is begun already. */
  method BeginWith(b: FrameBuilder, q: ChannelQueue)
    requires b.Valid() && q.Decoded() && q.blockIdx < |q.words|
    modifies b`block, b`flagWord, b`firstWord, b`first, b.frameBuffer
    ensures b.Valid() && !b.New() && b.coded == old(b.coded) && b.Words() == old(b.Words())
    ensures b.first == if old(b.New()) then q.samples[q.cut[q.blockIdx]] else old(b.first)
  {
    if b.New() {
      var x := q.FirstSample();
      b.Start(x);
    }
  }

  /** Move one frame's worth of words into the record; the frame is stored if it got full. */
  method FillAndStore(b: FrameBuilder, q: ChannelQueue)
    requires b.Valid() && !b.New() && q.Pointers() && q.blocks > 0
    modifies b, b.frameBuffer, q`pmap, q`pdata, q`mapidx, q`curmap, q`blocks, q`blockIdx
    ensures b.Valid() && !b.New() && b.first == old(b.first) && q.Pointers() && old(q.blockIdx) < q.blockIdx
    ensures b.coded == old(b.coded) + KeptWords(q.words, old(q.blockIdx), q.blockIdx)
    ensures q.blocks == 0 || b.block == 1
    ensures Grew(b, q.blockIdx - old(q.blockIdx), old(b.Words()), old(b.frame), old(b.blocketteCount))
  {
    FillFrame(b, q);
    StoreIfFull(b);
  }

  /** Store the frame if it is full. */
  method StoreIfFull(b: FrameBuilder)
    requires b.Filling() && b.block <= 16
    modifies b`frames, b`frame, b`block, b`flagWord, b.frameBuffer
    ensures b.Valid() && !b.New() && b.Words() == old(b.Words())
    ensures if old(b.block) == 16 then b.frame == old(b.frame) + 1 && b.block == 1
            else b.frame == old(b.frame) && b.block == old(b.block)
  {
    if b.block >= WORDS_PER_FRAME {
      b.StoreFrame();
    }
  }

  /** The history after words i to j agrees with what the frames hold then. */
  lemma {:induction false} BuiltFacts(p: Packer, after: Packer, prev: int32, samples: seq<int32>, cut: seq<nat>,
                                      ws: seq<Coded>, i: nat, j: nat,
                                      first0: int32, first: int32, coded: seq<Coded>, last: int32)
    requires i < j <= |ws| && Cuts(ws, samples, cut) && after == Built(p, samples, cut, ws, i, j)
    requires first == (if p.packed == [] then samples[cut[i]] else first0) && (p.packed != [] ==> first0 == p.packed[0])
    requires coded == p.out + KeptWords(ws, i, j) && last == samples[cut[j] - 1]
    ensures after.packed != [] && first == after.packed[0] && after.out == coded && after.pending == p.pending
    ensures last == after.Last() == Before(prev, samples, cut, j)
  {
  }

  /** Begin a record if there is none, and fill at most one frame. */
  method MoveFrame(b: FrameBuilder, q: ChannelQueue)
    requires b.Valid() && q.Pointers() && q.Decoded() && q.blocks > 0
    modifies b, b.frameBuffer, q`pmap, q`pdata, q`mapidx, q`curmap, q`blocks, q`blockIdx
    ensures b.Valid() && !b.New() && q.Pointers() && old(q.blockIdx) < q.blockIdx
    ensures b.first == if old(b.New()) then q.samples[q.cut[old(q.blockIdx)]] else old(b.first)
    ensures b.coded == old(b.coded) + KeptWords(q.words, old(q.blockIdx), q.blockIdx)
    ensures q.blocks == 0 || b.block == 1
    ensures Grew(b, q.blockIdx - old(q.blockIdx), old(b.Words()), old(b.frame), old(b.blocketteCount))
  {
    BeginWith(b, q);
    FillAndStore(b, q);
  }

  /** Fill at most one frame; the results are the number of samples its words hold and the last of them. */
  method MoveWords(b: FrameBuilder, q: ChannelQueue) returns (used: nat, last: int32)
    requires b.Valid() && q.Pointers() && q.Decoded() && q.blocks > 0
    modifies b, b.frameBuffer, q`pmap, q`pdata, q`mapidx, q`curmap, q`blocks, q`blockIdx
    ensures b.Valid() && !b.New() && q.Pointers() && old(q.blockIdx) < q.blockIdx <= |q.words|
    ensures b.first == if old(b.New()) then q.samples[q.cut[old(q.blockIdx)]] else old(b.first)
    ensures b.coded == old(b.coded) + KeptWords(q.words, old(q.blockIdx), q.blockIdx)
    ensures q.blocks == 0 || b.block == 1
    ensures Grew(b, q.blockIdx - old(q.blockIdx), old(b.Words()), old(b.frame), old(b.blocketteCount))
    ensures used == q.cut[q.blockIdx] - q.cut[old(q.blockIdx)] > 0 && last == q.samples[q.cut[q.blockIdx] - 1]
  {
    ghost var i := q.blockIdx;
    var number := q.Index();
    MoveFrame(b, q);
    used, last := CountTaken(q, number, i);
  }

  /** Number of samples, and the last of them, in the words handed on since word i, where `number` samples had been. */
  method CountTaken(q: ChannelQueue, number: nat, ghost i: nat) returns (used: nat, last: int32)
    requires q.Decoded() && i < q.blockIdx <= |q.words| && number == q.cut[i]
    ensures used == q.cut[q.blockIdx] - q.cut[i] > 0 && last == q.samples[q.cut[q.blockIdx] - 1]
  {
    var reached := q.Index();
    used := reached - number;
    last := q.LastSample();
  }

  /**
   Fill at most one frame with words of the blockette, whatever sample comes before them; the result is the number
   of samples they hold.
   */
  method BuildBlocks(c: Compressor, q: ChannelQueue) returns (used: nat)
    requires Fed(c, q) && (c.ringPresent ==> q.blocks > 0)
    modifies c`lastSample, c`rec, c.builder, c.builder.frameBuffer,
             q`pmap, q`pdata, q`mapidx, q`curmap, q`blocks, q`blockIdx
    ensures Fed(c, q) && Grew(c.builder, q.blockIdx - old(q.blockIdx), old(c.builder.Words()), old(c.builder.frame),
              old(c.builder.blocketteCount))
    ensures !old(c.ringPresent) ==> used == 1 && c.rec == old(c.rec) && q.blockIdx == old(q.blockIdx)
    ensures old(c.ringPresent) ==>
              && old(q.blockIdx) < q.blockIdx && used == q.cut[q.blockIdx] - q.cut[old(q.blockIdx)] > 0
              && c.rec == Built(old(c.rec), q.samples, q.cut, q.words, old(q.blockIdx), q.blockIdx)
              && (q.blocks == 0 || c.builder.block == 1) && Continues(c, q)
  {
    if c.ringPresent {
      used := BuildRecord(c, q);
    } else {
      used := 1;
    }
  }

  method BuildRecord(c: Compressor, q: ChannelQueue) returns (used: nat)
    requires Fed(c, q) && q.blocks > 0
    modifies c`lastSample, c`rec, c.builder, c.builder.frameBuffer,
             q`pmap, q`pdata, q`mapidx, q`curmap, q`blocks, q`blockIdx
    ensures Grew(c.builder, q.blockIdx - old(q.blockIdx), old(c.builder.Words()), old(c.builder.frame),
              old(c.builder.blocketteCount))
    ensures Fed(c, q) && Continues(c, q)
            && (q.blocks == 0 || c.builder.block == 1)
    ensures old(q.blockIdx) < q.blockIdx && used == q.cut[q.blockIdx] - q.cut[old(q.blockIdx)] > 0
    ensures c.rec == Built(old(c.rec), q.samples, q.cut, q.words, old(q.blockIdx), q.blockIdx)
  {
    ghost var i, p, first := q.blockIdx, c.rec, c.builder.first;
    var last;
    used, last := MoveWords(c.builder, q);
    NoteBuilt(c, q, p, i, first, last);
  }

  /** Bring the compressor up to date with the words that were put into the record after history p. */
  method NoteBuilt(c: Compressor, q: ChannelQueue, ghost p: Packer, ghost i: nat, ghost first: int32, last: int32)
    requires c.Separate() && c.ring.Valid() && c.builder.Valid() && !c.builder.New() && 0 <= c.ctabx <= LAST_ENTRY
    requires q.Pointers() && q.Decoded() && i < q.blockIdx <= |q.words| && p.pending == c.ring.pending == []
    requires c.builder.first == (if p.packed == [] then q.samples[q.cut[i]] else first)
             && (p.packed != [] ==> first == p.packed[0])
    requires c.builder.coded == p.out + KeptWords(q.words, i, q.blockIdx) && last == q.samples[q.cut[q.blockIdx] - 1]
    modifies c`lastSample, c`rec
    ensures Fed(c, q) && Continues(c, q) && c.rec == Built(p, q.samples, q.cut, q.words, i, q.blockIdx)
  {
    ghost var after := Built(p, q.samples, q.cut, q.words, i, q.blockIdx);
    BuiltFacts(p, after, q.prevSample, q.samples, q.cut, q.words, i, q.blockIdx, first, c.builder.first,
               c.builder.coded, last);
    c.Extended(last, after);
  }

  // ------------------------------------------------------- whole blockettes

  /** A run of words taken over at once: where it ends, and whether the record was full then. */
  datatype Piece = Piece(end: nat, full: bool)

  /** Number of words in the pieces. */
  function At(ps: seq<Piece>): nat {
    if ps == [] then 0 else ps[|ps| - 1].end
  }

  ghost predicate Rising(ps: seq<Piece>)
  {
    ps == [] || (Rising(ps[..|ps| - 1]) && At(ps[..|ps| - 1]) < At(ps))
  }

  /** What a channel has been through after the pieces of a blockette have been taken over. */
  ghost function TookPieces(p: Past, samples: seq<int32>, cut: seq<nat>, ws: seq<Coded>, ps: seq<Piece>): Past
    requires Cuts(ws, samples, cut) && Rising(ps) && At(ps) <= |ws|
  {
    if ps == [] then p
    else
      var front := ps[..|ps| - 1];
      var q := TookPieces(p, samples, cut, ws, front);
      FinishIf(q.(rec := Built(q.rec, samples, cut, ws, At(front), At(ps))), ps[|ps| - 1].full)
  }

  /** What taking over words i to j adds to the channel: their samples and their words. */
  lemma {:induction false} BuiltAdds(p: Past, samples: seq<int32>, cut: seq<nat>, ws: seq<Coded>, i: nat, j: nat)
    requires i <= j <= |ws| && Cuts(ws, samples, cut) && p.rec.pending == []
    ensures var q := p.(rec := Built(p.rec, samples, cut, ws, i, j));
            && q.rec.pending == [] && Everything(q) == Everything(p) + samples[cut[i]..cut[j]]
            && AllWords(q) == AllWords(p) + KeptWords(ws, i, j)
  {
    ConcatAssoc(PackedOf(p.done), p.rec.packed, samples[cut[i]..cut[j]]);
    ConcatAssoc(WordsIn(p.done), p.rec.out, KeptWords(ws, i, j));
  }

  /** Taking over words that all have a code other than 0 continues the channel's history. */
  lemma {:induction false} BuiltStory(first: int32, p: Past, prev: int32, samples: seq<int32>, cut: seq<nat>,
                                      ws: seq<Coded>,
                                      i: nat, j: nat)
    requires i <= j <= |ws| && Story(first, p) && NoZeroCode(ws)
    requires Cuts(ws, samples, cut) && CutsMean(prev, ws, samples, cut) && p.rec.Last() == Before(prev, samples, cut, i)
    ensures Story(first, p.(rec := Built(p.rec, samples, cut, ws, i, j)))
  {
    BuiltTracks(p.rec, prev, samples, cut, ws, i, j);
  }

  lemma {:induction false} BuiltLast(p: Packer, prev: int32, samples: seq<int32>, cut: seq<nat>, ws: seq<Coded>,
                                     i: nat, j: nat)
    requires i < j <= |ws| && Cuts(ws, samples, cut)
    ensures Built(p, samples, cut, ws, i, j).Last() == Before(prev, samples, cut, j)
  {
  }

  lemma {:induction false} KeptJoin(ws: seq<Coded>, i: nat, j: nat)
    requires i <= j <= |ws|
    ensures KeptWords(ws, 0, j) == KeptWords(ws, 0, i) + KeptWords(ws, i, j)
  {
    if i < j {
      KeptJoin(ws, i, j - 1);
      ConcatAssoc(KeptWords(ws, 0, i), KeptWords(ws, i, j - 1), Kept(ws[j - 1].code, ws[j - 1].word));
    }
  }

  /** Samples and words of a channel after words up to n have been taken over. */
  ghost predicate Holding(p: Past, q: Past, samples: seq<int32>, cut: seq<nat>, ws: seq<Coded>, n: nat)
    requires Cuts(ws, samples, cut) && n <= |ws|
  {
    && q.rec.pending == [] && Everything(q) == Everything(p) + samples[..cut[n]]
    && AllWords(q) == AllWords(p) + KeptWords(ws, 0, n)
  }

  /** One more piece keeps all samples and words in order. */
  lemma {:induction false} HoldingNext(p: Past, q: Past, samples: seq<int32>, cut: seq<nat>, ws: seq<Coded>, i: nat,
                                       j: nat, full: bool)
    requires Cuts(ws, samples, cut) && i < j <= |ws| && Holding(p, q, samples, cut, ws, i)
    ensures Holding(p, FinishIf(q.(rec := Built(q.rec, samples, cut, ws, i, j)), full), samples, cut, ws, j)
  {
    BuiltAdds(q, samples, cut, ws, i, j);
    FinishConserves(q.(rec := Built(q.rec, samples, cut, ws, i, j)));
    KeptJoin(ws, i, j);
    assert samples[..cut[j]] == samples[..cut[i]] + samples[cut[i]..cut[j]];
    ConcatAssoc(Everything(p), samples[..cut[i]], samples[cut[i]..cut[j]]);
    ConcatAssoc(AllWords(p), KeptWords(ws, 0, i), KeptWords(ws, i, j));
  }

  /** All samples and words of a blockette are in the channel, in order, whatever came before them. */
  lemma {:induction false} PiecesHold(p: Past, samples: seq<int32>, cut: seq<nat>, ws: seq<Coded>, ps: seq<Piece>)
    requires Cuts(ws, samples, cut) && Rising(ps) && At(ps) <= |ws| && p.rec.pending == []
    ensures Holding(p, TookPieces(p, samples, cut, ws, ps), samples, cut, ws, At(ps))
  {
    if ps == [] {
      assert Everything(p) + samples[..0] == Everything(p) && AllWords(p) + [] == AllWords(p);
    } else {
      var front := ps[..|ps| - 1];
      PiecesHold(p, samples, cut, ws, front);
      HoldingNext(p, TookPieces(p, samples, cut, ws, front), samples, cut, ws, At(front), At(ps), ps[|ps| - 1].full);
    }
  }

  /**
   As far as words up to n have been taken over, the records are right if and only if they were, no code is 0,
   and the first word began a record or continued one.
   */
  ghost predicate Judged(p: Past, q: Past, prev: int32, samples: seq<int32>, cut: seq<nat>, ws: seq<Coded>, n: nat)
    requires Cuts(ws, samples, cut) && n <= |ws|
  {
    && BoundedPast(q)
    && (Faithful(q) <==> Faithful(p) && NoZeroIn(ws, 0, n) && (n == 0 || p.rec.packed == [] || p.rec.Last() == prev))
    && if n == 0 then q == p else q.rec.Last() == Before(prev, samples, cut, n)
  }

  lemma {:induction false} JudgedNext(p: Past, q: Past, prev: int32, samples: seq<int32>, cut: seq<nat>, ws: seq<Coded>,
                                      i: nat, j: nat, full: bool)
    requires Cuts(ws, samples, cut) && CutsMean(prev, ws, samples, cut) && i < j <= |ws|
             && Judged(p, q, prev, samples, cut, ws, i)
    ensures Judged(p, FinishIf(q.(rec := Built(q.rec, samples, cut, ws, i, j)), full), prev, samples, cut, ws, j)
  {
    BuiltRightIff(q.rec, prev, samples, cut, ws, i, j);
    BuiltLast(q.rec, prev, samples, cut, ws, i, j);
    FinishFaithful(q.(rec := Built(q.rec, samples, cut, ws, i, j)));
    assert Before(prev, samples, cut, 0) == prev;
  }

  lemma {:induction false} PiecesJudged(p: Past, prev: int32, samples: seq<int32>, cut: seq<nat>, ws: seq<Coded>,
                                        ps: seq<Piece>)
    requires Cuts(ws, samples, cut) && CutsMean(prev, ws, samples, cut) && Rising(ps) && At(ps) <= |ws|
             && BoundedPast(p)
    ensures Judged(p, TookPieces(p, samples, cut, ws, ps), prev, samples, cut, ws, At(ps))
  {
    if ps != [] {
      var front := ps[..|ps| - 1];
      PiecesJudged(p, prev, samples, cut, ws, front);
      JudgedNext(p, TookPieces(p, samples, cut, ws, front), prev, samples, cut, ws, At(front), At(ps),
                 ps[|ps| - 1].full);
    }
  }

  /**
   A whole blockette, whatever sample it starts after and however records get full: all its samples are accounted
   for, and its words with a code other than 0 are in the records, in order. The records decode to all samples if and
   only if they did before, no word has code 0, and the blockette begins a record or continues the one begun.
   */
  lemma {:induction false} BlocketteTaken(p: Past, prev: int32, samples: seq<int32>, cut: seq<nat>, ws: seq<Coded>,
                                          ps: seq<Piece>)
    requires Cuts(ws, samples, cut) && CutsMean(prev, ws, samples, cut) && Rising(ps) && At(ps) == |ws|
    requires p.rec.pending == [] && BoundedPast(p)
    ensures var q := TookPieces(p, samples, cut, ws, ps);
            && q.rec.pending == [] && BoundedPast(q)
            && Everything(q) == Everything(p) + DecodeStream(prev, ws)
            && AllWords(q) == AllWords(p) + KeptWords(ws, 0, |ws|)
            && (Faithful(q) <==>
                  Faithful(p) && NoZeroCode(ws) && (ws == [] || p.rec.packed == [] || p.rec.Last() == prev))
  {
    PiecesHold(p, samples, cut, ws, ps);
    PiecesJudged(p, prev, samples, cut, ws, ps);
    assert samples[..cut[|ws|]] == samples;
  }

  /** A channel whose samples go on from the last one keeps its history. */
  lemma {:induction false} PiecesStory(first: int32, p: Past, prev: int32, samples: seq<int32>, cut: seq<nat>,
                                       ws: seq<Coded>,
                                       ps: seq<Piece>)
    requires Cuts(ws, samples, cut) && CutsMean(prev, ws, samples, cut) && Rising(ps) && At(ps) <= |ws|
    requires Story(first, p) && NoZeroCode(ws) && p.rec.Last() == prev
    ensures var q := TookPieces(p, samples, cut, ws, ps);
            Story(first, q) && q.rec.Last() == Before(prev, samples, cut, At(ps))
  {
    if ps == [] {
      assert Before(prev, samples, cut, 0) == prev;
    } else {
      var front := ps[..|ps| - 1];
      var q := TookPieces(p, samples, cut, ws, front);
      PiecesStory(first, p, prev, samples, cut, ws, front);
      BuiltStory(first, q, prev, samples, cut, ws, At(front), At(ps));
      BuiltLast(q.rec, prev, samples, cut, ws, At(front), At(ps));
      FinishStory(first, q.(rec := Built(q.rec, samples, cut, ws, At(front), At(ps))));
    }
  }

  /** Take over a frame's worth of words and count their samples. */
  method RepackWords(ch: Channel, q: ChannelQueue) returns (used: nat)
    requires ch.Valid() && Fed(ch.comp, q) && q.blocks > 0
    modifies ch`nextCompressed, ch.comp`lastSample, ch.comp`rec, ch.comp.builder, ch.comp.builder.frameBuffer,
             q`pmap, q`pdata, q`mapidx, q`curmap, q`blocks, q`blockIdx
    ensures Fed(ch.comp, q) && !ch.comp.builder.New() && Grew(ch.comp.builder, q.blockIdx - old(q.blockIdx),
              old(ch.comp.builder.Words()), old(ch.comp.builder.frame), old(ch.comp.builder.blocketteCount))
    ensures old(q.blockIdx) < q.blockIdx && used == q.cut[q.blockIdx] - q.cut[old(q.blockIdx)]
    ensures ch.nextCompressed == 1 + |ch.comp.rec.packed|
    ensures ch.comp.rec == Built(old(ch.comp.rec), q.samples, q.cut, q.words, old(q.blockIdx), q.blockIdx)
  {
    used := BuildBlocks(ch.comp, q);
    ch.nextCompressed := ch.nextCompressed + used;
  }

  /** Take over a frame's worth of words; a full record is finished. */
  method RepackFrame(ch: Channel, q: ChannelQueue) returns (used: nat, ghost full: bool)
    requires ch.Valid() && Fed(ch.comp, q) && q.blocks > 0
    modifies ch, ch.comp`lastSample, ch.comp`rec, ch.comp.builder, ch.comp.builder.frameBuffer,
             q`pmap, q`pdata, q`mapidx, q`curmap, q`blocks, q`blockIdx
    ensures ch.Valid() && Fed(ch.comp, q)
    ensures old(q.blockIdx) < q.blockIdx && used == q.cut[q.blockIdx] - q.cut[old(q.blockIdx)]
    ensures var p := old(ch.Value());
            ch.Value() == FinishIf(p.(rec := Built(p.rec, q.samples, q.cut, q.words, old(q.blockIdx), q.blockIdx)),
                                   full)
    ensures ch.Took(old(ch.comp.builder.Words()) + q.blockIdx - old(q.blockIdx), old(ch.comp.builder.blocketteCount),
                    old(ch.records), full)
  {
    used := RepackWords(ch, q);
    full := ch.FinishIfFull();
  }

  /** The channel has taken over the words before blockIdx in these pieces. */
  ghost predicate Taking(ch: Channel, q: ChannelQueue, p: Past, ps: seq<Piece>)
    reads ch, ch.comp, ch.comp.ring, ch.comp.ring.peeks, ch.comp.builder, ch.comp.builder.frameBuffer,
          q, q.databuf, q.idxbuf
  {
    && ch.Valid() && Fed(ch.comp, q) && Rising(ps) && At(ps) == q.blockIdx
    && ch.Value() == TookPieces(p, q.samples, q.cut, q.words, ps)
  }

  /** Samples are left exactly as long as words are left. */
  lemma {:induction false} MoreWords(samples: seq<int32>, cut: seq<nat>, ws: seq<Coded>, i: nat, n: nat)
    requires Cuts(ws, samples, cut) && i + n == |ws|
    ensures n > 0 <==> |samples| - cut[i] > 0
  {
  }

  lemma {:induction false} PiecesNext(ps: seq<Piece>, e: Piece)
    requires Rising(ps) && At(ps) < e.end
    ensures (ps + [e])[..|ps|] == ps && Rising(ps + [e]) && At(ps + [e]) == e.end
  {
    assert (ps + [e])[..|ps|] == ps;
  }

  method RepackStep(ch: Channel, q: ChannelQueue, ghost p: Past, ghost ps: seq<Piece>, ghost m: nat,
                    ghost blockettes: nat)
    returns (used: nat, ghost qs: seq<Piece>)
    requires Taking(ch, q, p, ps) && q.blocks > 0 && ch.WholeSince(m, blockettes)
    modifies ch, ch.comp`lastSample, ch.comp`rec, ch.comp.builder, ch.comp.builder.frameBuffer,
             q`pmap, q`pdata, q`mapidx, q`curmap, q`blocks, q`blockIdx
    ensures Taking(ch, q, p, qs) && q.blocks < old(q.blocks) && ch.WholeSince(m, blockettes)
    ensures Left(q) == old(Left(q)) - used && (q.blocks > 0 <==> Left(q) > 0)
  {
    ghost var full;
    ghost var i, n, rs := q.blockIdx, ch.comp.builder.Words(), ch.records;
    used, full := RepackFrame(ch, q);
    ch.TookWhole(n + q.blockIdx - i, rs, full, m, blockettes);
    qs := ps + [Piece(q.blockIdx, full)];
    PiecesNext(ps, Piece(q.blockIdx, full));
    MoreWords(q.samples, q.cut, q.words, q.blockIdx, q.blocks);
  }

  /** Samples of the blockette that have not been taken over. */
  ghost function Left(q: ChannelQueue): int
    requires q.blockIdx < |q.cut|
    reads q
  {
    |q.samples| - q.cut[q.blockIdx]
  }

  /** Take over all n samples of a decompressed blockette, frame after frame, whatever sample it starts after. */
  method RepackBlockette(ch: Channel, q: ChannelQueue, n: nat) returns (ghost ps: seq<Piece>)
    requires ch.Valid() && Fed(ch.comp, q) && q.blockIdx == 0 && n == |q.samples|
    modifies ch, ch.comp`lastSample, ch.comp`rec, ch.comp.builder, ch.comp.builder.frameBuffer,
             q`pmap, q`pdata, q`mapidx, q`curmap, q`blocks, q`blockIdx
    ensures ch.Valid() && Fed(ch.comp, q) && q.blocks == 0 && Rising(ps) && At(ps) == |q.words|
    ensures ch.Value() == TookPieces(old(ch.Value()), q.samples, q.cut, q.words, ps)
    ensures ch.WholeSince(|old(ch.records)|, old(ch.comp.builder.blocketteCount))
  {
    var left: int := n;
    ghost var p, m, blockettes := ch.Value(), |ch.records|, ch.comp.builder.blocketteCount;
    ps := [];
    MoreWords(q.samples, q.cut, q.words, q.blockIdx, q.blocks);
    while left > 0
      invariant Taking(ch, q, p, ps) && left == Left(q) && (left > 0 <==> q.blocks > 0)
                && ch.WholeSince(m, blockettes)
      decreases q.blocks
    {
      var used: nat;
      used, ps := RepackStep(ch, q, p, ps, m, blockettes);
      left := left - used;
    }
  }
}
