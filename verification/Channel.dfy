/**
 A channel's life: samples arrive, words are packed as soon as seven samples wait, records are
 finished when their frames are full, and a flush packs what is left and closes the record.
 */
module Channel {
  import opened Common
  import opened Steim
  import opened Frames
  import opened Packing
  import opened Compressor

  /** Samples of a sequence of finished records, each decoded on its own. */
  function DecodeRecords(rs: seq<seq<Frame>>): seq<int32> {
    if rs == [] then [] else DecodeRecords(rs[..|rs| - 1]) + SeedDecode(rs[|rs| - 1])
  }

  // ------------------------------------------------------------- the past

  /** What a channel has been through: the histories of its finished records, and that of the current one. */
  datatype Past = Past(done: seq<Packer>, rec: Packer)

  function Finish(p: Past): Past {
    Past(p.done + [p.rec], NextRecord(p.rec))
  }

  function FinishIf(p: Past, full: bool): Past {
    if full then Finish(p) else p
  }

  /** A word is packed, and the record is finished if it is full then. */
  function PackedWord(p: Past, full: bool): Past {
    FinishIf(p.(rec := Apply(p.rec, Pack)), full)
  }

  /** As many words are packed as there are flags; a flag says whether the record is full then. */
  function PackedWords(p: Past, fulls: seq<bool>): Past {
    if fulls == [] then p else PackedWord(PackedWords(p, fulls[..|fulls| - 1]), fulls[|fulls| - 1])
  }

  /** A sample arrives; once seven wait, a word is packed. */
  function TookSample(p: Past, x: int32, full: bool): Past {
    var q := p.(rec := Apply(p.rec, Put(x)));
    if |q.rec.pending| < MAX_PER_WORD then q else PackedWord(q, full)
  }

  /** The current record is closed if it holds anything. */
  function Closed(p: Past): Past {
    if p.rec.packed == [] then p else Finish(p)
  }

  /** The samples of finished records. */
  function PackedOf(hist: seq<Packer>): seq<int32> {
    if hist == [] then [] else PackedOf(hist[..|hist| - 1]) + hist[|hist| - 1].packed
  }

  /** The words of finished records. */
  function WordsIn(hist: seq<Packer>): seq<Coded> {
    if hist == [] then [] else WordsIn(hist[..|hist| - 1]) + hist[|hist| - 1].out
  }

  /** Every sample taken in so far: in finished records, in the current one, or still in the ring. */
  function Everything(p: Past): seq<int32> {
    PackedOf(p.done) + p.rec.packed + p.rec.pending
  }

  /** Every word of the finished records and of the current one. */
  function AllWords(p: Past): seq<Coded> {
    WordsIn(p.done) + p.rec.out
  }

  /** Finishing a record loses no sample and no word. */
  lemma {:induction false} FinishConserves(p: Past)
    ensures Everything(Finish(p)) == Everything(p) && AllWords(Finish(p)) == AllWords(p)
  {
    assert (p.done + [p.rec])[..|p.done|] == p.done;
    assert PackedOf(p.done + [p.rec]) + [] == PackedOf(p.done) + p.rec.packed;
    assert WordsIn(p.done + [p.rec]) + [] == WordsIn(p.done) + p.rec.out;
  }

  /** Taking a sample or packing a word loses no sample. */
  lemma {:induction false} StepKeepsAll(p: Past, step: Step)
    requires |p.rec.pending| <= PEEK_ELEMS
    ensures Everything(p.(rec := Apply(p.rec, step))) == Everything(p) + Gain(p.rec, step)
  {
    var q, done := Apply(p.rec, step), PackedOf(p.done);
    StepConserves(p.rec, step);
    ConcatAssoc(done, q.packed, q.pending);
    ConcatAssoc(done, p.rec.packed, p.rec.pending);
    ConcatAssoc(done, p.rec.packed + p.rec.pending, Gain(p.rec, step));
  }

  // ---------------------------------------------------------------- decoding

  /** The words of a record carry at most as many differences as it has samples. */
  ghost predicate Bounded(p: Packer)
  {
    |StreamDiffs(p.out)| <= |p.packed|
  }

  ghost predicate AllBounded(hist: seq<Packer>)
  {
    hist == [] || (AllBounded(hist[..|hist| - 1]) && Bounded(hist[|hist| - 1]))
  }

  /** Every finished record has its history. */
  ghost predicate Filed(records: seq<seq<Frame>>, hist: seq<Packer>)
  {
    && |records| == |hist|
    && (hist != [] ==> Filed(records[..|hist| - 1], hist[..|hist| - 1]) && Holds(records[|hist| - 1], hist[|hist| - 1]))
  }

  lemma {:induction false} FiledNext(records: seq<seq<Frame>>, hist: seq<Packer>, fs: seq<Frame>, p: Packer)
    requires Filed(records, hist) && Holds(fs, p)
    ensures Filed(records + [fs], hist + [p])
  {
    assert (hist + [p])[..|hist|] == hist && (records + [fs])[..|records|] == records;
  }

  /** All differences in finished records are right, but for the first ones, which nobody needs. */
  ghost predicate AllRight(hist: seq<Packer>)
  {
    hist == [] || (AllRight(hist[..|hist| - 1]) && RightRecord(hist[|hist| - 1]))
  }

  ghost predicate RightRecord(p: Packer)
  {
    Right(p.start, p.packed, p.out)
  }

  /** The records decode to all samples packed into them if and only if all their differences are right. */
  lemma {:induction false} RecordsDecodeIff(records: seq<seq<Frame>>, hist: seq<Packer>)
    requires Filed(records, hist) && AllBounded(hist)
    ensures |DecodeRecords(records)| <= |PackedOf(hist)|
    ensures DecodeRecords(records) == PackedOf(hist) <==> AllRight(hist)
  {
    if hist != [] {
      var n := |hist| - 1;
      RecordsDecodeIff(records[..n], hist[..n]);
      RecordCount(records[n], hist[n]);
      SameSum(DecodeRecords(records[..n]), SeedDecode(records[n]), PackedOf(hist[..n]), hist[n].packed);
    }
  }

  lemma {:induction false} RecordCount(fs: seq<Frame>, p: Packer)
    requires Holds(fs, p) && Bounded(p)
    ensures |SeedDecode(fs)| <= |p.packed| && (SeedDecode(fs) == p.packed <==> RightRecord(p))
  {
    RecordDecodesIff(fs, p);
  }

  lemma {:induction false} SameSum(a: seq<int32>, b: seq<int32>, c: seq<int32>, d: seq<int32>)
    requires |a| <= |c| && |b| <= |d|
    ensures |a + b| <= |c + d| && (a + b == c + d <==> a == c && b == d)
  {
    if a + b == c + d {
      assert |a + b| == |a| + |b| && |c + d| == |c| + |d|;
      SameHalves(a, b, c, d);
    }
  }

  /** All records, the current one included, hold the right differences. */
  ghost predicate Faithful(p: Past)
  {
    AllRight(p.done) && RightRecord(p.rec)
  }

  ghost predicate BoundedPast(p: Past)
  {
    AllBounded(p.done) && Bounded(p.rec)
  }

  /** Finishing a record does not change what is right. */
  lemma {:induction false} FinishFaithful(p: Past)
    ensures Faithful(Finish(p)) == Faithful(p) && BoundedPast(Finish(p)) == BoundedPast(p)
  {
    assert (p.done + [p.rec])[..|p.done|] == p.done;
    EmptyTracks(p.rec.Last());
  }

  lemma {:induction false} EmptyTracks(start: int32)
    ensures Tracks(start, [], []) && Right(start, [], []) && |StreamDiffs([])| == 0
  {
  }

  /** The histories follow each other, each starting after the last sample of the one before. */
  ghost predicate Linked(first: int32, hist: seq<Packer>, start: int32)
  {
    if hist == [] then start == first
    else Linked(first, hist[..|hist| - 1], hist[|hist| - 1].start) && start == hist[|hist| - 1].Last()
  }

  ghost predicate AllTrack(hist: seq<Packer>)
  {
    hist == [] || (AllTrack(hist[..|hist| - 1]) && TracksRecord(hist[|hist| - 1]))
  }

  ghost predicate TracksRecord(p: Packer)
  {
    Tracks(p.start, p.packed, p.out)
  }

  /** The history of a channel that packs its samples itself: finished records, and then the current one. */
  ghost predicate Story(first: int32, p: Past)
  {
    Linked(first, p.done, p.rec.start) && AllTrack(p.done) && TracksRecord(p.rec)
  }

  lemma {:induction false} FinishStory(first: int32, p: Past)
    requires Story(first, p)
    ensures Story(first, Finish(p))
  {
    assert (p.done + [p.rec])[..|p.done|] == p.done;
    EmptyTracks(p.rec.Last());
  }

  lemma {:induction false} StepStory(first: int32, p: Past, step: Step)
    requires Story(first, p)
    ensures Story(first, p.(rec := Apply(p.rec, step)))
  {
    StepTracks(p.rec, step);
    assert Apply(p.rec, step).start == p.rec.start;
  }

  /** A record by itself decodes to its samples if and only if its differences but the first fit 30 bits. */
  ghost predicate DecodesIffEncodable(fs: seq<Frame>, p: Packer)
  {
    p.packed != [] && (SeedDecode(fs) == p.packed <==> AllEncodable(Diffs(p.start, p.packed)[1..]))
  }

  ghost predicate EachDecodes(records: seq<seq<Frame>>, hist: seq<Packer>)
  {
    |records| == |hist| && forall i :: 0 <= i < |hist| ==> DecodesIffEncodable(records[i], hist[i])
  }

  lemma {:induction false} StoryDecodes(hist: seq<Packer>, records: seq<seq<Frame>>)
    requires AllTrack(hist) && Filed(records, hist)
    ensures EachDecodes(records, hist)
  {
    if hist != [] {
      var n := |hist| - 1;
      StoryDecodes(hist[..n], records[..n]);
      RecordDecodes(records[n], hist[n]);
      EachDecodesNext(records, hist);
    }
  }

  lemma {:induction false} EachDecodesNext(records: seq<seq<Frame>>, hist: seq<Packer>)
    requires hist != [] && |records| == |hist| && EachDecodes(records[..|hist| - 1], hist[..|hist| - 1])
    requires DecodesIffEncodable(records[|hist| - 1], hist[|hist| - 1])
    ensures EachDecodes(records, hist)
  {
    forall i | 0 <= i < |hist|
      ensures DecodesIffEncodable(records[i], hist[i])
    {
      if i < |hist| - 1 {
        assert records[i] == records[..|hist| - 1][i] && hist[i] == hist[..|hist| - 1][i];
      }
    }
  }

  lemma {:induction false} AllTrackBounded(hist: seq<Packer>)
    requires AllTrack(hist)
    ensures AllBounded(hist)
  {
    if hist != [] {
      AllTrackBounded(hist[..|hist| - 1]);
    }
  }

  // ------------------------------------------------------------- a channel's life

  /** A word is packed exactly when the seventh sample waits, and then it takes at least one of them. */
  lemma {:induction false} SeventhPacks(p: Past, x: int32, full: bool)
    requires |p.rec.pending| < 7
    ensures var q := TookSample(p, x, full);
            if |p.rec.pending| < 6 then q == p.(rec := p.rec.(pending := p.rec.pending + [x]))
            else |AllWords(q)| == |AllWords(p)| + 1 && |q.rec.pending| < 7
  {
    var q := p.(rec := Apply(p.rec, Put(x)));
    if |p.rec.pending| == 6 {
      FinishConserves(q.(rec := PackOne(q.rec)));
      ConcatAssoc(WordsIn(p.done), p.rec.out, [NextWord(q.rec.Last(), q.rec.pending)]);
      assert |AllWords(q.(rec := PackOne(q.rec)))| == |AllWords(p)| + 1;
    }
  }

  /** Samples arrive one after the other; a flag for each says whether a record is full then. */
  function TookSamples(p: Past, xs: seq<int32>, fulls: seq<bool>): Past
    requires |fulls| == |xs|
  {
    if xs == [] then p
    else
      var n := |xs| - 1;
      TookSample(TookSamples(p, xs[..n], fulls[..n]), xs[n], fulls[n])
  }

  /** The past has all samples xs in order, in records that are packed as they should be. */
  ghost predicate Accounts(first: int32, p: Past, xs: seq<int32>)
  {
    Story(first, p) && Everything(p) == xs && |p.rec.pending| <= PEEK_ELEMS
  }

  lemma {:induction false} FinishAccounts(first: int32, p: Past, xs: seq<int32>)
    requires Accounts(first, p, xs)
    ensures Accounts(first, Finish(p), xs)
  {
    FinishStory(first, p);
    FinishConserves(p);
  }

  lemma {:induction false} WordAccounts(first: int32, p: Past, xs: seq<int32>, full: bool)
    requires Accounts(first, p, xs)
    ensures Accounts(first, PackedWord(p, full), xs)
  {
    StepStory(first, p, Pack);
    StepKeepsAll(p, Pack);
    StepConserves(p.rec, Pack);
    assert xs + [] == xs;
    if full {
      FinishAccounts(first, p.(rec := Apply(p.rec, Pack)), xs);
    }
  }

  lemma {:induction false} WordsAccount(first: int32, p: Past, xs: seq<int32>, fulls: seq<bool>)
    requires Accounts(first, p, xs)
    ensures Accounts(first, PackedWords(p, fulls), xs)
  {
    if fulls != [] {
      var n := |fulls| - 1;
      WordsAccount(first, p, xs, fulls[..n]);
      WordAccounts(first, PackedWords(p, fulls[..n]), xs, fulls[n]);
    }
  }

  lemma {:induction false} SampleAccounts(first: int32, p: Past, xs: seq<int32>, x: int32, full: bool)
    requires Accounts(first, p, xs) && |p.rec.pending| < MAX_PER_WORD
    ensures Accounts(first, TookSample(p, x, full), xs + [x]) && |TookSample(p, x, full).rec.pending| < MAX_PER_WORD
  {
    StepStory(first, p, Put(x));
    StepKeepsAll(p, Put(x));
    var q := p.(rec := Apply(p.rec, Put(x)));
    if |q.rec.pending| >= MAX_PER_WORD {
      WordAccounts(first, q, xs + [x], full);
      PackConserves(q.rec);
    }
  }

  lemma {:induction false} SamplesAccount(first: int32, p: Past, ys: seq<int32>, xs: seq<int32>, fulls: seq<bool>)
    requires Accounts(first, p, ys) && |p.rec.pending| < MAX_PER_WORD && |fulls| == |xs|
    ensures Accounts(first, TookSamples(p, xs, fulls), ys + xs)
            && |TookSamples(p, xs, fulls).rec.pending| < MAX_PER_WORD
  {
    if xs == [] {
      assert ys + xs == ys;
    } else {
      var n := |xs| - 1;
      SamplesAccount(first, p, ys, xs[..n], fulls[..n]);
      SampleAccounts(first, TookSamples(p, xs[..n], fulls[..n]), ys + xs[..n], xs[n], fulls[n]);
      SplitLast(xs);
      ConcatAssoc(ys, xs[..n], [xs[n]]);
    }
  }

  /**
   However the records got full, after all samples xs have been taken and flushed the finished records hold them
   all, in order. Each record decodes to its samples if and only if its differences but the first fit 30 bits, and
   all records decode to all samples if and only if that holds of each.
   */
  lemma {:induction false} ChannelDecodes(first: int32, xs: seq<int32>, fulls: seq<bool>, more: seq<bool>,
                                          records: seq<seq<Frame>>)
    requires |fulls| == |xs|
    requires var p := PackedWords(TookSamples(Past([], Packer(first, [], [], [])), xs, fulls), more);
             p.rec.pending == [] && Filed(records, Closed(p).done)
    ensures var q := Closed(PackedWords(TookSamples(Past([], Packer(first, [], [], [])), xs, fulls), more));
            && PackedOf(q.done) == xs && Linked(first, q.done, q.rec.start) && EachDecodes(records, q.done)
            && (DecodeRecords(records) == xs <==> AllRight(q.done))
  {
    var p0 := Past([], Packer(first, [], [], []));
    EmptyTracks(first);
    SamplesAccount(first, p0, [], xs, fulls);
    assert [] + xs == xs;
    var p := PackedWords(TookSamples(p0, xs, fulls), more);
    WordsAccount(first, TookSamples(p0, xs, fulls), xs, more);
    FinishAccounts(first, p, xs);
    var q := Closed(p);
    assert PackedOf(q.done) + [] + [] == PackedOf(q.done);
    StoryDecodes(q.done, records);
    AllTrackBounded(q.done);
    RecordsDecodeIff(records, q.done);
  }

  /** One more record of n frames has been handed on. */
  ghost predicate Handed(before: seq<seq<Frame>>, after: seq<seq<Frame>>, n: int)
  {
    |after| == |before| + 1 && before <= after && |after[|before|]| == n
  }

  lemma {:induction false} HandedOn(before: seq<seq<Frame>>, fs: seq<Frame>)
    ensures Handed(before, before + [fs], |fs|)
  {
  }

  /**
   Records handed on since there were m of them: all have n frames, but for the first one, which has as many fewer as
   there are blockettes.
   */
  ghost predicate AllWhole(records: seq<seq<Frame>>, m: nat, n: int, blockettes: nat)
  {
    m <= |records| && forall i :: m <= i < |records| ==> |records[i]| == if i == m then n - blockettes else n
  }

  /** The last record may have less frames. */
  ghost predicate AllWholeButLast(records: seq<seq<Frame>>, m: nat, n: int, blockettes: nat)
  {
    && m <= |records| && (forall i :: m <= i < |records| - 1 ==> |records[i]| == if i == m then n - blockettes else n)
    && (|records| > m ==> |records[|records| - 1]| <= if |records| == m + 1 then n - blockettes else n)
  }

  lemma {:induction false} WholeLast(before: seq<seq<Frame>>, after: seq<seq<Frame>>, m: nat, n: int, blockettes: nat,
                                     k: int)
    requires AllWhole(before, m, n, blockettes)
    ensures AllWholeButLast(before, m, n, blockettes)
    ensures Handed(before, after, k) && k <= (if |before| == m then n - blockettes else n) ==>
              AllWholeButLast(after, m, n, blockettes)
  {
  }

  lemma {:induction false} WholeNext(before: seq<seq<Frame>>, after: seq<seq<Frame>>, m: nat, n: int, blockettes: nat,
                                     k: int)
    requires AllWhole(before, m, n, blockettes) && Handed(before, after, k)
    requires k == if |before| == m then n - blockettes else n
    ensures AllWhole(after, m, n, blockettes)
  {
  }

  class Channel {
    const comp: Compressor
    const maxframes: nat
    var nextCompressed: nat            // number in the record of the next sample to be packed
    var records: seq<seq<Frame>>       // finished records, as handed on
    ghost var done: seq<Packer>        // histories of the finished records

    ghost predicate Valid()
      reads this, comp, comp.ring, comp.ring.peeks, comp.builder, comp.builder.frameBuffer
    {
      && comp.Valid() && comp.ringPresent && comp.builder.frame <= maxframes && maxframes >= 1
      && nextCompressed == 1 + |comp.rec.packed| && Filed(records, done)
    }

    /** What the channel has been through. */
    ghost function Value(): Past
      reads this, comp
    {
      Past(done, comp.rec)
    }

    constructor (blockettes: nat, maxframes: nat)
      requires blockettes < maxframes
      ensures Valid() && Value() == Past([], Packer(0, [], [], [])) && records == [] && this.maxframes == maxframes
    {
      comp := new Compressor(blockettes);
      this.maxframes := maxframes;
      nextCompressed, records, done := 1, [], [];
    }

    /** Close the current record and hand it on. */
    method FinishRecord()
      requires comp.Valid() && comp.ringPresent && !comp.builder.New() && comp.builder.block == 1
      requires maxframes >= 1 && Filed(records, done)
      modifies this, comp`rec, comp.builder
      ensures Valid() && Value() == Finish(old(Value())) && comp.builder.New() && comp.builder.blocketteCount == 0
      ensures Handed(old(records), records, old(comp.builder.frame - comp.builder.blocketteCount) - 1)
    {
      ghost var p, k := comp.rec, comp.builder.frame - comp.builder.blocketteCount - 1;
      var fs := comp.Finish();
      HandOn(fs, p, k);
    }

    /** Hand on the frames of a finished record. */
    method HandOn(fs: seq<Frame>, ghost p: Packer, ghost k: int)
      requires Filed(records, done) && Holds(fs, p) && |fs| == k
      modifies this`records, this`nextCompressed, this`done
      ensures Filed(records, done) && done == old(done) + [p] && nextCompressed == 1
      ensures Handed(old(records), records, k)
    {
      FiledNext(records, done, fs, p);
      HandedOn(records, fs);
      records, nextCompressed := records + [fs], 1;
      done := done + [p];
    }

    /** Nothing is in the current record, not even blockettes. */
    ghost predicate Fresh()
      reads comp.builder
    {
      comp.builder.New() && comp.builder.blocketteCount == 0
    }

    /** Finish the record if its frames are full. */
    method FinishIfFull() returns (ghost full: bool)
      requires comp.Valid() && comp.ringPresent && !comp.builder.New() && maxframes >= 1
      requires comp.builder.frame <= maxframes || (comp.builder.frame == maxframes + 1 && comp.builder.block == 1)
      requires nextCompressed == 1 + |comp.rec.packed| && Filed(records, done)
      modifies this, comp`rec, comp.builder
      ensures Valid() && Value() == FinishIf(old(Value()), full) && full == (old(comp.builder.frame) == maxframes + 1)
      ensures if full then Handed(old(records), records, maxframes - old(comp.builder.blocketteCount)) && Fresh()
              else records == old(records) && unchanged(comp.builder)
    {
      full := comp.builder.frame >= maxframes + 1;
      if comp.builder.frame >= maxframes + 1 {
        FinishRecord();
      }
    }

    /** One word is packed into the current record and its samples are counted. */
    method CompressOne()
      requires Valid() && comp.ring.peekTotal >= 1
      modifies this`nextCompressed, comp, comp.ring, comp.builder, comp.builder.frameBuffer, comp.diffs, comp.sc
      ensures comp.Valid() && comp.ringPresent && !comp.builder.New() && comp.rec == Apply(old(comp.rec), Pack)
      ensures comp.Counts(old(comp.builder.Words()) + 1, old(comp.builder.blocketteCount))
      ensures nextCompressed == 1 + |comp.rec.packed|
      ensures |comp.rec.pending| < |old(comp.rec.pending)|
    {
      var used := comp.CompressBlock();
      nextCompressed := nextCompressed + used;
    }

    /**
     A record of so many blockettes has got its n-th word: it is finished exactly if that is the last word of its last
     frame, and so with all its frames.
     */
    ghost predicate Took(n: int, blockettes: nat, before: seq<seq<Frame>>, full: bool)
      reads this, comp, comp.builder
    {
      && (full <==> n == 15 * (maxframes - blockettes))
      && (if full then Handed(before, records, maxframes - blockettes) && Fresh()
          else records == before && comp.Counts(n, blockettes))
    }

    /** One word is packed; a full record is finished. */
    method PackWord() returns (ghost full: bool)
      requires Valid() && comp.ring.peekTotal >= 1
      modifies this, comp, comp.ring, comp.builder, comp.builder.frameBuffer, comp.diffs, comp.sc
      ensures Valid() && Value() == PackedWord(old(Value()), full) && |comp.rec.pending| < |old(comp.rec.pending)|
      ensures Took(old(comp.builder.Words()) + 1, old(comp.builder.blocketteCount), old(records), full)
    {
      CompressOne();
      full := FinishIfFull();
    }

    /** A sample arrives; once seven wait, a word is packed. */
    method TakeSample(x: int32) returns (ghost full: bool)
      requires Valid() && |comp.rec.pending| < MAX_PER_WORD
      modifies this, comp, comp.ring, comp.ring.peeks, comp.builder, comp.builder.frameBuffer, comp.diffs, comp.sc
      ensures Valid() && Value() == TookSample(old(Value()), x, full) && |comp.rec.pending| < MAX_PER_WORD
      ensures if |old(comp.rec.pending)| < 6 then records == old(records) && unchanged(comp.builder)
              else Took(old(comp.builder.Words()) + 1, old(comp.builder.blocketteCount), old(records), full)
    {
      full := false;
      comp.PutSample(x);
      if comp.ring.peekTotal < MAX_PER_WORD {
        return;
      }
      full := PackWord();
    }

    /** The records handed on since there were m of them are whole; the one begun then had so many blockettes. */
    ghost predicate WholeSince(m: nat, blockettes: nat)
      reads this, comp.builder
    {
      AllWhole(records, m, maxframes, blockettes)
      && comp.builder.blocketteCount == if |records| == m then blockettes else 0
    }

    /** Records stay whole when the current one has got its n-th word. */
    lemma {:induction false} TookWhole(n: int, before: seq<seq<Frame>>, full: bool, m: nat, blockettes: nat)
      requires AllWhole(before, m, maxframes, blockettes)
      requires Took(n, if |before| == m then blockettes else 0, before, full)
      ensures WholeSince(m, blockettes) && before <= records
    {
      if full {
        WholeNext(before, records, m, maxframes, blockettes, maxframes - if |before| == m then blockettes else 0);
      }
    }

    /** Pack everything that waits; twenty rounds are always enough. */
    method PackAll() returns (ghost fulls: seq<bool>)
      requires Valid()
      modifies this, comp, comp.ring, comp.builder, comp.builder.frameBuffer, comp.diffs, comp.sc
      ensures Valid() && Value() == PackedWords(old(Value()), fulls) && comp.rec.pending == []
      ensures old(records) <= records && WholeSince(|old(records)|, old(comp.builder.blocketteCount))
    {
      var loops := 0;
      fulls := [];
      while comp.ring.peekTotal > 0 && loops <= 20
        invariant Valid() && Value() == PackedWords(old(Value()), fulls) && old(records) <= records
        invariant WholeSince(|old(records)|, old(comp.builder.blocketteCount))
        invariant 0 <= loops <= 16 - |comp.rec.pending|
      {
        ghost var was, rs, n := fulls, records, comp.builder.Words() + 1;
        ghost var full := PackWord();
        TookWhole(n, rs, full, |old(records)|, old(comp.builder.blocketteCount));
        fulls := fulls + [full];
        assert fulls[..|was|] == was;
        loops := loops + 1;
      }
    }

    /** Pack everything that waits and close the record; afterwards all samples are in finished records. */
    method Flush() returns (ghost fulls: seq<bool>)
      requires Valid()
      modifies this, comp, comp.ring, comp.builder, comp.builder.frameBuffer, comp.diffs, comp.sc
      ensures Valid() && Value() == Closed(PackedWords(old(Value()), fulls))
      ensures comp.rec.packed == [] && comp.rec.pending == [] && old(records) <= records
      ensures AllWholeButLast(records, |old(records)|, maxframes, old(comp.builder.blocketteCount))
    {
      fulls := PackAll();
      ghost var rs := records;
      WholeLast(rs, rs, |old(records)|, maxframes, old(comp.builder.blocketteCount), 0);
      if nextCompressed > 1 {
        ghost var k := CloseRecord();
        WholeLast(rs, records, |old(records)|, maxframes, old(comp.builder.blocketteCount), k);
      }
    }

    /** Close the frame and the record begun, which has k frames then. */
    method CloseRecord() returns (ghost k: int)
      requires Valid() && !comp.builder.New()
      modifies this, comp`rec, comp.builder, comp.builder.frameBuffer
      ensures Valid() && Value() == Finish(old(Value())) && Handed(old(records), records, k)
      ensures k <= maxframes - old(comp.builder.blocketteCount)
    {
      ClosePartial();
      k := comp.builder.frame - comp.builder.blocketteCount - 1;
      FinishRecord();
    }

    method ClosePartial()
      requires Valid() && !comp.builder.New()
      modifies comp.builder, comp.builder.frameBuffer
      ensures comp.Valid() && comp.builder.block == 1 && !comp.builder.New() && comp.builder.frame <= maxframes + 1
      ensures comp.builder.blocketteCount == old(comp.builder.blocketteCount)
    {
      if comp.builder.block > 1 {
        comp.builder.CompletePartial();
      }
    }
  }
}
