/**
 From the compressor to the client: the records that a channel finishes, stored as bytes and taken into the archive.
 */
module Pipeline {
  import opened Common
  import opened Steim
  import opened Frames
  import opened Packing
  import opened ByteFrames
  import opened Merge
  import opened Archive
  import opened Account
  import opened Compressor
  import opened Channel
  import opened DataRecords
  import opened DataDelivery
  import opened DataArchive

  /** A record that carries the frames fs of a channel's record with history p. */
  ghost predicate Carries(x: Record, fs: seq<Frame>, p: Packer)
  {
    Arrives(x) && x.data == BytesOf(fs) && x.hdr.samples == |p.packed|
  }

  /** A record of at most seven frames of blockettes and data is a record that the archive takes. */
  lemma {:induction false} StoredArrives(s: seq<byte>, h: Header, fs: seq<Frame>, p: Packer, blockettes: nat)
    requires |s| == 512 && fs != [] && blockettes + |fs| <= 7
    requires h.blockettes == blockettes + 2 && h.frames == |fs| && h.samples == |p.packed|
    requires h.firstDataByte == 64 * (blockettes + 1) && h.debNext == (if blockettes > 0 then 64 else 0)
    requires s[64 * (blockettes + 1)..64 * (blockettes + 1 + |fs|)] == BytesOf(fs)
    ensures Finished(s, h) && Carries(Incoming(s, h), fs, p)
  {
  }

  /** The difference d, not the samples' own one, leads to another sample. */
  lemma {:induction false} FollowsIff(x: int32, last: int32, d: int32)
    ensures Follows(x, last, d) <==> d == Wrap32(x - last)
  {
  }

  /**
   A finished record as bytes holds its samples if and only if all differences but the first are encodable, and it
   continues the samples before it if and only if the first difference is.
   */
  lemma {:induction false} FinishedRecord(x: Record, fs: seq<Frame>, p: Packer, given: seq<int32>)
    requires Carries(x, fs, p) && Holds(fs, p) && TracksRecord(p) && LastOf(0, given) == p.start
    ensures RecordData(x.data) && |SamplesOf(x)| == x.hdr.samples
    ensures SamplesOf(x) == p.packed <==> AllEncodable(Diffs(p.start, p.packed)[1..])
    ensures Continued(given, x.data) <==> Encodable(Diffs(p.start, p.packed)[0])
  {
    var ds := StreamDiffs(p.out);
    StoredData(x.data, fs, ds);
    RecordDecodes(fs, p);
    FirstDifference(p, ds);
  }

  lemma {:induction false} FirstDifference(p: Packer, ds: seq<int>)
    requires TracksRecord(p) && p.packed != [] && ds == StreamDiffs(p.out)
    ensures ds != [] && (Follows(p.packed[0], p.start, ds[0]) <==> Encodable(Diffs(p.start, p.packed)[0]))
  {
    FollowsIff(p.packed[0], p.start, ds[0]);
  }

  lemma {:induction false} StoredData(data: seq<byte>, fs: seq<Frame>, ds: seq<int>)
    requires data == BytesOf(fs) && fs != [] && FirstTwoUnused(Codes(fs[0][0], 15)) && ds == FrameDiffs(fs) != []
    ensures RecordData(data) && Samples(data) == SeedDecode(fs) && |SeedDecode(fs)| == |ds|
    ensures FirstSample(data) == Wrap32(fs[0][1]) && FirstDiff(data) == ds[0]
  {
    FramesStored(fs);
  }

  // ---------------------------------------------------------------- end to end

  /** The records carry the channel's finished records, whose differences all fit 30 bits. */
  ghost predicate AllCarried(xs: seq<Record>, records: seq<seq<Frame>>, hist: seq<Packer>)
  {
    && |xs| == |records| == |hist|
    && (hist != [] ==>
          var n := |hist| - 1;
          && AllCarried(xs[..n], records[..n], hist[..n])
          && Carries(xs[n], records[n], hist[n]) && AllEncodable(Diffs(hist[n].start, hist[n].packed)))
  }

  ghost predicate AllInTime(s: State, xs: seq<Record>, cfg: Config)
    requires Sane(s, cfg) && AllArrive(xs)
  {
    xs == [] ||
      var n := |xs| - 1;
      AllInTime(s, xs[..n], cfg) && InTime(DataDelivery.Run(s, xs[..n], cfg), xs[n], cfg)
  }

  lemma {:induction false} CarriedArrive(xs: seq<Record>, records: seq<seq<Frame>>, hist: seq<Packer>)
    requires AllCarried(xs, records, hist)
    ensures AllArrive(xs)
  {
    if xs != [] {
      var n := |xs| - 1;
      CarriedArrive(xs[..n], records[..n], hist[..n]);
      assert forall i :: 0 <= i < n ==> xs[i] == xs[..n][i];
    }
  }

  /** Every record continues the samples of those before it. */
  ghost predicate AllContinue(xs: seq<Record>)
  {
    xs == [] ||
      var n := |xs| - 1;
      AllContinue(xs[..n]) && RecordData(xs[n].data) && Continued(Given(xs[..n]), xs[n].data)
  }

  /** The records hold exactly the samples of the channel, and each of them continues those before it. */
  lemma {:induction false} CarriedSamples(xs: seq<Record>, records: seq<seq<Frame>>, hist: seq<Packer>, start: int32)
    requires AllCarried(xs, records, hist) && Filed(records, hist) && AllTrack(hist) && Linked(0, hist, start)
    ensures AllReadable(xs) && Given(xs) == PackedOf(hist) && LastOf(0, Given(xs)) == start
    ensures AllContinue(xs)
  {
    if hist != [] {
      var n := |hist| - 1;
      var p := hist[n];
      CarriedSamples(xs[..n], records[..n], hist[..n], p.start);
      FinishedRecord(xs[n], records[n], p, Given(xs[..n]));
      AllButFirst(Diffs(p.start, p.packed));
      LastOfMore(Given(xs[..n]), p.packed);
      ReadableNext(xs);
    }
  }

  lemma {:induction false} ReadableNext(xs: seq<Record>)
    requires xs != [] && AllReadable(xs[..|xs| - 1]) && RecordData(xs[|xs| - 1].data)
    ensures AllReadable(xs)
  {
    forall i | 0 <= i < |xs|
      ensures RecordData(xs[i].data)
    {
      if i < |xs| - 1 {
        assert xs[i] == xs[..|xs| - 1][i];
      }
    }
  }

  lemma {:induction false} AllButFirst(ds: seq<int32>)
    requires ds != []
    ensures AllEncodable(ds) <==> Encodable(ds[0]) && AllEncodable(ds[1..])
  {
    assert ds == [ds[0]] + ds[1..];
    EncodableSplit([ds[0]], ds[1..]);
  }

  lemma {:induction false} GoesWellIff(a: State, x: Record, cfg: Config, g: seq<int32>)
    requires Sane(a, cfg) && Arrives(x) && RecordData(x.data) && Continued(g, x.data)
    ensures GoesWell(a, x, cfg, g) <==> InTime(a, x, cfg)
  {
  }

  /** Taking records that continue each other in goes well if and only if no record is thrown away for its time. */
  lemma {:induction false} ContinuedGoWell(s: State, xs: seq<Record>, cfg: Config)
    requires Sane(s, cfg) && AllArrive(xs) && AllReadable(xs) && AllContinue(xs)
    ensures AllGoWell(s, xs, cfg, []) <==> AllInTime(s, xs, cfg)
  {
    if xs != [] {
      var n := |xs| - 1;
      ContinuedGoWell(s, xs[..n], cfg);
      LastGoesWell(s, xs, n, cfg);
      GoesWellIff(DataDelivery.Run(s, xs[..n], cfg), xs[n], cfg, Given(xs[..n]));
    }
  }

  lemma {:induction false} LastGoesWell(s: State, xs: seq<Record>, n: nat, cfg: Config)
    requires Sane(s, cfg) && AllArrive(xs) && AllReadable(xs) && n == |xs| - 1
    ensures AllGoWell(s, xs, cfg, []) <==>
              AllGoWell(s, xs[..n], cfg, []) && GoesWell(DataDelivery.Run(s, xs[..n], cfg), xs[n], cfg, Given(xs[..n]))
  {
    assert [] + Given(xs[..n]) == Given(xs[..n]);
  }

  /**
   From the samples of a channel to its client. If all differences of samples fit 30 bits, then after the channel and
   the archive have been flushed the client has exactly the samples of the channel's records, in order, if and only if
   no archive record had an impossible time when it was flushed.
   */
  lemma {:induction false} EndToEnd(xs: seq<Record>, cfg: Config, records: seq<seq<Frame>>, hist: seq<Packer>,
                                    start: int32)
    requires cfg.arcFrames >= 8 && cfg.rate != 0
    requires AllCarried(xs, records, hist) && Filed(records, hist) && AllTrack(hist) && Linked(0, hist, start)
    ensures var s := State(NOTHING, false, false, false, 0, []);
            && Sane(s, cfg) && AllArrive(xs)
            && var r := DataDelivery.Run(s, xs, cfg);
               Flat(Told([], Flush(r).log)) == PackedOf(hist) <==> AllInTime(s, xs, cfg) && !Loses(r)
  {
    var s := State(NOTHING, false, false, false, 0, []);
    StartBalanced(s, NOTHING);
    CarriedArrive(xs, records, hist);
    CarriedSamples(xs, records, hist, start);
    ContinuedGoWell(s, xs, cfg);
    ClientGetsAllIff([], s, xs, cfg, []);
    assert [] + Given(xs) == Given(xs);
  }
}
