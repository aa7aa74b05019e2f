/**
 What becomes of the samples of data records: over every run of records taken in, the client gets exactly these
 samples if and only if no record is thrown away and every record that is merged continues the one before it.
 */
module DataDelivery {
  import opened Common
  import opened Steim
  import opened Frames
  import opened Merge
  import opened RecordBody
  import opened Archive
  import opened Account
  import opened DataRecords

  function SamplesOf(r: Record): seq<int32> {
    if |r.data| % 64 == 0 then Samples(r.data) else []
  }

  /** The samples of records, one after the other. */
  function Given(xs: seq<Record>): seq<int32> {
    if xs == [] then [] else Given(xs[..|xs| - 1]) + SamplesOf(xs[|xs| - 1])
  }

  /** The samples of each record that the client keeps. */
  function Told(kept: seq<seq<int32>>, log: seq<Version>): seq<seq<int32>> {
    if log == [] then kept
    else
      var v := log[|log| - 1];
      Keep(Told(kept, log[..|log| - 1]), v.action, SamplesOf(v.rec))
  }

  lemma {:induction false} ToldNext(kept: seq<seq<int32>>, log: seq<Version>, v: Version)
    ensures Told(kept, log + [v]) == Keep(Told(kept, log), v.action, SamplesOf(v.rec))
  {
    assert (log + [v])[..|log|] == log;
  }

  /** The client's records and the buffer hold exactly the samples given if ok, and otherwise never will again. */
  ghost predicate Balanced(kept: seq<seq<int32>>, s: State, given: seq<int32>, ok: bool)
  {
    && Delivered(Told(kept, s.log), s.existing, s.appended, SamplesOf(s.rec), given, ok)
    && (s.rec.total > 0 ==> RecordData(s.rec.data))
  }

  /** A flush throws something away that the client does not have. */
  predicate Loses(s: State) {
    s.appended && s.rec.total > 0 && !PossibleTime(s.rec.hdr.start)
  }

  lemma {:induction false} FlushBalanced(kept: seq<seq<int32>>, s: State, given: seq<int32>, ok: bool)
    requires Balanced(kept, s, given, ok) && (s.rec.total == 0 ==> !s.existing && !s.appended)
    ensures Balanced(kept, Flush(s), given, ok && !Loses(s))
  {
    var act := ActionFor(s.existing, s.appended, s.leave);
    NothingHeld();
    if Worth(s) && act.Some? {
      ToldNext(kept, s.log, Version(act.value, s.rec));
    }
    DeliverFlush(Told(kept, s.log), s.existing, s.appended, s.leave, s.rec.total, Worth(s), SamplesOf(s.rec), given,
                 ok);
  }

  lemma {:induction false} NothingHeld()
    ensures SamplesOf(NOTHING) == []
  {
  }

  lemma {:induction false} SomeSamples(r: Record)
    requires RecordData(r.data)
    ensures SamplesOf(r) == Samples(r.data) != []
  {
  }

  lemma {:induction false} BegunBalanced(kept: seq<seq<int32>>, s: State, x: Record, cfg: Config, given: seq<int32>,
                                         ok: bool)
    requires Balanced(kept, s, given, ok) && s.rec == NOTHING && !s.existing && !s.appended && RecordData(x.data)
    ensures Balanced(kept, Begun(s, x, cfg), given + SamplesOf(x), ok)
  {
    NothingHeld();
    SomeSamples(x);
    DeliverNew(Told(kept, s.log), SamplesOf(x), given, ok);
  }

  /** A record's first difference starts from the last sample given before. */
  ghost predicate Continued(given: seq<int32>, extra: seq<byte>)
    requires RecordData(extra)
  {
    Follows(FirstSample(extra), LastOf(0, given), FirstDiff(extra))
  }

  /** The samples of the merged record. */
  lemma {:induction false} ExtendedSamples(a: Record, x: Record, rate: real, sa: seq<int32>, sb: seq<int32>,
                                           sm: seq<int32>)
    requires Shaped(a) && Shaped(x) && rate != 0.0 && RecordData(a.data) && RecordData(x.data)
    requires sa == SamplesOf(a) && sb == SamplesOf(x) && sm == SamplesOf(Extended(a, x, rate))
    ensures RecordData(Extended(a, x, rate).data) && sa != [] && sb != []
    ensures |sm| == |sa| + |sb| && sm[..|sa|] == sa
    ensures sm == sa + sb <==> Follows(FirstSample(x.data), LastOf(0, sa), FirstDiff(x.data))
  {
    SomeSamples(a);
    SomeSamples(x);
    MergeDecodesIff(a.data, x.data, Merged(a.data, x.data), sa, sb, FirstSample(x.data), FirstDiff(x.data));
    MergeKeepsFirst(a.data, x.data, Merged(a.data, x.data), sa, sm);
  }

  lemma {:induction false} LastOfMore(given: seq<int32>, s: seq<int32>)
    ensures LastOf(0, given + s) == if s == [] then LastOf(0, given) else LastOf(0, s)
  {
  }

  lemma {:induction false} MergeDelivers(kept: seq<seq<int32>>, existing: bool, appended: bool, given: seq<int32>,
                                         ok: bool,
                                         sa: seq<int32>, sb: seq<int32>, sm: seq<int32>, x: int32, d: int,
                                         follows: bool)
    requires sa != [] && sb != [] && |sm| == |sa| + |sb| && sm[..|sa|] == sa
    requires sm == sa + sb <==> Follows(x, LastOf(0, sa), d)
    requires follows <==> Follows(x, LastOf(0, given), d)
    requires Delivered(kept, existing, appended, sa, given, ok)
    ensures Delivered(kept, existing, true, sm, given + sb, ok && follows)
  {
    if ok {
      LastOfMore(Flat(Settled(kept, existing)), sa);
    }
    DeliverMore(kept, existing, appended, sa, sm, sb, given, ok);
  }

  /** Merging keeps all samples accounted for if and only if the record continues those given before. */
  lemma {:induction false} GrownBalanced(kept: seq<seq<int32>>, s: State, x: Record, rate: real, given: seq<int32>,
                                         ok: bool)
    requires Balanced(kept, s, given, ok) && s.rec.total > 0 && Shaped(s.rec) && Shaped(x) && rate != 0.0
             && RecordData(x.data)
    ensures Balanced(kept, Grown(s, x, rate), given + SamplesOf(x), ok && Continued(given, x.data))
  {
    var sa, sb, sm := SamplesOf(s.rec), SamplesOf(x), SamplesOf(Extended(s.rec, x, rate));
    ExtendedSamples(s.rec, x, rate, sa, sb, sm);
    MergeDelivers(Told(kept, s.log), s.existing, s.appended, given, ok, sa, sb, sm, FirstSample(x.data),
                  FirstDiff(x.data),
                  Continued(given, x.data));
  }

  // --------------------------------------------------------------------- runs

  /** The record with x in it is flushed at once. */
  predicate IsDue(u: State, merged: bool, cfg: Config) {
    cfg.incremental || (merged && u.rec.total >= cfg.arcFrames)
  }

  /** Record x is merged into the record in the buffer. */
  predicate Merges(s: State, x: Record, cfg: Config) {
    s.rec.total > 1 && Joins(s.rec, x.hdr, Drate(cfg.rate), cfg.gapSecs, cfg.arcFrames)
  }

  /** Neither the record that ends when x is taken in, nor the record x is put into is thrown away for its time. */
  ghost predicate InTime(s: State, x: Record, cfg: Config)
    requires (s.rec.total == 0 || Shaped(s.rec)) && Shaped(x)
  {
    if Merges(s, x, cfg) then
      var u := Grown(s, x, Drate(cfg.rate));
      IsDue(u, true, cfg) ==> PossibleTime(u.rec.hdr.start)
    else
      (s.rec.total > 1 ==> !Loses(s)) && (IsDue(s, false, cfg) ==> PossibleTime(x.hdr.start))
  }

  /** Taking in record x goes well: nothing is thrown away, and x continues the samples before it if it is merged. */
  ghost predicate GoesWell(s: State, x: Record, cfg: Config, given: seq<int32>)
    requires (s.rec.total == 0 || Shaped(s.rec)) && Shaped(x) && RecordData(x.data)
  {
    InTime(s, x, cfg) && (Merges(s, x, cfg) ==> Continued(given, x.data))
  }

  lemma {:induction false} DueBalanced(kept: seq<seq<int32>>, u: State, cfg: Config, given: seq<int32>, ok: bool,
                                       ok': bool)
    requires Balanced(kept, u, given, ok) && u.rec.total > 0 && u.appended
    requires ok' == (ok && (IsDue(u, true, cfg) ==> PossibleTime(u.rec.hdr.start)))
    ensures Balanced(kept, Due(u, cfg), given, ok')
  {
    if u.rec.total >= cfg.arcFrames {
      FlushBalanced(kept, u, given, ok);
    } else if cfg.incremental {
      FlushBalanced(kept, u.(leave := true), given, ok);
    }
  }

  lemma {:induction false} StoreSane(s: State, x: Record, cfg: Config)
    requires Sane(s, cfg) && Arrives(x)
    ensures Sane(Store(s, x, cfg), cfg)
  {
    if cfg.rate != 0 {
      var t := Parted(s, x.hdr, cfg);
      PartedSane(s, x, cfg);
      if t.rec.total > 1 {
        GrownReady(t, x, cfg);
        var u := Grown(t, x, Drate(cfg.rate));
        FlushSane(u, cfg);
        FlushSane(u.(leave := cfg.incremental), cfg);
      } else {
        BegunReady(t, x, cfg);
        FlushSane(Begun(t, x, cfg), cfg);
      }
    }
  }

  /** Taking in a record keeps all samples accounted for if and only if it goes well. */
  lemma {:induction false} StoreBalanced(kept: seq<seq<int32>>, s: State, x: Record, cfg: Config, given: seq<int32>,
                                         ok: bool)
    requires Balanced(kept, s, given, ok) && Sane(s, cfg) && Arrives(x) && cfg.rate != 0 && RecordData(x.data)
    ensures Balanced(kept, Store(s, x, cfg), given + SamplesOf(x), ok && GoesWell(s, x, cfg, given))
  {
    var t := Parted(s, x.hdr, cfg);
    PartedSane(s, x, cfg);
    if t.rec.total > 1 {
      MergedBalanced(kept, s, x, cfg, given, ok, ok && GoesWell(s, x, cfg, given));
    } else {
      NewBalanced(kept, s, x, cfg, given, ok, ok && GoesWell(s, x, cfg, given));
    }
  }

  lemma {:induction false} MergedBalanced(kept: seq<seq<int32>>, s: State, x: Record, cfg: Config, given: seq<int32>,
                                          ok: bool, ok': bool)
    requires Balanced(kept, s, given, ok) && Sane(s, cfg) && Arrives(x) && cfg.rate != 0 && RecordData(x.data)
    requires Merges(s, x, cfg) && ok' == (ok && GoesWell(s, x, cfg, given))
    ensures Balanced(kept, Due(Grown(s, x, Drate(cfg.rate)), cfg), given + SamplesOf(x), ok')
  {
    var follows := Continued(given, x.data);
    GrownReady(s, x, cfg);
    GrownBalanced(kept, s, x, Drate(cfg.rate), given, ok);
    DueBalanced(kept, Grown(s, x, Drate(cfg.rate)), cfg, given + SamplesOf(x), ok && follows, ok');
  }

  lemma {:induction false} NewBalanced(kept: seq<seq<int32>>, s: State, x: Record, cfg: Config, given: seq<int32>,
                                       ok: bool, ok': bool)
    requires Balanced(kept, s, given, ok) && Sane(s, cfg) && Arrives(x) && cfg.rate != 0 && RecordData(x.data)
    requires Parted(s, x.hdr, cfg).rec.total <= 1 && ok' == (ok && GoesWell(s, x, cfg, given))
    ensures var u := Begun(Parted(s, x.hdr, cfg), x, cfg);
            Balanced(kept, if cfg.incremental then Flush(u) else u, given + SamplesOf(x), ok')
  {
    var t, fine := Parted(s, x.hdr, cfg), ok && (s.rec.total > 1 ==> !Loses(s));
    PartedSane(s, x, cfg);
    PartedBalanced(kept, s, x, cfg, given, ok);
    BegunReady(t, x, cfg);
    BegunDue(kept, t, x, cfg, given, given + SamplesOf(x), fine, ok');
  }

  lemma {:induction false} BegunDue(kept: seq<seq<int32>>, t: State, x: Record, cfg: Config, given: seq<int32>,
                                    g: seq<int32>,
                                    ok: bool, ok': bool)
    requires Balanced(kept, t, given, ok) && t.rec == NOTHING && !t.existing && !t.appended && Arrives(x)
             && RecordData(x.data)
    requires g == given + SamplesOf(x) && ok' == (ok && (cfg.incremental ==> PossibleTime(x.hdr.start)))
    ensures var u := Begun(t, x, cfg); Balanced(kept, if cfg.incremental then Flush(u) else u, g, ok')
  {
    BegunBalanced(kept, t, x, cfg, given, ok);
    FlushBalanced(kept, Begun(t, x, cfg), g, ok);
  }

  lemma {:induction false} PartedBalanced(kept: seq<seq<int32>>, s: State, x: Record, cfg: Config, given: seq<int32>,
                                          ok: bool)
    requires Balanced(kept, s, given, ok) && Sane(s, cfg) && Parted(s, x.hdr, cfg).rec.total <= 1
    ensures Balanced(kept, Parted(s, x.hdr, cfg), given, ok && (s.rec.total > 1 ==> !Loses(s)))
  {
    FlushBalanced(kept, s, given, ok);
  }

  ghost predicate AllArrive(xs: seq<Record>) {
    forall i :: 0 <= i < |xs| ==> Arrives(xs[i])
  }

  /** The archive after records have been taken in, one after the other. */
  ghost function Run(s: State, xs: seq<Record>, cfg: Config): (r: State)
    requires Sane(s, cfg) && AllArrive(xs)
    ensures Sane(r, cfg)
  {
    if xs == [] then s
    else
      var n := |xs| - 1;
      StoreSane(Run(s, xs[..n], cfg), xs[n], cfg);
      Store(Run(s, xs[..n], cfg), xs[n], cfg)
  }

  /** Every record holds samples and is taken in well; `given` are the samples before them. */
  ghost predicate AllGoWell(s: State, xs: seq<Record>, cfg: Config, given: seq<int32>)
    requires Sane(s, cfg) && AllArrive(xs)
    requires AllReadable(xs)
  {
    if xs == [] then true
    else
      var n := |xs| - 1;
      AllGoWell(s, xs[..n], cfg, given) && GoesWell(Run(s, xs[..n], cfg), xs[n], cfg, given + Given(xs[..n]))
  }

  ghost predicate AllReadable(xs: seq<Record>) {
    forall i :: 0 <= i < |xs| ==> RecordData(xs[i].data)
  }

  /** Over every run the samples stay accounted for if and only if every record is taken in well. */
  lemma {:induction false} RunBalanced(kept: seq<seq<int32>>, s: State, xs: seq<Record>, cfg: Config, given: seq<int32>)
    requires Sane(s, cfg) && AllArrive(xs) && AllReadable(xs) && cfg.rate != 0 && Balanced(kept, s, given, true)
    ensures Balanced(kept, Run(s, xs, cfg), given + Given(xs), AllGoWell(s, xs, cfg, given))
  {
    if xs == [] {
      assert given + [] == given;
    } else {
      var n := |xs| - 1;
      RunBalanced(kept, s, xs[..n], cfg, given);
      StoreBalanced(kept, Run(s, xs[..n], cfg), xs[n], cfg, given + Given(xs[..n]), AllGoWell(s, xs[..n], cfg, given));
      ConcatAssoc(given, Given(xs[..n]), SamplesOf(xs[n]));
    }
  }

  /**
   After the last flush the client has exactly the samples it had at the start and then those of all records taken
   in, if and only if every record was taken in well and the last one is not thrown away.
   */
  lemma {:induction false} ClientGetsAllIff(kept: seq<seq<int32>>, s: State, xs: seq<Record>, cfg: Config,
                                            given: seq<int32>)
    requires Sane(s, cfg) && AllArrive(xs) && AllReadable(xs) && cfg.rate != 0 && Balanced(kept, s, given, true)
    ensures var r := Run(s, xs, cfg);
            Flat(Told(kept, Flush(r).log)) == given + Given(xs) <==> AllGoWell(s, xs, cfg, given) && !Loses(r)
  {
    RunBalanced(kept, s, xs, cfg, given);
    var r := Run(s, xs, cfg);
    FlushBalanced(kept, r, given + Given(xs), AllGoWell(s, xs, cfg, given));
    NothingHeld();
    DeliveredIff(Told(kept, Flush(r).log), given + Given(xs), AllGoWell(s, xs, cfg, given) && !Loses(r));
  }

  /** At the start nothing is missing: the archive is empty, or it extends a record x that the client has. */
  lemma {:induction false} StartBalanced(s: State, x: Record)
    requires s.log == [] && !s.appended
    ensures s.rec == NOTHING && !s.existing ==>
              Balanced([], s, [], true) && Balanced([SamplesOf(x)], s, SamplesOf(x), true)
    ensures s.rec.data == x.data && s.existing && RecordData(x.data) ==> Balanced([SamplesOf(x)], s, SamplesOf(x), true)
  {
    NothingHeld();
    DeliverStart(SamplesOf(x));
  }

  // ---------------------------------------------------- what the client reads

  /** The record in the buffer and every version that the client was told about is good. */
  ghost predicate AllGood(good: Record -> bool, s: State)
  {
    (s.rec.total > 0 ==> good(s.rec)) && forall i :: 0 <= i < |s.log| ==> good(s.log[i].rec)
  }

  lemma {:induction false} FlushGood(good: Record -> bool, s: State)
    requires AllGood(good, s)
    ensures AllGood(good, Flush(s)) && (Flush(s).rec == s.rec || Flush(s).rec == NOTHING)
  {
  }

  /** The record as it begins an archive record. */
  function Numbered(x: Record, exponent: nat, seqno: nat): Record {
    x.(hdr := x.hdr.(exponent := exponent, seqno := seqno))
  }

  /** What is kept by merging is kept by taking in a record. */
  lemma {:induction false} StoreGood(good: Record -> bool, s: State, x: Record, cfg: Config)
    requires Sane(s, cfg) && Arrives(x) && AllGood(good, s)
    requires forall e: nat, n: nat :: good(Numbered(x, e, n))
    requires cfg.rate != 0 && s.rec.total > 1 && Joins(s.rec, x.hdr, Drate(cfg.rate), cfg.gapSecs, cfg.arcFrames) ==>
               good(Extended(s.rec, x, Drate(cfg.rate)))
    ensures AllGood(good, Store(s, x, cfg))
  {
    if cfg.rate != 0 {
      var t := Parted(s, x.hdr, cfg);
      PartedSane(s, x, cfg);
      FlushGood(good, s);
      if t.rec.total > 1 {
        var u := Grown(t, x, Drate(cfg.rate));
        FlushGood(good, u);
        FlushGood(good, u.(leave := true));
      } else {
        assert Begun(t, x, cfg).rec == Numbered(x, cfg.exponent, t.written + 1);
        FlushGood(good, Begun(t, x, cfg));
      }
    }
  }

  /** Merging good records makes good ones, and the numbers of a record do not matter. */
  ghost predicate MergingKeeps(good: Record -> bool)
  {
    && (forall x: Record, e: nat, n: nat :: good(x) ==> good(Numbered(x, e, n)))
    && (forall a: Record, x: Record, rate: real ::
          good(a) && good(x) && rate != 0.0 && Shaped(a) && Shaped(x) && a.total + x.total <= 300 ==>
              good(Extended(a, x, rate)))
  }

  lemma {:induction false} RunGood(good: Record -> bool, s: State, xs: seq<Record>, cfg: Config)
    requires Sane(s, cfg) && AllArrive(xs) && cfg.arcFrames <= 256 && AllGood(good, s) && MergingKeeps(good)
    requires forall i :: 0 <= i < |xs| ==> good(xs[i])
    ensures AllGood(good, Run(s, xs, cfg))
  {
    if xs != [] {
      var n := |xs| - 1;
      RunGood(good, s, xs[..n], cfg);
      StoreGood(good, Run(s, xs[..n], cfg), xs[n], cfg);
    }
  }

  /** A header that fits, one chain of blockettes, and as many samples as the header says. */
  ghost predicate Wellformed(r: Record)
  {
    Shaped(r) && Chained(r.blks) && RecordData(r.data) && |SamplesOf(r)| == r.hdr.samples
  }

  lemma {:induction false} ExtendedWellformed(a: Record, x: Record, rate: real)
    requires Wellformed(a) && Wellformed(x) && rate != 0.0 && a.total + x.total <= 300
    ensures Wellformed(Extended(a, x, rate)) && SaidLast(Extended(a, x, rate).data) == SaidLast(x.data)
  {
    var m := Extended(a, x, rate);
    MergedCounts(a.hdr, x.hdr, rate, |a.blks|, |a.data|, a.total);
    MergedChain(a.blks, x.blks);
    ExtendedSamples(a, x, rate, SamplesOf(a), SamplesOf(x), SamplesOf(m));
    SomeSamples(a);
    SomeSamples(x);
    MergeDecodesIff(a.data, x.data, m.data, SamplesOf(a), SamplesOf(x), FirstSample(x.data), FirstDiff(x.data));
  }

  lemma {:induction false} NumberedWellformed(x: Record, e: nat, n: nat)
    requires Wellformed(x)
    ensures Wellformed(Numbered(x, e, n))
  {
  }

  /** Over every run of well-formed records the client gets well-formed records only. */
  lemma {:induction false} RunWellformed(s: State, xs: seq<Record>, cfg: Config)
    requires Sane(s, cfg) && AllArrive(xs) && cfg.arcFrames <= 256 && AllGood(Wellformed, s)
    requires forall i :: 0 <= i < |xs| ==> Wellformed(xs[i])
    ensures AllGood(Wellformed, Run(s, xs, cfg))
  {
    forall x: Record, e: nat, n: nat | Wellformed(x)
      ensures Wellformed(Numbered(x, e, n))
    {
      NumberedWellformed(x, e, n);
    }
    forall a: Record, x: Record, rate: real | Wellformed(a) && Wellformed(x) && rate != 0.0 && a.total + x.total <= 300
      ensures Wellformed(Extended(a, x, rate))
    {
      ExtendedWellformed(a, x, rate);
    }
    RunGood(Wellformed, s, xs, cfg);
  }

  /** With incremental updates no record is told complete at once, and without them none in versions. */
  ghost predicate ModesOf(log: seq<Version>, incremental: bool)
  {
    forall i :: 0 <= i < |log| ==>
      if incremental then log[i].action != Arc else log[i].action != First && log[i].action != Inc
  }

  lemma {:induction false} FlushModes(s: State, incremental: bool)
    requires Ready(s, incremental) && ModesOf(s.log, incremental)
    ensures ModesOf(Flush(s).log, incremental)
  {
  }

  lemma {:induction false} RunModes(s: State, xs: seq<Record>, cfg: Config)
    requires Sane(s, cfg) && AllArrive(xs) && ModesOf(s.log, cfg.incremental)
    ensures ModesOf(Run(s, xs, cfg).log, cfg.incremental)
  {
    if xs != [] {
      var n := |xs| - 1;
      RunModes(s, xs[..n], cfg);
      StoreModes(Run(s, xs[..n], cfg), xs[n], cfg);
    }
  }

  lemma {:induction false} StoreModes(s: State, x: Record, cfg: Config)
    requires Sane(s, cfg) && Arrives(x) && ModesOf(s.log, cfg.incremental)
    ensures ModesOf(Store(s, x, cfg).log, cfg.incremental)
  {
    if cfg.rate != 0 {
      var t := Parted(s, x.hdr, cfg);
      PartedSane(s, x, cfg);
      FlushModes(s, cfg.incremental);
      if t.rec.total > 1 {
        GrownReady(t, x, cfg);
        var u := Grown(t, x, Drate(cfg.rate));
        FlushModes(u, cfg.incremental);
        FlushModes(u.(leave := cfg.incremental), cfg.incremental);
      } else {
        BegunReady(t, x, cfg);
        FlushModes(Begun(t, x, cfg), cfg.incremental);
      }
    }
  }
}
