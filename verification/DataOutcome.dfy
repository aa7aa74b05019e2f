/**
 What the archive of a data channel makes of a record, said by times, sizes and the versions that the client is told
 about, without the steps by which the archive comes to it.
 */
module DataOutcome {
  import opened Common
  import opened Merge
  import opened RecordBody
  import opened Archive
  import opened DataRecords

  /** A time in seconds since 2000 that is 2192 days from there or later, and at most 0x7FFF0000. */
  predicate Plausible(t: real) {
    2192.0 * 86400.0 <= t <= 0x7FFF_0000 as real
  }

  /** How long n samples last: a rate is samples per second or, if negative, seconds per sample. */
  function Lasts(n: nat, rate: int): real
    requires rate != 0
  {
    if rate > 0 then n as real / rate as real else n as real * (-rate) as real
  }

  /** Record x starts where the samples of the record in the buffer end, give or take the tolerated gap, and fits. */
  predicate Follows(a: Record, x: Record, cfg: Config)
    requires cfg.rate != 0
  {
    && a.hdr.start + Lasts(a.hdr.samples, cfg.rate) - cfg.gapSecs <= x.hdr.start
    && x.hdr.start <= a.hdr.start + Lasts(a.hdr.samples, cfg.rate) + cfg.gapSecs
    && a.total + x.hdr.blockettes - 2 + x.hdr.frames <= cfg.arcFrames
  }

  /**
   Both records in one: all blockettes, then all data, with the greater time quality and the start that goes with it.
   */
  function Both(a: Record, x: Record, cfg: Config): Record
    requires Shaped(a) && Shaped(x) && cfg.rate != 0
  {
    var n := a.hdr.blockettes + x.hdr.blockettes - 2;
    Record(a.hdr.(start := if x.hdr.qual > a.hdr.qual then x.hdr.start - Lasts(a.hdr.samples, cfg.rate)
                      else a.hdr.start,
                  qual := Max(a.hdr.qual, x.hdr.qual), samples := a.hdr.samples + x.hdr.samples, blockettes := n,
                  frames := a.hdr.frames + x.hdr.frames, firstDataByte := 64 * (n - 1),
                  debNext := if n > 2 then 64 else 0, marks := MergedMarks(a.hdr.marks, x.hdr.marks)),
           MergedBlockettes(a.blks, x.blks), Merged(a.data, x.data), a.total + x.hdr.blockettes - 2 + x.hdr.frames)
  }

  /** The version with action c, if its time is possible. */
  function Telling(c: Action, r: Record): seq<Version> {
    if Plausible(r.hdr.start) then [Version(c, r)] else []
  }

  /** What is told about the record in the buffer when it ends: nothing if the client has all of it. */
  function Ending(s: State): seq<Version> {
    if s.rec.total == 0 || !s.appended then [] else Telling(if s.existing then Final else Arc, s.rec)
  }

  /** Record y is all there is in the buffer, and `before` and then the first version of it, if any, has been told. */
  ghost predicate BeginsWith(r: State, before: seq<Version>, y: Record, incremental: bool) {
    if !incremental then r.rec == y && r.log == before && r.appended && !r.existing
    else if Plausible(y.hdr.start) then r.rec == y && r.log == before + [Version(First, y)] && r.existing && !r.appended
    else r.rec == NOTHING && r.log == before && !r.existing
  }

  /** Record m, the buffer's one with more in it, has gone to the client if it is full or every version is wanted. */
  ghost predicate GoesOnWith(r: State, s: State, m: Record, cfg: Config) {
    if m.total >= cfg.arcFrames then
      r.rec == NOTHING && r.log == s.log + Telling(if s.existing then Final else Arc, m)
    else if !cfg.incremental then r.rec == m && r.log == s.log && r.appended && r.existing == s.existing
    else
      && r.log == s.log + Telling(Inc, m)
      && (if Plausible(m.hdr.start) then r.rec == m && r.existing && !r.appended else r.rec == NOTHING)
  }

  lemma {:induction false} DrateLasts(n: nat, rate: int)
    requires rate != 0
    ensures n as real / Drate(rate) == Lasts(n, rate)
  {
    if rate < 0 {
      var k := (-rate) as real;
      assert n as real / (1.0 / k) == n as real * k;
    }
  }

  lemma {:induction false} JoinsIff(a: Record, x: Record, cfg: Config)
    requires cfg.rate != 0 && a.total > 1
    ensures Joins(a, x.hdr, Drate(cfg.rate), cfg.gapSecs, cfg.arcFrames) <==> Follows(a, x, cfg)
  {
    DrateLasts(a.hdr.samples, cfg.rate);
  }

  lemma {:induction false} ExtendedBoth(a: Record, x: Record, cfg: Config)
    requires Shaped(a) && Shaped(x) && cfg.rate != 0
    ensures Extended(a, x, Drate(cfg.rate)) == Both(a, x, cfg)
  {
    DrateLasts(a.hdr.samples, cfg.rate);
  }

  /** A flush ends the record in the buffer, unless it is kept for more to come. */
  lemma {:induction false} FlushEnds(s: State, cfg: Config)
    requires Sane(s, cfg)
    ensures Flush(s).rec == NOTHING && Flush(s).log == s.log + Ending(s) && Flush(s).written == s.written
    ensures !Flush(s).existing && !Flush(s).appended
  {
  }

  /**
   A record that does not follow the one in the buffer, because it starts too early or too late or does not fit, ends
   it and begins a new one by itself. So does a record that comes when there is none in the buffer.
   */
  lemma {:induction false} StoreApart(s: State, x: Record, cfg: Config)
    requires Sane(s, cfg) && Arrives(x) && cfg.rate != 0
    requires s.rec.total == 0 || !Follows(s.rec, x, cfg)
    ensures BeginsWith(Store(s, x, cfg), s.log + Ending(s), x.(hdr := x.hdr.(exponent := cfg.exponent,
                                                                             seqno := s.written + 1)), cfg.incremental)
    ensures Store(s, x, cfg).written == s.written + 1
  {
    if s.rec.total > 0 {
      JoinsIff(s.rec, x, cfg);
    }
    FlushEnds(s, cfg);
    PartedSane(s, x, cfg);
    var t := Parted(s, x.hdr, cfg);
    assert s.log + [] == s.log;
    assert t.log == s.log + Ending(s) && t.written == s.written && t.rec == NOTHING;
    BegunTold(t, x, cfg);
  }

  lemma {:induction false} BegunTold(t: State, x: Record, cfg: Config)
    requires Sane(t, cfg) && t.rec == NOTHING && Arrives(x)
    ensures var u, y := Begun(t, x, cfg), x.(hdr := x.hdr.(exponent := cfg.exponent, seqno := t.written + 1));
            BeginsWith(if cfg.incremental then Flush(u) else u, t.log, y, cfg.incremental)
  {
  }

  /** A record that follows the one in the buffer and fits is put behind it, and both are one record then. */
  lemma {:induction false} StoreTogether(s: State, x: Record, cfg: Config)
    requires Sane(s, cfg) && Arrives(x) && cfg.rate != 0 && s.rec.total > 0 && Follows(s.rec, x, cfg)
    ensures GoesOnWith(Store(s, x, cfg), s, Both(s.rec, x, cfg), cfg) && Store(s, x, cfg).written == s.written
  {
    JoinsIff(s.rec, x, cfg);
    ExtendedBoth(s.rec, x, cfg);
    var u := Grown(s, x, Drate(cfg.rate));
    assert u == s.(rec := Both(s.rec, x, cfg), appended := true);
    DueGoesOn(s, Both(s.rec, x, cfg), cfg);
  }

  lemma {:induction false} DueGoesOn(s: State, m: Record, cfg: Config)
    requires Sane(s, cfg) && s.rec.total > 0 && m.total > 0
    ensures GoesOnWith(Due(s.(rec := m, appended := true), cfg), s, m, cfg)
    ensures Due(s.(rec := m, appended := true), cfg).written == s.written
  {
    assert s.log + [] == s.log;
  }

  /** A channel with rate 0 takes nothing in. */
  lemma {:induction false} StoreNothing(s: State, x: Record, cfg: Config)
    requires Sane(s, cfg) && Arrives(x)
    ensures Store(s, x, cfg) == s <==> cfg.rate == 0
  {
    if cfg.rate != 0 {
      if s.rec.total > 0 && Follows(s.rec, x, cfg) {
        StoreTogether(s, x, cfg);
      } else {
        StoreApart(s, x, cfg);
      }
    }
  }
}
