/**
 Data records on values: what a record being collected is, what taking in another record makes of it, what the
 client is told, and when the client gets exactly the samples taken in.
 */
module DataRecords {
  import opened Common
  import opened Merge
  import opened RecordBody
  import opened Archive

  /** A record: header, blockettes, data, and the number of its 64-byte frames. */
  datatype Record = Record(hdr: Header, blks: seq<byte>, data: seq<byte>, total: nat)

  const NOTHING: Record := Record(NO_HEADER, [], [], 0)

  /** One version of a record as the client is told about it. */
  datatype Version = Version(action: Action, rec: Record)

  datatype Config = Config(incremental: bool, rate: int, gapSecs: real, arcFrames: nat, exponent: nat)

  /** An archive: the record in the buffer, its flags, the number of records begun, and what the client was told. */
  datatype State = State(rec: Record, existing: bool, appended: bool, leave: bool, written: nat, log: seq<Version>)

  // ----------------------------------------------------------------- headers

  /** The header's counts and offsets fit m bytes of blockettes and n bytes of data. */
  ghost predicate Counts(h: Header, m: nat, n: nat, total: nat)
  {
    && h.blockettes >= 2 && m == 64 * (h.blockettes - 2) && h.frames >= 1 && n == 64 * h.frames
    && total == h.blockettes - 1 + h.frames
    && h.firstDataByte == 64 * (h.blockettes - 1) && h.debNext == (if h.blockettes > 2 then 64 else 0)
  }

  /** A record whose header fits its parts. */
  ghost predicate Shaped(r: Record)
  {
    Counts(r.hdr, |r.blks|, |r.data|, r.total)
  }

  /** The header after a record has been merged in; a record with better time quality sets the time. */
  function MergedHeader(a: Header, h: Header, rate: real): Header
    requires h.blockettes >= 2 && rate != 0.0
  {
    var b := h.blockettes - 2;
    a.(start := if h.qual > a.qual then Retimed(h.start, a.samples, rate) else a.start,
       qual := if h.qual > a.qual then h.qual else a.qual,
       samples := a.samples + h.samples, blockettes := a.blockettes + b, frames := a.frames + h.frames,
       firstDataByte := a.firstDataByte + 64 * b, debNext := if b > 0 then 64 else a.debNext,
       marks := MergedMarks(a.marks, h.marks))
  }

  /** The start of n samples that end where a record with the given start begins. */
  function Retimed(start: real, n: nat, rate: real): real
    requires rate != 0.0
  {
    start - n as real / rate
  }

  /** Bit 7 of the quality byte says that the time is questionable. */
  function MergedMarks(a: Marks, h: Marks): Marks {
    var q := a.quality | (h.quality & 0x7F);
    Marks(a.activity | h.activity, if h.quality & 0x80 == 0 then q & 0x7F else q, a.io | h.io)
  }

  /** A merged time is questionable only if both were; every other mark of either record stays. */
  lemma {:induction false} MarksMerged(a: Marks, h: Marks)
    ensures var m := MergedMarks(a, h);
            && (m.quality & 0x80 != 0 <==> a.quality & 0x80 != 0 && h.quality & 0x80 != 0)
            && m.quality & 0x7F == (a.quality | h.quality) & 0x7F
            && m.activity == a.activity | h.activity && m.io == a.io | h.io
  {
  }

  /** A better time tag moves the start of a record by no more than the gap that is tolerated. */
  lemma {:induction false} RetimedWithinGap(a: Header, h: Header, rate: real, gap: real)
    requires h.blockettes >= 2 && rate != 0.0
    requires var t := h.start - (a.start + a.samples as real / rate); -gap <= t <= gap
    ensures -gap <= MergedHeader(a, h, rate).start - a.start <= gap
  {
  }

  lemma {:induction false} MergedCounts(a: Header, h: Header, rate: real, m: nat, n: nat, total: nat)
    requires Counts(a, m, n, total) && rate != 0.0 && h.blockettes >= 2
    ensures Counts(MergedHeader(a, h, rate), m + 64 * (h.blockettes - 2), n + 64 * h.frames,
            total + h.blockettes - 2 + h.frames)
  {
  }

  /** The updates of the archive header when a record is merged in, in their order. */
  method CombineHeaders(a: Header, h: Header, rate: real) returns (hdr: Header)
    requires h.blockettes >= 2 && rate != 0.0
    ensures hdr == MergedHeader(a, h, rate)
  {
    var b := h.blockettes - 2;
    hdr := a;
    if b > 0 {
      hdr := hdr.(firstDataByte := hdr.firstDataByte + 64 * b, debNext := 64);
    }
    hdr := hdr.(marks := MergedMarks(hdr.marks, h.marks));
    if h.qual > hdr.qual {
      hdr := hdr.(start := Retimed(h.start, hdr.samples, rate), qual := h.qual);
    }
    hdr := hdr.(samples := hdr.samples + h.samples, blockettes := hdr.blockettes + b, frames := hdr.frames + h.frames);
  }

  // -------------------------------------------------------------- operations

  /** Samples per second: a negative rate is the number of seconds per sample. */
  function Drate(rate: int): (d: real)
    ensures d != 0.0
  {
    if rate > 0 then rate as real else if rate < 0 then 1.0 / (-rate) as real else 1.0
  }

  /** The record x follows record a in time, within the tolerated gap, and fits behind it. */
  predicate Joins(a: Record, x: Header, rate: real, gap: real, arcFrames: nat)
    requires rate != 0.0
  {
    && a.total > 1 && x.blockettes - 2 + x.frames + a.total <= arcFrames
    && var t := x.start - (a.hdr.start + a.hdr.samples as real / rate); -gap <= t <= gap
  }

  /** There is something in the buffer, at a possible time. */
  predicate Worth(s: State) {
    PossibleTime(s.rec.hdr.start) && s.rec.total != 0
  }

  /** The buffer is flushed: the client is told unless it knows already, and the record stays or goes. */
  function Flush(s: State): State {
    var act := ActionFor(s.existing, s.appended, s.leave);
    var log := if Worth(s) && act.Some? then s.log + [Version(act.value, s.rec)] else s.log;
    if Worth(s) && s.leave && (s.existing ==> s.appended) then s.(existing := true, appended := false, leave := false,
                                                                  log := log)
    else s.(rec := NOTHING, existing := false, appended := false, leave := s.leave && !Worth(s), log := log)
  }

  /** A new archive record begins with record x. */
  function Begun(s: State, x: Record, cfg: Config): State {
    s.(rec := x.(hdr := x.hdr.(exponent := cfg.exponent, seqno := s.written + 1)),
       existing := false, appended := true, leave := s.leave || cfg.incremental, written := s.written + 1)
  }

  /** Record x is merged into record a. */
  function Extended(a: Record, x: Record, rate: real): Record
    requires Shaped(a) && Shaped(x) && rate != 0.0
  {
    Record(MergedHeader(a.hdr, x.hdr, rate), MergedBlockettes(a.blks, x.blks), Merged(a.data, x.data),
           a.total + x.hdr.blockettes - 2 + x.hdr.frames)
  }

  function Grown(s: State, x: Record, rate: real): State
    requires Shaped(s.rec) && Shaped(x) && rate != 0.0
  {
    s.(rec := Extended(s.rec, x, rate), appended := true)
  }

  /** A record that has grown is flushed if it is full or if the client wants every version. */
  function Due(s: State, cfg: Config): State {
    if s.rec.total >= cfg.arcFrames then Flush(s) else if cfg.incremental then Flush(s.(leave := true)) else s
  }

  /** The record in the buffer ends if record x does not join it. */
  function Parted(s: State, x: Header, cfg: Config): State {
    if s.rec.total > 1 && !Joins(s.rec, x, Drate(cfg.rate), cfg.gapSecs, cfg.arcFrames) then Flush(s) else s
  }

  /** Record x is taken in. */
  function Store(s: State, x: Record, cfg: Config): State
    requires (s.rec.total == 0 || Shaped(s.rec)) && Shaped(x)
  {
    if cfg.rate == 0 then s
    else
      var t := Parted(s, x.hdr, cfg);
      if t.rec.total > 1 then Due(Grown(t, x, Drate(cfg.rate)), cfg)
      else if cfg.incremental then Flush(Begun(t, x, cfg)) else Begun(t, x, cfg)
  }

  // ------------------------------------------------------------------- shape

  /** Flags of an archive ready for a flush: what is in the buffer has been sent or is marked as new. */
  ghost predicate Ready(s: State, incremental: bool)
  {
    && (if s.rec.total == 0 then s.rec == NOTHING && !s.existing && !s.appended
        else Shaped(s.rec) && (s.existing || s.appended))
    && (s.leave ==> incremental) && (incremental && s.rec.total > 0 && !s.existing ==> s.leave)
  }

  /** Between calls an incremental channel's client is up to date, and no record is longer than there is room for. */
  ghost predicate Sane(s: State, cfg: Config)
  {
    && Ready(s, cfg.incremental) && s.rec.total <= cfg.arcFrames && cfg.arcFrames >= 8
    && (s.leave ==> s.rec.total == 0) && (cfg.incremental && s.rec.total > 0 ==> s.existing && !s.appended)
  }

  /** A record that arrives: at most eight frames. */
  ghost predicate Arrives(x: Record)
  {
    Shaped(x) && x.total <= 8
  }

  lemma {:induction false} FlushSane(s: State, cfg: Config)
    requires Ready(s, cfg.incremental) && s.rec.total <= cfg.arcFrames && cfg.arcFrames >= 8
    ensures Sane(Flush(s), cfg)
  {
  }

  lemma {:induction false} GrownReady(s: State, x: Record, cfg: Config)
    requires Sane(s, cfg) && Arrives(x) && cfg.rate != 0 && s.rec.total > 1
    requires Joins(s.rec, x.hdr, Drate(cfg.rate), cfg.gapSecs, cfg.arcFrames)
    ensures var u := Grown(s, x, Drate(cfg.rate));
            && Ready(u, cfg.incremental) && Ready(u.(leave := cfg.incremental), cfg.incremental)
            && 0 < u.rec.total <= cfg.arcFrames && u.appended && !u.leave
  {
    MergedCounts(s.rec.hdr, x.hdr, Drate(cfg.rate), |s.rec.blks|, |s.rec.data|, s.rec.total);
  }

  lemma {:induction false} BegunReady(s: State, x: Record, cfg: Config)
    requires Sane(s, cfg) && Arrives(x) && s.rec.total == 0
    ensures var u := Begun(s, x, cfg); Ready(u, cfg.incremental) && 0 < u.rec.total <= 8 && u.appended && !u.existing
  {
  }

  lemma {:induction false} PartedSane(s: State, x: Record, cfg: Config)
    requires Sane(s, cfg)
    ensures Sane(Parted(s, x.hdr, cfg), cfg)
    ensures var t := Parted(s, x.hdr, cfg); t.rec.total > 1 ==>
              t == s && (cfg.rate != 0 ==> Joins(s.rec, x.hdr, Drate(cfg.rate), cfg.gapSecs, cfg.arcFrames))
    ensures var t := Parted(s, x.hdr, cfg); t.rec.total <= 1 ==> t.rec == NOTHING && t.rec.total == 0
  {
    FlushSane(s, cfg);
  }
}
