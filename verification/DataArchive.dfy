/**
 The archive of a data channel: finished records are merged into larger ones as long as they follow
 each other in time and fit, and the client is told about every record or every version of it.
 */
module DataArchive {
  import opened Common
  import opened RecordBody
  import opened Merge
  import opened Archive
  import opened DataRecords

  /** A 512-byte record as it arrives: a header that fits its blockettes and at least one data frame. */
  ghost predicate Finished(s: seq<byte>, h: Header)
  {
    && |s| == 512 && h.blockettes >= 2 && h.frames >= 1 && h.blockettes - 1 + h.frames <= 8
    && h.firstDataByte == 64 * (h.blockettes - 1) && h.debNext == (if h.blockettes > 2 then 64 else 0)
  }

  /** The record that the bytes and the header are. */
  ghost function Incoming(s: seq<byte>, h: Header): (x: Record)
    requires Finished(s, h)
    ensures Arrives(x)
  {
    Record(h, BlockettesIn(s, h.blockettes - 2), FramesIn(s, h.blockettes - 1, h.frames), h.blockettes - 1 + h.frames)
  }

  /** A call tells the client about a version of a record. */
  ghost predicate Shows(c: Call, v: Version)
  {
    c.action == v.action && c.hdr == v.rec.hdr && Layout(c.image, v.rec.blks, v.rec.data) && Shaped(v.rec)
  }

  ghost predicate Shown(calls: seq<Call>, log: seq<Version>)
  {
    |calls| == |log| && forall i :: 0 <= i < |log| ==> Shows(calls[i], log[i])
  }

  lemma {:induction false} ShownNext(calls: seq<Call>, log: seq<Version>, c: Call, v: Version)
    requires Shown(calls, log) && Shows(c, v)
    ensures Shown(calls + [c], log + [v])
  {
  }

  /** The blockettes and the data that a client finds by the header of a call are those of the version. */
  lemma {:induction false} ClientReads(c: Call, v: Version)
    requires Shows(c, v)
    ensures c.hdr.blockettes >= 2 && 64 * (c.hdr.blockettes - 1 + c.hdr.frames) <= |c.image|
    ensures BlockettesIn(c.image, c.hdr.blockettes - 2) == v.rec.blks
            && FramesIn(c.image, c.hdr.blockettes - 1, c.hdr.frames) == v.rec.data
  {
    LayoutParts(c.image, v.rec.blks, v.rec.data, c.hdr.blockettes - 2, c.hdr.frames);
  }

  class DataArchive {
    const arc: Archive
    const body: RecordBody
    const cfg: Config
    ghost var log: seq<Version>        // what the calls of the client were about

    /** The archive as a value. */
    ghost function Value(): State
      reads this, arc, body
    {
      State(Record(arc.hdr, body.blks, body.data, arc.totalFrames), arc.existing, arc.appended, arc.leave,
            arc.recordsWritten, log)
    }

    ghost predicate Wired()
      reads this, arc, body, arc.pcfr
    {
      && arc.kind == Data && arc.incremental == cfg.incremental && body.pcfr == arc.pcfr
         && arc.pcfr.Length == 64 * cfg.arcFrames && 8 <= cfg.arcFrames <= 256
      && body.Valid() && Shown(arc.log, log)
      && Legal(arc.preloaded, arc.log) && (arc.existing ==> OpenAfter(arc.preloaded, arc.log))
    }

    ghost predicate Valid()
      reads this, arc, body, arc.pcfr
    {
      Wired() && Sane(Value(), cfg)
    }

    constructor (cfg: Config)
      requires 8 <= cfg.arcFrames <= 256
      ensures Valid() && Value() == State(NOTHING, false, false, false, 0, []) && this.cfg == cfg
    {
      this.cfg := cfg;
      var buffer := new Archive(Data, cfg.incremental, 64 * cfg.arcFrames, false);
      arc := buffer;
      body := new RecordBody(buffer.pcfr);
      log := [];
    }

    /** Start with the last record that the client has, extending it if there is room and time is continuous. */
    constructor Preloaded(cfg: Config, c: Call, contingood: bool, ghost x: Record)
      requires 8 <= cfg.arcFrames <= 256 && |c.image| == 64 * cfg.arcFrames
      requires var extend := c.hdr.frames + c.hdr.blockettes - 1 < cfg.arcFrames && contingood;
               extend ==> c.hdr == x.hdr && Layout(c.image, x.blks, x.data) && Shaped(x)
      ensures Valid() && this.cfg == cfg && arc.log == []
      ensures var extend := c.hdr.frames + c.hdr.blockettes - 1 < cfg.arcFrames && contingood;
              Value() == if extend then State(x.(hdr := x.hdr.(seqno := 0)), true, false, false, 0, [])
                         else State(NOTHING, false, false, false, 0, [])
    {
      this.cfg := cfg;
      var buffer := new Archive(Data, cfg.incremental, 64 * cfg.arcFrames, true);
      arc := buffer;
      body := new RecordBody(buffer.pcfr);
      log := [];
      new;
      var fcnt := c.hdr.frames + c.hdr.blockettes - 1;
      var extend := fcnt < cfg.arcFrames && contingood;
      TakeUp(c, if extend then fcnt else 0, extend, x);
    }

    /** Take the client's record up, or not. */
    method TakeUp(c: Call, total: nat, extend: bool, ghost x: Record)
      requires Valid() && Value() == State(NOTHING, false, false, false, 0, []) && arc.preloaded
               && |c.image| == arc.pcfr.Length
      requires extend ==>
                 c.hdr == x.hdr && Layout(c.image, x.blks, x.data) && Shaped(x) && total == x.total <= cfg.arcFrames
      modifies arc`hdr, arc`totalFrames, arc`existing, arc.pcfr, body
      ensures Valid() && Value() == if extend then State(x.(hdr := x.hdr.(seqno := 0)), true, false, false, 0, [])
              else old(Value())
    {
      arc.Preload(c, total, extend);
      if extend {
        body.Remember(x.blks, x.data);
      } else {
        body.Forget();
      }
    }

    /** Flush the record: the client is told about it unless it knows, and it stays or is cleared. */
    method FlushRecord()
      requires Wired() && Ready(Value(), cfg.incremental) && arc.totalFrames <= cfg.arcFrames
      modifies this`log, arc`hdr, arc`totalFrames, arc`appended, arc`existing, arc`leave, arc`log, arc.pcfr, body
      ensures Valid() && Value() == Flush(old(Value()))
    {
      ghost var s := Value();
      ghost var act := ActionFor(arc.existing, arc.appended, arc.leave);
      FlushSane(s, cfg);
      if Worth(s) && act.Some? {
        ShownNext(arc.log, log, Call(act.value, arc.hdr, arc.pcfr[..]), Version(act.value, s.rec));
      }
      arc.Flush();
      log := Flush(s).log;
      if Flush(s).rec == NOTHING {
        body.Forget();
      }
    }

    /** Start a new archive record with the record that arrived. */
    method NewRecord(rec: array<byte>, h: Header)
      requires Valid() && arc.totalFrames == 0 && rec != arc.pcfr && Finished(rec[..], h)
      modifies arc`hdr, arc`totalFrames, arc`appended, arc`existing, arc`leave, arc`recordsWritten, arc.pcfr, body
      ensures Wired() && Value() == Begun(old(Value()), Incoming(rec[..], h), cfg)
    {
      arc.hdr := h.(exponent := cfg.exponent, seqno := arc.recordsWritten + 1);
      arc.recordsWritten := arc.recordsWritten + 1;
      body.Load(rec, h.blockettes - 2, h.frames);
      arc.totalFrames := 1 + h.blockettes - 2 + h.frames;
      arc.appended, arc.existing := true, false;
      if arc.incremental {
        arc.leave := true;
      }
    }

    /** Merge the blockettes and the data that arrived into those in the buffer. */
    method MergeBody(rec: array<byte>, h: Header)
      requires Valid() && arc.totalFrames > 1 && rec != arc.pcfr && Finished(rec[..], h)
      requires arc.totalFrames + h.blockettes - 2 + h.frames <= cfg.arcFrames
      modifies arc.pcfr, body
      ensures Wired() && body.blks == old(MergedBlockettes(body.blks, Incoming(rec[..], h).blks))
      ensures body.data == old(Merged(body.data, Incoming(rec[..], h).data))
    {
      body.MergeRecord(rec, arc.hdr.blockettes - 2, h.blockettes - 2, h.frames, arc.totalFrames);
    }

    /** Merge the record that arrived into the one in the buffer. */
    method MergeIn(rec: array<byte>, h: Header, drate: real)
      requires Valid() && arc.totalFrames > 1 && rec != arc.pcfr && Finished(rec[..], h) && drate != 0.0
      requires arc.totalFrames + h.blockettes - 2 + h.frames <= cfg.arcFrames
      modifies arc`hdr, arc`totalFrames, arc`appended, arc.pcfr, body
      ensures Wired() && Value() == Grown(old(Value()), old(Incoming(rec[..], h)), drate)
    {
      MergeBody(rec, h);
      arc.totalFrames := arc.totalFrames + h.blockettes - 2 + h.frames;
      arc.appended := true;
      arc.hdr := CombineHeaders(arc.hdr, h, drate);
    }

    /** The current record ends here if the record that arrived does not fit or comes after a gap in time. */
    method EndIfApart(h: Header, drate: real)
      requires Valid() && drate == Drate(cfg.rate) && h.blockettes >= 2
      modifies this`log, arc`hdr, arc`totalFrames, arc`appended, arc`existing, arc`leave, arc`log, arc.pcfr, body
      ensures Valid() && Value() == Parted(old(Value()), h, cfg)
    {
      if arc.totalFrames > 1 {
        var tdiff := h.start - (arc.hdr.start + arc.hdr.samples as real / drate);
        if h.blockettes - 2 + h.frames
            + arc.totalFrames > cfg.arcFrames || tdiff > cfg.gapSecs || -tdiff > cfg.gapSecs {
          FlushRecord();
        }
      }
    }

    /** Flush a record that has grown if it is full or if the client wants every version. */
    method FlushIfDue()
      requires Wired() && Ready(Value(), cfg.incremental) && Ready(Value().(leave := cfg.incremental), cfg.incremental)
      requires 0 < arc.totalFrames <= cfg.arcFrames && arc.appended && !arc.leave
      modifies this`log, arc`hdr, arc`totalFrames, arc`appended, arc`existing, arc`leave, arc`log, arc.pcfr, body
      ensures Valid() && Value() == Due(old(Value()), cfg)
    {
      if arc.totalFrames >= cfg.arcFrames {
        FlushRecord();
      } else if arc.incremental {
        arc.leave := true;
        FlushRecord();
      }
    }

    /** Take in a finished record: merge it, or end the record in the buffer and start a new one with it. */
    method StoreRecord(rec: array<byte>, h: Header)
      requires Valid() && rec != arc.pcfr && Finished(rec[..], h)
      modifies this`log, arc`hdr, arc`totalFrames, arc`appended, arc`existing, arc`leave, arc`log, arc`recordsWritten,
               arc.pcfr, body
      ensures Valid() && Value() == Store(old(Value()), old(Incoming(rec[..], h)), cfg)
    {
      if cfg.rate == 0 {
        return;
      }
      var drate := Drate(cfg.rate);
      ghost var s, x := Value(), Incoming(rec[..], h);
      PartedSane(s, x, cfg);
      EndIfApart(h, drate);
      ghost var t := Value();
      if arc.totalFrames > 1 {
        GrownReady(t, x, cfg);
        MergeIn(rec, h, drate);
        FlushIfDue();
      } else {
        BegunReady(t, x, cfg);
        NewRecord(rec, h);
        if arc.incremental {
          FlushRecord();
        }
      }
    }

    /** Flush at the end of the stream. */
    method Close()
      requires Valid()
      modifies this`log, arc`hdr, arc`totalFrames, arc`appended, arc`existing, arc`leave, arc`log, arc.pcfr, body
      ensures Valid() && Value() == Flush(old(Value()))
    {
      FlushRecord();
    }
  }
}
