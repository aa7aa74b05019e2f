/**
 Archive records: several 512-byte records of a channel collected into one larger record, and the
 actions by which a client is told about it.
 */
module Archive {
  import opened Common
  import opened Bytes

  const JAN_1_2006: real := 189388800.0
  const MAX_DATE: real := 2147418112.0
  const NONDATA_OVERHEAD: nat := 56  // bytes of a record before its text or its blockettes

  datatype Kind = Data | Message | Opaque

  /** The header fields of a record that change while it is collected. */
  datatype Header = Header(start: real, samples: nat, blockettes: nat, firstDataByte: nat, frames: nat, qual: nat,
                           dobNext: nat, debNext: nat, marks: Marks, seqno: nat, exponent: nat)

  /** The three flag bytes of a header. */
  datatype Marks = Marks(activity: bv8, quality: bv8, io: bv8)

  const NO_HEADER: Header := Header(0.0, 0, 0, 0, 0, 0, 0, 0, Marks(0, 0, 0), 0, 0)

  /** A complete record at once; or the first version of one, later versions, and the last one. */
  datatype Action = Arc | First | Inc | Final

  /** One call of the client: the header and the whole record. */
  datatype Call = Call(action: Action, hdr: Header, image: seq<byte>)

  predicate PossibleTime(t: real) {
    JAN_1_2006 <= t <= MAX_DATE
  }

  /** Which action a flush takes, if any. */
  function ActionFor(existing: bool, appended: bool, leave: bool): Option<Action> {
    if existing then (if !appended then None else Some(if leave then Inc else Final))
    else Some(if leave then First else Arc)
  }

  /** The client has an unfinished version of the record being collected. */
  predicate OpenAfter(preloaded: bool, log: seq<Call>) {
    if log == [] then preloaded else log[|log| - 1].action == First || log[|log| - 1].action == Inc
  }

  /** Every later version follows the first or a later version of the same record. */
  predicate Legal(preloaded: bool, log: seq<Call>) {
    forall i :: 0 <= i < |log| && (log[i].action == Inc || log[i].action == Final) ==> OpenAfter(preloaded, log[..i])
  }

  /**
   What the client has, then what is in the buffer, is all that was taken in; or something was discarded,
   and then it is less.
   */
  ghost predicate Accounted<T>(sent: seq<T>, cur: seq<T>, given: seq<T>, discards: nat) {
    if discards == 0 then sent + cur == given else |sent| + |cur| < |given|
  }

  lemma {:induction false} AccountFlush<T>(sent: seq<T>, cur: seq<T>, given: seq<T>, discards: nat)
    requires Accounted(sent, cur, given, discards)
    ensures Accounted(sent + cur, [], given, discards)
    ensures Accounted(sent, [], given, discards + if cur == [] then 0 else 1)
  {
    assert sent + cur + [] == sent + cur;
  }

  lemma {:induction false} AccountMore<T>(sent: seq<T>, cur: seq<T>, given: seq<T>, discards: nat, more: seq<T>)
    requires Accounted(sent, cur, given, discards)
    ensures Accounted(sent, cur + more, given + more, discards)
  {
    ConcatAssoc(sent, cur, more);
  }

  /** Everything taken in is at the client or in the buffer if and only if nothing was discarded. */
  lemma {:induction false} CompleteIff<T>(sent: seq<T>, cur: seq<T>, given: seq<T>, discards: nat)
    requires Accounted(sent, cur, given, discards)
    ensures sent + cur == given <==> discards == 0
  {
    assert |sent + cur| == |sent| + |cur|;
  }

  lemma {:induction false} LegalNext(preloaded: bool, log: seq<Call>, c: Call)
    requires Legal(preloaded, log) && (c.action == Inc || c.action == Final ==> OpenAfter(preloaded, log))
    ensures Legal(preloaded, log + [c])
  {
    forall i | 0 <= i < |log| + 1 && ((log + [c])[i].action == Inc || (log + [c])[i].action == Final)
      ensures OpenAfter(preloaded, (log + [c])[..i])
    {
      assert (log + [c])[..i] == log[..i];
      assert log[..|log|] == log;
    }
  }

  /** The calls about one record: each trace starts at an Arc or First action, apart from the very first. */
  function Traces(log: seq<Call>): (ts: seq<seq<Call>>)
  {
    if log == [] then []
    else
      var ts, c := Traces(log[..|log| - 1]), log[|log| - 1];
      if c.action == Arc || c.action == First || ts == [] then ts + [[c]]
      else ts[..|ts| - 1] + [ts[|ts| - 1] + [c]]
  }

  function Joined(ts: seq<seq<Call>>): seq<Call> {
    if ts == [] then [] else Joined(ts[..|ts| - 1]) + ts[|ts| - 1]
  }

  /** A trace whose last action lets another version follow. */
  predicate Open(t: seq<Call>) {
    t != [] && (t[|t| - 1].action == First || t[|t| - 1].action == Inc)
  }

  /**
   One record's actions: a single Arc; or First, any number of Inc and at most one Final; or, for a
   record loaded from the client at the start, any number of Inc and at most one Final.
   */
  predicate OneRecord(t: seq<Call>, loaded: bool) {
    && t != []
    && (t[0].action == Arc ==> |t| == 1)
    && (t[0].action == Inc || t[0].action == Final ==> loaded)
    && (forall i :: 0 < i < |t| ==> t[i].action == Inc || t[i].action == Final)
    && (forall i :: 0 <= i < |t| - 1 ==> t[i].action == First || t[i].action == Inc)
  }

  ghost predicate AllRecords(ts: seq<seq<Call>>, preloaded: bool) {
    forall i :: 0 <= i < |ts| ==> OneRecord(ts[i], preloaded && i == 0)
  }

  /** ts cuts the log into traces of single records, nothing left out and nothing in between. */
  ghost predicate Cuts(preloaded: bool, log: seq<Call>, ts: seq<seq<Call>>) {
    && Joined(ts) == log && AllRecords(ts, preloaded)
    && (log != [] ==> ts != [] && (OpenAfter(preloaded, log) <==> Open(ts[|ts| - 1])))
  }

  /** Every legal log is a sequence of traces of single records. */
  lemma {:induction false} LegalTraces(preloaded: bool, log: seq<Call>)
    requires Legal(preloaded, log)
    ensures Cuts(preloaded, log, Traces(log))
  {
    if log != [] {
      var front, c := log[..|log| - 1], log[|log| - 1];
      LegalFront(preloaded, log);
      LegalTraces(preloaded, front);
      TraceStep(preloaded, front, c, Traces(front), Traces(log));
      SplitLast(log);
    }
  }

  lemma {:induction false} TraceStep(preloaded: bool, front: seq<Call>, c: Call, ts: seq<seq<Call>>, us: seq<seq<Call>>)
    requires Cuts(preloaded, front, ts) && (c.action == Inc || c.action == Final ==> OpenAfter(preloaded, front))
    requires us == if c.action == Arc || c.action == First || ts == [] then ts + [[c]]
                   else ts[..|ts| - 1] + [ts[|ts| - 1] + [c]]
    ensures Cuts(preloaded, front + [c], us)
  {
    if c.action == Arc || c.action == First || ts == [] {
      assert us[..|ts|] == ts;
      AddTrace(ts, c, preloaded);
    } else {
      ExtendTrace(ts, c, preloaded, us);
    }
  }

  lemma {:induction false} LegalFront(preloaded: bool, log: seq<Call>)
    requires Legal(preloaded, log) && log != []
    ensures var front, c := log[..|log| - 1], log[|log| - 1];
            Legal(preloaded, front) && (c.action == Inc || c.action == Final ==> OpenAfter(preloaded, front))
  {
    var front := log[..|log| - 1];
    forall i | 0 <= i < |front| && (front[i].action == Inc || front[i].action == Final)
      ensures OpenAfter(preloaded, front[..i])
    {
      assert front[..i] == log[..i];
    }
  }

  lemma {:induction false} AddTrace(ts: seq<seq<Call>>, c: Call, preloaded: bool)
    requires AllRecords(ts, preloaded) && (c.action == Inc || c.action == Final ==> ts == [] && preloaded)
    ensures AllRecords(ts + [[c]], preloaded)
  {
  }

  lemma {:induction false} ExtendTrace(ts: seq<seq<Call>>, c: Call, preloaded: bool, us: seq<seq<Call>>)
    requires AllRecords(ts, preloaded) && ts != [] && (c.action == Inc || c.action == Final) && Open(ts[|ts| - 1])
    requires us == ts[..|ts| - 1] + [ts[|ts| - 1] + [c]]
    ensures AllRecords(us, preloaded) && Joined(us) == Joined(ts) + [c]
  {
    var n := |ts| - 1;
    assert us[..n] == ts[..n] && us[n] == ts[n] + [c];
    ConcatAssoc(Joined(ts[..n]), ts[n], [c]);
    forall i | 0 <= i < |us|
      ensures OneRecord(us[i], preloaded && i == 0)
    {
      assert OneRecord(ts[i], preloaded && i == 0);
    }
  }

  class Archive {
    const kind: Kind
    const incremental: bool
    const pcfr: array<byte>
    var hdr: Header
    var totalFrames: nat
    var appended: bool
    var existing: bool
    var leave: bool                    // keep the record in the buffer after the next flush
    var recordsWritten: nat
    var log: seq<Call>                 // calls of the client
    ghost const preloaded: bool

    /** The flags are set for the next flush only when it has to keep the record. */
    ghost predicate Quiet()
      reads this
    {
      && Legal(preloaded, log) && (existing ==> OpenAfter(preloaded, log))
      && (leave ==> incremental && totalFrames == 0)
    }

    constructor (kind: Kind, incremental: bool, size: nat, ghost preloaded: bool)
      ensures Quiet() && log == [] && totalFrames == 0 && hdr == NO_HEADER && !existing && !appended && !leave
              && recordsWritten == 0
      ensures this.kind == kind && this.incremental == incremental && this.preloaded == preloaded
      ensures pcfr.Length == size && fresh(pcfr)
    {
      this.kind, this.incremental := kind, incremental;
      pcfr := new byte[size](_ => 0);
      hdr, totalFrames, appended, existing, leave, recordsWritten, log := NO_HEADER, 0, false, false, false, 0, [];
      this.preloaded := preloaded;
    }

    /** The client hands back the last record it has; it is extended if the caller says so. */
    method Preload(c: Call, total: nat, extend: bool)
      requires Legal(preloaded, log) && log == [] && !existing && |c.image| == pcfr.Length && totalFrames == 0
               && hdr == NO_HEADER
      modifies this`hdr, this`totalFrames, this`existing, pcfr
      ensures existing == extend && totalFrames == (if extend then total else 0)
      ensures extend ==> pcfr[..] == c.image && hdr == c.hdr.(seqno := recordsWritten)
      ensures !extend ==> hdr == NO_HEADER
    {
      forall i | 0 <= i < pcfr.Length {
        pcfr[i] := c.image[i];
      }
      assert pcfr[..] == c.image;
      if extend {
        hdr := c.hdr.(seqno := recordsWritten);
        existing := true;
        totalFrames := total;
      } else {
        ZeroBytes(pcfr);
      }
    }

    method Clear()
      modifies this`appended, this`existing, this`totalFrames, this`hdr, pcfr
      ensures !appended && !existing && totalFrames == 0 && hdr == NO_HEADER && pcfr[..] == seq(pcfr.Length, _ => 0)
    {
      appended, existing, totalFrames, hdr := false, false, 0, NO_HEADER;
      ZeroBytes(pcfr);
    }

    /** There is something in the buffer, at a possible time. */
    ghost predicate Worth()
      reads this
    {
      PossibleTime(hdr.start) && (if kind == Message then hdr.samples != 0 else totalFrames != 0)
    }

    /** Tell the client about the record in the buffer and start over, or keep it if `leave` is set. */
    method Flush()
      requires Legal(preloaded, log) && (existing ==> OpenAfter(preloaded, log))
      modifies this`hdr, this`totalFrames, this`appended, this`existing, this`leave, this`log, pcfr
      ensures Legal(preloaded, log) && (existing ==> OpenAfter(preloaded, log)) && !appended
      ensures var act := ActionFor(old(existing), old(appended), old(leave));
              log == if old(Worth()) && act.Some? then old(log) + [Call(act.value, old(hdr), old(pcfr[..]))]
                  else old(log)
      ensures leave == (old(leave) && !old(Worth()))
      ensures if old(Worth()) && old(leave) && (old(existing) ==> old(appended))
              then existing && hdr == old(hdr) && totalFrames == old(totalFrames) && pcfr[..] == old(pcfr[..])
              else !existing && hdr == NO_HEADER && totalFrames == 0 && pcfr[..] == seq(pcfr.Length, _ => 0)
    {
      if hdr.start < JAN_1_2006 || hdr.start > MAX_DATE {
        Clear();
        return;
      }
      if (kind == Message && hdr.samples == 0) || (kind != Message && totalFrames == 0) {
        Clear();
        return;
      }
      var action;
      if existing {
        if appended {
          action := if leave then Inc else Final;
        } else {
          leave := false;
          Clear();
          return;
        }
      } else {
        action := if leave then First else Arc;
      }
      Send(action);
      if leave {
        existing := true;
      } else {
        Clear();
      }
      leave := false;
      appended := false;
    }

    method Send(action: Action)
      requires Legal(preloaded, log) && (action == Inc || action == Final ==> OpenAfter(preloaded, log))
      modifies this`log
      ensures log == old(log) + [Call(action, hdr, pcfr[..])] && Legal(preloaded, log)
      ensures action == First || action == Inc ==> OpenAfter(preloaded, log)
    {
      LegalNext(preloaded, log, Call(action, hdr, pcfr[..]));
      log := log + [Call(action, hdr, pcfr[..])];
    }
  }
}
