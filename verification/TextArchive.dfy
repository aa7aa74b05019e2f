/**
 The archive of a message channel: texts that belong to the same minute are put one after the other
 into one record as long as they fit.
 */
module TextArchive {
  import opened Common
  import opened Bytes
  import opened Archive

  /** The text of a record with n bytes of it. */
  function TextOf(s: seq<byte>, n: nat): seq<byte>
    requires NONDATA_OVERHEAD + n <= |s|
  {
    s[NONDATA_OVERHEAD..NONDATA_OVERHEAD + n]
  }

  /** No record has more text than room for it. */
  ghost predicate InBounds(log: seq<Call>) {
    forall i :: 0 <= i < |log| ==> NONDATA_OVERHEAD + log[i].hdr.samples <= |log[i].image|
  }

  /** All text the client has got. */
  ghost function SentText(log: seq<Call>): seq<byte>
    requires InBounds(log)
  {
    if log == [] then []
    else SentText(log[..|log| - 1]) + TextOf(log[|log| - 1].image, log[|log| - 1].hdr.samples)
  }

  lemma {:induction false} SentNext(log: seq<Call>, c: Call)
    requires InBounds(log) && NONDATA_OVERHEAD + c.hdr.samples <= |c.image|
    ensures InBounds(log + [c]) && SentText(log + [c]) == SentText(log) + TextOf(c.image, c.hdr.samples)
  {
    assert (log + [c])[..|log|] == log;
  }

  class TextArchive {
    const arc: Archive
    const arcSize: nat
    const exponent: nat
    ghost var given: seq<byte>           // all text taken in
    ghost var discards: nat              // records thrown away for an impossible time

    ghost predicate Sound()
      reads this, arc
    {
      && arc.kind == Message && 512 <= arcSize && arc.pcfr.Length == arcSize
      && Legal(arc.preloaded, arc.log) && !arc.existing && !arc.leave && (arc.appended <==> arc.hdr.samples > 0)
      && NONDATA_OVERHEAD + arc.hdr.samples <= arcSize && InBounds(arc.log)
    }

    /** The text in the buffer. */
    ghost function Text(): (t: seq<byte>)
      reads this, arc, arc.pcfr
      requires Sound()
    {
      TextOf(arc.pcfr[..], arc.hdr.samples)
    }

    /** What the client has, followed by what is in the buffer, is all text taken in unless a record was discarded. */
    ghost predicate Valid()
      reads this, arc, arc.pcfr
    {
      Sound() && Accounted(SentText(arc.log), Text(), given, discards)
    }

    constructor (arcSize: nat, exponent: nat)
      requires 512 <= arcSize
      ensures Valid() && given == [] && discards == 0 && arc.log == []
    {
      arc := new Archive(Message, false, arcSize, false);
      this.arcSize, this.exponent := arcSize, exponent;
      given, discards := [], 0;
    }

    /** The calls of the client after a flush. */
    ghost function Flushed(): (log: seq<Call>)
      reads this, arc, arc.pcfr
    {
      if arc.Worth() then arc.log + [Call(Arc, arc.hdr, arc.pcfr[..])] else arc.log
    }

    /** Whether a flush discards the text in the buffer. */
    ghost predicate Discards()
      reads this, arc
    {
      arc.hdr.samples > 0 && !PossibleTime(arc.hdr.start)
    }

    /** Give the record to the client, or drop it if its time is impossible. */
    method FlushText()
      requires Valid()
      modifies this`discards, arc`hdr, arc`totalFrames, arc`appended, arc`existing, arc`leave, arc`log, arc.pcfr
      ensures Valid() && arc.hdr == NO_HEADER && arc.log == old(Flushed())
      ensures discards == old(discards) + if old(Discards()) then 1 else 0
    {
      ghost var worth, cur, image := arc.Worth(), Text(), arc.pcfr[..];
      SentNext(arc.log, Call(Arc, arc.hdr, image));
      AccountFlush(SentText(arc.log), cur, given, discards);
      if Discards() {
        discards := discards + 1;
      }
      arc.Flush();
      assert Text() == [];
    }

    /** Put the text that arrived after the text in the buffer, in a new record if there is none. */
    method AddText(rec: array<byte>, h: Header)
      requires Valid() && rec != arc.pcfr && 0 < h.samples && NONDATA_OVERHEAD + h.samples <= rec.Length
               && NONDATA_OVERHEAD + h.samples + arc.hdr.samples <= arcSize
      modifies this`given, arc`hdr, arc`appended, arc`existing, arc`recordsWritten, arc.pcfr
      ensures Valid() && given == old(given) + TextOf(rec[..], h.samples)
              && Text() == old(Text()) + TextOf(rec[..], h.samples)
      ensures arc.hdr == if old(arc.hdr.samples) > 0 then old(arc.hdr).(samples := old(arc.hdr.samples) + h.samples)
                         else h.(exponent := exponent, seqno := old(arc.recordsWritten) + 1)
    {
      if arc.hdr.samples == 0 {
        BeginText(h);
      }
      CopyText(rec, h.samples);
    }

    /** Start a record for the text that arrived. */
    method BeginText(h: Header)
      requires Valid() && arc.hdr.samples == 0
      modifies arc`hdr, arc`appended, arc`existing, arc`recordsWritten
      ensures Valid() && arc.hdr == h.(exponent := exponent, samples := 0, seqno := old(arc.recordsWritten) + 1)
      ensures Text() == old(Text())
    {
      arc.hdr := h.(exponent := exponent, samples := 0, seqno := arc.recordsWritten + 1);
      arc.recordsWritten := arc.recordsWritten + 1;
      arc.appended, arc.existing := false, false;
    }

    /** Put n bytes of text behind those in the record. */
    method CopyText(rec: array<byte>, n: nat)
      requires Valid() && rec != arc.pcfr && 0 < n && NONDATA_OVERHEAD + n <= rec.Length
               && NONDATA_OVERHEAD + n + arc.hdr.samples <= arcSize
      modifies this`given, arc`hdr, arc`appended, arc.pcfr
      ensures Valid() && given == old(given) + TextOf(rec[..], n) && Text() == old(Text()) + TextOf(rec[..], n)
      ensures arc.hdr == old(arc.hdr).(samples := old(arc.hdr.samples) + n)
    {
      ghost var was, cur, text := arc.pcfr[..], Text(), TextOf(rec[..], n);
      AccountMore(SentText(arc.log), cur, given, discards, text);
      var pdest := NONDATA_OVERHEAD + arc.hdr.samples;
      CopyBytes(arc.pcfr, pdest, rec, NONDATA_OVERHEAD, n);
      SpliceAfter(was, pdest, text, NONDATA_OVERHEAD);
      arc.hdr := arc.hdr.(samples := arc.hdr.samples + n);
      arc.appended := true;
      given := given + text;
    }

    /**
     Take in a text. It joins the record in the buffer if it fits and comes within a minute of that record's start;
     otherwise that record goes to the client, or is discarded if its time is impossible.
     */
    method StoreText(rec: array<byte>, h: Header)
      requires Valid() && rec != arc.pcfr && rec.Length == 512 && NONDATA_OVERHEAD + h.samples <= 512
      modifies this`given, this`discards, arc`hdr, arc`totalFrames, arc`appended, arc`existing, arc`leave, arc`log,
               arc`recordsWritten, arc.pcfr
      ensures Valid() && given == old(given) + TextOf(rec[..], h.samples)
      ensures var a := old(arc.hdr);
              if h.samples == 0 then arc.log == old(arc.log) && arc.hdr == a && Text() == old(Text())
              else if a.samples > 0 && 56 + a.samples + h.samples <= arcSize && h.start <= a.start + 60.0 then
                && arc.log == old(arc.log) && Text() == old(Text()) + TextOf(rec[..], h.samples)
                && arc.hdr == a.(samples := a.samples + h.samples)
              else
                && arc.log == old(Flushed()) && Text() == TextOf(rec[..], h.samples)
                && arc.hdr == h.(exponent := exponent, seqno := old(arc.recordsWritten) + 1)
      ensures var a := old(arc.hdr);
              var joins := a.samples > 0 && 56 + a.samples + h.samples <= arcSize && h.start <= a.start + 60.0;
              discards == old(discards) + if h.samples > 0 && !joins && old(Discards()) then 1 else 0
    {
      if h.samples == 0 {
        NoText(rec[..], []);
        assert given + [] == given;
        return;
      }
      StoreSome(rec, h);
    }

    /** Take in a text that is not empty. */
    method StoreSome(rec: array<byte>, h: Header)
      requires Valid() && rec != arc.pcfr && rec.Length == 512 && 56 + h.samples <= 512 && h.samples > 0
      modifies this`given, this`discards, arc`hdr, arc`totalFrames, arc`appended, arc`existing, arc`leave, arc`log,
               arc`recordsWritten, arc.pcfr
      ensures Valid() && given == old(given) + TextOf(rec[..], h.samples)
      ensures var a := old(arc.hdr);
              if a.samples > 0 && 56 + a.samples + h.samples <= arcSize && h.start <= a.start + 60.0 then
                && arc.log == old(arc.log) && Text() == old(Text()) + TextOf(rec[..], h.samples)
                && arc.hdr == a.(samples := a.samples + h.samples) && discards == old(discards)
              else
                && arc.log == old(Flushed()) && Text() == TextOf(rec[..], h.samples)
                && arc.hdr == h.(exponent := exponent, seqno := old(arc.recordsWritten) + 1)
                && discards == old(discards) + if old(Discards()) then 1 else 0
    {
      MakeRoom(h);
      NoText(arc.pcfr[..], TextOf(rec[..], h.samples));
      AddText(rec, h);
    }

    /** The record in the buffer ends if a text does not fit into it or comes more than a minute after its start. */
    method MakeRoom(h: Header)
      requires Valid() && h.samples > 0
      modifies this`discards, arc`hdr, arc`totalFrames, arc`appended, arc`existing, arc`leave, arc`log, arc.pcfr
      ensures Valid() && (56 + h.samples <= 512 ==> 56 + arc.hdr.samples + h.samples <= arcSize)
      ensures var a := old(arc.hdr);
              if a.samples > 0 && 56 + a.samples + h.samples <= arcSize && h.start <= a.start + 60.0 then
                arc.log == old(arc.log) && Text() == old(Text()) && arc.hdr == a && discards == old(discards)
              else
                && arc.log == old(Flushed()) && arc.hdr.samples == 0
                && discards == old(discards) + if old(Discards()) then 1 else 0
    {
      if h.samples + arc.hdr.samples > arcSize - NONDATA_OVERHEAD || h.start > arc.hdr.start + 60.0 {
        FlushText();
      }
    }
  }

  lemma {:induction false} NoText(s: seq<byte>, t: seq<byte>)
    requires NONDATA_OVERHEAD <= |s|
    ensures TextOf(s, 0) == [] && TextOf(s, 0) + t == t
  {
  }
}
