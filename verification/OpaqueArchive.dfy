/**
 The archive of an opaque channel: groups of blockettes from smaller records are appended to one chain,
 their links relocated, until the record is full, the hour changes or time must be preserved.
 */
module OpaqueArchive {
  import opened Common
  import opened Bytes
  import opened BlocketteChain
  import opened Archive

  /** A time rounded to seconds; halves are rounded away from zero. */
  function Rounded(t: real): int {
    if t >= 0.0 then (t + 0.5).Floor else -(0.5 - t).Floor
  }

  /** The hour a record starts in. Division is towards zero. */
  function Hour(t: real): int {
    var r := Rounded(t);
    if r >= 0 then r / 3600 else -(-r / 3600)
  }

  /** A record with a group of blockettes after its header, ending at `end`. */
  ghost predicate Grouped(s: seq<byte>, h: Header, more: seq<nat>, end: nat)
  {
    && |s| == 512 && Chain(s, more, end) && Group(more, NONDATA_OVERHEAD, end)
    && h.blockettes == |more| + 1 && h.dobNext == NONDATA_OVERHEAD
  }

  /** The link of blockette i leads to the next one. */
  lemma {:induction false} LinkReads(s: seq<byte>, offs: seq<nat>, end: nat, i: nat)
    requires Chain(s, offs, end) && i < |offs|
    ensures 0 < offs[i] && offs[i] + 4 <= |s| && Read16(s, offs[i] + 2) == if i + 1 < |offs| then offs[i + 1] else 0
    ensures i + 1 < |offs| ==> offs[i] < offs[i + 1]
  {
    assert offs[i] + 4 <= Stop(offs, end, i);
    assert LinkOf(Piece(s, offs, end, i)) == Read16(s, offs[i] + 2);
  }

  /** A chain copied to the same place is the same chain. */
  lemma {:induction false} SameChain(r: seq<byte>, more: seq<nat>, end: nat, s: seq<byte>, t: seq<byte>)
    requires Chain(r, more, end) && Group(more, NONDATA_OVERHEAD, end) && end <= |s|
             && t == Splice(s, NONDATA_OVERHEAD, r[NONDATA_OVERHEAD..end])
    ensures Chain(t, more, end) && Bodies(t, more, end, |more|) == Bodies(r, more, end, |more|)
  {
    SamePieces(r, more, end, s, t);
    AlikeBodies(t, more, end, 0, r, more, end, |more|, []);
  }

  lemma {:induction false} SamePieces(r: seq<byte>, more: seq<nat>, end: nat, s: seq<byte>, t: seq<byte>)
    requires Chain(r, more, end) && Group(more, NONDATA_OVERHEAD, end) && end <= |s|
             && t == Splice(s, NONDATA_OVERHEAD, r[NONDATA_OVERHEAD..end])
    ensures forall i :: 0 <= i < |more| ==> Piece(t, more, end, 0 + i) == Piece(r, more, end, i)
    ensures Chain(t, more, end)
  {
    forall i | 0 <= i < |more|
      ensures Piece(t, more, end, 0 + i) == Piece(r, more, end, i)
    {
      MovedSlice(s, NONDATA_OVERHEAD, r, NONDATA_OVERHEAD, end, t, more[i], Stop(more, end, i));
    }
    forall i | 0 <= i < |more|
      ensures LinkOf(Piece(t, more, end, i)) == if i + 1 < |more| then more[i + 1] else 0
    {
      assert Piece(t, more, end, 0 + i) == Piece(r, more, end, i);
    }
  }

  // ------------------------------------------------------- what the archive does

  /**
   A group of blockettes that arrives: the header of its record, their bodies, where it ends, whether time must be
   preserved.
   */
  datatype Arriving = Arriving(hdr: Header, bodies: seq<seq<byte>>, end: nat, preserve: bool)

  /**
   The header in the buffer, where its blockettes end, their bodies, records begun, and the bodies in each record told.
   */
  datatype State = State(hdr: Header, total: nat, held: seq<seq<byte>>, written: nat, told: seq<seq<seq<byte>>>)

  const EMPTY: State := State(NO_HEADER, 0, [], 0, [])

  /** The group starts a new record. */
  predicate StartsAnew(s: State, g: Arriving, size: nat)
  {
    s.total == 0 || g.end - NONDATA_OVERHEAD + s.total > size || g.preserve || Hour(g.hdr.start) != Hour(s.hdr.start)
  }

  /** The client is told about the record in the buffer if its time is possible, and the buffer is cleared. */
  function Flushed(s: State): State {
    s.(hdr := NO_HEADER, total := 0, held := [],
       told := if PossibleTime(s.hdr.start) && s.total != 0 then s.told + [s.held] else s.told)
  }

  function Begun(s: State, g: Arriving, exponent: nat): State {
    s.(hdr := g.hdr.(exponent := exponent, seqno := s.written + 1), total := g.end, held := g.bodies,
       written := s.written + 1)
  }

  function Extended(s: State, g: Arriving): State {
    s.(hdr := s.hdr.(blockettes := s.hdr.blockettes + |g.bodies|),
       total := if s.total + g.end >= NONDATA_OVERHEAD then s.total + g.end - NONDATA_OVERHEAD
           else 0, held := s.held + g.bodies)
  }

  /** A group is taken in. */
  function Stored(s: State, g: Arriving, size: nat, exponent: nat): State {
    if g.bodies == [] then s
    else if StartsAnew(s, g, size) then Begun(Flushed(s), g, exponent)
    else Extended(s, g)
  }

  /** A flush throws blockettes away. */
  predicate Loses(s: State) {
    s.total > 0 && !PossibleTime(s.hdr.start)
  }

  /** All bodies told, one record after the other. */
  function AllTold(told: seq<seq<seq<byte>>>): seq<seq<byte>> {
    if told == [] then [] else AllTold(told[..|told| - 1]) + told[|told| - 1]
  }

  /** Every blockette given is at the client or in the buffer, or groups were discarded. */
  ghost predicate Counted(s: State, given: seq<seq<byte>>, discards: nat)
  {
    Accounted(AllTold(s.told), s.held, given, discards) && (s.total == 0 <==> s.held == [])
  }

  lemma {:induction false} FlushCounted(s: State, given: seq<seq<byte>>, discards: nat)
    requires Counted(s, given, discards)
    ensures Counted(Flushed(s), given, discards + if Loses(s) then 1 else 0)
  {
    AccountFlush(AllTold(s.told), s.held, given, discards);
    assert (s.told + [s.held])[..|s.told|] == s.told;
  }

  lemma {:induction false} BegunCounted(s: State, g: Arriving, exponent: nat, given: seq<seq<byte>>, discards: nat)
    requires Counted(s, given, discards) && s.held == [] && g.bodies != [] && g.end > NONDATA_OVERHEAD
    ensures Counted(Begun(s, g, exponent), given + g.bodies, discards)
  {
    AccountMore(AllTold(s.told), [], given, discards, g.bodies);
    assert [] + g.bodies == g.bodies;
  }

  lemma {:induction false} StoredCounted(s: State, g: Arriving, size: nat, exponent: nat, given: seq<seq<byte>>,
                                         discards: nat)
    requires Counted(s, given, discards) && g.end > NONDATA_OVERHEAD
    ensures Counted(Stored(s, g, size, exponent), given + g.bodies,
                    discards + if g.bodies != [] && StartsAnew(s, g, size) && Loses(s) then 1 else 0)
  {
    if g.bodies == [] {
      assert given + [] == given;
    } else if StartsAnew(s, g, size) {
      FlushCounted(s, given, discards);
      BegunCounted(Flushed(s), g, exponent, given, discards + if Loses(s) then 1 else 0);
    } else {
      AccountMore(AllTold(s.told), s.held, given, discards, g.bodies);
    }
  }

  // --------------------------------------------------------------------- runs

  function Run(gs: seq<Arriving>, size: nat, exponent: nat): State {
    if gs == [] then EMPTY else Stored(Run(gs[..|gs| - 1], size, exponent), gs[|gs| - 1], size, exponent)
  }

  function Given(gs: seq<Arriving>): seq<seq<byte>> {
    if gs == [] then [] else Given(gs[..|gs| - 1]) + gs[|gs| - 1].bodies
  }

  /** Records discarded for an impossible time while groups are taken in. */
  function Discards(gs: seq<Arriving>, size: nat, exponent: nat): nat {
    if gs == [] then 0
    else
      var s, g := Run(gs[..|gs| - 1], size, exponent), gs[|gs| - 1];
      Discards(gs[..|gs| - 1], size, exponent) + if g.bodies != [] && StartsAnew(s, g, size) && Loses(s) then 1 else 0
  }

  ghost predicate AllAfterHeader(gs: seq<Arriving>)
  {
    forall i :: 0 <= i < |gs| ==> gs[i].end > NONDATA_OVERHEAD
  }

  lemma {:induction false} RunCounted(gs: seq<Arriving>, size: nat, exponent: nat)
    requires AllAfterHeader(gs)
    ensures Counted(Run(gs, size, exponent), Given(gs), Discards(gs, size, exponent))
  {
    if gs != [] {
      var n := |gs| - 1;
      RunCounted(gs[..n], size, exponent);
      StoredCounted(Run(gs[..n], size, exponent), gs[n], size, exponent, Given(gs[..n]),
                    Discards(gs[..n], size, exponent));
    }
  }

  /**
   Over every run the client gets exactly the blockettes given, in order and with their contents, if and only if no
   record is discarded for its time, the last one included.
   */
  lemma {:induction false} ClientGetsAllIff(gs: seq<Arriving>, size: nat, exponent: nat)
    requires AllAfterHeader(gs)
    ensures var s := Run(gs, size, exponent);
            AllTold(Flushed(s).told) == Given(gs) <==> Discards(gs, size, exponent) == 0 && !Loses(s)
  {
    RunCounted(gs, size, exponent);
    var s := Run(gs, size, exponent);
    var n := Discards(gs, size, exponent) + if Loses(s) then 1 else 0;
    FlushCounted(s, Given(gs), Discards(gs, size, exponent));
    CompleteIff(AllTold(Flushed(s).told), [], Given(gs), n);
    assert AllTold(Flushed(s).told) + [] == AllTold(Flushed(s).told);
  }

  // ------------------------------------------------------- what the client reads

  /** The blockettes that the client of a call finds by following the links, as many as the header counts. */
  function Found(c: Call): seq<nat> {
    Walk(c.image, c.hdr.dobNext, if c.hdr.blockettes > 0 then c.hdr.blockettes - 1 else 0)
  }

  /** The client of a call finds one chain of blockettes with these bodies. */
  ghost predicate Shows(c: Call, bodies: seq<seq<byte>>)
  {
    exists end: nat :: Chain(c.image, Found(c), end) && Bodies(c.image, Found(c), end, |Found(c)|) == bodies
  }

  ghost predicate Shown(log: seq<Call>, told: seq<seq<seq<byte>>>)
  {
    |told| == |log| && forall i :: 0 <= i < |log| ==> Shows(log[i], told[i])
  }

  lemma {:induction false} ShownNext(log: seq<Call>, told: seq<seq<seq<byte>>>, c: Call, bodies: seq<seq<byte>>)
    requires Shown(log, told) && Shows(c, bodies)
    ensures Shown(log + [c], told + [bodies])
  {
  }

  /** The client finds the blockettes of the chain that it is given. */
  lemma {:induction false} FindsAll(c: Call, offs: seq<nat>, end: nat)
    requires Chain(c.image, offs, end) && c.hdr.dobNext == offs[0] && c.hdr.blockettes == |offs| + 1
    ensures Shows(c, Bodies(c.image, offs, end, |offs|))
  {
    WalkVisits(c.image, offs, end, 0, |offs|);
    var found := Found(c);
    assert found == offs[0..] == offs;
    assert Chain(c.image, found, end) && Bodies(c.image, found, end, |found|) == Bodies(c.image, offs, end, |offs|);
  }

  class OpaqueArchive {
    const arc: Archive
    const arcSize: nat
    const exponent: nat
    ghost var offs: seq<nat>                   // offsets of the blockettes in the buffer
    ghost var told: seq<seq<seq<byte>>>        // bodies of the blockettes in each record the client has got

    ghost predicate Wired()
      reads arc
    {
      && arc.kind == Opaque && 512 <= arcSize < 65536 && arc.pcfr.Length == arcSize
      && Legal(arc.preloaded, arc.log) && !arc.existing && !arc.leave && (arc.appended <==> arc.totalFrames > 0)
      && (arc.totalFrames == 0 ==> arc.hdr == NO_HEADER)
    }

    /** The blockettes in the buffer form one chain, and the header counts them. */
    ghost predicate Sound()
      reads this`offs, arc, arc.pcfr
    {
      && Wired()
      && (arc.totalFrames > 0 ==>
            && Chain(arc.pcfr[..], offs, arc.totalFrames) && offs[0] == NONDATA_OVERHEAD == arc.hdr.dobNext
            && arc.hdr.blockettes == |offs| + 1)
    }

    /** Every record told is one chain of the blockettes it was made of. */
    ghost predicate Valid()
      reads this, arc, arc.pcfr
    {
      Sound() && Shown(arc.log, told)
    }

    /** The bodies of the blockettes in the buffer. */
    ghost function Held(): (bs: seq<seq<byte>>)
      reads this`offs, arc, arc.pcfr
      requires Sound()
    {
      if arc.totalFrames == 0 then [] else Bodies(arc.pcfr[..], offs, arc.totalFrames, |offs|)
    }

    /** The archive as a value. */
    ghost function Value(): State
      reads this, arc, arc.pcfr
      requires Sound()
    {
      State(arc.hdr, arc.totalFrames, Held(), arc.recordsWritten, told)
    }

    constructor (arcSize: nat, exponent: nat)
      requires 512 <= arcSize < 65536
      ensures Valid() && Value() == EMPTY && arc.log == []
    {
      arc := new Archive(Opaque, false, arcSize, false);
      this.arcSize, this.exponent := arcSize, exponent;
      offs, told := [], [];
    }

    /** Give the record to the client, or drop it if its time is impossible. */
    method FlushGroups()
      requires Valid()
      modifies this`told, arc`hdr, arc`totalFrames, arc`appended, arc`existing, arc`leave, arc`log, arc.pcfr
      ensures Valid() && Value() == Flushed(old(Value())) && arc.totalFrames == 0
    {
      ghost var c, s := Call(Arc, arc.hdr, arc.pcfr[..]), Value();
      if arc.Worth() {
        FindsAll(c, offs, arc.totalFrames);
        ShownNext(arc.log, told, c, s.held);
      }
      told := Flushed(s).told;
      arc.Flush();
    }

    /** Start a new record with the group that arrived. */
    method NewGroup(rec: array<byte>, h: Header, end: nat, ghost more: seq<nat>)
      requires Sound() && arc.totalFrames == 0 && rec != arc.pcfr && Grouped(rec[..], h, more, end)
               && end >= NONDATA_OVERHEAD
      modifies this`offs, arc`hdr, arc`totalFrames, arc`appended, arc`existing, arc`recordsWritten, arc.pcfr
      ensures Sound() && arc.totalFrames == end && Held() == Bodies(rec[..], more, end, |more|)
      ensures arc.hdr == h.(exponent := exponent, seqno := old(arc.recordsWritten) + 1)
              && arc.recordsWritten == old(arc.recordsWritten) + 1
    {
      ghost var r, was := rec[..], arc.pcfr[..];
      arc.hdr := h.(exponent := exponent, seqno := arc.recordsWritten + 1);
      arc.recordsWritten := arc.recordsWritten + 1;
      CopyBytes(arc.pcfr, NONDATA_OVERHEAD, rec, NONDATA_OVERHEAD, end - NONDATA_OVERHEAD);
      SameChain(r, more, end, was, arc.pcfr[..]);
      arc.totalFrames := end;
      arc.appended, arc.existing := true, false;
      offs := more;
    }

    /** The address of the last blockette's link, found by following the links. */
    method LastLink() returns (plast: nat)
      requires Sound() && arc.totalFrames > 0
      ensures plast == offs[|offs| - 1] + 2
    {
      var dest: nat := arc.hdr.dobNext;
      plast := 0;
      ghost var i := 0;
      while dest != 0
        invariant i <= |offs| && dest == (if i < |offs| then offs[i] else 0)
        invariant i > 0 ==> plast == offs[i - 1] + 2
        invariant i < |offs| ==> dest > 0
        decreases |offs| - i
      {
        LinkReads(arc.pcfr[..], offs, arc.totalFrames, i);
        plast := dest + 2;
        dest := LoadWord(arc.pcfr, plast);
        i := i + 1;
      }
    }

    /** Copy the group behind the others, link the last of them to it and relocate its links. */
    method ExtendChain(rec: array<byte>, end: nat, bcnt: nat, ghost more: seq<nat>, ghost all: seq<nat>, ghost top: nat,
                       ghost bodies: seq<seq<byte>>)
      requires Sound() && arc.totalFrames > 0 && rec != arc.pcfr && Chain(rec[..], more, end)
               && Group(more, NONDATA_OVERHEAD, end)
      requires all == offs + Shifted(more, NONDATA_OVERHEAD, arc.totalFrames)
               && top == arc.totalFrames + end - NONDATA_OVERHEAD <= arcSize
      requires bcnt == |more| && bodies == Held() + Bodies(rec[..], more, end, |more|)
      modifies arc.pcfr
      ensures Chain(arc.pcfr[..], all, top) && Bodies(arc.pcfr[..], all, top, |all|) == bodies
    {
      var plast := LastLink();
      CopyGroup(rec, end, more, all, top, bodies);
      LinkGroup(rec, plast, arc.totalFrames, bcnt, |offs|, end, more, all, top, bodies);
    }

    /** Link the last of the m blockettes to the group that was copied to `total`, and the group within itself. */
    method LinkGroup(rec: array<byte>, plast: nat, total: nat, bcnt: nat, ghost m: nat, ghost end: nat,
                     ghost more: seq<nat>,
                     ghost all: seq<nat>, ghost top: nat, ghost bodies: seq<seq<byte>>)
      requires rec != arc.pcfr && Chain(rec[..], more, end) && Group(more, NONDATA_OVERHEAD, end) && bcnt == |more|
               && |all| == m + |more| && m > 0
      requires forall i {:trigger more[i]} :: 0 <= i < |more| ==> all[m + i] == more[i] - NONDATA_OVERHEAD + total
      requires Joining(arc.pcfr[..], all, top, m - 1, bodies) && plast == all[m - 1] + 2
               && Stop(all, top, m - 1) <= top && total == all[m]
      modifies arc.pcfr
      ensures Chain(arc.pcfr[..], all, top) && Bodies(arc.pcfr[..], all, top, |all|) == bodies
    {
      Store(plast, total, m - 1, all, top, bodies);
      Relocate(rec, bcnt, more, end, m, total, all, top, bodies);
      JoiningDone(arc.pcfr[..], all, top, bodies);
    }

    method CopyGroup(rec: array<byte>, end: nat, ghost more: seq<nat>, ghost all: seq<nat>, ghost top: nat,
                     ghost bodies: seq<seq<byte>>)
      requires Sound() && arc.totalFrames > 0 && rec != arc.pcfr && Chain(rec[..], more, end)
               && Group(more, NONDATA_OVERHEAD, end)
      requires all == offs + Shifted(more, NONDATA_OVERHEAD, arc.totalFrames)
               && top == arc.totalFrames + end - NONDATA_OVERHEAD <= arcSize
      requires bodies == Held() + Bodies(rec[..], more, end, |more|)
      modifies arc.pcfr
      ensures Joining(arc.pcfr[..], all, top, |offs| - 1, bodies)
      ensures |offs| > 0 && |all| == |offs| + |more| && all[|offs| - 1] == offs[|offs| - 1]
      ensures all[|offs|] == arc.totalFrames && Stop(all, top, |offs| - 1) <= top
      ensures forall i {:trigger more[i]} :: 0 <= i < |more| ==>
              all[|offs| + i] == more[i] - NONDATA_OVERHEAD + arc.totalFrames
    {
      ghost var was := arc.pcfr[..];
      CopyBytes(arc.pcfr, arc.totalFrames, rec, NONDATA_OVERHEAD, end - NONDATA_OVERHEAD);
      JoiningStart(was, offs, arc.totalFrames, rec[..], more, NONDATA_OVERHEAD, end, all, top, arc.pcfr[..]);
    }

    /** Set one link. */
    method Store(at: nat, v: nat, ghost n: nat, ghost all: seq<nat>, ghost top: nat, ghost bodies: seq<seq<byte>>)
      requires Joining(arc.pcfr[..], all, top, n, bodies) && n + 1 < |all| && at == all[n] + 2 && v == all[n + 1]
      requires Stop(all, top, n) <= top
      modifies arc.pcfr
      ensures Joining(arc.pcfr[..], all, top, n + 1, bodies)
    {
      ghost var was := arc.pcfr[..];
      StoreWord(arc.pcfr, at, v);
      JoiningNext(was, all, top, n, bodies, arc.pcfr[..]);
    }

    /** Relocate the links of the group that has been copied to `total`. */
    method Relocate(rec: array<byte>, bcnt: nat, ghost more: seq<nat>, ghost end: nat, ghost m: nat, total: nat,
                    ghost all: seq<nat>, ghost top: nat, ghost bodies: seq<seq<byte>>)
      requires rec != arc.pcfr && Chain(rec[..], more, end) && Group(more, NONDATA_OVERHEAD, end) && bcnt == |more|
               && |all| == m + |more|
      requires forall i {:trigger more[i]} :: 0 <= i < |more| ==> all[m + i] == more[i] - NONDATA_OVERHEAD + total
      requires Joining(arc.pcfr[..], all, top, m, bodies)
      modifies arc.pcfr
      ensures Joining(arc.pcfr[..], all, top, |all| - 1, bodies)
    {
      var src, dest := NONDATA_OVERHEAD, total;
      for i := 1 to bcnt
        invariant Joining(arc.pcfr[..], all, top, m + i - 1, bodies)
        invariant src == more[i - 1] && dest == all[m + i - 1]
      {
        LinkReads(rec[..], more, end, i - 1);
        var next := LoadWord(rec, src + 2);
        assert more[i] == next;
        var offset := next - src;
        Store(dest + 2, dest + offset, m + i - 1, all, top, bodies);
        src := next;
        dest := dest + offset;
      }
    }

    /** Append the group that arrived to the record. */
    method Extend(rec: array<byte>, h: Header, end: nat, ghost more: seq<nat>)
      requires Sound() && arc.totalFrames > 0 && rec != arc.pcfr && Grouped(rec[..], h, more, end)
      requires arc.totalFrames + end - NONDATA_OVERHEAD <= arcSize
      modifies this`offs, arc`hdr, arc`totalFrames, arc`appended, arc.pcfr
      ensures Sound() && arc.totalFrames == old(arc.totalFrames) + end - NONDATA_OVERHEAD
      ensures Held() == old(Held()) + Bodies(rec[..], more, end, |more|)
      ensures arc.hdr == old(arc.hdr).(blockettes := old(arc.hdr.blockettes) + h.blockettes - 1)
    {
      ghost var all, top := offs + Shifted(more, NONDATA_OVERHEAD, arc.totalFrames), arc.totalFrames
          + end - NONDATA_OVERHEAD;
      ExtendChain(rec, end, h.blockettes - 1, more, all, top, Held() + Bodies(rec[..], more, end, |more|));
      arc.totalFrames := arc.totalFrames + end - NONDATA_OVERHEAD;
      arc.hdr := arc.hdr.(blockettes := arc.hdr.blockettes + h.blockettes - 1);
      arc.appended := true;
      offs := all;
    }

    /** The group as it arrives. */
    ghost function Arrival(rec: seq<byte>, h: Header, end: nat, cnpp: bool, more: seq<nat>): Arriving
      requires h.blockettes != 1 ==> Grouped(rec, h, more, end)
    {
      Arriving(h, if h.blockettes == 1 then [] else Bodies(rec, more, end, |more|), end, cnpp)
    }

    /**
     Take in a record's group of blockettes: it joins the record in the buffer unless it does not fit, the hour
     has changed or time must be preserved; then that record goes to the client, or is discarded if its time is
     impossible.
     */
    method StoreOpaque(rec: array<byte>, h: Header, end: nat, cnpp: bool, ghost more: seq<nat>)
      requires Valid() && rec != arc.pcfr && (h.blockettes != 1 ==> Grouped(rec[..], h, more, end))
      modifies this`offs, this`told, arc`hdr, arc`totalFrames, arc`appended, arc`existing, arc`leave,
               arc`log, arc`recordsWritten, arc.pcfr
      ensures Valid() && Value() == Stored(old(Value()), old(Arrival(rec[..], h, end, cnpp, more)), arcSize, exponent)
    {
      if h.blockettes - 1 == 0 {
        return;
      }
      ghost var g := Arrival(rec[..], h, end, cnpp, more);
      SomeBodies(rec[..], h, more, end);
      MakeRoom(h, end, cnpp, g);
      if arc.totalFrames == 0 {
        NewGroup(rec, h, end, more);
      } else {
        Extend(rec, h, end, more);
      }
    }

    /** Flush the record in the buffer if the group does not join it. */
    method MakeRoom(h: Header, end: nat, cnpp: bool, ghost g: Arriving)
      requires Valid() && g.hdr == h && g.end == end && g.preserve == cnpp && end >= NONDATA_OVERHEAD
      modifies this`told, arc`hdr, arc`totalFrames, arc`appended, arc`existing, arc`leave, arc`log, arc.pcfr
      ensures Valid() && (arc.totalFrames > 0 ==> arc.totalFrames + end - NONDATA_OVERHEAD <= arcSize)
      ensures if old(StartsAnew(Value(), g, arcSize)) then arc.totalFrames == 0 && Value() == Flushed(old(Value()))
              else arc.totalFrames > 0 && Value() == old(Value())
    {
      var size := end - NONDATA_OVERHEAD;
      ghost var s := Value();
      if size + arc.totalFrames > arcSize || cnpp {
        FlushGroups();
      }
      if arc.totalFrames > 0 {
        if Hour(h.start) != Hour(arc.hdr.start) {
          FlushGroups();
        }
      }
    }
  }

  lemma {:induction false} SomeBodies(s: seq<byte>, h: Header, more: seq<nat>, end: nat)
    requires Grouped(s, h, more, end)
    ensures Bodies(s, more, end, |more|) != [] && |Bodies(s, more, end, |more|)| == h.blockettes - 1
            && end > NONDATA_OVERHEAD
  {
  }
}
