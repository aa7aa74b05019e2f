/**
 Which groups of blockettes come into one record of an opaque channel, said by their times and sizes: over every run
 the groups are cut into records in just one way.
 */
module OpaqueOutcome {
  import opened Common
  import opened Archive
  import opened OpaqueArchive

  /** Time t is in hour h, in which no second but the last one is rounded to another hour; hour 0 has two hours. */
  predicate InHour(t: real, h: int) {
    var s := 3600.0 * h as real;
    if h > 0 then s - 0.5 <= t < s + 3599.5 else if h == 0 then -3599.5 < t < 3599.5 else s - 3599.5 < t <= s + 0.5
  }

  ghost predicate SameHour(a: real, b: real) {
    exists h: int :: InHour(a, h) && InHour(b, h)
  }

  /** The bytes of groups of blockettes. */
  function Bytes(gs: seq<Arriving>): int {
    if gs == [] then 0 else Bytes(gs[..|gs| - 1]) + gs[|gs| - 1].end - 56
  }

  function BodiesOf(gs: seq<Arriving>): seq<seq<byte>> {
    if gs == [] then [] else BodiesOf(gs[..|gs| - 1]) + gs[|gs| - 1].bodies
  }

  /** Group g may come into the record with groups gs: of the same hour, all fit, and its time needs no record. */
  ghost predicate MayJoin(gs: seq<Arriving>, g: Arriving, size: nat) {
    gs != [] && SameHour(gs[0].hdr.start, g.hdr.start) && 56 + Bytes(gs) + g.end - 56 <= size && !g.preserve
  }

  /** The groups of each record: a group joins the last one whenever it may. Groups without blockettes do not count. */
  ghost function Cut(gs: seq<Arriving>, size: nat): seq<seq<Arriving>> {
    if gs == [] then []
    else
      var cs, g := Cut(gs[..|gs| - 1], size), gs[|gs| - 1];
      if g.bodies == [] then cs
      else if cs != [] && MayJoin(cs[|cs| - 1], g, size) then cs[..|cs| - 1] + [cs[|cs| - 1] + [g]]
      else cs + [[g]]
  }

  /** The bodies of each record of groups whose first one has a possible time. */
  function Delivered(cs: seq<seq<Arriving>>): seq<seq<seq<byte>>> {
    if cs == [] then []
    else
      var c := cs[|cs| - 1];
      Delivered(cs[..|cs| - 1]) + if c != [] && PossibleTime(c[0].hdr.start) then [BodiesOf(c)] else []
  }

  /** Hours are as they should be. */
  lemma {:induction false} InHourIff(t: real, h: int)
    ensures InHour(t, h) <==> Hour(t) == h
  {
    var r := Rounded(t);
    assert t >= 0.0 ==> r as real - 0.5 <= t < r as real + 0.5;
    assert t < 0.0 ==> r as real - 0.5 < t <= r as real + 0.5;
  }

  lemma {:induction false} SameHourIff(a: real, b: real)
    ensures SameHour(a, b) <==> Hour(a) == Hour(b)
  {
    InHourIff(a, Hour(a));
    InHourIff(b, Hour(a));
    if SameHour(a, b) {
      var h :| InHour(a, h) && InHour(b, h);
      InHourIff(a, h);
      InHourIff(b, h);
    }
  }

  /** The archive holds the groups gs and has told the records before. */
  ghost predicate Holds(s: State, cs: seq<seq<Arriving>>, exponent: nat) {
    if cs == [] then s == EMPTY
    else
      var c := cs[|cs| - 1];
      && c != [] && s.total == 56 + Bytes(c) && s.total > 56 && s.held == BodiesOf(c) && s.written == |cs|
      && s.hdr == c[0].hdr.(blockettes := s.hdr.blockettes, exponent := exponent, seqno := |cs|)
      && s.hdr.blockettes - c[0].hdr.blockettes == |BodiesOf(c)| - |c[0].bodies|
      && s.told == Delivered(cs[..|cs| - 1])
  }

  /**
   Over every run: the groups are cut into records as they may join; all records but the last one have been told, if
   their times are possible, and the last one is in the buffer. In each record all groups start in the same hour.
   */
  lemma {:induction false} RunCuts(gs: seq<Arriving>, size: nat, exponent: nat)
    requires AllAfterHeader(gs)
    ensures Holds(Run(gs, size, exponent), Cut(gs, size), exponent)
  {
    if gs != [] {
      var n := |gs| - 1;
      RunCuts(gs[..n], size, exponent);
      StoredCuts(Run(gs[..n], size, exponent), Cut(gs[..n], size), gs[n], size, exponent, Cut(gs, size));
    }
  }

  lemma {:induction false} StoredCuts(s: State, cs: seq<seq<Arriving>>, g: Arriving, size: nat, exponent: nat,
                                      cs': seq<seq<Arriving>>)
    requires Holds(s, cs, exponent) && g.end > NONDATA_OVERHEAD
    requires cs' == if g.bodies == [] then cs
                    else if cs != [] && MayJoin(cs[|cs| - 1], g, size) then cs[..|cs| - 1] + [cs[|cs| - 1] + [g]]
                    else cs + [[g]]
    ensures Holds(Stored(s, g, size, exponent), cs', exponent)
  {
    if g.bodies != [] {
      if cs != [] {
        SameHourIff(cs[|cs| - 1][0].hdr.start, g.hdr.start);
        assert StartsAnew(s, g, size) <==> !MayJoin(cs[|cs| - 1], g, size);
      }
      if cs != [] && MayJoin(cs[|cs| - 1], g, size) {
        GroupJoins(s, cs, g, exponent, cs');
      } else {
        GroupBegins(s, cs, g, exponent, cs');
      }
    }
  }

  lemma {:induction false} GroupJoins(s: State, cs: seq<seq<Arriving>>, g: Arriving, exponent: nat,
                                      cs': seq<seq<Arriving>>)
    requires Holds(s, cs, exponent) && g.end > NONDATA_OVERHEAD && cs != []
    requires cs' == cs[..|cs| - 1] + [cs[|cs| - 1] + [g]]
    ensures Holds(Extended(s, g), cs', exponent)
  {
    var c := cs[|cs| - 1];
    assert (c + [g])[..|c|] == c && cs'[..|cs| - 1] == cs[..|cs| - 1];
  }

  lemma {:induction false} GroupBegins(s: State, cs: seq<seq<Arriving>>, g: Arriving, exponent: nat,
                                       cs': seq<seq<Arriving>>)
    requires Holds(s, cs, exponent) && g.end > NONDATA_OVERHEAD && cs' == cs + [[g]]
    ensures Holds(Begun(Flushed(s), g, exponent), cs', exponent)
  {
    assert cs'[..|cs|] == cs && [g][..0] == [] && [] + g.bodies == g.bodies;
    if cs == [] {
      assert Delivered([]) == [];
    } else {
      assert s.told + [] == s.told;
    }
  }

  ghost predicate AllIn(c: seq<Arriving>, h: int) {
    forall i :: 0 <= i < |c| ==> InHour(c[i].hdr.start, h)
  }

  /** All groups of one record start in the same hour, as many as there is room for, and only the first has its time. */
  ghost predicate OneHour(c: seq<Arriving>, size: nat) {
    && c != [] && (exists h: int :: AllIn(c, h))
    && (|c| > 1 ==> 56 + Bytes(c) <= size) && forall i :: 1 <= i < |c| ==> !c[i].preserve
  }

  lemma {:induction false} CutHours(gs: seq<Arriving>, size: nat)
    ensures forall i :: 0 <= i < |Cut(gs, size)| ==> OneHour(Cut(gs, size)[i], size)
  {
    if gs != [] {
      CutHours(gs[..|gs| - 1], size);
      var cs, g := Cut(gs[..|gs| - 1], size), gs[|gs| - 1];
      InHourIff(g.hdr.start, Hour(g.hdr.start));
      if cs != [] && MayJoin(cs[|cs| - 1], g, size) {
        HourJoins(cs[|cs| - 1], g, size);
      } else {
        assert AllIn([g], Hour(g.hdr.start));
        assert OneHour([g], size);
      }
    }
  }

  lemma {:induction false} HourJoins(c: seq<Arriving>, g: Arriving, size: nat)
    requires OneHour(c, size) && MayJoin(c, g, size)
    ensures OneHour(c + [g], size)
  {
    var h: int :| AllIn(c, h);
    SameHourIff(c[0].hdr.start, g.hdr.start);
    InHourIff(c[0].hdr.start, h);
    InHourIff(g.hdr.start, h);
    assert AllIn(c + [g], h);
    assert (c + [g])[..|c|] == c;
  }
}
