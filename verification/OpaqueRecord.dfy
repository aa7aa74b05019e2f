/**
 SEED records made of opaque blockettes, as the falcon program writes them, and how a reader gets
 the messages back: it follows the links of each record and joins the pieces of a message that takes
 more than one record.
 */
module OpaqueRecord {
  import opened Common
  import opened BlocketteChain

  const FIRST_IN_SERIES: byte := 0x10
  const MIDDLE_OF_SERIES: byte := 0x30
  const LAST_IN_SERIES: byte := 0x20
  const SELF_CONTAINED: byte := 0x00

  // ------------------------------------------------------------------ reading

  /** The contents of one opaque blockette and the channel of its record. */
  datatype Fragment = Fragment(channel: seq<byte>, flags: byte, payload: seq<byte>)

  datatype Message = Message(channel: seq<byte>, payload: seq<byte>)

  /** Messages that are complete, and what has come of a message that is not. */
  datatype Assembly = Assembly(complete: seq<Message>, open: seq<byte>)

  /** The channel name in a record's header. */
  function Channel(rec: seq<byte>): seq<byte> {
    if |rec| < 18 then [] else rec[15..18]
  }

  /** An opaque blockette at `at` whose contents end at or before `stop`. */
  predicate IsOpaque(rec: seq<byte>, at: nat, stop: nat)
  {
    && at + 15 <= stop <= |rec| && Read16(rec, at) == 2000
    && 15 <= Read16(rec, at + 6) <= Read16(rec, at + 4) && at + Read16(rec, at + 4) <= stop
  }

  function Contents(rec: seq<byte>, at: nat): Fragment
    requires IsOpaque(rec, at, |rec|)
  {
    Fragment(Channel(rec), rec[at + 13], rec[at + Read16(rec, at + 6)..at + Read16(rec, at + 4)])
  }

  /** The opaque blockettes among those at the given offsets. */
  function Opaques(rec: seq<byte>, offs: seq<nat>): seq<Fragment>
    requires |rec| >= 18
  {
    if offs == [] then []
    else Opaques(rec, offs[..|offs| - 1])
         + (if IsOpaque(rec, offs[|offs| - 1], |rec|) then [Contents(rec, offs[|offs| - 1])] else [])
  }

  /** Follow the links of a record from its first blockette, as many as its header counts. */
  function ReadRecord(rec: seq<byte>): seq<Fragment>
  {
    if |rec| < 48 then [] else Opaques(rec, Walk(rec, Read16(rec, 46), rec[39]))
  }

  function ReadAll(recs: seq<seq<byte>>): seq<Fragment> {
    if recs == [] then [] else ReadAll(recs[..|recs| - 1]) + ReadRecord(recs[|recs| - 1])
  }

  function Feed(a: Assembly, f: Fragment): Assembly {
    if f.flags == SELF_CONTAINED then a.(complete := a.complete + [Message(f.channel, f.payload)])
    else if f.flags == FIRST_IN_SERIES then a.(open := f.payload)
    else if f.flags == MIDDLE_OF_SERIES then a.(open := a.open + f.payload)
    else if f.flags == LAST_IN_SERIES then Assembly(a.complete + [Message(f.channel, a.open + f.payload)], [])
    else a
  }

  /** What a reader has after all these pieces. */
  function FeedAll(a: Assembly, fs: seq<Fragment>): Assembly {
    if fs == [] then a else Feed(FeedAll(a, fs[..|fs| - 1]), fs[|fs| - 1])
  }

  lemma {:induction false} OpaquesNext(rec: seq<byte>, offs: seq<nat>, at: nat)
    requires |rec| >= 18
    ensures Opaques(rec, offs + [at]) == Opaques(rec, offs) + if IsOpaque(rec, at, |rec|) then [Contents(rec, at)]
            else []
  {
    assert (offs + [at])[..|offs|] == offs;
  }

  lemma {:induction false} ReadAllNext(recs: seq<seq<byte>>, rec: seq<byte>)
    ensures ReadAll(recs + [rec]) == ReadAll(recs) + ReadRecord(rec)
  {
    assert (recs + [rec])[..|recs|] == recs;
  }

  lemma {:induction false} ReadAllAppend(a: seq<seq<byte>>, b: seq<seq<byte>>)
    ensures ReadAll(a + b) == ReadAll(a) + ReadAll(b)
  {
    if b == [] {
      assert a + b == a;
    } else {
      var front, last := b[..|b| - 1], b[|b| - 1];
      SplitLast(b);
      ConcatAssoc(a, front, [last]);
      ReadAllAppend(a, front);
      ReadAllNext(a + front, last);
      ConcatAssoc(ReadAll(a), ReadAll(front), ReadRecord(last));
    }
  }

  lemma {:induction false} FeedNext(a: Assembly, fs: seq<Fragment>, f: Fragment)
    ensures FeedAll(a, fs + [f]) == Feed(FeedAll(a, fs), f)
  {
    assert (fs + [f])[..|fs|] == fs;
  }

  lemma {:induction false} FeedAppend(a: Assembly, fs: seq<Fragment>, gs: seq<Fragment>)
    ensures FeedAll(a, fs + gs) == FeedAll(FeedAll(a, fs), gs)
  {
    if gs == [] {
      assert fs + gs == fs;
    } else {
      var front, last := gs[..|gs| - 1], gs[|gs| - 1];
      SplitLast(gs);
      ConcatAssoc(fs, front, [last]);
      FeedAppend(a, fs, front);
      FeedNext(a, fs + front, last);
    }
  }

  // ------------------------------------------------------- well-formed records

  function RoundUp4(x: nat): (r: nat)
    ensures x <= r < x + 4 && r % 4 == 0
  {
    (x + 3) / 4 * 4
  }

  lemma {:induction false} RoundUpWithin(x: nat, m: nat)
    requires x <= m && m % 4 == 0
    ensures RoundUp4(x) <= m
  {
  }

  function Next(offs: seq<nat>, i: nat): nat {
    if i + 1 < |offs| then offs[i + 1] else 0
  }

  /**
   Blockette i starts on a 4-byte boundary, links to the next one and, but for the first one, is opaque and within its
   place.
   */
  predicate Sound(rec: seq<byte>, offs: seq<nat>, end: nat, i: nat)
    requires i < |offs|
  {
    && 48 <= offs[i] && offs[i] % 4 == 0 && offs[i] + 4 <= Stop(offs, end, i) <= end <= |rec|
    && Read16(rec, offs[i] + 2) == Next(offs, i) && (i > 0 ==> IsOpaque(rec, offs[i], Stop(offs, end, i)))
  }

  /**
   A record whose header counts the blockettes of one chain: a blockette 1000 at 48 and opaque blockettes that do not
   overlap.
   */
  ghost predicate WellFormed(rec: seq<byte>, offs: seq<nat>, end: nat)
  {
    && 2 <= |offs| <= 127 && offs[0] == 48 && 56 <= end <= |rec| < 65536 && |rec| % 4 == 0 && end % 4 == 0
    && rec[39] == |offs| && Read16(rec, 46) == 48 && Read16(rec, 48) == 1000
    && (forall i :: 0 <= i < |offs| ==> Sound(rec, offs, end, i))
    && offs[|offs| - 1] + 6 <= |rec| && end == RoundUp4(offs[|offs| - 1] + Read16(rec, offs[|offs| - 1] + 4))
  }

  /** A well-formed record's blockettes are a chain, and the reader visits just these. */
  lemma {:induction false} WellFormedChain(rec: seq<byte>, offs: seq<nat>, end: nat)
    requires WellFormed(rec, offs, end)
    ensures Chain(rec, offs, end) && Walk(rec, Read16(rec, 46), rec[39]) == offs
            && ReadRecord(rec) == Opaques(rec, offs)
  {
    forall i | 0 <= i < |offs|
      ensures 0 < offs[i] && offs[i] + 4 <= Stop(offs, end, i) <= end
      ensures LinkOf(rec[offs[i]..Stop(offs, end, i)]) == Next(offs, i)
    {
      assert Sound(rec, offs, end, i);
    }
    WalkVisits(rec, offs, end, 0, |offs|);
    assert offs[0..] == offs;
  }

  // --------------------------------------------------------- one more blockette

  /** Type, link, lengths and flags of an opaque blockette. */
  function OpaqueHead(length: nat, offset: nat, number: int, flags: byte, fields: byte): (s: seq<byte>)
    ensures |s| == 15
  {
    Word16(2000) + Word16(0) + Word16(length) + Word16(offset) + Word32(number) + [1, flags, fields]
  }

  lemma {:induction false} HeadReads(rec: seq<byte>, at: nat, length: nat, offset: nat, number: int, flags: byte,
                                     fields: byte)
    requires at + 15 <= |rec| && rec[at..at + 15] == OpaqueHead(length, offset, number, flags, fields)
    requires length < 65536 && offset < 65536
    ensures Read16(rec, at) == 2000 && Read16(rec, at + 2) == 0
    ensures Read16(rec, at + 4) == length && Read16(rec, at + 6) == offset && rec[at + 13] == flags
  {
    var h := rec[at..at + 15];
    assert forall k :: 0 <= k < 15 ==> rec[at + k] == h[k];
  }

  /** The other fields of an opaque blockette. */
  lemma {:induction false} HeadFields(rec: seq<byte>, at: nat, length: nat, offset: nat, number: int, flags: byte,
                                      fields: byte)
    requires at + 15 <= |rec| && rec[at..at + 15] == OpaqueHead(length, offset, number, flags, fields)
    ensures Read32(rec, at + 8) == number % 0x1_0000_0000 && rec[at + 12] == 1 && rec[at + 14] == fields
  {
    var h := rec[at..at + 15];
    assert forall k :: 0 <= k < 15 ==> rec[at + k] == h[k];
    assert rec[at + 8..at + 12] == h[8..12] == Word32(number);
    ReadBack32(number, rec, at + 8);
  }

  /** t is s with the link of its last blockette set to `end` and an opaque blockette written there. */
  ghost predicate Appended(s: seq<byte>, offs: seq<nat>, end: nat, t: seq<byte>, data: seq<byte>)
  {
    && |offs| > 0 && |t| == |s| && end + 15 + |data| <= |s| && 48 <= offs[|offs| - 1] && offs[|offs| - 1] + 4 <= end
    && (forall k {:trigger t[k]} ::
          0 <= k < end && k != 39 && k != offs[|offs| - 1] + 2 && k != offs[|offs| - 1] + 3 ==> t[k] == s[k])
    && t[39] == (|offs| + 1) % 256 && Read16(t, offs[|offs| - 1] + 2) == end
    && t[end..end + 15] == OpaqueHead(15 + |data|, 15, 0, SELF_CONTAINED, t[end + 14])
    && t[end + 15..end + 15 + |data|] == data
  }

  /** The blockettes that were there stay as they are, but the last one now links to the new one. */
  lemma {:induction false} AppendedSound(s: seq<byte>, offs: seq<nat>, end: nat, t: seq<byte>, data: seq<byte>,
                                         i: nat, top: nat)
    requires WellFormed(s, offs, end) && Appended(s, offs, end, t, data) && i < |offs| && end <= top <= |t|
    ensures Sound(t, offs + [end], top, i)
    ensures IsOpaque(t, offs[i], |t|) == IsOpaque(s, offs[i], |s|)
    ensures IsOpaque(s, offs[i], |s|) ==> Contents(t, offs[i]) == Contents(s, offs[i])
  {
    assert Sound(s, offs, end, i) && Sound(s, offs, end, |offs| - 1);
    assert Stop(offs + [end], top, i) == Stop(offs, end, i);
    BlocketteKept(s, offs, end, t, data, i);
    assert Channel(t) == Channel(s);
    SameBlockette(s, t, offs[i], Stop(offs, end, i), i > 0);
  }

  /** A blockette of which only the link may differ has the same type and contents. */
  lemma {:induction false} SameBlockette(s: seq<byte>, t: seq<byte>, at: nat, stop: nat, carries: bool)
    requires |s| == |t| && at + 4 <= stop <= |s| && Channel(t) == Channel(s)
    requires forall k {:trigger t[k]} :: at <= k < stop && k != at + 2 && k != at + 3 ==> t[k] == s[k]
    requires if carries then IsOpaque(s, at, stop) else Read16(s, at) == 1000
    ensures IsOpaque(t, at, |t|) == IsOpaque(s, at, |s|) == carries && (carries ==> IsOpaque(t, at, stop))
    ensures carries ==> Contents(t, at) == Contents(s, at)
  {
    if carries {
      var x, y := at + Read16(s, at + 6), at + Read16(s, at + 4);
      assert t[x..y] == s[x..y];
    }
  }

  lemma {:induction false} BlocketteKept(s: seq<byte>, offs: seq<nat>, end: nat, t: seq<byte>, data: seq<byte>, i: nat)
    requires WellFormed(s, offs, end) && Appended(s, offs, end, t, data) && i < |offs|
    ensures offs[i] + 4 <= Stop(offs, end, i) <= end && 48 <= offs[i]
    ensures forall k {:trigger t[k]} :: offs[i] <= k < Stop(offs, end, i) && k != offs[i] + 2 && k != offs[i] + 3 ==>
            t[k] == s[k]
    ensures Read16(t, offs[i] + 2) == if i + 1 < |offs| then offs[i + 1] else end
  {
    assert Sound(s, offs, end, i) && Sound(s, offs, end, |offs| - 1);
    if i + 1 < |offs| {
      Ascending(s, offs, end, i, |offs| - 1);
    }
  }

  lemma {:induction false} Ascending(s: seq<byte>, offs: seq<nat>, end: nat, i: nat, j: nat)
    requires WellFormed(s, offs, end) && i < j < |offs|
    ensures Stop(offs, end, i) <= offs[j]
    decreases j - i
  {
    if i + 1 < j {
      assert Sound(s, offs, end, i + 1);
      Ascending(s, offs, end, i + 1, j);
    }
  }

  /** What the new blockette is. */
  lemma {:induction false} NewBlockette(s: seq<byte>, offs: seq<nat>, end: nat, t: seq<byte>, data: seq<byte>, top: nat)
    requires Appended(s, offs, end, t, data) && top == RoundUp4(end + 15 + |data|) && |s| < 65536 && |s| % 4 == 0
    requires end % 4 == 0 && 56 <= end
    ensures top <= |t| && Sound(t, offs + [end], top, |offs|) && Read16(t, end + 4) == 15 + |data|
    ensures IsOpaque(t, end, |t|) && Contents(t, end) == Fragment(Channel(t), SELF_CONTAINED, data)
    ensures Channel(t) == Channel(s)
  {
    RoundUpWithin(end + 15 + |data|, |t|);
    HeadReads(t, end, 15 + |data|, 15, 0, SELF_CONTAINED, t[end + 14]);
  }

  lemma {:induction false} AppendedWellFormed(s: seq<byte>, offs: seq<nat>, end: nat, t: seq<byte>, data: seq<byte>,
                                              top: nat)
    requires WellFormed(s, offs, end) && Appended(s, offs, end, t, data) && |offs| < 127
             && top == RoundUp4(end + 15 + |data|)
    ensures WellFormed(t, offs + [end], top)
  {
    NewBlockette(s, offs, end, t, data, top);
    AllSound(s, offs, end, t, data, top);
    assert Sound(s, offs, end, 0) && Sound(s, offs, end, |offs| - 1);
    BlocketteKept(s, offs, end, t, data, 0);
    assert t[46] == s[46] && t[47] == s[47];
  }

  lemma {:induction false} AllSound(s: seq<byte>, offs: seq<nat>, end: nat, t: seq<byte>, data: seq<byte>, top: nat)
    requires WellFormed(s, offs, end) && Appended(s, offs, end, t, data) && |offs| < 127 && end <= top <= |t|
    requires Sound(t, offs + [end], top, |offs|)
    ensures forall i :: 0 <= i < |offs + [end]| ==> Sound(t, offs + [end], top, i)
  {
    forall i | 0 <= i < |offs + [end]|
      ensures Sound(t, offs + [end], top, i)
    {
      if i < |offs| {
        AppendedSound(s, offs, end, t, data, i, top);
      }
    }
  }

  /** One more opaque blockette: the record stays well formed and reads as before with the new message behind. */
  lemma {:induction false} AppendedReads(s: seq<byte>, offs: seq<nat>, end: nat, t: seq<byte>, data: seq<byte>,
                                         top: nat)
    requires WellFormed(s, offs, end) && Appended(s, offs, end, t, data) && |offs| < 127
             && top == RoundUp4(end + 15 + |data|)
    ensures WellFormed(t, offs + [end], top)
    ensures ReadRecord(t) == ReadRecord(s) + [Fragment(Channel(s), SELF_CONTAINED, data)] && Channel(t) == Channel(s)
  {
    AppendedWellFormed(s, offs, end, t, data, top);
    NewBlockette(s, offs, end, t, data, top);
    WellFormedChain(s, offs, end);
    WellFormedChain(t, offs + [end], top);
    SameOpaques(s, offs, end, t, data, |offs|);
    assert offs[..|offs|] == offs;
    OpaquesNext(t, offs, end);
  }

  lemma {:induction false} SameOpaques(s: seq<byte>, offs: seq<nat>, end: nat, t: seq<byte>, data: seq<byte>, n: nat)
    requires WellFormed(s, offs, end) && Appended(s, offs, end, t, data) && n <= |offs|
    ensures Opaques(t, offs[..n]) == Opaques(s, offs[..n])
  {
    if n > 0 {
      SameOpaques(s, offs, end, t, data, n - 1);
      AppendedSound(s, offs, end, t, data, n - 1, |t|);
      assert offs[..n] == offs[..n - 1] + [offs[n - 1]];
      OpaquesNext(t, offs[..n - 1], offs[n - 1]);
      OpaquesNext(s, offs[..n - 1], offs[n - 1]);
    }
  }
}
