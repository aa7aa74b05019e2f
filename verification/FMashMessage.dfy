/**
 A whole FMash message: header, row map, description, first values, changes and last values.
 */
module FMashMessage {
  import opened Common
  import Varint
  import RowMap
  import opened FMashSpec

  const MAX_DESCRIPTION: nat := 8

  /** The three values with their types. */
  function Triple(v: Values): seq<byte> {
    Varint.Encode(v.average, 1) + Varint.Encode(v.high, 2) + Varint.Encode(v.low, 3)
  }

  /** Version 1, times of the first and the last minute, channel and number of minutes. */
  function Head(start: int, end: int, channel: int, count: int): (h: seq<byte>)
    ensures |h| == 14
  {
    Word16(1) + Word32(start) + Word32(end) + Word16(channel) + Word16(count)
  }

  /** The row map with the entries set one after the other. */
  function MapOf(codes: seq<nat>): (m: seq<byte>)
    requires |codes| <= 60 && forall i :: 0 <= i < |codes| ==> codes[i] < 8
    ensures |m| == 24
  {
    if codes == [] then Zeros(24)
    else RowMap.Set(MapOf(codes[..|codes| - 1]), |codes| - 1, codes[|codes| - 1])
  }

  lemma {:induction false} MapOfHas(codes: seq<nat>)
    requires |codes| <= 60 && forall i :: 0 <= i < |codes| ==> codes[i] < 8
    ensures MapHas(MapOf(codes), codes)
  {
    if codes != [] {
      var front, n := codes[..|codes| - 1], |codes| - 1;
      MapOfHas(front);
      forall i | 0 <= i < |codes|
        ensures RowMap.Get(MapOf(codes), i) == codes[i]
      {
        RowMap.GetSet(MapOf(front), n, codes[n], i);
        assert i < n ==> RowMap.Get(MapOf(front), i) == front[i] == codes[i];
      }
    }
  }

  lemma {:induction false} PackCodes(list: seq<Row>, n: nat)
    requires list != []
    ensures forall i :: 0 <= i < |Pack(list, n).codes| ==> Pack(list, n).codes[i] < 8
  {
    if n > 0 {
      PackCodes(list, n - 1);
    }
  }

  /** The first row's minute needs no bytes, every other one at most fifteen. */
  lemma {:induction false} PackSize(list: seq<Row>, n: nat)
    requires list != []
    ensures |Pack(list, n).body| <= 15 * Max(0, Pack(list, n).count - 1)
    ensures Pack(list, n).count == 0 ==> Pack(list, n) == Packed(0, 0, list[0].v, [], [], [])
  {
    if n > 0 {
      PackSize(list, n - 1);
    }
  }

  /** The length of a description is kept in a byte before it is limited. */
  function Description(d: seq<byte>): (r: seq<byte>)
    ensures |r| <= 8
  {
    d[..Min(|d| % 256, MAX_DESCRIPTION)]
  }

  /**
   Exactly the descriptions whose length's low byte is less than 8, but not their length, lose more than they should.
   */
  lemma {:induction false} DescriptionKeptIff(d: seq<byte>)
    ensures Description(d) == d[..Min(|d|, MAX_DESCRIPTION)] <==> |d| < 256 || |d| % 256 >= 8
  {
    assert |Description(d)| == Min(|d| % 256, MAX_DESCRIPTION);
  }

  /** A description of 256 characters is lost. */
  lemma {:induction false} DescriptionLost()
    ensures var d: seq<byte> := seq(256, _ => 0x41); Description(d) == [] && d[..MAX_DESCRIPTION] != []
  {
  }

  /** From the description on. */
  function Tail(d: seq<byte>, first: Values, body: seq<byte>, last: Values): seq<byte>
    requires |d| <= 8
  {
    [|d|] + d + [0] + Triple(first) + body + Triple(last)
  }

  /** The message that the first hour of a list is compressed to. */
  function Compress(list: seq<Row>, channel: int, description: seq<byte>): seq<byte>
    requires list != []
  {
    var p, start := Pack(list, MAX_ROWS), list[0].time;
    PackCodes(list, MAX_ROWS);
    Head(start, start + 60 * (p.count - 1), channel, p.count) + MapOf(p.codes)
    + Tail(Description(description), list[0].v, p.body, p.last)
  }

  /** A message is between 46 and 963 bytes long. */
  lemma {:induction false} CompressSize(list: seq<Row>, channel: int, description: seq<byte>)
    requires list != []
    ensures 46 <= |Compress(list, channel, description)| <= 963
  {
    PackSize(list, MAX_ROWS);
    PackTakes(list, MAX_ROWS);
  }

  // ----------------------------------------------------------------- reading

  datatype Decoded = Decoded(start: int, end: int, channel: int, description: seq<byte>, rows: seq<Row>, used: nat)

  /** A C string ends before the first zero byte. */
  function CutAtZero(d: seq<byte>): seq<byte> {
    if d == [] || d[0] == 0 then [] else [d[0]] + CutAtZero(d[1..])
  }

  function ReadInt32(dec: Decoder, raw: seq<byte>, pos: nat): Option<(int32, nat)> {
    match dec(raw, pos)
    case None => None
    case Some((v, n)) => Some((Wrap32(v), pos + n))
  }

  /** Three values one after the other, whatever their types. */
  function ReadTriple(dec: Decoder, raw: seq<byte>, pos: nat): Option<(Values, nat)> {
    match ReadInt32(dec, raw, pos)
    case None => None
    case Some((a, p)) =>
      match ReadInt32(dec, raw, p)
      case None => None
      case Some((h, q)) =>
        match ReadInt32(dec, raw, q)
        case None => None
        case Some((l, r)) => Some((Values(a, h, l), r))
  }

  /** The changes and the last values, which must agree with the values reached. */
  function ReadBody(dec: Decoder, raw: seq<byte>, pos: nat): Option<(seq<Row>, nat)>
    requires |raw| >= 38
  {
    match ReadTriple(dec, raw, pos)
    case None => None
    case Some((first, p)) =>
      match ReadMinutes(dec, raw, raw[14..], Reading(p, first, Read32(raw, 2), []), Read16(raw, 12))
      case None => None
      case Some(r) =>
        match ReadTriple(dec, raw, r.pos)
        case None => None
        case Some((final, q)) => if final == r.last then Some((r.rows, q)) else None
  }

  /** A message is refused if its version is too new, if it ends too soon, or if the last values do not agree. */
  function Decode(raw: seq<byte>): Option<Decoded> {
    DecodeWith(Varint.Decode, raw)
  }

  function DecodeWith(dec: Decoder, raw: seq<byte>): Option<Decoded> {
    if |raw| < 39 || Read16(raw, 0) % 0x8000 > 1 || raw[38] > 8 || 40 + raw[38] > |raw| then None
    else
      match ReadBody(dec, raw, 40 + raw[38])
      case None => None
      case Some((rows, used)) =>
        Some(Decoded(Read32(raw, 2), Read32(raw, 6), Read16(raw, 10), CutAtZero(raw[39..39 + raw[38]]), rows, used))
  }

  // -------------------------------------------------------------- round trip

  lemma {:induction false} CutNothing(d: seq<byte>)
    requires forall i :: 0 <= i < |d| ==> d[i] != 0
    ensures CutAtZero(d) == d
  {
    if d != [] {
      CutNothing(d[1..]);
    }
  }

  lemma {:induction false} ReadInt(dec: Decoder, raw: seq<byte>, pos: nat, v: int32, tag: nat, e: seq<byte>, next: nat)
    requires Inverts(dec) && tag <= 3 && e == Varint.Encode(v, tag) && At(raw, pos, e) && next == pos + |e|
    ensures ReadInt32(dec, raw, pos) == Some((v, next))
  {
    ReadValue(dec, raw, pos, v, tag);
  }

  lemma {:induction false} ReadThree(dec: Decoder, raw: seq<byte>, pos: nat, v: Values, t: seq<byte>, next: nat)
    requires Inverts(dec) && t == Triple(v) && At(raw, pos, t) && next == pos + |t|
    ensures ReadTriple(dec, raw, pos) == Some((v, next))
  {
    var a, h, l := Varint.Encode(v.average, 1), Varint.Encode(v.high, 2), Varint.Encode(v.low, 3);
    AtSplit(raw, pos, a + h, l);
    AtSplit(raw, pos, a, h);
    ReadParts(dec, raw, v, a, h, l, pos, pos + |a|, pos + |a| + |h|, next);
  }

  lemma {:induction false} ReadParts(dec: Decoder, raw: seq<byte>, v: Values, a: seq<byte>, h: seq<byte>, l: seq<byte>,
                                     pos: nat, p: nat, q: nat, r: nat)
    requires Inverts(dec) && a == Varint.Encode(v.average, 1) && h == Varint.Encode(v.high, 2)
             && l == Varint.Encode(v.low, 3)
    requires At(raw, pos, a) && p == pos + |a| && At(raw, p, h) && q == p + |h| && At(raw, q, l) && r == q + |l|
    ensures ReadTriple(dec, raw, pos) == Some((v, r))
  {
    ReadInt(dec, raw, pos, v.average, 1, a, p);
    ReadInt(dec, raw, p, v.high, 2, h, q);
    ReadInt(dec, raw, q, v.low, 3, l, r);
    ThreeInts(dec, raw, pos, p, q, r, v);
  }

  lemma {:induction false} ThreeInts(dec: Decoder, raw: seq<byte>, pos: nat, p: nat, q: nat, r: nat, v: Values)
    requires ReadInt32(dec, raw, pos) == Some((v.average, p)) && ReadInt32(dec, raw, p) == Some((v.high, q))
             && ReadInt32(dec, raw, q) == Some((v.low, r))
    ensures ReadTriple(dec, raw, pos) == Some((v, r))
  {
  }

  /** Where the parts of a message stand. */
  ghost predicate Parts(raw: seq<byte>, h: seq<byte>, m: seq<byte>, d: seq<byte>, first: seq<byte>, body: seq<byte>,
                        last: seq<byte>)
  {
    && |h| == 14 && |m| == 24 && |d| <= 8 && |raw| == 40 + |d| + |first| + |body| + |last|
    && At(raw, 0, h) && At(raw, 14, m) && raw[38] == |d| && At(raw, 39, d)
    && At(raw, 40 + |d|, first) && At(raw, 40 + |d| + |first|, body) && At(raw, 40 + |d| + |first| + |body|, last)
  }

  lemma {:induction false} PartsOf(raw: seq<byte>, h: seq<byte>, m: seq<byte>, d: seq<byte>, first: seq<byte>,
                                   body: seq<byte>, last: seq<byte>)
    requires |h| == 14 && |m| == 24 && |d| <= 8
    requires raw == h + m + ([|d|] + d + [0] + first + body + last)
    ensures Parts(raw, h, m, d, first, body, last)
  {
    var t := [|d|] + d + [0] + first + body + last;
    assert At(raw, 0, h + m + t);
    AtSplit(raw, 0, h + m, t);
    AtSplit(raw, 0, h, m);
    AtSplit(raw, 38, [|d|] + d + [0] + first + body, last);
    AtSplit(raw, 38, [|d|] + d + [0] + first, body);
    AtSplit(raw, 38, [|d|] + d + [0], first);
    AtSplit(raw, 38, [|d|] + d, [0]);
    AtSplit(raw, 38, [|d|], d);
    assert raw[38..39] == [|d|];
    assert raw[38] == raw[38..39][0];
  }

  /** What the fields of the header are read as. */
  ghost predicate Header(raw: seq<byte>, start: int, end: int, channel: int, count: nat, m: seq<byte>)
  {
    && |raw| >= 39 && Read16(raw, 0) == 1 && Read32(raw, 2) == start && Read32(raw, 6) == end
    && Read16(raw, 10) == channel && Read16(raw, 12) == count && raw[14..] == m
  }

  lemma {:induction false} HeaderOf(raw: seq<byte>, h: seq<byte>, m: seq<byte>, start: int, end: int, channel: int,
                                    count: nat,
                                    start32: int, end32: int)
    requires |raw| >= 39 && At(raw, 0, h) && m == raw[14..]
    requires h == Head(start, end, channel, count) && 0 <= channel < 65536 && count < 65536
    requires start32 == start % TWO_32 && end32 == end % TWO_32
    ensures Header(raw, start32, end32, channel, count, m)
  {
    HeadReads(raw, start, end, channel, count);
  }

  /** The fields of the header are read back. */
  lemma {:induction false} HeadReads(raw: seq<byte>, start: int, end: int, channel: int, count: int)
    requires |raw| >= 14 && At(raw, 0, Head(start, end, channel, count))
    ensures Read16(raw, 0) == 1 && Read32(raw, 2) == start % TWO_32 && Read32(raw, 6) == end % TWO_32
    ensures Read16(raw, 10) == channel % TWO_16 && Read16(raw, 12) == count % TWO_16
  {
    var a, b, c, d, e := Word16(1), Word32(start), Word32(end), Word16(channel), Word16(count);
    AtSplit(raw, 0, a + b + c + d, e);
    AtSplit(raw, 0, a + b + c, d);
    AtSplit(raw, 0, a + b, c);
    AtSplit(raw, 0, a, b);
    ReadBack16(1, raw, 0);
    ReadBack32(start, raw, 2);
    ReadBack32(end, raw, 6);
    ReadBack16(channel, raw, 10);
    ReadBack16(count, raw, 12);
  }

  lemma {:induction false} BodyFrom(dec: Decoder, raw: seq<byte>, start: int, end: int, channel: int, count: nat,
                                    m: seq<byte>,
                                    at: nat, first: Values, pos: nat, from: Reading, r: Reading, final: nat,
                                    last: Values, used: nat)
    requires Header(raw, start, end, channel, count, m) && from == Reading(pos, first, start, [])
    requires ReadTriple(dec, raw, at) == Some((first, pos)) && ReadMinutes(dec, raw, m, from, count) == Some(r)
    requires r.pos == final && r.last == last && ReadTriple(dec, raw, final) == Some((last, used))
    ensures ReadBody(dec, raw, at) == Some((r.rows, used))
  {
  }

  /**
   What the changes of a message are read as, if its first and last values stand around what the minutes are read from.
   */
  lemma {:induction false} BodyReads(dec: Decoder, raw: seq<byte>, start: int, end: int, channel: int, count: nat,
                                     m: seq<byte>,
                                     f: seq<byte>, l: seq<byte>, at: nat, first: Values, pos: nat, from: Reading,
                                     r: Reading,
                                     final: nat, last: Values, used: nat)
    requires Inverts(dec) && Header(raw, start, end, channel, count, m) && from == Reading(pos, first, start, [])
    requires f == Triple(first) && At(raw, at, f) && pos == at + |f| && l == Triple(last) && At(raw, final, l)
             && used == final + |l|
    requires ReadMinutes(dec, raw, m, from, count) == Some(r) && r.pos == final && r.last == last
    ensures ReadBody(dec, raw, at) == Some((r.rows, used))
  {
    ReadThree(dec, raw, at, first, f, pos);
    ReadThree(dec, raw, final, last, l, used);
    BodyFrom(dec, raw, start, end, channel, count, m, at, first, pos, from, r, final, last, used);
  }

  /** Reading the packed minutes. */
  lemma {:induction false} MinutesRead(dec: Decoder, raw: seq<byte>, m: seq<byte>, list: seq<Row>, p: Packed,
                                       start: int, shift: int,
                                       pos: nat, from: Reading, r: Reading, final: nat, rows: seq<Row>)
    requires Inverts(dec) && list != [] && p == Pack(list, MAX_ROWS) && MapHas(m, p.codes) && At(raw, pos, p.body)
    requires start == list[0].time + shift && final == pos + |p.body| && rows == Moved(p.rows, shift)
    requires from == Reading(pos, list[0].v, start, []) && r == ReadingAfter(p, pos, start, shift)
    ensures ReadMinutes(dec, raw, m, from, p.count) == Some(r) && r.pos == final && r.last == p.last && r.rows == rows
  {
    ReadPacked(dec, list, MAX_ROWS, p, raw, m, pos, start, shift);
  }

  lemma {:induction false} DecodeFrom(dec: Decoder, raw: seq<byte>, start: int, end: int, channel: int, count: nat,
                                      m: seq<byte>,
                                      n: nat, at: nat, d: seq<byte>, rows: seq<Row>, used: nat)
    requires Header(raw, start, end, channel, count, m)
    requires raw[38] == n && n <= 8 && at == 40 + n <= |raw| && d == CutAtZero(raw[39..39 + n])
    requires ReadBody(dec, raw, at) == Some((rows, used))
    ensures DecodeWith(dec, raw) == Some(Decoded(start, end, channel, d, rows, used))
  {
  }

  /** Reading the row map in place. */
  lemma {:induction false} MapInPlace(raw: seq<byte>, m: seq<byte>, codes: seq<nat>)
    requires At(raw, 14, m) && MapHas(m, codes) && |m| == 24
    ensures MapHas(raw[14..], codes)
  {
    assert forall i :: 0 <= i < 24 ==> raw[14..][i] == raw[14..38][i];
  }

  /** What a message made of given parts is read as. */
  lemma {:induction false} PartsDecode(dec: Decoder, raw: seq<byte>, list: seq<Row>, p: Packed, start: int, end: int,
                                       channel: int,
                                       h: seq<byte>, m: seq<byte>, rowMap: seq<byte>, d: seq<byte>, f: seq<byte>,
                                       l: seq<byte>,
                                       shift: int, rows: seq<Row>)
    requires Inverts(dec) && list != [] && p == Pack(list, MAX_ROWS) && MapHas(rowMap, p.codes)
             && Header(raw, start, end, channel, p.count, rowMap)
    requires Parts(raw, h, m, d, f, p.body, l) && f == Triple(list[0].v) && l == Triple(p.last)
    requires start == list[0].time + shift && rows == Moved(p.rows, shift) && forall i :: 0 <= i < |d| ==> d[i] != 0
    ensures DecodeWith(dec, raw) == Some(Decoded(start, end, channel, d, rows, |raw|))
  {
    var at, first := 40 + |d|, list[0].v;
    var pos := at + |f|;
    var final := pos + |p.body|;
    var from, r := Reading(pos, first, start, []), ReadingAfter(p, pos, start, shift);
    MinutesRead(dec, raw, rowMap, list, p, start, shift, pos, from, r, final, rows);
    BodyReads(dec, raw, start, end, channel, p.count, rowMap, f, l, at, first, pos, from, r, final, p.last, |raw|);
    DescriptionRead(raw, d);
    DecodeFrom(dec, raw, start, end, channel, p.count, rowMap, |d|, at, d, rows, |raw|);
  }

  lemma {:induction false} DescriptionRead(raw: seq<byte>, d: seq<byte>)
    requires |raw| >= 39 + |d| && At(raw, 39, d) && forall i :: 0 <= i < |d| ==> d[i] != 0
    ensures CutAtZero(raw[39..39 + |d|]) == d
  {
    CutNothing(d);
  }

  /** The message a list is compressed to, from what was packed. */
  lemma {:induction false} CompressParts(list: seq<Row>, channel: int, description: seq<byte>, p: Packed, end: int,
                                         raw: seq<byte>)
    requires list != [] && p == Pack(list, MAX_ROWS) && raw == Compress(list, channel, description)
    requires end == list[0].time + 60 * (p.count - 1)
    ensures |p.codes| <= 60 && (forall i :: 0 <= i < |p.codes| ==> p.codes[i] < 8) && MapHas(MapOf(p.codes), p.codes)
    ensures Parts(raw, Head(list[0].time, end, channel, p.count), MapOf(p.codes), Description(description),
                  Triple(list[0].v), p.body, Triple(p.last))
  {
    PackCodes(list, MAX_ROWS);
    MapOfHas(p.codes);
    PartsOf(raw, Head(list[0].time, end, channel, p.count), MapOf(p.codes), Description(description),
            Triple(list[0].v), p.body, Triple(p.last));
  }

  /**
   Round trip for every non-empty list: the decoded message has the channel, the description as it was limited, and
   exactly the rows with data among those taken from the list, in order and with their values;
   their times are moved by as much as 32 bits change the time of the first row. The reader uses all bytes.
   */
  lemma {:induction false} CompressDecodes(dec: Decoder, list: seq<Row>, channel: int, description: seq<byte>,
                                           raw: seq<byte>, p: Packed,
                                           start: int, end: int, start32: word32, end32: word32, d: seq<byte>,
                                           rows: seq<Row>)
    requires Inverts(dec) && list != [] && 0 <= channel < 65536 && d == Description(description)
             && forall i :: 0 <= i < |d| ==> d[i] != 0
    requires raw == Compress(list, channel, description) && p == Pack(list, MAX_ROWS)
    requires start == list[0].time && end == start + 60 * (p.count - 1) && start32 == start % TWO_32
             && end32 == end % TWO_32
    requires rows == Moved(WithData(list[..p.used]), start32 - start)
    ensures DecodeWith(dec, raw) == Some(Decoded(start32, end32, channel, d, rows, |raw|))
  {
    PackTakes(list, MAX_ROWS);
    CompressParts(list, channel, description, p, end, raw);
    var h, m := Head(start, end, channel, p.count), MapOf(p.codes);
    HeaderOf(raw, h, raw[14..], start, end, channel, p.count, start32, end32);
    MapInPlace(raw, m, p.codes);
    PartsDecode(dec, raw, list, p, start32, end32, channel, h, m, raw[14..], d, Triple(list[0].v), Triple(p.last),
                start32 - start, rows);
  }

  /** The same for the reader of messages itself. */
  lemma {:induction false} MessageRoundTrip(list: seq<Row>, channel: int, description: seq<byte>, raw: seq<byte>,
                                            p: Packed,
                                            start: int, end: int, start32: word32, end32: word32, d: seq<byte>,
                                            rows: seq<Row>)
    requires list != [] && 0 <= channel < 65536 && d == Description(description) && forall i :: 0 <= i < |d| ==>
             d[i] != 0
    requires raw == Compress(list, channel, description) && p == Pack(list, MAX_ROWS)
    requires start == list[0].time && end == start + 60 * (p.count - 1) && start32 == start % TWO_32
             && end32 == end % TWO_32
    requires rows == Moved(WithData(list[..p.used]), start32 - start)
    ensures Decode(raw) == Some(Decoded(start32, end32, channel, d, rows, |raw|))
  {
    VarintInverts();
    CompressDecodes(Varint.Decode, list, channel, description, raw, p, start, end, start32, end32, d, rows);
  }

  lemma {:induction false} MovedExactIff(rows: seq<Row>, shift: int)
    ensures Moved(rows, shift) == rows <==> rows == [] || shift == 0
  {
    if shift == 0 {
      MovedByZero(rows);
    } else if rows != [] {
      assert Moved(rows, shift)[0].time != rows[0].time;
    }
  }

  lemma {:induction false} FitsIff(start: int)
    ensures start % 0x1_0000_0000 - start == 0 <==> 0 <= start < 0x1_0000_0000
  {
  }

  /** With a time that fits, the rows are read back as they are. */
  lemma {:induction false} ExactRoundTrip(dec: Decoder, list: seq<Row>, channel: int, description: seq<byte>,
                                          raw: seq<byte>, p: Packed,
                                          start: word32, end: int, end32: word32, d: seq<byte>, rows: seq<Row>)
    requires Inverts(dec) && list != [] && 0 <= channel < 65536 && d == Description(description)
             && forall i :: 0 <= i < |d| ==> d[i] != 0
    requires raw == Compress(list, channel, description) && p == Pack(list, MAX_ROWS)
    requires start == list[0].time && end == start + 60 * (p.count - 1) && end32 == end % TWO_32
             && rows == WithData(list[..p.used])
    ensures DecodeWith(dec, raw) == Some(Decoded(start, end32, channel, d, rows, |raw|))
  {
    FitsIff(start);
    MovedByZero(rows);
    CompressDecodes(dec, list, channel, description, raw, p, start, end, start, end32, d, rows);
  }

  /** The rows come back with their own times exactly when the first one's time fits 32 bits, or there are none. */
  lemma {:induction false} TimesExactIff(list: seq<Row>, rows: seq<Row>)
    requires list != [] && rows == WithData(list[..Pack(list, MAX_ROWS).used])
    ensures Moved(rows, list[0].time % TWO_32 - list[0].time) == rows <==> rows == [] || 0 <= list[0].time < TWO_32
  {
    MovedExactIff(rows, list[0].time % TWO_32 - list[0].time);
    FitsIff(list[0].time);
  }
}
