/**
 Compressing the rows of a channel's buffer to an FMash message, and reading a message back.
 */
module FMash {
  import opened Common
  import Varint
  import RowMap
  import opened ByteBuffer
  import opened FMashSpec
  import opened FMashMessage

  /** The rows of a channel that have not been compressed yet, oldest first. */
  class CsvBuffer {
    var list: seq<Row>
    var startTime: int
    var endTime: int
    ghost var taken: seq<Row>          // the rows that have gone into messages
    const channel: int
    const description: seq<byte>

    constructor (channel: int, description: seq<byte>)
      ensures list == [] && startTime == 0 && endTime == 0 && taken == [] && this.channel == channel
              && this.description == description
    {
      list, startTime, endTime, taken := [], 0, 0, [];
      this.channel, this.description := channel, description;
    }
  }

  // -------------------------------------------------------- writing a message

  /** A message being written: the header, the row map, and what follows so far. */
  ghost predicate Holds(buf: ByteBuffer, head: seq<byte>, entries: seq<byte>, rest: seq<byte>)
    reads buf, buf.content
  {
    && buf.Valid() && buf.offset == |buf.data| && |head| == 14 && |entries| == 24
    && buf.data == head + entries + rest
  }

  lemma {:induction false} OverwriteEnd(s: seq<byte>, b: seq<byte>)
    ensures Overwrite(s, |s|, b) == s + b
  {
  }

  lemma {:induction false} OverwriteMiddle(a: seq<byte>, x: seq<byte>, r: seq<byte>, b: seq<byte>)
    requires |x| == |b|
    ensures Overwrite(a + x + r, |a|, b) == a + b + r
  {
    assert (a + x + r)[|a| + |b|..] == r;
  }

  /** Write at the end. */
  method Put(buf: ByteBuffer, src: seq<byte>, ghost head: seq<byte>, ghost entries: seq<byte>, ghost rest: seq<byte>)
    requires Holds(buf, head, entries, rest)
    modifies buf, buf.content
    ensures Holds(buf, head, entries, rest + src) && (buf.content == old(buf.content) || fresh(buf.content))
  {
    OverwriteEnd(buf.data, src);
    ConcatAssoc(head + entries, rest, src);
    var n := buf.Write(src);
  }

  lemma {:induction false} MapInMiddle(head: seq<byte>, entries: seq<byte>, rest: seq<byte>, m: seq<byte>)
    requires |head| == 14 && |entries| == 24 && |m| == 24
    ensures (head + entries + rest)[14..38] == entries && Splice(head + entries + rest, 14, m) == head + m + rest
  {
  }

  /** Set an entry of the row map, which stands before the write position. */
  method SetEntry(buf: ByteBuffer, i: nat, v: nat, ghost head: seq<byte>, ghost entries: seq<byte>,
                  ghost rest: seq<byte>)
    requires Holds(buf, head, entries, rest) && i < 60 && v < 8
    modifies buf`data, buf.content
    ensures Holds(buf, head, RowMap.Set(entries, i, v), rest)
  {
    ghost var was := buf.content[..];
    RowMap.SetInPlace(buf.content, 14, i, v, 24);
    SetWithin(was, buf.content[..], buf.length, i, v, head, entries, rest);
    buf.data := head + RowMap.Set(entries, i, v) + rest;
  }

  lemma {:induction false} SetWithin(was: seq<byte>, now: seq<byte>, n: nat, i: nat, v: nat,
                                     head: seq<byte>, entries: seq<byte>, rest: seq<byte>)
    requires n <= |was| && |head| == 14 && |entries| == 24 && was[..n] == head + entries + rest && i < 60 && v < 8
    requires now == Splice(was, 14, RowMap.Set(was[14..38], i, v))
    ensures |now| == |was| && now[..n] == head + RowMap.Set(entries, i, v) + rest
  {
    MapInMiddle(head, entries, rest, RowMap.Set(entries, i, v));
    assert was[14..38] == was[..n][14..38];
    assert now[..n] == Splice(was[..n], 14, RowMap.Set(entries, i, v));
  }

  /** Write three values with their types. */
  method WriteTriple(buf: ByteBuffer, v: Values, ghost head: seq<byte>, ghost entries: seq<byte>, ghost rest: seq<byte>)
    requires Holds(buf, head, entries, rest)
    modifies buf, buf.content
    ensures Holds(buf, head, entries, rest + Triple(v)) && (buf.content == old(buf.content) || fresh(buf.content))
  {
    ghost var a, h, l := Varint.Encode(v.average, 1), Varint.Encode(v.high, 2), Varint.Encode(v.low, 3);
    Put(buf, Varint.Encode(v.average, 1), head, entries, rest);
    Put(buf, Varint.Encode(v.high, 2), head, entries, rest + a);
    Put(buf, Varint.Encode(v.low, 3), head, entries, rest + a + h);
    ThreeMore(rest, a, h, l);
  }

  lemma {:induction false} ThreeMore(r: seq<byte>, a: seq<byte>, b: seq<byte>, c: seq<byte>)
    ensures r + a + b + c == r + (a + b + c)
  {
  }

  /** Write the difference of a value from the last one, if there is one. */
  method WriteChange(buf: ByteBuffer, v: int32, last: int32, tag: nat, ghost head: seq<byte>,
                     ghost entries: seq<byte>, ghost rest: seq<byte>)
    returns (changed: nat, newLast: int32)
    requires Holds(buf, head, entries, rest) && tag <= 3
    modifies buf, buf.content
    ensures Holds(buf, head, entries, rest + Change(v, last, tag))
            && (buf.content == old(buf.content) || fresh(buf.content))
    ensures changed == Changed(v, last) && newLast == v
  {
    changed, newLast := 0, last;
    NoDelta(v, last);
    if Delta(v, last) != 0 {
      Put(buf, Varint.Encode(Delta(v, last), tag), head, entries, rest);
      changed, newLast := 1, v;
    } else {
      assert rest + Change(v, last, tag) == rest;
    }
  }

  method WriteChanges(buf: ByteBuffer, v: Values, last: Values, ghost head: seq<byte>, ghost entries: seq<byte>,
                      ghost rest: seq<byte>)
    returns (code: nat, newLast: Values)
    requires Holds(buf, head, entries, rest)
    modifies buf, buf.content
    ensures Holds(buf, head, entries, rest + Changes(v, last))
            && (buf.content == old(buf.content) || fresh(buf.content))
    ensures code == Code(v, last) && newLast == v
  {
    ghost var a, h, l := Change(v.average, last.average, 1), Change(v.high, last.high, 2), Change(v.low, last.low, 3);
    var i, average := WriteChange(buf, v.average, last.average, 1, head, entries, rest);
    var j, high := WriteChange(buf, v.high, last.high, 2, head, entries, rest + a);
    var k, low := WriteChange(buf, v.low, last.low, 3, head, entries, rest + a + h);
    ThreeMore(rest, a, h, l);
    code, newLast := i + j + k, Values(average, high, low);
  }

  /** The row map entry of a minute, its bytes and the last values after it. */
  function MinuteCode(r: Row, current: int, last: Values): (c: nat)
    ensures c < 8
  {
    if r.time == current && !r.empty then Code(r.v, last) else NO_DATA
  }

  function MinuteBody(r: Row, current: int, last: Values): seq<byte> {
    if r.time == current && !r.empty then Changes(r.v, last) else []
  }

  function MinuteLast(r: Row, current: int, last: Values): Values {
    if r.time == current && !r.empty then r.v else last
  }

  /** Write one minute; the row is used up if it is this minute's. */
  method WriteMinute(buf: ByteBuffer, i: nat, r: Row, current: int, last: Values,
                     ghost head: seq<byte>, ghost entries: seq<byte>, ghost rest: seq<byte>)
    returns (taken: bool, newLast: Values)
    requires Holds(buf, head, entries, rest) && i < 60
    modifies buf, buf.content
    ensures Holds(buf, head, RowMap.Set(entries, i, MinuteCode(r, current, last)), rest + MinuteBody(r, current, last))
    ensures buf.content == old(buf.content) || fresh(buf.content)
    ensures taken == (r.time == current) && newLast == MinuteLast(r, current, last)
  {
    taken, newLast := r.time == current, last;
    var code := NO_DATA;
    if taken && !r.empty {
      code, newLast := WriteChanges(buf, r.v, last, head, entries, rest);
    } else {
      assert rest + [] == rest;
    }
    SetEntry(buf, i, code, head, entries, rest + MinuteBody(r, current, last));
  }

  /** Space for the header, the row map and the description. */
  method Begin(description: seq<byte>) returns (buf: ByteBuffer, ghost head: seq<byte>, ghost lead: seq<byte>)
    ensures fresh(buf) && fresh(buf.content) && Holds(buf, head, Zeros(24), lead)
    ensures head == Word16(1) + Zeros(12) && lead == [|Description(description)|] + Description(description) + [0]
  {
    buf := new ByteBuffer();
    head := Word16(1) + Zeros(12);
    var d := Description(description);
    WriteHead(buf);
    assert head + Zeros(24) + [] == head + Zeros(24);
    Put(buf, [|d|], head, Zeros(24), []);
    Put(buf, d, head, Zeros(24), [] + [|d|]);
    OverwriteEnd(buf.data, [0]);
    ConcatAssoc(head + Zeros(24), [] + [|d|] + d, [0]);
    buf.Terminate();
    lead := [] + [|d|] + d + [0];
    assert [] + [|d|] == [|d|];
  }

  method WriteHead(buf: ByteBuffer)
    requires buf.Valid() && buf.data == [] && buf.offset == 0
    modifies buf, buf.content
    ensures buf.Valid() && buf.data == Word16(1) + Zeros(12) + Zeros(24) && buf.offset == |buf.data|
    ensures buf.content == old(buf.content) || fresh(buf.content)
  {
    var a := buf.Write(Word16(1));
    var b := buf.Write(Zeros(4));
    var c := buf.Write(Zeros(4));
    var d := buf.Write(Zeros(2));
    var e := buf.Write(Zeros(2));
    var f := buf.Write(Zeros(24));
  }

  /** Fill in the header. */
  method Patch(buf: ByteBuffer, start: int, end: int, channel: int, count: int, ghost entries: seq<byte>,
               ghost rest: seq<byte>)
    requires Holds(buf, Word16(1) + Zeros(12), entries, rest)
    modifies buf, buf.content
    ensures buf.Valid() && buf.data == Head(start, end, channel, count) + entries + rest
    ensures buf.content == old(buf.content) || fresh(buf.content)
  {
    ghost var t := entries + rest;
    var s := buf.Seek(2);
    PatchField(buf, Word32(start), Word16(1), Zeros(4), Zeros(8) + t);
    PatchField(buf, Word32(end), Word16(1) + Word32(start), Zeros(4), Zeros(4) + t);
    PatchField(buf, Word16(channel), Word16(1) + Word32(start) + Word32(end), Zeros(2), Zeros(2) + t);
    PatchField(buf, Word16(count), Word16(1) + Word32(start) + Word32(end) + Word16(channel), Zeros(2), t);
  }

  /** Write over a field of the header. */
  method PatchField(buf: ByteBuffer, b: seq<byte>, ghost before: seq<byte>, ghost was: seq<byte>,
                    ghost after: seq<byte>)
    requires buf.Valid() && buf.offset == |before| && |was| == |b| && buf.data == before + was + after
    modifies buf, buf.content
    ensures buf.Valid() && buf.offset == |before| + |b| && buf.data == before + b + after
    ensures buf.content == old(buf.content) || fresh(buf.content)
  {
    OverwriteMiddle(before, was, after, b);
    var n := buf.Write(b);
  }

  /** Where compression is before a minute: the row fetched last is still pending unless it was used up. */
  ghost predicate Reached(list: seq<Row>, i: nat, p: Packed, pending: Option<Row>, left: seq<Row>,
                          current: int, count: int, last: Values)
    requires list != []
  {
    && p == Pack(list, i)
    && list[p.used..] == (match pending case None => left case Some(r) => [r] + left)
    && (i > 0 ==> current == list[0].time + 60 * p.count && count == p.count && last == p.last)
    && (i == 0 ==> pending.None? && count == 0)
  }

  /** What has been written after the row map before a minute. */
  function Rest(lead: seq<byte>, i: nat, first: Values, body: seq<byte>): seq<byte> {
    if i == 0 then lead else lead + Triple(first) + body
  }

  /** The list is as if its next row had been fetched, and the values are the first row's if it is the first. */
  ghost predicate Fetched(list: seq<Row>, i: nat, p: Packed, r: Row, left: seq<Row>, current: int, count: int,
                          last: Values)
    requires list != []
  {
    && p == Pack(list, i) && p.used < |list| && r == list[p.used] && left == list[p.used + 1..]
    && current == list[0].time + 60 * p.count && count == p.count && last == p.last
  }

  lemma {:induction false} FetchPending(list: seq<Row>, i: nat, p: Packed, r: Row, left: seq<Row>, current: int,
                                        count: int, last: Values)
    requires list != [] && Reached(list, i, p, Some(r), left, current, count, last)
    ensures Fetched(list, i, p, r, left, current, count, last)
  {
    assert list[p.used..][0] == r && list[p.used..][1..] == left;
  }

  lemma {:induction false} FetchNext(list: seq<Row>, i: nat, p: Packed, r: Row, left: seq<Row>, current: int,
                                     count: int, last: Values)
    requires list != [] && i > 0 && Reached(list, i, p, None, [r] + left, current, count, last)
    ensures Fetched(list, i, p, r, left, current, count, last)
  {
    assert list[p.used..][0] == r && list[p.used..][1..] == left;
  }

  lemma {:induction false} FetchFirst(list: seq<Row>, p: Packed, r: Row, left: seq<Row>)
    requires list == [r] + left && p == Pack(list, 0)
    ensures Fetched(list, 0, p, r, left, r.time, 0, r.v)
  {
  }

  /** A minute written is a minute packed. */
  lemma {:induction false} MinutePacked(list: seq<Row>, i: nat, p: Packed, q: Packed, r: Row, left: seq<Row>,
                                        current: int, count: int,
                                        last: Values, pending: Option<Row>)
    requires list != [] && Fetched(list, i, p, r, left, current, count, last) && q == Pack(list, i + 1)
    requires pending == if r.time == current then None else Some(r)
    ensures Reached(list, i + 1, q, pending, left, current + 60, count + 1, MinuteLast(r, current, last))
    ensures q.codes == p.codes + [MinuteCode(r, current, last)] && q.body == p.body + MinuteBody(r, current, last)
  {
    assert list[p.used..] == [r] + left;
  }

  lemma {:induction false} MapGrows(codes: seq<nat>, c: nat)
    requires |codes| < 60 && c < 8 && forall i :: 0 <= i < |codes| ==> codes[i] < 8
    ensures (forall i :: 0 <= i < |codes + [c]| ==> (codes + [c])[i] < 8)
    ensures MapOf(codes + [c]) == RowMap.Set(MapOf(codes), |codes|, c)
  {
    assert (codes + [c])[..|codes|] == codes;
  }

  /** Packing ends with the list. */
  lemma {:induction false} PackStops(list: seq<Row>, i: nat, n: nat)
    requires list != [] && i <= n && Pack(list, i).used == |list|
    ensures Pack(list, n) == Pack(list, i)
  {
    if i < n {
      PackStops(list, i, n - 1);
    }
  }

  /** The row map entries of a packed list. */
  function MapFor(list: seq<Row>, i: nat): (m: seq<byte>)
    requires list != [] && i <= 60
    ensures |m| == 24
  {
    PackCodes(list, i);
    MapOf(Pack(list, i).codes)
  }

  /** The next minute of a list in the buffer. */
  method CompressMinute(buf: ByteBuffer, i: nat, r: Row, current: int, count: int, last: Values,
                        ghost list: seq<Row>, ghost left: seq<Row>, ghost head: seq<byte>, ghost lead: seq<byte>,
                        ghost p: Packed)
    returns (pending: Option<Row>, newLast: Values)
    requires list != [] && i < 60 && Fetched(list, i, p, r, left, current, count, last)
    requires Holds(buf, head, MapFor(list, i), lead + Triple(list[0].v) + p.body)
    modifies buf, buf.content
    ensures Reached(list, i + 1, Pack(list, i + 1), pending, left, current + 60, count + 1, newLast)
    ensures Holds(buf, head, MapFor(list, i + 1), lead + Triple(list[0].v) + Pack(list, i + 1).body)
    ensures buf.content == old(buf.content) || fresh(buf.content)
  {
    ghost var start := lead + Triple(list[0].v);
    var taken;
    taken, newLast := WriteMinute(buf, i, r, current, last, head, MapFor(list, i), start + p.body);
    pending := if taken then None else Some(r);
    MinutePacked(list, i, p, Pack(list, i + 1), r, left, current, count, last, pending);
    MapForNext(list, i, p, MinuteCode(r, current, last));
    ConcatAssoc(start, p.body, MinuteBody(r, current, last));
  }

  lemma {:induction false} MapForNext(list: seq<Row>, i: nat, p: Packed, c: nat)
    requires list != [] && i < 60 && p == Pack(list, i) && p.used < |list| && c < 8
             && Pack(list, i + 1).codes == p.codes + [c]
    ensures MapFor(list, i + 1) == RowMap.Set(MapFor(list, i), i, c)
  {
    PackCodes(list, i);
    MapGrows(p.codes, c);
  }

  /** Where compression is after i minutes, in the buffer and in the list. */
  ghost predicate Between(list: seq<Row>, i: nat, buf: ByteBuffer, head: seq<byte>, lead: seq<byte>,
                          pending: Option<Row>, left: seq<Row>, current: int, count: int, last: Values)
    requires list != [] && i <= 60
    reads buf, buf.content
  {
    && Reached(list, i, Pack(list, i), pending, left, current, count, last)
    && Holds(buf, head, MapFor(list, i), Rest(lead, i, list[0].v, Pack(list, i).body))
  }

  /** The next row: the pending one, or one from the list. The first one's values are written and compared with. */
  method NextRow(csv: CsvBuffer, buf: ByteBuffer, i: nat, pending: Option<Row>, start: int, current: int, count: int,
                 last: Values,
                 ghost list: seq<Row>, ghost head: seq<byte>, ghost lead: seq<byte>)
    returns (next: Option<Row>, newStart: int, newCurrent: int, newLast: Values)
    requires list != [] && i < 60 && Between(list, i, buf, head, lead, pending, csv.list, current, count, last)
    requires i > 0 ==> start == list[0].time
    modifies csv`list, buf, buf.content
    ensures newStart == list[0].time && (buf.content == old(buf.content) || fresh(buf.content))
    ensures next.Some? ==> Fetched(list, i, Pack(list, i), next.value, csv.list, newCurrent, count, newLast)
    ensures next.Some? ==> Holds(buf, head, MapFor(list, i), lead + Triple(list[0].v) + Pack(list, i).body)
    ensures next.None? ==> i > 0 && Between(list, 60, buf, head, lead, None, csv.list, newCurrent, count, newLast)
  {
    ghost var p, left := Pack(list, i), csv.list;
    next, newStart, newCurrent, newLast := pending, start, current, last;
    if pending.Some? {
      FetchPending(list, i, p, pending.value, csv.list, current, count, last);
    } else if csv.list == [] {
      PackStops(list, i, 60);
    } else {
      var r := csv.list[0];
      next, csv.list := Some(r), csv.list[1..];
      assert left == [r] + csv.list;
      if i == 0 {
        newStart, newCurrent, newLast := r.time, r.time, r.v;
        FetchFirst(list, p, r, csv.list);
        WriteTriple(buf, r.v, head, MapFor(list, i), lead);
        assert lead + Triple(r.v) + [] == lead + Triple(r.v);
      } else {
        FetchNext(list, i, p, r, csv.list, current, count, last);
      }
    }
  }

  /** One minute, unless the rows have run out. */
  method NextMinute(csv: CsvBuffer, buf: ByteBuffer, i: nat, pending: Option<Row>, start: int, current: int,
                    count: int, last: Values,
                    ghost list: seq<Row>, ghost head: seq<byte>, ghost lead: seq<byte>)
    returns (more: bool, stillPending: Option<Row>, newStart: int, newCurrent: int, newCount: int, newLast: Values)
    requires list != [] && i < 60 && Between(list, i, buf, head, lead, pending, csv.list, current, count, last)
    requires i > 0 ==> start == list[0].time
    modifies csv`list, buf, buf.content
    ensures newStart == list[0].time && (buf.content == old(buf.content) || fresh(buf.content))
    ensures Between(list, if more then i + 1 else 60, buf, head, lead, stillPending, csv.list, newCurrent, newCount,
            newLast)
  {
    var next;
    next, newStart, newCurrent, newLast := NextRow(csv, buf, i, pending, start, current, count, last, list, head, lead);
    more, stillPending, newCount := next.Some?, None, count;
    if more {
      stillPending, newLast := CompressMinute(buf, i, next.value, newCurrent, count, newLast, list, csv.list, head,
                                              lead, Pack(list, i));
      newCurrent, newCount := newCurrent + 60, count + 1;
    }
  }

  lemma {:induction false} BeforeFirst(list: seq<Row>, buf: ByteBuffer, head: seq<byte>, lead: seq<byte>)
    requires list != [] && Holds(buf, head, Zeros(24), lead)
    ensures Between(list, 0, buf, head, lead, None, list, 0, 0, Values(0, 0, 0))
  {
    assert list[0..] == list;
  }

  /** The minutes of an hour, or of as much of it as the list has. */
  method CompressMinutes(csv: CsvBuffer, buf: ByteBuffer, ghost head: seq<byte>, ghost lead: seq<byte>,
                         ghost list: seq<Row>)
    returns (pending: Option<Row>, start: int, current: int, count: int, last: Values)
    requires csv.list != [] && list == csv.list && Holds(buf, head, Zeros(24), lead)
    modifies csv`list, buf, buf.content
    ensures Between(list, 60, buf, head, lead, pending, csv.list, current, count, last) && start == list[0].time
    ensures buf.content == old(buf.content) || fresh(buf.content)
  {
    var i, more := 0, true;
    pending, start, current, count, last := None, 0, 0, 0, Values(0, 0, 0);
    BeforeFirst(list, buf, head, lead);
    while i < MAX_ROWS && more
      invariant i <= 60 && (i > 0 || !more ==> start == list[0].time)
      invariant Between(list, if more then i else 60, buf, head, lead, pending, csv.list, current, count, last)
      invariant buf.content == old(buf.content) || fresh(buf.content)
    {
      more, pending, start, current, count, last :=
        NextMinute(csv, buf, i, pending, start, current, count, last, list, head, lead);
      i := i + 1;
    }
  }

  /**
   Compress the first hour of a channel's rows. The bytes are the compressed form of the list; the rows that went
   into it are gone from the list and all others are still there; the buffer starts at the first row left, or
   where the message ends. The end time stays.
   */
  method CsvToMsh(csv: CsvBuffer) returns (msh: array<byte>, length: nat)
    requires csv.list != []
    modifies csv`list, csv`startTime
    ensures length <= msh.Length && msh[..length] == Compress(old(csv.list), csv.channel, csv.description)
    ensures var p := Pack(old(csv.list), MAX_ROWS);
            && csv.list == old(csv.list)[p.used..]
            && csv.startTime == if csv.list == [] then old(csv.list)[0].time + 60 * (p.count - 1) else csv.list[0].time
  {
    ghost var list, p := csv.list, Pack(csv.list, 60);
    var buf: ByteBuffer;
    ghost var head, lead;
    buf, head, lead := Begin(csv.description);
    var pending, start, current, count, last := CompressMinutes(csv, buf, head, lead, list);
    var end := current - 60;
    match pending {
      case None =>
      case Some(r) => csv.list := [r] + csv.list;
    }
    csv.startTime := if csv.list == [] then end else csv.list[0].time;
    ghost var rest := lead + Triple(list[0].v) + p.body;
    WriteTriple(buf, last, head, MapFor(list, 60), rest);
    Patch(buf, start, end, csv.channel, count, MapFor(list, 60), rest + Triple(last));
    MessageDone(list, csv.channel, csv.description, start, end, p, buf.data, lead);
    length := buf.length;
    msh := buf.Detach();
  }

  lemma {:induction false} MessageDone(list: seq<Row>, channel: int, description: seq<byte>, start: int, end: int,
                                       p: Packed,
                                       data: seq<byte>, lead: seq<byte>)
    requires list != [] && p == Pack(list, 60) && start == list[0].time && end == start + 60 * p.count - 60
    requires lead == [|Description(description)|] + Description(description) + [0]
    requires data == Head(start, end, channel, p.count) + MapFor(list, 60)
             + (lead + Triple(list[0].v) + p.body + Triple(p.last))
    ensures data == Compress(list, channel, description)
  {
  }

  // -------------------------------------------------------- reading a message

  /** A minute that cannot be read stops the reading. */
  lemma {:induction false} MinutesFail(dec: Decoder, raw: seq<byte>, rowMap: seq<byte>, from: Reading, k: nat, n: nat)
    requires k <= n && ReadMinutes(dec, raw, rowMap, from, k).None?
    ensures ReadMinutes(dec, raw, rowMap, from, n).None?
  {
    if k < n {
      MinutesFail(dec, raw, rowMap, from, k, n - 1);
    }
  }

  lemma {:induction false} ChangesFail(dec: Decoder, raw: seq<byte>, pos: nat, last: Values, k: nat, n: nat)
    requires k <= n && ReadChanges(dec, raw, pos, last, k).None?
    ensures ReadChanges(dec, raw, pos, last, n).None?
  {
    if k < n {
      ChangesFail(dec, raw, pos, last, k, n - 1);
    }
  }

  /** Read an integer and move behind it. */
  method NextInt(raw: seq<byte>, pos: nat) returns (ok: bool, v: int32, next: nat)
    ensures ReadInt32(Varint.Decode, raw, pos) == if ok then Some((v, next)) else None
  {
    ok, v, next := false, 0, pos;
    match Varint.Decode(raw, pos)
    case None =>
    case Some((u, n)) => ok, v, next := true, Wrap32(u), pos + n;
  }

  method NextTriple(raw: seq<byte>, pos: nat) returns (ok: bool, v: Values, next: nat)
    ensures ReadTriple(Varint.Decode, raw, pos) == if ok then Some((v, next)) else None
  {
    v := Values(0, 0, 0);
    var a, h, l;
    ok, a, next := NextInt(raw, pos);
    if ok {
      ok, h, next := NextInt(raw, next);
      if ok {
        ok, l, next := NextInt(raw, next);
        v := Values(a, h, if ok then l else 0);
      }
    }
  }

  /** Read the changes of a row, each added to the value that its type names. */
  method NextChanges(raw: seq<byte>, pos: nat, last: Values, code: nat) returns (ok: bool, p: nat, v: Values)
    ensures ReadChanges(Varint.Decode, raw, pos, last, code) == if ok then Some((p, v)) else None
  {
    ok, p, v := true, pos, last;
    for j := 0 to code
      invariant ReadChanges(Varint.Decode, raw, pos, last, j) == Some((p, v))
    {
      match ReadChange(Varint.Decode, raw, p, v)
      case None =>
        ok := false;
        ChangesFail(Varint.Decode, raw, pos, last, j + 1, code);
        return;
      case Some((q, w)) => p, v := q, w;
    }
  }

  /** Read one minute. */
  method ReadOneMinute(raw: seq<byte>, code: nat, from: Reading) returns (ok: bool, r: Reading)
    ensures ReadMinute(Varint.Decode, raw, code, from) == if ok then Some(r) else None
  {
    ok, r := true, from.(time := from.time + 60);
    if code <= 3 {
      var pos, last;
      ok, pos, last := NextChanges(raw, from.pos, from.last, code);
      r := Reading(pos, last, from.time + 60, from.rows + [Row(from.time, last, false)]);
    }
  }

  /** Read the minutes by the row map. */
  method NextMinutes(raw: seq<byte>, rowMap: seq<byte>, from: Reading, count: nat) returns (ok: bool, r: Reading)
    ensures ReadMinutes(Varint.Decode, raw, rowMap, from, count) == if ok then Some(r) else None
  {
    ok, r := true, from;
    for i := 0 to count
      invariant ReadMinutes(Varint.Decode, raw, rowMap, from, i) == Some(r)
    {
      if i / 8 * 3 + 3 > |rowMap| {
        ok := false;
      } else {
        ok, r := ReadOneMinute(raw, RowMap.Get(rowMap, i), r);
      }
      if !ok {
        MinutesFail(Varint.Decode, raw, rowMap, from, i + 1, count);
        return;
      }
    }
  }

  /** Read a message, as long as its version is known and its last values agree with those reached. */
  method MshToCsv(raw: seq<byte>) returns (csv: Option<Decoded>)
    ensures csv == Decode(raw)
  {
    if |raw| < 39 || Read16(raw, 0) % 0x8000 > 1 || raw[38] > 8 || 40 + raw[38] > |raw| {
      return None;
    }
    csv := None;
    var start, end, channel, count, rowMap := Read32(raw, 2), Read32(raw, 6), Read16(raw, 10), Read16(raw, 12),
        raw[14..];
    var ok, first, pos := NextTriple(raw, 40 + raw[38]);
    if ok {
      var r;
      ok, r := NextMinutes(raw, rowMap, Reading(pos, first, start, []), count);
      if ok {
        var final;
        ok, final, pos := NextTriple(raw, r.pos);
        if ok && final == r.last {
          csv := Some(Decoded(start, end, channel, CutAtZero(raw[39..39 + raw[38]]), r.rows, pos));
        }
      }
    }
  }
}
