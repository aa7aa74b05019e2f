/**
 The FMash format on values: what an hour of rows is compressed to, what a message is read as, and that
 reading gives the compressed rows back.
 */
module FMashSpec {
  import opened Common
  import Varint
  import RowMap

  const MAX_ROWS: nat := 60
  const NO_DATA: nat := 7

  datatype Values = Values(average: int32, high: int32, low: int32)

  /** A minute's row; an empty one has no data. */
  datatype Row = Row(time: int, v: Values, empty: bool)

  // ------------------------------------------------------------- compression

  /** The 32-bit difference of two values. */
  function Delta(x: int32, y: int32): int32 {
    Wrap32(x - y)
  }

  /** Only what changed is written, with its type: 1 for the average, 2 for the high, 3 for the low value. */
  function Change(v: int32, last: int32, tag: nat): seq<byte>
    requires tag <= 3
  {
    if Delta(v, last) == 0 then [] else Varint.Encode(Delta(v, last), tag)
  }

  function Changed(v: int32, last: int32): nat {
    if Delta(v, last) == 0 then 0 else 1
  }

  function Changes(v: Values, last: Values): seq<byte> {
    Change(v.average, last.average, 1) + Change(v.high, last.high, 2) + Change(v.low, last.low, 3)
  }

  /** The number of values that changed is the row's entry in the row map. */
  function Code(v: Values, last: Values): (c: nat)
    ensures c <= 3
  {
    Changed(v.average, last.average) + Changed(v.high, last.high) + Changed(v.low, last.low)
  }

  /** Rows taken from the list so far, minutes passed, last values, row map entries, bytes, rows with data. */
  datatype Packed = Packed(used: nat, count: nat, last: Values, codes: seq<nat>, body: seq<byte>, rows: seq<Row>)

  /** One minute: its row is packed if the list has it next, otherwise the minute has no data. */
  function PackMinute(list: seq<Row>, p: Packed): Packed
    requires p.used < |list|
  {
    var r := list[p.used];
    if r.time != list[0].time + 60 * p.count then p.(count := p.count + 1, codes := p.codes + [NO_DATA])
    else if r.empty then p.(used := p.used + 1, count := p.count + 1, codes := p.codes + [NO_DATA])
    else Packed(p.used + 1, p.count + 1, r.v, p.codes + [Code(r.v, p.last)], p.body + Changes(r.v, p.last),
                p.rows + [r])
  }

  /** n minutes from the first row on, fewer if the list runs out. */
  function Pack(list: seq<Row>, n: nat): (p: Packed)
    requires list != []
    ensures p.used <= |list| && p.count <= n && |p.codes| == p.count
    ensures p.used < |list| ==> p.count == n
  {
    if n == 0 then Packed(0, 0, list[0].v, [], [], [])
    else
      var p := Pack(list, n - 1);
      if p.used < |list| then PackMinute(list, p) else p
  }

  function WithData(rows: seq<Row>): seq<Row> {
    if rows == [] then []
    else WithData(rows[..|rows| - 1]) + if rows[|rows| - 1].empty then [] else [rows[|rows| - 1]]
  }

  /** What is packed are exactly the rows taken that have data, whatever the list: no row is skipped or changed. */
  lemma {:induction false} PackTakes(list: seq<Row>, n: nat)
    requires list != []
    ensures var p := Pack(list, n); p.rows == WithData(list[..p.used]) && (n > 0 ==> p.used >= 1 && p.count >= 1)
  {
    if n > 0 {
      PackTakes(list, n - 1);
      var p := Pack(list, n - 1);
      if p.used < |list| {
        assert list[..p.used + 1][..p.used] == list[..p.used];
      }
    }
  }

  /** Row j comes after the one before it, whole minutes after the first row, and within the first n minutes. */
  predicate OnTheMinute(list: seq<Row>, j: nat, n: nat)
    requires j < |list|
  {
    && (list[j].time - list[0].time) % 60 == 0 && list[j].time < list[0].time + 60 * n
    && (j > 0 ==> list[j - 1].time < list[j].time)
  }

  /** The rows before row i, and it too, are each on a minute of their own. */
  ghost predicate AllOnTheMinute(list: seq<Row>, i: nat, n: nat)
    requires i < |list|
  {
    forall j :: 0 <= j <= i ==> OnTheMinute(list, j, n)
  }

  /** Of the rows just the first u are taken in n minutes. */
  ghost predicate TakenJust(list: seq<Row>, u: nat, n: nat)
  {
    forall i :: 0 <= i < |list| ==> (i < u <==> AllOnTheMinute(list, i, n))
  }

  /** A row is taken in n minutes if and only if it and all rows before it are on minutes of their own among these. */
  lemma {:induction false} PackTakesIff(list: seq<Row>, n: nat)
    requires list != []
    ensures TakenJust(list, Pack(list, n).used, n) && (Pack(list, n).used < |list| ==> Pack(list, n).count == n)
  {
    if n == 0 {
      forall i | 0 <= i < |list|
        ensures !AllOnTheMinute(list, i, 0)
      {
        assert !OnTheMinute(list, 0, 0);
      }
    } else {
      PackTakesIff(list, n - 1);
      TakenNext(list, n - 1, Pack(list, n - 1).used, n, Pack(list, n).used);
    }
  }

  lemma {:induction false} TakenNext(list: seq<Row>, m: nat, u: nat, n: nat, v: nat)
    requires TakenJust(list, u, m) && n == m + 1 && u <= |list| && list != []
    requires v == if u < |list| && list[u].time == list[0].time + 60 * m then u + 1 else u
    ensures TakenJust(list, v, n)
  {
    forall i | 0 <= i < |list|
      ensures i < v <==> AllOnTheMinute(list, i, n)
    {
      if i < u {
        OneMoreMinute(list, i, m, n);
      } else {
        if u > 0 {
          assert AllOnTheMinute(list, u - 1, m);
        }
        NextTaken(list, m, u, n, i, v);
      }
    }
  }

  lemma {:induction false} OneMoreMinute(list: seq<Row>, i: nat, m: nat, n: nat)
    requires i < |list| && AllOnTheMinute(list, i, m) && n == m + 1
    ensures AllOnTheMinute(list, i, n)
  {
    forall j | 0 <= j <= i
      ensures OnTheMinute(list, j, n)
    {
      assert OnTheMinute(list, j, m);
    }
  }

  /** Of the rows not taken in m minutes only the first one can be taken in the next. */
  lemma {:induction false} NextTaken(list: seq<Row>, m: nat, u: nat, n: nat, i: nat, v: nat)
    requires u <= i < |list| && n == m + 1 && !AllOnTheMinute(list, u, m)
    requires u > 0 ==> AllOnTheMinute(list, u - 1, m)
    requires v == if list[u].time == list[0].time + 60 * m then u + 1 else u
    ensures i < v <==> AllOnTheMinute(list, i, n)
  {
    FirstLeft(list, m, u, n);
    AllBefore(list, u, i, n);
    if i > u {
      NoneBetween(list[u].time - list[0].time, list[u + 1].time - list[0].time, m, n);
      assert AllOnTheMinute(list, i, n) ==> OnTheMinute(list, u + 1, n);
    }
  }

  lemma {:induction false} AllBefore(list: seq<Row>, u: nat, i: nat, n: nat)
    requires u <= i < |list|
    ensures AllOnTheMinute(list, i, n) ==> AllOnTheMinute(list, u, n)
  {
    if AllOnTheMinute(list, i, n) {
      forall j | 0 <= j <= u
        ensures OnTheMinute(list, j, n)
      {
      }
    }
  }

  lemma {:induction false} NoneBetween(a: int, b: int, m: nat, n: nat)
    requires n == m + 1
    ensures a == 60 * m && b % 60 == 0 && b < 60 * n ==> b <= a
  {
  }

  /** The first row left is on a minute of its own among n exactly if it is on the last of these. */
  lemma {:induction false} FirstLeft(list: seq<Row>, m: nat, u: nat, n: nat)
    requires u < |list| && n == m + 1 && !AllOnTheMinute(list, u, m)
    requires u > 0 ==> AllOnTheMinute(list, u - 1, m)
    ensures AllOnTheMinute(list, u, n) <==> list[u].time == list[0].time + 60 * m
  {
    if u > 0 {
      OneMoreMinute(list, u - 1, m, n);
      assert OnTheMinute(list, u - 1, m);
    }
    assert !OnTheMinute(list, u, m);
    LessThanMinutes(list[u].time - list[0].time, m, n);
    if list[u].time == list[0].time + 60 * m {
      assert OnTheMinute(list, u, n);
      forall j | 0 <= j <= u
        ensures OnTheMinute(list, j, n)
      {
        if j < u {
          assert AllOnTheMinute(list, u - 1, n);
        }
      }
    } else {
      assert !OnTheMinute(list, u, n);
    }
  }

  lemma {:induction false} LessThanMinutes(t: int, m: nat, n: nat)
    requires n == m + 1
    ensures t % 60 == 0 && t < 60 * n && t != 60 * m ==> t < 60 * m
  {
  }

  /** A minute takes no bytes if and only if none of its values changed, and a change at most five. */
  lemma {:induction false} UnchangedFree(v: Values, last: Values)
    ensures Changes(v, last) == [] <==> v == last
    ensures v.high == last.high && v.low == last.low ==> |Changes(v, last)| <= 5
    ensures v.low == last.low ==> |Changes(v, last)| <= 10
  {
  }

  // ------------------------------------------------------------------ reading

  /** Reads an integer at a position: its value and the number of its bytes. */
  type Decoder = (seq<byte>, nat) -> Option<(int, nat)>

  datatype Reading = Reading(pos: nat, last: Values, time: int, rows: seq<Row>)

  /** Read one change at a position; type 0 is no change and does not move the position. */
  function ReadChange(dec: Decoder, raw: seq<byte>, pos: nat, last: Values): Option<(nat, Values)> {
    if pos >= |raw| then None
    else if raw[pos] % 4 == 0 then Some((pos, last))
    else
      match dec(raw, pos)
      case None => None
      case Some((d, n)) =>
        if raw[pos] % 4 == 1 then Some((pos + n, last.(average := Wrap32(last.average + d))))
        else if raw[pos] % 4 == 2 then Some((pos + n, last.(high := Wrap32(last.high + d))))
        else Some((pos + n, last.(low := Wrap32(last.low + d))))
  }

  function ReadChanges(dec: Decoder, raw: seq<byte>, pos: nat, last: Values, k: nat): Option<(nat, Values)> {
    if k == 0 then Some((pos, last))
    else
      match ReadChanges(dec, raw, pos, last, k - 1)
      case None => None
      case Some((p, l)) => ReadChange(dec, raw, p, l)
  }

  /** A row with the entry 0 to 3 has that many changes; any other entry means no row for the minute. */
  function ReadMinute(dec: Decoder, raw: seq<byte>, code: nat, r: Reading): Option<Reading> {
    if code <= 3 then
      match ReadChanges(dec, raw, r.pos, r.last, code)
      case None => None
      case Some((p, l)) => Some(Reading(p, l, r.time + 60, r.rows + [Row(r.time, l, false)]))
    else Some(r.(time := r.time + 60))
  }

  /** The first n minutes by the row map. */
  function ReadMinutes(dec: Decoder, raw: seq<byte>, rowMap: seq<byte>, start: Reading, n: nat): Option<Reading> {
    if n == 0 then Some(start)
    else
      match ReadMinutes(dec, raw, rowMap, start, n - 1)
      case None => None
      case Some(r) => if (n - 1) / 8 * 3 + 3 > |rowMap| then None
          else ReadMinute(dec, raw, RowMap.Get(rowMap, n - 1), r)
  }

  // --------------------------------------------------------------- round trip

  /** A piece stands at a position. */
  predicate At(raw: seq<byte>, pos: nat, piece: seq<byte>) {
    pos + |piece| <= |raw| && raw[pos..pos + |piece|] == piece
  }

  lemma {:induction false} AtSplit(raw: seq<byte>, pos: nat, a: seq<byte>, b: seq<byte>)
    requires At(raw, pos, a + b)
    ensures At(raw, pos, a) && At(raw, pos + |a|, b)
  {
    var c := a + b;
    assert raw[pos..pos + |a|] == raw[pos..pos + |c|][..|a|];
    assert raw[pos + |a|..pos + |c|] == raw[pos..pos + |c|][|a|..];
  }

  /** A decoder of integers that gives back every one that was encoded. */
  ghost predicate Inverts(dec: Decoder) {
    forall raw: seq<byte>, pos: nat, v: int32, tag: nat ::
      tag <= 3 && At(raw, pos, Varint.Encode(v, tag)) ==> dec(raw, pos) == Some((v as int, Varint.Size(v)))
  }

  lemma {:induction false} VarintInverts()
    ensures Inverts(Varint.Decode)
  {
    forall raw: seq<byte>, pos: nat, v: int32, tag: nat | tag <= 3 && At(raw, pos, Varint.Encode(v, tag))
      ensures Varint.Decode(raw, pos) == Some((v as int, Varint.Size(v)))
    {
      var e := Varint.Encode(v, tag);
      Varint.RoundTrip(v, tag, raw[..pos], raw[pos + |e|..]);
      assert raw == raw[..pos] + (e + raw[pos + |e|..]);
    }
  }

  /** A value that stands at a position is read back with its type. */
  lemma {:induction false} ReadValue(dec: Decoder, raw: seq<byte>, pos: nat, v: int32, tag: nat)
    requires Inverts(dec) && tag <= 3 && At(raw, pos, Varint.Encode(v, tag))
    ensures dec(raw, pos) == Some((v as int, Varint.Size(v))) && raw[pos] % 4 == tag
  {
    var e := Varint.Encode(v, tag);
    Varint.FirstHasTag(v, tag);
    assert raw[pos] == raw[pos..pos + |e|][0];
  }

  /** The last values after one of them has changed. */
  function Updated(last: Values, v: int32, tag: nat): Values {
    if tag == 1 then last.(average := v) else if tag == 2 then last.(high := v) else last.(low := v)
  }

  function Part(last: Values, tag: nat): int32 {
    if tag == 1 then last.average else if tag == 2 then last.high else last.low
  }

  /** A written change is read as the new value, wrap-around of the difference included. */
  lemma {:induction false} ReadOneChange(dec: Decoder, raw: seq<byte>, pos: nat, last: Values, v: int32, tag: nat)
    requires Inverts(dec) && 1 <= tag <= 3 && Delta(v, Part(last, tag)) != 0
             && At(raw, pos, Change(v, Part(last, tag), tag))
    ensures ReadChange(dec, raw, pos, last) == Some((pos + |Change(v, Part(last, tag), tag)|, Updated(last, v, tag)))
  {
    var d := Delta(v, Part(last, tag));
    ReadValue(dec, raw, pos, d, tag);
    WrapDifference(Part(last, tag), v);
  }

  lemma {:induction false} NoDelta(v: int32, last: int32)
    ensures Delta(v, last) == 0 <==> v == last
  {
  }

  /** Reading one value's change, if it has one, after k others. */
  lemma {:induction false} ReadNext(dec: Decoder, raw: seq<byte>, pos: nat, from: Values, k: nat, p: nat,
                                    last: Values, v: int32, tag: nat,
                                    piece: seq<byte>, j: nat, q: nat, next: Values)
    requires Inverts(dec) && 1 <= tag <= 3 && piece == Change(v, Part(last, tag), tag) && At(raw, p, piece)
    requires ReadChanges(dec, raw, pos, from, k) == Some((p, last))
    requires j == k + Changed(v, Part(last, tag)) && q == p + |piece| && next == Updated(last, v, tag)
    ensures ReadChanges(dec, raw, pos, from, j) == Some((q, next))
  {
    NoDelta(v, Part(last, tag));
    if Delta(v, Part(last, tag)) != 0 {
      ReadOneChange(dec, raw, p, last, v, tag);
    }
  }

  /** The changes of a row are read as the row's values. */
  lemma {:induction false} ReadRow(dec: Decoder, raw: seq<byte>, pos: nat, v: Values, last: Values, piece: seq<byte>,
                                   code: nat, next: nat)
    requires Inverts(dec) && piece == Changes(v, last) && At(raw, pos, piece) && code == Code(v, last)
             && next == pos + |piece|
    ensures ReadChanges(dec, raw, pos, last, code) == Some((next, v))
  {
    var a, b, c := Change(v.average, last.average, 1), Change(v.high, last.high, 2), Change(v.low, last.low, 3);
    AtSplit(raw, pos, a + b, c);
    AtSplit(raw, pos, a, b);
    var k := Changed(v.average, last.average);
    ReadThreeChanges(dec, raw, pos, v, last, a, b, c, k, k + Changed(v.high, last.high), code, pos + |a|,
                     pos + |a| + |b|, next);
  }

  lemma {:induction false} ReadThreeChanges(dec: Decoder, raw: seq<byte>, pos: nat, v: Values, last: Values,
                                            a: seq<byte>, b: seq<byte>, c: seq<byte>, k: nat, j: nat, code: nat,
                                            p: nat, q: nat, next: nat)
    requires Inverts(dec) && At(raw, pos, a) && At(raw, p, b) && At(raw, q, c) && p == pos + |a| && q == p + |b|
             && next == q + |c|
    requires a == Change(v.average, last.average, 1) && b == Change(v.high, last.high, 2)
             && c == Change(v.low, last.low, 3)
    requires k == Changed(v.average, last.average) && j == k + Changed(v.high, last.high)
             && code == j + Changed(v.low, last.low)
    ensures ReadChanges(dec, raw, pos, last, code) == Some((next, v))
  {
    var first, second := last.(average := v.average), last.(average := v.average, high := v.high);
    ReadNext(dec, raw, pos, last, 0, pos, last, v.average, 1, a, k, p, first);
    ReadNext(dec, raw, pos, last, k, p, first, v.high, 2, b, j, q, second);
    ReadNext(dec, raw, pos, last, j, q, second, v.low, 3, c, code, next, v);
  }

  /** Rows with their times moved. */
  function Moved(rows: seq<Row>, shift: int): (r: seq<Row>)
    ensures |r| == |rows|
  {
    seq(|rows|, i requires 0 <= i < |rows| => rows[i].(time := rows[i].time + shift))
  }

  lemma {:induction false} MovedAppend(rows: seq<Row>, r: Row, shift: int)
    ensures Moved(rows + [r], shift) == Moved(rows, shift) + [r.(time := r.time + shift)]
  {
  }

  lemma {:induction false} MovedByZero(rows: seq<Row>)
    ensures Moved(rows, 0) == rows
  {
  }

  /** The row map has the entries of the packed minutes. */
  ghost predicate MapHas(rowMap: seq<byte>, codes: seq<nat>) {
    |rowMap| >= 24 && |codes| <= 60 && forall i :: 0 <= i < |codes| ==> RowMap.Get(rowMap, i) == codes[i]
  }

  /** Where a reader is after the minutes of p: at the end of their bytes, with their rows at times moved by `shift`. */
  function ReadingAfter(p: Packed, pos: nat, start: int, shift: int): Reading {
    Reading(pos + |p.body|, p.last, start + 60 * p.count, Moved(p.rows, shift))
  }

  /** Reading what has been packed so far gives the rows with data. */
  ghost predicate Reads(dec: Decoder, raw: seq<byte>, rowMap: seq<byte>, pos: nat, first: Values, start: int,
                        shift: int, p: Packed)
  {
    ReadMinutes(dec, raw, rowMap, Reading(pos, first, start, []), p.count) == Some(ReadingAfter(p, pos, start, shift))
  }

  /**
   Reading what n minutes were packed to gives the rows with data, at times moved by as much as the start was,
   and ends where the packed bytes end.
   */
  lemma {:induction false} ReadPacked(dec: Decoder, list: seq<Row>, n: nat, p: Packed, raw: seq<byte>,
                                      rowMap: seq<byte>, pos: nat, start: int, shift: int)
    requires Inverts(dec) && list != [] && n <= 60 && p == Pack(list, n) && MapHas(rowMap, p.codes)
             && At(raw, pos, p.body)
    requires start == list[0].time + shift
    ensures Reads(dec, raw, rowMap, pos, list[0].v, start, shift, p)
  {
    if n > 0 {
      var o := Pack(list, n - 1);
      if o.used < |list| {
        PackGrows(list, o, p, raw, rowMap, pos);
        ReadPacked(dec, list, n - 1, o, raw, rowMap, pos, start, shift);
        ReadPackedMinute(dec, list, o, p, raw, rowMap, pos, start, shift);
      } else {
        ReadPacked(dec, list, n - 1, o, raw, rowMap, pos, start, shift);
      }
    }
  }

  /** A minute only appends to the row map entries and to the bytes. */
  lemma {:induction false} PackGrows(list: seq<Row>, p: Packed, q: Packed, raw: seq<byte>, rowMap: seq<byte>, pos: nat)
    requires p.used < |list| && q == PackMinute(list, p) && MapHas(rowMap, q.codes) && At(raw, pos, q.body)
    ensures MapHas(rowMap, p.codes) && At(raw, pos, p.body) && q.codes[..|p.codes|] == p.codes
  {
    var r := list[p.used];
    var more := if r.time == list[0].time + 60 * p.count && !r.empty then Changes(r.v, p.last) else [];
    assert q.body == p.body + more;
    AtSplit(raw, pos, p.body, more);
    assert forall i :: 0 <= i < |p.codes| ==> q.codes[i] == p.codes[i];
  }

  /** What is read for the next minute, from its row map entry. */
  lemma {:induction false} ReadPackedMinute(dec: Decoder, list: seq<Row>, p: Packed, q: Packed, raw: seq<byte>,
                                            rowMap: seq<byte>, pos: nat, start: int, shift: int)
    requires Inverts(dec) && p.used < |list| && q == PackMinute(list, p) && MapHas(rowMap, q.codes)
             && At(raw, pos, q.body) && |p.codes| == p.count
    requires start == list[0].time + shift && Reads(dec, raw, rowMap, pos, list[0].v, start, shift, p)
    ensures Reads(dec, raw, rowMap, pos, list[0].v, start, shift, q)
  {
    var before, after, code := ReadingAfter(p, pos, start, shift), ReadingAfter(q, pos, start, shift), q.codes[p.count];
    assert RowMap.Get(rowMap, p.count) == code;
    NextMinute(dec, raw, rowMap, Reading(pos, list[0].v, start, []), p.count, before, code);
    MinuteReads(dec, list, p, q, raw, pos, start, shift, code, before, after);
  }

  lemma {:induction false} NextMinute(dec: Decoder, raw: seq<byte>, rowMap: seq<byte>, from: Reading, n: nat,
                                      r: Reading, code: nat)
    requires ReadMinutes(dec, raw, rowMap, from, n) == Some(r) && |rowMap| >= 24 && n < 60
             && RowMap.Get(rowMap, n) == code
    ensures ReadMinutes(dec, raw, rowMap, from, n + 1) == ReadMinute(dec, raw, code, r)
  {
  }

  lemma {:induction false} MinuteReads(dec: Decoder, list: seq<Row>, p: Packed, q: Packed, raw: seq<byte>, pos: nat,
                                       start: int, shift: int,
                                       code: nat, before: Reading, after: Reading)
    requires Inverts(dec) && p.used < |list| && q == PackMinute(list, p) && At(raw, pos, q.body) && |p.codes| == p.count
    requires start == list[0].time + shift && code == q.codes[p.count]
    requires before == ReadingAfter(p, pos, start, shift) && after == ReadingAfter(q, pos, start, shift)
    ensures ReadMinute(dec, raw, code, before) == Some(after)
  {
    var r := list[p.used];
    if r.time == list[0].time + 60 * p.count && !r.empty {
      AtSplit(raw, pos, p.body, Changes(r.v, p.last));
      DataMinute(dec, raw, before, r.v, code, Changes(r.v, p.last));
      MovedAppend(p.rows, r, shift);
    }
  }

  lemma {:induction false} DataMinute(dec: Decoder, raw: seq<byte>, r: Reading, v: Values, code: nat, piece: seq<byte>)
    requires Inverts(dec) && piece == Changes(v, r.last) && code == Code(v, r.last) && At(raw, r.pos, piece)
    ensures ReadMinute(dec, raw, code, r) == Some(Reading(r.pos + |piece|, v, r.time + 60,
            r.rows + [Row(r.time, v, false)]))
  {
    ReadRow(dec, raw, r.pos, v, r.last, piece, code, r.pos + |piece|);
    MinuteFrom(dec, raw, code, r, r.pos + |piece|, v);
  }

  lemma {:induction false} MinuteFrom(dec: Decoder, raw: seq<byte>, code: nat, r: Reading, p: nat, v: Values)
    requires code <= 3 && ReadChanges(dec, raw, r.pos, r.last, code) == Some((p, v))
    ensures ReadMinute(dec, raw, code, r) == Some(Reading(p, v, r.time + 60, r.rows + [Row(r.time, v, false)]))
  {
  }
}
