/**
 The rows of a channel between the files they come from and the messages they go into: which rows of a file
 are taken up, and cutting the rows into messages of an hour.
 */
module Csv {
  import opened Common
  import opened FMashSpec
  import opened FMashMessage
  import opened FMash

  const TM_HOUR: int := 3600

  predicate Increasing(rows: seq<Row>) {
    forall i, j :: 0 <= i < j < |rows| ==> rows[i].time < rows[j].time
  }

  /** The time of the last row, or the given one if there is none. */
  function LastTime(rows: seq<Row>, end: int): int {
    if rows == [] then end else rows[|rows| - 1].time
  }

  /** Rows as they are read from a file: they have data, and two-digit years keep their times within 32 bits. */
  ghost predicate Plausible(rows: seq<Row>) {
    forall i :: 0 <= i < |rows| ==> !rows[i].empty && rows[i].time < 0x1_0000_0000
  }

  /**
   The rows taken up so far, into messages or still in the list, have strictly increasing times, the last of them
   being the end time; the start time is no later than the first row of the list, and is the end time if there is none.
   */
  ghost predicate Sound(taken: seq<Row>, list: seq<Row>, start: int, end: int) {
    && Increasing(taken + list) && Plausible(list) && 0 <= end == LastTime(taken + list, 0)
    && (forall i :: 0 <= i < |list| ==> 0 < list[i].time)
    && (list == [] ==> start == end) && (list != [] ==> 0 < start <= list[0].time)
  }

  ghost predicate Valid(csv: CsvBuffer)
    reads csv
  {
    && Sound(csv.taken, csv.list, csv.startTime, csv.endTime)
    && 0 <= csv.channel < 65536 && forall i :: 0 <= i < |csv.description| ==> csv.description[i] != 0
  }

  // ------------------------------------------------------------ taking rows up

  predicate Wanted(r: Row, end: int, initial: int) {
    end < r.time && (initial == 0 || r.time > initial)
  }

  /** The rows of a file that are taken up after a given end time. */
  function Admitted(rows: seq<Row>, end: int, initial: int): seq<Row> {
    if rows == [] then []
    else if Wanted(rows[0], end, initial) then [rows[0]] + Admitted(rows[1..], rows[0].time, initial)
    else Admitted(rows[1..], end, initial)
  }

  function Newer(rows: seq<Row>, end: int, initial: int): seq<Row> {
    if rows == [] then []
    else (if Wanted(rows[0], end, initial) then [rows[0]] else []) + Newer(rows[1..], end, initial)
  }

  /** Of a file in order of time just the rows after the end time and the initial time, if any, are taken up. */
  lemma {:induction false} OrderedFileTakes(rows: seq<Row>, end: int, initial: int, i: nat)
    requires Increasing(rows) && i < |rows|
    ensures rows[i] in Admitted(rows, end, initial) <==>
              rows[i].time > end && (initial == 0 || rows[i].time > initial)
  {
    OrderedFileComplete(rows, end, initial);
    NewerIff(rows, end, initial, rows[i]);
  }

  lemma {:induction false} NewerIff(rows: seq<Row>, end: int, initial: int, r: Row)
    ensures r in Newer(rows, end, initial) <==> r in rows && r.time > end && (initial == 0 || r.time > initial)
  {
    if rows != [] {
      NewerIff(rows[1..], end, initial, r);
      assert r in rows <==> r == rows[0] || r in rows[1..];
    }
  }

  lemma {:induction false} NewerSkips(rows: seq<Row>, end: int, later: int, initial: int)
    requires end <= later && forall i :: 0 <= i < |rows| ==> later < rows[i].time
    ensures Newer(rows, end, initial) == Newer(rows, later, initial)
  {
    if rows != [] {
      NewerSkips(rows[1..], end, later, initial);
    }
  }

  /** Of a file in order of time every row after the end time and the initial time is taken up. */
  lemma {:induction false} OrderedFileComplete(rows: seq<Row>, end: int, initial: int)
    requires Increasing(rows)
    ensures Admitted(rows, end, initial) == Newer(rows, end, initial)
  {
    if rows != [] {
      if Wanted(rows[0], end, initial) {
        OrderedFileComplete(rows[1..], rows[0].time, initial);
        NewerSkips(rows[1..], end, rows[0].time, initial);
      } else {
        OrderedFileComplete(rows[1..], end, initial);
      }
    }
  }

  /** What is taken up is increasing and after the end time, in whatever order the file is. */
  lemma {:induction false} AdmittedIncreases(rows: seq<Row>, end: int, initial: int)
    ensures var a := Admitted(rows, end, initial);
            Increasing(a) && end <= LastTime(a, end) && forall i :: 0 <= i < |a| ==> end < a[i].time
  {
    if rows != [] {
      AdmittedIncreases(rows[1..], if Wanted(rows[0], end, initial) then rows[0].time else end, initial);
    }
  }

  /** Reading a file again takes up none of its rows a second time. */
  lemma {:induction false} AgainNothing(rows: seq<Row>, end: int, initial: int, later: int)
    requires LastTime(Admitted(rows, end, initial), end) <= later
    ensures Admitted(rows, later, initial) == []
  {
    if rows != [] {
      AdmittedIncreases(rows, end, initial);
      if Wanted(rows[0], end, initial) {
        var a := Admitted(rows[1..], rows[0].time, initial);
        AdmittedIncreases(rows[1..], rows[0].time, initial);
        assert LastTime([rows[0]] + a, end) == LastTime(a, rows[0].time);
        AgainNothing(rows[1..], rows[0].time, initial, later);
      } else {
        AgainNothing(rows[1..], end, initial, later);
      }
    }
  }

  lemma {:induction false} SoundAppend(taken: seq<Row>, list: seq<Row>, start: int, end: int, r: Row, newStart: int)
    requires Sound(taken, list, start, end) && end < r.time && !r.empty && r.time < 0x1_0000_0000
    requires newStart == if start == 0 then r.time else start
    ensures Sound(taken, list + [r], newStart, r.time)
  {
    var was, now := taken + list, taken + (list + [r]);
    assert now == was + [r];
    IncreasingAppend(was, end, r);
  }

  lemma {:induction false} IncreasingAppend(was: seq<Row>, end: int, r: Row)
    requires Increasing(was) && end == LastTime(was, 0) && end < r.time
    ensures Increasing(was + [r])
  {
    assert forall i :: 0 <= i < |was| ==> was[i].time <= end;
  }

  /** One row of a file. */
  method AdmitRow(csv: CsvBuffer, r: Row, initial: int)
    requires Valid(csv) && !r.empty && r.time < 0x1_0000_0000
    modifies csv`list, csv`startTime, csv`endTime
    ensures Valid(csv)
    ensures if old(csv.endTime) < r.time && (initial == 0 || initial < r.time)
            then csv.list == old(csv.list) + [r] && csv.endTime == r.time
            else csv.list == old(csv.list) && csv.endTime == old(csv.endTime)
  {
    if csv.endTime < r.time && (initial == 0 || r.time > initial) {
      TakeRow(csv, r);
    }
  }

  /** A row is put behind the others. */
  method TakeRow(csv: CsvBuffer, r: Row)
    requires Valid(csv) && !r.empty && csv.endTime < r.time < 0x1_0000_0000
    modifies csv`list, csv`startTime, csv`endTime
    ensures Valid(csv) && csv.list == old(csv.list) + [r] && csv.endTime == r.time
  {
    SoundAppend(csv.taken, csv.list, csv.startTime, csv.endTime, r, if csv.startTime == 0 then r.time
                else csv.startTime);
    if csv.startTime == 0 {
      csv.startTime := r.time;
    }
    csv.list := csv.list + [r];
    csv.endTime := r.time;
  }

  /** The rows of a file after the first i are still to be taken up. */
  ghost predicate ParsedTo(rows: seq<Row>, i: nat, initial: int, start: int, end: int, added: seq<Row>)
    requires i <= |rows|
  {
    Admitted(rows, start, initial) == added + Admitted(rows[i..], end, initial) && end == LastTime(added, start)
  }

  lemma {:induction false} ParseNext(rows: seq<Row>, i: nat, initial: int, start: int, end: int, added: seq<Row>,
                                     now: seq<Row>, next: int)
    requires i < |rows| && ParsedTo(rows, i, initial, start, end, added)
    requires now == (if Wanted(rows[i], end, initial) then [rows[i]] else []) && next == LastTime(now, end)
    ensures ParsedTo(rows, i + 1, initial, start, next, added + now)
  {
    assert rows[i..][0] == rows[i] && rows[i..][1..] == rows[i + 1..];
    ConcatAssoc(added, now, Admitted(rows[i + 1..], next, initial));
  }

  /** The rows of a file, once its lines have been parsed. */
  method ParseFile(csv: CsvBuffer, rows: seq<Row>, initial: int)
    requires Valid(csv) && Plausible(rows)
    modifies csv`list, csv`startTime, csv`endTime
    ensures Valid(csv) && csv.list == old(csv.list) + Admitted(rows, old(csv.endTime), initial)
    ensures csv.endTime == LastTime(Admitted(rows, old(csv.endTime), initial), old(csv.endTime))
  {
    ghost var start, added := csv.endTime, [];
    assert rows[0..] == rows && [] + Admitted(rows, start, initial) == Admitted(rows, start, initial);
    for i := 0 to |rows|
      invariant Valid(csv) && csv.list == old(csv.list) + added && ParsedTo(rows, i, initial, start, csv.endTime, added)
    {
      ghost var now := if Wanted(rows[i], csv.endTime, initial) then [rows[i]] else [];
      ParseNext(rows, i, initial, start, csv.endTime, added, now, LastTime(now, csv.endTime));
      AdmitRow(csv, rows[i], initial);
      ConcatAssoc(old(csv.list), added, now);
      added := added + now;
    }
    assert added + [] == added;
  }

  // ------------------------------------------------------------------ chunking

  /** The rows that messages are read as, one message after the other. */
  ghost function RowsOf(read: seq<Decoded>): seq<Row>
  {
    if read == [] then [] else RowsOf(read[..|read| - 1]) + read[|read| - 1].rows
  }

  /** A message is read to its end without a complaint, and names its channel. */
  ghost predicate ReadAs(dec: Decoder, m: seq<byte>, d: Decoded, channel: int, description: seq<byte>) {
    DecodeWith(dec, m) == Some(d) && d.channel == channel && d.description == description && d.used == |m|
        && 46 <= |m| <= 963
  }

  ghost predicate AllReadAs(dec: Decoder, messages: seq<seq<byte>>, read: seq<Decoded>, channel: int,
                            description: seq<byte>) {
    |messages| == |read| && forall i :: 0 <= i < |read| ==> ReadAs(dec, messages[i], read[i], channel, description)
  }

  lemma {:induction false} AllWithData(rows: seq<Row>)
    requires forall i :: 0 <= i < |rows| ==> !rows[i].empty
    ensures WithData(rows) == rows
  {
    if rows != [] {
      AllWithData(rows[..|rows| - 1]);
    }
  }

  lemma {:induction false} TakenWithData(list: seq<Row>, k: nat)
    requires Plausible(list) && k <= |list|
    ensures WithData(list[..k]) == list[..k]
  {
    AllWithData(list[..k]);
  }

  lemma {:induction false} NoZeros(description: seq<byte>)
    requires forall i :: 0 <= i < |description| ==> description[i] != 0
    ensures forall i :: 0 <= i < |Description(description)| ==> Description(description)[i] != 0
  {
  }

  /** When the list runs out, the last minute of the message is the last row's. */
  lemma {:induction false} EndsWithLast(list: seq<Row>, n: nat)
    requires list != [] && Pack(list, n).used == |list|
    ensures list[|list| - 1].time == list[0].time + 60 * (Pack(list, n).count - 1)
  {
    if n > 0 && Pack(list, n - 1).used == |list| {
      EndsWithLast(list, n - 1);
    }
  }

  /** Taking rows off the front keeps everything sound if the start time follows. */
  lemma {:induction false} SoundTake(taken: seq<Row>, list: seq<Row>, start: int, end: int, rows: seq<Row>,
                                     left: seq<Row>, newStart: int)
    requires Sound(taken, list, start, end) && rows != [] && list == rows + left
    requires newStart == if left == [] then rows[|rows| - 1].time else left[0].time
    ensures Sound(taken + rows, left, newStart, end)
  {
    assert taken + rows + left == taken + list;
    assert forall i :: 0 <= i < |left| ==> left[i] == list[|rows| + i];
  }

  lemma {:induction false} RowsOfOneMore(read: seq<Decoded>, d: Decoded, all: seq<Row>, left: seq<Row>, after: seq<Row>)
    requires RowsOf(read) + left == all && left == d.rows + after
    ensures RowsOf(read + [d]) == RowsOf(read) + d.rows && RowsOf(read + [d]) + after == all
  {
    assert (read + [d])[..|read|] == read;
    ConcatAssoc(RowsOf(read), d.rows, after);
  }

  /** The rows of a message and those left make up the list, and the start time follows. */
  lemma {:induction false} Leftover(list: seq<Row>, p: Packed, rows: seq<Row>, left: seq<Row>, last: int, newStart: int)
    requires list != [] && p == Pack(list, MAX_ROWS) && rows == list[..p.used] && left == list[p.used..]
    requires last == list[0].time + 60 * (p.count - 1) && newStart == if left == [] then last else left[0].time
    ensures list == rows + left && rows != [] && newStart == if left == [] then rows[|rows| - 1].time else left[0].time
  {
    PackTakes(list, MAX_ROWS);
    if left == [] {
      assert p.used == |list| && rows == list;
      EndsWithLast(list, MAX_ROWS);
    }
  }

  /** What is true of a message and of the buffer it was taken from. */
  lemma {:induction false} HourTaken(dec: Decoder, taken: seq<Row>, list: seq<Row>, start: int, end: int,
                                     channel: int, description: seq<byte>,
                                     p: Packed, raw: seq<byte>, rows: seq<Row>, left: seq<Row>, first: int, last: int,
                                     last32: word32,
                                     newStart: int, d: seq<byte>)
    requires Inverts(dec) && Sound(taken, list, start, end) && list != [] && d == Description(description)
    requires 0 <= channel < 65536 && forall i :: 0 <= i < |description| ==> description[i] != 0
    requires p == Pack(list, MAX_ROWS) && raw == Compress(list, channel, description)
    requires rows == list[..p.used] && left == list[p.used..]
    requires first == list[0].time && last == first + 60 * (p.count - 1) && last32 == last % TWO_32
    requires newStart == if left == [] then last else left[0].time
    ensures ReadAs(dec, raw, Decoded(first, last32, channel, d, rows, |raw|), channel, d)
    ensures list == rows + left && rows != [] && Sound(taken + rows, left, newStart, end)
  {
    CompressSize(list, channel, description);
    TakenWithData(list, p.used);
    NoZeros(description);
    ExactRoundTrip(dec, list, channel, description, raw, p, first, last, last32, d, rows);
    Leftover(list, p, rows, left, last, newStart);
    SoundTake(taken, list, start, end, rows, left, newStart);
  }

  /** One message from the front of the list. */
  method ArchiveHour(csv: CsvBuffer, ghost dec: Decoder) returns (msh: seq<byte>, ghost d: Decoded)
    requires Valid(csv) && csv.list != [] && Inverts(dec)
    modifies csv`list, csv`startTime, csv`taken
    ensures Valid(csv) && |csv.list| < |old(csv.list)| && ReadAs(dec, msh, d, csv.channel, Description(csv.description))
    ensures old(csv.list) == d.rows + csv.list && csv.taken == old(csv.taken) + d.rows
    ensures csv.list != [] ==> csv.startTime == csv.list[0].time
  {
    ghost var list, start, p := csv.list, csv.startTime, Pack(csv.list, MAX_ROWS);
    var raw, length := CsvToMsh(csv);
    msh := raw[..length];
    ghost var first, last := list[0].time, list[0].time + 60 * (p.count - 1);
    d := Decoded(first, last % TWO_32, csv.channel, Description(csv.description), list[..p.used], |msh|);
    HourTaken(dec, csv.taken, list, start, csv.endTime, csv.channel, csv.description, p, msh, list[..p.used], csv.list,
              first, last, last % TWO_32, csv.startTime, Description(csv.description));
    csv.taken := csv.taken + d.rows;
  }

  /**
   Cut the rows into messages while they span an hour. The rows read from the messages followed by those left are
   the rows there were; every pass takes at least one row, and the list is never empty when a pass starts. This holds
   for any reader of integers that gives back what was written.
   */
  method ArchiveBuffer(csv: CsvBuffer, ghost dec: Decoder) returns (messages: seq<seq<byte>>, ghost read: seq<Decoded>)
    requires Valid(csv) && Inverts(dec)
    modifies csv`list, csv`startTime, csv`taken
    ensures Valid(csv) && csv.endTime - csv.startTime < 3600
    ensures AllReadAs(dec, messages, read, csv.channel, Description(csv.description))
    ensures RowsOf(read) + csv.list == old(csv.list) && csv.taken == old(csv.taken) + RowsOf(read)
    ensures FullHours(read, old(csv.startTime), csv.endTime)
  {
    messages, read := [], [];
    ghost var list, taken, from, d0 := csv.list, csv.taken, csv.startTime, Description(csv.description);
    while csv.endTime - csv.startTime >= TM_HOUR
      invariant Valid(csv) && Chunked(dec, messages, read, csv.channel, d0, csv.list, csv.taken, list, taken, from,
                                      csv.endTime)
      invariant if read == [] then csv.startTime == from else csv.list != [] ==> csv.startTime == csv.list[0].time
      decreases |csv.list|
    {
      ghost var left, sofar, start := csv.list, csv.taken, csv.startTime;
      var msh;
      ghost var d;
      msh, d := ArchiveHour(csv, dec);
      ChunkedNext(dec, messages, read, csv.channel, d0, left, sofar, list, taken, from, csv.endTime, msh, d, csv.list,
                  csv.taken, start);
      messages, read := messages + [msh], read + [d];
    }
  }

  /** The messages are read as they should be, were made of full hours, and account for the rows that are not left. */
  ghost predicate Chunked(dec: Decoder, messages: seq<seq<byte>>, read: seq<Decoded>, channel: int,
                          description: seq<byte>, left: seq<Row>, sofar: seq<Row>, list: seq<Row>, taken: seq<Row>,
                          start: int, end: int)
  {
    && AllReadAs(dec, messages, read, channel, description) && Accounted(read, left, sofar, list, taken)
    && FullHours(read, start, end)
  }

  lemma {:induction false} ChunkedNext(dec: Decoder, messages: seq<seq<byte>>, read: seq<Decoded>, channel: int,
                                       description: seq<byte>, left: seq<Row>, sofar: seq<Row>, list: seq<Row>,
                                       taken: seq<Row>, start: int, end: int, msh: seq<byte>, d: Decoded,
                                       after: seq<Row>, now: seq<Row>, from: int)
    requires Chunked(dec, messages, read, channel, description, left, sofar, list, taken, start, end)
    requires left == d.rows + after && now == sofar + d.rows && |after| < |left|
    requires ReadAs(dec, msh, d, channel, description) && end - from >= 3600
    requires if read == [] then from == start else left != [] ==> from == left[0].time
    ensures Chunked(dec, messages + [msh], read + [d], channel, description, after, now, list, taken, start, end)
  {
    AccountOneMore(read, d, list, left, after, taken, sofar, now);
    OneMoreRead(dec, messages, read, msh, d, channel, description);
    assert d.rows != [] && left[0] == d.rows[0];
    FullHoursNext(read, start, end, d, from);
  }

  /**
   A message is made only when there are rows over an hour or more: from the start time of the list on for the first
   one, and from the message's own first row on for the others.
   */
  ghost predicate FullHours(read: seq<Decoded>, start: int, end: int)
  {
    && (read != [] ==> end - start >= 3600)
    && forall i :: 1 <= i < |read| ==> read[i].rows != [] && end - read[i].rows[0].time >= 3600
  }

  lemma {:induction false} FullHoursNext(read: seq<Decoded>, start: int, end: int, d: Decoded, from: int)
    requires FullHours(read, start, end) && d.rows != [] && end - from >= 3600
    requires if read == [] then from == start else from == d.rows[0].time
    ensures FullHours(read + [d], start, end)
  {
  }

  /** The rows read and those left are all rows, and those taken before and those read are all taken. */
  ghost predicate Accounted(read: seq<Decoded>, left: seq<Row>, sofar: seq<Row>, list: seq<Row>, taken: seq<Row>) {
    RowsOf(read) + left == list && sofar == taken + RowsOf(read)
  }

  lemma {:induction false} AccountOneMore(read: seq<Decoded>, d: Decoded, list: seq<Row>, left: seq<Row>,
                                          after: seq<Row>,
                                          taken: seq<Row>, sofar: seq<Row>, now: seq<Row>)
    requires Accounted(read, left, sofar, list, taken) && left == d.rows + after && now == sofar + d.rows
    ensures Accounted(read + [d], after, now, list, taken)
  {
    RowsOfOneMore(read, d, list, left, after);
    ConcatAssoc(taken, RowsOf(read), d.rows);
  }

  lemma {:induction false} OneMoreRead(dec: Decoder, messages: seq<seq<byte>>, read: seq<Decoded>, msh: seq<byte>,
                                       d: Decoded,
                                       channel: int, description: seq<byte>)
    requires AllReadAs(dec, messages, read, channel, description) && ReadAs(dec, msh, d, channel, description)
    ensures AllReadAs(dec, messages + [msh], read + [d], channel, description)
  {
  }
}
