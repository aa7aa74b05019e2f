/**
 How archd archives records: all but LOG records at once, while LOG records are held back for up to a minute so that
 the texts of several can be put into one record.
 */
module LogBuffer {
  import opened Common
  import opened Bytes
  import opened OpaqueMessage

  const BUFFER_TIME_SEC := 60

  function FirstByte(rec: seq<byte>): nat
    requires |rec| >= 48
  {
    Read16(rec, 44)
  }

  function Samples(rec: seq<byte>): nat
    requires |rec| >= 48
  {
    Read16(rec, 30)
  }

  predicate IsLog(rec: seq<byte>)
    requires |rec| >= 48
  {
    rec[15..18] == [0x4c, 0x4f, 0x47]
  }

  /** The text is after the header and within the record. */
  predicate TextInside(rec: seq<byte>)
  {
    |rec| >= 48 && 48 <= FirstByte(rec) && FirstByte(rec) + Samples(rec) <= |rec|
  }

  function Text(rec: seq<byte>): (t: seq<byte>)
    requires TextInside(rec)
    ensures |t| == Samples(rec)
  {
    rec[FirstByte(rec)..FirstByte(rec) + Samples(rec)]
  }

  /** A record of a full header, and if it is a LOG record its text is inside. */
  predicate Proper(rec: seq<byte>) {
    |rec| >= 48 && (IsLog(rec) ==> TextInside(rec))
  }

  predicate AllProper(recs: seq<seq<byte>>) {
    forall i :: 0 <= i < |recs| ==> Proper(recs[i])
  }

  /** The texts of the LOG records, one after the other. */
  ghost function LogText(recs: seq<seq<byte>>): seq<byte>
    requires AllProper(recs)
  {
    if recs == [] then []
    else LogText(recs[..|recs| - 1]) + if IsLog(recs[|recs| - 1]) then Text(recs[|recs| - 1]) else []
  }

  /** The records that are not LOG records. */
  ghost function Others(recs: seq<seq<byte>>): seq<seq<byte>>
    requires AllProper(recs)
  {
    if recs == [] then []
    else Others(recs[..|recs| - 1]) + if IsLog(recs[|recs| - 1]) then [] else [recs[|recs| - 1]]
  }

  lemma {:induction false} OneMore(recs: seq<seq<byte>>, rec: seq<byte>)
    requires AllProper(recs) && Proper(rec)
    ensures AllProper(recs + [rec])
    ensures LogText(recs + [rec]) == LogText(recs) + if IsLog(rec) then Text(rec) else []
    ensures Others(recs + [rec]) == Others(recs) + if IsLog(rec) then [] else [rec]
  {
    assert (recs + [rec])[..|recs|] == recs;
  }

  // ------------------------------------------------------------ combining texts

  /** strncmp of two characters at the same place in two records: a zero ends both strings. */
  predicate SameTwo(a: seq<byte>, b: seq<byte>, at: nat)
    requires at + 2 <= |a| && at + 2 <= |b|
  {
    a[at] == b[at] && (a[at] == 0 || a[at + 1] == b[at + 1])
  }

  /** Two characters of location, channel, station and network agree. */
  predicate SameSource(a: seq<byte>, b: seq<byte>)
    requires |a| >= 48 && |b| >= 48
  {
    SameTwo(a, b, 13) && SameTwo(a, b, 15) && SameTwo(a, b, 8) && SameTwo(a, b, 18)
  }

  /** Of names without zero bytes the first two characters of location, channel, station and network are the same. */
  lemma {:induction false} SameSourceIff(a: seq<byte>, b: seq<byte>)
    requires |a| >= 48 && |b| >= 48 && 0 !in a[8..10] + a[13..17] + a[18..20]
    ensures SameSource(a, b) <==> a[8..10] == b[8..10] && a[13..17] == b[13..17] && a[18..20] == b[18..20]
  {
    var s := a[8..10] + a[13..17] + a[18..20];
    assert s[0] == a[8] && s[2] == a[13] && s[4] == a[15] && s[6] == a[18];
    assert s[0] in s && s[2] in s && s[4] in s && s[6] in s;
    TwoIff(a, b, 8);
    TwoIff(a, b, 13);
    TwoIff(a, b, 15);
    TwoIff(a, b, 18);
    assert a[13..17] == a[13..15] + a[15..17] && b[13..17] == b[13..15] + b[15..17];
  }

  lemma {:induction false} TwoIff(a: seq<byte>, b: seq<byte>, at: nat)
    requires at + 2 <= |a| && at + 2 <= |b| && a[at] != 0
    ensures SameTwo(a, b, at) <==> a[at..at + 2] == b[at..at + 2]
  {
    var x, y := a[at..at + 2], b[at..at + 2];
    assert x[0] == a[at] && x[1] == a[at + 1] && y[0] == b[at] && y[1] == b[at + 1];
  }

  predicate Fits(a: seq<byte>, b: seq<byte>)
    requires |a| >= 48 && |b| >= 48
  {
    Samples(a) + Samples(b) + FirstByte(a) <= |a|
  }

  lemma {:induction false} SetSamples(s: seq<byte>, n: nat, t: seq<byte>)
    requires |s| >= 48 && n < 65536 && t == Splice(s, 30, Word16(n))
    ensures Samples(t) == n && FirstByte(t) == FirstByte(s) && IsLog(t) == IsLog(s)
    ensures forall lo, hi :: 48 <= lo <= hi <= |s| ==> t[lo..hi] == s[lo..hi]
  {
    ReadBack16(n, t, 30);
    SpliceOutside(s, 30, Word16(n), 44, 46);
    assert t[44] == t[44..46][0] && t[45] == t[44..46][1] && s[44] == s[44..46][0] && s[45] == s[44..46][1];
    SpliceOutside(s, 30, Word16(n), 15, 18);
    forall lo, hi | 48 <= lo <= hi <= |s|
      ensures t[lo..hi] == s[lo..hi]
    {
      SpliceOutside(s, 30, Word16(n), lo, hi);
    }
  }

  /** Writing a text behind that of a record and adding to the count gives a record with both texts. */
  lemma {:induction false} TextsJoined(s: seq<byte>, text: seq<byte>, m: seq<byte>, t: seq<byte>)
    requires TextInside(s) && FirstByte(s) + Samples(s) + |text| <= |s| < 65536
    requires m == Splice(s, FirstByte(s) + Samples(s), text) && t == Splice(m, 30, Word16(Samples(s) + |text|))
    ensures TextInside(t) && Text(t) == Text(s) + text && IsLog(t) == IsLog(s)
  {
    var first, end := FirstByte(s), FirstByte(s) + Samples(s);
    SpliceOutside(s, end, text, 44, 46);
    assert m[44] == m[44..46][0] && m[45] == m[44..46][1] && s[44] == s[44..46][0] && s[45] == s[44..46][1];
    SpliceOutside(s, end, text, 15, 18);
    SpliceAfter(s, end, text, first);
    SetSamples(m, Samples(s) + |text|, t);
    assert t[first..end + |text|] == m[first..end + |text|];
  }

  /** A record with a text written at `end` and added to its count. */
  function WithText(s: seq<byte>, end: nat, text: seq<byte>): (t: seq<byte>)
    requires |s| >= 48 && end + |text| <= |s|
    ensures |t| == |s|
  {
    var m := Splice(s, end, text);
    Splice(m, 30, Word16(Read16(m, 30) + |text|))
  }

  /** The bytes of a record after those of another one's text have been written behind its own and counted. */
  function Combined(s: seq<byte>, b: seq<byte>): (t: seq<byte>)
    requires |s| >= 48 && |b| >= 48 && Fits(s, b) && FirstByte(b) + Samples(b) <= |b|
    ensures |t| == |s|
  {
    WithText(s, FirstByte(s) + Samples(s), b[FirstByte(b)..FirstByte(b) + Samples(b)])
  }

  /** Of two records with their texts inside the combined one has both texts. */
  lemma {:induction false} CombinedText(s: seq<byte>, b: seq<byte>)
    requires TextInside(s) && TextInside(b) && Fits(s, b) && |s| < 65536
    ensures var t := Combined(s, b); TextInside(t) && Text(t) == Text(s) + Text(b) && IsLog(t) == IsLog(s)
  {
    var m := Splice(s, FirstByte(s) + Samples(s), Text(b));
    SpliceOutside(s, FirstByte(s) + Samples(s), Text(b), 30, 32);
    assert m[30] == m[30..32][0] && m[31] == m[30..32][1] && s[30] == s[30..32][0] && s[31] == s[30..32][1];
    TextsJoined(s, Text(b), m, Combined(s, b));
  }

  /** Put the text of the second record behind that of the first one if they are of the same source and it fits. */
  method CombineSeed(msg1: array<byte>, msg2: array<byte>) returns (ok: bool)
    requires msg1 != msg2 && 48 <= msg1.Length < 65536 && 48 <= msg2.Length
    requires FirstByte(msg2[..]) + Samples(msg2[..]) <= msg2.Length
    modifies msg1
    ensures ok <==> (old(SameSource(msg1[..], msg2[..]))
                     && old(Read16(msg1[..], 30) + Read16(msg2[..], 30) + Read16(msg1[..], 44)) <= msg1.Length)
    ensures msg1[..] == if ok then old(Combined(msg1[..], msg2[..])) else old(msg1[..])
  {
    if !SameSource(msg1[..], msg2[..]) {
      return false;
    }
    ghost var s, b := msg1[..], msg2[..];
    var samples1 := LoadWord(msg1, 30);
    var samples2 := LoadWord(msg2, 30);
    var first1 := LoadWord(msg1, 44);
    var first2 := LoadWord(msg2, 44);
    assert samples1 == Samples(s) && first1 == FirstByte(s) && samples2 == Samples(b) && first2 == FirstByte(b);
    ok := samples1 + samples2 + first1 <= msg1.Length;
    if ok {
      AppendText(msg1, msg2, first1 + samples1, first2, samples2);
    }
  }

  /** Write a text behind that of the first record and count it. */
  method AppendText(msg1: array<byte>, msg2: array<byte>, end: nat, first2: nat, samples2: nat)
    requires msg1 != msg2 && 48 <= msg1.Length && first2 + samples2 <= msg2.Length && end + samples2 <= msg1.Length
    modifies msg1
    ensures msg1[..] == WithText(old(msg1[..]), end, old(msg2[..])[first2..first2 + samples2])
  {
    CopyBytes(msg1, end, msg2, first2, samples2);
    var samples1 := LoadWord(msg1, 30);
    StoreWord(msg1, 30, samples1 + samples2);
  }

  /** The header after the names: n samples, one blockette at 48, of type 1000, for a record of so many bytes. */
  ghost predicate MessageHeader(rec: seq<byte>, names: seq<byte>, n: nat)
  {
    && |names| == 30 && |rec| >= 72 && rec[..30] == names
    && Read16(rec, 30) == n && rec[32..39] == [0, 0, 0, 0, 0, 0, 0] && rec[39] == 1 && rec[40..44] == [0, 0, 0, 0]
    && Read16(rec, 44) == 56 && Read16(rec, 46) == 48
    && Read16(rec, 48) == 1000 && Read16(rec, 50) == 0 && rec[52] == 1 && rec[53] == 0 && rec[55] == 0
    && (rec[54], |rec|) in {(8, 256), (9, 512), (10, 1024), (11, 2048), (12, 4096), (13, 8192)}
  }

  /**
   Make a LOG record from a message. As much of the message goes in as there is room for, with a zero behind it,
   so the text is always inside the record.
   */
  method MakeSeedMsg(msg: seq<byte>, names: seq<byte>, rec: array<byte>) returns (ok: bool)
    requires |names| == 30 && rec.Length >= 72
    modifies rec
    ensures ok <==> rec.Length in {256, 512, 1024, 2048, 4096, 8192}
    ensures ok ==> MessageHeader(rec[..], names, Min(|msg|, rec.Length - 57))
    ensures ok ==>
              && TextInside(rec[..]) && Text(rec[..]) == msg[..Min(|msg|, rec.Length - 57)]
              && rec[56 + Samples(rec[..])] == 0
  {
    ZeroBytes(rec);
    StoreBytes(rec, 0, names);
    if LengthCode(rec.Length).None? {
      return false;
    }
    var n := Min(|msg|, rec.Length - 57);
    var fixed := MessageFields(n, rec.Length);
    WriteMessage(rec, names, fixed, msg[..n], n);
    ok := true;
  }

  /** The fields from offset 30 on: the header's, and those of the blockette 1000. */
  function MessageFields(n: nat, size: nat): (s: seq<byte>)
    requires size in {256, 512, 1024, 2048, 4096, 8192}
    ensures |s| == 26
  {
    Word16(n) + [0, 0, 0, 0, 0, 0, 0, 1, 0, 0, 0, 0] + Word16(56) + Word16(48)
    + Word16(1000) + Word16(0) + [1, 0, LengthCode(size).value, 0]
  }

  /** Write the fixed fields, the text and a zero behind it. */
  method WriteMessage(rec: array<byte>, ghost names: seq<byte>, fixed: seq<byte>, text: seq<byte>, n: nat)
    requires |names| == 30 && |text| == n && 57 + n <= rec.Length && rec[..30] == names
    requires rec.Length in {256, 512, 1024, 2048, 4096, 8192}
    modifies rec
    requires fixed == MessageFields(n, rec.Length)
    ensures TextInside(rec[..]) && Text(rec[..]) == text && rec[56 + Samples(rec[..])] == 0
            && MessageHeader(rec[..], names, n)
  {
    ghost var r0 := rec[..];
    StoreBytes(rec, 30, fixed);
    ghost var r1 := rec[..];
    StoreBytes(rec, 56, text);
    ghost var r2 := rec[..];
    StoreBytes(rec, 56 + n, [0]);
    MessageReads(names, fixed, n, text, r0, r1, r2, rec[..]);
  }

  lemma {:induction false} MessageReads(names: seq<byte>, fixed: seq<byte>, n: nat, text: seq<byte>, r0: seq<byte>,
                                        r1: seq<byte>,
                                        r2: seq<byte>, t: seq<byte>)
    requires |names| == 30 && |text| == n && 57 + n <= |r0| && r0[..30] == names
    requires |r0| in {256, 512, 1024, 2048, 4096, 8192} && fixed == MessageFields(n, |r0|)
    requires r1 == Splice(r0, 30, fixed) && r2 == Splice(r1, 56, text) && t == Splice(r2, 56 + n, [0])
    ensures TextInside(t) && Text(t) == text && t[56 + Samples(t)] == 0 && MessageHeader(t, names, n)
  {
    assert t[..56] == r2[..56] == r1[..56] == names + fixed;
    FieldsRead(names, fixed, n, t);
    assert t[56..56 + n] == r2[56..56 + n];
  }

  lemma {:induction false} FieldsRead(names: seq<byte>, fixed: seq<byte>, n: nat, t: seq<byte>)
    requires |names| == 30 && n < 65536 && |t| in {256, 512, 1024, 2048, 4096, 8192} && fixed == MessageFields(n, |t|)
    requires t[..56] == names + fixed
    ensures MessageHeader(t, names, n)
  {
    assert t[..30] == names && forall i :: 30 <= i < 56 ==> t[i] == fixed[i - 30];
    assert t[30..32] == Word16(n) && t[44..46] == Word16(56) && t[46..48] == Word16(48);
    assert t[48..50] == Word16(1000) && t[50..52] == Word16(0);
    ReadBack16(n, t, 30);
    ReadBack16(56, t, 44);
    ReadBack16(48, t, 46);
    ReadBack16(1000, t, 48);
    ReadBack16(0, t, 50);
  }

  // ------------------------------------------------------------------ archiving

  /** The records archived, and the one held back, if any. */
  datatype Kept = Kept(archived: seq<seq<byte>>, held: seq<seq<byte>>)

  /** A LOG record is to go into the one held back. */
  predicate GoesInto(v: Kept, rec: seq<byte>)
    requires Proper(rec)
  {
    && IsLog(rec) && |v.held| == 1 && |v.held[0]| >= 48 && SameSource(v.held[0], rec)
    && Samples(v.held[0]) + Samples(rec) + FirstByte(v.held[0]) <= |v.held[0]|
  }

  /** What a record of some age does when it is taken. */
  function Taken(v: Kept, rec: seq<byte>, age: int): Kept
    requires Proper(rec)
  {
    if !IsLog(rec) then v.(archived := v.archived + [rec])
    else if GoesInto(v, rec) then v.(held := [Combined(v.held[0], rec)])
    else if 0 <= age < 60 then Kept(v.archived + v.held, [rec])
    else Kept(v.archived + v.held + [rec], [])
  }

  /** What records do when they are taken one after the other. */
  function TakenAll(v: Kept, recs: seq<seq<byte>>, ages: seq<int>): Kept
    requires AllProper(recs) && |ages| == |recs|
  {
    if recs == [] then v
    else
      var n := |recs| - 1;
      Taken(TakenAll(v, recs[..n], ages[..n]), recs[n], ages[n])
  }

  /** A record taken from the queue and when it was received. */
  datatype Arrival = Arrival(data: array<byte>, time: int)

  class LogBuffer {
    const size: nat
    var pending: array?<byte>              // the LOG record held back
    var archived: seq<seq<byte>>           // the records archived
    var recordsArchived: nat
    var logRecordCount: nat
    ghost var popped: seq<seq<byte>>       // the records taken from the queue, as they were

    ghost predicate Valid()
      reads this, pending
    {
      && 48 <= size < 65536 && AllProper(archived) && AllProper(popped) && recordsArchived == |popped|
      && (forall i :: 0 <= i < |archived| ==> |archived[i]| == size)
      && (pending != null ==> pending.Length == size && IsLog(pending[..]) && TextInside(pending[..]))
    }

    ghost function Held(): seq<byte>
      reads this, pending
      requires Valid()
    {
      if pending == null then [] else Text(pending[..])
    }

    /**
     All LOG text taken from the queue is archived or held back, and all other records are archived, everything in
     order.
     */
    ghost predicate Intact()
      reads this, pending
    {
      Valid() && LogText(archived) + Held() == LogText(popped) && Others(archived) == Others(popped)
    }

    constructor (size: nat)
      requires 48 <= size < 65536
      ensures Intact() && pending == null && archived == [] && popped == [] && this.size == size
    {
      this.size := size;
      pending, archived, recordsArchived, logRecordCount, popped := null, [], 0, 0, [];
    }

    /** Archive the record held back. */
    method Release()
      requires Valid() && pending != null
      modifies this`pending, this`archived
      ensures Valid() && pending == null && archived == old(archived) + [old(pending[..])]
      ensures LogText(archived) == old(LogText(archived) + Held()) && Others(archived) == old(Others(archived))
    {
      OneMore(archived, pending[..]);
      archived := archived + [pending[..]];
      pending := null;
    }

    /** The text of a LOG record can be put behind that of the one held back. */
    ghost predicate Joins(rec: seq<byte>)
      requires Valid() && |rec| >= 48
      reads this, pending
    {
      pending != null && SameSource(pending[..], rec) && Fits(pending[..], rec)
    }

    /** The record held back, if any. */
    ghost function HeldBack(): seq<seq<byte>>
      reads this, pending
    {
      if pending == null then [] else [pending[..]]
    }

    /** What is archived and held back. */
    ghost function Value(): Kept
      reads this, pending
    {
      Kept(archived, HeldBack())
    }

    /** Put the text of a LOG record behind that of the one held back if possible. */
    method JoinPending(data: array<byte>) returns (ok: bool)
      requires Valid() && data != pending && data.Length == size && IsLog(data[..]) && TextInside(data[..])
      modifies pending
      ensures Valid() && ok == old(Joins(data[..]))
      ensures if ok then pending != null && pending[..] == old(Combined(pending[..], data[..]))
              && Held() == old(Held() + Text(data[..]))
              else HeldBack() == old(HeldBack()) && Held() == old(Held())
    {
      ok := false;
      if pending != null {
        ghost var s, b := pending[..], data[..];
        ok := CombineSeed(pending, data);
        if ok {
          CombinedText(s, b);
        }
      }
    }

    /** A LOG record takes the place of the one held back, and is archived itself if it is not from the last minute. */
    method Exchange(record: Arrival, now: int)
      requires Valid() && record.data != pending && record.data.Length == size && IsLog(record.data[..])
               && TextInside(record.data[..])
      modifies this`pending, this`archived
      ensures Valid() && LogText(archived) + Held() == old(LogText(archived) + Held() + Text(record.data[..]))
      ensures Others(archived) == old(Others(archived))
      ensures if 0 <= now - record.time < 60
              then pending == record.data && archived == old(archived + HeldBack())
              else pending == null && archived == old(archived + HeldBack() + [record.data[..]])
    {
      if pending != null {
        Release();
      }
      assert archived == old(archived + HeldBack()) && LogText(archived) + [] == LogText(archived);
      pending := record.data;
      var delta := now - record.time;
      if delta < 0 || delta >= BUFFER_TIME_SEC {
        Release();
      }
    }

    /**
     Archive a record, or hold it back if it is a LOG record: its text goes behind that of the record held back if
     that is of the same source and has room. Otherwise the record held back is archived, and the new one is held
     back if it was received in the last minute and else archived, too.
     */
    method ArchiveOne(record: Arrival, now: int, ghost rec: seq<byte>)
      requires Valid() && record.data != pending && record.data.Length == size && Proper(rec) && rec == record.data[..]
      modifies this`pending, this`archived, this`popped, this`recordsArchived, this`logRecordCount, pending
      ensures Valid() && (pending == null || pending == old(pending) || pending == record.data)
      ensures popped == old(popped) + [rec] && (old(Intact()) ==> Intact())
      ensures !IsLog(rec) ==> archived == old(archived) + [rec] && HeldBack() == old(HeldBack())
      ensures IsLog(rec) && old(Joins(rec)) ==>
                archived == old(archived) && HeldBack() == [old(Combined(pending[..], rec))]
      ensures IsLog(rec) && !old(Joins(rec)) ==>
                if 0 <= now - record.time < 60
                then archived == old(archived + HeldBack()) && HeldBack() == [rec]
                else archived == old(archived + HeldBack()) + [rec] && HeldBack() == []
    {
      recordsArchived := recordsArchived + 1;
      OneMore(popped, rec);
      popped := popped + [rec];
      if !IsLog(record.data[..]) {
        OneMore(archived, rec);
        archived := archived + [record.data[..]];
        return;
      }
      ArchiveLog(record, now);
    }

    /** A LOG record joins the one held back, or takes its place. */
    method ArchiveLog(record: Arrival, now: int)
      requires Valid() && record.data != pending && record.data.Length == size && IsLog(record.data[..])
               && TextInside(record.data[..])
      modifies this`pending, this`archived, this`logRecordCount, pending
      ensures Valid() && (pending == null || pending == old(pending) || pending == record.data)
      ensures LogText(archived) + Held() == old(LogText(archived) + Held()) + old(Text(record.data[..]))
      ensures Others(archived) == old(Others(archived))
      ensures if old(Joins(record.data[..])) then
                archived == old(archived) && HeldBack() == [old(Combined(pending[..], record.data[..]))]
              else if 0 <= now - record.time < 60
                then archived == old(archived + HeldBack()) && HeldBack() == [old(record.data[..])]
                else archived == old(archived + HeldBack()) + [old(record.data[..])] && HeldBack() == []
    {
      logRecordCount := logRecordCount + 1;
      ConcatAssoc(LogText(archived), Held(), Text(record.data[..]));
      var ok := JoinPending(record.data);
      if !ok {
        Exchange(record, now);
      }
    }

    /** Archive the first record in the queue. */
    method ArchiveNext(queue: seq<Arrival>, now: int, ghost images: seq<seq<byte>>)
      requires Valid() && |images| == |queue| > 0 && AllProper(images) && Waiting(queue, images, size, pending)
      modifies this`pending, this`archived, this`popped, this`recordsArchived, this`logRecordCount, pending
      ensures Valid() && (pending == null || pending == old(pending) || pending == queue[0].data)
      ensures popped == old(popped) + [images[0]] && (old(Intact()) ==> Intact())
      ensures Value() == Taken(old(Value()), images[0], now - queue[0].time)
      ensures Waiting(queue[1..], images[1..], size, pending)
    {
      ArchiveOne(queue[0], now, images[0]);
    }

    /** From v on, the first k records have been taken, and `rest` waits, with the contents `left`. */
    ghost predicate Running(v: Kept, ps: seq<seq<byte>>, queue: seq<Arrival>, now: nat -> int, images: seq<seq<byte>>,
                            k: nat, rest: seq<Arrival>, left: seq<seq<byte>>)
      requires |images| == |queue| && AllProper(images)
      reads this, pending, set q | q in rest :: q.data
    {
      && Intact() && |left| == |rest| && Waiting(rest, left, size, pending)
      && Underway(v, ps, queue, now, images, k, rest, left, popped, Value())
    }

    /** Archive the next record. */
    method ArchiveKth(queue: seq<Arrival>, now: nat -> int, k: nat, rest: seq<Arrival>, ghost v: Kept,
                      ghost ps: seq<seq<byte>>, ghost images: seq<seq<byte>>, ghost left: seq<seq<byte>>)
      requires |images| == |queue| && AllProper(images) && rest != []
               && Running(v, ps, queue, now, images, k, rest, left)
      modifies this`pending, this`archived, this`popped, this`recordsArchived, this`logRecordCount, pending
      ensures pending == null || pending == old(pending) || pending == rest[0].data
      ensures |left| == |rest| && Running(v, ps, queue, now, images, k + 1, rest[1..], left[1..])
    {
      TakenNext(v, ps, queue, now, images, k, rest, left, popped, Value());
      ArchiveNext(rest, now(k), left);
    }

    /** Archive the records in the queue, whose contents are `images`; `now` is the time when each one is taken. */
    method CallbackArchive(queue: seq<Arrival>, now: nat -> int, ghost images: seq<seq<byte>>)
      requires Intact() && |images| == |queue| && AllProper(images) && Waiting(queue, images, size, pending)
      modifies this`pending, this`archived, this`popped, this`recordsArchived, this`logRecordCount, pending,
               set q | q in queue :: q.data
      ensures Intact() && popped == old(popped) + images
      ensures Value() == TakenAll(old(Value()), images, Ages(queue, now))
    {
      var rest, k := queue, 0;
      ghost var v, ps, left := Value(), popped, images;
      AtFirst(v, ps, queue, now, images);
      while rest != []
        invariant pending == null || pending == old(pending) || pending in set q | q in queue :: q.data
        invariant (forall q :: q in rest ==> q in queue) && Running(v, ps, queue, now, images, k, rest, left)
      {
        ArchiveKth(queue, now, k, rest, v, ps, images, left);
        rest, left, k := rest[1..], left[1..], k + 1;
      }
      AtLast(v, ps, queue, now, images, k, left, popped, Value());
    }
  }

  /** From v on, the first k records have been taken, and the rest is left. */
  ghost predicate Underway(v: Kept, ps: seq<seq<byte>>, queue: seq<Arrival>, now: nat -> int,
                           images: seq<seq<byte>>, k: nat, rest: seq<Arrival>, left: seq<seq<byte>>,
                           popped: seq<seq<byte>>, w: Kept)
    requires |images| == |queue| && AllProper(images)
  {
    && k <= |queue| && rest == queue[k..] && left == images[k..] && popped == ps + images[..k]
    && AllProper(images[..k]) && AllProper(left) && w == TakenAll(v, images[..k], Ages(queue, now)[..k])
  }

  lemma {:induction false} AtFirst(v: Kept, ps: seq<seq<byte>>, queue: seq<Arrival>, now: nat -> int,
                                   images: seq<seq<byte>>)
    requires |images| == |queue| && AllProper(images)
    ensures Underway(v, ps, queue, now, images, 0, queue, images, ps, v)
  {
    assert ps + images[..0] == ps && queue[0..] == queue && images[0..] == images;
  }

  lemma {:induction false} AtLast(v: Kept, ps: seq<seq<byte>>, queue: seq<Arrival>, now: nat -> int,
                                  images: seq<seq<byte>>, k: nat, left: seq<seq<byte>>, popped: seq<seq<byte>>, w: Kept)
    requires |images| == |queue| && AllProper(images)
             && Underway(v, ps, queue, now, images, k, [], left, popped, w)
    ensures popped == ps + images && w == TakenAll(v, images, Ages(queue, now))
  {
    assert |queue[k..]| == |queue| - k;
    assert images[..k] == images && Ages(queue, now)[..k] == Ages(queue, now);
  }

  /** The next record and its age. */
  lemma {:induction false} TakenNext(v: Kept, ps: seq<seq<byte>>, queue: seq<Arrival>, now: nat -> int,
                                     images: seq<seq<byte>>, k: nat, rest: seq<Arrival>, left: seq<seq<byte>>,
                                     popped: seq<seq<byte>>, w: Kept)
    requires |images| == |queue| && AllProper(images) && rest != []
    requires Underway(v, ps, queue, now, images, k, rest, left, popped, w)
    ensures Proper(left[0])
    ensures Underway(v, ps, queue, now, images, k + 1, rest[1..], left[1..], popped + [left[0]],
                     Taken(w, left[0], now(k) - rest[0].time))
  {
    var recs, ages := images[..k + 1], Ages(queue, now)[..k + 1];
    assert recs[..k] == images[..k] && ages[..k] == Ages(queue, now)[..k] && recs[k] == left[0];
    assert ages[k] == now(k) - rest[0].time;
    assert images[..k + 1] == images[..k] + [left[0]];
    ConcatAssoc(ps, images[..k], [left[0]]);
  }

  /** How old each record is when it is taken. */
  function Ages(queue: seq<Arrival>, now: nat -> int): (ages: seq<int>)
    ensures |ages| == |queue|
  {
    seq(|queue|, i requires 0 <= i < |queue| => now(i) - queue[i].time)
  }

  /** Records that wait in the queue, none of them the one held back. */
  ghost predicate Waiting(queue: seq<Arrival>, images: seq<seq<byte>>, size: nat, pending: array?<byte>)
    requires |images| == |queue|
    reads set q | q in queue :: q.data
  {
    && (forall i :: 0 <= i < |queue| ==>
          queue[i].data[..] == images[i] && queue[i].data.Length == size && queue[i].data != pending)
    && forall i, j :: 0 <= i < j < |queue| ==> queue[i].data != queue[j].data
  }
}
