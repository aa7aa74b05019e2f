/**
 The queue of the falcon program: a message is appended to the record in the buffer if it is for the same
 channel and fits, and otherwise the buffer is sent and a new record, or a series of records, is made.
 */
module OpaqueQueue {
  import opened Common
  import opened Bytes
  import opened OpaqueRecord
  import opened OpaqueMessage

  // -------------------------------------------------- records in one allocation

  /** The k-th record of an allocation. */
  function Slot(s: seq<byte>, size: nat, k: nat): seq<byte>
    requires From(k, size) + size <= |s|
  {
    s[From(k, size)..From(k, size) + size]
  }

  lemma {:induction false} SlotFits(n: nat, size: nat, k: nat)
    requires k < n
    ensures From(k, size) + size <= From(n, size)
  {
    FromNext(k, size);
    FromMonotone(k + 1, n, size);
  }

  /** Writing within a piece changes that piece only. */
  lemma {:induction false} PieceWrite(s: seq<byte>, lo: nat, size: nat, at: nat, b: seq<byte>, inside: bool)
    requires lo + size <= |s| && at + |b| <= |s|
    requires if inside then lo <= at && at + |b| <= lo + size else at + |b| <= lo || lo + size <= at
    ensures Splice(s, at, b)[lo..lo + size] == if inside then Splice(s[lo..lo + size], at - lo, b) else s[lo..lo + size]
  {
    if inside {
      SpliceWithin(s, at, b, lo, lo + size);
    } else {
      SpliceOutside(s, at, b, lo, lo + size);
    }
  }

  /** Writing within one record changes that record only. */
  lemma {:induction false} SlotWrite(s: seq<byte>, size: nat, n: nat, i: nat, x: nat, b: seq<byte>, k: nat)
    requires i < n && k < n && |s| == From(n, size) && x + |b| <= size
    ensures From(i, size) + x + |b| <= |s| && From(k, size) + size <= |s| && From(i, size) + size <= |s|
    ensures Slot(Splice(s, From(i, size) + x, b), size, k)
            == if k == i then Splice(Slot(s, size, i), x, b) else Slot(s, size, k)
  {
    SlotFits(n, size, i);
    SlotFits(n, size, k);
    if k < i {
      SlotFits(i, size, k);
    } else if k > i {
      SlotFits(k, size, i);
    }
    PieceWrite(s, From(k, size), size, From(i, size) + x, b, k == i);
  }

  ghost predicate LaidAt(s: seq<byte>, size: nat, rec: seq<byte>, k: nat)
  {
    From(k, size) + size <= |s| && Slot(s, size, k) == rec
  }

  /** An allocation of records with these contents. */
  ghost predicate Laid(s: seq<byte>, size: nat, recs: seq<seq<byte>>)
  {
    |s| == From(|recs|, size) && forall k :: 0 <= k < |recs| ==> LaidAt(s, size, recs[k], k)
  }

  lemma {:induction false} LaidWrite(s: seq<byte>, size: nat, recs: seq<seq<byte>>, i: nat, x: nat, b: seq<byte>,
                                     t: seq<byte>)
    requires Laid(s, size, recs) && i < |recs| && x + |b| <= size && |recs[i]| == size
    requires From(i, size) + x + |b| <= |s| && t == Splice(s, From(i, size) + x, b)
    ensures Laid(t, size, recs[i := Splice(recs[i], x, b)])
  {
    var after := recs[i := Splice(recs[i], x, b)];
    forall k | 0 <= k < |recs|
      ensures LaidAt(t, size, after[k], k)
    {
      LaidWriteAt(s, size, |recs|, recs[i], recs[k], i, x, b, t, k);
    }
  }

  lemma {:induction false} LaidWriteAt(s: seq<byte>, size: nat, n: nat, rec: seq<byte>, other: seq<byte>, i: nat,
                                       x: nat, b: seq<byte>,
                                       t: seq<byte>, k: nat)
    requires |s| == From(n, size) && i < n && k < n && LaidAt(s, size, rec, i) && LaidAt(s, size, other, k)
    requires x + |b| <= size && |rec| == size && From(i, size) + x + |b| <= |s| && t == Splice(s, From(i, size) + x, b)
    ensures LaidAt(t, size, if k == i then Splice(rec, x, b) else other, k)
  {
    SlotWrite(s, size, n, i, x, b, k);
  }

  /** Write within record i, whose contents are `rec`. */
  method Put(a: array<byte>, size: nat, i: nat, x: nat, b: seq<byte>, ghost recs: seq<seq<byte>>, ghost rec: seq<byte>)
    requires i < |recs| && x + |b| <= size == |rec| && Laid(a[..], size, recs[i := rec])
    modifies a
    ensures Laid(a[..], size, recs[i := Splice(rec, x, b)])
  {
    ghost var was := a[..];
    SlotFits(|recs|, size, i);
    StoreBytes(a, From(i, size) + x, b);
    LaidWrite(was, size, recs[i := rec], i, x, b, a[..]);
    assert recs[i := rec][i := Splice(rec, x, b)] == recs[i := Splice(rec, x, b)];
  }

  // ------------------------------------------------------------- making records

  /** A record that has a name only, or none, and no blockettes. */
  predicate Unfinished(rec: seq<byte>) {
    |rec| >= 72 && rec[39] == 0
  }

  /** A record that is well formed and for this channel, or has no blockettes. */
  ghost predicate Ready(rec: seq<byte>, offs: seq<nat>, end: nat, channel: seq<byte>) {
    Unfinished(rec) || (WellFormed(rec, offs, end) && Channel(rec) == channel)
  }

  function BlankRecord(size: nat): (s: seq<byte>)
    requires size >= 72
    ensures |s| == size && Unfinished(s)
  {
    Blanks(20) + Zeros(size - 20)
  }

  function BlankRecords(size: nat, n: nat): (s: seq<seq<byte>>)
    requires size >= 72
    ensures |s| == n
  {
    seq(n, _ => BlankRecord(size))
  }

  /** What a record is after its names, its fixed fields, its id string and its data have been written. */
  lemma {:induction false} WrittenInTurn(size: nat, names: seq<byte>, f0: seq<byte>, f1: seq<byte>, id: seq<byte>,
                                         copied: bool, idBytes: seq<byte>,
                                         part: seq<byte>, r0: seq<byte>, r1: seq<byte>, r2: seq<byte>, r3: seq<byte>,
                                         r4: seq<byte>)
    requires |names| == 30 && |f0| == |f1| == 41 && 71 + |id| + |part| <= size && size >= 72
    requires f1 == f0[4 := 1] && idBytes == if copied then id else Zeros(|id|)
    requires r0 == Splice(BlankRecord(size), 0, names) && r1 == Splice(r0, 30, f0)
    requires r2 == if copied then Splice(r1, 71, id) else r1
    requires r3 == Splice(r2, 34, [1]) && r4 == Splice(r3, 71 + |id|, part)
    ensures r4 == names + f1 + idBytes + part + Zeros(size - 71 - |id| - |part|)
  {
    assert r1 == names + f0 + Zeros(size - 71);
    assert r2 == names + f0 + idBytes + Zeros(size - 71 - |id|);
    assert r3 == r2[34 := 1] && (names + f0)[34 := 1] == names + f1;
    assert r3 == names + f1 + idBytes + Zeros(size - 71 - |id|);
  }

  /** Count the tildes of an id string in one byte. */
  method CountTildes(id: seq<byte>) returns (fields: byte)
    ensures fields == Tildes(id) % 256
  {
    fields := 0;
    var j := 0;
    while j < |id|
      invariant j <= |id| && fields == Tildes(id[..j]) % 256
    {
      assert id[..j + 1][..j] == id[..j];
      if id[j] == TILDE {
        fields := (fields + 1) % 256;
      }
      j := j + 1;
    }
    assert id[..j] == id;
  }

  /** Number of the series a message is in, 0 if it takes one record only. */
  function SeriesNumber(multi: int, n: nat): int {
    if n > 1 then multi else 0
  }

  /**
   A record that could not be made. Without a size code it has no blockettes; with a bad id string it is well formed
   and holds zeros in place of the data.
   */
  ghost predicate Failed(rec: seq<byte>, q: Request, size: nat, length: nat, flags: byte)
  {
    if LengthCode(size).None? then Unfinished(rec)
    else
      && Channel(rec) == Field(q.ids.channel, 3) && WellFormed(rec, [48, 56], RoundUp4(71 + |q.id| + length))
      && ReadRecord(rec) == [Fragment(Field(q.ids.channel, 3), flags, Zeros(length))]
  }

  /** What making the i-th of n records for a message comes to. */
  ghost predicate Made(rec: seq<byte>, q: Request, size: nat, number: int, n: nat, i: nat, failed: bool)
    requires Free(size, q.id) > 0 && Cut(q.data, Free(size, q.id), n) && i < n
  {
    if failed then
      Failed(rec, q, size, |Part(q.data, Free(size, q.id), n, i)|, FlagsOf(i, n))
    else LengthCode(size).Some? && rec == Image(q, size, LengthCode(size).value, number, n, i)
  }

  /**
   Fill in the i-th of the n records of a message. It fails for a record size that has no code, with only the names
   written, and for an id string that does not end in a tilde, with the data missing.
   */
  method FillRecord(a: array<byte>, q: Request, size: nat, number: int, n: nat, i: nat, ghost recs: seq<seq<byte>>)
    returns (failed: bool, ghost rec: seq<byte>)
    requires Free(size, q.id) > 0 && Cut(q.data, Free(size, q.id), n) && i < n == |recs|
    requires Laid(a[..], size, recs) && recs[i] == BlankRecord(size)
    modifies a
    ensures Laid(a[..], size, recs[i := rec]) && |rec| == size
    ensures failed <==> LengthCode(size).None? || !Ended(q.id)
    ensures Made(rec, q, size, number, n, i, failed)
  {
    PartBounds(q.data, Free(size, q.id), n, i);
    ghost var r0 := Splice(recs[i], 0, Names(q, i));
    assert recs[i := recs[i]] == recs;
    Put(a, size, i, 0, Names(q, i), recs, recs[i]);
    if LengthCode(size).None? {
      return true, r0;
    }
    var length := |Part(q.data, Free(size, q.id), n, i)|;
    failed, rec := FillRest(a, q, size, number, n, i, recs, r0);
  }

  /** Write the fixed fields and then, unless the id string is bad, the rest. */
  method FillRest(a: array<byte>, q: Request, size: nat, number: int, n: nat, i: nat, ghost recs: seq<seq<byte>>,
                  ghost r0: seq<byte>)
    returns (failed: bool, ghost rec: seq<byte>)
    requires Free(size, q.id) > 0 && Cut(q.data, Free(size, q.id), n) && i < n == |recs| && LengthCode(size).Some?
    requires r0 == Splice(BlankRecord(size), 0, Names(q, i)) && Laid(a[..], size, recs[i := r0])
    modifies a
    ensures Laid(a[..], size, recs[i := rec]) && |rec| == size && (failed <==> !Ended(q.id))
    ensures Made(rec, q, size, number, n, i, failed)
  {
    PartBounds(q.data, Free(size, q.id), n, i);
    var length := |Part(q.data, Free(size, q.id), n, i)|;
    var fields;
    ghost var r1;
    fields, r1 := WriteFixed(a, q, size, LengthCode(size).value, number, n, i, length, recs, r0);
    if |q.id| > 0 && q.id[|q.id| - 1] != TILDE {
      FailedReads(q, size, number, n, i, length, r0, r1);
      return true, r1;
    }
    rec := FillData(a, q, size, number, n, i, fields, recs, r0, r1);
    failed := false;
  }

  /** Write the fixed fields. */
  method WriteFixed(a: array<byte>, q: Request, size: nat, code: byte, number: int, n: nat, i: nat, length: nat,
                    ghost recs: seq<seq<byte>>, ghost r0: seq<byte>)
    returns (fields: byte, ghost r1: seq<byte>)
    requires i < |recs| && 72 <= size == |r0| && Laid(a[..], size, recs[i := r0])
    modifies a
    ensures fields == Tildes(q.id) % 256 && r1 == Splice(r0, 30, FixedOf(q, code, number, n, i, length, 0))
    ensures Laid(a[..], size, recs[i := r1])
  {
    fields := CountTildes(q.id);
    var fixed := Fixed(code, 15 + |q.id| + length, 15 + |q.id|, number, FlagsOf(i, n), fields, 0);
    r1 := Splice(r0, 30, fixed);
    Put(a, size, i, 30, fixed, recs, r0);
  }

  /** Write the id string and the data. */
  method FillData(a: array<byte>, q: Request, size: nat, ghost number: int, n: nat, i: nat, fields: byte,
                  ghost recs: seq<seq<byte>>,
                  ghost r0: seq<byte>, ghost r1: seq<byte>)
    returns (ghost rec: seq<byte>)
    requires Free(size, q.id) > 0 && Cut(q.data, Free(size, q.id), n) && i < n == |recs| && LengthCode(size).Some?
    requires fields == Tildes(q.id) % 256 && r0 == Splice(BlankRecord(size), 0, Names(q, i))
    requires r1 == Splice(r0, 30, FixedOf(q, LengthCode(size).value, number, n, i,
             |Part(q.data, Free(size, q.id), n, i)|, 0))
    requires Laid(a[..], size, recs[i := r1])
    modifies a
    ensures rec == Image(q, size, LengthCode(size).value, number, n, i) && Laid(a[..], size, recs[i := rec])
  {
    PartBounds(q.data, Free(size, q.id), n, i);
    var part := Part(q.data, Free(size, q.id), n, i);
    ghost var r2, r3;
    r2, r3, rec := WriteData(a, size, i, q.id, 0 < fields < 128, part, recs, r1);
    ghost var f0, f1 := FixedOf(q, LengthCode(size).value, number, n, i, |part|, 0), FixedOf(q,
                                LengthCode(size).value, number, n, i, |part|, 1);
    MultiplierSet(q, LengthCode(size).value, number, n, i, |part|);
    ImageFilled(q, size, LengthCode(size).value, number, n, i, part, f0, f1, r0, r1, r2, r3, rec);
  }

  lemma {:induction false} ImageFilled(q: Request, size: nat, code: byte, number: int, n: nat, i: nat,
                                       part: seq<byte>, f0: seq<byte>,
                                       f1: seq<byte>, r0: seq<byte>, r1: seq<byte>, r2: seq<byte>, r3: seq<byte>,
                                       r4: seq<byte>)
    requires Free(size, q.id) > 0 && Cut(q.data, Free(size, q.id), n) && i < n && |r1| == |r2| == |r3| == size
    requires part == Part(q.data, Free(size, q.id), n, i) && 71 + |q.id| + |part| <= size
    requires |f0| == 41 && f1 == f0[4 := 1] && f1 == FixedOf(q, code, number, n, i, |part|, 1)
    requires r0 == Splice(BlankRecord(size), 0, Names(q, i)) && r1 == Splice(r0, 30, f0)
    requires r2 == if 0 < Tildes(q.id) % 256 < 128 then Splice(r1, 71, q.id) else r1
    requires r3 == Splice(r2, 34, [1]) && r4 == Splice(r3, 71 + |q.id|, part)
    ensures r4 == Image(q, size, code, number, n, i)
  {
    var names, id, rest := Names(q, i), IdBytes(q.id), Zeros(size - 71 - |q.id| - |part|);
    WrittenInTurn(size, names, f0, f1, q.id, 0 < Tildes(q.id) % 256 < 128, id, part, r0, r1, r2, r3, r4);
    ImageFrom(q, size, code, number, n, i, part, names, f1, id, rest, r4);
  }

  lemma {:induction false} ImageFrom(q: Request, size: nat, code: byte, number: int, n: nat, i: nat, part: seq<byte>,
                                     names: seq<byte>,
                                     fixed: seq<byte>, id: seq<byte>, rest: seq<byte>, rec: seq<byte>)
    requires Free(size, q.id) > 0 && Cut(q.data, Free(size, q.id), n) && i < n
             && part == Part(q.data, Free(size, q.id), n, i)
    requires 71 + |q.id| + |part| <= size && rest == Zeros(size - 71 - |q.id| - |part|)
    requires names == Names(q, i) && fixed == FixedOf(q, code, number, n, i, |part|, 1) && id == IdBytes(q.id)
    requires rec == names + fixed + id + part + rest
    ensures rec == Image(q, size, code, number, n, i)
  {
  }

  /** Write the id string if it counts, the sample rate multiplier and the data. */
  method WriteData(a: array<byte>, size: nat, i: nat, id: seq<byte>, counts: bool, part: seq<byte>,
                   ghost recs: seq<seq<byte>>,
                   ghost r1: seq<byte>)
    returns (ghost r2: seq<byte>, ghost r3: seq<byte>, ghost rec: seq<byte>)
    requires i < |recs| && 72 <= size == |r1| && 71 + |id| + |part| <= size && Laid(a[..], size, recs[i := r1])
    modifies a
    ensures r2 == (if counts then Splice(r1, 71, id) else r1) && r3 == Splice(r2, 34, [1])
            && rec == Splice(r3, 71 + |id|, part)
    ensures Laid(a[..], size, recs[i := rec])
  {
    r2 := r1;
    if counts {
      r2 := Splice(r1, 71, id);
      Put(a, size, i, 71, id, recs, r1);
    }
    r3 := Splice(r2, 34, [1]);
    Put(a, size, i, 34, [1], recs, r2);
    rec := Splice(r3, 71 + |id|, part);
    Put(a, size, i, 71 + |id|, part, recs, r3);
  }

  lemma {:induction false} MultiplierSet(q: Request, code: byte, number: int, n: nat, i: nat, length: nat)
    ensures FixedOf(q, code, number, n, i, length, 1) == FixedOf(q, code, number, n, i, length, 0)[4 := 1]
  {
  }

  lemma {:induction false} FailedReads(q: Request, size: nat, number: int, n: nat, i: nat, length: nat, r0: seq<byte>,
                                       r1: seq<byte>)
    requires LengthCode(size).Some? && 71 + |q.id| + length <= size
    requires r0 == Splice(BlankRecord(size), 0, Names(q, i))
    requires r1 == Splice(r0, 30, FixedOf(q, LengthCode(size).value, number, n, i, length, 0))
    ensures Failed(r1, q, size, length, FlagsOf(i, n))
  {
    var fixed := FixedOf(q, LengthCode(size).value, number, n, i, length, 0);
    NamedRecord(BlankRecord(size), Names(q, i), fixed, r0, r1);
    StillZero(size, Names(q, i), fixed, r0, r1, 71 + |q.id|, length);
    FreshReads(r1, LengthCode(size).value, 15 + |q.id| + length, 15 + |q.id|, number, FlagsOf(i, n),
               Tildes(q.id) % 256, 0);
  }

  lemma {:induction false} StillZero(size: nat, names: seq<byte>, fixed: seq<byte>, r0: seq<byte>, r1: seq<byte>,
                                     at: nat, length: nat)
    requires |names| == 30 && |fixed| == 41 && size >= 72 && 71 <= at && at + length <= size
    requires r0 == Splice(BlankRecord(size), 0, names) && r1 == Splice(r0, 30, fixed)
    ensures r1[at..at + length] == Zeros(length)
  {
    assert forall k :: 71 <= k < size ==> r1[k] == r0[k] == BlankRecord(size)[k] == 0;
  }

  lemma {:induction false} NamedRecord(blank: seq<byte>, names: seq<byte>, fixed: seq<byte>, r0: seq<byte>,
                                       r1: seq<byte>)
    requires |names| == 30 && |fixed| == 41 && |blank| >= 72 && r0 == Splice(blank, 0, names)
             && r1 == Splice(r0, 30, fixed)
    ensures r1[30..71] == fixed && Channel(r1) == names[15..18]
  {
    assert r1[15..18] == r1[..30][15..18] == r0[..30][15..18];
  }

  lemma {:induction false} ZerosLaid(s: seq<byte>, size: nat, n: nat)
    requires s == Zeros(From(n, size))
    ensures Laid(s, size, seq(n, _ => Zeros(size)))
  {
    forall k | 0 <= k < n
      ensures LaidAt(s, size, Zeros(size), k)
    {
      SlotFits(n, size, k);
    }
  }

  /** Allocate n records: the first 20 characters of each are blank, all else is zero. */
  method NewRecords(size: nat, n: nat) returns (a: array<byte>)
    requires size >= 72
    ensures fresh(a) && Laid(a[..], size, BlankRecords(size, n))
  {
    a := new byte[From(n, size)](_ => 0);
    assert a[..] == Zeros(From(n, size));
    ghost var recs: seq<seq<byte>> := seq(n, _ => Zeros(size));
    ZerosLaid(a[..], size, n);
    for i := 0 to n
      invariant |recs| == n && Laid(a[..], size, recs)
      invariant forall k :: 0 <= k < n ==> recs[k] == if k < i then BlankRecord(size) else Zeros(size)
    {
      assert recs[i := recs[i]] == recs;
      Put(a, size, i, 0, Blanks(20), recs, recs[i]);
      assert Splice(Zeros(size), 0, Blanks(20)) == BlankRecord(size);
      recs := recs[i := BlankRecord(size)];
    }
    assert recs == BlankRecords(size, n);
  }

  /** The records after the first one have no blockettes. */
  ghost predicate Blank(recs: seq<seq<byte>>)
  {
    forall k :: 1 <= k < |recs| ==> Unfinished(recs[k])
  }

  /** The first i of the n records of a message have been filled in. */
  ghost predicate Filling(recs: seq<seq<byte>>, q: Request, size: nat, number: int, n: nat, i: nat)
    requires Free(size, q.id) > 0 && Cut(q.data, Free(size, q.id), n) && i <= n
  {
    && |recs| == n && (forall k :: i <= k < n ==> recs[k] == BlankRecord(size))
    && (i > 0 ==>
          LengthCode(size).Some? && Ended(q.id) && recs[..i] == Images(q, size, LengthCode(size).value, number, n, i))
  }

  lemma {:induction false} FilledNext(recs: seq<seq<byte>>, q: Request, size: nat, number: int, n: nat, i: nat,
                                      rec: seq<byte>)
    requires Free(size, q.id) > 0 && Cut(q.data, Free(size, q.id), n) && i < n && Filling(recs, q, size, number, n, i)
    requires LengthCode(size).Some? && Ended(q.id) && rec == Image(q, size, LengthCode(size).value, number, n, i)
    ensures Filling(recs[i := rec], q, size, number, n, i + 1)
  {
    assert recs[i := rec][..i + 1] == recs[..i] + [rec];
    assert recs[..0] == [];
  }

  /** Fill in the next record. */
  method FillNext(a: array<byte>, q: Request, size: nat, number: int, n: nat, i: nat, ghost was: seq<seq<byte>>)
    returns (failed: bool, ghost recs: seq<seq<byte>>)
    requires Free(size, q.id) > 0 && Cut(q.data, Free(size, q.id), n) && i < n && Laid(a[..], size, was)
             && Filling(was, q, size, number, n, i)
    modifies a
    ensures Laid(a[..], size, recs) && |recs| == n && |recs[0]| == size
    ensures failed <==> LengthCode(size).None? || !Ended(q.id)
    ensures failed ==> Failed(recs[0], q, size, |Part(q.data, Free(size, q.id), n, 0)|, FlagsOf(0, n)) && Blank(recs)
    ensures !failed ==> Filling(recs, q, size, number, n, i + 1)
  {
    ghost var rec;
    failed, rec := FillRecord(a, q, size, number, n, i, was);
    recs := was[i := rec];
    if !failed {
      FilledNext(was, q, size, number, n, i, rec);
      FirstImage(q, size, LengthCode(size).value, number, n, i + 1);
      assert recs[0] == recs[..i + 1][0];
    }
  }

  /** Fill in the records of a message one after the other, until one fails. */
  method FillAll(a: array<byte>, q: Request, size: nat, number: int, n: nat) returns (failed: bool,
                 ghost recs: seq<seq<byte>>)
    requires Free(size, q.id) > 0 && Cut(q.data, Free(size, q.id), n) && Laid(a[..], size, BlankRecords(size, n))
    modifies a
    ensures Laid(a[..], size, recs) && |recs| == n && |recs[0]| == size
    ensures failed <==> LengthCode(size).None? || !Ended(q.id)
    ensures failed ==> Failed(recs[0], q, size, |Part(q.data, Free(size, q.id), n, 0)|, FlagsOf(0, n)) && Blank(recs)
    ensures !failed ==> recs == Images(q, size, LengthCode(size).value, number, n, n)
  {
    recs := BlankRecords(size, n);
    for i := 0 to n
      invariant Laid(a[..], size, recs) && Filling(recs, q, size, number, n, i)
    {
      failed, recs := FillNext(a, q, size, number, n, i, recs);
      if failed {
        return;
      }
    }
    failed := false;
    assert recs[..n] == recs;
    FirstImage(q, size, LengthCode(size).value, number, n, n);
  }

  // ------------------------------------------------------ appending to a record

  /** What a record is after the count, the link and the new blockette have been written. */
  lemma {:induction false} AppendedInTurn(s: seq<byte>, offs: seq<nat>, end: nat, data: seq<byte>, head: seq<byte>,
                                          r1: seq<byte>, r2: seq<byte>, r3: seq<byte>, r4: seq<byte>, t: seq<byte>)
    requires 0 < |offs| < 127 && end < 65536 && end + 15 + |data| <= |s| && end + 16 <= |s|
    requires 48 <= offs[|offs| - 1] && offs[|offs| - 1] + 4 <= end
    requires |head| == 14
    requires forall fields: byte :: head + [fields] == OpaqueHead(15 + |data|, 15, 0, SELF_CONTAINED, fields)
    requires r1 == Splice(s, 39, [(|offs| + 1) % 256]) && r2 == Splice(r1, offs[|offs| - 1] + 2, Word16(end))
    requires r3 == Splice(r2, end, head) && r4 == Splice(r3, end + 15, [0]) && t == Splice(r4, end + 15, data)
    ensures Appended(s, offs, end, t, data)
  {
    var link := offs[|offs| - 1] + 2;
    TailWritten(r2, end, head, data, r3, r4, t);
    HeadWritten(s, link, end, (|offs| + 1) % 256, r1, r2, t);
    assert t[end..end + 15] == head + [t[end + 14]];
  }

  /** The new blockette is there and nothing before it has changed. */
  lemma {:induction false} TailWritten(r2: seq<byte>, end: nat, head: seq<byte>, data: seq<byte>, r3: seq<byte>,
                                       r4: seq<byte>, t: seq<byte>)
    requires |head| == 14 && end + 15 + |data| <= |r2| && end + 16 <= |r2|
    requires r3 == Splice(r2, end, head) && r4 == Splice(r3, end + 15, [0]) && t == Splice(r4, end + 15, data)
    ensures |t| == |r2| && t[..end] == r2[..end] && t[end..end + 14] == head && t[end + 15..end + 15 + |data|] == data
  {
    assert t[..end + 15] == r4[..end + 15] == r3[..end + 15];
    assert t[..end] == t[..end + 15][..end] == r3[..end + 15][..end] == r2[..end];
    assert t[end..end + 14] == t[..end + 15][end..end + 14] == r3[..end + 15][end..end + 14] == r3[end..end + 14];
  }

  /** Count and link are set, and no other byte before the new blockette has changed. */
  lemma {:induction false} HeadWritten(s: seq<byte>, link: nat, end: nat, count: byte, r1: seq<byte>, r2: seq<byte>,
                                       t: seq<byte>)
    requires 50 <= link && link + 2 <= end <= |s| == |t| && end < 65536
    requires r1 == Splice(s, 39, [count]) && r2 == Splice(r1, link, Word16(end)) && t[..end] == r2[..end]
    ensures t[39] == count && Read16(t, link) == end
    ensures forall k {:trigger t[k]} :: 0 <= k < end && k != 39 && k != link && k != link + 1 ==> t[k] == s[k]
  {
    assert r2[39] == r2[..link][39] == r1[..link][39] == r1[39] == r1[39..40][0];
    assert t[39] == t[..end][39] == r2[39];
    assert t[link..link + 2] == t[..end][link..link + 2] == r2[link..link + 2];
    ReadBack16(end, t, link);
    forall k {:trigger t[k]} | 0 <= k < end && k != 39 && k != link && k != link + 1
      ensures t[k] == s[k]
    {
      assert t[k] == t[..end][k] == r2[k];
    }
  }

  /** Set the count and the last link of the first record and write a blockette with the data at `idx`. */
  method WriteBlockette(a: array<byte>, size: nat, data: seq<byte>, cnt: byte, idx: nat, last: nat,
                        ghost recs: seq<seq<byte>>,
                        ghost s: seq<byte>, ghost offs: seq<nat>)
    returns (ghost t: seq<byte>)
    requires recs != [] && |s| == size && Laid(a[..], size, recs[0 := s]) && idx + 16 <= size
    requires 0 < cnt == |offs| < 127 && last == offs[|offs| - 1] && 48 <= last && last + 4 <= idx < 65536
             && idx + 15 + |data| <= size
    modifies a
    ensures Laid(a[..], size, recs[0 := t]) && Appended(s, offs, idx, t, data)
  {
    var head := OpaqueHead(15 + |data|, 15, 0, SELF_CONTAINED, 0)[..14];
    ghost var r1 := Splice(s, 39, [(cnt + 1) % 256]);
    Put(a, size, 0, 39, [(cnt + 1) % 256], recs, s);
    ghost var r2 := Splice(r1, last + 2, Word16(idx));
    Put(a, size, 0, last + 2, Word16(idx), recs, r1);
    ghost var r3 := Splice(r2, idx, head);
    Put(a, size, 0, idx, head, recs, r2);
    ghost var r4 := Splice(r3, idx + 15, [0]);
    Put(a, size, 0, idx + 15, [0], recs, r3);
    t := Splice(r4, idx + 15, data);
    Put(a, size, 0, idx + 15, data, recs, r4);
    AppendedInTurn(s, offs, idx, data, head, r1, r2, r3, r4, t);
  }

  // ------------------------------------------------------ what a reader gets

  /** A record whose blockettes are one chain, aligned, in bounds, not overlapping, and counted by its header. */
  ghost predicate Formed(rec: seq<byte>)
  {
    exists offs: seq<nat>, end: nat :: WellFormed(rec, offs, end)
  }

  /** All records are formed, or some could not be made and have no blockettes. */
  ghost predicate AllFormed(rs: seq<seq<byte>>, clean: bool)
  {
    forall k :: 0 <= k < |rs| ==> Formed(rs[k]) || (!clean && Unfinished(rs[k]))
  }

  /** A reader of the records has exactly these messages complete. */
  ghost predicate Arrived(rs: seq<seq<byte>>, ms: seq<Message>, clean: bool)
  {
    FeedAll(Assembly([], []), ReadAll(rs)).complete == ms && AllFormed(rs, clean)
  }

  /** What arrives of a message for which no record could be made: zeros, if it would have taken one record. */
  function Remains(q: Request, size: nat): seq<Message> {
    if q.data != [] && LengthCode(size).Some? && Free(size, q.id) > 0 && Count(|q.data|, Free(size, q.id)) == 1
    then [Message(Field(q.ids.channel, 3), Zeros(|q.data|))] else []
  }

  lemma {:induction false} FormedJoin(a: seq<seq<byte>>, b: seq<seq<byte>>, clean: bool)
    ensures AllFormed(a + b, clean) <==> AllFormed(a, clean) && AllFormed(b, clean)
  {
    if AllFormed(a + b, clean) {
      forall k | 0 <= k < |a|
        ensures Formed(a[k]) || (!clean && Unfinished(a[k]))
      {
        assert (a + b)[k] == a[k];
      }
      forall k | 0 <= k < |b|
        ensures Formed(b[k]) || (!clean && Unfinished(b[k]))
      {
        assert (a + b)[|a| + k] == b[k];
      }
    }
  }

  lemma {:induction false} ReadsJoin(a: seq<seq<byte>>, b: seq<seq<byte>>, ms: seq<Message>, clean: bool)
      returns (open: seq<byte>)
    requires Arrived(a, ms, clean)
    ensures FeedAll(Assembly([], []), ReadAll(a + b)) == FeedAll(Assembly(ms, open), ReadAll(b))
  {
    open := FeedAll(Assembly([], []), ReadAll(a)).open;
    ReadAllAppend(a, b);
    FeedAppend(Assembly([], []), ReadAll(a), ReadAll(b));
  }

  /** The records of a message. */
  lemma {:induction false} NewReads(wire: seq<seq<byte>>, recs: seq<seq<byte>>, q: Request, size: nat, code: byte,
                                    number: int, n: nat,
                                    ms: seq<Message>, clean: bool)
    requires LengthCode(size) == Some(code) && Free(size, q.id) > 0 && Cut(q.data, Free(size, q.id), n)
    requires recs == Images(q, size, code, number, n, n) && Arrived(wire, ms, clean)
    ensures Arrived(wire + recs, ms + [Message(Field(q.ids.channel, 3), q.data)], clean)
  {
    var open := ReadsJoin(wire, recs, ms, clean);
    MessageArrives(q, size, code, number, n, ms, open);
    ImagesFormed(q, size, code, number, n, n, clean);
    FormedJoin(wire, recs, clean);
  }

  lemma {:induction false} ImagesFormed(q: Request, size: nat, code: byte, number: int, n: nat, k: nat, clean: bool)
    requires LengthCode(size) == Some(code) && Free(size, q.id) > 0 && Cut(q.data, Free(size, q.id), n) && k <= n
    ensures AllFormed(Images(q, size, code, number, n, k), clean)
  {
    if k > 0 {
      ImagesFormed(q, size, code, number, n, k - 1, clean);
      ImageReads(q, size, code, number, n, k - 1);
      OneFormed(Image(q, size, code, number, n, k - 1), [48, 56],
                RoundUp4(71 + |q.id| + |Part(q.data, Free(size, q.id), n, k - 1)|), clean);
      FormedJoin(Images(q, size, code, number, n, k - 1), [Image(q, size, code, number, n, k - 1)], clean);
    }
  }

  lemma {:induction false} OneFormed(rec: seq<byte>, offs: seq<nat>, end: nat, clean: bool)
    requires WellFormed(rec, offs, end)
    ensures Formed(rec) && AllFormed([rec], clean)
  {
  }

  lemma {:induction false} UnfinishedReads(rec: seq<byte>)
    requires Unfinished(rec)
    ensures ReadRecord(rec) == []
  {
  }

  /** Only the first of these records is read. */
  lemma {:induction false} BlankReads(recs: seq<seq<byte>>)
    requires recs != [] && Blank(recs)
    ensures ReadAll(recs) == ReadRecord(recs[0])
  {
    var n := |recs| - 1;
    if n == 0 {
      assert recs[..0] == [];
    } else {
      BlankReads(recs[..n]);
      UnfinishedReads(recs[n]);
      assert ReadRecord(recs[0]) + [] == ReadRecord(recs[0]);
    }
  }

  lemma {:induction false} LonePart(data: seq<byte>, free: nat, n: nat)
    requires free > 0 && Cut(data, free, n)
    ensures n == 1 ==> |Part(data, free, n, 0)| == |data|
  {
    FromNext(0, free);
    PartBounds(data, free, n, 0);
  }

  /** The records of a message that could not be made, with room for `length` bytes of it in the first one. */
  lemma {:induction false} LostReads(wire: seq<seq<byte>>, recs: seq<seq<byte>>, q: Request, size: nat, n: nat,
                                     length: nat,
                                     ms: seq<Message>, clean: bool)
    requires Free(size, q.id) > 0 && q.data != [] && n == |recs| == Count(|q.data|, Free(size, q.id)) && n >= 1
    requires Failed(recs[0], q, size, length, FlagsOf(0, n)) && Blank(recs) && (n == 1 ==> length == |q.data|)
    requires Arrived(wire, ms, clean)
    ensures Arrived(wire + recs, ms + Remains(q, size), false)
  {
    var open := ReadsJoin(wire, recs, ms, clean);
    BlankReads(recs);
    LostFeed(Assembly(ms, open), recs[0], q, size, length, n);
    LostFormed(recs, q, size, length, n);
    StillArrived(wire, ms, clean);
    FormedJoin(wire, recs, false);
  }

  lemma {:induction false} StillArrived(wire: seq<seq<byte>>, ms: seq<Message>, clean: bool)
    requires Arrived(wire, ms, clean)
    ensures AllFormed(wire, false)
  {
  }

  lemma {:induction false} LostFeed(a: Assembly, rec: seq<byte>, q: Request, size: nat, length: nat, n: nat)
    requires n >= 1 && Failed(rec, q, size, length, FlagsOf(0, n)) && (n == 1 ==> length == |q.data|)
    requires Free(size, q.id) > 0 && n == Count(|q.data|, Free(size, q.id)) && q.data != []
    ensures FeedAll(a, ReadRecord(rec)).complete == a.complete + Remains(q, size)
  {
    if LengthCode(size).None? {
      UnfinishedReads(rec);
    } else {
      assert [] + ReadRecord(rec) == ReadRecord(rec);
      FeedNext(a, [], ReadRecord(rec)[0]);
    }
    assert a.complete + [] == a.complete;
  }

  lemma {:induction false} LostFormed(recs: seq<seq<byte>>, q: Request, size: nat, length: nat, n: nat)
    requires recs != [] && Failed(recs[0], q, size, length, FlagsOf(0, n)) && Blank(recs)
    ensures AllFormed(recs, false)
  {
    if LengthCode(size).Some? {
      assert WellFormed(recs[0], [48, 56], RoundUp4(71 + |q.id| + length));
      assert Formed(recs[0]);
    }
  }

  /** One more message in the first record of the buffer. */
  lemma {:induction false} AppendReads(wire: seq<seq<byte>>, was: seq<seq<byte>>, recs: seq<seq<byte>>, f: Fragment,
                                       ms: seq<Message>,
                                       clean: bool)
    requires |was| == |recs| >= 1 && recs[1..] == was[1..] && Blank(was) && Formed(recs[0])
    requires ReadRecord(recs[0]) == ReadRecord(was[0]) + [f] && f.flags == SELF_CONTAINED
             && Arrived(wire + was, ms, clean)
    ensures Blank(recs) && Arrived(wire + recs, ms + [Message(f.channel, f.payload)], clean)
  {
    StillBlank(was, recs);
    StillFormed(wire, was, recs, clean);
    ReadAllAppend(wire, was);
    ReadAllAppend(wire, recs);
    BlankReads(was);
    BlankReads(recs);
    AppendFeeds(ReadAll(wire), ReadRecord(was[0]), f, ms);
  }

  lemma {:induction false} AppendFeeds(fs: seq<Fragment>, gs: seq<Fragment>, f: Fragment, ms: seq<Message>)
    requires f.flags == SELF_CONTAINED && FeedAll(Assembly([], []), fs + gs).complete == ms
    ensures FeedAll(Assembly([], []), fs + (gs + [f])).complete == ms + [Message(f.channel, f.payload)]
  {
    ConcatAssoc(fs, gs, [f]);
    FeedNext(Assembly([], []), fs + gs, f);
  }

  lemma {:induction false} StillFormed(wire: seq<seq<byte>>, was: seq<seq<byte>>, recs: seq<seq<byte>>, clean: bool)
    requires |was| == |recs| >= 1 && recs[1..] == was[1..] && Formed(recs[0]) && AllFormed(wire + was, clean)
    ensures AllFormed(wire + recs, clean)
  {
    FormedJoin(wire, was, clean);
    assert was == [was[0]] + was[1..] && recs == [recs[0]] + was[1..];
    FormedJoin([was[0]], was[1..], clean);
    FormedJoin([recs[0]], was[1..], clean);
    FormedJoin(wire, recs, clean);
  }

  lemma {:induction false} StillBlank(was: seq<seq<byte>>, recs: seq<seq<byte>>)
    requires |recs| == |was| >= 1 && recs[1..] == was[1..] && Blank(was)
    ensures Blank(recs)
  {
    assert forall k :: 1 <= k < |recs| ==> recs[k] == recs[1..][k - 1] == was[1..][k - 1] == was[k];
  }

  // ------------------------------------------------------------ what queueing does

  /** The records sent, and those in the buffer. */
  datatype Records = Records(wire: seq<seq<byte>>, recs: seq<seq<byte>>)

  /** Records can be made for the message. */
  predicate Makeable(q: Request, size: nat)
  {
    q.data != [] && LengthCode(size).Some? && Ended(q.id)
  }

  function Sent(v: Records): Records {
    Records(v.wire + v.recs, [])
  }

  /** A fragment has been added to the first record in the buffer. */
  ghost predicate Joined(v: Records, w: Records, f: Fragment)
  {
    && w.wire == v.wire && |w.recs| == |v.recs| >= 1 && w.recs[1..] == v.recs[1..] && Formed(w.recs[0])
    && ReadRecord(w.recs[0]) == ReadRecord(v.recs[0]) + [f]
  }

  /** Records have been made for a message, and sent if there are several; or not. */
  ghost predicate Renewed(v: Records, w: Records, q: Request, size: nat, number: int)
    requires Free(size, q.id) > 0
  {
    var n := Count(|q.data|, Free(size, q.id));
    if q.data == [] then w == Records(v.wire, [])
    else
      && Cut(q.data, Free(size, q.id), n)
      && if Makeable(q, size) then
           var made := Images(q, size, LengthCode(size).value, number, n, n);
           w == if n > 1 then Records(v.wire + made, []) else Records(v.wire, made)
         else
           && w.wire == v.wire && |w.recs| == n
           && Failed(w.recs[0], q, size, |Part(q.data, Free(size, q.id), n, 0)|, FlagsOf(0, n)) && Blank(w.recs)
  }

  /** What arrives of a message. */
  function Arrival(q: Request, size: nat, joins: bool): seq<Message> {
    if joins || Makeable(q, size) then [Message(Field(q.ids.channel, 3), q.data)] else Remains(q, size)
  }

  /** A message has been queued: appended to the record in the buffer, or put into new records after that was sent. */
  ghost predicate Queued(v: Records, w: Records, q: Request, size: nat, joins: bool, number: int)
    requires Free(size, q.id) > 0
  {
    if joins then Joined(v, w, Fragment(Field(q.ids.channel, 3), SELF_CONTAINED, q.data))
    else Renewed(Sent(v), w, q, size, number)
  }

  lemma {:induction false} SentIdle(v: Records)
    ensures v.recs == [] ==> Sent(v) == v
  {
  }

  lemma {:induction false} SentTwice(v: Records)
    ensures Sent(Sent(v)) == Sent(v)
  {
  }

  lemma {:induction false} RenewedReads(v: Records, w: Records, q: Request, size: nat, number: int, ms: seq<Message>,
                                        clean: bool)
    requires Free(size, q.id) > 0 && Renewed(v, w, q, size, number) && Arrived(v.wire, ms, clean)
    ensures Arrived(w.wire + w.recs, ms + Arrival(q, size, false), clean && Makeable(q, size))
  {
    var n := Count(|q.data|, Free(size, q.id));
    if q.data == [] {
      EmptyReads(v.wire, w.recs, ms, clean);
    } else if Makeable(q, size) {
      var made := Images(q, size, LengthCode(size).value, number, n, n);
      NewReads(v.wire, made, q, size, LengthCode(size).value, number, n, ms, clean);
      assert w.wire + w.recs == v.wire + made;
    } else {
      LonePart(q.data, Free(size, q.id), n);
      LostReads(v.wire, w.recs, q, size, n, |Part(q.data, Free(size, q.id), n, 0)|, ms, clean);
    }
  }

  /**
   A reader of all records has the messages before and then this one, unless no record could be made for it: then it
   has zeros in its place if the message would have taken one record, and nothing otherwise.
   */
  lemma {:induction false} QueuedReads(v: Records, w: Records, q: Request, size: nat, joins: bool, number: int,
                                       ms: seq<Message>, clean: bool)
    requires Free(size, q.id) > 0 && Queued(v, w, q, size, joins, number) && Blank(v.recs)
             && Arrived(v.wire + v.recs, ms, clean)
    ensures Arrived(w.wire + w.recs, ms + Arrival(q, size, joins), clean && (joins || Makeable(q, size)))
  {
    if joins {
      AppendReads(v.wire, v.recs, w.recs, Fragment(Field(q.ids.channel, 3), SELF_CONTAINED, q.data), ms, clean);
    } else {
      RenewedReads(Sent(v), w, q, size, number, ms, clean);
    }
  }

  /**
   The last blockette lies before the end, and with room for a head and n bytes there is room for one byte more than a
   head.
   */
  lemma {:induction false} LastFits(s: seq<byte>, offs: seq<nat>, end: nat, n: nat)
    requires WellFormed(s, offs, end) && end + 15 + n <= |s|
    ensures 48 <= offs[|offs| - 1] && offs[|offs| - 1] + 4 <= end < 65536 && end + 16 <= |s|
  {
    assert Sound(s, offs, end, |offs| - 1);
  }

  class OpaqueQueue {
    const size: nat
    var buf: array?<byte>
    var numRecords: nat
    var seqno: nat
    var multiSeqNo: int
    var lastChan: seq<byte>
    var wire: seq<seq<byte>>               // the records handed to archd
    ghost var recs: seq<seq<byte>>         // the records in the buffer
    ghost var offs: seq<nat>               // the blockettes of the first of them
    ghost var end: nat

    ghost predicate Allocated()
      reads this, buf
    {
      if buf == null then numRecords == 0 && recs == []
      else numRecords == |recs| && (recs != [] ==> size >= 72 && |recs[0]| == size) && Laid(buf[..], size, recs)
    }

    /**
     The record that messages are appended to is well formed and for one channel, the last one, or has no blockettes.
     */
    ghost predicate Loaded()
      reads this, buf
    {
      Allocated() && (recs != [] ==> Ready(recs[0], offs, end, Field(lastChan, 3)))
    }

    /** The buffer is ready for another message. */
    ghost predicate Valid()
      reads this, buf
    {
      Loaded() && Blank(recs)
    }

    ghost function Value(): Records
      reads this
    {
      Records(wire, recs)
    }

    constructor (size: nat)
      ensures Valid() && buf == null && Value() == Records([], []) && this.size == size
    {
      this.size := size;
      buf, numRecords, seqno, multiSeqNo, lastChan, wire := null, 0, 0, 0, [], [];
      recs, offs, end := [], [], 0;
    }

    /** Send the records in the buffer and let go of it. */
    method Flush()
      requires Allocated()
      modifies this`buf, this`numRecords, this`wire, this`recs
      ensures Valid() && buf == null && Value() == Sent(old(Value()))
    {
      ghost var was := wire;
      for i := 0 to numRecords
        invariant buf == old(buf) && recs == old(recs) && numRecords == old(numRecords)
        invariant wire == was + recs[..i]
      {
        assert LaidAt(buf[..], size, recs[i], i);
        wire := wire + [buf[From(i, size)..From(i, size) + size]];
        assert was + recs[..i] + [recs[i]] == was + recs[..i + 1];
      }
      assert was + recs[..numRecords] == was + recs == was + recs + [];
      buf, numRecords, recs := null, 0, [];
    }

    /**
     Where the next blockette goes in the first record in the buffer, and where the last one is, found by following the
     links.
     */
    method FindEnd(cnt: nat) returns (idx: nat, last: nat, known: bool)
      requires Loaded() && recs != [] && WellFormed(recs[0], offs, end) && cnt == |offs|
      ensures idx == end && last == offs[|offs| - 1] && known
    {
      SameBytes();
      assert Sound(recs[0], offs, end, 0);
      idx := LoadWord(buf, 50);
      last, known := 0, true;
      var i := 1;
      while i < cnt
        invariant 1 <= i <= cnt && idx == (if i < cnt then offs[i] else end) && (i > 1 ==> last == offs[i - 1]) && known
      {
        last := idx;
        var isOpaque;
        idx, isOpaque := StepOn(idx, i, cnt);
        known := known && isOpaque;
        i := i + 1;
      }
    }

    /** From blockette i to the next one, or to the end, and whether it is opaque. */
    method StepOn(at: nat, i: nat, cnt: nat) returns (next: nat, isOpaque: bool)
      requires Loaded() && recs != [] && WellFormed(recs[0], offs, end) && 1 <= i < cnt == |offs| && at == offs[i]
      ensures isOpaque && next == if i + 1 < cnt then offs[i + 1] else end
    {
      SameBytes();
      assert Sound(recs[0], offs, end, i);
      var kind := LoadWord(buf, at);
      isOpaque := kind == 2000;
      if i < cnt - 1 {
        next := LoadWord(buf, at + 2);
      } else {
        var length := LoadWord(buf, at + 4);
        next := RoundUp4(at + length);
      }
    }

    /** The first record is the beginning of the buffer. */
    lemma {:induction false} SameBytes()
      requires Loaded() && recs != []
      ensures size <= buf.Length && |recs[0]| == size && forall k :: 0 <= k < size ==> buf[k] == recs[0][k]
      ensures forall k {:trigger Read16(buf[..], k)} :: 0 <= k < size - 1 ==> Read16(buf[..], k) == Read16(recs[0], k)
    {
      assert LaidAt(buf[..], size, recs[0], 0);
      FromNext(0, size);
      assert buf[..][0..0 + size] == recs[0];
      assert forall k :: 0 <= k < size ==> buf[..][k] == recs[0][k];
    }

    /** Write a blockette with this data behind the others and link the last one to it. */
    method AddBlockette(data: seq<byte>, cnt: byte, idx: nat, last: nat)
      requires Loaded() && recs != [] && WellFormed(recs[0], offs, end)
      requires cnt == |offs| < 127 && idx == end && last == offs[|offs| - 1] && end + 15 + |data| <= size
      modifies this`recs, this`offs, this`end, buf
      ensures Loaded() && |recs| == |old(recs)| && recs[1..] == old(recs)[1..]
      ensures WellFormed(recs[0], offs, end) && offs == old(offs) + [old(end)]
      ensures Appended(old(recs)[0], old(offs), old(end), recs[0], data)
      ensures ReadRecord(recs[0]) == ReadRecord(old(recs)[0]) + [Fragment(Channel(old(recs)[0]), SELF_CONTAINED, data)]
    {
      ghost var s := recs[0];
      assert recs[0 := s] == recs;
      LastFits(s, offs, end, |data|);
      ghost var t := WriteBlockette(buf, size, data, cnt, idx, last, recs, s, offs);
      ghost var top := RoundUp4(end + 15 + |data|);
      AppendedReads(s, offs, end, t, data, top);
      NoteFirst(t, offs + [end], top);
    }

    /** The first record in the buffer is t, with these blockettes. */
    ghost method NoteFirst(t: seq<byte>, os: seq<nat>, top: nat)
      requires buf != null && recs != [] && numRecords == |recs| && size >= 72 && |t| == size
      requires Laid(buf[..], size, recs[0 := t]) && WellFormed(t, os, top) && Channel(t) == Field(lastChan, 3)
      modifies this`recs, this`offs, this`end
      ensures Loaded() && recs == old(recs)[0 := t] && offs == os && end == top
    {
      recs, offs, end := recs[0 := t], os, top;
    }

    /**
     Append a message to the first record in the buffer. That record must have blockettes, but no more than 126, and
     room for another one.
     */
    method Append(data: seq<byte>) returns (ok: bool)
      requires Loaded() && recs != []
      modifies this`recs, this`offs, this`end, buf
      ensures Loaded() && |recs| == |old(recs)| && recs[1..] == old(recs)[1..]
      ensures !Unfinished(old(recs)[0]) ==> (ok <==> |old(offs)| < 127 && old(end) + 15 + |data| <= size)
      ensures Unfinished(old(recs)[0]) ==> !ok
      ensures ok ==>
                && ReadRecord(recs[0])
                   == ReadRecord(old(recs)[0]) + [Fragment(Field(lastChan, 3), SELF_CONTAINED, data)]
                && WellFormed(recs[0], offs, end) && Appended(old(recs)[0], old(offs), old(end), recs[0], data)
      ensures !ok ==> recs == old(recs)
    {
      SameBytes();
      var cnt := buf[39];
      if cnt == 0 {
        return false;
      }
      var first := LoadWord(buf, 46);
      var kind := LoadWord(buf, first);
      if kind != 1000 || cnt < 1 || 127 <= cnt {
        return false;
      }
      var idx, last, known := FindEnd(cnt);
      if !known || size < idx + |data| + 15 {
        return false;
      }
      AddBlockette(data, cnt, idx, last);
      ok := true;
    }

    /** Make the n records of a message. */
    method MakeSome(q: Request, n: nat) returns (failed: bool)
      requires Valid() && buf == null && Free(size, q.id) > 0 && Cut(q.data, Free(size, q.id), n)
               && q.ids.channel == lastChan
      modifies this`buf, this`numRecords, this`recs, this`offs, this`end
      ensures Loaded() && buf != null && fresh(buf) && numRecords == |recs| == n
      ensures failed <==> LengthCode(size).None? || !Ended(q.id)
      ensures failed ==> Failed(recs[0], q, size, |Part(q.data, Free(size, q.id), n, 0)|, FlagsOf(0, n)) && Blank(recs)
      ensures !failed ==> recs == Images(q, size, LengthCode(size).value, SeriesNumber(multiSeqNo, n), n, n)
    {
      var a := NewRecords(size, n);
      ghost var made;
      failed, made := FillAll(a, q, size, SeriesNumber(multiSeqNo, n), n);
      MadeReady(made, q, size, SeriesNumber(multiSeqNo, n), n, failed);
      buf, numRecords, recs := a, n, made;
      offs, end := [48, 56], RoundUp4(71 + |q.id| + |Part(q.data, Free(size, q.id), n, 0)|);
    }

    /** Make the record or records of a message; an empty message takes none. */
    method Make(q: Request) returns (failed: bool)
      requires Valid() && buf == null && Free(size, q.id) > 0 && q.ids.channel == lastChan
      modifies this`buf, this`numRecords, this`multiSeqNo, this`recs, this`offs, this`end
      ensures Loaded() && buf != null && fresh(buf) && numRecords == |recs| == Count(|q.data|, Free(size, q.id))
      ensures multiSeqNo == old(multiSeqNo) + if numRecords > 1 then 1 else 0
      ensures q.data == [] ==> !failed && numRecords == 0
      ensures q.data != [] ==>
                Cut(q.data, Free(size, q.id), numRecords) && (failed <==> LengthCode(size).None? || !Ended(q.id))
      ensures failed ==> Failed(recs[0], q, size, |Part(q.data, Free(size, q.id), numRecords, 0)|,
              FlagsOf(0, numRecords)) && Blank(recs)
      ensures q.data != [] && !failed ==>
                recs == Images(q, size, LengthCode(size).value, SeriesNumber(multiSeqNo, numRecords), numRecords,
                               numRecords)
    {
      var n := Count(|q.data|, Free(size, q.id));
      if n > 1 {
        multiSeqNo := multiSeqNo + 1;
      }
      if n == 0 {
        NoRecords(q.data, Free(size, q.id));
        buf := NewRecords(size, 0);
        numRecords, recs := 0, [];
        return false;
      }
      SomeData(q.data, Free(size, q.id));
      CountCuts(q.data, Free(size, q.id));
      failed := MakeSome(q, n);
    }

    /** The last message has taken no record, and the buffer is empty. */
    ghost predicate Hollow()
      reads this
    {
      buf != null && recs == []
    }

    /** The message is appended to the record in the buffer. */
    ghost predicate Joins(q: Request)
      reads this
    {
      && q.ids.channel == lastChan && recs != [] && !Unfinished(recs[0]) && |offs| < 127
      && end + 15 + |q.data| <= size
    }

    /** Every series of records gets the next number; records by themselves have number 0. */
    ghost predicate Numbered(q: Request, joins: bool, before: int, after: int, number: int)
    {
      if !joins && |q.data| > size - 71 - |q.id| then after == before + 1 && number == after
      else after == before && number == 0
    }

    /** Make a new record or records for a message, and send them right away if there are several. */
    method Renew(q: Request) returns (ghost number: int)
      requires Valid() && buf == null && Free(size, q.id) > 0 && q.ids.channel == lastChan
      modifies this`buf, this`numRecords, this`multiSeqNo, this`wire, this`recs, this`offs, this`end
      ensures Valid() && (buf != null ==> fresh(buf)) && old(wire) <= wire && (Hollow() ==> q.data == [])
      ensures Renewed(old(Value()), Value(), q, size, number)
      ensures Numbered(q, false, old(multiSeqNo), multiSeqNo, number)
    {
      SeveralIff(|q.data|, Free(size, q.id));
      var failed := Make(q);
      number := SeriesNumber(multiSeqNo, numRecords);
      if failed {
        return;
      }
      if numRecords > 1 {
        Flush();
      }
    }

    /** Send what is in the buffer if it is for another channel. */
    method ForChannel(channel: seq<byte>)
      requires Valid()
      modifies this`lastChan, this`buf, this`numRecords, this`wire, this`recs
      ensures Valid() && lastChan == channel
      ensures if channel == old(lastChan) then buf == old(buf) && Value() == old(Value())
              else buf == null && Value() == Sent(old(Value()))
    {
      if lastChan != channel {
        lastChan := channel;
        Flush();
      }
    }

    /** Append a message to the record in the buffer, if there is one and the message fits. */
    method Join(q: Request) returns (ok: bool)
      requires Valid() && q.ids.channel == lastChan && !Hollow()
      modifies this`recs, this`offs, this`end, buf
      ensures Valid() && ok == old(Joins(q)) && (ok ==> buf != null)
      ensures if ok then Joined(old(Value()), Value(), Fragment(Field(q.ids.channel, 3), SELF_CONTAINED, q.data))
              else Value() == old(Value())
    {
      ok := false;
      if buf != null {
        ghost var was := recs;
        ok := Append(q.data);
        if ok {
          StillBlank(was, recs);
          assert Formed(recs[0]);
        }
      }
    }

    /**
     Queue a message. Whatever is in the buffer is sent first if it is for another channel, and also if the message
     does not fit in. (After an empty message for which an empty buffer was made, the code looks for a record outside
     the buffer.)
     */
    method Queue(q: Request) returns (ghost number: int)
      requires Valid() && Free(size, q.id) > 0 && (Hollow() ==> q.ids.channel != lastChan)
      modifies this, buf
      ensures Valid() && old(wire) <= wire && lastChan == q.ids.channel && (Hollow() ==> q.data == [])
      ensures buf == old(buf) || buf == null || fresh(buf)
      ensures Queued(old(Value()), Value(), q.(seqno := seqno), size, old(Joins(q)), number)
      ensures seqno == old(seqno) + (if old(Joins(q)) then 0 else 1)
      ensures Numbered(q, old(Joins(q)), old(multiSeqNo), multiSeqNo, number)
      ensures lastChan != old(lastChan) ==> old(wire + recs) <= wire
    {
      number := 0;
      ghost var v := Value();
      ForChannel(q.ids.channel);
      SentTwice(v);
      var ok := Join(q);
      if !ok {
        number := Replace(q);
      }
    }

    /** Send what is in the buffer, if anything, and put the message into new records. */
    method Replace(q: Request) returns (ghost number: int)
      requires Valid() && Free(size, q.id) > 0 && q.ids.channel == lastChan
      modifies this`seqno, this`buf, this`numRecords, this`multiSeqNo, this`wire, this`recs, this`offs, this`end
      ensures Valid() && (buf != null ==> fresh(buf)) && old(wire) <= wire && (Hollow() ==> q.data == [])
      ensures Renewed(Sent(old(Value())), Value(), q.(seqno := seqno), size, number)
      ensures seqno == old(seqno) + 1 && Numbered(q, false, old(multiSeqNo), multiSeqNo, number)
    {
      SentIdle(Value());
      if buf != null {
        Flush();
      }
      seqno := seqno + 1;
      number := Renew(q.(seqno := seqno));
    }

    /** A message joins exactly if it is for the channel of the one before and there is room for it. */
    lemma {:induction false} JoinsIff(q: Request)
      requires Valid()
      ensures Joins(q) <==> q.ids.channel == lastChan && Roomy(recs, size, |q.data|)
    {
      if recs != [] && Roomy(recs, size, |q.data|) {
        var os: seq<nat>, e: nat :| WellFormed(recs[0], os, e) && |os| < 127 && e + 15 + |q.data| <= size;
        if !Unfinished(recs[0]) {
          OneChain(recs[0], os, e, offs, end);
        }
      }
    }

    /** Queue the i-th of the messages. */
    method QueueNext(qs: seq<Request>, i: nat, ghost was: seq<bool>, ghost vs: seq<Records>, ghost chan: seq<byte>,
                     ghost ms: seq<Message>, ghost clean: bool)
      returns (ghost joins: seq<bool>, ghost ws: seq<Records>)
      requires Valid() && !Hollow() && i < |qs| && |was| == i && AllSendable(qs, size)
      requires Arrived(wire + recs, ms + Arrivals(qs[..i], size, was), clean && Lossless(qs[..i], size, was))
      requires Story(vs, qs, was, i, size, chan) && vs[i] == Value() && lastChan == ChannelBefore(qs, i, chan)
      modifies this, buf
      ensures Valid() && !Hollow() && |joins| == i + 1 && old(wire) <= wire
      ensures buf == old(buf) || buf == null || fresh(buf)
      ensures Arrived(wire + recs, ms + Arrivals(qs[..i + 1], size, joins), clean
              && Lossless(qs[..i + 1], size, joins))
      ensures Story(ws, qs, joins, i + 1, size, chan) && ws[i + 1] == Value() && ws[0] == vs[0]
              && lastChan == qs[i].ids.channel
    {
      ghost var v, join := Value(), Joins(qs[i]);
      JoinsIff(qs[i]);
      ghost var number := Queue(qs[i]);
      joins, ws := was + [join], vs + [Value()];
      NextQueued(v, Value(), qs, i, seqno, size, was, joins, number, ms, clean);
      StoryNext(vs, qs, was, i, size, chan, Value(), join, seqno, number);
    }

    /**
     Queue messages one after the other. A reader of all records has what it had before and then what arrives of each
     message; `joins` says which were appended to a record that was there, and `vs` what was sent and held in between.
     */
    method QueueAll(qs: seq<Request>, ghost ms: seq<Message>, ghost clean: bool)
      returns (ghost joins: seq<bool>, ghost vs: seq<Records>)
      requires Valid() && !Hollow() && Arrived(wire + recs, ms, clean) && AllSendable(qs, size)
      modifies this, buf
      ensures Valid() && !Hollow() && |joins| == |qs| && old(wire) <= wire
      ensures buf == old(buf) || buf == null || fresh(buf)
      ensures Arrived(wire + recs, ms + Arrivals(qs, size, joins), clean && Lossless(qs, size, joins))
      ensures Story(vs, qs, joins, |qs|, size, old(lastChan)) && vs[0] == old(Value()) && vs[|qs|] == Value()
    {
      joins, vs := [], [Value()];
      assert ms + [] == ms;
      for i := 0 to |qs|
        invariant Valid() && !Hollow() && |joins| == i && old(wire) <= wire
                  && (buf == old(buf) || buf == null || fresh(buf))
        invariant Arrived(wire + recs, ms + Arrivals(qs[..i], size, joins), clean && Lossless(qs[..i], size, joins))
        invariant Story(vs, qs, joins, i, size, old(lastChan)) && vs[i] == Value() && vs[0] == old(Value())
        invariant lastChan == ChannelBefore(qs, i, old(lastChan))
      {
        joins, vs := QueueNext(qs, i, joins, vs, old(lastChan), ms, clean);
      }
      assert qs[..|qs|] == qs;
    }

    /**
     Queue the messages of one poll and flush. If the record size has a code and the id strings end in a tilde, then a
     reader of everything sent has these messages behind what it had, complete and in order, and if it was so before,
     all records are well formed. No record is sent while there is room in it for the next message of its channel.
     */
    method Poll(qs: seq<Request>, ghost ms: seq<Message>, ghost clean: bool)
      returns (ghost joins: seq<bool>, ghost vs: seq<Records>)
      requires Valid() && !Hollow() && LengthCode(size).Some? && Arrived(wire + recs, ms, clean)
      requires AllSendable(qs, size) && forall i :: 0 <= i < |qs| ==> Ended(qs[i].id)
      modifies this, buf
      ensures Valid() && buf == null && recs == [] && old(wire) <= wire && Arrived(wire, ms + MessagesOf(qs), clean)
      ensures Story(vs, qs, joins, |qs|, size, old(lastChan)) && vs[0] == old(Value())
              && wire == vs[|qs|].wire + vs[|qs|].recs
    {
      joins, vs := QueueAll(qs, ms, clean);
      AllArrive(qs, size, joins);
      ghost var all := wire + recs;
      Flush();
      assert wire == all;
    }
  }

  // ------------------------------------------------- the story of many messages

  /** There is a record to append n bytes to: it has room for them and less than 127 blockettes. */
  ghost predicate Roomy(recs: seq<seq<byte>>, size: nat, n: nat)
  {
    recs != [] && exists offs: seq<nat>, end: nat ::
      WellFormed(recs[0], offs, end) && |offs| < 127 && end + 15 + n <= size
  }

  /** A record is one chain in one way only. */
  lemma {:induction false} OneChain(rec: seq<byte>, a: seq<nat>, x: nat, b: seq<nat>, y: nat)
    requires WellFormed(rec, a, x) && WellFormed(rec, b, y)
    ensures a == b && x == y
  {
    WellFormedChain(rec, a, x);
    WellFormedChain(rec, b, y);
  }

  /** Messages that are not empty, with room for data behind their id strings. */
  ghost predicate AllSendable(qs: seq<Request>, size: nat) {
    forall i :: 0 <= i < |qs| ==> Sendable(qs[i], size)
  }

  predicate Sendable(q: Request, size: nat) {
    Free(size, q.id) > 0 && q.data != []
  }

  /** The channel of the message before the i-th one. */
  function ChannelBefore(qs: seq<Request>, i: nat, chan: seq<byte>): seq<byte>
    requires i <= |qs|
  {
    if i == 0 then chan else qs[i - 1].ids.channel
  }

  /** A message is queued when v is sent and held: it joins exactly if it may, and otherwise gets new records. */
  ghost predicate QueuedNext(v: Records, w: Records, q: Request, joins: bool, size: nat, chan: seq<byte>)
    requires Sendable(q, size)
  {
    && (joins <==> q.ids.channel == chan && Roomy(v.recs, size, |q.data|))
    && exists seqno: nat, number: int :: Queued(v, w, q.(seqno := seqno), size, joins, number)
  }

  /** What is sent and held before and after each of the first n messages. */
  ghost predicate Story(vs: seq<Records>, qs: seq<Request>, joins: seq<bool>, n: nat, size: nat, chan: seq<byte>)
    requires AllSendable(qs, size)
  {
    && n <= |qs| && |vs| == n + 1 && |joins| == n
    && forall i :: 0 <= i < n ==> QueuedNext(vs[i], vs[i + 1], qs[i], joins[i], size, ChannelBefore(qs, i, chan))
  }

  lemma {:induction false} StoryNext(vs: seq<Records>, qs: seq<Request>, joins: seq<bool>, n: nat, size: nat,
                                     chan: seq<byte>, w: Records, join: bool, seqno: nat, number: int)
    requires AllSendable(qs, size) && n < |qs| && Story(vs, qs, joins, n, size, chan)
    requires join <==> qs[n].ids.channel == ChannelBefore(qs, n, chan) && Roomy(vs[n].recs, size, |qs[n].data|)
    requires Queued(vs[n], w, qs[n].(seqno := seqno), size, join, number)
    ensures Story(vs + [w], qs, joins + [join], n + 1, size, chan)
  {
    var us, js := vs + [w], joins + [join];
    assert QueuedNext(vs[n], w, qs[n], join, size, ChannelBefore(qs, n, chan));
    forall i | 0 <= i < n + 1
      ensures QueuedNext(us[i], us[i + 1], qs[i], js[i], size, ChannelBefore(qs, i, chan))
    {
      if i < n {
        assert us[i] == vs[i] && us[i + 1] == vs[i + 1] && js[i] == joins[i];
      }
    }
  }

  /** What arrives of messages. */
  function Arrivals(qs: seq<Request>, size: nat, joins: seq<bool>): seq<Message>
    requires |joins| == |qs|
  {
    if qs == [] then []
    else Arrivals(qs[..|qs| - 1], size, joins[..|qs| - 1]) + Arrival(qs[|qs| - 1], size, joins[|qs| - 1])
  }

  /** Records could be made for all messages that were not appended to one that was there. */
  predicate Lossless(qs: seq<Request>, size: nat, joins: seq<bool>)
    requires |joins| == |qs|
  {
    qs == [] || (Lossless(qs[..|qs| - 1], size, joins[..|qs| - 1]) && (joins[|qs| - 1] || Makeable(qs[|qs| - 1], size)))
  }

  lemma {:induction false} NextQueued(v: Records, w: Records, qs: seq<Request>, i: nat, seqno: nat, size: nat,
                                      was: seq<bool>,
                                      joins: seq<bool>, number: int, ms: seq<Message>, clean: bool)
    requires i < |qs| && |was| == i && |joins| == i + 1 && joins == was + [joins[i]] && Free(size, qs[i].id) > 0
    requires Blank(v.recs) && Queued(v, w, qs[i].(seqno := seqno), size, joins[i], number)
    requires Arrived(v.wire + v.recs, ms + Arrivals(qs[..i], size, was), clean && Lossless(qs[..i], size, was))
    ensures Arrived(w.wire + w.recs, ms + Arrivals(qs[..i + 1], size, joins), clean
            && Lossless(qs[..i + 1], size, joins))
  {
    var q := qs[i].(seqno := seqno);
    var fine := clean && Lossless(qs[..i], size, was);
    QueuedReads(v, w, q, size, joins[i], number, ms + Arrivals(qs[..i], size, was), fine);
    assert qs[..i + 1][..i] == qs[..i] && joins[..i] == was;
    ConcatAssoc(ms, Arrivals(qs[..i], size, was), Arrival(qs[i], size, joins[i]));
    assert Arrival(q, size, joins[i]) == Arrival(qs[i], size, joins[i]);
  }

  lemma {:induction false} AllArrive(qs: seq<Request>, size: nat, joins: seq<bool>)
    requires |joins| == |qs| && forall i :: 0 <= i < |qs| ==> Makeable(qs[i], size)
    ensures Arrivals(qs, size, joins) == MessagesOf(qs) && Lossless(qs, size, joins)
  {
    if qs != [] {
      AllArrive(qs[..|qs| - 1], size, joins[..|qs| - 1]);
    }
  }

  lemma {:induction false} NoRecords(data: seq<byte>, free: nat)
    requires free > 0 && Count(|data|, free) == 0
    ensures data == []
  {
    if data != [] {
      CountBounds(|data|, free);
    }
  }

  lemma {:induction false} CountNone(free: nat)
    requires free > 0
    ensures Count(0, free) == 0
  {
    assert free - 1 == Count(0, free) * free + (free - 1) % free;
    NoneOrMore(Count(0, free), free);
  }

  /** More than one record is taken exactly by data that one has no room for. */
  lemma {:induction false} SeveralIff(n: nat, free: nat)
    requires free > 0
    ensures Count(n, free) > 1 <==> n > free
  {
    if n > 0 {
      CountBounds(n, free);
      AtLeast(Count(n, free), n, free);
    } else {
      CountNone(free);
    }
  }

  lemma {:induction false} AtLeast(c: nat, n: nat, free: nat)
    requires c >= 1 && (c - 1) * free < n <= c * free
    ensures c > 1 <==> n > free
  {
    if c > 1 {
      assert (c - 1) * free == free + (c - 2) * free;
    }
  }

  lemma {:induction false} NoneOrMore(c: nat, free: nat)
    ensures c == 0 || c * free >= free
  {
    if c > 0 {
      assert c * free == (c - 1) * free + free;
    }
  }

  lemma {:induction false} SomeData(data: seq<byte>, free: nat)
    requires free > 0 && Count(|data|, free) != 0
    ensures data != []
  {
    CountNone(free);
  }

  lemma {:induction false} EmptyReads(wire: seq<seq<byte>>, recs: seq<seq<byte>>, ms: seq<Message>, clean: bool)
    requires recs == [] && Arrived(wire, ms, clean)
    ensures Arrived(wire + recs, ms + [], false)
  {
    assert wire + recs == wire && ms + [] == ms;
  }

  function MessagesOf(qs: seq<Request>): seq<Message> {
    if qs == [] then [] else MessagesOf(qs[..|qs| - 1]) + [Message(Field(qs[|qs| - 1].ids.channel, 3),
                                                                   qs[|qs| - 1].data)]
  }

  /** The first record of a message is ready to be appended to, or has no blockettes. */
  lemma {:induction false} MadeReady(recs: seq<seq<byte>>, q: Request, size: nat, number: int, n: nat, failed: bool)
    requires Free(size, q.id) > 0 && Cut(q.data, Free(size, q.id), n) && |recs| == n
             && (!failed ==> LengthCode(size).Some?)
    requires if failed then Failed(recs[0], q, size, |Part(q.data, Free(size, q.id), n, 0)|, FlagsOf(0, n))
             else recs == Images(q, size, LengthCode(size).value, number, n, n)
    ensures Ready(recs[0], [48, 56], RoundUp4(71 + |q.id| + |Part(q.data, Free(size, q.id), n, 0)|),
            Field(q.ids.channel, 3))
  {
    if !failed {
      FirstImage(q, size, LengthCode(size).value, number, n, n);
    }
  }

  lemma {:induction false} FirstImage(q: Request, size: nat, code: byte, number: int, n: nat, k: nat)
    requires LengthCode(size) == Some(code) && Free(size, q.id) > 0 && Cut(q.data, Free(size, q.id), n) && 0 < k <= n
    ensures var rec := Images(q, size, code, number, n, k)[0];
            && WellFormed(rec, [48, 56], RoundUp4(71 + |q.id| + |Part(q.data, Free(size, q.id), n, 0)|))
            && Channel(rec) == Field(q.ids.channel, 3) && |rec| == size
  {
    if k > 1 {
      FirstImage(q, size, code, number, n, k - 1);
    } else {
      ImageReads(q, size, code, number, n, 0);
    }
  }
}
