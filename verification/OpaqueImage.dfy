/**
 The bytes of the records that a message takes, by their offsets, and how many records that are.
 */
module OpaqueImage {
  import opened Common
  import opened OpaqueRecord
  import opened OpaqueMessage

  /** The record size that a blockette 1000 names by its binary logarithm. */
  function Exp2(n: nat): nat {
    if n == 0 then 1 else 2 * Exp2(n - 1)
  }

  /** Exactly the powers of two from 256 to 8192 have a code, and it is the exponent. */
  lemma {:induction false} CodeIsExponent(size: nat, code: byte)
    ensures LengthCode(size) == Some(code) <==> 8 <= code <= 13 && size == Exp2(code)
  {
    assert Exp2(8) == 256 by {
      assert Exp2(4) == 16;
    }
    assert Exp2(9) == 2 * Exp2(8) && Exp2(10) == 2 * Exp2(9) && Exp2(11) == 2 * Exp2(10) && Exp2(12) == 2 * Exp2(11);
    assert Exp2(13) == 2 * Exp2(12);
  }

  /** A field of n characters begins with the text and is filled up with blanks. */
  ghost predicate Padded(f: seq<byte>, s: seq<byte>, n: nat) {
    |f| == n && forall k :: 0 <= k < n ==> f[k] == if k < |s| then s[k] else 0x20
  }

  lemma {:induction false} FieldPadded(s: seq<byte>, n: nat)
    ensures Padded(Field(s, n), s, n)
  {
  }

  /** The number that decimal digits stand for. */
  function Decimal(ds: seq<byte>): int {
    if ds == [] then 0 else 10 * Decimal(ds[..|ds| - 1]) + ds[|ds| - 1] - 48
  }

  lemma {:induction false} SixDigitsRead(n: nat)
    requires n < 1000000
    ensures var ds := SixDigits(n); Decimal(ds) == n && forall k :: 0 <= k < 6 ==> 48 <= ds[k] <= 57
  {
    var ds := SixDigits(n);
    OneMoreDigit(ds, 0, n / 100000);
    OneMoreDigit(ds, 1, n / 10000);
    OneMoreDigit(ds, 2, n / 1000);
    OneMoreDigit(ds, 3, n / 100);
    OneMoreDigit(ds, 4, n / 10);
    OneMoreDigit(ds, 5, n);
    assert ds[..6] == ds;
  }

  lemma {:induction false} OneMoreDigit(ds: seq<byte>, k: nat, m: nat)
    requires k < |ds| && ds[k] == 48 + m % 10 && (if k == 0 then 0 else Decimal(ds[..k])) == m / 10
    ensures Decimal(ds[..k + 1]) == m
  {
    DecimalNext(ds, k);
    assert ds[..0] == [];
  }

  lemma {:induction false} DecimalNext(ds: seq<byte>, k: nat)
    requires k < |ds|
    ensures Decimal(ds[..k + 1]) == 10 * Decimal(ds[..k]) + ds[k] - 48
  {
    assert ds[..k + 1][..k] == ds[..k];
  }

  /** Sequence number, type, station, location, channel, network and time of a record. */
  ghost predicate NamedBy(rec: seq<byte>, q: Request, i: nat) {
    && |rec| >= 30 && Decimal(rec[..6]) == q.seqno % 1000000 && rec[6] == 0x44 && rec[7] == 0x20
    && Padded(rec[8..13], q.ids.station, 5) && Padded(rec[13..15], q.ids.location, 2)
    && Padded(rec[15..18], q.ids.channel, 3) && Padded(rec[18..20], q.ids.network, 2) && rec[20..30] == q.clock(i)
  }

  /**
   The rest of the header, with two blockettes from offset 48 on, the blockette 1000, and the opaque blockette with
   n bytes of data in all.
   */
  ghost predicate Headed(rec: seq<byte>, id: seq<byte>, n: nat, number: int, flags: byte) {
    && |rec| >= 71 && rec[30..34] == [0, 0, 0, 0] && rec[34] == 1 && rec[35..39] == [0, 0, 0, 0] && rec[39] == 2
    && rec[40..46] == [0, 0, 0, 0, 0, 0] && Read16(rec, 46) == 48
    && Read16(rec, 48) == 1000 && Read16(rec, 50) == 56 && rec[52] == 0 && rec[53] == 1 && |rec| == Exp2(rec[54])
    && rec[55] == 0
    && Read16(rec, 56) == 2000 && Read16(rec, 58) == 0 && Read16(rec, 60) == 15 + |id| + n
    && Read16(rec, 62) == 15 + |id| && Read32(rec, 64) == number % 0x1_0000_0000 && rec[68] == 1 && rec[69] == flags
    && rec[70] == Tildes(id) % 256
  }

  /** The names of a record are in their places. */
  lemma {:induction false} NamesRead(rec: seq<byte>, q: Request, i: nat)
    requires |rec| >= 30 && rec[..30] == Names(q, i)
    ensures NamedBy(rec, q, i)
  {
    var n := Names(q, i);
    SixDigitsRead(q.seqno % 1000000);
    FieldPadded(q.ids.station, 5);
    FieldPadded(q.ids.location, 2);
    FieldPadded(q.ids.channel, 3);
    FieldPadded(q.ids.network, 2);
    assert rec[..6] == n[..6] == SixDigits(q.seqno % 1000000);
    assert rec[8..13] == n[8..13] == Field(q.ids.station, 5);
    assert rec[13..15] == n[13..15] == Field(q.ids.location, 2);
    assert rec[15..18] == n[15..18] == Field(q.ids.channel, 3);
    assert rec[18..20] == n[18..20] == Field(q.ids.network, 2);
    assert rec[20..30] == n[20..30] == q.clock(i);
    assert rec[6] == n[6] && rec[7] == n[7];
  }

  lemma {:induction false} FixedHeads(rec: seq<byte>, id: seq<byte>, code: byte, n: nat, number: int, flags: byte)
    requires |rec| >= 71 && |rec| == Exp2(code) && 15 + |id| + n < 65536
    requires rec[30..71] == Fixed(code, 15 + |id| + n, 15 + |id|, number, flags, Tildes(id) % 256, 1)
    ensures Headed(rec, id, n, number, flags)
  {
    var f := rec[30..71];
    assert forall k :: 30 <= k < 71 ==> rec[k] == f[k - 30];
    assert rec[30..34] == f[..4] && rec[35..39] == f[5..9] && rec[40..46] == f[10..16];
    assert rec[46..48] == f[16..18] == Word16(48) && rec[48..50] == f[18..20] == Word16(1000);
    assert rec[50..52] == f[20..22] == Word16(56);
    ReadBack16(48, rec, 46);
    ReadBack16(1000, rec, 48);
    ReadBack16(56, rec, 50);
    OpaqueHeads(rec, f, 15 + |id| + n, 15 + |id|, number, flags, Tildes(id) % 256);
  }

  lemma {:induction false} OpaqueHeads(rec: seq<byte>, f: seq<byte>, length: nat, offset: nat, number: int,
                                       flags: byte, fields: byte)
    requires |rec| >= 71 && |f| == 41 && f == rec[30..71]
    requires f[26..41] == OpaqueHead(length, offset, number, flags, fields)
    requires length < 65536 && offset < 65536
    ensures Read16(rec, 56) == 2000 && Read16(rec, 58) == 0 && Read16(rec, 60) == length && Read16(rec, 62) == offset
    ensures Read32(rec, 64) == number % 0x1_0000_0000 && rec[68] == 1 && rec[69] == flags && rec[70] == fields
  {
    assert rec[56..56 + 15] == f[26..41];
    HeadReads(rec, 56, length, offset, number, flags, fields);
    HeadFields(rec, 56, length, offset, number, flags, fields);
  }

  /**
   After the fixed fields come the id string, if it has fields, and the bytes of the data from one place to another;
   all else is zero.
   */
  ghost predicate Carries(rec: seq<byte>, id: seq<byte>, data: seq<byte>, from: int, till: int) {
    && 0 <= from < till <= |data| && 71 + |id| + till - from <= |rec|
    && (0 < Tildes(id) % 256 < 128 ==> rec[71..71 + |id|] == id)
    && rec[71 + |id|..71 + |id| + till - from] == data[from..till]
    && rec[71 + |id| + till - from..] == Zeros(|rec| - 71 - |id| - till + from)
  }

  /**
   The i-th of the n records that a message takes: its names, its header and blockettes, and as much of the data, from
   where the one before ended, as there is room for, or the rest of it.
   */
  lemma {:induction false} ImageBytes(q: Request, size: nat, number: int, n: nat, i: nat, rec: seq<byte>, from: int,
                                      till: int)
    requires LengthCode(size).Some? && Free(size, q.id) > 0 && Cut(q.data, Free(size, q.id), n) && i < n
    requires rec == Image(q, size, LengthCode(size).value, number, n, i)
    requires from == i * (size - 71 - |q.id|) && till == if i + 1 < n then from + size - 71 - |q.id| else |q.data|
    ensures |rec| == size && NamedBy(rec, q, i) && Carries(rec, q.id, q.data, from, till)
    ensures Headed(rec, q.id, till - from, number, if n == 1 then 0x00 else if i == 0 then 0x10
                   else if i + 1 < n then 0x30 else 0x20)
  {
    var code, free := LengthCode(size).value, Free(size, q.id);
    var part := Part(q.data, free, n, i);
    PartIs(q.data, free, n, i, from, till);
    CodeIsExponent(size, code);
    CodedSize(size);
    BytesOf(rec, q, i, size, code, number, FlagsOf(i, n), part, from, till);
  }

  lemma {:induction false} BytesOf(rec: seq<byte>, q: Request, i: nat, size: nat, code: byte, number: int, flags: byte,
                                   part: seq<byte>, from: int, till: int)
    requires 0 <= from < till <= |q.data| && part == q.data[from..till] && 71 + |q.id| + |part| <= size < 65536
    requires size == Exp2(code)
    requires rec == Names(q, i)
                    + Fixed(code, 15 + |q.id| + |part|, 15 + |q.id|, number, flags, Tildes(q.id) % 256, 1)
                    + IdBytes(q.id) + part + Zeros(size - 71 - |q.id| - |part|)
    ensures |rec| == size && NamedBy(rec, q, i) && Carries(rec, q.id, q.data, from, till)
            && Headed(rec, q.id, till - from, number, flags)
  {
    var fixed := Fixed(code, 15 + |q.id| + |part|, 15 + |q.id|, number, flags, Tildes(q.id) % 256, 1);
    ImageParts(rec, Names(q, i), fixed, IdBytes(q.id), part, Zeros(size - 71 - |q.id| - |part|));
    NamesRead(rec, q, i);
    FixedHeads(rec, q.id, code, |part|, number, flags);
  }

  lemma {:induction false} PartIs(data: seq<byte>, free: nat, n: nat, i: nat, from: int, till: int)
    requires free > 0 && Cut(data, free, n) && i < n
    requires from == i * free && till == if i + 1 < n then from + free else |data|
    ensures 0 <= from < till <= |data| && till - from <= free && Part(data, free, n, i) == data[from..till]
  {
    PartBounds(data, free, n, i);
    FromNext(i, free);
    assert From(i, free) == from;
    if i + 1 < n {
      FromMonotone(i + 1, n - 1, free);
    } else {
      assert i == n - 1;
    }
  }

  lemma {:induction false} ImageParts(rec: seq<byte>, a: seq<byte>, b: seq<byte>, c: seq<byte>, d: seq<byte>,
                                      e: seq<byte>)
    requires |a| == 30 && |b| == 41 && rec == a + b + c + d + e
    ensures rec[..30] == a && rec[30..71] == b && rec[71..71 + |c|] == c
    ensures rec[71 + |c|..71 + |c| + |d|] == d && rec[71 + |c| + |d|..] == e
  {
  }

  /** A message that is appended is a blockette by itself, without an id string, and the one before links to it. */
  lemma {:induction false} AppendedBytes(s: seq<byte>, offs: seq<nat>, end: nat, t: seq<byte>, data: seq<byte>)
    requires Appended(s, offs, end, t, data) && 15 + |data| < 65536
    ensures t[39] == (|offs| + 1) % 256 && Read16(t, offs[|offs| - 1] + 2) == end
    ensures Read16(t, end) == 2000 && Read16(t, end + 2) == 0 && Read16(t, end + 4) == 15 + |data|
    ensures Read16(t, end + 6) == 15 && Read32(t, end + 8) == 0 && t[end + 12] == 1 && t[end + 13] == 0
    ensures t[end + 15..end + 15 + |data|] == data
  {
    HeadReads(t, end, 15 + |data|, 15, 0, SELF_CONTAINED, t[end + 14]);
    HeadFields(t, end, 15 + |data|, 15, 0, SELF_CONTAINED, t[end + 14]);
  }

  /** A message takes as few records as can hold it: one less would have room for less than its bytes. */
  lemma {:induction false} FewestRecords(q: Request, size: nat)
    requires size > 71 + |q.id|
    ensures var n, room := Count(|q.data|, Free(size, q.id)), size - 71 - |q.id|;
            |q.data| <= n * room && (n > 0 ==> (n - 1) * room < |q.data|)
  {
    if q.data != [] {
      CountBounds(|q.data|, Free(size, q.id));
    } else {
      var free := Free(size, q.id);
      assert Count(0, free) * free <= free - 1;
    }
  }
}
