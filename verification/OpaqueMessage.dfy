/**
 A message on its way into opaque records: what the record or records look like and that reading them
 gives the message back.
 */
module OpaqueMessage {
  import opened Common
  import opened OpaqueRecord

  const TILDE: byte := 0x7e
  const BLANK: byte := 0x20
  const DATA_RECORD: byte := 0x44

  type Clock = t: seq<byte> | |t| == 10 witness [0, 0, 0, 0, 0, 0, 0, 0, 0, 0]

  datatype Ids = Ids(station: seq<byte>, network: seq<byte>, channel: seq<byte>, location: seq<byte>)

  /** A message to send: its identifiers, id string, bytes, sequence number and the time each of its records is made. */
  datatype Request = Request(ids: Ids, id: seq<byte>, data: seq<byte>, seqno: nat, clock: nat -> Clock)

  /** The code a record size has in a blockette 1000, for the sizes that have one. */
  function LengthCode(size: int): Option<byte> {
    if size == 256 then Some(8) else if size == 512 then Some(9) else if size == 1024 then Some(10)
    else if size == 2048 then Some(11) else if size == 4096 then Some(12) else if size == 8192 then Some(13) else None
  }

  /** An id string is empty or ends in a tilde. */
  predicate Ended(id: seq<byte>) {
    id == [] || id[|id| - 1] == TILDE
  }

  function Tildes(id: seq<byte>): nat {
    if id == [] then 0 else Tildes(id[..|id| - 1]) + if id[|id| - 1] == TILDE then 1 else 0
  }

  /**
   The id string as it gets into a record: its tildes are counted in a signed byte, and without any it is left out.
   */
  function IdBytes(id: seq<byte>): (s: seq<byte>)
    ensures |s| == |id|
  {
    if 0 < Tildes(id) % 256 < 128 then id else Zeros(|id|)
  }

  // ------------------------------------------------------------ record images

  function Blanks(n: nat): (s: seq<byte>)
    ensures |s| == n
  {
    seq(n, _ => BLANK)
  }

  /** At most n characters of s, filled up with blanks. */
  function Field(s: seq<byte>, n: nat): (f: seq<byte>)
    ensures |f| == n
  {
    if |s| < n then s + Blanks(n - |s|) else s[..n]
  }

  function Digit(n: nat, unit: nat): byte
    requires unit > 0
  {
    48 + n / unit % 10
  }

  function SixDigits(n: nat): (s: seq<byte>)
    ensures |s| == 6
  {
    [Digit(n, 100000), Digit(n, 10000), Digit(n, 1000), Digit(n, 100), Digit(n, 10), Digit(n, 1)]
  }

  /** Sequence number, identifiers and time: the first 30 bytes. */
  function Names(q: Request, i: nat): (s: seq<byte>)
    ensures |s| == 30 && s[15..18] == Field(q.ids.channel, 3)
  {
    SixDigits(q.seqno % 1000000) + [DATA_RECORD, BLANK] + Field(q.ids.station, 5) + Field(q.ids.location, 2)
    + Field(q.ids.channel, 3) + Field(q.ids.network, 2) + q.clock(i)
  }

  /** The rest of the header, the blockette 1000 and the fixed part of the opaque blockette. */
  function Fixed(code: byte, length: nat, offset: nat, number: int, flags: byte, fields: byte,
                 multiplier: byte): (s: seq<byte>)
    ensures |s| == 41
  {
    [0, 0, 0, 0, multiplier, 0, 0, 0, 0, 2, 0, 0, 0, 0] + Word16(0) + Word16(48)
    + Word16(1000) + Word16(56) + [0, 1, code, 0]
    + OpaqueHead(length, offset, number, flags, fields)
  }

  /** A record that has these fields holds one opaque blockette after the blockette 1000. */
  lemma {:induction false} FreshReads(rec: seq<byte>, code: byte, length: nat, offset: nat, number: int, flags: byte,
                                      fields: byte, multiplier: byte)
    requires 72 <= |rec| < 65536 && |rec| % 4 == 0 && 15 <= offset <= length && 56 + length <= |rec|
    requires rec[30..71] == Fixed(code, length, offset, number, flags, fields, multiplier)
    ensures WellFormed(rec, [48, 56], RoundUp4(56 + length))
    ensures ReadRecord(rec) == [Fragment(Channel(rec), flags, rec[56 + offset..56 + length])]
  {
    FixedReads(rec, code, length, offset, number, flags, fields, multiplier);
    TwoBlockettes(rec, length, offset);
  }

  lemma {:induction false} TwoBlockettes(rec: seq<byte>, length: nat, offset: nat)
    requires 72 <= |rec| < 65536 && |rec| % 4 == 0 && 15 <= offset <= length && 56 + length <= |rec|
    requires rec[39] == 2 && Read16(rec, 46) == 48 && Read16(rec, 48) == 1000 && Read16(rec, 50) == 56
    requires Read16(rec, 56) == 2000 && Read16(rec, 58) == 0 && Read16(rec, 60) == length && Read16(rec, 62) == offset
    ensures WellFormed(rec, [48, 56], RoundUp4(56 + length))
    ensures ReadRecord(rec) == [Fragment(Channel(rec), rec[69], rec[56 + offset..56 + length])]
  {
    var offs, end := [48, 56], RoundUp4(56 + length);
    RoundUpWithin(56 + length, |rec|);
    TwoWellFormed(rec, length, offset, offs, end);
    WellFormedChain(rec, offs, end);
    SecondContents(rec, length, offset);
    TwoOpaques(rec, offs);
  }

  lemma {:induction false} SecondContents(rec: seq<byte>, length: nat, offset: nat)
    requires 72 <= |rec| && 15 <= offset <= length && 56 + length <= |rec| && Read16(rec, 48) == 1000
    requires Read16(rec, 56) == 2000 && Read16(rec, 60) == length && Read16(rec, 62) == offset
    ensures !IsOpaque(rec, 48, |rec|) && IsOpaque(rec, 56, |rec|)
    ensures Contents(rec, 56) == Fragment(Channel(rec), rec[69], rec[56 + offset..56 + length])
  {
  }

  lemma {:induction false} TwoWellFormed(rec: seq<byte>, length: nat, offset: nat, offs: seq<nat>, end: nat)
    requires 72 <= |rec| < 65536 && |rec| % 4 == 0 && 15 <= offset <= length && 56 + length <= end <= |rec|
    requires rec[39] == 2 && Read16(rec, 46) == 48 && Read16(rec, 48) == 1000 && Read16(rec, 50) == 56
    requires Read16(rec, 56) == 2000 && Read16(rec, 58) == 0 && Read16(rec, 60) == length && Read16(rec, 62) == offset
    requires offs == [48, 56] && end == RoundUp4(56 + length)
    ensures WellFormed(rec, offs, end)
  {
    assert Sound(rec, offs, end, 0);
    assert Sound(rec, offs, end, 1);
  }

  lemma {:induction false} TwoOpaques(rec: seq<byte>, offs: seq<nat>)
    requires |rec| >= 18 && |offs| == 2 && !IsOpaque(rec, offs[0], |rec|) && IsOpaque(rec, offs[1], |rec|)
    ensures Opaques(rec, offs) == [Contents(rec, offs[1])]
  {
    assert Opaques(rec, []) == [];
    OpaquesNext(rec, [], offs[0]);
    OpaquesNext(rec, [offs[0]], offs[1]);
    assert [] + [offs[0]] == [offs[0]] && [offs[0]] + [offs[1]] == offs;
  }

  lemma {:induction false} FixedReads(rec: seq<byte>, code: byte, length: nat, offset: nat, number: int, flags: byte,
                                      fields: byte, multiplier: byte)
    requires 72 <= |rec| && length < 65536 && offset < 65536
    requires rec[30..71] == Fixed(code, length, offset, number, flags, fields, multiplier)
    ensures rec[39] == 2 && Read16(rec, 46) == 48 && Read16(rec, 48) == 1000 && Read16(rec, 50) == 56
    ensures Read16(rec, 56) == 2000 && Read16(rec, 58) == 0 && Read16(rec, 60) == length && Read16(rec, 62) == offset
    ensures rec[69] == flags
  {
    var f := rec[30..71];
    assert rec[39] == f[9] && rec[46] == f[16] && rec[47] == f[17] && rec[48] == f[18] && rec[49] == f[19];
    assert rec[50] == f[20] && rec[51] == f[21];
    assert rec[56..71] == f[26..41] == OpaqueHead(length, offset, number, flags, fields);
    HeadReads(rec, 56, length, offset, number, flags, fields);
  }

  // ----------------------------------------------------- splitting and joining

  /** Room for data in a record. */
  function Free(size: int, id: seq<byte>): int {
    size - 48 - 8 - 15 - |id|
  }

  /** Records it takes to hold n bytes. */
  function Count(n: nat, free: int): (c: nat)
    requires free > 0
  {
    (n + free - 1) / free
  }

  lemma {:induction false} CountBounds(n: nat, free: int)
    requires free > 0 && n > 0
    ensures Count(n, free) >= 1 && (Count(n, free) - 1) * free < n <= Count(n, free) * free
  {
    var c := Count(n, free);
    assert n + free - 1 == c * free + (n + free - 1) % free;
    assert (c - 1) * free == c * free - free;
  }

  /** Where record i's part of the data begins. */
  function From(i: nat, free: nat): nat {
    i * free
  }

  lemma {:induction false} FromNext(i: nat, free: nat)
    ensures From(i + 1, free) == From(i, free) + free && From(0, free) == 0
  {
  }

  lemma {:induction false} FromMonotone(i: nat, j: nat, free: nat)
    requires i <= j
    ensures From(i, free) <= From(j, free)
  {
    assert From(j, free) == From(i, free) + (j - i) * free;
  }

  /** n records are what the data takes. */
  predicate Cut(data: seq<byte>, free: nat, n: nat) {
    n >= 1 && From(n - 1, free) < |data| <= From(n - 1, free) + free
  }

  lemma {:induction false} CountCuts(data: seq<byte>, free: nat)
    requires free > 0 && data != []
    ensures Cut(data, free, Count(|data|, free))
  {
    var n := Count(|data|, free);
    CountBounds(|data|, free);
    FromNext(n - 1, free);
  }

  function Till(data: seq<byte>, free: nat, n: nat, i: nat): nat {
    if i + 1 < n then From(i, free) + free else |data|
  }

  lemma {:induction false} PartBounds(data: seq<byte>, free: nat, n: nat, i: nat)
    requires Cut(data, free, n) && i < n
    ensures From(i, free) < Till(data, free, n, i) <= |data| && Till(data, free, n, i) - From(i, free) <= free
    ensures i + 1 < n ==> Till(data, free, n, i) == From(i + 1, free)
  {
    FromNext(i, free);
    if i + 1 < n {
      FromMonotone(i + 1, n - 1, free);
    }
  }

  function Part(data: seq<byte>, free: nat, n: nat, i: nat): seq<byte>
    requires Cut(data, free, n) && i < n
  {
    PartBounds(data, free, n, i);
    data[From(i, free)..Till(data, free, n, i)]
  }

  function FlagsOf(i: nat, n: nat): byte {
    if n <= 1 then SELF_CONTAINED
    else if i == 0 then FIRST_IN_SERIES
    else if i + 1 < n then MIDDLE_OF_SERIES
    else LAST_IN_SERIES
  }

  /** The first k pieces of a message. */
  function Series(channel: seq<byte>, data: seq<byte>, free: nat, n: nat, k: nat): seq<Fragment>
    requires Cut(data, free, n) && k <= n
  {
    if k == 0 then []
    else Series(channel, data, free, n, k - 1) + [Fragment(channel, FlagsOf(k - 1, n), Part(data, free, n, k - 1))]
  }

  /** What a reader has after the first k pieces; `open` is what it had of a message that was never completed. */
  function Pieced(channel: seq<byte>, data: seq<byte>, from: nat, k: nat, n: nat, before: seq<Message>,
                  open: seq<byte>): Assembly {
    if k < n then Assembly(before, data[..if from <= |data| then from else |data|])
    else Assembly(before + [Message(channel, data)], if n == 1 then open else [])
  }

  /** What one more piece does. */
  lemma {:induction false} PieceJoins(a: Assembly, f: Fragment, data: seq<byte>, from: nat, till: nat, i: nat, n: nat,
                                      before: seq<Message>, open: seq<byte>)
    requires i < n && from <= till <= |data| && f.flags == FlagsOf(i, n) && f.payload == data[from..till]
    requires a == (if i == 0 then Assembly(before, open) else Assembly(before, data[..from]))
    requires (i == 0 ==> from == 0) && (i + 1 == n ==> till == |data|)
    ensures Feed(a, f) == Pieced(f.channel, data, till, i + 1, n, before, open)
  {
    assert data[..from] + data[from..till] == data[..till] && data[..|data|] == data;
  }

  /** A reader that has got the first k pieces of a series has the data up to there; at the end it has the message. */
  lemma {:induction false} SeriesJoins(channel: seq<byte>, data: seq<byte>, free: nat, n: nat, k: nat,
                                       before: seq<Message>, open: seq<byte>)
    requires Cut(data, free, n) && 0 < k <= n
    ensures FeedAll(Assembly(before, open), Series(channel, data, free, n, k))
            == Pieced(channel, data, Till(data, free, n, k - 1), k, n, before, open)
  {
    var start, f := Assembly(before, open), Fragment(channel, FlagsOf(k - 1, n), Part(data, free, n, k - 1));
    PartBounds(data, free, n, k - 1);
    FeedNext(start, Series(channel, data, free, n, k - 1), f);
    var a := FeedAll(start, Series(channel, data, free, n, k - 1));
    FromNext(0, free);
    if k > 1 {
      SeriesJoins(channel, data, free, n, k - 1, before, open);
      PartBounds(data, free, n, k - 2);
    }
    PieceJoins(a, f, data, From(k - 1, free), Till(data, free, n, k - 1), k - 1, n, before, open);
  }

  // ------------------------------------------------------------- whole records

  /** Record i of the n that hold a message. */
  function Image(q: Request, size: nat, code: byte, number: int, n: nat, i: nat): (s: seq<byte>)
    requires Free(size, q.id) > 0 && Cut(q.data, Free(size, q.id), n) && i < n
    ensures |s| == size
  {
    var part := Part(q.data, Free(size, q.id), n, i);
    PartBounds(q.data, Free(size, q.id), n, i);
    Names(q, i) + FixedOf(q, code, number, n, i, |part|, 1) + IdBytes(q.id) + part + Zeros(size - 71 - |q.id| - |part|)
  }

  function FixedOf(q: Request, code: byte, number: int, n: nat, i: nat, length: nat, multiplier: byte): (s: seq<byte>)
    ensures |s| == 41
  {
    Fixed(code, 15 + |q.id| + length, 15 + |q.id|, number, FlagsOf(i, n), Tildes(q.id) % 256, multiplier)
  }

  /** The first k records of a message. */
  function Images(q: Request, size: nat, code: byte, number: int, n: nat, k: nat): (s: seq<seq<byte>>)
    requires Free(size, q.id) > 0 && Cut(q.data, Free(size, q.id), n) && k <= n
    ensures |s| == k
  {
    if k == 0 then [] else Images(q, size, code, number, n, k - 1) + [Image(q, size, code, number, n, k - 1)]
  }

  lemma {:induction false} CodedSize(size: nat)
    requires LengthCode(size).Some?
    ensures 72 <= size < 65536 && size % 4 == 0
  {
  }

  lemma {:induction false} ImageReads(q: Request, size: nat, code: byte, number: int, n: nat, i: nat)
    requires LengthCode(size) == Some(code) && Free(size, q.id) > 0 && Cut(q.data, Free(size, q.id), n) && i < n
    ensures var rec, part := Image(q, size, code, number, n, i), Part(q.data, Free(size, q.id), n, i);
            && ReadRecord(rec) == [Fragment(Field(q.ids.channel, 3), FlagsOf(i, n), part)]
            && WellFormed(rec, [48, 56], RoundUp4(71 + |q.id| + |part|))
            && Channel(rec) == Field(q.ids.channel, 3)
  {
    var rec, part := Image(q, size, code, number, n, i), Part(q.data, Free(size, q.id), n, i);
    PartBounds(q.data, Free(size, q.id), n, i);
    var names, id, rest := Names(q, i), IdBytes(q.id), Zeros(size - 71 - |q.id| - |part|);
    CodedSize(size);
    LayoutReads(rec, names, code, id, part, rest, number, FlagsOf(i, n), Tildes(q.id) % 256);
  }

  lemma {:induction false} LayoutReads(rec: seq<byte>, names: seq<byte>, code: byte, id: seq<byte>, part: seq<byte>,
                                       rest: seq<byte>,
                                       number: int, flags: byte, fields: byte)
    requires |names| == 30 && 72 <= |rec| < 65536 && |rec| % 4 == 0
    requires rec == names + Fixed(code, 15 + |id| + |part|, 15 + |id|, number, flags, fields, 1) + id + part + rest
    ensures ReadRecord(rec) == [Fragment(names[15..18], flags, part)]
    ensures WellFormed(rec, [48, 56], RoundUp4(71 + |id| + |part|)) && Channel(rec) == names[15..18]
  {
    ImageLayout(names, Fixed(code, 15 + |id| + |part|, 15 + |id|, number, flags, fields, 1), id, part, rest, rec);
    assert rec[15..18] == rec[..30][15..18];
    FreshReads(rec, code, 15 + |id| + |part|, 15 + |id|, number, flags, fields, 1);
  }

  lemma {:induction false} ImageLayout(a: seq<byte>, b: seq<byte>, c: seq<byte>, d: seq<byte>, e: seq<byte>,
                                       r: seq<byte>)
    requires |a| == 30 && |b| == 41 && r == a + b + c + d + e
    ensures r[..30] == a && r[30..71] == b && r[71..71 + |c|] == c && r[71 + |c|..71 + |c| + |d|] == d
  {
  }

  /** Reading all records of a message gives its pieces. */
  lemma {:induction false} ImagesRead(q: Request, size: nat, code: byte, number: int, n: nat, k: nat)
    requires LengthCode(size) == Some(code) && Free(size, q.id) > 0 && Cut(q.data, Free(size, q.id), n) && k <= n
    ensures ReadAll(Images(q, size, code, number, n, k))
            == Series(Field(q.ids.channel, 3), q.data, Free(size, q.id), n, k)
  {
    if k > 0 {
      ImagesRead(q, size, code, number, n, k - 1);
      ImageReads(q, size, code, number, n, k - 1);
      ReadAllNext(Images(q, size, code, number, n, k - 1), Image(q, size, code, number, n, k - 1));
    }
  }

  /** A reader that gets all the records of a message has the message, whatever came before it. */
  lemma {:induction false} MessageArrives(q: Request, size: nat, code: byte, number: int, n: nat,
                                          before: seq<Message>, open: seq<byte>)
    requires LengthCode(size) == Some(code) && Free(size, q.id) > 0 && Cut(q.data, Free(size, q.id), n)
    ensures FeedAll(Assembly(before, open), ReadAll(Images(q, size, code, number, n, n))).complete
            == before + [Message(Field(q.ids.channel, 3), q.data)]
  {
    ImagesRead(q, size, code, number, n, n);
    PartBounds(q.data, Free(size, q.id), n, n - 1);
    SeriesJoins(Field(q.ids.channel, 3), q.data, Free(size, q.id), n, n, before, open);
  }
}
