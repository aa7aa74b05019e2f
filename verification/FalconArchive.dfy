/**
 The way of rows out of the falcon program: compressed by the hour, queued as opaque messages, sent as records.
 */
module FalconArchive {
  import opened Common
  import Varint
  import opened FMashSpec
  import opened FMashMessage
  import opened FMash
  import opened Csv
  import opened OpaqueRecord
  import opened OpaqueMessage
  import opened OpaqueQueue

  /** The opaque messages that carry these payloads. */
  function Carriers(channel: seq<byte>, payloads: seq<seq<byte>>): (ms: seq<Message>)
    ensures |ms| == |payloads|
  {
    seq(|payloads|, i requires 0 <= i < |payloads| => Message(Field(channel, 3), payloads[i]))
  }

  lemma {:induction false} CarryOneMore(channel: seq<byte>, payloads: seq<seq<byte>>, m: seq<byte>,
                                        queued: seq<Message>)
    ensures queued + Carriers(channel, payloads) + [Message(Field(channel, 3), m)] == queued
            + Carriers(channel, payloads + [m])
  {
  }

  /** One hour's rows into the queue; `now` is what a reader of all records has before. */
  method QueueHour(csv: CsvBuffer, queue: OpaqueQueue, ids: Ids, id: seq<byte>, clock: nat -> Clock, ghost dec: Decoder,
                   ghost now: seq<Message>, ghost clean: bool)
    returns (msh: seq<byte>, ghost d: Decoded, ghost join: bool, ghost number: int)
    requires Csv.Valid(csv) && csv.list != [] && Inverts(dec) && Open(queue, id)
             && Arrived(queue.wire + queue.recs, now, clean)
    modifies csv`list, csv`startTime, csv`taken, queue, queue.buf
    ensures Csv.Valid(csv) && |csv.list| < |old(csv.list)| && ReadAs(dec, msh, d, csv.channel,
            FMashMessage.Description(csv.description))
    ensures old(csv.list) == d.rows + csv.list
    ensures Open(queue, id) && (queue.buf == old(queue.buf) || queue.buf == null || fresh(queue.buf))
    ensures Arrived(queue.wire + queue.recs, now + [Message(Field(ids.channel, 3), msh)], clean)
    ensures join <==> ids.channel == old(queue.lastChan) && Roomy(old(queue.recs), queue.size, |msh|)
    ensures queue.lastChan == ids.channel && Free(queue.size, id) > 0 && msh != []
    ensures Queued(old(queue.Value()), queue.Value(), Request(ids, id, msh, queue.seqno, clock), queue.size, join,
                   number)
    ensures csv.list != [] ==> csv.startTime == csv.list[0].time
  {
    msh, d := ArchiveHour(csv, dec);
    ghost var v := queue.Value();
    join := queue.Joins(Request(ids, id, msh, 0, clock));
    queue.JoinsIff(Request(ids, id, msh, 0, clock));
    number := queue.Queue(Request(ids, id, msh, 0, clock));
    QueuedReads(v, queue.Value(), Request(ids, id, msh, queue.seqno, clock), queue.size, join, number, now, clean);
  }

  /** The queue takes messages with this id string. */
  ghost predicate Open(queue: OpaqueQueue, id: seq<byte>)
    reads queue, queue.buf
  {
    queue.Valid() && !queue.Hollow() && Free(queue.size, id) > 0 && LengthCode(queue.size).Some? && Ended(id)
  }

  /** The messages and the rows left account for the list there was, and a reader of the records has the messages. */
  ghost predicate Sending(messages: seq<seq<byte>>, read: seq<Decoded>, left: seq<Row>, list: seq<Row>,
                          channel: seq<byte>,
                          before: seq<Message>, now: seq<Message>)
  {
    |messages| == |read| && RowsOf(read) + left == list && now == before + Carriers(channel, messages)
  }

  lemma {:induction false} SendingOneMore(messages: seq<seq<byte>>, read: seq<Decoded>, left: seq<Row>,
                                          list: seq<Row>, channel: seq<byte>,
                                          before: seq<Message>, now: seq<Message>, m: seq<byte>, d: Decoded,
                                          after: seq<Row>,
                                          later: seq<Message>)
    requires Sending(messages, read, left, list, channel, before, now) && left == d.rows + after
    requires later == now + [Message(Field(channel, 3), m)]
    ensures Sending(messages + [m], read + [d], after, list, channel, before, later)
  {
    RowsOfOneMore(read, d, list, left, after);
    CarryOneMore(channel, messages, m, before);
  }

  /** The requests that the messages of a channel are queued as. */
  function RequestsOf(ids: Ids, id: seq<byte>, clock: nat -> Clock, messages: seq<seq<byte>>): (qs: seq<Request>)
    ensures |qs| == |messages|
  {
    seq(|messages|, i requires 0 <= i < |messages| => Request(ids, id, messages[i], 0, clock))
  }

  /** What is sent and held before and after each of the messages. */
  ghost predicate Told(vs: seq<Records>, qs: seq<Request>, joins: seq<bool>, size: nat, chan: seq<byte>)
  {
    AllSendable(qs, size) && Story(vs, qs, joins, |qs|, size, chan)
  }

  lemma {:induction false} ToldNext(vs: seq<Records>, qs: seq<Request>, joins: seq<bool>, size: nat, chan: seq<byte>,
                                    q: Request, w: Records, join: bool, seqno: nat, number: int, rs: seq<Request>)
    requires Told(vs, qs, joins, size, chan) && Sendable(q, size) && rs == qs + [q]
    requires join <==> q.ids.channel == ChannelBefore(qs, |qs|, chan) && Roomy(vs[|qs|].recs, size, |q.data|)
    requires Queued(vs[|qs|], w, q.(seqno := seqno), size, join, number)
    ensures Told(vs + [w], rs, joins + [join], size, chan)
  {
    var n := |qs|;
    assert ChannelBefore(rs, n, chan) == ChannelBefore(qs, n, chan);
    forall i | 0 <= i < n
      ensures QueuedNext(vs[i], vs[i + 1], rs[i], joins[i], size, ChannelBefore(rs, i, chan))
    {
      assert rs[i] == qs[i] && ChannelBefore(rs, i, chan) == ChannelBefore(qs, i, chan);
    }
    StoryNext(vs, rs, joins, n, size, chan, w, join, seqno, number);
  }

  /** What has come of a channel's rows: the messages, what they are read as, and how they were queued. */
  datatype Ledger = Ledger(messages: seq<seq<byte>>, read: seq<Decoded>, now: seq<Message>, joins: seq<bool>,
                           vs: seq<Records>)

  /** What was there before: the rows, the start and end times, the last channel, and the messages a reader had. */
  datatype Before = Before(list: seq<Row>, start: int, end: int, chan: seq<byte>, had: seq<Message>)

  /** How messages are made and queued. */
  datatype Manner = Manner(channel: int, description: seq<byte>, ids: Ids, id: seq<byte>, clock: nat -> Clock,
                           size: nat)

  /** The messages are read as they should be, were queued as they should be, and were made of full hours. */
  ghost predicate Right(l: Ledger, m: Manner, b: Before, dec: Decoder)
  {
    && AllReadAs(dec, l.messages, l.read, m.channel, m.description)
    && Told(l.vs, RequestsOf(m.ids, m.id, m.clock, l.messages), l.joins, m.size, b.chan)
    && FullHours(l.read, b.start, b.end)
  }

  /** So they are, and account for the rows that are not left. */
  ghost predicate Progress(l: Ledger, m: Manner, b: Before, dec: Decoder, left: seq<Row>)
  {
    Right(l, m, b, dec) && Sending(l.messages, l.read, left, b.list, m.ids.channel, b.had, l.now)
  }

  lemma {:induction false} ProgressNext(l: Ledger, m: Manner, b: Before, dec: Decoder, left: seq<Row>, v: Records,
                                        w: Records, last: seq<byte>, msh: seq<byte>, d: Decoded, join: bool,
                                        seqno: nat, number: int, from: int, after: seq<Row>, k: Ledger)
    requires Progress(l, m, b, dec, left) && left == d.rows + after && d.rows != []
    requires ReadAs(dec, msh, d, m.channel, m.description)
    requires l.vs[|l.messages|] == v && last == (if l.messages == [] then b.chan else m.ids.channel)
    requires Free(m.size, m.id) > 0 && msh != [] && (join <==> m.ids.channel == last && Roomy(v.recs, m.size, |msh|))
    requires Queued(v, w, Request(m.ids, m.id, msh, seqno, m.clock), m.size, join, number)
    requires b.end - from >= 3600 && (if l.read == [] then from == b.start else from == d.rows[0].time)
    requires k == Ledger(l.messages + [msh], l.read + [d], l.now + [Message(Field(m.ids.channel, 3), msh)],
                         l.joins + [join], l.vs + [w])
    ensures Progress(k, m, b, dec, after)
  {
    var q := Request(m.ids, m.id, msh, 0, m.clock);
    assert q.(seqno := seqno) == Request(m.ids, m.id, msh, seqno, m.clock);
    assert RequestsOf(m.ids, m.id, m.clock, k.messages) == RequestsOf(m.ids, m.id, m.clock, l.messages) + [q];
    ToldNext(l.vs, RequestsOf(m.ids, m.id, m.clock, l.messages), l.joins, m.size, b.chan, q, w, join, seqno, number,
             RequestsOf(m.ids, m.id, m.clock, k.messages));
    FullHoursNext(l.read, b.start, b.end, d, from);
    OneMoreRead(dec, l.messages, l.read, msh, d, m.channel, m.description);
    SendingOneMore(l.messages, l.read, left, b.list, m.ids.channel, b.had, l.now, msh, d, after, k.now);
  }

  /** Where the program stands with the messages in l. */
  ghost predicate Stands(csv: CsvBuffer, queue: OpaqueQueue, m: Manner, b: Before, dec: Decoder, l: Ledger, clean: bool)
    reads csv, queue, queue.buf
  {
    && Csv.Valid(csv) && Open(queue, m.id) && Inverts(dec) && Arrived(queue.wire + queue.recs, l.now, clean)
    && csv.endTime == b.end && csv.channel == m.channel && FMashMessage.Description(csv.description) == m.description
    && queue.size == m.size && Progress(l, m, b, dec, csv.list) && l.vs[|l.messages|] == queue.Value()
    && queue.lastChan == (if l.messages == [] then b.chan else m.ids.channel)
    && if l.read == [] then csv.startTime == b.start else csv.list != [] ==> csv.startTime == csv.list[0].time
  }

  /** Compress and queue one hour's rows. */
  method QueueOne(csv: CsvBuffer, queue: OpaqueQueue, m: Manner, ghost b: Before, ghost dec: Decoder, ghost l: Ledger,
                  ghost clean: bool)
    returns (ghost k: Ledger)
    requires Stands(csv, queue, m, b, dec, l, clean) && csv.endTime - csv.startTime >= 3600
    modifies csv`list, csv`startTime, csv`taken, queue, queue.buf
    ensures Stands(csv, queue, m, b, dec, k, clean) && |csv.list| < |old(csv.list)| && k.vs[0] == l.vs[0]
    ensures queue.buf == old(queue.buf) || queue.buf == null || fresh(queue.buf)
  {
    ghost var left, from, v, last := csv.list, csv.startTime, queue.Value(), queue.lastChan;
    var msh;
    ghost var d, join, number;
    msh, d, join, number := QueueHour(csv, queue, m.ids, m.id, m.clock, dec, l.now, clean);
    assert d.rows != [];
    k := Ledger(l.messages + [msh], l.read + [d], l.now + [Message(Field(m.ids.channel, 3), msh)], l.joins + [join],
                l.vs + [queue.Value()]);
    ProgressNext(l, m, b, dec, left, v, queue.Value(), last, msh, d, join, queue.seqno, number, from, csv.list, k);
  }

  /** Compress and queue the rows of a channel while they span an hour. */
  method QueueHours(csv: CsvBuffer, queue: OpaqueQueue, m: Manner, ghost b: Before, ghost dec: Decoder, ghost l: Ledger,
                    ghost clean: bool)
    returns (ghost k: Ledger)
    requires Stands(csv, queue, m, b, dec, l, clean)
    modifies csv`list, csv`startTime, csv`taken, queue, queue.buf
    ensures Stands(csv, queue, m, b, dec, k, clean) && csv.endTime - csv.startTime < 3600 && k.vs[0] == l.vs[0]
  {
    k := l;
    while csv.endTime - csv.startTime >= TM_HOUR
      invariant Stands(csv, queue, m, b, dec, k, clean) && k.vs[0] == l.vs[0]
      invariant queue.buf == old(queue.buf) || queue.buf == null || fresh(queue.buf)
      decreases |csv.list|
    {
      k := QueueOne(csv, queue, m, b, dec, k, clean);
    }
  }

  lemma {:induction false} NothingYet(m: Manner, b: Before, dec: Decoder, v: Records)
    ensures Progress(Ledger([], [], b.had, [], [v]), m, b, dec, b.list)
  {
    assert b.had + Carriers(m.ids.channel, []) == b.had;
  }

  /**
   All that leaves the program: after the queue is flushed, a reader that follows the links of all records ever sent,
   joins what is in pieces and reads the new messages with the program's own reader gets the rows that left
   the list, one message after the other, and less than an hour of rows stays in the list. A message shares a record
   with the ones before it if there is room.
   */
  method ArchiveAndSend(csv: CsvBuffer, queue: OpaqueQueue, ids: Ids, id: seq<byte>, clock: nat -> Clock,
                        ghost had: seq<Message>, ghost clean: bool)
    returns (ghost l: Ledger)
    requires Csv.Valid(csv) && Open(queue, id) && Arrived(queue.wire + queue.recs, had, clean)
    modifies csv`list, csv`startTime, csv`taken, queue, queue.buf
    ensures csv.endTime == old(csv.endTime) && csv.endTime - csv.startTime < 3600 && queue.Valid() && queue.buf == null
    ensures Arrived(queue.wire, had + Carriers(ids.channel, l.messages), clean)
    ensures RowsOf(l.read) + csv.list == old(csv.list)
    ensures Right(l, Manner(csv.channel, FMashMessage.Description(csv.description), ids, id, clock, queue.size),
                  old(Before(csv.list, csv.startTime, csv.endTime, queue.lastChan, had)), Varint.Decode)
    ensures l.vs[0] == old(queue.Value()) && queue.wire == l.vs[|l.messages|].wire + l.vs[|l.messages|].recs
  {
    VarintInverts();
    var m := Manner(csv.channel, FMashMessage.Description(csv.description), ids, id, clock, queue.size);
    ghost var b := Before(csv.list, csv.startTime, csv.endTime, queue.lastChan, had);
    NothingYet(m, b, Varint.Decode, queue.Value());
    l := QueueHours(csv, queue, m, b, Varint.Decode, Ledger([], [], had, [], [queue.Value()]), clean);
    ghost var all := queue.wire + queue.recs;
    queue.Flush();
    assert queue.wire == all;
  }
}
