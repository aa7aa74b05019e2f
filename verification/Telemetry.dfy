/**
 How archd sends records to a telemetry client: a record that the socket takes only in part is kept with the
 number of its bytes that have gone, and its rest goes first the next time.
 */
module Telemetry {
  import opened Common

  type Record = seq<byte>

  function Joined(recs: seq<Record>): seq<byte> {
    if recs == [] then [] else Joined(recs[..|recs| - 1]) + recs[|recs| - 1]
  }

  lemma {:induction false} JoinedNext(recs: seq<Record>, n: nat)
    requires n < |recs|
    ensures Joined(recs[..n + 1]) == Joined(recs[..n]) + recs[n]
  {
    assert recs[..n + 1][..n] == recs[..n];
  }

  lemma {:induction false} JoinedPrefix(recs: seq<Record>, more: Record, n: nat)
    requires n <= |recs|
    ensures (recs + [more])[..n] == recs[..n]
  {
  }

  /** What is due after some more of a record has gone, whether all before it has arrived or not. */
  lemma {:induction false} RestDue(done: seq<byte>, stream: seq<byte>, record: Record, from: nat, got: int)
    requires from < |record| && -1 <= got <= |record| - from
    ensures 0 <= got && stream == done + record[..from] ==>
              stream + record[from..from + got] == done + record[..from + got]
    ensures record[..|record|] == record && |done + record[..from]| == |done| + from
  {
    if 0 <= got {
      assert record[..from] + record[from..from + got] == record[..from + got];
      ConcatAssoc(done, record[..from], record[from..from + got]);
    }
  }

  /** From queue q and popped records p some records were popped, each from the front of the queue. */
  ghost predicate PoppedFrom(q: seq<Record>, p: seq<Record>, q': seq<Record>, p': seq<Record>) {
    var n := |p'| - |p|;
    0 <= n <= |q| && p' == p + q[..n] && q' == q[n..]
  }

  lemma {:induction false} PoppedNone(q: seq<Record>, p: seq<Record>)
    ensures PoppedFrom(q, p, q, p)
  {
  }

  lemma {:induction false} PoppedAgain(q0: seq<Record>, p0: seq<Record>, q: seq<Record>, p: seq<Record>,
                                       q': seq<Record>, p': seq<Record>)
    requires PoppedFrom(q0, p0, q, p) && PoppedFrom(q, p, q', p')
    ensures PoppedFrom(q0, p0, q', p')
  {
    var m, n := |p| - |p0|, |p'| - |p|;
    assert q0[..m] + q0[m..][..n] == q0[..m + n];
  }

  class TelemetryClient {
    const size: nat                      // bytes of a record
    var queue: seq<Record>               // records waiting, the next one first
    var partial: Option<Record>          // the record that has gone in part
    var offset: nat                      // the bytes of it that have gone
    var sent: nat                        // records that have gone
    var watched: bool                    // the socket is watched for room
    ghost var popped: seq<Record>        // all records taken from the queue, in order
    ghost var stream: seq<byte>          // all bytes the socket has taken
    ghost var failed: nat                // sends that failed with an error

    ghost predicate Valid()
      reads this
    {
      && size > 0 && |popped| == sent + (if partial.Some? then 1 else 0)
      && (forall r :: r in queue ==> |r| == size)
      && (partial.Some? ==> offset < size == |partial.value| && popped[sent] == partial.value)
      && ((partial.Some? || queue != []) ==> watched)
    }

    /** The records that have gone, followed by what has gone of the one on its way. */
    ghost function Due(): seq<byte>
      reads this
      requires Valid()
    {
      Joined(popped[..sent]) + if partial.Some? then partial.value[..offset] else []
    }

    /** The client has got just that if no send has failed, and less if one has. */
    ghost predicate Framed()
      reads this
    {
      Valid() && (failed == 0 ==> stream == Due()) && (failed > 0 ==> |stream| < |Due()|)
    }

    constructor (size: nat, queue: seq<Record>)
      requires size > 0 && forall r :: r in queue ==> |r| == size
      ensures Framed() && stream == [] && popped == [] && failed == 0 && this.queue == queue
    {
      this.size, this.queue := size, queue;
      partial, offset, sent, watched := None, 0, 0, true;
      popped, stream, failed := [], [], 0;
    }

    /** A new record takes its place in the queue, before the i-th one. */
    method AddRecord(r: Record, i: nat)
      requires Valid() && |r| == size && i <= |queue|
      modifies this`queue, this`watched
      ensures Valid() && queue == old(queue)[..i] + [r] + old(queue)[i..] && watched && (old(Framed()) ==> Framed())
    {
      queue := queue[..i] + [r] + queue[i..];
      watched := true;
    }

    /** Take up the record that has gone in part, or else the next one. */
    method TakeUp() returns (record: Record, from: nat)
      requires Valid() && (partial.Some? || queue != [])
      modifies this`queue, this`partial, this`offset, this`popped
      ensures partial == None && |popped| == sent + 1 && popped[sent] == record && |record| == size && from < size
      ensures if old(partial).Some? then popped == old(popped) && queue == old(queue) && from == old(offset)
              else old(queue) != [] && popped == old(popped) + old(queue)[..1] && queue == old(queue)[1..] && from == 0
      ensures forall r :: r in queue ==> |r| == size
      ensures old(Due()) == Joined(popped[..sent]) + record[..from]
    {
      if partial.Some? {
        record, from := partial.value, offset;
        partial, offset := None, 0;
      } else {
        record, from := queue[0], 0;
        queue := queue[1..];
        JoinedPrefix(popped, record, sent);
        popped := popped + [record];
      }
    }

    /**
     Send the rest of a record. A count of bytes short of it leaves the record to be continued. A failed send returns
     a negative count, but its comparison with an unsigned count takes it for more than the rest, so the record
     counts as sent.
     */
    method SendRest(record: Record, from: nat, got: int) returns (more: bool)
      requires partial == None && |popped| == sent + 1 && popped[sent] == record && |record| == size && from < size
               && watched
      requires (forall r :: r in queue ==> |r| == size) && -1 <= got <= size - from
      requires if failed == 0 then stream == Joined(popped[..sent]) + record[..from]
               else |stream| < |Joined(popped[..sent]) + record[..from]|
      modifies this`partial, this`offset, this`sent, this`stream, this`failed
      ensures Framed() && failed == old(failed) + (if got < 0 then 1 else 0) && old(stream) <= stream
      ensures (more <==> partial == None) && (more <==> got < 0 || got == size - from)
      ensures !more ==> partial == Some(record) && offset == from + got
      ensures stream == old(stream) + if got > 0 then record[from..from + got] else []
    {
      var ready := size - from;
      RestDue(Joined(popped[..sent]), stream, record, from, got);
      JoinedNext(popped, sent);
      assert popped[..sent + 1] == popped;
      var short := 0 <= got < ready;
      if short {
        partial, offset := Some(record), from + got;
      } else {
        sent := sent + 1;
      }
      more := !short;
      stream := stream + if got > 0 then record[from..from + got] else [];
      if got < 0 {
        failed := failed + 1;
      }
    }

    /** Send what the socket takes of the record in part, or of the next one; `kernel(n)` is what a send comes to. */
    method SendOne(kernel: nat -> int) returns (more: bool)
      requires Framed() && watched && (partial.Some? || queue != []) && forall n: nat :: -1 <= kernel(n) <= n
      modifies this
      ensures Framed() && watched && old(stream) <= stream && failed >= old(failed) && (more <==> partial == None)
      ensures PoppedFrom(old(queue), old(popped), queue, popped)
      ensures |queue| + (if partial.Some? then 1 else 0) + (if more then 1 else 0)
              <= |old(queue)| + (if old(partial).Some? then 1 else 0)
      ensures (forall n: nat :: kernel(n) >= 0) ==> failed == old(failed)
      ensures (forall n: nat :: kernel(n) == n) ==> more
    {
      PoppedNone(queue, popped);
      var record, from := TakeUp();
      more := SendRest(record, from, kernel(size - from));
    }

    /**
     The socket has room: send records until one goes only in part or none is left. `kernel(k)(n)` is what the k-th
     send of n bytes comes to.
     */
    method CanSend(kernel: nat -> nat -> int)
      requires Framed() && forall k: nat, n: nat :: -1 <= kernel(k)(n) <= n
      modifies this
      ensures Framed() && old(stream) <= stream && failed >= old(failed)
      ensures PoppedFrom(old(queue), old(popped), queue, popped)
      ensures (forall k: nat, n: nat :: kernel(k)(n) >= 0) ==> failed == old(failed)
      ensures (forall k: nat, n: nat :: kernel(k)(n) == n) ==> partial == None
      ensures (partial == None ==> queue == []) && (watched <==> partial.Some?)
    {
      var more, k := true, 0;
      watched := true;
      PoppedNone(queue, popped);
      ghost var never, whole := forall k: nat, n: nat :: kernel(k)(n) >= 0, forall k: nat, n: nat :: kernel(k)(n) == n;
      while more && (partial.Some? || queue != [])
        invariant Framed() && watched && old(stream) <= stream && failed >= old(failed)
        invariant PoppedFrom(old(queue), old(popped), queue, popped)
        invariant (never ==> failed == old(failed)) && (whole ==> more) && (!more ==> partial.Some?)
        decreases |queue| + (if partial.Some? then 1 else 0) + if more then 1 else 0
      {
        ghost var q, p := queue, popped;
        more := SendOne(kernel(k));
        PoppedAgain(old(queue), old(popped), q, p, queue, popped);
        k := k + 1;
      }
      if partial == None && queue == [] {
        watched := false;
      }
    }
  }
}
