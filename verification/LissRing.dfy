/**
 The circular buffer between the thread that reads records and the thread that sends them to a client:
 every interleaving of their single reads and writes of the two shared indices, in the mode in which the
 reader pauses when the buffer is full.
 */
module LissRing {
  import opened Common

  type Record = seq<byte>

  /** A slot is being written or holds a record. */
  datatype Slot = Torn | Full(r: Record)

  /** The reader: a record is fetched, room is awaited, the record copied, the index moved on. */
  datatype Producer = Fetching | Checking(r: Record) | Spinning(r: Record) | Copying(r: Record,
      begun: bool) | Bumping(r: Record)

  /**
   The sender: it accepts a client, waits for a record, sends the oldest one and moves the index on. A failed
   keepalive ends the waiting although there may be no record.
   */
  datatype Consumer = Accepting | Waiting | Idle | Picking | Sending(slot: nat) | InFlight(slot: nat) | Advancing

  datatype Ring = Ring(slots: seq<Slot>, next: nat, oldest: nat, producer: Producer, consumer: Consumer,
                       connected: bool,
                       admitted: seq<Record>, sent: seq<Slot>)

  datatype Step = Fetch(r: Record) | Check | CopyBegin | CopyEnd | Bump
                | Accept | Look | KeepAlive(ok: bool) | NoKeepAlive | Pick | SendStart | SendDone(ok: bool) | Advance

  function Up(i: nat, n: nat): (j: nat)
    requires n > 0
    ensures j < n
  {
    (i + 1) % n
  }

  /** Nothing read, nothing sent, no client. */
  function Start(n: nat): Ring {
    Ring(seq(n, _ => Torn), 0, 0, Fetching, Accepting, false, [], [])
  }

  /** One step of the reader. It reads the sender's index and writes its own and the slots. */
  function Produce(s: Ring, step: Step): Option<Ring>
    requires s.next < |s.slots|
  {
    var n := |s.slots|;
    match (s.producer, step)
    case (Fetching, Fetch(r)) => Some(s.(producer := Checking(r)))
    case (Checking(r), Check) => Some(s.(producer := if Up(s.next, n) == s.oldest then Spinning(r)
                                         else Copying(r, false)))
    case (Spinning(r), Check) => Some(s.(producer := if Up(s.next, n) == s.oldest then Spinning(r)
                                         else Copying(r, false)))
    case (Copying(r, false), CopyBegin) => Some(s.(slots := s.slots[s.next := Torn], producer := Copying(r, true)))
    case (Copying(r, true), CopyEnd) => Some(s.(slots := s.slots[s.next := Full(r)], producer := Bumping(r)))
    case (Bumping(r), Bump) => Some(s.(next := Up(s.next, n), admitted := s.admitted + [r], producer := Fetching))
    case _ => None
  }

  /** One step of the sender. It reads the reader's index and the slots and writes its own index. */
  function Consume(s: Ring, step: Step): Option<Ring>
    requires s.oldest < |s.slots|
  {
    match (s.consumer, step)
    case (Accepting, Accept) => Some(s.(consumer := Waiting, connected := true))
    case (Waiting, Look) => Some(s.(consumer := if s.next == s.oldest then Idle else Picking))
    case (Idle, NoKeepAlive) => Some(s.(consumer := Waiting))
    case (Idle, KeepAlive(ok)) =>
      if ok && s.connected then Some(s.(consumer := Waiting)) else Some(s.(consumer := Picking, connected := false))
    case (Picking, Pick) => Some(s.(consumer := Sending(s.oldest)))
    case (Sending(i), SendStart) => Some(s.(consumer := if s.connected then InFlight(i) else Accepting))
    case (InFlight(i), SendDone(ok)) =>
      if i >= |s.slots| then None
      else if ok then Some(s.(sent := s.sent + [s.slots[i]], consumer := Advancing))
      else Some(s.(connected := false, consumer := Accepting))
    case (Advancing, Advance) => Some(s.(oldest := Up(s.oldest, |s.slots|), consumer := Waiting))
    case _ => None
  }

  function Apply(s: Ring, step: Step): Option<Ring>
    requires s.next < |s.slots| && s.oldest < |s.slots|
  {
    if step.Fetch? || step.Check? || step.CopyBegin? || step.CopyEnd? || step.Bump? then Produce(s, step)
        else Consume(s, step)
  }

  // ---------------------------------------------------------------- indices

  /** Of two counts less than a round apart only equal ones have the same index. */
  lemma {:induction false} IndexOnce(a: nat, b: nat, n: nat)
    requires n > 0 && b <= a < b + n
    ensures a % n == b % n <==> a == b
  {
    if a % n == b % n {
      var q := a / n - b / n;
      assert a == (a / n) * n + a % n && b == (b / n) * n + b % n;
      assert a - b == q * n;
      assert q >= 1 ==> q * n >= n;
    }
  }

  lemma {:induction false} IndexUp(a: nat, n: nat)
    requires n > 0
    ensures Up(a % n, n) == (a + 1) % n
  {
    var q, r := a / n, a % n;
    assert a == q * n + r;
    if r + 1 < n {
      IndexIs(a + 1, q, r + 1, n);
      IndexIs(r + 1, 0, r + 1, n);
    } else {
      assert a + 1 == (q + 1) * n;
      IndexIs(a + 1, q + 1, 0, n);
      IndexIs(n, 1, 0, n);
    }
  }

  lemma {:induction false} IndexIs(a: nat, q: nat, r: nat, n: nat)
    requires n > 0 && r < n && a == q * n + r
    ensures a % n == r
  {
    var p, s := a / n, a % n;
    assert a == p * n + s;
    assert p < q ==> (p + 1) * n <= q * n;
    assert p > q ==> (q + 1) * n <= p * n;
  }

  // -------------------------------------------------------------- invariant

  /** Records sent for good: the sender's index has moved past them. */
  function Done(s: Ring): int {
    |s.sent| - if s.consumer.Advancing? then 1 else 0
  }

  /** The slots from the oldest record not sent to the newest one admitted hold just those records. */
  ghost predicate HoldsFrom(slots: seq<Slot>, admitted: seq<Record>, from: int)
  {
    |slots| > 0 && 0 <= from && forall k {:trigger admitted[k]} :: from <= k < |admitted| ==>
        slots[k % |slots|] == Full(admitted[k])
  }

  ghost predicate SentInOrder(sent: seq<Slot>, admitted: seq<Record>)
  {
    |sent| <= |admitted| && forall k :: 0 <= k < |sent| ==> sent[k] == Full(admitted[k])
  }

  ghost predicate Inv(s: Ring)
  {
    var n := |s.slots|;
    && n > 0 && 0 <= Done(s) <= |s.admitted| < Done(s) + n
    && s.next == |s.admitted| % n && s.oldest == Done(s) % n
    && HoldsFrom(s.slots, s.admitted, Done(s)) && SentInOrder(s.sent, s.admitted)
    && (s.producer.Copying? || s.producer.Bumping? ==> |s.admitted| + 1 < Done(s) + n)
    && (s.producer.Bumping? ==> s.slots[s.next] == Full(s.producer.r))
    && (s.consumer.Picking? && s.connected ==> Done(s) < |s.admitted|)
    && (s.consumer.Sending? ==> s.consumer.slot == s.oldest && (s.connected ==> Done(s) < |s.admitted|))
    && (s.consumer.InFlight? ==> s.consumer.slot == s.oldest && Done(s) < |s.admitted|)
  }

  lemma {:induction false} InvStart(n: nat)
    requires n > 0
    ensures Inv(Start(n))
  {
    IndexIs(0, 0, 0, n);
  }

  /** Writing the slot after the newest record touches none that is still to be sent. */
  lemma {:induction false} WriteApart(slots: seq<Slot>, admitted: seq<Record>, from: int, x: Slot)
    requires HoldsFrom(slots, admitted, from) && from <= |admitted| && |admitted| + 1 < from + |slots|
    ensures HoldsFrom(slots[|admitted| % |slots| := x], admitted, from)
  {
    forall k {:trigger admitted[k]} | from <= k < |admitted|
      ensures slots[|admitted| % |slots| := x][k % |slots|] == Full(admitted[k])
    {
      IndexOnce(|admitted|, k, |slots|);
    }
  }

  /** Finding room means that one more record fits without reaching the oldest one not sent. */
  lemma {:induction false} InvCheck(s: Ring)
    requires Inv(s) && (s.producer.Checking? || s.producer.Spinning?)
    ensures Inv(Produce(s, Check).value)
  {
    var n := |s.slots|;
    IndexUp(|s.admitted|, n);
    IndexIs(Done(s) + n, Done(s) / n + 1, Done(s) % n, n);
  }

  lemma {:induction false} InvCopy(s: Ring, step: Step)
    requires Inv(s) && s.producer.Copying? && Produce(s, step).Some?
    ensures Inv(Produce(s, step).value)
  {
    WriteApart(s.slots, s.admitted, Done(s), Torn);
    WriteApart(s.slots, s.admitted, Done(s), Full(s.producer.r));
  }

  lemma {:induction false} InvBump(s: Ring)
    requires Inv(s) && s.producer.Bumping?
    ensures Inv(Produce(s, Bump).value)
  {
    IndexUp(|s.admitted|, |s.slots|);
    BumpHolds(s.slots, s.admitted, Done(s), s.producer.r);
  }

  lemma {:induction false} BumpHolds(slots: seq<Slot>, admitted: seq<Record>, from: int, r: Record)
    requires HoldsFrom(slots, admitted, from) && slots[|admitted| % |slots|] == Full(r)
    ensures HoldsFrom(slots, admitted + [r], from)
  {
    forall k {:trigger (admitted + [r])[k]} | from <= k < |admitted| + 1
      ensures slots[k % |slots|] == Full((admitted + [r])[k])
    {
      if k < |admitted| {
        assert slots[k % |slots|] == Full(admitted[k]);
      }
    }
  }

  lemma {:induction false} InvProduce(s: Ring, step: Step)
    requires Inv(s) && Produce(s, step).Some?
    ensures Inv(Produce(s, step).value)
  {
    match s.producer
    case Fetching =>
    case Checking(_) => InvCheck(s);
    case Spinning(_) => InvCheck(s);
    case Copying(_, _) => InvCopy(s, step);
    case Bumping(_) => InvBump(s);
  }

  lemma {:induction false} InvConsume(s: Ring, step: Step)
    requires Inv(s) && Consume(s, step).Some?
    ensures Inv(Consume(s, step).value)
  {
    var n := |s.slots|;
    IndexUp(Done(s), n);
    IndexOnce(|s.admitted|, Done(s), n);
  }

  lemma {:induction false} SlotsKept(s: Ring, step: Step)
    requires s.next < |s.slots| && s.oldest < |s.slots| && Apply(s, step).Some?
    ensures |Apply(s, step).value.slots| == |s.slots|
  {
  }

  /** Every step of either thread keeps the invariant. */
  lemma {:induction false} InvStep(s: Ring, step: Step)
    requires Inv(s) && Apply(s, step).Some?
    ensures Inv(Apply(s, step).value) && |Apply(s, step).value.slots| == |s.slots|
  {
    SlotsKept(s, step);
    if step.Fetch? || step.Check? || step.CopyBegin? || step.CopyEnd? || step.Bump? {
      InvProduce(s, step);
    } else {
      InvConsume(s, step);
    }
  }

  // ------------------------------------------------------------------- runs

  /** Any sequence of steps of both threads from r to s in which each step is possible when it is taken. */
  ghost predicate Goes(r: Ring, steps: seq<Step>, s: Ring)
  {
    if steps == [] then s == r
    else exists m: Ring :: Goes(r, steps[..|steps| - 1], m) && m.next < |m.slots| && m.oldest < |m.slots|
                           && Apply(m, steps[|steps| - 1]) == Some(s)
  }

  /** The ring after a run from the start. */
  ghost predicate Reaches(n: nat, steps: seq<Step>, s: Ring)
    requires n > 0
  {
    Goes(Start(n), steps, s)
  }

  lemma {:induction false} InvNext(r: Ring, step: Step, s: Ring)
    requires Inv(r) && Apply(r, step) == Some(s)
    ensures Inv(s) && |s.slots| == |r.slots|
  {
    InvStep(r, step);
  }

  lemma {:induction false} InvGoes(r: Ring, steps: seq<Step>, s: Ring)
    requires Inv(r) && Goes(r, steps, s)
    ensures Inv(s) && |s.slots| == |r.slots|
  {
    if steps != [] {
      var m :| Goes(r, steps[..|steps| - 1], m) && m.next < |m.slots| && m.oldest < |m.slots|
               && Apply(m, steps[|steps| - 1]) == Some(s);
      InvGoes(r, steps[..|steps| - 1], m);
      InvNext(m, steps[|steps| - 1], s);
    }
  }

  lemma {:induction false} InvRun(n: nat, steps: seq<Step>, s: Ring)
    requires n > 0 && Reaches(n, steps, s)
    ensures Inv(s) && |s.slots| == n
  {
    InvStart(n);
    InvGoes(Start(n), steps, s);
  }

  /**
   Lossless first-in first-out delivery under every interleaving: what was sent successfully is exactly the
   first of the admitted records, each complete, once and in order, and at most n - 1 are held in the buffer.
   */
  lemma {:induction false} LosslessFifo(n: nat, steps: seq<Step>, s: Ring)
    requires n > 0 && Reaches(n, steps, s)
    ensures |s.sent| <= |s.admitted| && forall k :: 0 <= k < |s.sent| ==> s.sent[k] == Full(s.admitted[k])
    ensures |s.admitted| - Done(s) <= n - 1
  {
    InvRun(n, steps, s);
  }

  /**
   No step overwrites a slot whose record is still to be sent; in particular the slot that is being sent stays
   as it is while it is being sent, and nothing is sent from an empty buffer, not even after a failed keepalive.
   */
  lemma {:induction false} UnsentSlotsStay(n: nat, steps: seq<Step>, s: Ring, step: Step, k: nat)
    requires n > 0 && Reaches(n, steps, s) && s.next < |s.slots| && s.oldest < |s.slots| && Apply(s, step).Some?
    requires Done(s) <= k < |s.admitted|
    ensures var t := Apply(s, step).value; |t.slots| == n && t.slots[k % n] == s.slots[k % n] == Full(s.admitted[k])
    ensures s.consumer.InFlight? ==> Done(s) < |s.admitted| && s.consumer.slot == Done(s) % n
  {
    InvRun(n, steps, s);
    assert s.slots[k % n] == Full(s.admitted[k]);
    if step.CopyBegin? || step.CopyEnd? {
      IndexOnce(|s.admitted|, k, n);
    }
  }

  /** Without a client the sender accepts one, or it is about to send and will give up. */
  ghost predicate Clientless(s: Ring)
  {
    !s.connected ==> s.consumer.Accepting? || s.consumer.Picking? || s.consumer.Sending?
  }

  lemma {:induction false} ClientlessGoes(r: Ring, steps: seq<Step>, s: Ring)
    requires Clientless(r) && Goes(r, steps, s)
    ensures Clientless(s)
  {
    if steps != [] {
      var m :| Goes(r, steps[..|steps| - 1], m) && m.next < |m.slots| && m.oldest < |m.slots|
               && Apply(m, steps[|steps| - 1]) == Some(s);
      ClientlessGoes(r, steps[..|steps| - 1], m);
    }
  }

  lemma {:induction false} QuietGoes(r: Ring, steps: seq<Step>, s: Ring)
    requires Clientless(r) && !r.connected && Goes(r, steps, s) && Accept !in steps
    ensures Clientless(s) && !s.connected && s.sent == r.sent && s.oldest == r.oldest
  {
    if steps != [] {
      var front, step := steps[..|steps| - 1], steps[|steps| - 1];
      var m :| Goes(r, front, m) && m.next < |m.slots| && m.oldest < |m.slots| && Apply(m, step) == Some(s);
      QuietGoes(r, front, m);
      assert step in steps;
    }
  }

  /** From any reachable state without a client, nothing is sent and no record given up until a client is accepted. */
  lemma {:induction false} NothingSentWithoutClient(n: nat, before: seq<Step>, r: Ring, steps: seq<Step>, s: Ring)
    requires n > 0 && Reaches(n, before, r) && !r.connected && Goes(r, steps, s) && Accept !in steps
    ensures !s.connected && s.sent == r.sent && s.oldest == r.oldest
  {
    ClientlessGoes(Start(n), before, r);
    QuietGoes(r, steps, s);
  }

  /** After a failed keepalive, although the sender goes on to send, nothing is sent until a client is accepted. */
  lemma {:induction false} FailedKeepAlive(r: Ring, steps: seq<Step>, s: Ring)
    requires r.consumer.Idle? && r.next < |r.slots| && r.oldest < |r.slots|
    requires Goes(Apply(r, KeepAlive(false)).value, steps, s) && Accept !in steps
    ensures s.sent == r.sent && s.oldest == r.oldest
  {
    QuietGoes(Apply(r, KeepAlive(false)).value, steps, s);
  }

  // --------------------------------------------------------------- progress

  lemma {:induction false} GoesNext(r: Ring, steps: seq<Step>, m: Ring, step: Step, s: Ring)
    requires Goes(r, steps, m) && m.next < |m.slots| && m.oldest < |m.slots| && Apply(m, step) == Some(s)
    ensures Goes(r, steps + [step], s)
  {
    assert (steps + [step])[..|steps|] == steps;
  }

  lemma {:induction false} GoesNone(r: Ring)
    ensures Goes(r, [], r)
  {
  }

  /** One run after another. */
  lemma {:induction false} GoesOn(r: Ring, a: seq<Step>, m: Ring, b: seq<Step>, s: Ring)
    requires Goes(r, a, m) && Goes(m, b, s)
    ensures Goes(r, a + b, s)
  {
    if b == [] {
      assert a + b == a;
    } else {
      var front, step := b[..|b| - 1], b[|b| - 1];
      var k :| Goes(m, front, k) && k.next < |k.slots| && k.oldest < |k.slots| && Apply(k, step) == Some(s);
      GoesOn(r, a, m, front, k);
      GoesNext(r, a + front, k, step, s);
      assert a + front + [step] == a + b;
    }
  }

  lemma {:induction false} GoesTwo(r: Ring, a: Step, m: Ring, b: Step, s: Ring)
    requires r.next < |r.slots| && r.oldest < |r.slots| && Apply(r, a) == Some(m)
    requires m.next < |m.slots| && m.oldest < |m.slots| && Apply(m, b) == Some(s)
    ensures Goes(r, [a, b], s)
  {
    GoesNone(r);
    GoesNext(r, [], r, a, m);
    GoesNext(r, [] + [a], m, b, s);
    assert [] + [a] + [b] == [a, b];
  }

  /** The oldest record not sent, while the sender waits with a client. */
  lemma {:induction false} OldestWaits(s: Ring)
    requires Inv(s) && s.consumer.Waiting? && |s.sent| < |s.admitted|
    ensures s.oldest < |s.slots| && s.slots[s.oldest] == Full(s.admitted[|s.sent|]) && s.next != s.oldest
  {
    assert s.slots[|s.sent| % |s.slots|] == Full(s.admitted[|s.sent|]);
    IndexOnce(|s.admitted|, |s.sent|, |s.slots|);
  }

  /** The steps by which the sender sends the oldest record. */
  const SENDING: seq<Step> := [Look, Pick, SendStart, SendDone(true), Advance]

  /** With a client, a waiting sender that has a record to send can send the oldest one, and just that. */
  lemma {:induction false} OldestCanGo(s: Ring)
    requires Inv(s) && s.connected && s.consumer.Waiting? && |s.sent| < |s.admitted|
    ensures Goes(s, SENDING, s.(sent := s.sent + [Full(s.admitted[|s.sent|])], oldest := Up(s.oldest, |s.slots|)))
  {
    OldestWaits(s);
    var s2 := s.(consumer := Sending(s.oldest));
    var s4 := s.(sent := s.sent + [s.slots[s.oldest]], consumer := Advancing);
    var s5 := s.(sent := s.sent + [s.slots[s.oldest]], oldest := Up(s.oldest, |s.slots|));
    Picks(s);
    Sends(s2, true, s4);
    GoesNone(s4);
    GoesNext(s4, [], s4, Advance, s5);
    GoesOn(s, [Look, Pick], s2, [SendStart, SendDone(true)], s4);
    GoesOn(s, [Look, Pick] + [SendStart, SendDone(true)], s4, [] + [Advance], s5);
    assert [Look, Pick] + [SendStart, SendDone(true)] + ([] + [Advance]) == SENDING;
  }

  lemma {:induction false} Picks(s: Ring)
    requires s.next < |s.slots| && s.oldest < |s.slots| && s.consumer.Waiting? && s.next != s.oldest
    ensures Goes(s, [Look, Pick], s.(consumer := Sending(s.oldest)))
  {
    GoesTwo(s, Look, s.(consumer := Picking), Pick, s.(consumer := Sending(s.oldest)));
  }

  lemma {:induction false} Sends(m: Ring, ok: bool, t: Ring)
    requires m.next < |m.slots| && m.oldest < |m.slots| && m.consumer == Sending(m.oldest) && m.connected
    requires t == if ok then m.(sent := m.sent + [m.slots[m.oldest]], consumer := Advancing)
                  else m.(connected := false, consumer := Accepting)
    ensures Goes(m, [SendStart, SendDone(ok)], t)
  {
    GoesTwo(m, SendStart, m.(consumer := InFlight(m.oldest)), SendDone(ok), t);
  }

  /** In every reachable state in which a sender with a client waits: if a record is not sent yet, it can send it. */
  lemma {:induction false} SenderProgress(n: nat, steps: seq<Step>, s: Ring)
    requires n > 0 && Reaches(n, steps, s) && s.connected && s.consumer.Waiting? && |s.sent| < |s.admitted|
    ensures var t := s.(sent := s.sent + [Full(s.admitted[|s.sent|])], oldest := Up(s.oldest, n));
            Goes(s, [Look, Pick, SendStart, SendDone(true), Advance], t)
  {
    InvRun(n, steps, s);
    OldestCanGo(s);
  }

  /**
   In every reachable state in which the reader has a record and looks for room: if at most n - 2 records are held it
   can put the record into the buffer, and if n - 1 are held it goes on looking.
   */
  lemma {:induction false} ReaderProgress(n: nat, steps: seq<Step>, s: Ring, r: Record)
    requires n > 0 && Reaches(n, steps, s) && (s.producer == Checking(r) || s.producer == Spinning(r))
    ensures |s.admitted| - Done(s) <= n - 2 ==>
              s.next < n == |s.slots|
              && Goes(s, [Check, CopyBegin, CopyEnd, Bump],
                      s.(slots := s.slots[s.next := Full(r)], next := Up(s.next, n), admitted := s.admitted + [r],
                         producer := Fetching))
    ensures |s.admitted| - Done(s) == n - 1 ==>
              s.next < |s.slots| && Produce(s, Check) == Some(s.(producer := Spinning(r)))
  {
    InvRun(n, steps, s);
    RoomIff(s);
    if |s.admitted| - Done(s) <= n - 2 {
      RoomTaken(s, r);
    }
  }

  lemma {:induction false} RoomTaken(s: Ring, r: Record)
    requires Inv(s) && (s.producer == Checking(r) || s.producer == Spinning(r))
    requires Up(s.next, |s.slots|) != s.oldest
    ensures Goes(s, [Check, CopyBegin, CopyEnd, Bump],
                 s.(slots := s.slots[s.next := Full(r)], next := Up(s.next, |s.slots|), admitted := s.admitted + [r],
                    producer := Fetching))
  {
    var s1, s2 := s.(producer := Copying(r, false)), s.(slots := s.slots[s.next := Torn], producer := Copying(r, true));
    var s3 := s.(slots := s.slots[s.next := Full(r)], producer := Bumping(r));
    var s4 := s.(slots := s.slots[s.next := Full(r)], next := Up(s.next, |s.slots|), admitted := s.admitted + [r],
                 producer := Fetching);
    GoesTwo(s, Check, s1, CopyBegin, s2);
    Copied(s2, s3, r, s4);
    GoesOn(s, [Check, CopyBegin], s2, [CopyEnd, Bump], s4);
    assert [Check, CopyBegin] + [CopyEnd, Bump] == [Check, CopyBegin, CopyEnd, Bump];
  }

  lemma {:induction false} Copied(m: Ring, m': Ring, r: Record, s: Ring)
    requires m.next < |m.slots| && m.oldest < |m.slots| && m.producer == Copying(r, true)
    requires m'.slots == m.slots[m.next := Full(r)] && m' == m.(slots := m'.slots, producer := Bumping(r))
    requires s == m'.(next := Up(m.next, |m.slots|), admitted := m.admitted + [r], producer := Fetching)
    ensures Goes(m, [CopyEnd, Bump], s)
  {
    GoesTwo(m, CopyEnd, m', Bump, s);
  }

  /** The indices say that there is no room exactly if all slots but one are held. */
  lemma {:induction false} RoomIff(s: Ring)
    requires Inv(s)
    ensures Up(s.next, |s.slots|) == s.oldest <==> |s.admitted| - Done(s) == |s.slots| - 1
  {
    var n := |s.slots|;
    IndexUp(|s.admitted|, n);
    if |s.admitted| + 1 < Done(s) + n {
      IndexOnce(|s.admitted| + 1, Done(s), n);
    } else {
      IndexIs(Done(s) + n, Done(s) / n + 1, Done(s) % n, n);
    }
  }

  /** A send that fails gives the client up and nothing else; with the next client the same record is next. */
  lemma {:induction false} FailedSendAgain(n: nat, steps: seq<Step>, s: Ring)
    requires n > 0 && Reaches(n, steps, s) && s.connected && s.consumer.Waiting? && |s.sent| < |s.admitted|
    ensures Goes(s, [Look, Pick, SendStart, SendDone(false), Accept], s)
  {
    InvRun(n, steps, s);
    OldestWaits(s);
    var m, t := s.(consumer := Sending(s.oldest)), s.(connected := false, consumer := Accepting);
    Picks(s);
    Sends(m, false, t);
    GoesNone(t);
    GoesNext(t, [], t, Accept, s);
    GoesOn(s, [Look, Pick], m, [SendStart, SendDone(false)], t);
    GoesOn(s, [Look, Pick] + [SendStart, SendDone(false)], t, [] + [Accept], s);
    assert [Look, Pick] + [SendStart, SendDone(false)] + ([] + [Accept])
           == [Look, Pick, SendStart, SendDone(false), Accept];
  }

  lemma {:induction false} KeepsWaiting(s: Ring)
    requires s.next == s.oldest < |s.slots| && s.connected && s.consumer.Waiting?
    ensures Goes(s, [Look, NoKeepAlive], s) && Goes(s, [Look, KeepAlive(true)], s)
    ensures Goes(s, [Look, KeepAlive(false)], s.(connected := false, consumer := Picking))
  {
    var idle := s.(consumer := Idle);
    GoesTwo(s, Look, idle, NoKeepAlive, s);
    GoesTwo(s, Look, idle, KeepAlive(true), s);
    GoesTwo(s, Look, idle, KeepAlive(false), s.(connected := false, consumer := Picking));
  }

  lemma {:induction false} GivesUp(m: Ring)
    requires m.next < |m.slots| && m.oldest < |m.slots| && !m.connected && m.consumer.Picking?
    ensures Goes(m, [Pick, SendStart], m.(consumer := Accepting))
  {
    GoesTwo(m, Pick, m.(consumer := Sending(m.oldest)), SendStart, m.(consumer := Accepting));
  }

  /**
   With nothing to send a sender that looks goes on waiting just as before, whether it sends a keepalive in between or
   not; if that fails it gives the client up and nothing else.
   */
  lemma {:induction false} WaitsOn(n: nat, steps: seq<Step>, s: Ring)
    requires n > 0 && Reaches(n, steps, s) && s.connected && s.consumer.Waiting? && |s.sent| == |s.admitted|
    ensures Goes(s, [Look, NoKeepAlive], s) && Goes(s, [Look, KeepAlive(true)], s)
    ensures Goes(s, [Look, KeepAlive(false), Pick, SendStart], s.(connected := false, consumer := Accepting))
  {
    InvRun(n, steps, s);
    KeepsWaiting(s);
    var m, t := s.(connected := false, consumer := Picking), s.(connected := false, consumer := Accepting);
    GivesUp(m);
    GoesOn(s, [Look, KeepAlive(false)], m, [Pick, SendStart], t);
    assert [Look, KeepAlive(false)] + [Pick, SendStart] == [Look, KeepAlive(false), Pick, SendStart];
  }

  /** The step that brings the sender nearer to waiting with a client. */
  function Onward(c: Consumer): Step {
    match c
    case Idle => NoKeepAlive
    case Picking => Pick
    case Sending(_) => SendStart
    case InFlight(_) => SendDone(true)
    case Advancing => Advance
    case _ => Accept
  }

  function StepsToWait(c: Consumer): nat {
    match c
    case Waiting => 0
    case Picking => 5
    case Sending(_) => 4
    case InFlight(_) => 3
    case _ => 2
  }

  /** From any state of its loop the sender comes to wait with a client, by steps of its own. */
  lemma {:induction false} ComesToWait(s: Ring) returns (steps: seq<Step>, t: Ring)
    requires Inv(s) && Clientless(s)
    ensures Goes(s, steps, t) && t.consumer.Waiting? && t.connected && t.admitted == s.admitted && Inv(t)
    decreases StepsToWait(s.consumer)
  {
    if s.consumer.Waiting? {
      GoesNone(s);
      return [], s;
    }
    var m := NearerToWait(s);
    GoesNone(s);
    GoesNext(s, [], s, Onward(s.consumer), m);
    var rest;
    rest, t := ComesToWait(m);
    steps := [] + [Onward(s.consumer)] + rest;
    GoesOn(s, [] + [Onward(s.consumer)], m, rest, t);
  }

  lemma {:induction false} NearerToWait(s: Ring) returns (m: Ring)
    requires Inv(s) && Clientless(s) && !s.consumer.Waiting?
    ensures s.next < |s.slots| && s.oldest < |s.slots| && Apply(s, Onward(s.consumer)) == Some(m)
    ensures Inv(m) && Clientless(m) && m.admitted == s.admitted && StepsToWait(m.consumer) < StepsToWait(s.consumer)
  {
    m := Consume(s, Onward(s.consumer)).value;
    InvStep(s, Onward(s.consumer));
  }

  /** The sender can go on until every record admitted has been sent. */
  lemma {:induction false} SendsAll(s: Ring) returns (steps: seq<Step>, t: Ring)
    requires Inv(s) && s.connected && s.consumer.Waiting?
    ensures Goes(s, steps, t) && t.admitted == s.admitted && |t.sent| == |s.admitted| && Inv(t)
    decreases |s.admitted| - |s.sent|
  {
    if |s.sent| == |s.admitted| {
      GoesNone(s);
      return [], s;
    }
    var m := s.(sent := s.sent + [Full(s.admitted[|s.sent|])], oldest := Up(s.oldest, |s.slots|));
    OldestCanGo(s);
    InvGoes(s, SENDING, m);
    var rest;
    rest, t := SendsAll(m);
    GoesOn(s, SENDING, m, rest, t);
    steps := SENDING + rest;
  }

  /** From every reachable state there is a run after which every record admitted has been sent, each complete. */
  lemma {:induction false} AllCanBeSent(n: nat, before: seq<Step>, s: Ring)
    requires n > 0 && Reaches(n, before, s)
    ensures exists steps: seq<Step>, t: Ring :: Goes(s, steps, t) && t.admitted == s.admitted
              && |t.sent| == |s.admitted| && forall k :: 0 <= k < |t.sent| ==> t.sent[k] == Full(s.admitted[k])
  {
    InvRun(n, before, s);
    ClientlessGoes(Start(n), before, s);
    var a, m := ComesToWait(s);
    var b, t := SendsAll(m);
    GoesOn(s, a, m, b, t);
    assert Goes(s, a + b, t);
  }
}
