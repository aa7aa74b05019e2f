/**
 The account of everything taken in: what is in the records a client keeps, and what is still in the buffer.
 An unfinished version at the client stands for nothing but what is in the buffer.
 */
module Account {
  import opened Archive

  /** The contents of a client's records, one after the other. */
  function Flat<T>(kept: seq<seq<T>>): seq<T> {
    if kept == [] then [] else Flat(kept[..|kept| - 1]) + kept[|kept| - 1]
  }

  /** What a client keeps: a new record is added, a later version replaces the one before it. */
  function Keep<T>(kept: seq<seq<T>>, action: Action, s: seq<T>): seq<seq<T>> {
    if action == Arc || action == First || kept == [] then kept + [s] else kept[..|kept| - 1] + [s]
  }

  /** The client's records that will not change any more. */
  function Settled<T>(kept: seq<seq<T>>, existing: bool): seq<seq<T>> {
    if existing && kept != [] then kept[..|kept| - 1] else kept
  }

  /** The version at the client holds what is in the buffer, or less of it if something was added since. */
  ghost predicate UpToDate<T>(kept: seq<seq<T>>, existing: bool, appended: bool, cur: seq<T>)
  {
    && (existing ==> kept != [] && var s := kept[|kept| - 1]; if appended then |s| < |cur| else s == cur)
    && (appended ==> cur != []) && (!existing && !appended ==> cur == [])
  }

  /**
   If all went well, what is settled and what is in the buffer are all that was given; if not, they never will be
   again.
   */
  ghost predicate Tally<T>(settled: seq<T>, cur: seq<T>, given: seq<T>, ok: bool)
  {
    if ok then settled + cur == given else |settled| + |cur| <= |given| && settled + cur != given
  }

  ghost predicate Delivered<T>(kept: seq<seq<T>>, existing: bool, appended: bool, cur: seq<T>, given: seq<T>, ok: bool)
  {
    UpToDate(kept, existing, appended, cur) && Tally(Flat(Settled(kept, existing)), cur, given, ok)
  }

  lemma {:induction false} FlatNext<T>(kept: seq<seq<T>>, s: seq<T>)
    ensures Flat(kept + [s]) == Flat(kept) + s
  {
    assert (kept + [s])[..|kept|] == kept;
  }

  lemma {:induction false} TallySettle<T>(settled: seq<T>, cur: seq<T>, given: seq<T>, ok: bool)
    requires Tally(settled, cur, given, ok)
    ensures Tally(settled + cur, [], given, ok)
  {
    assert settled + cur + [] == settled + cur;
  }

  /** Telling the client about the buffer. */
  lemma {:induction false} DeliverSend<T>(kept: seq<seq<T>>, existing: bool, appended: bool, cur: seq<T>,
                                          given: seq<T>, ok: bool,
                                          action: Action)
    requires Delivered(kept, existing, appended, cur, given, ok)
    requires existing <==> action == Inc || action == Final
    ensures Delivered(Keep(kept, action, cur), true, false, cur, given, ok)
    ensures Delivered(Keep(kept, action, cur), false, false, [], given, ok)
  {
    var front := Settled(kept, existing);
    KeepFront(kept, existing, cur, action);
    FlatNext(front, cur);
    TallySettle(Flat(front), cur, given, ok);
    assert (front + [cur])[..|front|] == front;
  }

  lemma {:induction false} KeepFront<T>(kept: seq<seq<T>>, existing: bool, cur: seq<T>, action: Action)
    requires (existing <==> action == Inc || action == Final) && (existing ==> kept != [])
    ensures Keep(kept, action, cur) == Settled(kept, existing) + [cur]
  {
  }

  /** Dropping a buffer whose content the client already has. */
  lemma {:induction false} DeliverDrop<T>(kept: seq<seq<T>>, cur: seq<T>, given: seq<T>, ok: bool)
    requires Delivered(kept, true, false, cur, given, ok)
    ensures Delivered(kept, false, false, [], given, ok)
  {
    TallySettle(Flat(Settled(kept, true)), cur, given, ok);
  }

  /** Dropping a buffer with something that the client does not have. */
  lemma {:induction false} DeliverLose<T>(kept: seq<seq<T>>, existing: bool, cur: seq<T>, given: seq<T>, ok: bool)
    requires Delivered(kept, existing, true, cur, given, ok)
    ensures Delivered(kept, false, false, [], given, false)
  {
    TallyLose(Flat(Settled(kept, existing)), if existing then kept[|kept| - 1] else [], cur, given, ok);
    assert Flat(Settled(kept, false)) == Flat(Settled(kept, existing)) + if existing then kept[|kept| - 1] else [];
  }

  lemma {:induction false} TallyLose<T>(settled: seq<T>, s: seq<T>, cur: seq<T>, given: seq<T>, ok: bool)
    requires Tally(settled, cur, given, ok) && |s| < |cur|
    ensures Tally(settled + s, [], given, false)
  {
    assert |settled + cur| == |settled| + |cur| && |settled + s + []| == |settled| + |s|;
  }

  /** A new record in the buffer. */
  lemma {:induction false} DeliverNew<T>(kept: seq<seq<T>>, more: seq<T>, given: seq<T>, ok: bool)
    requires Delivered(kept, false, false, [], given, ok) && more != []
    ensures Delivered(kept, false, true, more, given + more, ok)
  {
    TallyMore(Flat(kept), [], more, more, given, ok);
  }

  /** More in the buffer: `all` is what it holds then. */
  lemma {:induction false} DeliverMore<T>(kept: seq<seq<T>>, existing: bool, appended: bool, cur: seq<T>, all: seq<T>,
                                          more: seq<T>, given: seq<T>, ok: bool)
    requires Delivered(kept, existing, appended, cur, given, ok) && more != []
    requires |all| == |cur| + |more| && all[..|cur|] == cur
    ensures Delivered(kept, existing, true, all, given + more, ok && all == cur + more)
  {
    TallyMore(Flat(Settled(kept, existing)), cur, all, more, given, ok);
  }

  lemma {:induction false} TallyMore<T>(settled: seq<T>, cur: seq<T>, all: seq<T>, more: seq<T>, given: seq<T>,
                                        ok: bool)
    requires Tally(settled, cur, given, ok) && |all| == |cur| + |more| && all[..|cur|] == cur
    ensures Tally(settled, all, given + more, ok && all == cur + more)
  {
    var rest := all[|cur|..];
    assert all == cur + rest && settled + all == (settled + cur) + rest && (all == cur + more <==> rest == more);
    SameEnd(settled + cur, rest, given, more);
  }

  lemma {:induction false} SameEnd<T>(a: seq<T>, b: seq<T>, c: seq<T>, d: seq<T>)
    requires |b| == |d|
    ensures a + b == c + d <==> a == c && b == d
  {
    if a + b == c + d {
      assert |a| == |c| && a == (a + b)[..|a|] && b == (a + b)[|a|..];
    }
  }

  /**
   A flush of a buffer: the client gets it, or has it already, or it is thrown away. `worth` says whether there is
   something in the buffer, at a possible time; `total` is 0 if there is nothing.
   */
  lemma {:induction false} DeliverFlush<T>(kept: seq<seq<T>>, existing: bool, appended: bool, leave: bool, total: nat,
                                           worth: bool,
                                           cur: seq<T>, given: seq<T>, ok: bool)
    requires (total == 0 ==> !existing && !appended) && (worth ==> total > 0)
    requires Delivered(kept, existing, appended, cur, given, ok)
    ensures var act := ActionFor(existing, appended, leave);
            var kept' := if worth && act.Some? then Keep(kept, act.value, cur) else kept;
            var stays := worth && leave && (existing ==> appended);
            Delivered(kept', stays, false, if stays then cur else [], given, ok && !(appended && total > 0 && !worth))
  {
    if worth && (existing ==> appended) {
      DeliverSend(kept, existing, appended, cur, given, ok, ActionFor(existing, appended, leave).value);
    } else if appended {
      DeliverLose(kept, existing, cur, given, ok);
    } else if existing {
      DeliverDrop(kept, cur, given, ok);
    }
  }

  /** With nothing in the buffer, the client has everything if and only if all went well. */
  lemma {:induction false} DeliveredIff<T>(kept: seq<seq<T>>, given: seq<T>, ok: bool)
    requires Delivered(kept, false, false, [], given, ok)
    ensures Flat(kept) == given <==> ok
  {
    assert Flat(kept) + [] == Flat(kept);
  }

  /** At the start nothing is missing, whether the client has nothing yet or one record, extended or not. */
  lemma {:induction false} DeliverStart<T>(s: seq<T>)
    ensures Delivered<T>([], false, false, [], [], true) && Delivered([s], false, false, [], s, true)
    ensures Delivered([s], true, false, s, s, true)
  {
    FlatNext([], s);
    assert [s][..0] == [] && [] + [s] == [s] && [] + s == s && s + [] == s;
  }
}
