/**
 Blockettes of any size in a record: each begins with a 16-bit type and a 16-bit link, the offset of the
 next blockette or 0, and its body goes on to where the next one begins.
 */
module BlocketteChain {
  import opened Common
  import opened Bytes

  /** Offsets of blockettes that lie one after the other, the last one ending at `end`. */
  ghost predicate Places(offs: seq<nat>, end: nat)
  {
    forall i {:trigger Stop(offs, end, i)} :: 0 <= i < |offs| ==>
          0 < offs[i] && offs[i] + 4 <= Stop(offs, end, i) <= end
  }

  /** Where blockette i ends. */
  function Stop(offs: seq<nat>, end: nat, i: nat): nat
    requires i < |offs|
  {
    if i + 1 < |offs| then offs[i + 1] else end
  }

  /** The bytes of blockette i. */
  function Piece(s: seq<byte>, offs: seq<nat>, end: nat, i: nat): (p: seq<byte>)
    requires i < |offs| && offs[i] + 4 <= Stop(offs, end, i) <= |s|
    ensures |p| >= 4
  {
    s[offs[i]..Stop(offs, end, i)]
  }

  function LinkOf(p: seq<byte>): int
    requires |p| >= 4
  {
    Read16(p, 2)
  }

  /** Type and contents of a blockette, without its link. */
  function Body(p: seq<byte>): seq<byte>
    requires |p| >= 4
  {
    p[..2] + p[4..]
  }

  /** The first n blockettes. */
  ghost function Bodies(s: seq<byte>, offs: seq<nat>, end: nat, n: nat): (bs: seq<seq<byte>>)
    requires n <= |offs| && Places(offs, end) && end <= |s|
    ensures |bs| == n
  {
    if n == 0 then [] else Bodies(s, offs, end, n - 1) + [Body(Piece(s, offs, end, n - 1))]
  }

  /** Each of the first n blockettes links to the next one, the very last one to nothing. */
  ghost predicate Linked(s: seq<byte>, offs: seq<nat>, end: nat, n: nat)
    requires n <= |offs| && Places(offs, end) && end <= |s|
  {
    forall i :: 0 <= i < n ==> LinkOf(Piece(s, offs, end, i)) == if i + 1 < |offs| then offs[i + 1] else 0
  }

  /** A complete chain. */
  ghost predicate Chain(s: seq<byte>, offs: seq<nat>, end: nat)
  {
    offs != [] && Places(offs, end) && end <= |s| && Linked(s, offs, end, |offs|)
  }

  /** Offsets found by following the links from `at`, at most n of them. */
  function Walk(s: seq<byte>, at: nat, n: nat): seq<nat>
    decreases n
  {
    if n == 0 || at == 0 || at + 4 > |s| then [] else [at] + Walk(s, Read16(s, at + 2), n - 1)
  }

  /** A reader that follows the links visits exactly the blockettes of the chain, in order. */
  lemma {:induction false} WalkVisits(s: seq<byte>, offs: seq<nat>, end: nat, i: nat, n: nat)
    requires Chain(s, offs, end) && i < |offs| && n >= |offs| - i
    ensures Walk(s, offs[i], n) == offs[i..]
    decreases |offs| - i
  {
    assert LinkOf(Piece(s, offs, end, i)) == Read16(s, offs[i] + 2);
    if i + 1 < |offs| {
      WalkVisits(s, offs, end, i + 1, n - 1);
    } else {
      assert Walk(s, 0, n - 1) == [];
    }
  }

  // ------------------------------------------------------------ setting links

  lemma {:induction false} Apart(offs: seq<nat>, end: nat, i: nat, j: nat)
    requires Places(offs, end) && i < j < |offs|
    ensures offs[i] + 4 <= Stop(offs, end, i) <= offs[j]
    decreases j - i
  {
    if i + 1 < j {
      Apart(offs, end, i + 1, j);
    }
  }

  /** Setting the link of blockette k changes no other link and no body. */
  lemma {:induction false} SetLink(s: seq<byte>, offs: seq<nat>, end: nat, k: nat, v: nat, t: seq<byte>, i: nat)
    requires Places(offs, end) && end <= |s| && k < |offs| && Stop(offs, end, k) <= end && i < |offs| && v < 65536
    requires t == Splice(s, offs[k] + 2, Word16(v))
    ensures |t| == |s| && LinkOf(Piece(t, offs, end, i)) == (if i == k then v else LinkOf(Piece(s, offs, end, i)))
    ensures Body(Piece(t, offs, end, i)) == Body(Piece(s, offs, end, i))
  {
    var at, lo, hi := offs[k] + 2, offs[i], Stop(offs, end, i);
    if i == k {
      SpliceWithin(s, at, Word16(v), lo, hi);
      LinkSet(s[lo..hi], v);
    } else {
      if i < k { Apart(offs, end, i, k); } else { Apart(offs, end, k, i); }
      SpliceOutside(s, at, Word16(v), lo, hi);
    }
  }

  lemma {:induction false} LinkSet(p: seq<byte>, v: nat)
    requires |p| >= 4 && v < 65536
    ensures LinkOf(Splice(p, 2, Word16(v))) == v && Body(Splice(p, 2, Word16(v))) == Body(p)
  {
    ReadBack16(v, Splice(p, 2, Word16(v)), 2);
  }

  lemma {:induction false} SetLinkBodies(s: seq<byte>, offs: seq<nat>, end: nat, k: nat, v: nat, t: seq<byte>, n: nat)
    requires Places(offs, end) && end <= |s| && k < |offs| && Stop(offs, end, k) <= end && n <= |offs| && v < 65536
    requires t == Splice(s, offs[k] + 2, Word16(v))
    ensures |t| == |s| && Bodies(t, offs, end, n) == Bodies(s, offs, end, n)
  {
    if n > 0 {
      SetLinkBodies(s, offs, end, k, v, t, n - 1);
      SetLink(s, offs, end, k, v, t, n - 1);
    }
  }

  /** Setting the next link right extends the part of the chain that is linked. */
  lemma {:induction false} LinkNext(s: seq<byte>, offs: seq<nat>, end: nat, k: nat, t: seq<byte>)
    requires Places(offs, end) && end <= |s| && end < 65536 && k + 1 < |offs| && Stop(offs, end, k) <= end
    requires Linked(s, offs, end, k)
    requires t == Splice(s, offs[k] + 2, Word16(offs[k + 1]))
    ensures |t| == |s| && Linked(t, offs, end, k + 1) && Bodies(t, offs, end, |offs|) == Bodies(s, offs, end, |offs|)
    ensures LinkOf(Piece(t, offs, end, |offs| - 1)) == LinkOf(Piece(s, offs, end, |offs| - 1))
  {
    SetLinkBodies(s, offs, end, k, offs[k + 1], t, |offs|);
    SetLink(s, offs, end, k, offs[k + 1], t, |offs| - 1);
    forall i | 0 <= i < k + 1
      ensures LinkOf(Piece(t, offs, end, i)) == if i + 1 < |offs| then offs[i + 1] else 0
    {
      SetLink(s, offs, end, k, offs[k + 1], t, i);
    }
  }

  // ------------------------------------------------------- joining two chains

  function Shifted(offs: seq<nat>, from: nat, to: nat): (r: seq<nat>)
    requires forall i :: 0 <= i < |offs| ==> offs[i] >= from
    ensures |r| == |offs|
  {
    seq(|offs|, i requires 0 <= i < |offs| => offs[i] - from + to)
  }

  /** Offsets of a group of blockettes that starts at `from`. */
  ghost predicate Group(offs: seq<nat>, from: nat, end: nat)
  {
    offs != [] && offs[0] == from && from + 4 <= end && Places(offs, end) && forall i :: 0 <= i < |offs| ==>
        from <= offs[i]
  }

  /** The blockettes of a group moved behind the others lie one after the other. */
  lemma {:induction false} JoinPlaces(offs: seq<nat>, end: nat, more: seq<nat>, from: nat, stop: nat, all: seq<nat>)
    requires offs != [] && Places(offs, end) && Group(more, from, stop) && all == offs + Shifted(more, from, end)
    ensures Places(all, end + stop - from)
    ensures all[|offs|] == end
  {
    Apart0(more, stop);
    forall i | 0 <= i < |all|
      ensures 0 < all[i] && all[i] + 4 <= Stop(all, end + stop - from, i) <= end + stop - from
    {
      JoinStop(offs, end, more, from, stop, all, i);
    }
  }

  lemma {:induction false} JoinStop(offs: seq<nat>, end: nat, more: seq<nat>, from: nat, stop: nat, all: seq<nat>,
                                    i: nat)
    requires offs != [] && Places(offs, end) && Group(more, from, stop) && all == offs + Shifted(more, from, end)
             && i < |all|
    ensures i < |offs| ==> all[i] == offs[i] && Stop(all, end + stop - from, i) == Stop(offs, end, i)
    ensures i >= |offs| ==> all[i] == more[i - |offs|] - from + end
    ensures i >= |offs| ==> Stop(all, end + stop - from, i) == Stop(more, stop, i - |offs|) - from + end
    ensures 0 < all[i] && all[i] + 4 <= Stop(all, end + stop - from, i) <= end + stop - from
  {
    Apart0(offs, end);
    if i >= |offs| {
      var j := i - |offs|;
      assert 0 < more[j] && more[j] + 4 <= Stop(more, stop, j) <= stop;
    }
  }

  lemma {:induction false} Apart0(offs: seq<nat>, end: nat)
    requires offs != [] && Places(offs, end)
    ensures forall i :: 0 <= i < |offs| ==> offs[0] <= offs[i]
    ensures offs[0] + 4 <= end
  {
    assert Stop(offs, end, 0) <= end;
    forall i | 0 < i < |offs| ensures offs[0] <= offs[i] {
      Apart(offs, end, 0, i);
    }
  }

  /** The group `more` of r has been copied behind the blockettes of s; `all` are the offsets after that. */
  ghost predicate Copied(s: seq<byte>, offs: seq<nat>, end: nat, r: seq<byte>, more: seq<nat>, from: nat, stop: nat,
                         all: seq<nat>, top: nat, t: seq<byte>)
  {
    && offs != [] && Places(offs, end) && Group(more, from, stop) && stop <= |r|
    && top == end + stop - from && top <= |s| && t == Splice(s, end, r[from..stop])
    && all == offs + Shifted(more, from, end) && Places(all, top)
  }

  /** Copying keeps all blockettes as they are, links included. */
  lemma {:induction false} CopiedPiece(s: seq<byte>, offs: seq<nat>, end: nat, r: seq<byte>, more: seq<nat>,
                                       from: nat, stop: nat,
                                       all: seq<nat>, top: nat, t: seq<byte>, i: nat)
    requires Copied(s, offs, end, r, more, from, stop, all, top, t) && i < |all|
    ensures Piece(t, all, top, i) == if i < |offs| then Piece(s, offs, end, i) else Piece(r, more, stop, i - |offs|)
  {
    JoinStop(offs, end, more, from, stop, all, i);
    var lo, hi := all[i], Stop(all, top, i);
    if i < |offs| {
      SpliceOutside(s, end, r[from..stop], lo, hi);
    } else {
      var j := i - |offs|;
      MovedSlice(s, end, r, from, stop, t, more[j], Stop(more, stop, j));
    }
  }

  lemma {:induction false} MovedSlice(s: seq<byte>, end: nat, r: seq<byte>, from: nat, stop: nat, t: seq<byte>,
                                      x: nat, y: nat)
    requires from <= x <= y <= stop <= |r| && end + stop - from <= |s| && t == Splice(s, end, r[from..stop])
    ensures t[x - from + end..y - from + end] == r[x..y]
  {
    SliceOfSlice(r, from, stop, x - from, y - from);
    SliceOfSlice(t, end, end + (stop - from), x - from, y - from);
  }

  /** Blockettes m to m + n of t are the first n of r. */
  ghost predicate Alike(t: seq<byte>, all: seq<nat>, top: nat, m: nat, r: seq<byte>, more: seq<nat>, stop: nat, n: nat)
    requires Places(all, top) && top <= |t| && Places(more, stop) && stop <= |r| && m + n <= |all| && n <= |more|
  {
    forall i :: 0 <= i < n ==> Piece(t, all, top, m + i) == Piece(r, more, stop, i)
  }

  lemma {:induction false} AlikeBodies(t: seq<byte>, all: seq<nat>, top: nat, m: nat, r: seq<byte>, more: seq<nat>,
                                       stop: nat,
                                       n: nat, front: seq<seq<byte>>)
    requires Places(all, top) && top <= |t| && Places(more, stop) && stop <= |r| && m + n <= |all| && n <= |more|
    requires Alike(t, all, top, m, r, more, stop, n) && Bodies(t, all, top, m) == front
    ensures Bodies(t, all, top, m + n) == front + Bodies(r, more, stop, n)
  {
    if n > 0 {
      AlikeBodies(t, all, top, m, r, more, stop, n - 1, front);
      assert Piece(t, all, top, m + (n - 1)) == Piece(r, more, stop, n - 1);
      ConcatAssoc(front, Bodies(r, more, stop, n - 1), [Body(Piece(r, more, stop, n - 1))]);
    }
  }

  /** The bodies are those of the first group and then those of the second. */
  lemma {:induction false} CopiedBodies(s: seq<byte>, offs: seq<nat>, end: nat, r: seq<byte>, more: seq<nat>,
                                        from: nat, stop: nat,
                                        all: seq<nat>, top: nat, t: seq<byte>)
    requires Copied(s, offs, end, r, more, from, stop, all, top, t)
    ensures Bodies(t, all, top, |all|) == Bodies(s, offs, end, |offs|) + Bodies(r, more, stop, |more|)
  {
    CopiedAlike(s, offs, end, r, more, from, stop, all, top, t);
    TwoAlike(t, all, top, s, offs, end, r, more, stop);
  }

  lemma {:induction false} TwoAlike(t: seq<byte>, all: seq<nat>, top: nat, s: seq<byte>, offs: seq<nat>, end: nat,
                                    r: seq<byte>, more: seq<nat>, stop: nat)
    requires Places(all, top) && top <= |t| && Places(offs, end) && end <= |s| && Places(more, stop) && stop <= |r|
    requires |all| == |offs| + |more|
    requires Alike(t, all, top, 0, s, offs, end, |offs|) && Alike(t, all, top, |offs|, r, more, stop, |more|)
    ensures Bodies(t, all, top, |all|) == Bodies(s, offs, end, |offs|) + Bodies(r, more, stop, |more|)
  {
    AlikeBodies(t, all, top, 0, s, offs, end, |offs|, []);
    AlikeBodies(t, all, top, |offs|, r, more, stop, |more|, Bodies(s, offs, end, |offs|));
  }

  lemma {:induction false} CopiedAlike(s: seq<byte>, offs: seq<nat>, end: nat, r: seq<byte>, more: seq<nat>,
                                       from: nat, stop: nat,
                                       all: seq<nat>, top: nat, t: seq<byte>)
    requires Copied(s, offs, end, r, more, from, stop, all, top, t)
    ensures Alike(t, all, top, 0, s, offs, end, |offs|) && Alike(t, all, top, |offs|, r, more, stop, |more|)
  {
    forall i | 0 <= i < |offs|
      ensures Piece(t, all, top, 0 + i) == Piece(s, offs, end, i)
    {
      CopiedPiece(s, offs, end, r, more, from, stop, all, top, t, i);
    }
    forall i | 0 <= i < |more|
      ensures Piece(t, all, top, |offs| + i) == Piece(r, more, stop, i)
    {
      CopiedPiece(s, offs, end, r, more, from, stop, all, top, t, |offs| + i);
    }
  }

  /** Right after copying, the links of the first group but its last one are right, and the very last link is 0. */
  lemma {:induction false} CopiedLinked(s: seq<byte>, offs: seq<nat>, end: nat, r: seq<byte>, more: seq<nat>,
                                        from: nat, stop: nat,
                                        all: seq<nat>, top: nat, t: seq<byte>)
    requires Copied(s, offs, end, r, more, from, stop, all, top, t) && Chain(s, offs, end) && Chain(r, more, stop)
    ensures Linked(t, all, top, |offs| - 1) && LinkOf(Piece(t, all, top, |all| - 1)) == 0
  {
    CopiedAlike(s, offs, end, r, more, from, stop, all, top, t);
    AlikeLinked(t, all, top, s, offs, end);
    AlikeLast(t, all, top, |offs|, r, more, stop);
  }

  lemma {:induction false} AlikeLinked(t: seq<byte>, all: seq<nat>, top: nat, s: seq<byte>, offs: seq<nat>, end: nat)
    requires Places(all, top) && top <= |t| && Chain(s, offs, end) && |offs| <= |all| && all[..|offs|] == offs
    requires Alike(t, all, top, 0, s, offs, end, |offs|)
    ensures Linked(t, all, top, |offs| - 1)
  {
    forall i | 0 <= i < |offs| - 1
      ensures LinkOf(Piece(t, all, top, i)) == all[i + 1]
    {
      assert Piece(t, all, top, 0 + i) == Piece(s, offs, end, i);
      assert all[i + 1] == all[..|offs|][i + 1];
    }
  }

  lemma {:induction false} AlikeLast(t: seq<byte>, all: seq<nat>, top: nat, m: nat, r: seq<byte>, more: seq<nat>,
                                     stop: nat)
    requires Places(all, top) && top <= |t| && Chain(r, more, stop) && m + |more| == |all|
    requires Alike(t, all, top, m, r, more, stop, |more|)
    ensures LinkOf(Piece(t, all, top, |all| - 1)) == 0
  {
    assert Piece(t, all, top, m + (|more| - 1)) == Piece(r, more, stop, |more| - 1);
  }

  /** On the way to one chain: the first n links are set, the last one is 0, the bodies are there. */
  ghost predicate Joining(s: seq<byte>, all: seq<nat>, top: nat, n: nat, bodies: seq<seq<byte>>)
  {
    && n < |all| && Places(all, top) && top <= |s| && top < 65536 && Linked(s, all, top, n)
    && Bodies(s, all, top, |all|) == bodies && LinkOf(Piece(s, all, top, |all| - 1)) == 0
  }

  lemma {:induction false} JoiningNext(s: seq<byte>, all: seq<nat>, top: nat, n: nat, bodies: seq<seq<byte>>,
                                       t: seq<byte>)
    requires Joining(s, all, top, n, bodies) && n + 1 < |all| && Stop(all, top, n) <= top
    requires t == Splice(s, all[n] + 2, Word16(all[n + 1]))
    ensures Joining(t, all, top, n + 1, bodies)
  {
    LinkNext(s, all, top, n, t);
  }

  lemma {:induction false} JoiningDone(s: seq<byte>, all: seq<nat>, top: nat, bodies: seq<seq<byte>>)
    requires |all| > 0 && Joining(s, all, top, |all| - 1, bodies)
    ensures Chain(s, all, top)
  {
  }

  /** The copy of a group is ready to be linked. */
  lemma {:induction false} JoiningStart(s: seq<byte>, offs: seq<nat>, end: nat, r: seq<byte>, more: seq<nat>,
                                        from: nat, stop: nat,
                                        all: seq<nat>, top: nat, t: seq<byte>)
    requires Chain(s, offs, end) && Chain(r, more, stop) && Group(more, from, stop) && top == end + stop - from
             && top <= |s|
    requires top < 65536 && t == Splice(s, end, r[from..stop]) && all == offs + Shifted(more, from, end)
    ensures Joining(t, all, top, |offs| - 1, Bodies(s, offs, end, |offs|) + Bodies(r, more, stop, |more|))
    ensures all[|offs|] == end
  {
    JoinPlaces(offs, end, more, from, stop, all);
    CopiedBodies(s, offs, end, r, more, from, stop, all, top, t);
    CopiedLinked(s, offs, end, r, more, from, stop, all, top, t);
  }
}
