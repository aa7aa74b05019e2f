/**
 The body of an archive record that collects data records: a chain of 64-byte blockettes followed
 by data frames, both grown in place.
 */
module RecordBody {
  import opened Common
  import opened Bytes
  import opened ByteFrames
  import opened Merge

  /** After the 64-byte header the buffer holds the blockettes and then the data. */
  ghost predicate Layout(s: seq<byte>, blks: seq<byte>, data: seq<byte>)
  {
    && |blks| % 64 == 0 && |data| % 64 == 0 && 64 + |blks| + |data| <= |s|
    && s[64..64 + |blks|] == blks
    && s[64 + |blks|..64 + |blks| + |data|] == data
  }

  /** Room for the blockettes `more` between the blockettes and the data. */
  ghost predicate Gap(t: seq<byte>, blks: seq<byte>, n: nat, data: seq<byte>)
  {
    && |blks| % 64 == 0 && |data| % 64 == 0 && n % 64 == 0 && 64 + |blks| + n + |data| <= |t|
    && t[64..64 + |blks|] == blks
    && t[64 + |blks| + n..64 + |blks| + n + |data|] == data
  }

  /** Moving the data up by n bytes leaves a gap after the blockettes. */
  lemma {:induction false} MoveLayout(s: seq<byte>, blks: seq<byte>, data: seq<byte>, n: nat, at: nat, t: seq<byte>)
    requires Layout(s, blks, data) && at == 64 + |blks| && n % 64 == 0 && at + n + |data| <= |s|
    requires t == Splice(s, at + n, s[at..at + |data|])
    ensures Gap(t, blks, n, data)
  {
    SpliceOutside(s, at + n, s[at..at + |data|], 64, at);
  }

  lemma {:induction false} NothingToMove(s: seq<byte>, blks: seq<byte>, data: seq<byte>, n: nat)
    requires Layout(s, blks, data) && data == [] && n % 64 == 0 && 64 + |blks| + n <= |s|
    ensures Gap(s, blks, n, data)
  {
  }

  /** New blockettes go into the gap. */
  lemma {:induction false} FillLayout(s: seq<byte>, blks: seq<byte>, data: seq<byte>, more: seq<byte>, at: nat,
                                      t: seq<byte>)
    requires Gap(s, blks, |more|, data) && at == 64 + |blks| && t == Splice(s, at, more)
    ensures Layout(t, blks + more, data)
  {
    SpliceOutside(s, at, more, at + |more|, at + |more| + |data|);
    SpliceAfter(s, at, more, 64);
  }

  /** New data frames go after the others. */
  lemma {:induction false} AppendLayout(s: seq<byte>, blks: seq<byte>, data: seq<byte>, more: seq<byte>, at: nat,
                                        t: seq<byte>)
    requires Layout(s, blks, data) && |more| % 64 == 0 && at == 64 + |blks| + |data| && at + |more| <= |s|
    requires t == Splice(s, at, more)
    ensures Layout(t, blks, data + more)
  {
    SpliceOutside(s, at, more, 64, 64 + |blks|);
    SpliceAfter(s, at, more, 64 + |blks|);
  }

  /** A change within the blockettes, or within the data, is a change of just that part. */
  lemma {:induction false} PatchBlockettes(s: seq<byte>, blks: seq<byte>, data: seq<byte>, at: nat, b: seq<byte>,
                                           t: seq<byte>)
    requires Layout(s, blks, data) && at + |b| <= |blks| && t == Splice(s, 64 + at, b)
    ensures Layout(t, Splice(blks, at, b), data)
  {
    SpliceWithin(s, 64 + at, b, 64, 64 + |blks|);
    SpliceOutside(s, 64 + at, b, 64 + |blks|, 64 + |blks| + |data|);
  }

  lemma {:induction false} PatchData(s: seq<byte>, blks: seq<byte>, data: seq<byte>, at: nat, b: seq<byte>,
                                     t: seq<byte>)
    requires Layout(s, blks, data) && at + |b| <= |data| && t == Splice(s, 64 + |blks| + at, b)
    ensures Layout(t, blks, Splice(data, at, b))
  {
    SpliceWithin(s, 64 + |blks| + at, b, 64 + |blks|, 64 + |blks| + |data|);
    SpliceOutside(s, 64 + |blks| + at, b, 64, 64 + |blks|);
  }

  // ---------------------------------------------------------------- links

  /** The blockettes with the links of the first n - 1 of them set to the next frame. */
  function Relinked(bs: seq<byte>, n: nat): (r: seq<byte>)
    requires 64 * n <= |bs|
    ensures |r| == |bs|
  {
    if n <= 1 then bs else Splice(Relinked(bs, n - 1), 64 * (n - 2) + 2, Word16(64 * n))
  }

  /** Link field of blockette number i, counting from 1. */
  function FrameLink(bs: seq<byte>, i: nat): int
    requires 1 <= i && 64 * i <= |bs|
  {
    Read16(bs, 64 * (i - 1) + 2)
  }

  /** Every blockette links to the next frame and the last one to nothing. */
  ghost predicate Chained(bs: seq<byte>)
  {
    && |bs| % 64 == 0
    && forall i: nat :: 1 <= i && 64 * i <= |bs| ==> FrameLink(bs, i) == if 64 * i == |bs| then 0 else 64 * (i + 1)
  }

  /** Byte j of blockette number i, counting from 1. */
  function ByteOf(bs: seq<byte>, i: nat, j: nat): byte
    requires 1 <= i && 64 * i <= |bs| && j < 64
  {
    bs[64 * (i - 1) + j]
  }

  /** The same blockettes apart from their links. */
  ghost predicate SameButLinks(a: seq<byte>, b: seq<byte>)
  {
    && |a| == |b|
    && forall i: nat, j: nat :: 1 <= i && 64 * i <= |a| && j < 64 && j != 2 && j != 3 ==>
       ByteOf(a, i, j) == ByteOf(b, i, j)
  }

  /** Setting one link changes no other byte. */
  lemma {:induction false} SetFrameLink(s: seq<byte>, k: nat, v: nat, t: seq<byte>, i: nat, j: nat)
    requires 1 <= k && 64 * k <= |s| && 1 <= i && 64 * i <= |s| && j < 64 && v < 0x10000
    requires t == Splice(s, 64 * (k - 1) + 2, Word16(v))
    ensures |t| == |s| && FrameLink(t, i) == (if i == k then v else FrameLink(s, i))
    ensures j != 2 && j != 3 ==> ByteOf(t, i, j) == ByteOf(s, i, j)
  {
    var at := 64 * (k - 1) + 2;
    assert |s| == |t| && forall p :: 0 <= p < |s| && (p < at || p >= at + 2) ==> t[p] == s[p];
    if i == k {
      ReadBack16(v, t, at);
    }
  }

  /** Relinking the first n blockettes sets the links of all but the last of them and nothing else. */
  lemma {:induction false} RelinkedLinks(bs: seq<byte>, n: nat, i: nat, j: nat)
    requires 64 * n <= |bs| <= 65000 && 1 <= i && 64 * i <= |bs| && j < 64
    ensures FrameLink(Relinked(bs, n), i) == if i < n then 64 * (i + 1) else FrameLink(bs, i)
    ensures j != 2 && j != 3 ==> ByteOf(Relinked(bs, n), i, j) == ByteOf(bs, i, j)
  {
    if n > 1 {
      RelinkedLinks(bs, n - 1, i, j);
      SetFrameLink(Relinked(bs, n - 1), n - 1, 64 * n, Relinked(bs, n), i, j);
    }
  }

  /** Inserting blockettes and rebuilding the links leaves one chain through all of them, contents unchanged. */
  lemma {:induction false} InsertChains(blks: seq<byte>, more: seq<byte>)
    requires Chained(blks) && Chained(more) && |blks + more| <= 65000
    ensures var r := Relinked(blks + more, |blks + more| / 64);
            Chained(r) && SameButLinks(r, blks + more)
  {
    var all := blks + more;
    var n := |all| / 64;
    forall i: nat, j: nat | 1 <= i && 64 * i <= |all| && j < 64
      ensures FrameLink(Relinked(all, n), i) == if i < n then 64 * (i + 1) else FrameLink(all, i)
      ensures j != 2 && j != 3 ==> ByteOf(Relinked(all, n), i, j) == ByteOf(all, i, j)
    {
      RelinkedLinks(all, n, i, j);
    }
    forall i: nat | 1 <= i && 64 * i <= |all|
      ensures FrameLink(Relinked(all, n), i) == if i == n then 0 else 64 * (i + 1)
    {
      RelinkedLinks(all, n, i, 0);
      LastLink(blks, more);
    }
  }

  lemma {:induction false} LastLink(blks: seq<byte>, more: seq<byte>)
    requires Chained(blks) && Chained(more) && blks + more != []
    ensures FrameLink(blks + more, |blks + more| / 64) == 0
  {
    var all := blks + more;
    if more == [] {
      assert blks + more == blks;
    } else {
      var k := |more| / 64;
      assert FrameLink(more, k) == 0;
      assert FrameLink(blks + more, |blks + more| / 64) == FrameLink(more, k);
    }
  }

  /** Offsets of the blockettes reached from offset `at` of a record, following at most n links. */
  function WalkFrames(bs: seq<byte>, at: nat, n: nat): seq<nat>
    requires |bs| % 64 == 0
    decreases n
  {
    if n == 0 || at % 64 != 0 || at == 0 || at > |bs| then []
    else [at] + WalkFrames(bs, FrameLink(bs, at / 64), n - 1)
  }

  /** A reader that follows the links finds the blockettes from frame i on, one after the other. */
  lemma {:induction false} WalkVisitsAll(bs: seq<byte>, i: nat, n: nat)
    requires Chained(bs) && 1 <= i && 64 * i <= |bs| && n >= |bs| / 64 - i + 1
    ensures WalkFrames(bs, 64 * i, n) == seq(|bs| / 64 - i + 1, k requires 0 <= k => 64 * (i + k))
    decreases |bs| - 64 * i
  {
    if 64 * i < |bs| {
      WalkVisitsAll(bs, i + 1, n - 1);
    } else {
      assert WalkFrames(bs, 0, n - 1) == [];
    }
  }

  /** The blockettes of a record with n of them, and the n data frames after its m header and blockette frames. */
  function BlockettesIn(s: seq<byte>, n: nat): (bs: seq<byte>)
    requires 64 * (n + 1) <= |s|
    ensures |bs| == 64 * n
  {
    s[64..64 * (n + 1)]
  }

  function FramesIn(s: seq<byte>, m: nat, n: nat): (bs: seq<byte>)
    requires 64 * (m + n) <= |s|
    ensures |bs| == 64 * n
  {
    s[64 * m..64 * (m + n)]
  }

  lemma {:induction false} LayoutParts(s: seq<byte>, blks: seq<byte>, data: seq<byte>, n: nat, m: nat)
    requires Layout(s, blks, data) && |blks| == 64 * n && |data| == 64 * m
    ensures 64 * (n + 1 + m) <= |s| && BlockettesIn(s, n) == blks && FramesIn(s, n + 1, m) == data
  {
  }

  /** Copying a record's blockettes and frames into the buffer. */
  lemma {:induction false} LoadLayout(s: seq<byte>, rec: seq<byte>, b: nat, f: nat, t: seq<byte>)
    requires 64 * (b + 1 + f) <= |rec| && 64 * (b + 1 + f) <= |s|
    requires t == if b + f > 0 then Splice(s, 64, rec[64..64 + 64 * (b + f)]) else s
    ensures Layout(t, BlockettesIn(rec, b), FramesIn(rec, b + 1, f))
  {
    if b + f > 0 {
      var all := rec[64..64 + 64 * (b + f)];
      assert t[64..64 + 64 * (b + f)] == all;
      assert BlockettesIn(rec, b) == all[..64 * b] && FramesIn(rec, b + 1, f) == all[64 * b..];
      assert t[64..64 + 64 * b] == t[64..64 + 64 * (b + f)][..64 * b];
      assert t[64 + 64 * b..64 + 64 * (b + f)] == t[64..64 + 64 * (b + f)][64 * b..];
    }
  }

  /** The blockettes after more have been inserted. */
  function MergedBlockettes(blks: seq<byte>, more: seq<byte>): (bs: seq<byte>)
    requires |blks| % 64 == 0 && |more| % 64 == 0
    ensures |bs| == |blks| + |more|
  {
    if more == [] then blks else Relinked(blks + more, (|blks| + |more|) / 64)
  }

  /** Merging blockettes makes one chain of them and changes nothing but links. */
  lemma {:induction false} MergedChain(blks: seq<byte>, more: seq<byte>)
    requires Chained(blks) && Chained(more) && |blks| + |more| <= 65000
    ensures Chained(MergedBlockettes(blks, more)) && SameButLinks(MergedBlockettes(blks, more), blks + more)
  {
    if more == [] {
      assert blks + more == blks;
    } else {
      InsertChains(blks, more);
    }
  }

  lemma {:induction false} LastWordIn(rec: seq<byte>, m: nat, f: nat, extra: seq<byte>)
    requires 64 * (m + f) <= |rec| && f >= 1 && extra == FramesIn(rec, m, f)
    ensures rec[64 * m + 8..64 * m + 12] == LastWord(extra)
  {
    assert forall k :: 0 <= k < 4 ==> extra[8..12][k] == rec[64 * m + 8 + k];
  }

  // ------------------------------------------------------------ the buffer

  class RecordBody {
    const pcfr: array<byte>
    ghost var blks: seq<byte>
    ghost var data: seq<byte>

    ghost predicate Valid()
      reads this, pcfr
    {
      Layout(pcfr[..], blks, data) && pcfr.Length <= 65000
    }

    constructor (buffer: array<byte>)
      requires 64 <= buffer.Length <= 65000
      ensures Valid() && blks == [] && data == [] && pcfr == buffer
    {
      pcfr := buffer;
      blks, data := [], [];
    }

    /** Nothing is in the buffer any more. */
    ghost method Forget()
      requires 64 <= pcfr.Length <= 65000
      modifies this
      ensures Valid() && blks == [] && data == []
    {
      blks, data := [], [];
    }

    /** The buffer has been filled with a record. */
    ghost method Remember(blks: seq<byte>, data: seq<byte>)
      requires Layout(pcfr[..], blks, data) && pcfr.Length <= 65000
      modifies this
      ensures Valid() && this.blks == blks && this.data == data
    {
      this.blks, this.data := blks, data;
    }

    /** A new record's blockettes and data frames. */
    method Load(rec: array<byte>, b: nat, f: nat)
      requires rec != pcfr && 64 * (b + 1 + f) <= rec.Length && 64 * (b + 1 + f) <= pcfr.Length <= 65000
      modifies this, pcfr
      ensures Valid() && blks == BlockettesIn(rec[..], b) && data == FramesIn(rec[..], b + 1, f)
    {
      ghost var was := pcfr[..];
      if b + f > 0 {
        CopyBytes(pcfr, 64, rec, 64, (b + f) * 64);
      }
      blks, data := BlockettesIn(rec[..], b), FramesIn(rec[..], b + 1, f);
      LoadLayout(was, rec[..], b, f, pcfr[..]);
    }

    /** Insert b blockettes before the data: move the data up, copy them in and rebuild all links. */
    method Insert(rec: array<byte>, d: nat, b: nat, total: nat)
      requires Valid() && rec != pcfr && |blks| == 64 * d && |data| == 64 * (total - d - 1)
      requires 64 * (b + 1) <= rec.Length && total >= d + 1 && 64 * (total + b) <= pcfr.Length
      modifies this, pcfr
      ensures Valid() && data == old(data) && blks == Relinked(old(blks) + BlockettesIn(rec[..], b), d + b)
    {
      MakeRoom(d, b, total);
      CopyIn(rec, d, b);
      Relink(d + b);
    }

    method MakeRoom(d: nat, b: nat, total: nat)
      requires Valid() && |blks| == 64 * d && |data| == 64 * (total - d - 1)
      requires total >= d + 1 && 64 * (total + b) <= pcfr.Length
      modifies pcfr
      ensures Gap(pcfr[..], blks, 64 * b, data)
    {
      ghost var was := pcfr[..];
      if total > d + 1 {
        MoveBytes(pcfr, 64 * (d + b + 1), 64 * (d + 1), 64 * (total - d - 1));
        MoveLayout(was, blks, data, 64 * b, 64 * (d + 1), pcfr[..]);
      } else {
        NothingToMove(was, blks, data, 64 * b);
      }
    }

    method CopyIn(rec: array<byte>, d: nat, b: nat)
      requires rec != pcfr && |blks| == 64 * d && 64 * (b + 1) <= rec.Length && pcfr.Length <= 65000
      requires Gap(pcfr[..], blks, 64 * b, data)
      modifies this`blks, pcfr
      ensures Valid() && blks == old(blks) + BlockettesIn(rec[..], b)
    {
      ghost var was, more := pcfr[..], BlockettesIn(rec[..], b);
      CopyBytes(pcfr, 64 * (d + 1), rec, 64, b * 64);
      FillLayout(was, blks, data, more, 64 * (d + 1), pcfr[..]);
      blks := blks + more;
    }

    /** Set the links of all n blockettes but the last. */
    method Relink(n: nat)
      requires Valid() && |blks| == 64 * n
      modifies this`blks, pcfr
      ensures Valid() && blks == Relinked(old(blks), n)
    {
      ghost var all := blks;
      for i := 0 to n
        invariant Valid() && blks == Relinked(all, i)
      {
        if i > 0 {
          SetLinkTo(i, 64 * (i + 1));
        }
      }
    }

    method SetLinkTo(i: nat, v: nat)
      requires Valid() && i >= 1 && |blks| >= 64 * i
      modifies this`blks, pcfr
      ensures Valid() && blks == Splice(old(blks), 64 * (i - 1) + 2, Word16(v))
    {
      ghost var was := pcfr[..];
      StoreWord(pcfr, 64 * i + 2, v);
      PatchBlockettes(was, blks, data, 64 * (i - 1) + 2, Word16(v), pcfr[..]);
      blks := Splice(blks, 64 * (i - 1) + 2, Word16(v));
    }

    /** Add f data frames at the end. */
    method Append(rec: array<byte>, m: nat, f: nat, total: nat)
      requires Valid() && rec != pcfr && 64 * (m + f) <= rec.Length && 64 * (total + f) <= pcfr.Length
      requires 64 * total == 64 + |blks| + |data|
      modifies this`data, pcfr
      ensures Valid() && data == old(data) + FramesIn(rec[..], m, f)
    {
      ghost var was, more := pcfr[..], FramesIn(rec[..], m, f);
      CopyBytes(pcfr, total * 64, rec, m * 64, f * 64);
      AppendLayout(was, blks, data, more, 64 * total, pcfr[..]);
      data := data + more;
    }

    /** Take the last-sample word over from the record whose data starts at frame m. */
    method TakeLast(rec: array<byte>, m: nat, d: nat)
      requires Valid() && rec != pcfr && 64 * (m + 1) <= rec.Length && |blks| == 64 * d && |data| >= 64
      modifies this`data, pcfr
      ensures Valid() && data == WithLast(old(data), rec[..][64 * m + 8..64 * m + 12])
    {
      ghost var was, w := pcfr[..], rec[..][64 * m + 8..64 * m + 12];
      CopyBytes(pcfr, (d + 1) * 64 + 8, rec, m * 64 + 8, 4);
      PatchData(was, blks, data, 8, w, pcfr[..]);
      data := WithLast(data, w);
    }

    /** Insert the blockettes of another record, if it has any. */
    method MergeBlockettes(rec: array<byte>, d: nat, b: nat, total: nat)
      requires Valid() && rec != pcfr && 64 * (b + 1) <= rec.Length
      requires |blks| == 64 * d && |data| == 64 * (total - d - 1) && total >= d + 1 && 64 * (total + b) <= pcfr.Length
      modifies this, pcfr
      ensures Valid() && data == old(data) && blks == MergedBlockettes(old(blks), BlockettesIn(rec[..], b))
    {
      if b > 0 {
        Insert(rec, d, b, total);
      }
    }

    /** Take another record in: its blockettes first, then its f data frames and its last sample. */
    method MergeRecord(rec: array<byte>, d: nat, b: nat, f: nat, total: nat)
      requires Valid() && rec != pcfr && 64 * (b + 1 + f) <= rec.Length && f >= 1
      requires |blks| == 64 * d && |data| == 64 * (total - d - 1) && total >= d + 2
      requires 64 * (total + b + f) <= pcfr.Length
      modifies this, pcfr
      ensures Valid() && blks == MergedBlockettes(old(blks), BlockettesIn(rec[..], b))
      ensures data == Merged(old(data), FramesIn(rec[..], b + 1, f))
    {
      ghost var r := rec[..];
      LastWordIn(r, b + 1, f, FramesIn(r, b + 1, f));
      MergeBlockettes(rec, d, b, total);
      if f > 0 {
        Append(rec, b + 1, f, total + b);
      }
      TakeLast(rec, b + 1, d + b);
    }
  }
}
