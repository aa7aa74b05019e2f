/**
 One channel's compressor: the sample ring, the roaming search of the compression table, the
 record being built and the records finished so far.
 */
module Compressor {
  import opened Common
  import opened Steim
  import opened Frames
  import opened Packing
  import opened SampleRing
  import opened FrameBuilder

  /** Frames of a finished record that hold the words of its history. */
  ghost predicate Holds(fs: seq<Frame>, p: Packer)
  {
    && fs != [] && p.packed != [] && FramesCoded(fs) == p.out
    && FirstTwoUnused(Codes(fs[0][0], 15)) && Wrap32(fs[0][1]) == p.packed[0] && Wrap32(fs[0][2]) == p.Last()
  }

  /** A record decodes to its samples if and only if all its differences but the first one are right. */
  lemma {:induction false} RecordDecodesIff(fs: seq<Frame>, p: Packer)
    requires Holds(fs, p)
    ensures SeedDecode(fs) == p.packed <==> Right(p.start, p.packed, p.out)
  {
    var ds := StreamDiffs(p.out);
    StreamDiffsSmall(p.out);
    if ds != [] {
      SeedForm(fs, ds, ds[1..]);
      DecodesIff(p.start, p.packed, ds);
    }
  }

  lemma {:induction false} DecodesIff(start: int32, s: seq<int32>, ds: seq<int>)
    requires s != [] && ds != [] && Small(ds)
    ensures [s[0]] + Integrate(s[0], ds[1..]) == s <==> |ds| == |s| && ds[1..] == Diffs(start, s)[1..]
  {
    assert s == [s[0]] + s[1..];
    SameHalves([s[0]], Integrate(s[0], ds[1..]), [s[0]], s[1..]);
    SumsOnlyToOwn(s[0], s[1..], ds[1..]);
    assert Diffs(start, s)[1..] == Diffs(s[0], s[1..]);
  }

  /** A finished record decodes to its samples if and only if all its differences but the first one are encodable. */
  lemma {:induction false} RecordDecodes(fs: seq<Frame>, p: Packer)
    requires Holds(fs, p) && Tracks(p.start, p.packed, p.out)
    ensures SeedDecode(fs) == p.packed <==> AllEncodable(Diffs(p.start, p.packed)[1..])
  {
    RecordDecodesIff(fs, p);
    RightIff(p.start, p.packed, p.out);
  }

  /** What was fetched beyond the samples of the chosen entry does not matter. */
  lemma {:induction false} LoadedPrefix(last: int32, pending: seq<int32>, scs: seq<int32>, dfs: seq<int32>, h: nat,
                                        used: nat)
    requires 1 <= used <= h <= Min(|pending|, MAX_PER_WORD)
    requires scs == [last] + pending[..h] && dfs == Diffs(last, pending[..h])
    ensures scs[used] == pending[used - 1] && dfs[..used] == Diffs(last, Window(pending))[..used]
  {
    DiffsPrefix(last, pending, h, |Window(pending)|);
  }

  /** One more sample fetched, and its difference from the one before. */
  lemma {:induction false} LoadedNext(last: int32, pending: seq<int32>, scs: seq<int32>, dfs: seq<int32>, h: nat)
    requires h < |pending| && scs == [last] + pending[..h] && dfs == Diffs(last, pending[..h])
    ensures scs + [pending[h]] == [last] + pending[..h + 1]
    ensures dfs + [Wrap32((pending[h] as int) - scs[h])] == Diffs(last, pending[..h + 1])
  {
    assert pending[..h + 1] == pending[..h] + [pending[h]] && scs[h] == LastOf(last, pending[..h]);
    DiffsAppend(last, pending[..h], pending[h]);
  }

  lemma {:induction false} PackOneFacts(p: Packer)
    requires p.pending != []
    ensures var q, n := PackOne(p), Scan(NextEntry(p.Last(), p.pending));
            && q.start == p.start && q.pending == p.pending[n..] && q.Last() == p.pending[n - 1]
            && q.out == p.out + [NextWord(p.Last(), p.pending)]
            && q.packed != [] && q.packed[0] == (p.packed + p.pending)[0]
  {
  }

  class Compressor {
    var ringPresent: bool
    var lastSample: int32
    var ctabx: int                     // roaming table pointer
    const ring: SampleRing
    const builder: FrameBuilder
    const diffs: array<int32>
    const sc: array<int32>
    ghost var rec: Packer              // history of the current record

    ghost predicate Separate() {
      && diffs.Length == 7 && sc.Length == 9
      && diffs != sc && ring.peeks != diffs && ring.peeks != sc
    }

    ghost predicate Valid()
      reads this, ring, ring.peeks, builder, builder.frameBuffer
    {
      && Separate() && ring.Valid() && builder.Valid() && 0 <= ctabx <= LAST_ENTRY
      && rec.pending == ring.pending && lastSample == rec.Last() && rec.out == builder.coded
      && (builder.New() <==> rec.packed == [])
      && (!builder.New() ==> builder.first == rec.packed[0])
    }

    constructor (blockettes: nat)
      ensures Valid() && ringPresent && rec == Packer(0, [], [], []) && builder.frame == blockettes + 1 && builder.New()
      ensures fresh(ring) && fresh(ring.peeks) && fresh(builder) && fresh(builder.frameBuffer) && fresh(diffs)
              && fresh(sc)
    {
      ringPresent := true;
      lastSample, ctabx := 0, 0;
      diffs := new int32[7](_ => 0);
      sc := new int32[9](_ => 0);
      ring := new SampleRing();
      builder := new FrameBuilder(blockettes);
      rec := Packer(0, [], [], []);
    }

    /** The record has n words after the same number of blockettes. */
    ghost predicate Counts(n: int, blockettes: nat)
      reads builder
    {
      builder.Words() == n && builder.blocketteCount == blockettes
    }

    /** Append a sample to the ring. */
    method PutSample(x: int32)
      requires Valid() && ring.peekTotal < RING_SIZE
      modifies ring, ring.peeks, this`rec
      ensures Valid() && rec == Apply(old(rec), Put(x))
    {
      ring.Put(x);
      rec := Apply(rec, Put(x));
    }

    // ------------------------------------------------------- table search

    /** The first h pending samples and their differences have been fetched. */
    ghost predicate Loaded(h: nat)
      reads this`lastSample, ring, diffs, sc
      requires Separate()
    {
      && h <= 7 && h <= |ring.pending|
      && sc[1..h + 2] == [lastSample] + ring.pending[..h] && diffs[..h] == Diffs(lastSample, ring.pending[..h])
    }

    /** Fetch samples from the ring until `need` differences are known. */
    method FetchDifferences(hiscan: nat, need: nat) returns (h: nat)
      requires Separate() && ring.Valid() && Loaded(hiscan) && need <= 7 && need <= |ring.pending|
      modifies diffs, sc
      ensures Loaded(h) && h == Max(hiscan, need) && ring.Valid()
    {
      h := hiscan;
      while h < need
        invariant Loaded(h) && ring.Valid() && hiscan <= h <= Max(hiscan, need)
      {
        FetchNext(h);
        h := h + 1;
      }
    }

    /** Fetch one more sample and form its difference from the one before. */
    method FetchNext(hiscan: nat)
      requires Separate() && ring.Valid() && Loaded(hiscan) && hiscan < 7 && hiscan < |ring.pending|
      modifies diffs, sc
      ensures Loaded(hiscan + 1) && ring.Valid()
    {
      ghost var s, d := sc[1..hiscan + 2], diffs[..hiscan];
      var value := ring.Peek(hiscan);
      LoadedNext(lastSample, ring.pending, s, d, hiscan);
      assert sc[hiscan + 1] == s[hiscan];
      sc[hiscan + 2] := value;
      diffs[hiscan] := Wrap32((value as int) - sc[hiscan + 1]);
      assert sc[1..hiscan + 3] == s + [value];
      assert diffs[..hiscan + 1] == d + [diffs[hiscan]];
    }

    /** Whether the first `n` differences are all within the limit. */
    method AllWithin(n: nat, limit: int) returns (ok: bool)
      requires n <= diffs.Length
      ensures ok <==> forall i :: 0 <= i < n ==> Abs32(diffs[i]) <= limit
    {
      for i := 0 to n
        invariant forall j :: 0 <= j < i ==> Abs32(diffs[j]) <= limit
      {
        if Abs32(diffs[i]) > limit {
          return false;
        }
      }
      return true;
    }

    /** Fetch what entry k needs and see whether it fits. */
    method Probe(hiscan: nat, k: Entry) returns (h: nat, ok: bool)
      requires Separate() && ring.Valid() && Loaded(hiscan) && Scan(k) <= |ring.pending|
      modifies diffs, sc
      ensures Loaded(h) && h == Max(hiscan, Scan(k)) && ring.Valid()
      ensures ok <==> Fits(k, Diffs(lastSample, Window(ring.pending)))
    {
      h := FetchDifferences(hiscan, Scan(k));
      ok := AllWithin(Scan(k), Limit(k));
      ghost var ds := Diffs(lastSample, Window(ring.pending));
      DiffsPrefix(lastSample, ring.pending, h, |Window(ring.pending)|);
      assert forall i :: 0 <= i < Scan(k) ==> diffs[i] == diffs[..h][i] == ds[i];
    }

    /**
     Probe the table from where the previous word left off, towards larger fields until the
     differences fit or towards smaller ones while they still do.
     */
    method SearchTable() returns (hiscan: nat)
      requires Separate() && ring.Valid() && ring.peekTotal >= 1 && 0 <= ctabx <= LAST_ENTRY
      modifies this`ctabx, diffs, sc
      ensures 0 <= ctabx <= LAST_ENTRY && ctabx == NextEntry(lastSample, ring.pending) && ring.Valid()
      ensures Loaded(hiscan) && Scan(ctabx) <= hiscan <= |Window(ring.pending)|
    {
      sc[1] := lastSample;
      assert sc[1..2] == [lastSample];
      var ctablo, x := 0, ctabx;
      if ring.peekTotal < MAX_PER_WORD {
        ctablo := MAX_PER_WORD - ring.peekTotal;
        if x < ctablo {
          x := ctablo;
        }
      }
      hiscan := 0;
      var done, ctabfit, ctabw := false, -1, x;
      ghost var ds := Diffs(lastSample, Window(ring.pending));
      while !done
        invariant ring.Valid() && ctablo == LowestEntry(|ring.pending|) && Loaded(hiscan) && hiscan <= |ds|
        invariant Searching(ctablo, ctabw, ctabfit, x, done, ds)
        invariant done ==> hiscan >= Scan(x)
        decreases !done, if ctabfit < 0 then 14 - x else x
      {
        var ok: bool;
        hiscan, ok := Probe(hiscan, x);
        SearchMoves(ctablo, ctabw, ctabfit, x, ok, ds);
        if !ok {
          if ctabfit < 0 {
            if x >= LAST_ENTRY {
              done := true;
            } else {
              x := x + 1;
            }
          } else {
            x := ctabfit;
            done := true;
          }
        } else if x > ctabw {
          done := true;
        } else if x > ctablo {
          ctabfit := x;
          x := x - 1;
        } else {
          done := true;
        }
      }
      ctabx := x;
    }

    // ----------------------------------------------------------- packing

    /** Shift the control bits and the differences of entry k into one word. */
    method PackDifferences(k: Entry) returns (accum: word32)
      requires diffs.Length == 7
      ensures accum == PackWord(k, diffs[..Scan(k)])
    {
      var width := FieldWidth(k);
      ghost var ds := diffs[..Scan(k)];
      ghost var whole := PackWord(k, ds);
      accum := ControlBits(k);
      for i := 0 to Scan(k)
        invariant accum == PackBits(ControlBits(k), width, ds[..i])
      {
        PackStep(ControlBits(k), width, ds, i);
        accum := (Shl(accum, width) + Mask(diffs[i], width)) % TWO_32;
      }
      assert ds[..Scan(k)] == ds;
    }

    /** Choose the table entry, pack its differences and drop its samples from the ring. */
    method PackNext() returns (used: nat, code: int, word: word32)
      requires Separate() && ring.Valid() && ring.peekTotal >= 1 && 0 <= ctabx <= LAST_ENTRY
      modifies this`ctabx, this`lastSample, ring, diffs, sc
      ensures Separate() && ring.Valid() && 0 <= ctabx <= LAST_ENTRY && 0 <= code <= 3
      ensures used == Scan(old(NextEntry(lastSample, ring.pending)))
      ensures Coded(code, word) == old(NextWord(lastSample, ring.pending))
      ensures ring.pending == old(ring.pending)[used..] && lastSample == old(ring.pending)[used - 1]
    {
      var h := SearchTable();
      used := Scan(ctabx);
      LoadedPrefix(lastSample, ring.pending, sc[1..h + 2], diffs[..h], h, used);
      assert diffs[..used] == diffs[..h][..used] && sc[used + 1] == sc[1..h + 2][used];
      code := BlockCode(ctabx);
      word := PackDifferences(ctabx);
      lastSample := sc[used + 1];
      ring.Drop(used);
    }

    /** Valid with a record begun for the oldest sample not in an earlier record. */
    ghost predicate Started()
      reads this, ring, ring.peeks, builder, builder.frameBuffer
    {
      && Separate() && ring.Valid() && builder.Valid() && 0 <= ctabx <= LAST_ENTRY
      && rec.pending == ring.pending && rec.pending != [] && lastSample == rec.Last() && rec.out == builder.coded
      && !builder.New() && builder.first == (rec.packed + rec.pending)[0]
    }

    method Begin()
      requires Valid() && ring.peekTotal >= 1
      modifies this`ctabx, builder, builder.frameBuffer
      ensures Started() && Counts(old(builder.Words()), old(builder.blocketteCount))
    {
      if builder.New() {
        var first := ring.Peek(0);
        builder.Start(first);
        ctabx := 0;
      }
    }

    /** Pack the next word; the result is the number of samples it took. */
    method CompressBlock() returns (used: nat)
      requires Valid() && (ringPresent ==> ring.peekTotal >= 1)
      modifies this`ctabx, this`lastSample, this`rec, ring, builder, builder.frameBuffer, diffs, sc
      ensures Valid() && (old(ringPresent) ==> !builder.New())
      ensures Counts(old(builder.Words()) + (if old(ringPresent) then 1 else 0), old(builder.blocketteCount))
      ensures !old(ringPresent) ==> used == 0 && rec == old(rec)
      ensures old(ringPresent) ==>
                used == Scan(NextEntry(old(rec.Last()), old(rec.pending))) && rec == PackOne(old(rec))
    {
      if !ringPresent {
        return 0;
      }
      Begin();
      used := PackIntoFrame();
    }

    /** Put one word with its code into the record. */
    method AddWord(code: int, word: word32)
      requires builder.Valid() && !builder.New() && 0 <= code <= 3
      modifies builder`frames, builder`frame, builder`block, builder`flagWord, builder`coded, builder.frameBuffer
      ensures builder.Valid() && !builder.New() && builder.coded == old(builder.coded) + Kept(code, word)
      ensures Counts(old(builder.Words()) + 1, old(builder.blocketteCount))
    {
      builder.StoreWord(code, word);
    }

    /** Pack the next word into the record begun. */
    method PackIntoFrame() returns (used: nat)
      requires Started()
      modifies this`ctabx, this`lastSample, this`rec, ring, builder, builder.frameBuffer, diffs, sc
      ensures Valid() && !builder.New() && Counts(old(builder.Words()) + 1, old(builder.blocketteCount))
      ensures used == Scan(NextEntry(old(rec.Last()), old(rec.pending))) && rec == PackOne(old(rec))
    {
      ghost var p := rec;
      var code, word;
      used, code, word := PackNext();
      AddWord(code, word);
      PackOneFacts(p);
      rec := PackOne(p);
    }

    /** Words were put into the record directly; x is the last sample they hold. */
    method Extended(x: int32, ghost p: Packer)
      requires Separate() && ring.Valid() && builder.Valid() && 0 <= ctabx <= LAST_ENTRY
      requires p.pending == ring.pending && x == p.Last() && p.out == builder.coded
      requires !builder.New() && p.packed != [] && builder.first == p.packed[0]
      modifies this`lastSample, this`rec
      ensures Valid() && rec == p && lastSample == x
    {
      lastSample := x;
      rec := p;
    }

    /** Hand over the current record and start the next one after its last sample. */
    method Finish() returns (fs: seq<Frame>)
      requires Valid() && !builder.New() && builder.block == 1
      modifies this`rec, builder
      ensures Valid() && Holds(fs, old(rec)) && rec == NextRecord(old(rec)) && builder.New() && builder.frame == 1
      ensures builder.blocketteCount == 0 && |fs| == old(builder.frame - builder.blocketteCount) - 1
    {
      fs := builder.Finish(lastSample);
      rec := NextRecord(rec);
    }
  }

  /** The history of a record about to be filled, after that of the one just finished. */
  function NextRecord(p: Packer): Packer {
    Packer(p.Last(), [], p.pending, [])
  }
}
