/**
 A channel whose data arrives already compressed: decompressing a blockette into the sample
 buffer, with the index of each word's first sample, and handing its words on one by one.
 */
module Precompressed {
  import opened Common
  import opened Steim
  import opened Blockette

  class ChannelQueue {
    var rate: int                      // capacity in samples of one blockette
    const databuf: array<int32>
    const idxbuf: array<nat>
    const unpacked: array<int>
    var prevSample: int32              // sample before the blockette, from its header
    var prevValue: int32               // last sample of the previous decompression
    var pmap: seq<nat>                 // map words from the map pointer on
    var pdata: seq<word32>             // data words from the data pointer on
    var mapidx: nat
    var curmap: nat
    var blocks: nat
    var blockIdx: nat
    ghost var words: seq<Coded>        // the blockette's words, as last decompressed
    ghost var samples: seq<int32>      // their samples
    ghost var cut: seq<nat>            // where each word's samples start, and where the last one's end

    ghost predicate Arrays() {
      unpacked.Length == 7
    }

    /** The coded words of the blockette. */
    ghost function Words(): (cs: seq<Coded>)
      reads this
      requires blocks <= |pdata| && (blocks > 0 ==> (mapidx / 2 + blocks - 1) / 8 < |pmap|)
      ensures |cs| == blocks
    {
      BlocketteWords(pmap, pdata, mapidx / 2, blocks)
    }

    /** Take a word's differences apart, last one first. */
    method Unpack(c: Coded)
      requires Arrays() && ValidCode(c)
      modifies unpacked
      ensures unpacked[..RowSamples(Subcode(c))] == WordDiffs(c)
    {
      var sub := Subcode(c);
      var samps, width := RowSamples(sub), RowWidth(sub);
      var accum: nat := c.word;
      var k := samps - 1;
      while k >= 0
        invariant -1 <= k < samps
        invariant k >= 0 ==> WordDiffs(c) == UnpackBits(accum, width, k + 1) + unpacked[k + 1..samps]
        invariant k < 0 ==> WordDiffs(c) == unpacked[..samps]
      {
        ghost var tail := unpacked[k + 1..samps];
        var work := Extend(Mask(accum, width), width);
        unpacked[k] := work;
        assert unpacked[k..samps] == [work] + tail;
        assert UnpackBits(accum, width, k + 1) == UnpackBits(Shr(accum, width), width, k) + [work];
        ConcatAssoc(UnpackBits(Shr(accum, width), width, k), [work], tail);
        if sub != 1 {
          accum := Shr(accum, width);
        }
        k := k - 1;
      }
    }

    /** Add a word's differences up into the sample buffer, as far as it has room. */
    method AddSamples(ptridx: nat, curval: int32, samps: nat) returns (p: nat, v: int32, fits: bool)
      requires Arrays() && samps <= 7 && ptridx <= databuf.Length && 0 <= rate <= databuf.Length && ptridx <= rate
      modifies databuf
      ensures ptridx <= p <= rate && (fits <==> ptridx + samps <= rate)
      ensures p == Min(ptridx + samps, rate)
      ensures databuf[..][..ptridx] == old(databuf[..][..ptridx])
      ensures databuf[..][ptridx..p] == Integrate(curval, unpacked[..p - ptridx])
      ensures fits ==> v == LastOf(curval, Integrate(curval, unpacked[..samps]))
    {
      p, v, fits := ptridx, curval, true;
      ghost var k := 0;
      while p - ptridx < samps && fits
        invariant ptridx <= p <= rate && p - ptridx <= samps
        invariant databuf[..ptridx] == old(databuf[..ptridx])
        invariant databuf[ptridx..p] == Integrate(curval, unpacked[..p - ptridx])
        invariant fits ==> v == LastOf(curval, Integrate(curval, unpacked[..p - ptridx]))
        invariant !fits ==> p == rate && p - ptridx < samps
        decreases fits, samps - (p - ptridx)
      {
        v := Wrap32(v + unpacked[p - ptridx]);
        if p >= rate {
          fits := false;
        } else {
          AddOne(p, ptridx, curval, v);
          p := p + 1;
        }
      }
    }

    method AddOne(p: nat, ghost from: nat, ghost start: int32, v: int32)
      requires from <= p < databuf.Length && p - from < 7 && Arrays()
      requires databuf[from..p] == Integrate(start, unpacked[..p - from])
      requires v == Wrap32(LastOf(start, Integrate(start, unpacked[..p - from])) + unpacked[p - from])
      modifies databuf
      ensures databuf[..from] == old(databuf[..from])
      ensures databuf[from..p + 1] == Integrate(start, unpacked[..p + 1 - from])
      ensures v == LastOf(start, Integrate(start, unpacked[..p + 1 - from]))
    {
      ghost var ds, front := unpacked[..p + 1 - from], databuf[from..p];
      assert ds[..p - from] == unpacked[..p - from];
      databuf[p] := v;
      assert databuf[from..p + 1] == front + [v];
    }

    /** Decode word m into the buffer; `room` tells whether all its samples fitted. */
    method DecodeWord(ghost ws: seq<Coded>, ghost m: nat, c: Coded, ptridx: nat, curval: int32)
      returns (p: nat, v: int32, room: bool)
      requires Arrays() && m < |ws| && c == ws[m] && ValidCode(c) && 0 <= rate <= databuf.Length && ptridx < rate
      requires Progress(ws, prevSample, m, ptridx, curval, databuf[..])
      modifies databuf, unpacked
      ensures room <==> Count(ws, m + 1) <= rate
      ensures room ==> Progress(ws, prevSample, m + 1, p, v, databuf[..])
      ensures p <= rate && (!room ==> p == rate)
      ensures p <= |StreamDiffs(ws[..m + 1])| && databuf[..][..p]
              == Integrate(prevSample, StreamDiffs(ws[..m + 1]))[..p]
    {
      var samps := RowSamples(Subcode(c));
      Unpack(c);
      ghost var buf := databuf[..];
      p, v, room := AddSamples(ptridx, curval, samps);
      assert unpacked[..p - ptridx] == WordDiffs(c)[..p - ptridx] && unpacked[..samps] == WordDiffs(c)[..samps];
      ProgressNext(ws, prevSample, m, ptridx, curval, buf, p, v, databuf[..], rate);
    }

    /** Where the decoder is in the map after m words. */
    ghost predicate AtMap(m: nat, midx: nat, at: nat, cur: nat)
      reads this`mapidx, this`pmap
    {
      && midx <= 14 && midx % 2 == 0 && mapidx % 2 == 0
      && at == (mapidx / 2 + m) / 8 && midx / 2 == (mapidx / 2 + m) % 8
      && at < |pmap| && cur == pmap[at]
    }

    method NextCode(ghost m: nat, midx: nat, at: nat, cur: nat) returns (midx': nat, at': nat, cur': nat)
      requires AtMap(m, midx, at, cur) && (mapidx / 2 + m + 1) / 8 < |pmap|
      ensures AtMap(m + 1, midx', at', cur')
    {
      midx', at', cur' := midx + 2, at, cur;
      if midx' > 14 {
        midx' := 0;
        at' := at + 1;
        cur' := pmap[at'];
      }
    }

    /** Word m with the code the map has for it. */
    method ReadCoded(m: nat, midx: nat, at: nat, cur: nat) returns (c: Coded)
      requires AtMap(m, midx, at, cur) && m < blocks <= |pdata| && (mapidx / 2 + blocks - 1) / 8 < |pmap|
      ensures c == Words()[m] && (Subcode(c) <= 6 <==> ValidCode(c))
    {
      c := Coded(ShiftedCode(cur, midx), pdata[m]);
      ShiftedCodeIsMapCode(cur, midx);
    }

    /** The first m words are decoded, indexed and accepted, and the map is read up to them. */
    ghost predicate Running(ws: seq<Coded>, m: nat, midx: nat, at: nat, cur: nat, ptridx: nat, curval: int32)
      reads this`mapidx, this`pmap, this`rate, this`prevSample, databuf, idxbuf
    {
      && AtMap(m, midx, at, cur) && Indexed(ws, m, idxbuf[..])
      && FitFrom(ws, rate, m) == FitFrom(ws, rate, 0)
      && Progress(ws, prevSample, m, ptridx, curval, databuf[..])
    }

    /** Sizes of the buffers and of the blockette. */
    ghost predicate Roomy()
      reads this
    {
      && Arrays() && rate <= databuf.Length && blocks < idxbuf.Length && blocks <= |pdata|
      && mapidx <= 14 && mapidx % 2 == 0 && (mapidx / 2 + blocks) / 8 < |pmap|
    }

    /** One round: decode word m, or refuse it. */
    method DecodeOne(ghost ws: seq<Coded>, m: nat, midx: nat, at: nat, cur: nat, ptridx: nat, curval: int32)
      returns (ok: bool, m': nat, midx': nat, at': nat, cur': nat, p: nat, v: int32)
      requires Roomy() && ws == Words() && m < blocks && ptridx < rate
      requires Running(ws, m, midx, at, cur, ptridx, curval)
      modifies databuf, idxbuf, unpacked
      ensures ok ==> m' == m + 1 && Running(ws, m', midx', at', cur', p, v) && p <= rate
      ensures !ok ==> m' <= blocks && Ended(ws, rate, prevSample, 0, m', p, v, databuf[..], idxbuf[..])
    {
      m', midx', at', cur', p, v := m, midx, at, cur, ptridx, curval;
      var c := ReadCoded(m, midx, at, cur);
      if Subcode(c) > 6 {
        StopInvalid(ws, rate, prevSample, m, ptridx, curval, databuf[..], idxbuf[..]);
        ok := false;
        return;
      }
      ghost var idx := idxbuf[..];
      idxbuf[m] := ptridx;
      assert idxbuf[..] == idx[m := ptridx];
      p, v, ok := DecodeWord(ws, m, c, ptridx, curval);
      m' := m + 1;
      if ok {
        midx', at', cur' := NextCode(m, midx, at, cur);
      } else {
        StopFull(ws, rate, prevSample, m, p, v, databuf[..], idxbuf[..]);
      }
    }

    /** Decode words until they are used up, the buffer is full, or a word is refused. */
    method DecodeWords() returns (left: nat, m: nat, ptridx: nat, curval: int32, cur: nat)
      requires Roomy()
      modifies databuf, idxbuf, unpacked
      ensures m <= blocks && Ended(Words(), rate, prevSample, left, m, ptridx, curval, databuf[..], idxbuf[..])
    {
      ghost var ws := Words();
      var dblocks: nat := blocks;
      var midx: nat, at: nat := mapidx, 0;
      left, m, ptridx, curval, cur := blocks, 0, 0, prevSample, pmap[at];
      while dblocks > 0 && ptridx < rate
        invariant m + dblocks == |ws| && left == blocks
        invariant Running(ws, m, midx, at, cur, ptridx, curval)
      {
        var ok: bool;
        ok, m, midx, at, cur, ptridx, curval := DecodeOne(ws, m, midx, at, cur, ptridx, curval);
        if !ok {
          left := 0;
          return;
        }
        dblocks := dblocks - 1;
      }
      StopDone(ws, rate, prevSample, m, ptridx, curval, databuf[..], idxbuf[..]);
    }

    /** Decompress the blockette into the sample buffer; the result is the number of samples. */
    method DecompressBlockette() returns (ptridx: nat)
      requires Roomy()
      modifies this`blocks, this`blockIdx, this`curmap, this`prevValue, this`words, databuf, idxbuf, unpacked
      ensures words == old(Words()) && blockIdx == 0
      ensures Outcome(words, rate, prevSample, blocks, ptridx, databuf[..])
      ensures Indexed(words, Reached(words, rate), idxbuf[..]) && idxbuf[Reached(words, rate)] == ptridx
      ensures Complete(words, rate) ==>
                Reached(words, rate) == |words| && prevValue == LastOf(prevSample, DecodeStream(prevSample, words))
    {
      words := Words();
      var left, m, curval, cur;
      left, m, ptridx, curval, cur := DecodeWords();
      ghost var idx := idxbuf[..];
      idxbuf[m] := ptridx;
      assert idxbuf[..] == idx[m := ptridx];
      blocks, prevValue, curmap, blockIdx := left, curval, cur, 0;
      assert words[..|words|] == words;
    }

    // ------------------------------------------- handing the words on

    /** The map from the current word on, including the map word already loaded. */
    ghost function MapAhead(): seq<nat>
      reads this`mapidx, this`curmap, this`pmap
    {
      if mapidx == 0 then pmap else [curmap] + pmap
    }

    /** The words from blockIdx on are still to be handed on. */
    ghost predicate Pointers()
      reads this
    {
      mapidx % 2 == 0 && Pointing(words, blockIdx, blocks, MapAhead(), pdata, mapidx / 2)
    }

    /** Sample buffer and index hold the samples, cut into one non-empty piece for each word. */
    ghost predicate Decoded()
      reads this`words, this`samples, this`cut, databuf, idxbuf
    {
      Cuts(words, samples, cut) && StartsWith(idxbuf[..], cut) && StartsWith(databuf[..], samples)
    }

    /** The samples are those the words decode to. */
    ghost predicate Meaning()
      reads this`words, this`samples, this`cut, this`prevSample
    {
      CutsMean(prevSample, words, samples, cut)
    }

    /** After a complete decompression that started on a map word, the words can be handed on. */
    method Decompress() returns (n: nat)
      requires Roomy() && rate >= 0 && mapidx == 0
      modifies this`blocks, this`blockIdx, this`curmap, this`prevValue, this`words, this`samples, this`cut,
               databuf, idxbuf, unpacked
      ensures words == old(Words()) && Outcome(words, rate, prevSample, blocks, n, databuf[..])
      ensures Complete(words, rate) ==>
                Pointers() && Decoded() && Meaning() && blockIdx == 0 && blocks == |words| && n == |samples|
    {
      n := DecompressBlockette();
      Note(n);
    }

    /** The words of a complete decompression that started on a map word are ready to be handed on. */
    ghost method Note(n: nat)
      requires rate >= 0 && mapidx == 0 && blockIdx == 0 && Outcome(words, rate, prevSample, blocks, n, databuf[..])
      requires |words| <= |pdata| && (|words| > 0 ==> (|words| - 1) / 8 < |pmap|)
               && words == BlocketteWords(pmap, pdata, 0, |words|)
      requires Complete(words, rate) ==>
                 |words| < idxbuf.Length && Indexed(words, |words|, idxbuf[..]) && idxbuf[|words|] == n
      modifies this`samples, this`cut
      ensures Complete(words, rate) ==> Pointers() && Decoded() && Meaning() && blocks == |words| && n == |samples|
    {
      samples, cut := DecodeStream(prevSample, words), CutOf(words);
      if Complete(words, rate) {
        Usable(words, rate, prevSample, blocks, n, databuf[..], idxbuf[..]);
        PointStart(words, pmap, pdata, blocks);
      }
    }

    /** Number of samples in the words handed on so far. */
    method Index() returns (n: nat)
      requires Decoded() && blockIdx <= |words|
      ensures n == cut[blockIdx]
    {
      assert idxbuf[blockIdx] == idxbuf[..][..|cut|][blockIdx];
      n := idxbuf[blockIdx];
    }

    /** First sample of the next word. */
    method FirstSample() returns (x: int32)
      requires Decoded() && blockIdx < |words|
      ensures x == samples[cut[blockIdx]]
    {
      var n := Index();
      assert databuf[n] == databuf[..][..|samples|][n];
      x := databuf[n];
    }

    /** Last sample of the words handed on so far. */
    method LastSample() returns (x: int32)
      requires Decoded() && 0 < blockIdx <= |words|
      ensures x == samples[cut[blockIdx] - 1]
    {
      var n := Index();
      assert databuf[n - 1] == databuf[..][..|samples|][n - 1];
      x := databuf[n - 1];
    }

    /** Hand on the next word with its code. */
    method TakeWord() returns (code: int, w: word32)
      requires Pointers() && blocks > 0
      modifies this`pmap, this`pdata, this`mapidx, this`curmap, this`blocks, this`blockIdx
      ensures Pointers() && blockIdx == old(blockIdx) + 1 && blocks == old(blocks) - 1
      ensures Coded(code, w) == words[old(blockIdx)] && 0 <= code <= 3
    {
      LoadMap();
      PointNext(words, blockIdx, blocks, [curmap] + pmap, pdata, mapidx / 2);
      ShiftedCodeIsMapCode(curmap, mapidx);
      code, w := ShiftedCode(curmap, mapidx), pdata[0];
      Advance();
    }

    /** The current map word is loaded. */
    ghost predicate MapLoaded()
      reads this
    {
      mapidx % 2 == 0 && Pointing(words, blockIdx, blocks, [curmap] + pmap, pdata, mapidx / 2)
    }

    /** Load the next map word if the current one is used up. */
    method LoadMap()
      requires Pointers() && blocks > 0
      modifies this`pmap, this`curmap
      ensures MapLoaded()
    {
      if mapidx == 0 {
        assert pmap == [pmap[0]] + pmap[1..];
        curmap, pmap := pmap[0], pmap[1..];
      }
    }

    method Advance()
      requires MapLoaded() && blocks > 0
      modifies this`pdata, this`mapidx, this`blocks, this`blockIdx
      ensures Pointers() && blockIdx == old(blockIdx) + 1 && blocks == old(blocks) - 1
    {
      ghost var maps := [curmap] + pmap;
      PointNext(words, blockIdx, blocks, maps, pdata, mapidx / 2);
      assert maps[1..] == pmap;
      mapidx := mapidx + 2;
      if mapidx > 14 {
        mapidx := 0;
      }
      blocks, blockIdx, pdata := blocks - 1, blockIdx + 1, pdata[1..];
    }
  }

  /** Samples cut into one non-empty piece for each word. */
  ghost predicate Cuts(words: seq<Coded>, samples: seq<int32>, cut: seq<nat>)
  {
    && |cut| == |words| + 1 && cut[0] == 0 && cut[|words|] == |samples|
    && forall i, j :: 0 <= i < j < |cut| ==> cut[i] < cut[j] <= |samples|
  }

  function CutOf(words: seq<Coded>): (cut: seq<nat>)
    ensures |cut| == |words| + 1
  {
    seq(|words| + 1, i requires 0 <= i <= |words| => Count(words, i))
  }

  ghost predicate CutsMean(prev: int32, words: seq<Coded>, samples: seq<int32>, cut: seq<nat>)
  {
    samples == DecodeStream(prev, words) && cut == CutOf(words)
  }

  predicate StartsWith<T(==)>(s: seq<T>, front: seq<T>) {
    |front| <= |s| && s[..|front|] == front
  }

  lemma {:induction false} PointStart(ws: seq<Coded>, maps: seq<nat>, data: seq<word32>, n: nat)
    requires n <= |data| && (n > 0 ==> (n - 1) / 8 < |maps|) && ws == BlocketteWords(maps, data, 0, n)
    ensures Pointing(ws, 0, n, maps, data, 0)
  {
    assert ws[0..] == ws;
  }

  /** What a complete decompression leaves behind. */
  lemma {:induction false} Usable(ws: seq<Coded>, rate: int, prev: int32, blocks: nat, n: nat, buf: seq<int32>,
                                  idx: seq<nat>)
    requires Outcome(ws, rate, prev, blocks, n, buf) && Complete(ws, rate) && rate >= 0
    requires |ws| < |idx| && Indexed(ws, |ws|, idx) && idx[|ws|] == n
    ensures var s, cut := DecodeStream(prev, ws), CutOf(ws);
            Cuts(ws, s, cut) && StartsWith(idx, cut) && StartsWith(buf, s) && n == |s| && blocks == |ws|
  {
    assert ws[..|ws|] == ws;
    CompleteIff(ws, rate);
    CutIndexed(ws, idx);
    CutsHold(prev, ws);
  }

  lemma {:induction false} CutIndexed(words: seq<Coded>, idx: seq<nat>)
    requires |words| < |idx| && Indexed(words, |words|, idx) && idx[|words|] == Count(words, |words|)
    ensures idx[..|words| + 1] == CutOf(words)
  {
  }

  /** A complete decompression cuts its samples properly. */
  lemma {:induction false} CutsHold(prev: int32, words: seq<Coded>)
    requires forall i :: 0 <= i < |words| ==> ValidCode(words[i])
    ensures Cuts(words, DecodeStream(prev, words), CutOf(words))
  {
    assert words[..|words|] == words;
    forall i, j | 0 <= i < j < |words| + 1
      ensures Count(words, i) < Count(words, j) <= |StreamDiffs(words)|
    {
      CountMonotone(words, i, j);
      CountMonotone(words, j, |words|);
    }
  }

  /** Index bookkeeping of the first m words: where each one's samples start. */
  ghost predicate Indexed(ws: seq<Coded>, m: nat, idx: seq<nat>)
  {
    m <= |ws| && m <= |idx| && forall i :: 0 <= i < m ==> idx[i] == Count(ws, i)
  }

  /** How a decompression ends: complete, with the buffer full at a word's end, with a bad subcode, or overfull. */
  ghost predicate Outcome(ws: seq<Coded>, rate: int, prev: int32, blocks: nat, n: nat, buf: seq<int32>)
  {
    var m := FitFrom(ws, rate, 0);
    && blocks == (if m == |ws| || Count(ws, m) >= rate then |ws| else 0)
    && n == (if m < |ws| && Count(ws, m) < rate && ValidCode(ws[m]) then rate else Count(ws, m))
    && n <= |StreamDiffs(ws)| && n <= |buf|
    && buf[..n] == DecodeStream(prev, ws)[..n]
  }

  lemma {:induction false} StreamPrefix(prev: int32, ws: seq<Coded>, m: nat, n: nat)
    requires m <= |ws| && n <= Count(ws, m)
    ensures n <= |StreamDiffs(ws)| && DecodeStream(prev, ws)[..n] == DecodeStream(prev, ws[..m])[..n]
  {
    assert ws == ws[..m] + ws[m..];
    StreamDiffsAppend(ws[..m], ws[m..]);
    IntegrateAppend(prev, StreamDiffs(ws[..m]), StreamDiffs(ws[m..]));
  }

  /** Number of words that a decompression looks at before it ends, not counting one with a bad subcode. */
  function Reached(ws: seq<Coded>, rate: int): (n: nat)
    ensures n <= |ws|
  {
    var m := FitFrom(ws, rate, 0);
    if m < |ws| && Count(ws, m) < rate && ValidCode(ws[m]) then m + 1 else m
  }

  /** The outcome with the index, and with all bookkeeping in place if the decompression was complete. */
  ghost predicate Ended(ws: seq<Coded>, rate: int, prev: int32, left: nat, m: nat, n: nat, curval: int32,
                        buf: seq<int32>, idx: seq<nat>)
  {
    && Outcome(ws, rate, prev, left, n, buf) && m == Reached(ws, rate) && Indexed(ws, m, idx)
    && (Complete(ws, rate) ==> m == |ws| && Indexed(ws, m, idx) && Progress(ws, prev, m, n, curval, buf))
  }

  lemma {:induction false} StopInvalid(ws: seq<Coded>, rate: int, prev: int32, m: nat, n: nat, curval: int32,
                    buf: seq<int32>, idx: seq<nat>)
    requires Progress(ws, prev, m, n, curval, buf) && m < |ws| && n < rate && !ValidCode(ws[m])
    requires FitFrom(ws, rate, m) == FitFrom(ws, rate, 0) && Indexed(ws, m, idx)
    ensures Ended(ws, rate, prev, 0, m, n, curval, buf, idx)
  {
    StreamPrefix(prev, ws, m, n);
  }

  lemma {:induction false} StopFull(ws: seq<Coded>, rate: int, prev: int32, m: nat, n: nat, curval: int32,
                                    buf: seq<int32>, idx: seq<nat>)
    requires m < |ws| && Count(ws, m) < rate == n < Count(ws, m + 1) && ValidCode(ws[m]) && n <= |buf|
    requires buf[..n] == DecodeStream(prev, ws[..m + 1])[..n]
    requires FitFrom(ws, rate, m) == FitFrom(ws, rate, 0) && Indexed(ws, m + 1, idx)
    ensures Ended(ws, rate, prev, 0, m + 1, n, curval, buf, idx)
  {
    StreamPrefix(prev, ws, m + 1, n);
  }

  lemma {:induction false} StopDone(ws: seq<Coded>, rate: int, prev: int32, m: nat, n: nat, curval: int32,
                                    buf: seq<int32>, idx: seq<nat>)
    requires Progress(ws, prev, m, n, curval, buf) && (m == |ws| || n >= rate) && Indexed(ws, m, idx)
    requires FitFrom(ws, rate, m) == FitFrom(ws, rate, 0)
    ensures Ended(ws, rate, prev, |ws|, m, n, curval, buf, idx)
  {
    StreamPrefix(prev, ws, m, n);
  }

  /** The first m words have been decoded into the buffer. */
  ghost predicate Progress(ws: seq<Coded>, prev: int32, m: nat, ptridx: nat, curval: int32, buf: seq<int32>)
  {
    && m <= |ws| && ptridx == Count(ws, m) <= |buf|
    && buf[..ptridx] == Integrate(prev, StreamDiffs(ws[..m]))
    && curval == LastOf(prev, buf[..ptridx])
  }

  /** One more word has been decoded, as far as the buffer goes. */
  lemma {:induction false} ProgressNext(ws: seq<Coded>, prev: int32, m: nat, ptridx: nat, curval: int32,
                                        buf: seq<int32>,
                     p: nat, v: int32, buf': seq<int32>, rate: int)
    requires Progress(ws, prev, m, ptridx, curval, buf) && m < |ws| && |buf'| == |buf| && ptridx <= rate <= |buf|
    requires p == Min(ptridx + RowSamples(Subcode(ws[m])), rate)
    requires buf'[..ptridx] == buf[..ptridx]
    requires buf'[ptridx..p] == Integrate(curval, WordDiffs(ws[m])[..p - ptridx])
    requires ptridx + RowSamples(Subcode(ws[m])) <= rate ==>
               v == LastOf(curval, Integrate(curval, WordDiffs(ws[m])[..RowSamples(Subcode(ws[m]))]))
    ensures Count(ws, m + 1) == ptridx + RowSamples(Subcode(ws[m]))
    ensures p <= |StreamDiffs(ws[..m + 1])| && buf'[..p] == Integrate(prev, StreamDiffs(ws[..m + 1]))[..p]
    ensures Count(ws, m + 1) <= rate ==> Progress(ws, prev, m + 1, p, v, buf')
  {
    CountNext(ws, m);
    JoinDecoded(prev, StreamDiffs(ws[..m]), WordDiffs(ws[m]), buf[..ptridx], buf'[ptridx..p]);
    assert buf'[..p] == buf'[..ptridx] + buf'[ptridx..p];
  }

  /** Decoding further differences after the first ones, cut off where the buffer ends. */
  lemma {:induction false} JoinDecoded(prev: int32, ds: seq<int>, es: seq<int>, front: seq<int32>, more: seq<int32>)
    requires front == Integrate(prev, ds) && |more| <= |es|
    requires more == Integrate(LastOf(prev, front), es[..|more|])
    ensures front + more == Integrate(prev, ds + es)[..|front| + |more|]
    ensures LastOf(prev, front + more) == LastOf(LastOf(prev, front), more)
  {
    IntegrateAppend(prev, ds, es);
    IntegratePrefix(LastOf(prev, front), es, |more|);
  }

  lemma {:induction false} IntegratePrefix(prev: int32, ds: seq<int>, n: nat)
    requires n <= |ds|
    ensures Integrate(prev, ds[..n]) == Integrate(prev, ds)[..n]
  {
    assert ds == ds[..n] + ds[n..];
    IntegrateAppend(prev, ds[..n], ds[n..]);
  }
}
