/**
 A record under construction: the frames already stored, the frame buffer being filled and
 the flag word collecting its 2-bit codes. Both the compressor and the repacking of already
 compressed words fill records through it.
 */
module FrameBuilder {
  import opened Common
  import opened Steim
  import opened Frames

  /** One more word in the frame being filled is one more compressed word, if its code is not 0. */
  lemma {:induction false} PushCoded(stored: seq<Coded>, cs: seq<int>, ws: seq<word32>, code: int, w: word32,
                                     cs': seq<int>, ws': seq<word32>)
    requires |cs| == |ws| && cs' == cs + [code] && ws' == ws + [w]
    ensures |cs'| == |ws'| && stored + CodedWords(cs', ws') == (stored + CodedWords(cs, ws)) + Kept(code, w)
  {
    assert cs'[..|cs|] == cs && ws'[..|ws|] == ws;
    ConcatAssoc(stored, CodedWords(cs, ws), Kept(code, w));
  }

  /** Shape of a record's stored frames and of the frame being filled. */
  ghost predicate LayoutOf(frames: seq<Frame>, block: nat, flag: nat, buf: seq<word32>)
  {
    && |buf| == 16 && block <= 16
    && (block == 0 ==> frames == [])
    && (if block <= 1 then flag == 0 else flag < ShlCodes(1, block - 1))
    && (frames != [] ==> FirstTwoUnused(Codes(frames[0][0], |frames[0]| - 1)))
    && (frames == [] && block >= 2 ==> FirstTwoUnused(Codes(flag, block - 1)))
  }

  /** The compressed words of a record, stored frames first. */
  ghost function CodedOf(frames: seq<Frame>, block: nat, flag: nat, buf: seq<word32>): seq<Coded>
    requires |buf| == 16 && block <= 16
  {
    FramesCoded(frames) + if block <= 1 then [] else CodedWords(Codes(flag, block - 1), buf[1..block])
  }

  ghost function FirstWordOf(frames: seq<Frame>, buf: seq<word32>): word32
    requires |buf| == 16
  {
    if frames != [] then frames[0][1] else buf[1]
  }

  /** Storing a word in a frame that still has room: `next` is the new flag word, `buf'` the new frame buffer. */
  lemma {:induction false} PushLayout(frames: seq<Frame>, block: nat, flag: nat, buf: seq<word32>, code: int, w: word32,
                                      next: nat, buf': seq<word32>)
    requires LayoutOf(frames, block, flag, buf) && 0 <= code <= 3 && 1 <= block <= 15 && (frames == [] ==> block >= 3)
    requires next == flag * 4 + code && buf' == buf[block := w]
    ensures LayoutOf(frames, block + 1, next, buf') && FirstWordOf(frames, buf') == FirstWordOf(frames, buf)
  {
    NextCodes(flag, block - 1, code, next);
    if frames == [] {
      StillUnused(Codes(next, block), Codes(flag, block - 1));
    }
  }

  lemma {:induction false} NextCodes(flag: nat, n: nat, code: int, next: nat)
    requires 0 <= code <= 3 && next == flag * 4 + code
    ensures Codes(next, n + 1) == Codes(flag, n) + [code]
    ensures flag < ShlCodes(1, n) ==> next < ShlCodes(1, n + 1)
  {
    CodesPush(flag, n, code);
  }

  lemma {:induction false} StillUnused(cs: seq<int>, front: seq<int>)
    requires front <= cs && FirstTwoUnused(front)
    ensures FirstTwoUnused(cs)
  {
  }

  lemma {:induction false} WordsOf(flag: nat, buf: seq<word32>, block: nat)
    requires |buf| == 16 && 1 <= block <= 16
    ensures block == 1 ==> CodedWords(Codes(flag, block - 1), buf[1..block]) == []
  {
  }

  lemma {:induction false} PushCodedOf(frames: seq<Frame>, block: nat, flag: nat, buf: seq<word32>, code: int,
                                       w: word32,
                                       next: nat, buf': seq<word32>)
    requires |buf| == 16 && 0 <= code <= 3 && 1 <= block <= 15 && next == flag * 4 + code && buf' == buf[block := w]
    ensures CodedOf(frames, block + 1, next, buf') == CodedOf(frames, block, flag, buf) + Kept(code, w)
  {
    NextCodes(flag, block - 1, code, next);
    WordsOf(flag, buf, block);
    PushCoded(FramesCoded(frames), Codes(flag, block - 1), buf[1..block], code, w, Codes(next, block),
              buf'[1..block + 1]);
  }

  /** Moving a full frame into the record. */
  lemma {:induction false} StoreLayout(frames: seq<Frame>, flag: nat, buf: seq<word32>, done: Frame, empty: seq<word32>)
    requires LayoutOf(frames, 16, flag, buf) && flag < TWO_32 && done == buf[0 := flag as word32] && |empty| == 16
    ensures LayoutOf(frames + [done], 1, 0, empty)
    ensures CodedOf(frames + [done], 1, 0, empty) == CodedOf(frames, 16, flag, buf)
    ensures FirstWordOf(frames + [done], empty) == FirstWordOf(frames, buf)
  {
    assert done[1..] == buf[1..16];
    assert (frames + [done])[..|frames|] == frames;
  }

  lemma {:induction false} FlagFull()
    ensures ShlCodes(1, 15) == TWO_30
  {
    assert ShlCodes(1, 5) == 1024;
    assert ShlCodes(1, 10) == 1048576;
  }

  /** A record that has only its first and last sample words holds no compressed words. */
  lemma {:induction false} EmptyRecord(buf: seq<word32>)
    requires |buf| == 16
    ensures LayoutOf([], 3, 0, buf) && CodedOf([], 3, 0, buf) == []
  {
    assert Codes(0, 2) == [0, 0];
    assert Codes(0, 2)[..1] == [0] && buf[1..3][..1] == [buf[1]];
    assert CodedWords([0], [buf[1]]) == [];
  }

  class FrameBuilder {
    var frames: seq<Frame>             // data frames stored in the current record
    var frame: nat                     // index of the next frame in the record
    var blocketteCount: nat
    var block: nat                     // next word of the frame buffer
    var flagWord: nat
    const frameBuffer: array<word32>
    ghost var coded: seq<Coded>        // compressed words of the record so far
    ghost var firstWord: word32        // its first sample as a word
    ghost var first: int32             // and as a number

    ghost predicate Shape()
      reads this, frameBuffer
    {
      && frame == blocketteCount + 1 + |frames| && LayoutOf(frames, block, flagWord, frameBuffer[..])
      && coded == CodedOf(frames, block, flagWord, frameBuffer[..])
    }

    /** A begun record whose frame buffer may just have become full. */
    ghost predicate Filling()
      reads this, frameBuffer
    {
      Shape() && !New() && FirstWordOf(frames, frameBuffer[..]) == firstWord && Wrap32(firstWord) == first
    }

    ghost predicate Valid()
      reads this, frameBuffer
    {
      && Shape() && block <= 15
      && (New() ==> coded == [])
      && (!New() ==> FirstWordOf(frames, frameBuffer[..]) == firstWord && Wrap32(firstWord) == first)
    }

    /** Nothing has been put in the record yet. */
    predicate New()
      reads this
    {
      frame == blocketteCount + 1 && block <= 1
    }

    /** Words of the record so far, those of its first and its last sample included and the flag words not. */
    function Words(): int
      reads this
    {
      if New() then 2 else 15 * |frames| + block - 1
    }

    constructor (blockettes: nat)
      ensures Valid() && New() && fresh(frameBuffer) && blocketteCount == blockettes && frame == blockettes + 1
    {
      flagWord, frames, frame, blocketteCount, block := 0, [], blockettes + 1, blockettes, 0;
      frameBuffer := new word32[16](_ => 0);
      coded, firstWord, first := [], 0, 0;
    }

    /** Begin the first frame of a record with its first sample; the last one is filled in later. */
    method Start(x: int32)
      requires Valid() && New()
      modifies this`block, this`flagWord, this`firstWord, this`first, frameBuffer
      ensures Valid() && !New() && block == 3 && coded == [] && first == x && Words() == old(Words())
    {
      frameBuffer[1] := x % TWO_32;
      frameBuffer[2] := 0;
      block := 3;
      flagWord := 0;
      firstWord, first := x % TWO_32, x;
      EmptyRecord(frameBuffer[..]);
    }

    /** Put one word with its code into the frame, storing the frame when it is full. */
    method StoreWord(code: int, w: word32)
      requires Valid() && !New() && 0 <= code <= 3
      modifies this`frames, this`frame, this`block, this`flagWord, this`coded, frameBuffer
      ensures Valid() && !New() && Words() == old(Words()) + 1
      ensures coded == old(coded) + Kept(code, w)
      ensures if old(block) == 15 then frame == old(frame) + 1 && block == 1
              else frame == old(frame) && block == old(block) + 1
    {
      PutWord(code, w);
      if block >= WORDS_PER_FRAME {
        StoreFrame();
      }
    }

    method PutWord(code: int, w: word32)
      requires Filling() && block <= 15 && 0 <= code <= 3
      modifies this`block, this`flagWord, this`coded, frameBuffer
      ensures Filling() && block == old(block) + 1
      ensures coded == old(coded) + Kept(code, w)
    {
      PutShape(code, w);
    }

    method PutShape(code: int, w: word32)
      requires Shape() && !New() && 1 <= block <= 15 && 0 <= code <= 3 && (frames == [] ==> block >= 3)
      modifies this`block, this`flagWord, this`coded, frameBuffer
      ensures Shape() && !New() && block == old(block) + 1
      ensures FirstWordOf(frames, frameBuffer[..]) == old(FirstWordOf(frames, frameBuffer[..]))
      ensures coded == old(coded) + Kept(code, w)
    {
      ghost var at, buf, flag := block, frameBuffer[..], flagWord;
      Push(code, w);
      PushLayout(frames, at, flag, buf, code, w, flagWord, frameBuffer[..]);
      PushCodedOf(frames, at, flag, buf, code, w, flagWord, frameBuffer[..]);
    }

    method Push(code: int, w: word32)
      requires block < frameBuffer.Length && 0 <= code <= 3
      modifies this`block, this`flagWord, this`coded, frameBuffer
      ensures block == old(block) + 1 && flagWord == old(flagWord) * 4 + code && coded == old(coded) + Kept(code, w)
      ensures frameBuffer[..] == old(frameBuffer[..])[old(block) := w]
    {
      flagWord := flagWord * 4 + code;
      coded := coded + Kept(code, w);
      frameBuffer[block] := w;
      block := block + 1;
    }

    /** Move the full frame buffer into the record. */
    method StoreFrame()
      requires Filling() && block == 16
      modifies this`frames, this`frame, this`block, this`flagWord, frameBuffer
      ensures Valid() && !New() && block == 1 && frame == old(frame) + 1
    {
      ghost var buf := frameBuffer[..];
      FlagFull();
      frameBuffer[0] := flagWord;
      assert frameBuffer[..] == buf[0 := flagWord as word32];
      StoreLayout(frames, flagWord, buf, frameBuffer[..], seq(16, _ => 0));
      frames := frames + [frameBuffer[..]];
      forall i | 0 <= i < 16 { frameBuffer[i] := 0; }
      assert frameBuffer[..] == seq(16, _ => 0);
      frame := frame + 1;
      block := 1;
      flagWord := 0;
    }

    /** Close a partly filled frame: the codes move up as if its unused words had code 0. */
    method CompletePartial()
      requires Valid() && !New() && block > 1
      modifies this`frames, this`frame, this`block, this`flagWord, frameBuffer
      ensures Valid() && !New() && block == 1 && frame == old(frame) + 1
    {
      PadLayout(frames, block, flagWord, frameBuffer[..]);
      flagWord := ShlCodes(flagWord, WORDS_PER_FRAME - block);
      block := WORDS_PER_FRAME;
      StoreFrame();
    }

    /** Fill in the last sample, hand over the record's frames and make room for the next record. */
    method Finish(last: int32) returns (fs: seq<Frame>)
      requires Valid() && !New() && block == 1
      modifies this
      ensures Valid() && New() && blocketteCount == 0 && frame == 1
      ensures fs == old(PatchLast(frames, last)) && FramesCoded(fs) == old(coded)
      ensures FirstTwoUnused(Codes(fs[0][0], 15)) && Wrap32(fs[0][1]) == old(first) && Wrap32(fs[0][2]) == last
    {
      PatchLastFacts(frames, last);
      FinishedCoded(frames, flagWord, frameBuffer[..]);
      fs := PatchLast(frames, last);
      Renew();
    }

    /** Make room for the next record. */
    method Renew()
      requires frameBuffer.Length == 16 && block == 1 && flagWord == 0
      modifies this`frames, this`frame, this`blocketteCount, this`coded
      ensures Valid() && New() && blocketteCount == 0 && frame == 1
    {
      frames, frame, blocketteCount := [], 1, 0;
      coded := [];
      FinishedCoded([], flagWord, frameBuffer[..]);
    }
  }

  /** The frames with the last sample in word 2 of the first one. */
  function PatchLast(frames: seq<Frame>, last: int32): (fs: seq<Frame>)
    requires frames != []
    ensures |fs| == |frames|
  {
    frames[0 := frames[0][2 := last % TWO_32]]
  }

  /** Filling in the last sample leaves the compressed words and the first sample alone. */
  lemma {:induction false} PatchLastFacts(frames: seq<Frame>, last: int32)
    requires frames != [] && FirstTwoUnused(Codes(frames[0][0], 15))
    ensures FramesCoded(PatchLast(frames, last)) == FramesCoded(frames)
    ensures var f := PatchLast(frames, last)[0];
            FirstTwoUnused(Codes(f[0], 15)) && f[1] == frames[0][1] && Wrap32(f[2]) == last
  {
    PatchFirstFrame(frames, 2, last % TWO_32);
  }

  /** With no frame begun, a record's words are those of its frames. */
  lemma {:induction false} FinishedCoded(frames: seq<Frame>, flag: nat, buf: seq<word32>)
    requires |buf| == 16
    ensures CodedOf(frames, 1, flag, buf) == FramesCoded(frames) && CodedOf([], 1, flag, buf) == []
  {
    assert FramesCoded(frames) + [] == FramesCoded(frames) && FramesCoded([]) == [];
  }

  lemma {:induction false} ShlBound(f: nat, m: nat, n: nat)
    requires f < ShlCodes(1, m)
    ensures ShlCodes(f, n) < ShlCodes(1, m + n)
  {
    if n > 0 {
      ShlBound(f, m, n - 1);
    }
  }

  lemma {:induction false} ShlKeepsCodes(flag: nat, m: nat, n: nat)
    ensures Codes(ShlCodes(flag, n), m + n)[..m] == Codes(flag, m)
  {
    if n > 0 {
      ShlKeepsCodes(flag, m, n - 1);
      CodesPush(ShlCodes(flag, n - 1), m + n - 1, 0);
    }
  }

  /** Closing a partly filled frame keeps the record's words. */
  lemma {:induction false} PadLayout(frames: seq<Frame>, block: nat, flag: nat, buf: seq<word32>)
    requires LayoutOf(frames, block, flag, buf) && 1 < block < 16
    ensures LayoutOf(frames, 16, ShlCodes(flag, 16 - block), buf)
    ensures CodedOf(frames, 16, ShlCodes(flag, 16 - block), buf) == CodedOf(frames, block, flag, buf)
  {
    ShlBound(flag, block - 1, 16 - block);
    PadWords(flag, block, buf);
    PadStart(frames, block, flag);
  }

  lemma {:induction false} PadWords(flag: nat, block: nat, buf: seq<word32>)
    requires |buf| == 16 && 1 < block < 16
    ensures CodedWords(Codes(ShlCodes(flag, 16 - block), 15), buf[1..16]) == CodedWords(Codes(flag, block - 1),
            buf[1..block])
  {
    ShlKeepsCodes(flag, block - 1, 16 - block);
    CodedWordsPad(flag, buf[1..block], buf[block..]);
    assert buf[1..block] + buf[block..] == buf[1..16];
  }

  lemma {:induction false} PadStart(frames: seq<Frame>, block: nat, flag: nat)
    requires 1 < block < 16 && (frames == [] ==> FirstTwoUnused(Codes(flag, block - 1)))
    ensures frames == [] ==> FirstTwoUnused(Codes(ShlCodes(flag, 16 - block), 15))
  {
    if frames == [] {
      ShlKeepsCodes(flag, block - 1, 16 - block);
      StillUnused(Codes(ShlCodes(flag, 16 - block), 15), Codes(flag, block - 1));
    }
  }
}
