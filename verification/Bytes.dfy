/**
 Byte buffers written in place, as with memcpy, memmove and storeword: every write is a splice of
 the buffer's contents.
 */
module Bytes {
  import opened Common

  lemma {:induction false} SpliceOutside(s: seq<byte>, at: nat, b: seq<byte>, lo: nat, hi: nat)
    requires at + |b| <= |s| && lo <= hi <= |s| && (hi <= at || at + |b| <= lo)
    ensures Splice(s, at, b)[lo..hi] == s[lo..hi]
  {
  }

  lemma {:induction false} SpliceWithin(s: seq<byte>, at: nat, b: seq<byte>, lo: nat, hi: nat)
    requires lo <= at && at + |b| <= hi <= |s|
    ensures Splice(s, at, b)[lo..hi] == Splice(s[lo..hi], at - lo, b)
  {
  }

  /** Writing right after a piece extends it. */
  lemma {:induction false} SpliceAfter(s: seq<byte>, at: nat, b: seq<byte>, lo: nat)
    requires lo <= at && at + |b| <= |s|
    ensures Splice(s, at, b)[lo..at + |b|] == s[lo..at] + b
  {
  }

  lemma {:induction false} SliceOfSlice<T>(s: seq<T>, lo: nat, hi: nat, a: nat, b: nat)
    requires lo <= hi <= |s| && a <= b <= hi - lo
    ensures s[lo..hi][a..b] == s[lo + a..lo + b]
  {
    var front := s[..hi];
    assert s[lo..hi] == front[lo..] && s[lo + a..lo + b] == front[lo + a..lo + b];
  }

  /** memcpy between two buffers. */
  method CopyBytes(dst: array<byte>, to: nat, src: array<byte>, from: nat, n: nat)
    requires dst != src && to + n <= dst.Length && from + n <= src.Length
    modifies dst
    ensures dst[..] == Splice(old(dst[..]), to, src[..][from..from + n])
  {
    ghost var was := dst[..];
    forall i | 0 <= i < n {
      dst[to + i] := src[from + i];
    }
    assert dst[..] == Splice(was, to, src[..][from..from + n]);
  }

  /** memmove within one buffer: the source is read before anything is overwritten. */
  method MoveBytes(a: array<byte>, to: nat, from: nat, n: nat)
    requires to + n <= a.Length && from + n <= a.Length
    modifies a
    ensures a[..] == Splice(old(a[..]), to, old(a[..])[from..from + n])
  {
    ghost var was := a[..];
    forall i | 0 <= i < n {
      a[to + i] := a[from + i];
    }
    assert a[..] == Splice(was, to, was[from..from + n]);
  }

  /** Write a 16-bit big-endian field. */
  method StoreWord(a: array<byte>, at: nat, v: int)
    requires at + 2 <= a.Length
    modifies a
    ensures a[..] == Splice(old(a[..]), at, Word16(v))
  {
    ghost var was := a[..];
    a[at] := (v / 256) % 256;
    a[at + 1] := v % 256;
    assert a[..] == Splice(was, at, Word16(v));
  }

  method LoadWord(a: array<byte>, at: nat) returns (v: nat)
    requires at + 2 <= a.Length
    ensures v == Read16(a[..], at)
  {
    v := (a[at] as int) * 256 + a[at + 1] as int;
  }

  /** Fill a structure laid over the buffer. */
  method StoreBytes(a: array<byte>, at: nat, b: seq<byte>)
    requires at + |b| <= a.Length
    modifies a
    ensures a[..] == Splice(old(a[..]), at, b)
  {
    ghost var was := a[..];
    forall i | 0 <= i < |b| {
      a[at + i] := b[i];
    }
    assert a[..] == Splice(was, at, b);
  }

  /** Set every byte to zero. */
  method ZeroBytes(a: array<byte>)
    modifies a
    ensures a[..] == seq(a.Length, _ => 0)
  {
    forall i | 0 <= i < a.Length {
      a[i] := 0;
    }
    assert a[..] == seq(a.Length, _ => 0);
  }
}
