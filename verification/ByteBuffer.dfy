/**
 A growable buffer with a write position: writing overwrites what is there and extends the buffer as needed.
 */
module ByteBuffer {
  import opened Common

  /** `s` with `b` written at `at`, longer than before if `b` reaches beyond its end. */
  function Overwrite(s: seq<byte>, at: nat, b: seq<byte>): (r: seq<byte>)
    requires at <= |s|
    ensures |r| == Max(|s|, at + |b|)
  {
    s[..at] + b + if at + |b| < |s| then s[at + |b|..] else []
  }

  class ByteBuffer {
    var content: array<byte>           // its length is the capacity
    var length: nat
    var offset: nat
    ghost var data: seq<byte>

    ghost predicate Valid()
      reads this, content
    {
      length <= content.Length && offset <= length && data == content[..length]
    }

    constructor ()
      ensures Valid() && data == [] && offset == 0 && fresh(content)
    {
      content := new byte[0];
      length, offset, data := 0, 0, [];
    }

    /** Move the write position; one beyond the end is refused, leaving it as it was, and 0 is returned. */
    method Seek(at: nat) returns (newOffset: nat)
      requires Valid()
      modifies this`offset
      ensures Valid() && offset == (if at <= |data| then at else old(offset)) && newOffset == if at <= |data| then at
              else 0
    {
      newOffset := 0;
      if at <= length {
        newOffset, offset := at, at;
      }
    }

    /** Write at the write position and move it behind what was written; the result is the number of bytes. */
    method Write(src: seq<byte>) returns (written: nat)
      requires Valid()
      modifies this, content
      ensures Valid() && data == Overwrite(old(data), old(offset), src) && offset == old(offset) + |src|
              && written == |src|
      ensures content == old(content) || fresh(content)
    {
      written := |src|;
      if |src| == 0 {
        assert data == Overwrite(data, offset, src);
        return;
      }
      var newLength := offset + |src|;
      if newLength < length {
        newLength := length;
      }
      if newLength > content.Length {
        Grow(newLength);
      }
      Put(src);
      length := newLength;
      data := Overwrite(data, offset, src);
      assert content[..length] == data;
      offset := offset + |src|;
    }

    /** Move to a larger block of memory. */
    method Grow(capacity: nat)
      requires Valid() && capacity > content.Length
      modifies this`content
      ensures Valid() && fresh(content) && content.Length == capacity
    {
      var bigger := new byte[capacity](_ => 0);
      forall i | 0 <= i < length {
        bigger[i] := content[i];
      }
      assert bigger[..length] == content[..length];
      content := bigger;
    }

    method Put(src: seq<byte>)
      requires offset + |src| <= content.Length
      modifies content
      ensures content[..] == Splice(old(content[..]), offset, src)
    {
      ghost var was := content[..];
      forall i | 0 <= i < |src| {
        content[offset + i] := src[i];
      }
      assert content[..] == Splice(was, offset, src);
    }

    /** Write a terminating zero byte. */
    method Terminate()
      requires Valid()
      modifies this, content
      ensures Valid() && data == Overwrite(old(data), old(offset), [0]) && offset == old(offset) + 1
      ensures content == old(content) || fresh(content)
    {
      var n := Write([0]);
    }

    /** Hand over the bytes and leave the buffer empty. */
    method Detach() returns (bytes: array<byte>)
      requires Valid()
      modifies this
      ensures Valid() && data == [] && bytes == old(content) && fresh(content)
    {
      bytes := content;
      content := new byte[0];
      length, offset, data := 0, 0, [];
    }
  }
}
