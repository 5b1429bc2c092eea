/** The forward byte stream that serves as the reference for the other readers. */
module InputStreams {
  import opened Sequences
  import opened Lines

  class InputStream {
    const content: seq<Byte>
    /** Whether a bulk call delivers everything it can; otherwise any nonempty part of it. */
    const greedy: bool
    var offset: nat

    ghost predicate Valid()
      reads this
    {
      offset <= |content|
    }

    function Remaining(): seq<Byte>
      requires offset <= |content|
      reads this
    {
      content[offset..]
    }

    constructor (content: seq<Byte>, greedy: bool)
      ensures Valid() && this.content == content && this.greedy == greedy && offset == 0
    {
      this.content, this.greedy, this.offset := content, greedy, 0;
    }

    /** The next byte, or -1 at end of file. */
    method Read() returns (b: int)
      requires Valid()
      modifies this
      ensures Valid()
      ensures old(Remaining()) == [] ==> b == -1 && offset == old(offset)
      ensures old(Remaining()) != [] ==> b == old(Remaining())[0] && offset == old(offset) + 1
    {
      if offset == |content| {
        return -1;
      }
      b := content[offset];
      offset := offset + 1;
    }

    /** How many bytes one bulk call asked for len bytes may deliver. */
    ghost predicate Deliverable(n: nat, len: nat)
      requires Valid()
      reads this
    {
      && n <= len && n <= |Remaining()|
      && (n == 0 ==> len == 0 || Remaining() == [])
      && (greedy ==> n == Min(len, |Remaining()|))
    }

    method ChooseLength(len: nat) returns (n: nat)
      requires Valid()
      ensures Deliverable(n, len)
    {
      var most := Min(len, |content| - offset);
      if greedy || most == 0 {
        return most;
      }
      n :| 1 <= n <= most;
    }

    /** A bulk read into buf[off..]; returns 0 only at end of file or when nothing is asked for. */
    method ReadInto(buf: array<Byte>, off: nat, len: nat) returns (n: nat)
      requires Valid() && off + len <= buf.Length
      modifies this, buf
      ensures Valid() && old(Deliverable(n, len))
      ensures offset == old(offset) + n
      ensures Placed(old(buf[..]), buf[..], off, n, content, old(offset))
    {
      n := ChooseLength(len);
      CopyBytes(content, offset, n, buf, off);
      offset := offset + n;
    }

    method Skip(len: nat) returns (n: nat)
      requires Valid()
      modifies this
      ensures Valid() && old(Deliverable(n, len))
      ensures offset == old(offset) + n
    {
      n := ChooseLength(len);
      offset := offset + n;
    }

    /** The next line with its newline; the empty line at end of file. */
    method ReadRawLine() returns (line: seq<Byte>)
      requires Valid()
      modifies this
      ensures Valid()
      ensures line == FirstLine(old(Remaining()))
      ensures offset == old(offset) + |line|
    {
      hide FirstLine;
      line := [];
      ghost var first := FirstLine(Remaining());
      while true
        invariant Valid() && offset == old(offset) + |line|
        invariant first == line + FirstLine(Remaining())
        decreases |content| - offset
      {
        ghost var rest := Remaining();
        var b := Read();
        if b == -1 {
          NothingFirst();
          break;
        }
        FirstLineStep(line, rest);
        assert Remaining() == rest[1..];
        line := line + [b];
        if b == NEWLINE {
          break;
        }
      }
    }
  }
}
