/** A byte stream with a look-ahead window over an underlying stream. */
module LookAhead {
  import opened Sequences
  import opened InputStreams

  const BLOCK_CAPACITY := 4096

  ghost predicate IsPowerOfTwo(n: nat) {
    n == 1 || (n > 1 && n % 2 == 0 && IsPowerOfTwo(n / 2))
  }

  function Power(k: nat): nat {
    if k == 0 then 1 else 2 * Power(k - 1)
  }

  /** The powers of two are the numbers that doubling one reaches. */
  lemma {:induction false} PowersExactly(n: nat)
    ensures IsPowerOfTwo(n) <==> exists k :: n == Power(k)
  {
    if n == 1 {
      assert n == Power(0);
    } else if n > 1 {
      PowersExactly(n / 2);
      if k: nat :| n == Power(k) {
        assert n == 2 * Power(k - 1) && n / 2 == Power(k - 1);
      }
      if k: nat :| n % 2 == 0 && n / 2 == Power(k) {
        assert n == 2 * Power(k) == Power(k + 1);
      }
    } else {
      forall k: nat
        ensures Power(k) > 0
      {
        PowerPositive(k);
      }
    }
  }

  lemma {:induction false} PowerPositive(k: nat)
    ensures Power(k) > 0
  {
    if k > 0 {
      PowerPositive(k - 1);
    }
  }

  /** Any power of two that reaches v is at least power, when power is one and half of it is too small. */
  lemma {:induction false} LeastPower(power: nat, v: nat, other: nat)
    requires IsPowerOfTwo(power) && IsPowerOfTwo(other)
    requires power == 1 || power / 2 < v
    requires v <= other
    ensures power <= other
  {
    if power > 1 && other > 1 {
      LeastPower(power / 2, (v + 1) / 2, other / 2);
    }
  }

  /** The least power of two that is at least v. */
  method AlignToNextPowerOfTwo(v: nat) returns (power: nat)
    ensures IsPowerOfTwo(power) && v <= power
    ensures forall other :: IsPowerOfTwo(other) && v <= other ==> power <= other
  {
    power := 1;
    while power < v
      invariant IsPowerOfTwo(power)
      invariant power == 1 || power / 2 < v
      decreases v - power
    {
      power := power * 2;
    }
    forall other | IsPowerOfTwo(other) && v <= other
      ensures power <= other
    {
      LeastPower(power, v, other);
    }
  }

  class LookAheadStream {
    const source: InputStream
    const unlimited: bool
    var buffer: array<Byte>
    var pos: nat
    var limit: nat
    var position: nat

    /** What the source still had to give when this stream was put on top of it, and from where. */
    ghost const content: seq<Byte>
    ghost const start: nat

    /**
     * With p bytes of the content consumed, the window shows the content from p - pos on,
     * and the source continues right behind the window.
     */
    ghost predicate WindowAt(p: int)
      reads this`buffer, this`pos, this`limit, source, buffer
    {
      && source.Valid()
      && start <= |source.content| && content == source.content[start..]
      && pos <= limit <= buffer.Length
      && 0 < buffer.Length
      && pos <= p
      && source.offset == start + p - pos + limit
      && (forall k :: 0 <= k < limit ==> buffer[k] == content[p - pos + k])
      && (unlimited ==> IsPowerOfTwo(buffer.Length) && BLOCK_CAPACITY <= buffer.Length)
    }

    ghost predicate Valid()
      reads this, source, buffer
    {
      WindowAt(position)
    }

    /** Offset in the content of the oldest byte that can still be given back. */
    ghost function Base(): int
      reads this`pos, this`position
    {
      position - pos
    }

    function Unread(): int
      reads this`pos, this`limit
    {
      limit - pos
    }

    constructor (source: InputStream, capacity: nat)
      requires source.Valid()
      ensures Valid() && fresh(buffer) && this.source == source
      ensures content == source.Remaining() && position == 0 && Base() == 0
      ensures unlimited == (capacity == 0)
      ensures buffer.Length == if capacity == 0 then BLOCK_CAPACITY else capacity
    {
      this.source := source;
      content, start := source.Remaining(), source.offset;
      unlimited := capacity == 0;
      pos, limit, position := 0, 0, 0;
      buffer := new Byte[if capacity == 0 then BLOCK_CAPACITY else capacity];
      new;
      assert IsPowerOfTwo(1) && IsPowerOfTwo(8) && IsPowerOfTwo(64) && IsPowerOfTwo(512) && IsPowerOfTwo(4096);
    }

    /** Moves the unread bytes to the front of a limited buffer. */
    method Compact(ghost p: int)
      requires WindowAt(p)
      modifies this`pos, this`limit, buffer
      ensures WindowAt(p)
      ensures Unread() == old(Unread())
      ensures pos == if unlimited then old(pos) else 0
    {
      if unlimited {
        return;
      }
      if pos > 0 {
        var del := pos;
        forall k | 0 <= k < limit - del {
          buffer[k] := buffer[k + del];
        }
        limit := limit - del;
        pos := pos - del;
      }
    }

    /** Grows an unlimited buffer to the least power of two that holds capacity bytes. */
    method ExpandCapacity(capacity: nat, ghost p: int)
      requires WindowAt(p)
      modifies this`buffer
      ensures WindowAt(p)
      ensures buffer == old(buffer) || fresh(buffer)
      ensures !unlimited || capacity <= old(buffer.Length) ==> buffer == old(buffer)
      ensures unlimited && old(buffer.Length) < capacity ==>
                && capacity <= buffer.Length
                && forall other :: IsPowerOfTwo(other) && capacity <= other ==> buffer.Length <= other
    {
      if unlimited {
        var aligned := AlignToNextPowerOfTwo(capacity);
        if aligned > buffer.Length {
          var small := buffer;
          buffer := new Byte[aligned](k requires 0 <= k < aligned reads small =>
            if k < small.Length then small[k] else 0);
        }
      }
    }

    /** How many bytes the window can show at once when asked for len. */
    ghost function Room(len: nat): nat
      reads this`buffer
    {
      if unlimited then len else Min(len, buffer.Length)
    }

    /** Whether a request for len bytes has to drop what could be rejected to make room for them. */
    ghost predicate Compacts(at: nat, len: nat)
      reads this`buffer
    {
      !unlimited && buffer.Length < at + len
    }

    /** Appends up to toRead bytes of the source to the window. */
    method Fill(toRead: nat, ghost p: int) returns (n: nat)
      requires WindowAt(p) && limit + toRead <= buffer.Length
      modifies this`limit, source, buffer
      ensures WindowAt(p)
      ensures n <= toRead && limit == old(limit) + n && n <= |content| - p - old(Unread())
      ensures 0 < toRead && p + old(Unread()) < |content| ==> 0 < n
      ensures source.greedy ==> n == Min(toRead, |content| - p - old(Unread()))
    {
      if toRead == 1 {
        var b := source.Read();
        if b < 0 {
          return 0;
        }
        buffer[limit] := b;
        n := 1;
      } else {
        n := source.ReadInto(buffer, limit, toRead);
      }
      limit := limit + n;
    }

    /**
     * Adds bytes to the window until it shows len of them, as far as the source and the buffer allow.
     * A single-byte fill reports success even when it leaves the window short of len bytes: that
     * happens exactly when a limited buffer has room for one more byte only and the source has it.
     */
    method Prefetch(len: nat, ghost p: int) returns (full: bool)
      requires WindowAt(p)
      modifies this`buffer, this`pos, this`limit, source, buffer
      ensures WindowAt(p)
      ensures buffer == old(buffer) || (unlimited && fresh(buffer))
      ensures old(Unread()) <= Unread() <= |content| - p
      ensures Unread() <= old(Unread()) || Unread() <= len
      ensures 0 < len && p < |content| ==> 0 < Unread()
      ensures source.greedy && old(Unread()) <= len ==> Unread() == Min(Room(len), |content| - p)
      ensures pos == if Compacts(old(pos), len) then 0 else old(pos)
      ensures len <= Unread() ==> full
      ensures full && Unread() < len
         <==> !unlimited && old(Unread()) + 1 == buffer.Length < len && p + old(Unread()) < |content|
    {
      ExpandCapacity(pos + len, p);
      var unread := limit - pos;
      if unread >= len {
        return true;
      }
      if len > buffer.Length - pos {
        Compact(p);
      }
      var toRead := Min(len - unread, buffer.Length - limit);
      var n := Fill(toRead, p);
      full := if toRead == 1 then n == 1 else limit - pos >= len;
    }

    /** The next byte, or -1 at end of file. A byte just read can always be rejected. */
    method Read() returns (b: int)
      requires Valid()
      modifies this, source, buffer
      ensures Valid() && (buffer == old(buffer) || fresh(buffer))
      ensures old(position) == |content| ==> b == -1 && position == old(position)
      ensures old(position) < |content| ==>
                b == content[old(position)] && position == old(position) + 1 && Base() < position
      ensures Base() == if Compacts(old(pos), 1) then old(position) else old(Base())
    {
      var full := Prefetch(1, position);
      if !full {
        return -1;
      }
      b := buffer[pos];
      pos := pos + 1;
      position := position + 1;
    }

    /** Copies the next n bytes of the window. */
    method Show(out: array<Byte>, off: nat, n: nat, ghost p: int)
      requires WindowAt(p) && n <= Unread() && off + n <= out.Length && out != buffer
      modifies out
      ensures WindowAt(p) && p + n <= |content|
      ensures Placed(old(out[..]), out[..], off, n, content, p)
    {
      CopyBytes(buffer[..limit], pos, n, out, off);
    }

    /** Copies the next n bytes of the window and moves on behind them. */
    method Deliver(out: array<Byte>, off: nat, n: nat, ghost p: int)
      requires WindowAt(p) && n <= Unread() && off + n <= out.Length && out != buffer
      modifies this`pos, out
      ensures WindowAt(p + n) && pos == old(pos) + n && p + n <= |content|
      ensures Placed(old(out[..]), out[..], off, n, content, p)
    {
      Show(out, off, n, p);
      pos := pos + n;
    }

    /** One turn of the bulk read: refills the window and copies what it shows, nothing only at end of file. */
    method ReadSome(out: array<Byte>, off: nat, len: nat, ghost p: int) returns (n: nat)
      requires WindowAt(p) && off + len <= out.Length && out != buffer && 0 < len
      modifies this`buffer, this`pos, this`limit, source, buffer, out
      ensures WindowAt(p + n) && (buffer == old(buffer) || fresh(buffer))
      ensures n <= len && n <= |content| - p
      ensures n == 0 ==> p == |content|
      ensures Placed(old(out[..]), out[..], off, n, content, p)
      ensures !unlimited ==> buffer == old(buffer)
      ensures pos == n + if Compacts(old(pos), len) then 0 else old(pos)
    {
      assert p <= |content|;
      hide WindowAt, Placed;
      var full := Prefetch(len, p);
      n := Min(len, Unread());
      Deliver(out, off, n, p);
    }

    /** One turn, behind the bytes that earlier turns have placed. */
    method ReadBehind(ghost before: seq<Byte>, out: array<Byte>, off: nat, len: nat, ghost done: nat, ghost p: int)
      returns (n: nat)
      requires WindowAt(p) && off + len <= out.Length && out != buffer && 0 < len
      requires Placed(before, out[..], off - done, done, content, p - done)
      modifies this`buffer, this`pos, this`limit, source, buffer, out
      ensures WindowAt(p + n) && (buffer == old(buffer) || fresh(buffer))
      ensures n <= len && n <= |content| - p
      ensures n == 0 ==> p == |content|
      ensures Placed(before, out[..], off - done, done + n, content, p - done)
      ensures !unlimited ==> buffer == old(buffer)
      ensures pos == n + if Compacts(old(pos), len) then 0 else old(pos)
    {
      hide WindowAt, Placed;
      ghost var mid := out[..];
      n := ReadSome(out, off, len, p);
      PlacedBehind(before, mid, out[..], off - done, done, n, content, p - done);
    }

    /** The loop of the bulk read. */
    method ReadAll(out: array<Byte>, off: nat, len: nat, ghost p: int) returns (total: nat)
      requires WindowAt(p) && off + len <= out.Length && out != buffer && p <= |content|
      modifies this`buffer, this`pos, this`limit, source, buffer, out
      ensures WindowAt(p + total) && (buffer == old(buffer) || fresh(buffer))
      ensures total <= len && p + total <= |content| && (total == len || p + total == |content|)
      ensures Placed(old(out[..]), out[..], off, total, content, p)
      ensures !unlimited ==> buffer == old(buffer)
      ensures !Compacts(old(pos), len) ==> pos == old(pos) + total
      ensures Compacts(old(pos), len) ==> pos <= total && (len <= buffer.Length ==> pos == total)
    {
      total := 0;
      ghost var before := out[..];
      assert 0 <= p;
      PlacedNothing(before, off, content, p);
      hide WindowAt, Placed;
      while total < len
        invariant WindowAt(p + total) && (buffer == old(buffer) || fresh(buffer))
        invariant !unlimited ==> buffer == old(buffer)
        invariant total <= len && p + total <= |content|
        invariant Placed(before, out[..], off, total, content, p)
        invariant !Compacts(old(pos), len) ==> pos == old(pos) + total
        invariant Compacts(old(pos), len) ==>
                    (total == 0 && pos == old(pos)) || (pos <= total && (len <= buffer.Length ==> pos == total))
      {
        var n := ReadBehind(before, out, off + total, len - total, total, p + total);
        if n == 0 {
          break;
        }
        total := total + n;
      }
    }

    /** Reads exactly min(len, remaining) bytes into out[off..], however small the buffer is. */
    method ReadInto(out: array<Byte>, off: nat, len: nat) returns (total: nat)
      requires Valid() && off + len <= out.Length && out != buffer
      modifies this, source, buffer, out
      ensures Valid() && (buffer == old(buffer) || fresh(buffer))
      ensures total == Min(len, |content| - old(position)) && position == old(position) + total
      ensures Placed(old(out[..]), out[..], off, total, content, old(position))
      ensures !Compacts(old(pos), len) ==> Base() == old(Base())
      ensures Compacts(old(pos), len) ==>
                old(position) <= Base() && (len <= buffer.Length ==> Base() == old(position))
    {
      total := ReadAll(out, off, len, position);
      position := position + total;
    }

    /** The next byte without consuming it, or -1 at end of file. */
    method LookAhead() returns (b: int)
      requires Valid()
      modifies this`buffer, this`pos, this`limit, source, buffer
      ensures Valid() && (buffer == old(buffer) || fresh(buffer))
      ensures b == if position == |content| then -1 else content[position]
      ensures Base() == if Compacts(old(pos), 1) then position else old(Base())
    {
      var full := Prefetch(1, position);
      if !full {
        return -1;
      }
      b := buffer[pos];
    }

    /** Shows up to len of the next bytes without consuming them. */
    method LookAheadInto(out: array<Byte>, off: nat, len: nat) returns (n: nat)
      requires Valid() && off + len <= out.Length && out != buffer
      modifies this`buffer, this`pos, this`limit, source, buffer, out
      ensures Valid() && (buffer == old(buffer) || fresh(buffer))
      ensures n <= len && n <= |content| - position
      ensures n == 0 ==> len == 0 || position == |content|
      ensures source.greedy ==> n == Min(Room(len), |content| - position)
      ensures Placed(old(out[..]), out[..], off, n, content, position)
      ensures Base() == if Compacts(old(pos), len) then position else old(Base())
    {
      var full := Prefetch(len, position);
      n := Min(len, Unread());
      Show(out, off, n, position);
    }

    /** Moves forward; a skip past the window drops the window and with it all that could be rejected. */
    method Skip(len: int) returns (skipped: int)
      requires Valid()
      modifies this`pos, this`limit, this`position, source
      ensures Valid()
      ensures 0 <= skipped && position == old(position) + skipped
      ensures skipped <= if len < 0 then 0 else len
      ensures source.greedy && 0 < len ==> skipped == Min(len, |content| - old(position))
      ensures len <= old(Unread()) ==> Base() == old(Base()) && skipped == if len < 0 then 0 else len
      ensures old(Unread()) < len && 0 < len ==> Base() == position && old(Unread()) <= skipped
    {
      if len <= 0 {
        return 0;
      }
      var unread := limit - pos;
      if unread >= len {
        pos := pos + len;
        position := position + len;
        return len;
      }
      pos, limit := 0, 0;
      position := position + unread;
      var n := source.Skip(len - unread);
      position := position + n;
      skipped := unread + n;
    }

    /** Moves back; refuses, changing nothing, when the bytes are no longer in the window. */
    method Reject(len: int) returns (ok: bool)
      requires Valid()
      modifies this`pos, this`position
      ensures Valid()
      ensures ok <==> 0 <= len <= old(position) - old(Base())
      ensures position == old(position) - (if ok then len else 0) && Base() == old(Base())
    {
      if len < 0 || len > pos {
        return false;
      }
      pos := pos - len;
      position := position - len;
      ok := true;
    }
  }

  /** One unread byte in a buffer of two, and three asked for: the answer is yes, but two are there. */
  method ShortPrefetch() returns (full: bool, shown: int)
    ensures full && shown == 2
  {
    var source := new InputStream([1, 2, 3], true);
    var stream := new LookAheadStream(source, 2);
    var one := stream.Prefetch(1, 0);
    assert stream.Unread() == 1;
    full := stream.Prefetch(3, 0);
    shown := stream.Unread();
  }
}
