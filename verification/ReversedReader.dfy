/** A reader that walks a byte source from its end, one lazily fetched block at a time. */
module ReversedReader {
  import opened Sequences
  import opened Lines

  /** The read callback: hands out the source from its end, in pieces of its own choosing. */
  class BackwardSource {
    var remaining: seq<Byte>

    constructor (content: seq<Byte>)
      ensures remaining == content
    {
      remaining := content;
    }

    /** Up to len bytes from the end of what is left; nothing only when nothing can be given. */
    method ReadBackward(len: nat) returns (chunk: seq<Byte>)
      modifies this
      ensures remaining + chunk == old(remaining) && |chunk| <= len
      ensures len > 0 && old(remaining) != [] ==> chunk != []
    {
      if len == 0 || remaining == [] {
        return [];
      }
      var most := Min(len, |remaining|);
      var n :| 1 <= n <= most;
      chunk := remaining[|remaining| - n..];
      remaining := remaining[..|remaining| - n];
    }
  }

  /**
   * What the reader takes from a region after the file callback: the region is as long as a block,
   * and the file is read from as far in front of pos as fits, n bytes of it. They land at the front
   * of the part meant for them, while the reader takes the last n bytes of the region.
   */
  function TakenFromFile(file: seq<Byte>, pos: nat, region: seq<Byte>, n: nat): seq<Byte>
    requires pos <= |file| && n <= |region| && n <= pos
  {
    var toRead := Min(|region|, pos);
    var at := |region| - toRead;
    (region[..at] + file[pos - toRead..pos - toRead + n] + region[at + n..])[|region| - n..]
  }

  /** That is the end of what is left of the file, whatever the bytes, exactly when the read was full. */
  lemma FullReadExactly(pos: nat, size: nat, n: nat)
    requires 0 < n <= size && n <= pos
    ensures (forall file: seq<Byte>, region: seq<Byte> :: |file| == pos && |region| == size ==>
               TakenFromFile(file, pos, region, n) == file[pos - n..])
       <==> n == Min(size, pos)
  {
    if n < Min(size, pos) {
      var file: seq<Byte>, region: seq<Byte> := seq(pos, i => 1), seq(size, i => 0);
      assert TakenFromFile(file, pos, region, n)[n - 1] == 0 && file[pos - n..][n - 1] == 1;
    }
  }

  /** One short read: of four bytes two are read, and two bytes that are not in the file are taken. */
  lemma ShortRead()
    ensures TakenFromFile([1, 2, 3, 4], 4, [0, 0, 0, 0], 2) == [0, 0]
  {
  }

  class Block {
    const data: seq<Byte>
    var next: Block?
    var prev: Block?

    constructor (data: seq<Byte>)
      ensures this.data == data && next == null && prev == null
    {
      this.data, next, prev := data, null, null;
    }
  }

  /** The text covered by blocks listed from the last one of the source to the first. */
  ghost function Joined(blocks: seq<Block>): seq<Byte> {
    if blocks == [] then [] else Joined(blocks[1..]) + blocks[0].data
  }

  lemma {:induction false} JoinedAppend(a: seq<Block>, b: seq<Block>)
    ensures Joined(a + b) == Joined(b) + Joined(a)
  {
    if a == [] {
      assert a + b == b;
    } else {
      assert (a + b)[1..] == a[1..] + b;
      JoinedAppend(a[1..], b);
    }
  }

  lemma JoinedFront(blocks: seq<Block>, k: nat)
    requires k < |blocks|
    ensures Joined(blocks[..k + 1]) == blocks[k].data + Joined(blocks[..k])
  {
    var front, block := blocks[..k], [blocks[k]];
    assert Joined(block) == Joined([]) + blocks[k].data == blocks[k].data;
    hide Joined;
    JoinedAppend(front, block);
    assert front + block == blocks[..k + 1];
  }

  lemma {:induction false} JoinedSplit(blocks: seq<Block>, k: nat)
    requires k < |blocks|
    ensures Joined(blocks) == Joined(blocks[k + 1..]) + Joined(blocks[..k + 1])
    ensures Joined(blocks[..k + 1]) == blocks[k].data + Joined(blocks[..k])
  {
    hide Joined;
    JoinedFront(blocks, k);
    var front, back := blocks[..k + 1], blocks[k + 1..];
    JoinedAppend(front, back);
    assert front + back == blocks;
  }

  /** reversed holds, last byte first, a whole line that ends at text[top - 1]. */
  ghost predicate IsReversedLine(text: seq<Byte>, top: int, reversed: seq<Byte>) {
    && |reversed| <= top <= |text|
    && (forall k :: 0 <= k < |reversed| ==> reversed[k] == text[top - 1 - k])
    && (forall k :: 0 < k < |reversed| ==> reversed[k] != NEWLINE)
    && (|reversed| == top || (reversed != [] && text[top - 1 - |reversed|] == NEWLINE))
  }

  class Reader {
    const src: BackwardSource
    const blockSize: nat
    var head: Block?
    var buf: Block?
    var bufptr: nat

    ghost const contents: seq<Byte>
    ghost var consumed: nat
    ghost var blocks: seq<Block>
    ghost var cur: nat
    ghost var Repr: set<object>

    /** Blocks are doubly linked in list order. */
    ghost predicate Linked()
      reads this`blocks, this`head, this`Repr, blocks
    {
      && this in Repr && src in Repr
      && (forall i {:trigger blocks[i]} :: 0 <= i < |blocks| ==> blocks[i] in Repr)
      && (forall i, j :: 0 <= i < j < |blocks| ==> blocks[i] != blocks[j])
      && (forall i {:trigger blocks[i].data} :: 0 <= i < |blocks| ==> blocks[i].data != [])
      && (forall i {:trigger blocks[i].next} :: 0 <= i < |blocks| ==>
            blocks[i].next == if i + 1 < |blocks| then blocks[i + 1] else null)
      && (forall i {:trigger blocks[i].prev} :: 0 <= i < |blocks| ==>
            blocks[i].prev == if i > 0 then blocks[i - 1] else null)
      && head == if blocks == [] then null else blocks[0]
    }

    /** What the source can still deliver; with a block size of 0 it delivers nothing. */
    ghost function Unfetched(): seq<Byte>
      reads src
    {
      if blockSize == 0 then [] else src.remaining
    }

    /** Number of bytes behind position ptr of block k. */
    ghost function Behind(k: nat, ptr: nat): int
      requires k <= |blocks|
      reads this`blocks
    {
      |Joined(blocks[..k])| + if k < |blocks| then |blocks[k].data| - ptr else 0
    }

    /** The list covers exactly the end of the content. */
    ghost predicate Fetched()
      reads this`blocks, this`head, this`Repr, src, blocks
    {
      Linked() && contents == Unfetched() + Joined(blocks)
    }

    ghost predicate Valid()
      reads this, src, blocks
    {
      && Fetched()
      && cur <= |blocks|
      && (cur < |blocks| ==> buf == blocks[cur] && bufptr <= |blocks[cur].data|)
      && (cur == |blocks| ==> buf == null && bufptr == 0 && Unfetched() == [] && consumed == |contents|)
      && consumed == Behind(cur, bufptr)
      && consumed <= |contents|
    }

    /** The part of the content that has not been read yet, or has been pushed back. */
    ghost function Ahead(): seq<Byte>
      requires consumed <= |contents|
      reads this`consumed
    {
      contents[..|contents| - consumed]
    }

    constructor (src: BackwardSource, blockSize: nat)
      modifies src
      ensures Valid() && fresh(Repr - {src}) && this.src == src
      ensures contents == (if blockSize == 0 then [] else old(src.remaining))
      ensures consumed == 0
    {
      this.src, this.blockSize := src, blockSize;
      contents := if blockSize == 0 then [] else src.remaining;
      blocks, Repr := [], {this, src};
      head := null;
      new;
      var first := FetchBlock();
      if first != null {
        blocks, Repr, head := [first], Repr + {first}, first;
        assert Joined([first]) == first.data;
      }
      hide Valid, Behind;
      MoveTo(first, if first != null then |first.data| else 0, 0);
      NothingBehind();
    }

    lemma NothingBehind()
      ensures 0 < |blocks| ==> Behind(0, |blocks[0].data|) == 0
      ensures blocks == [] ==> Behind(0, 0) == 0
    {
    }

    method FetchBlock() returns (block: Block?)
      modifies src
      ensures block == null ==> old(Unfetched()) == [] && Unfetched() == []
      ensures block != null ==> fresh(block) && block.next == null && block.prev == null
      ensures block != null ==> block.data != [] && Unfetched() + block.data == old(Unfetched())
    {
      var chunk := src.ReadBackward(blockSize);
      if chunk == [] {
        return null;
      }
      block := new Block(chunk);
    }

    /** Hangs a new block behind the last one. */
    method Link(block: Block, nxt: Block)
      requires Linked() && blocks != [] && block == blocks[|blocks| - 1]
      requires nxt !in blocks && nxt.data != [] && nxt.next == null
      modifies this`blocks, this`Repr, block`next, nxt`prev
      ensures Linked() && blocks == old(blocks) + [nxt] && Repr == old(Repr) + {nxt}
    {
      block.next := nxt;
      nxt.prev := block;
      blocks, Repr := blocks + [nxt], Repr + {nxt};
    }

    /** Fetches a block and hangs it behind the last one; changes nothing at the start of the source. */
    method FetchNext(block: Block) returns (nxt: Block?)
      requires Fetched() && blocks != [] && block == blocks[|blocks| - 1]
      modifies this`blocks, this`Repr, src, block`next
      ensures Fetched() && fresh(Repr - old(Repr))
      ensures nxt == null ==> blocks == old(blocks) && Unfetched() == []
      ensures nxt != null ==> blocks == old(blocks) + [nxt]
    {
      ghost var was, listed := Unfetched(), Joined(blocks);
      nxt := FetchBlock();
      if nxt != null {
        JoinedAppend(blocks, [nxt]);
        assert Joined([nxt]) == nxt.data;
        Link(block, nxt);
        assert was + listed == Unfetched() + (nxt.data + listed);
      }
    }

    /** The block after the given one: the linked one, else a newly fetched one. */
    method Next(block: Block) returns (nxt: Block?)
      requires Fetched() && cur < |blocks| && block == blocks[cur]
      modifies this`blocks, this`Repr, src, block`next
      ensures Fetched() && fresh(Repr - old(Repr))
      ensures cur < |blocks| && blocks[..cur + 1] == old(blocks[..cur + 1])
      ensures nxt == null ==> cur + 1 == |blocks| && Unfetched() == []
      ensures nxt != null ==> cur + 1 < |blocks| && nxt == blocks[cur + 1]
    {
      nxt := block.next;
      if nxt == null {
        nxt := FetchNext(block);
      }
    }

    /** The start of a block is the end of the block after it. */
    lemma Boundary(k: nat)
      requires Fetched() && k < |blocks|
      ensures k + 1 < |blocks| ==> Behind(k, 0) == Behind(k + 1, |blocks[k + 1].data|)
      ensures k + 1 == |blocks| ==> Behind(k, 0) == Behind(k + 1, 0) == |contents| - |Unfetched()|
    {
      JoinedSplit(blocks, k);
      if k + 1 == |blocks| {
        assert blocks[..k + 1] == blocks;
      }
    }

    /** Puts the read position at offset ptr of block number k, or behind all blocks. */
    method MoveTo(block: Block?, ptr: nat, ghost k: nat)
      requires Fetched() && k <= |blocks|
      requires k < |blocks| ==> block == blocks[k] && ptr <= |blocks[k].data|
      requires k == |blocks| ==> block == null && ptr == 0 && Unfetched() == []
      modifies this`buf, this`bufptr, this`cur, this`consumed
      ensures Valid() && buf == block && bufptr == ptr && cur == k
      ensures consumed == Behind(k, ptr)
    {
      hide Linked;
      buf, bufptr, cur, consumed := block, ptr, k, Behind(k, ptr);
      if k < |blocks| {
        JoinedSplit(blocks, k);
      } else {
        assert blocks[..k] == blocks;
      }
    }

    /** Makes the next block current. */
    method Advance()
      requires Valid() && cur < |blocks| && bufptr == 0
      modifies this`blocks, this`Repr, this`buf, this`bufptr, this`cur, this`consumed, src, buf
      ensures Valid() && fresh(Repr - old(Repr)) && consumed == old(consumed)
      ensures cur == old(cur) + 1 && (buf != null ==> bufptr > 0)
    {
      assert blocks[..cur + 1][..cur] == blocks[..cur] && blocks[..cur + 1][cur] == blocks[cur];
      var nxt := Next(buf);
      assert blocks[..cur + 1][..cur] == blocks[..cur] && blocks[..cur + 1][cur] == blocks[cur];
      Boundary(cur);
      MoveTo(nxt, if nxt != null then |nxt.data| else 0, cur + 1);
    }

    /** The current block shows the content right before the read position. */
    lemma Window()
      requires Valid() && cur < |blocks|
      ensures bufptr <= |contents| - consumed
      ensures forall j :: 0 <= j < bufptr ==>
                blocks[cur].data[j] == contents[|contents| - consumed - bufptr + j]
    {
      JoinedSplit(blocks, cur);
    }

    /** Takes the byte before the read position out of the current block. */
    method LastOfBlock() returns (b: Byte)
      requires Valid() && cur < |blocks| && bufptr > 0
      modifies this`bufptr, this`consumed
      ensures Valid() && consumed == old(consumed) + 1
      ensures b == contents[|contents| - old(consumed) - 1]
    {
      Window();
      bufptr := bufptr - 1;
      consumed := consumed + 1;
      b := buf.data[bufptr];
    }

    /** Reads the next byte backward; -1 at the start of the source. */
    method Read() returns (b: int)
      requires Valid()
      modifies Repr
      ensures Valid() && fresh(Repr - old(Repr))
      ensures old(consumed) == |contents| ==> b == -1 && consumed == old(consumed)
      ensures old(consumed) < |contents| ==>
                b == contents[|contents| - 1 - old(consumed)] && consumed == old(consumed) + 1
    {
      while buf != null
        invariant Valid() && fresh(Repr - old(Repr)) && consumed == old(consumed)
        decreases if buf == null then 0 else if bufptr > 0 then 1 else 2
      {
        if bufptr > 0 {
          b := LastOfBlock();
          return;
        } else {
          Advance();
        }
      }
      b := -1;
    }

    /** Copies the n bytes before the read position from the current block to out[..end]. */
    method CopyFromBlock(out: array<Byte>, end: nat, n: nat)
      requires Valid() && cur < |blocks| && n <= bufptr && n <= end <= out.Length
      modifies this`bufptr, this`consumed, out
      ensures Valid() && consumed == old(consumed) + n
      ensures bufptr == old(bufptr) - n
      ensures Placed(old(out[..]), out[..], end - n, n, contents, |contents| - consumed)
    {
      Window();
      CopyBytes(buf.data, bufptr - n, n, out, end - n);
      bufptr := bufptr - n;
      consumed := consumed + n;
    }

    /** One turn of the bulk read: copies from the current block, or moves on when that is used up. */
    method ReadSome(out: array<Byte>, end: nat, len: nat) returns (n: nat)
      requires Valid() && buf != null && 0 < len <= end <= out.Length
      modifies Repr, out
      ensures Valid() && fresh(Repr - old(Repr))
      ensures n <= len && consumed == old(consumed) + n <= |contents|
      ensures n == 0 ==> old(bufptr) == 0 && (buf == null || bufptr > 0)
      ensures buf == null ==> consumed == |contents|
      ensures Placed(old(out[..]), out[..], end - n, n, contents, |contents| - consumed)
    {
      n := Min(bufptr, len);
      if n > 0 {
        CopyFromBlock(out, end, n);
      } else {
        Advance();
      }
    }

    /** One turn, in front of the bytes that earlier turns have placed. */
    method ReadInFront(ghost before: seq<Byte>, out: array<Byte>, end: nat, len: nat, ghost done: nat) returns (n: nat)
      requires Valid() && buf != null && 0 < len <= end <= out.Length
      requires Placed(before, out[..], end, done, contents, |contents| - consumed)
      modifies Repr, out
      ensures Valid() && fresh(Repr - old(Repr))
      ensures n <= len && consumed == old(consumed) + n <= |contents|
      ensures n == 0 ==> old(bufptr) == 0 && (buf == null || bufptr > 0)
      ensures buf == null ==> consumed == |contents|
      ensures Placed(before, out[..], end - n, done + n, contents, |contents| - consumed)
    {
      hide Valid, Placed;
      ghost var mid, from := out[..], |contents| - consumed;
      n := ReadSome(out, end, len);
      PlacedInFront(before, mid, out[..], end, done, n, contents, from);
    }

    /** Reads up to len bytes backward so that they end at out[end - 1]; returns 0 at end of file. */
    method ReadInto(out: array<Byte>, end: nat, len: nat) returns (total: nat)
      requires Valid() && len <= end <= out.Length
      modifies Repr, out
      ensures Valid() && fresh(Repr - old(Repr))
      ensures total == Min(len, |contents| - old(consumed)) && consumed == old(consumed) + total
      ensures Placed(old(out[..]), out[..], end - total, total, contents, |contents| - consumed)
    {
      total := 0;
      assert consumed <= |contents| && (buf == null ==> consumed == |contents|);
      ghost var before := out[..];
      PlacedNothing(before, end, contents, |contents| - consumed);
      hide Valid, Placed;
      while buf != null && total < len
        invariant Valid() && fresh(Repr - old(Repr))
        invariant total <= len && consumed == old(consumed) + total <= |contents|
        invariant buf == null ==> consumed == |contents|
        invariant Placed(before, out[..], end - total, total, contents, |contents| - consumed)
        decreases len - total, if buf == null then 0 else if bufptr > 0 then 1 else 2
      {
        var n := ReadInFront(before, out, end - total, len - total, total);
        total := total + n;
      }
    }

    /** The position at the far end of all blocks, from which rejecting starts at end of file. */
    method FindTail() returns (tail: Block, ghost k: nat)
      requires Valid() && head != null
      ensures k + 1 == |blocks| && tail == blocks[|blocks| - 1]
    {
      tail, k := head, 0;
      while tail.next != null
        invariant k < |blocks| && tail == blocks[k]
        decreases |blocks| - k
      {
        tail := tail.next;
        k := k + 1;
      }
    }

    /** Anything at all has been fetched exactly when there is content. */
    lemma NothingFetched()
      requires Valid()
      ensures contents == [] <==> blocks == []
    {
      if blocks != [] {
        JoinedSplit(blocks, 0);
      }
    }

    /** The position n bytes back from a position, or null when there are fewer than n behind it. */
    method RewindFrom(block: Block, ptr: nat, ghost from: nat, n: nat)
      returns (rewind: Block?, rewindptr: nat, ghost k: nat)
      requires Fetched() && from < |blocks| && block == blocks[from] && ptr <= |block.data|
      ensures rewind != null <==> n <= Behind(from, ptr)
      ensures rewind != null ==> k < |blocks| && rewind == blocks[k] && rewindptr <= |rewind.data|
      ensures rewind != null ==> Behind(k, rewindptr) == Behind(from, ptr) - n
    {
      hide Fetched, Behind;
      rewind, rewindptr, k := block, ptr, from;
      ghost var behind := Behind(from, ptr);
      var left: nat := n;
      while left > 0 && rewind != null
        invariant left <= n
        invariant rewind != null ==> k < |blocks| && rewind == blocks[k] && rewindptr <= |rewind.data|
        invariant rewind != null ==> Behind(k, rewindptr) == behind - (n - left)
        invariant rewind == null ==> left > 0 && behind == n - left
        decreases left, rewind != null, k
      {
        var toReject := Min(|rewind.data| - rewindptr, left);
        BehindLess(k, rewindptr, toReject);
        if toReject > 0 {
          rewindptr := rewindptr + toReject;
          left := left - toReject;
        } else {
          PrevOf(k);
          rewind := rewind.prev;
          if rewind != null {
            Boundary(k - 1);
            k := k - 1;
            rewindptr := 0;
          }
        }
      }
      if rewind != null {
        BehindLess(k, rewindptr, 0);
      }
    }

    /** The position n bytes back, or null when fewer than n bytes have been read. */
    method Rewind(n: nat) returns (rewind: Block?, rewindptr: nat, ghost k: nat)
      requires Valid()
      ensures rewind != null <==> blocks != [] && n <= consumed
      ensures rewind != null ==> k < |blocks| && rewind == blocks[k] && rewindptr <= |rewind.data|
      ensures rewind != null ==> Behind(k, rewindptr) == consumed - n
    {
      rewind, rewindptr, k := buf, bufptr, cur;
      if rewind == null && head != null {
        rewind, k := FindTail();
        rewindptr := 0;
        Boundary(k);
      }
      if rewind != null {
        rewind, rewindptr, k := RewindFrom(rewind, rewindptr, k, n);
      }
    }

    lemma BehindLess(k: nat, ptr: nat, n: nat)
      requires k < |blocks| && ptr + n <= |blocks[k].data|
      ensures Behind(k, ptr + n) == Behind(k, ptr) - n
      ensures 0 <= Behind(k, ptr + n)
    {
    }

    lemma PrevOf(k: nat)
      requires Fetched() && k < |blocks|
      ensures blocks[k].prev == if k == 0 then null else blocks[k - 1]
      ensures k == 0 ==> Behind(k, |blocks[k].data|) == 0
    {
    }

    /** Pushes the last n bytes read back; refuses, changing nothing, when fewer have been read. */
    method Reject(n: nat) returns (ok: bool)
      requires Valid()
      modifies this`buf, this`bufptr, this`cur, this`consumed
      ensures Valid()
      ensures ok <==> contents != [] && n <= old(consumed)
      ensures consumed == old(consumed) - if ok then n else 0
      ensures !ok ==> buf == old(buf) && bufptr == old(bufptr)
    {
      NothingFetched();
      var rewind, rewindptr, k := Rewind(n);
      if rewind != null {
        MoveTo(rewind, rewindptr, k);
      }
      ok := rewind != null;
    }

    /** Shows up to len bytes before the read position without consuming them. */
    method LookAheadInto(out: array<Byte>, end: nat, len: nat) returns (n: nat)
      requires Valid() && len <= end <= out.Length
      modifies Repr, out
      ensures Valid() && fresh(Repr - old(Repr)) && consumed == old(consumed)
      ensures n == Min(len, |contents| - consumed)
      ensures Placed(old(out[..]), out[..], end - n, n, contents, |contents| - consumed - n)
    {
      n := ReadInto(out, end, len);
      var ok := Reject(n);
    }

    /** Shows the next byte backward without consuming it; -1 at end of file. */
    method LookAhead() returns (b: int)
      requires Valid()
      modifies Repr
      ensures Valid() && fresh(Repr - old(Repr)) && consumed == old(consumed)
      ensures b == if consumed == |contents| then -1 else contents[|contents| - 1 - consumed]
    {
      b := Read();
      if b != -1 {
        var ok := Reject(1);
      }
    }

    /** Reads the next byte of a line; the newline of the previous line is left unread. */
    method ReadOfLine(column: nat) returns (b: int)
      requires Valid()
      modifies Repr
      ensures Valid() && fresh(Repr - old(Repr))
      ensures var p := |contents| - old(consumed);
              if p == 0 || (column > 0 && contents[p - 1] == NEWLINE) then b == -1 && consumed == old(consumed)
              else b == contents[p - 1] && consumed == old(consumed) + 1
    {
      b := Read();
      if b == NEWLINE && column > 0 {
        var ok := Reject(1);
        b := -1;
      }
    }

    /** Reads up to the newline of the previous line; the bytes come last to first. */
    method ReadReversedLine() returns (reversed: seq<Byte>)
      requires Valid()
      modifies Repr
      ensures Valid() && fresh(Repr - old(Repr))
      ensures consumed == old(consumed) + |reversed| <= |contents|
      ensures IsReversedLine(contents, |contents| - old(consumed), reversed)
    {
      assert consumed <= |contents|;
      hide Valid;
      reversed := [];
      ghost var top := |contents| - consumed;
      while true
        invariant Valid() && fresh(Repr - old(Repr))
        invariant consumed == old(consumed) + |reversed| && |reversed| <= top
        invariant forall k :: 0 <= k < |reversed| ==> reversed[k] == contents[top - 1 - k]
        invariant forall k :: 0 < k < |reversed| ==> reversed[k] != NEWLINE
        decreases top - |reversed|
      {
        var b := ReadOfLine(|reversed|);
        if b == -1 {
          break;
        }
        reversed := reversed + [b];
      }
    }

    static lemma LineFromReversed(text: seq<Byte>, top: nat, reversed: seq<Byte>)
      requires IsReversedLine(text, top, reversed)
      ensures Reverse(reversed) == LastLine(text[..top])
      ensures text[..top][..top - |reversed|] == text[..top - |reversed|]
    {
      ReversedIsLastLine(text[..top], reversed);
    }

    /** Reads the line that ends at the read position; the empty line at end of file. */
    method ReadRawLine() returns (line: seq<Byte>)
      requires Valid()
      modifies Repr
      ensures Valid() && fresh(Repr - old(Repr))
      ensures line == LastLine(old(Ahead()))
      ensures consumed == old(consumed) + |line| <= |contents|
      ensures Ahead() == old(Ahead())[..|old(Ahead())| - |line|]
    {
      ghost var top := |contents| - consumed;
      hide Valid, LastLine;
      var reversed := ReadReversedLine();
      LineFromReversed(contents, top, reversed);
      line := Reverse(reversed);
    }

    /** lines are the first of all lines from the end, and rest is the text of the others. */
    static ghost predicate Cut(all: seq<seq<Byte>>, lines: seq<seq<Byte>>, rest: seq<Byte>) {
      all == lines + BackwardLines(rest)
    }

    static lemma {:induction false} CutNone(s: seq<Byte>)
      ensures Cut(BackwardLines(s), [], s)
    {
    }

    static lemma {:induction false} CutOne(all: seq<seq<Byte>>, lines: seq<seq<Byte>>, s: seq<Byte>, line: seq<Byte>)
      requires s != [] && Cut(all, lines, s) && line == LastLine(s)
      ensures Cut(all, lines + [line], s[..|s| - |line|])
    {
      var others := BackwardLines(s[..|s| - |line|]);
      assert BackwardLines(s) == [line] + others;
      hide *;
      assert lines + ([line] + others) == lines + [line] + others;
    }

    /** One turn: reads one more line and appends it; false when there is none. */
    method AppendLine(lines: seq<seq<Byte>>, ghost all: seq<seq<Byte>>) returns (more: bool, r: seq<seq<Byte>>)
      requires Valid() && consumed <= |contents| && Cut(all, lines, Ahead())
      modifies Repr
      ensures Valid() && fresh(Repr - old(Repr)) && consumed <= |contents|
      ensures Cut(all, r, Ahead()) && |r| == |lines| + if more then 1 else 0
      ensures if more then consumed > old(consumed) else Ahead() == []
    {
      ghost var ahead := Ahead();
      hide Valid, Cut, LastLine, BackwardLines;
      var line := ReadRawLine();
      if line == [] {
        return false, lines;
      }
      CutOne(all, lines, ahead, line);
      more, r := true, lines + [line];
    }

    /** Reads lines from the end: all of them for -1, else at most maxLines. */
    method ReadRawLines(maxLines: int) returns (lines: seq<seq<Byte>>)
      requires Valid()
      modifies Repr
      ensures Valid() && fresh(Repr - old(Repr)) && consumed <= |contents|
      ensures Cut(BackwardLines(old(Ahead())), lines, Ahead())
      ensures maxLines == -1 ==> Ahead() == []
      ensures maxLines != -1 && Ahead() != [] ==> |lines| == if maxLines < 0 then 0 else maxLines
      ensures 0 <= maxLines ==> |lines| <= maxLines
    {
      assert consumed <= |contents|;
      ghost var all := BackwardLines(Ahead());
      CutNone(Ahead());
      hide *;
      lines := [];
      var more := true;
      while more && (maxLines == -1 || |lines| < maxLines)
        invariant Valid() && fresh(Repr - old(Repr)) && consumed <= |contents|
        invariant Cut(all, lines, Ahead()) && (more || Ahead() == [])
        invariant maxLines != -1 ==> |lines| <= if maxLines < 0 then 0 else maxLines
        decreases |contents| - consumed, more
      {
        more, lines := AppendLine(lines, all);
      }
    }

    static lemma {:induction false} TailOfLines(ahead: seq<Byte>, rest: seq<Byte>, backward: seq<seq<Byte>>, limit: nat)
      requires Cut(BackwardLines(ahead), backward, rest)
      requires |backward| <= limit && (rest != [] ==> |backward| == limit)
      ensures var all := ForwardLines(ahead);
              Reverse(backward) == all[|all| - Min(limit, |all|)..]
    {
      assert BackwardLines([]) == [];
      BackwardIsForwardReversed(ahead);
      ReverseAppend(backward, BackwardLines(rest));
      hide BackwardLines, ForwardLines, Reverse;
    }

    /** The tail of the file: its last maxLines lines in file order, 1000 of them for a negative limit. */
    method ReadLastLines(maxLines: int) returns (lines: seq<seq<Byte>>)
      requires Valid()
      modifies Repr
      ensures Valid() && fresh(Repr - old(Repr))
      ensures var all := ForwardLines(old(Ahead()));
              var limit := if maxLines < 0 then 1000 else maxLines;
              lines == all[|all| - Min(limit, |all|)..]
    {
      assert consumed <= |contents|;
      hide BackwardLines, ForwardLines, Valid;
      var limit := if maxLines < 0 then 1000 else maxLines;
      ghost var ahead := Ahead();
      var backward := ReadRawLines(limit);
      TailOfLines(ahead, Ahead(), backward, limit);
      lines := Reverse(backward);
    }
  }
}
