/** The chain buffer: a linked list of fixed-size blocks that behaves as one byte sequence. */
module ChainBuffer {
  import opened Text

  const BLOCK_SIZE: nat := 4096

  class Block {
    const data: array<char>
    var readIdx: nat
    var writeIdx: nat
    var next: Block?

    constructor ()
      ensures fresh(data) && Ok()
      ensures readIdx == 0 && writeIdx == 0 && next == null
    {
      data := new char[BLOCK_SIZE](_ => '\0');
      readIdx, writeIdx, next := 0, 0, null;
    }

    ghost predicate Ok()
      reads this
    {
      readIdx <= writeIdx <= data.Length == BLOCK_SIZE
    }

    function Bytes(): (s: string)
      requires Ok()
      reads this, data
      ensures |s| == writeIdx - readIdx
    {
      data[readIdx..writeIdx]
    }

    function Writable(): (n: nat)
      requires Ok()
      reads this
    {
      data.Length - writeIdx
    }

    ghost function Free(): (s: string)
      requires Ok()
      reads this, data
      ensures |s| == Writable()
    {
      data[writeIdx..]
    }

    method Reset()
      modifies this`readIdx, this`writeIdx
      ensures readIdx == 0 && writeIdx == 0
    {
      readIdx, writeIdx := 0, 0;
    }

    /** Copy `src` into the free space; nothing becomes readable yet. */
    method Fill(src: string)
      requires Ok() && |src| <= Writable()
      modifies data
      ensures Bytes() == old(Bytes())
      ensures Free() == src + old(Free())[|src|..]
    {
      forall k | 0 <= k < |src| {
        data[writeIdx + k] := src[k];
      }
    }

    /** Make the first `n` bytes of the free space readable. */
    method Commit(n: nat)
      requires Ok() && n <= Writable()
      modifies this`writeIdx
      ensures Ok() && Bytes() == old(Bytes() + Free()[..n])
    {
      writeIdx := writeIdx + n;
    }

    method Consume(n: nat)
      requires Ok() && n <= |Bytes()|
      modifies this`readIdx
      ensures Ok() && Bytes() == old(Bytes())[n..]
    {
      readIdx := readIdx + n;
    }
  }

  // ---- joining the views of the blocks ----

  predicate EmptyFrom(views: seq<string>, lo: nat, hi: nat) {
    hi <= |views| && forall i :: lo <= i < hi ==> views[i] == ""
  }

  lemma {:induction false} FlattenEmpty(views: seq<string>)
    requires EmptyFrom(views, 0, |views|)
    ensures Flatten(views) == ""
  {
    if views != [] {
      FlattenEmpty(views[1..]);
    }
  }

  lemma {:induction false} FlattenSplit(a: seq<string>, b: seq<string>)
    ensures Flatten(a + b) == Flatten(a) + Flatten(b)
  {
    if a == [] {
      assert a + b == b;
    } else {
      assert (a + b)[1..] == a[1..] + b;
      FlattenSplit(a[1..], b);
    }
  }

  /** The bytes from block `i` on, one block at a time. */
  lemma FlattenFrom(views: seq<string>, i: nat)
    requires i < |views|
    ensures Flatten(views[i..]) == views[i] + Flatten(views[i + 1..])
  {
    assert views[i..][1..] == views[i + 1..];
  }

  lemma FlattenAt(views: seq<string>, i: nat)
    requires i < |views|
    ensures Flatten(views) == Flatten(views[..i]) + views[i] + Flatten(views[i + 1..])
  {
    assert views == views[..i] + views[i..];
    FlattenSplit(views[..i], views[i..]);
    FlattenFrom(views, i);
  }

  /** Writing to a block that is followed by empty ones appends to the whole. */
  lemma FlattenWrite(views: seq<string>, w: nat, src: string)
    requires w < |views| && EmptyFrom(views, w + 1, |views|)
    ensures Flatten(views[w := views[w] + src]) == Flatten(views) + src
  {
    var after := views[w := views[w] + src];
    FlattenAt(views, w);
    FlattenAt(after, w);
    assert after[..w] == views[..w] && after[w + 1..] == views[w + 1..];
    FlattenEmpty(views[w + 1..]);
  }

  /** Reading from a block that is preceded by empty ones drops a prefix of the whole. */
  lemma FlattenRead(views: seq<string>, r: nat, n: nat)
    requires r < |views| && EmptyFrom(views, 0, r) && n <= |views[r]|
    ensures |Flatten(views)| >= n
    ensures Flatten(views[r := views[r][n..]]) == Flatten(views)[n..]
  {
    var after := views[r := views[r][n..]];
    FlattenAt(views, r);
    FlattenAt(after, r);
    assert after[..r] == views[..r] && after[r + 1..] == views[r + 1..];
    FlattenEmpty(views[..r]);
  }

  /** `result` lacks only the first `n` bytes of `rest` to be `goal`. */
  predicate Lacks(result: string, rest: string, n: nat, goal: string) {
    n <= |rest| && result + rest[..n] == goal
  }

  /** Taking up to `n` bytes off the next block. */
  lemma TakeBlock(result: string, block: string, rest: string, n: nat, goal: string)
    requires Lacks(result, block + rest, n, goal)
    ensures var m := if n <= |block| then n else |block|;
            Lacks(result + block[..m], rest, n - m, goal)
  {
    var m := if n <= |block| then n else |block|;
    assert (block + rest)[..n] == block[..m] + rest[..n - m];
  }

  lemma LacksAll(rest: string, n: nat, goal: string)
    requires n <= |rest| && goal == rest[..n]
    ensures Lacks("", rest, n, goal)
  {
  }

  lemma LacksNothing(result: string, rest: string, n: nat, goal: string)
    requires Lacks(result, rest, n, goal) && (n == 0 || rest == "")
    ensures result == goal
  {
  }

  // ---- the buffer ----

  lemma NothingShown(shown: string, src: string, room: nat)
    ensures shown + src[..0] == shown
    ensures src == "" ==> Upto(src, room) == ""
    ensures shown + "" == shown
  {
  }

  lemma BlockShown(src: string, room: nat)
    ensures room <= |src| ==> Upto(src, room) == src[..room]
    ensures |src| <= room ==> Upto(src, room) == src
  {
  }

  /** What the reader sees after `n` bytes have been retrieved: the rest of the head block if
      it still reads there, and otherwise as much as fits one block. */
  function Shown(window: string, contents: string, atHead: bool, n: nat): (s: string)
    requires n <= |contents|
  {
    if n == 0 then window
    else if atHead && n < |window| then window[n..]
    else Upto(contents[n..], BLOCK_SIZE)
  }

  lemma Drained(block: Block)
    requires block.Ok()
    ensures block.readIdx == block.writeIdx <==> |block.Bytes()| == 0
  {
  }

  lemma DropMore(s: string, n: nat, m: nat)
    requires n <= |s| && m <= |s| - n
    ensures |s[n..]| == |s| - n && s[n..][m..] == s[n + m..]
  {
  }

  lemma ShownNothing(window: string, contents: string, atHead: bool)
    ensures Shown(window, contents, atHead, 0) == window
  {
  }

  lemma ShownMore(window: string, contents: string, atHead: bool, n: nat)
    requires 0 < n <= |contents| && window <= contents && |window| <= BLOCK_SIZE
    ensures (atHead && n < |window|) || window == contents ==>
              n <= |window| && Shown(window, contents, atHead, n) == window[n..]
    ensures !(atHead && n < |window|) ==> Shown(window, contents, atHead, n) == Upto(contents[n..], BLOCK_SIZE)
    ensures Upto("", BLOCK_SIZE) == ""
  {
    if window == contents {
      assert contents[n..] == window[n..];
    }
  }

  class Buffer {
    const head: Block
    var readBlock: Block
    var writeBlock: Block
    var size: nat

    ghost var chain: seq<Block>   // head and everything reachable from it
    ghost var views: seq<string>  // what each block of the chain holds
    ghost var r: nat              // readBlock == chain[r]
    ghost var w: nat              // writeBlock == chain[w]

    ghost var owner: map<array<char>, nat>  // which block each storage belongs to
    ghost var Repr: set<object>

    /** The blocks are linked in order, and each owns its storage. */
    ghost predicate Linked()
      reads this, Repr
    {
      && this in Repr && chain != [] && chain[0] == head
      && (forall i :: 0 <= i < |chain| ==> chain[i] in Repr && chain[i].data in Repr && chain[i].Ok())
      && (forall i :: 0 <= i < |chain| ==> chain[i].data in owner && owner[chain[i].data] == i)
      && (forall i {:trigger chain[i].next} :: 0 <= i < |chain| - 1 ==> chain[i].next == chain[i + 1])
      && chain[|chain| - 1].next == null
    }

    ghost predicate Viewed()
      requires Linked()
      reads this, Repr
    {
      && |views| == |chain|
      && forall i :: 0 <= i < |chain| ==> views[i] == chain[i].Bytes()
    }

    /** Blocks before the read block are drained, blocks past the write block are reset,
        and `size` counts the bytes of the whole chain. */
    ghost predicate Valid()
      reads this, Repr
      ensures Valid() ==> this in Repr && writeBlock in Repr && writeBlock.Ok() && readBlock in Repr && readBlock.Ok()
      ensures Valid() ==> writeBlock.data in Repr && readBlock.data in Repr
    {
      && Linked() && Viewed()
      && r <= w < |chain| && readBlock == chain[r] && writeBlock == chain[w]
      && EmptyFrom(views, 0, r)
      && (forall i :: w < i < |chain| ==> chain[i].readIdx == 0 && chain[i].writeIdx == 0)
      && size == |Contents()|
    }

    /** The one byte sequence the chain stands for. */
    ghost function Contents(): (s: string)
      reads this
    {
      Flatten(views)
    }

    /** The bytes of the first readable block: all that `peek` shows. */
    ghost function Window(): (s: string)
      requires Valid()
      reads this, Repr
    {
      views[r]
    }

    constructor ()
      ensures Valid() && fresh(Repr) && Contents() == "" && Window() == ""
      ensures readBlock == writeBlock == head && writeBlock.Writable() == BLOCK_SIZE
    {
      var b := new Block();
      head, readBlock, writeBlock, size := b, b, b, 0;
      chain, views, r, w, owner, Repr := [b], [""], 0, 0, map[b.data := 0], {this, b, b.data};
      new;
      assert b.Bytes() == "";
      FlattenEmpty(views);
    }

    lemma EmptyBehindWriter()
      requires Valid()
      ensures EmptyFrom(views, w + 1, |views|)
    {
      forall i | w < i < |views| ensures views[i] == "" {
        assert views[i] == chain[i].Bytes();
      }
    }

    /** The window is a prefix of the contents. */
    lemma WindowIsPrefix()
      requires Valid()
      ensures Window() <= Contents()
      ensures Contents() == Window() + Flatten(views[r + 1..])
    {
      hide Flatten, Linked;
      FlattenAt(views, r);
      FlattenEmpty(views[..r]);
    }

    /** Only block `k` of the chain has changed, and its view with it. */
    twostate predicate OnlyBlock(k: nat)
      requires old(Linked() && Viewed())
      reads this, Repr, chain, set b | b in chain :: b.data
    {
      && k < |chain| && chain == old(chain) && Repr == old(Repr) && owner == old(owner) && r == old(r) && w == old(w)
      && readBlock == old(readBlock) && writeBlock == old(writeBlock)
      && (forall i :: 0 <= i < |chain| && i != k ==> unchanged(chain[i]) && unchanged(chain[i].data))
      && chain[k].Ok() && chain[k].next == old(chain[k].next)
      && views == old(views)[k := chain[k].Bytes()]
    }

    twostate lemma OnlyBlockKeeps(k: nat)
      requires old(Valid()) && OnlyBlock(k)
      requires k <= w && (k < r ==> views[k] == "") && size == |Contents()|
      ensures Valid()
    {
      hide Flatten, Block.Bytes;
      assert EmptyFrom(old(views), 0, r);
    }

    // ---- writing ----

    /** Hang a fresh block behind the last one. */
    method AllocateNext()
      requires Valid() && writeBlock.next == null
      modifies Repr
      ensures Valid() && fresh(Repr - old(Repr))
      ensures Contents() == old(Contents()) && writeBlock == old(writeBlock)
      ensures writeBlock.next != null && r == old(r) && readBlock == old(readBlock) && Window() == old(Window())
    {
      hide Flatten, Valid, Linked, Viewed, EmptyFrom, Block.Bytes;
      FlattenAppend(views, "");
      assert Flatten(views) + "" == Flatten(views);
      WriterIsLast();
      var b := new Block();
      writeBlock.next := b;
      owner := owner[b.data := |chain|];
      chain, views, Repr := chain + [b], views + [""], Repr + {b, b.data};
      Allocated(b);
    }

    lemma WriterIsLast()
      requires Valid() && writeBlock.next == null
      ensures r <= w == |chain| - 1 && writeBlock == chain[w] && |views| == |chain|
      ensures forall i :: 0 <= i < |chain| ==> chain[i] in Repr && chain[i].data in Repr
      ensures forall i :: 0 <= i < w ==> chain[i] != writeBlock
    {
    }

    /** The chain has grown by `b`, hooked to what was its last block. */
    twostate predicate Grown(new b: Block)
      requires old(Valid())
      reads this, Repr, b, chain, set c | c in chain :: c.data
    {
      && chain == old(chain) + [b] && views == old(views) + [""] && Flatten(views) == Flatten(old(views))
      && w == old(w) == |chain| - 2 && r == old(r) && size == old(size)
      && readBlock == old(readBlock) && writeBlock == old(writeBlock)
      && Repr == old(Repr) + {b, b.data} && owner == old(owner)[b.data := |chain| - 1]
      && b !in old(Repr) && b.data !in old(Repr) && b.Ok() && b.readIdx == b.writeIdx == 0 && b.next == null
      && (forall i :: 0 <= i < w ==> unchanged(old(chain)[i]))
      && (forall i :: 0 <= i <= w ==> unchanged(old(chain)[i].data))
      && writeBlock.next == b
      && writeBlock.readIdx == old(writeBlock.readIdx) && writeBlock.writeIdx == old(writeBlock.writeIdx)
    }

    twostate lemma Allocated(new b: Block)
      requires old(Valid()) && Grown(b)
      ensures Valid()
    {
      GrownLinks(b);
      GrownViews(b);
      hide Flatten, Linked, Viewed, Block.Bytes;
      assert EmptyFrom(old(views), 0, r);
    }

    twostate lemma GrownLinks(new b: Block)
      requires old(Valid()) && Grown(b)
      ensures Linked()
    {
      hide Flatten, EmptyFrom, Viewed, Block.Bytes;
      forall i | 0 <= i < |chain| - 1 ensures chain[i].next == chain[i + 1] {
        assert i < w ==> chain[i].next == old(chain)[i + 1];
      }
    }

    twostate lemma GrownViews(new b: Block)
      requires old(Valid()) && Grown(b) && Linked()
      ensures Viewed()
    {
      hide Flatten, EmptyFrom;
      assert b.Bytes() == "";
      forall i | 0 <= i < |chain| ensures views[i] == chain[i].Bytes() {
        if i <= w {
          assert chain[i] == old(chain)[i];
          SameBytes(chain[i]);
        }
      }
    }

    twostate lemma SameBytes(new block: Block)
      requires old(allocated(block)) && old(block.Ok()) && block.Ok()
      requires block.readIdx == old(block.readIdx) && block.writeIdx == old(block.writeIdx)
      requires unchanged(block.data)
      ensures block.Bytes() == old(block.Bytes())
    {
    }

    method MoveWriter()
      requires Valid() && writeBlock.next != null
      modifies this`writeBlock, this`w
      ensures Valid() && writeBlock.Writable() == BLOCK_SIZE
      ensures Window() == old(Window()) && readBlock != writeBlock
    {
      hide Flatten, Block.Bytes, EmptyFrom;
      writeBlock, w := writeBlock.next, w + 1;
    }

    /** Step to the next block, allocating it when there is none. */
    method NextWriteBlock()
      requires Valid()
      modifies Repr
      ensures Valid() && fresh(Repr - old(Repr))
      ensures Contents() == old(Contents()) && writeBlock.Writable() == BLOCK_SIZE
      ensures r == old(r) && readBlock == old(readBlock) && Window() == old(Window()) && readBlock != writeBlock
    {
      hide Valid, Linked, Viewed, Flatten, EmptyFrom, Block.Bytes;
      if writeBlock.next == null {
        AllocateNext();
      }
      MoveWriter();
    }

    method FillHere(src: string)
      requires Valid() && |src| <= writeBlock.Writable()
      modifies Repr
      ensures Valid() && Repr == old(Repr) && writeBlock == old(writeBlock) && readBlock == old(readBlock)
      ensures Contents() == old(Contents()) && r == old(r) && views == old(views)
      ensures writeBlock.Free() == src + old(writeBlock.Free())[|src|..]
      ensures writeBlock.writeIdx == old(writeBlock.writeIdx) && |src| <= writeBlock.Writable()
      ensures Window() == old(Window())
    {
      hide Flatten, EmptyFrom, Block.Bytes, Block.Free;
      writeBlock.Fill(src);
      OnlyBlockKeeps(w);
      hide Valid;
    }

    method CommitHere(n: nat)
      requires Valid() && n <= writeBlock.Writable()
      modifies Repr
      ensures Valid() && Repr == old(Repr)
      ensures Contents() == old(Contents() + writeBlock.Free()[..n])
      ensures r == old(r) && writeBlock == old(writeBlock) && readBlock == old(readBlock)
      ensures writeBlock.writeIdx == old(writeBlock.writeIdx) + n
      ensures Window() == old(if readBlock == writeBlock then Window() + writeBlock.Free()[..n] else Window())
    {
      hide Flatten, Block.Bytes, Block.Free, EmptyFrom;
      ghost var src := writeBlock.Free()[..n];
      ghost var after := views[w := views[w] + src];
      WriteView(src);
      writeBlock.Commit(n);
      size := size + n;
      views := after;
      OnlyBlockKeeps(w);
      hide Valid;
    }

    /** What the views become when `src` is written where the writer stands. */
    lemma WriteView(src: string)
      requires Valid()
      ensures r <= w < |views| && (readBlock != writeBlock <==> r < w)
      ensures var after := views[w := views[w] + src];
              Flatten(after) == Flatten(views) + src && EmptyFrom(after, 0, r)
    {
      EmptyBehindWriter();
      FlattenWrite(views, w, src);
      hide Flatten;
    }

    method WriteHere(src: string)
      requires Valid() && |src| <= writeBlock.Writable()
      modifies Repr
      ensures Valid() && Repr == old(Repr)
      ensures Contents() == old(Contents()) + src
      ensures r == old(r) && writeBlock == old(writeBlock) && readBlock == old(readBlock)
      ensures writeBlock.writeIdx == old(writeBlock.writeIdx) + |src|
      ensures Window() == if readBlock == writeBlock then old(Window()) + src else old(Window())
    {
      hide *;
      FillHere(src);
      assert writeBlock.Free()[..|src|] == src;
      CommitHere(|src|);
    }

    /** The bytes go behind everything already in the chain; the window gains those that fit
        its own block. */
    method Append(src: string)
      requires Valid()
      modifies Repr
      ensures Valid() && fresh(Repr - old(Repr))
      ensures Contents() == old(Contents()) + src
      ensures r == old(r) && readBlock == old(readBlock)
      ensures Window() == old(if readBlock == writeBlock then Window() + Upto(src, writeBlock.Writable()) else Window())
      ensures readBlock == writeBlock <==> old(readBlock == writeBlock && |src| <= writeBlock.Writable())
      ensures readBlock == writeBlock ==> writeBlock.Writable() == old(writeBlock.Writable()) - |src|
    {
      hide Valid, Linked, Viewed, Flatten, EmptyFrom, Block.Bytes, Upto;
      var done := 0;
      ghost var room := writeBlock.Writable();
      ghost var shown := Window();
      ghost var one := readBlock == writeBlock;
      NothingShown(shown, src, room);
      while done < |src|
        invariant done <= |src|
        invariant Valid() && fresh(Repr - old(Repr))
        invariant Contents() == old(Contents()) + src[..done]
        invariant r == old(r) && readBlock == old(readBlock)
        invariant !one ==> Window() == shown && readBlock != writeBlock
        invariant one && readBlock != writeBlock ==> Window() == shown + Upto(src, room) && room < |src|
        invariant readBlock == writeBlock ==> done + writeBlock.Writable() == room && Window() == shown + src[..done]
        decreases |src| - done, if writeBlock.writeIdx == BLOCK_SIZE then 1 else 0
      {
        var writable := writeBlock.Writable();
        if writable == 0 {
          BlockShown(src, done);
          NextWriteBlock();
          continue;
        }
        var n := if |src| - done <= writable then |src| - done else writable;
        WriteHere(src[done..done + n]);
        assert src[..done] + src[done..done + n] == src[..done + n];
        assert shown + src[..done] + src[done..done + n] == shown + (src[..done] + src[done..done + n]);
        done := done + n;
      }
      assert src[..done] == src;
      if readBlock == writeBlock {
        BlockShown(src, room);
      }
    }

    /** The number of bytes that may be written at the end of the current block, never none.
        A full block is left for the next one; what the reader sees stays the same. */
    method BeginWrite() returns (writable: nat)
      requires Valid()
      modifies Repr
      ensures Valid() && fresh(Repr - old(Repr))
      ensures Contents() == old(Contents()) && r == old(r) && readBlock == old(readBlock) && Window() == old(Window())
      ensures 0 < writable == writeBlock.Writable()
      ensures old(writeBlock.Writable()) > 0 ==> writeBlock == old(writeBlock) && writable == old(writeBlock.Writable())
      ensures old(writeBlock.Writable()) == 0 ==> readBlock != writeBlock && writable == BLOCK_SIZE
    {
      hide Valid, Linked, Viewed, Flatten, EmptyFrom, Block.Bytes;
      if writeBlock.Writable() == 0 {
        NextWriteBlock();
      }
      writable := writeBlock.Writable();
    }

    /** Commit what was written after `BeginWrite`, clamped to the space there was.  The reader
        sees it exactly when it reads from the block written to. */
    method HasWritten(len: nat)
      requires Valid()
      modifies Repr
      ensures Valid() && Repr == old(Repr) && r == old(r)
      ensures readBlock == old(readBlock) && writeBlock == old(writeBlock)
      ensures var n := if len <= old(writeBlock.Writable()) then len else old(writeBlock.Writable());
              && Contents() == old(Contents()) + old(writeBlock.Free())[..n]
              && writeBlock.Writable() == old(writeBlock.Writable()) - n
              && Window() == (if readBlock == writeBlock then old(Window()) + old(writeBlock.Free())[..n]
                              else old(Window()))
    {
      hide *;
      FreeSize();
      RoomIs();
      CommitHere(if len <= writeBlock.Writable() then len else writeBlock.Writable());
      RoomIs();
    }

    lemma RoomIs()
      requires Valid()
      ensures writeBlock.Writable() == BLOCK_SIZE - writeBlock.writeIdx
    {
    }

    /** Contiguous space for `len` bytes: provided exactly when a block can hold that many. */
    method EnsureWritable(len: nat)
      requires Valid()
      modifies Repr
      ensures Valid() && fresh(Repr - old(Repr))
      ensures Contents() == old(Contents()) && r == old(r)
      ensures len <= writeBlock.Writable() <==> len <= BLOCK_SIZE
      ensures Window() == old(Window()) && readBlock == old(readBlock)
      ensures old(writeBlock.Writable()) >= len ==>
                writeBlock == old(writeBlock) && writeBlock.Writable() == old(writeBlock.Writable())
      ensures old(writeBlock.Writable()) < len ==> readBlock != writeBlock && writeBlock.Writable() == BLOCK_SIZE
    {
      hide Valid, Linked, Viewed, Flatten, EmptyFrom, Block.Bytes;
      if writeBlock.Writable() >= len {
        return;
      }
      NextWriteBlock();
    }

    // ---- reading ----

    /** A walk along the chain has come to its `i`-th block, or past the last one. */
    ghost predicate At(block: Block?, i: nat)
      reads this
    {
      i <= |chain| && block == (if i < |chain| then chain[i] else null)
    }

    lemma Follow(block: Block, i: nat)
      requires Valid() && At(block, i)
      ensures block in Repr && block.data in Repr && block.Ok()
      ensures i < |views| && views[i] == block.Bytes() && At(block.next, i + 1)
    {
    }

    lemma FollowedAll(i: nat)
      requires Valid() && At(null, i)
      ensures i == |views|
    {
    }

    lemma AtReader()
      requires Valid()
      ensures At(readBlock, r) && r <= |views| && Contents() == Flatten(views[r..])
    {
      WindowIsPrefix();
      FlattenFrom(views, r);
    }

    /** `len` bytes from the front without consuming them, or nothing if there are fewer. */
    method ReadN(len: nat) returns (result: string)
      requires Valid()
      ensures result == if len > size then "" else Contents()[..len]
    {
      hide *;
      SizeIsLength();
      if len > size {
        return "";
      }
      ghost var goal := Contents()[..len];
      result := "";
      var block: Block? := readBlock;
      var remaining: nat := len;
      ghost var i := r;
      AtReader();
      LacksAll(Flatten(views[i..]), remaining, goal);
      while remaining > 0 && block != null
        invariant At(block, i) && i <= |views|
        invariant Lacks(result, Flatten(views[i..]), remaining, goal)
        decreases |views| - i
      {
        Follow(block, i);
        FlattenFrom(views, i);
        var bytes := block.Bytes();
        var n := if remaining <= |bytes| then remaining else |bytes|;
        TakeBlock(result, views[i], Flatten(views[i + 1..]), remaining, goal);
        result := result + bytes[..n];
        remaining := remaining - n;
        block := block.next;
        i := i + 1;
      }
      if remaining > 0 {
        FollowedAll(i);
        FlattenEmpty(views[i..]);
      }
      LacksNothing(result, Flatten(views[i..]), remaining, goal);
    }

    method ConsumeHere(n: nat)
      requires Valid() && n <= |Window()|
      modifies Repr
      ensures Valid() && Repr == old(Repr)
      ensures |old(Contents())| >= n && Contents() == old(Contents())[n..]
      ensures readBlock == old(readBlock) && writeBlock == old(writeBlock) && r == old(r) && w == old(w)
      ensures chain == old(chain) && Window() == old(Window())[n..]
      ensures writeBlock.writeIdx == old(writeBlock.writeIdx)
    {
      hide Flatten, Block.Bytes, EmptyFrom;
      FlattenRead(views, r, n);
      readBlock.Consume(n);
      size := size - n;
      views := views[r := views[r][n..]];
      OnlyBlockKeeps(r);
      hide Valid;
    }

    /** Leave a drained block behind. */
    method NextReadBlock()
      requires Valid() && readBlock != writeBlock && Window() == ""
      modifies Repr
      ensures Valid() && Repr == old(Repr) && Contents() == old(Contents())
      ensures r == old(r) + 1 && w == old(w) && writeBlock == old(writeBlock)
      ensures writeBlock.writeIdx == old(writeBlock.writeIdx)
    {
      hide Flatten;
      readBlock, r := readBlock.next, r + 1;
    }

    method ResetAt(block: Block, ghost i: nat)
      requires Linked() && i < |chain| && block == chain[i]
      modifies block`readIdx, block`writeIdx
      ensures Linked() && block.readIdx == 0 && block.writeIdx == 0
    {
      block.Reset();
    }

    lemma LinkedAt(i: nat)
      requires Linked()
      ensures 1 <= |chain| && head == chain[0] && head in Repr && (i < |chain| ==> chain[i] in Repr)
      ensures i < |chain| ==> At(chain[i].next, i + 1)
    {
    }

    method ResetBlocks()
      requires Linked()
      modifies chain
      ensures Linked()
      ensures forall k :: 0 <= k < |chain| ==> chain[k].readIdx == 0 && chain[k].writeIdx == 0
    {
      hide Linked;
      LinkedAt(0);
      var block := head.next;
      ghost var i := 1;
      while block != null
        invariant Linked() && 1 <= i && At(block, i)
        invariant forall k :: 1 <= k < i ==> chain[k].readIdx == 0 && chain[k].writeIdx == 0
        decreases |chain| - i
      {
        LinkedAt(i);
        ResetAt(block, i);
        LinkedAt(i);
        block := block.next;
        i := i + 1;
      }
      ResetAt(head, 0);
    }

    method Rewind()
      requires Linked()
      requires forall k :: 0 <= k < |chain| ==> chain[k].readIdx == 0 && chain[k].writeIdx == 0
      modifies this`readBlock, this`writeBlock, this`size, this`views, this`r, this`w
      ensures Valid() && Contents() == "" && r == 0
      ensures readBlock == writeBlock && writeBlock.Writable() == BLOCK_SIZE
    {
      hide Linked, Valid;
      readBlock, writeBlock, size := head, head, 0;
      views, r, w := seq(|chain|, _ => ""), 0, 0;
      LinksKept();
      AllReset();
    }

    twostate lemma LinksKept()
      requires old(Linked()) && chain == old(chain) && owner == old(owner) && Repr == old(Repr)
      requires forall i :: 0 <= i < |chain| ==> unchanged(chain[i])
      ensures Linked()
    {
    }

    lemma AllReset()
      requires Linked() && readBlock == writeBlock == head && size == r == w == 0
      requires |views| == |chain| && EmptyFrom(views, 0, |views|)
      requires forall k :: 0 <= k < |chain| ==> chain[k].readIdx == 0 && chain[k].writeIdx == 0
      ensures Valid() && Contents() == "" && writeBlock.Writable() == BLOCK_SIZE
    {
      FlattenEmpty(views);
    }

    /** Forget everything: every block of the chain is reset. */
    method RetrieveAll()
      requires Valid()
      modifies Repr
      ensures Valid() && Repr == old(Repr) && Contents() == "" && r == 0
      ensures readBlock == writeBlock && writeBlock.Writable() == BLOCK_SIZE
    {
      hide *;
      ValidIsLinked();
      ResetBlocks();
      Rewind();
    }

    lemma ValidIsLinked()
      requires Valid()
      ensures Linked() && head in Repr && forall b :: b in chain ==> b in Repr
    {
    }

    /** Drop min(len, size) bytes; what remains is moved back to the head block if the
        read position has left it, and the window then shows as much of it as a block holds. */
    method Retrieve(len: nat)
      requires Valid()
      modifies Repr
      ensures Valid() && fresh(Repr - old(Repr))
      ensures Contents() == old(Contents()[if len <= size then len else size..])
      ensures len > 0 && Contents() != "" ==> readBlock == head && r == 0
      ensures Window() == Shown(old(Window()), old(Contents()), old(readBlock == head),
                                old(if len <= size then len else size))
      ensures old(Window() == Contents()) ==> Window() == Contents()
      ensures old(readBlock == writeBlock == head) ==>
                readBlock == writeBlock == head && writeBlock.Writable() == old(writeBlock.Writable())
    {
      hide *;
      SizeIsLength();
      if len == 0 {
        ShownNothing(Window(), Contents(), readBlock == head);
        return;
      }
      var n: nat := if len <= size then len else size;
      WindowIsPrefix();
      WindowFits();
      AtHead();
      RoomIs();
      if readBlock == writeBlock {
        LastWindow();
      }
      Advance(n);
      AtHead();
      SizeIsLength();
      WindowIsPrefix();
      if n == 0 {
        ShownNothing(old(Window()), old(Contents()), old(readBlock == head));
      } else {
        ShownMore(old(Window()), old(Contents()), old(readBlock == head), n);
      }
      if readBlock != head && size > 0 {
        Compact();
        AtHead();
      }
      RoomIs();
    }

    /** Consume `n` bytes, leaving drained blocks behind. */
    method Advance(n: nat)
      requires Valid() && n <= |Contents()|
      modifies Repr
      ensures Valid() && Repr == old(Repr)
      ensures Contents() == old(Contents())[n..]
      ensures writeBlock == old(writeBlock) && writeBlock.writeIdx == old(writeBlock.writeIdx)
      ensures r >= old(r)
      ensures old(readBlock == writeBlock) || n < old(|Window()|) || n == 0 ==>
                readBlock == old(readBlock) && r == old(r)
      ensures old(readBlock != writeBlock) && 0 < n && old(|Window()|) <= n ==> r > old(r)
      ensures r == old(r) && n <= old(|Window()|) ==> Window() == old(Window())[n..]
    {
      hide *;
      WindowBytes();
      var remaining: nat := n;
      if readBlock == writeBlock {
        LastWindow();
      }
      assert Window()[0..] == Window() && Contents()[0..] == Contents();
      while remaining > 0 && readBlock != writeBlock
        invariant Valid() && Repr == old(Repr) && r <= w && r >= old(r)
        invariant writeBlock == old(writeBlock) && writeBlock.writeIdx == old(writeBlock.writeIdx)
        invariant remaining <= n && Contents() == old(Contents())[n - remaining..]
        invariant old(readBlock == writeBlock) || n < old(|Window()|) || n == 0 ==>
                    readBlock == old(readBlock) && r == old(r)
        invariant r == old(r) ==> readBlock == old(readBlock)
        invariant r == old(r) ==>
                    n - remaining <= old(|Window()|) && Window() == old(Window())[n - remaining..]
        invariant r == old(r) && old(readBlock != writeBlock) && remaining < n ==> n < old(|Window()|) && remaining == 0
        decreases remaining + (w - r)
      {
        WindowBytes();
        var readable := |readBlock.Bytes()|;
        var m := if remaining <= readable then remaining else readable;
        DropMore(old(Contents()), n - remaining, m);
        TakeOff(m);
        remaining := remaining - m;
      }
      if remaining > 0 {
        LastWindow();
        ConsumeHere(remaining);
      }
    }

    /** Consume bytes of the read block, and leave it behind when that drains it. */
    method TakeOff(m: nat)
      requires Valid() && readBlock != writeBlock && m <= |Window()|
      modifies Repr
      ensures Valid() && Repr == old(Repr) && r <= w == old(w)
      ensures |old(Contents())| >= m && Contents() == old(Contents())[m..]
      ensures writeBlock == old(writeBlock) && writeBlock.writeIdx == old(writeBlock.writeIdx)
      ensures m < old(|Window()|) ==> r == old(r) && readBlock == old(readBlock) && Window() == old(Window())[m..]
      ensures m == old(|Window()|) ==> r == old(r) + 1
    {
      hide *;
      ConsumeHere(m);
      WindowBytes();
      Drained(readBlock);
      if readBlock.readIdx == readBlock.writeIdx {
        NextReadBlock();
      }
      WindowBytes();
    }

    /** Move what is left back to the head of the chain. */
    method Compact()
      requires Valid()
      modifies Repr
      ensures Valid() && fresh(Repr - old(Repr))
      ensures Contents() == old(Contents()) && r == 0
      ensures Window() == Upto(Contents(), BLOCK_SIZE)
    {
      hide *;
      SizeIsLength();
      var data := ReadN(size);
      RetrieveAll();
      LastWindow();
      assert "" + data == data && "" + Upto(data, BLOCK_SIZE) == Upto(data, BLOCK_SIZE);
      Append(data);
    }

    lemma WindowFits()
      requires Valid()
      ensures |Window()| <= BLOCK_SIZE
      ensures readBlock == writeBlock ==> |Window()| + writeBlock.Writable() <= BLOCK_SIZE
    {
      WindowBytes();
    }

    /** All that a reader sees without consuming: the first readable block. */
    method Peek() returns (s: string)
      requires Valid()
      ensures s == Window()
      ensures s <= Contents()
    {
      WindowIsPrefix();
      if size == 0 {
        return "";
      }
      return readBlock.Bytes();
    }

    lemma FreeSize()
      requires Valid()
      ensures |writeBlock.Free()| == writeBlock.Writable()
    {
    }

    lemma SizeIsLength()
      requires Valid()
      ensures size == |Contents()|
    {
    }

    lemma WindowBytes()
      requires Valid()
      ensures Window() == readBlock.Bytes() && r <= w
      ensures readBlock != writeBlock ==> r < w
    {
    }

    lemma AtHead()
      requires Valid()
      ensures readBlock == head <==> r == 0
    {
    }

    /** With reader and writer in one block, that block holds everything. */
    lemma LastWindow()
      requires Valid() && readBlock == writeBlock
      ensures Window() == Contents()
    {
      assert r == w;
      WindowIsPrefix();
      EmptyBehindWriter();
      FlattenEmpty(views[r + 1..]);
    }

    // ---- searching ----

    /** Compare the needle, block by block, with the bytes from `idx` in `block` on. */
    method MatchFrom(block: Block, idx: nat, needle: string, ghost i: nat, ghost at: nat) returns (match_: bool)
      requires Valid() && At(block, i) && needle != "" && at + |needle| <= |Contents()|
      requires i < |views| && idx <= |views[i]|
      requires Contents()[at..] == views[i][idx..] + Flatten(views[i + 1..])
      ensures match_ <==> OccursAt(Contents(), needle, at)
    {
      hide *;
      ghost var tail := Contents()[at..];
      var searchBlock: Block? := block;
      var searchIdx: nat := idx;
      var matched: nat := 0;
      ghost var j := i;
      NoneMatched(tail, needle, views[j], searchIdx, Flatten(views[j + 1..]));
      OccursInTail(Contents(), needle, at);
      while matched < |needle|
        invariant At(searchBlock, j) && searchBlock != null && j < |views| && matched < |needle|
        invariant searchIdx <= |views[j]|
        invariant Matching(tail, needle, matched, views[j][searchIdx..] + Flatten(views[j + 1..]))
        decreases |views| - j
      {
        Follow(searchBlock, j);
        var bytes := searchBlock.Bytes();
        var available := |bytes| - searchIdx;
        var n := if |needle| - matched <= available then |needle| - matched else available;
        CompareBlock(tail, needle, matched, bytes[searchIdx..], Flatten(views[j + 1..]));
        if bytes[searchIdx..searchIdx + n] != needle[matched..matched + n] {
          assert bytes[searchIdx..][..n] == bytes[searchIdx..searchIdx + n];
          return false;
        }
        assert bytes[searchIdx..][..n] == bytes[searchIdx..searchIdx + n];
        matched := matched + n;
        if matched >= |needle| {
          return true;
        }
        MoreBlocks(j + 1);
        searchBlock := searchBlock.next;
        searchIdx := 0;
        j := j + 1;
        FlattenFrom(views, j);
        assert views[j][0..] == views[j];
      }
      assert false;
    }

    lemma MoreBlocks(i: nat)
      requires Valid() && i <= |views| && Flatten(views[i..]) != ""
      ensures i < |views| && forall b: Block? :: At(b, i) ==> b != null
    {
    }

    /** Try every position of one block. */
    method ScanBlock(block: Block, offset: nat, needle: string, ghost i: nat) returns (pos: int)
      requires Valid() && At(block, i) && needle != ""
      requires i < |views| && offset <= |Contents()| && Contents()[offset..] == Flatten(views[i..])
      requires Absent(Contents(), needle, offset)
      ensures pos == -1 ==> Absent(Contents(), needle, offset + |views[i]|)
      ensures pos != -1 ==> IsFirst(Contents(), needle, pos)
    {
      hide *;
      Follow(block, i);
      SizeIsLength();
      FlattenFrom(views, i);
      var readable := |block.Bytes()|;
      var k: nat := 0;
      while k < readable && offset + k + |needle| <= size
        invariant k <= readable
        invariant Absent(Contents(), needle, offset + k)
      {
        SuffixSplit(Contents(), offset, k, views[i], Flatten(views[i + 1..]));
        var found := MatchFrom(block, k, needle, i, offset + k);
        if found {
          FoundFirst(Contents(), needle, offset + k);
          return offset + k;
        }
        AbsentNext(Contents(), needle, offset + k);
        k := k + 1;
      }
      if k < readable {
        AbsentBeyond(Contents(), needle, offset + k, offset + readable);
      }
      return -1;
    }

    /** The first occurrence of the needle in the whole contents, however many blocks it
        spans; -1 exactly when there is none (or the needle is empty). */
    method Find(needle: string) returns (pos: int)
      requires Valid()
      ensures needle == "" ==> pos == -1
      ensures needle != "" ==> IsFirst(Contents(), needle, pos)
    {
      hide *;
      SizeIsLength();
      if needle == "" {
        return -1;
      }
      AbsentStart(Contents(), needle);
      if size < |needle| {
        AbsentBeyond(Contents(), needle, 0, |Contents()| + 1);
        NotFound(Contents(), needle);
        return -1;
      }
      var offset: nat := 0;
      var block: Block? := readBlock;
      ghost var i := r;
      AtReader();
      assert Contents()[0..] == Contents();
      while block != null
        invariant At(block, i) && i <= |views|
        invariant offset <= |Contents()| && Contents()[offset..] == Flatten(views[i..])
        invariant Absent(Contents(), needle, offset)
        decreases |views| - i
      {
        Follow(block, i);
        FlattenFrom(views, i);
        pos := ScanBlock(block, offset, needle, i);
        if pos != -1 {
          return pos;
        }
        SuffixSplit(Contents(), offset, |views[i]|, views[i], Flatten(views[i + 1..]));
        offset := offset + |block.Bytes()|;
        block := block.next;
        i := i + 1;
      }
      FollowedAll(i);
      FlattenEmpty(views[i..]);
      AbsentBeyond(Contents(), needle, offset, |Contents()| + 1);
      NotFound(Contents(), needle);
      return -1;
    }

    /** The same for a single byte. */
    method FindChar(c: char) returns (pos: int)
      requires Valid()
      ensures IsFirst(Contents(), [c], pos)
    {
      hide *;
      SizeIsLength();
      AbsentStart(Contents(), [c]);
      if size == 0 {
        AbsentBeyond(Contents(), [c], 0, |Contents()| + 1);
        NotFound(Contents(), [c]);
        return -1;
      }
      var offset: nat := 0;
      var block: Block? := readBlock;
      ghost var i := r;
      AtReader();
      assert Contents()[0..] == Contents();
      while block != null
        invariant At(block, i) && i <= |views|
        invariant offset <= |Contents()| && Contents()[offset..] == Flatten(views[i..])
        invariant Absent(Contents(), [c], offset)
        decreases |views| - i
      {
        Follow(block, i);
        FlattenFrom(views, i);
        CharOccurs(Contents(), c, offset, views[i], Flatten(views[i + 1..]));
        pos := IndexOf(block.Bytes(), c);
        if pos != -1 {
          return offset + pos;
        }
        SuffixSplit(Contents(), offset, |views[i]|, views[i], Flatten(views[i + 1..]));
        offset := offset + |block.Bytes()|;
        block := block.next;
        i := i + 1;
      }
      FollowedAll(i);
      FlattenEmpty(views[i..]);
      AbsentBeyond(Contents(), [c], offset, |Contents()| + 1);
      NotFound(Contents(), [c]);
      return -1;
    }

    /** Everything up to and including the first delimiter, provided that much is in the first
        readable block; otherwise nothing, as when there is no delimiter. */
    method ReadUntil(delim: string) returns (line: string)
      requires Valid()
      ensures delim == "" || IsFirst(Contents(), delim, -1) ==> line == ""
      ensures forall p: nat :: delim != "" && IsFirst(Contents(), delim, p) ==>
                line == if p + |delim| <= |Window()| then Contents()[..p + |delim|] else ""
    {
      hide *;
      var pos := Find(delim);
      if delim != "" {
        OnlyOneFirst(Contents(), delim, pos);
      }
      if pos < 0 {
        return "";
      }
      var total := pos + |delim|;
      var block := Peek();
      if total <= |block| {
        assert block[..total] == Contents()[..total];
        return block[..total];
      }
      return "";
    }
  }

  // ---- occurrences ----

  lemma OnlyOneFirst(s: string, needle: string, pos: int)
    requires needle != "" && IsFirst(s, needle, pos)
    ensures pos >= -1 && forall p: int :: IsFirst(s, needle, p) ==> p == pos
    ensures pos >= 0 ==> pos + |needle| <= |s|
  {
  }

  lemma CharOccurs(s: string, c: char, offset: nat, block: string, rest: string)
    requires offset <= |s| && s[offset..] == block + rest && Absent(s, [c], offset)
    ensures var p := IndexOf(block, c);
            if p == -1 then Absent(s, [c], offset + |block|) else IsFirst(s, [c], offset + p)
  {
    hide OccursAt, IndexOf;
    var p := IndexOf(block, c);
    if p != -1 {
      CharAt(s, c, offset, block, rest, p);
    }
    var end := offset + if p == -1 then |block| else p;
    forall k | 0 <= k < end ensures !OccursAt(s, [c], k) {
      if k >= offset {
        CharAt(s, c, offset, block, rest, k - offset);
      }
    }
  }

  lemma CharAt(s: string, c: char, offset: nat, block: string, rest: string, k: nat)
    requires offset <= |s| && s[offset..] == block + rest && k < |block|
    ensures OccursAt(s, [c], offset + k) <==> block[k] == c
  {
    assert s[offset + k] == s[offset..][k] == block[k];
    assert s[offset + k..offset + k + 1] == [s[offset + k]];
  }

  /** No occurrence starts before `upTo`. */
  ghost predicate Absent(s: string, needle: string, upTo: nat) {
    forall k :: 0 <= k < upTo ==> !OccursAt(s, needle, k)
  }

  /** The smallest offset of an occurrence, or -1 for none. */
  ghost predicate IsFirst(s: string, needle: string, pos: int) {
    if pos == -1 then !Contains(s, needle)
    else 0 <= pos && OccursAt(s, needle, pos) && Absent(s, needle, pos)
  }

  /** So far `matched` bytes agree, and `rest` is what the tail goes on with. */
  ghost predicate Matching(tail: string, needle: string, matched: nat, rest: string) {
    && matched <= |needle| <= |tail|
    && needle[..matched] == tail[..matched]
    && tail[matched..] == rest
  }

  lemma NoneMatched(tail: string, needle: string, block: string, idx: nat, rest: string)
    requires |needle| <= |tail| && idx <= |block| && tail == block[idx..] + rest
    ensures Matching(tail, needle, 0, block[idx..] + rest)
  {
  }

  lemma OccursInTail(s: string, needle: string, at: nat)
    requires at + |needle| <= |s|
    ensures OccursAt(s, needle, at) <==> s[at..][..|needle|] == needle
  {
    assert s[at..][..|needle|] == s[at..at + |needle|];
  }

  /** One block's worth of comparison decides, completes, or moves the comparison on. */
  lemma CompareBlock(tail: string, needle: string, matched: nat, block: string, rest: string)
    requires Matching(tail, needle, matched, block + rest) && matched < |needle|
    ensures var n := if |needle| - matched <= |block| then |needle| - matched else |block|;
            if block[..n] != needle[matched..matched + n] then tail[..|needle|] != needle
            else if matched + n == |needle| then tail[..|needle|] == needle
            else rest != "" && Matching(tail, needle, matched + n, rest)
  {
    var n := if |needle| - matched <= |block| then |needle| - matched else |block|;
    assert block[..n] == tail[matched..matched + n];
    if block[..n] != needle[matched..matched + n] {
      assert tail[..|needle|][matched..matched + n] == tail[matched..matched + n];
    } else {
      assert needle[..matched + n] == needle[..matched] + needle[matched..matched + n];
      assert tail[..matched + n] == tail[..matched] + tail[matched..matched + n];
      if matched + n == |needle| {
        assert needle[..matched + n] == needle;
      } else {
        assert tail[matched + n..] == tail[matched..][n..] == rest;
      }
    }
  }

  lemma SuffixSplit(s: string, offset: nat, k: nat, block: string, rest: string)
    requires offset <= |s| && s[offset..] == block + rest && k <= |block|
    ensures offset + k <= |s| && s[offset + k..] == block[k..] + rest
  {
    assert s[offset + k..] == s[offset..][k..];
  }

  lemma AbsentStart(s: string, needle: string)
    ensures Absent(s, needle, 0)
  {
  }

  lemma AbsentNext(s: string, needle: string, k: nat)
    requires Absent(s, needle, k) && !OccursAt(s, needle, k)
    ensures Absent(s, needle, k + 1)
  {
  }

  lemma AbsentBeyond(s: string, needle: string, k: nat, end: nat)
    requires Absent(s, needle, k) && k + |needle| > |s|
    ensures Absent(s, needle, end)
  {
  }

  lemma FoundFirst(s: string, needle: string, k: nat)
    requires Absent(s, needle, k) && OccursAt(s, needle, k)
    ensures IsFirst(s, needle, k)
  {
  }

  lemma NotFound(s: string, needle: string)
    requires Absent(s, needle, |s| + 1)
    ensures IsFirst(s, needle, -1)
  {
  }
}
