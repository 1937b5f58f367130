/** Bytes of a file: how a chain of blocks is read and written as one byte sequence. */
module Contents {
  import opened Layout
  import opened Chains
  import opened Forests

  // Byte i of the chain c. Past its end the last block repeats, as skip_blocks stops there.
  function ByteAt(data: seq<Block>, c: seq<nat>, i: nat): Byte {
    var b := SkipTo(c, i / BLOCK_SIZE);
    if b < |data| && c != [] then data[b][i % BLOCK_SIZE] else 0
  }

  function Slice(data: seq<Block>, c: seq<nat>, from: nat, n: nat): (r: seq<Byte>)
    ensures |r| == n
  {
    seq<Byte>(n, i requires 0 <= i < n => ByteAt(data, c, from + i))
  }

  // The block at byte position base after bytes were written at position off
  function Patch(block: Block, base: nat, off: nat, bytes: seq<Byte>): Block {
    seq(BLOCK_SIZE, j requires 0 <= j < BLOCK_SIZE =>
      if off <= base + j < off + |bytes| then bytes[base + j - off] else block[j])
  }

  // The data area after bytes were written at position off of the chain c
  function WriteAt(data: seq<Block>, c: seq<nat>, off: nat, bytes: seq<Byte>): (r: seq<Block>)
    ensures |r| == |data|
  {
    seq(|data|, b requires 0 <= b < |data| =>
      if b in c then Patch(data[b], BLOCK_SIZE * IndexOf(c, b), off, bytes) else data[b])
  }

  // The data area after clear_block on every element of bs
  function Cleared(data: seq<Block>, bs: seq<nat>): (r: seq<Block>)
    ensures |r| == |data|
  {
    seq(|data|, b requires 0 <= b < |data| => if b in bs then ZeroBlock() else data[b])
  }

  // Old bytes with new ones written over them from position off
  function Splice(content: seq<Byte>, off: nat, bytes: seq<Byte>): (r: seq<Byte>)
    requires off <= |content|
    ensures |r| == if off + |bytes| <= |content| then |content| else off + |bytes|
  {
    content[..off] + bytes + (if off + |bytes| <= |content| then content[off + |bytes|..] else [])
  }

  lemma SpliceAt(content: seq<Byte>, off: nat, bytes: seq<Byte>, i: nat)
    requires off <= |content| && i < |Splice(content, off, bytes)|
    ensures Splice(content, off, bytes)[i] == if off <= i < off + |bytes| then bytes[i - off] else content[i]
    ensures off <= i < off + |bytes| || i < |content|
  {
  }

  lemma PositionInBlock(i: nat, k: nat)
    ensures i / BLOCK_SIZE < k <==> i < BLOCK_SIZE * k
    ensures i == BLOCK_SIZE * (i / BLOCK_SIZE) + i % BLOCK_SIZE
  {
  }

  // What was written is read back, and every other byte of the chain is as before.
  lemma WrittenByte(data: seq<Block>, c: seq<nat>, off: nat, bytes: seq<Byte>, i: nat)
    requires Distinct(c) && i < BLOCK_SIZE * |c|
    requires forall x :: x in c ==> x < |data|
    ensures ByteAt(WriteAt(data, c, off, bytes), c, i)
         == if off <= i < off + |bytes| then bytes[i - off] else ByteAt(data, c, i)
  {
    PositionInBlock(i, |c|);
    var k := i / BLOCK_SIZE;
    IndexOfAt(c, k);
    assert c[k] in c;
  }

  lemma SliceFrame(data: seq<Block>, data': seq<Block>, c: seq<nat>, from: nat, n: nat)
    requires |data| == |data'| && forall x :: x in c && x < |data| ==> data'[x] == data[x]
    ensures Slice(data', c, from, n) == Slice(data, c, from, n)
  {
    forall i: nat ensures ByteAt(data', c, i) == ByteAt(data, c, i) {
      if c != [] {
        assert SkipTo(c, i / BLOCK_SIZE) in c;
      }
    }
  }

  // Writing through one chain does not change the bytes of another.
  lemma WriteElsewhere(data: seq<Block>, c: seq<nat>, off: nat, bytes: seq<Byte>, d: seq<nat>, from: nat, n: nat)
    requires Disjoint(c, d)
    ensures Slice(WriteAt(data, c, off, bytes), d, from, n) == Slice(data, d, from, n)
  {
    SliceFrame(data, WriteAt(data, c, off, bytes), d, from, n);
  }

  lemma ClearElsewhere(data: seq<Block>, bs: seq<nat>, d: seq<nat>, from: nat, n: nat)
    requires Disjoint(bs, d)
    ensures Slice(Cleared(data, bs), d, from, n) == Slice(data, d, from, n)
  {
    SliceFrame(data, Cleared(data, bs), d, from, n);
  }

  lemma PatchEmpty(block: Block, base: nat, off: nat)
    ensures Patch(block, base, off, []) == block
  {
  }

  lemma WriteNothing(data: seq<Block>, c: seq<nat>, off: nat)
    ensures WriteAt(data, c, off, []) == data
  {
    forall b | 0 <= b < |data| ensures WriteAt(data, c, off, [])[b] == data[b] {
      if b in c { PatchEmpty(data[b], BLOCK_SIZE * IndexOf(c, b), off); }
    }
  }

  lemma PatchTwice(block: Block, base: nat, off: nat, a: seq<Byte>, b: seq<Byte>)
    ensures Patch(Patch(block, base, off, a), base, off + |a|, b) == Patch(block, base, off, a + b)
  {
  }

  lemma PatchBeyond(block: Block, base: nat, off: nat, a: seq<Byte>, b: seq<Byte>)
    requires off + |a| <= base
    ensures Patch(block, base, off + |a|, b) == Patch(block, base, off, a + b)
  {
  }

  lemma IndexOfPrefix(c: seq<nat>, d: seq<nat>, x: nat)
    requires x in c
    ensures IndexOf(c + d, x) == IndexOf(c, x)
  {
    if c[0] != x {
      assert (c + d)[1..] == c[1..] + d;
      IndexOfPrefix(c[1..], d, x);
    } else {
      assert (c + d)[0] == x;
    }
  }

  lemma {:induction false} IndexOfLater(c: seq<nat>, d: seq<nat>, x: nat)
    requires x !in c && x in d
    ensures IndexOf(c + d, x) >= |c|
  {
  }

  // Two writes with an extension of the chain in between are one write after the extension.
  lemma WriteTwice(data: seq<Block>, c: seq<nat>, add: seq<nat>, off: nat, a: seq<Byte>, b: seq<Byte>)
    requires Disjoint(c, add) && off + |a| <= BLOCK_SIZE * |c|
    ensures WriteAt(Cleared(WriteAt(data, c, off, a), add), c + add, off + |a|, b)
         == WriteAt(Cleared(data, add), c + add, off, a + b)
  {
    var e := c + add;
    var l := WriteAt(Cleared(WriteAt(data, c, off, a), add), e, off + |a|, b);
    var r := WriteAt(Cleared(data, add), e, off, a + b);
    forall x | 0 <= x < |data| ensures l[x] == r[x] {
      if x in c {
        IndexOfPrefix(c, add, x);
        PatchTwice(data[x], BLOCK_SIZE * IndexOf(c, x), off, a, b);
      } else if x in add {
        IndexOfLater(c, add, x);
        PatchBeyond(ZeroBlock(), BLOCK_SIZE * IndexOf(e, x), off, a, b);
      }
    }
  }

  lemma ClearTwice(data: seq<Block>, a: seq<nat>, b: seq<nat>)
    ensures Cleared(Cleared(data, a), b) == Cleared(data, a + b)
  {
  }

  lemma ClearNothing(data: seq<Block>)
    ensures Cleared(data, []) == data
  {
  }

  lemma WriteAgain(data: seq<Block>, c: seq<nat>, off: nat, a: seq<Byte>, b: seq<Byte>)
    requires off + |a| <= BLOCK_SIZE * |c|
    ensures WriteAt(WriteAt(data, c, off, a), c, off + |a|, b) == WriteAt(data, c, off, a + b)
  {
    WriteTwice(data, c, [], off, a, b);
    ClearNothing(data);
    ClearNothing(WriteAt(data, c, off, a));
    assert c + [] == c;
  }

  // The block that one round of the write loop stores
  function Overwrite(block: Block, at: nat, bytes: seq<Byte>): Block
    requires at + |bytes| <= BLOCK_SIZE
  {
    block[..at] + bytes + block[at + |bytes|..]
  }

  // A write that stays inside block k of the chain changes that block only.
  lemma WriteOneBlock(data: seq<Block>, c: seq<nat>, off: nat, bytes: seq<Byte>)
    requires Distinct(c) && off < BLOCK_SIZE * |c|
    requires off % BLOCK_SIZE + |bytes| <= BLOCK_SIZE
    requires forall x :: x in c ==> x < |data|
    ensures off / BLOCK_SIZE < |c| && c[off / BLOCK_SIZE] < |data|
    ensures var b := c[off / BLOCK_SIZE];
            WriteAt(data, c, off, bytes) == data[b := Overwrite(data[b], off % BLOCK_SIZE, bytes)]
  {
    PositionInBlock(off, |c|);
    var k := off / BLOCK_SIZE;
    assert c[k] in c;
    var r := data[c[k] := Overwrite(data[c[k]], off % BLOCK_SIZE, bytes)];
    forall x | 0 <= x < |data| ensures WriteAt(data, c, off, bytes)[x] == r[x] {
      if x in c {
        PatchOneBlock(data[x], IndexOf(c, x), off, bytes);
        if x == c[k] { IndexOfAt(c, k); }
      }
    }
  }

  lemma PatchOneBlock(block: Block, m: nat, off: nat, bytes: seq<Byte>)
    requires off % BLOCK_SIZE + |bytes| <= BLOCK_SIZE
    ensures Patch(block, BLOCK_SIZE * m, off, bytes)
         == if m == off / BLOCK_SIZE then Overwrite(block, off % BLOCK_SIZE, bytes) else block
  {
  }

  /* ---------- one round of the read and write loops ---------- */

  // The bytes of one round: to the end of the block, or to the end of the request inside it
  function Piece(offset: nat, end: nat): int {
    if offset / BLOCK_SIZE < end / BLOCK_SIZE then BLOCK_SIZE - offset % BLOCK_SIZE
    else end % BLOCK_SIZE - offset % BLOCK_SIZE
  }

  lemma PieceFits(offset: nat, end: nat)
    requires offset < end
    ensures 0 < Piece(offset, end) && offset + Piece(offset, end) <= end
    ensures offset % BLOCK_SIZE + Piece(offset, end) <= BLOCK_SIZE
    ensures offset + Piece(offset, end) < end ==> (offset + Piece(offset, end)) / BLOCK_SIZE == offset / BLOCK_SIZE + 1
    ensures offset + Piece(offset, end) < end ==> (offset + Piece(offset, end)) % BLOCK_SIZE == 0
  {
  }

  lemma SliceInBlock(data: seq<Block>, c: seq<nat>, off: nat, n: nat)
    requires c != [] && off % BLOCK_SIZE + n <= BLOCK_SIZE && SkipTo(c, off / BLOCK_SIZE) < |data|
    ensures Slice(data, c, off, n)
         == data[SkipTo(c, off / BLOCK_SIZE)][off % BLOCK_SIZE..off % BLOCK_SIZE + n]
  {
    var b, at := SkipTo(c, off / BLOCK_SIZE), off % BLOCK_SIZE;
    forall i | 0 <= i < n ensures Slice(data, c, off, n)[i] == data[b][at..at + n][i] {
      assert off + i == BLOCK_SIZE * (off / BLOCK_SIZE) + (at + i);
      assert (off + i) / BLOCK_SIZE == off / BLOCK_SIZE && (off + i) % BLOCK_SIZE == at + i;
      assert ByteAt(data, c, off + i) == data[b][at + i];
    }
  }

  // Writing the next piece is overwriting part of one block.
  lemma WritePiece(data: seq<Block>, c: seq<nat>, off: nat, done: seq<Byte>, piece: seq<Byte>)
    requires Distinct(c) && forall x :: x in c ==> x < |data|
    requires off + |done| < BLOCK_SIZE * |c| && (off + |done|) % BLOCK_SIZE + |piece| <= BLOCK_SIZE
    ensures var o := off + |done|; var b := SkipTo(c, o / BLOCK_SIZE); var d := WriteAt(data, c, off, done);
            b < |data|
            && WriteAt(data, c, off, done + piece) == d[b := Overwrite(d[b], o % BLOCK_SIZE, piece)]
  {
    WriteAgain(data, c, off, done, piece);
    WriteOneBlock(WriteAt(data, c, off, done), c, off + |done|, piece);
  }
}
