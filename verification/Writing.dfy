/**
 What fs_write does through a descriptor that agrees with the directory: how many bytes it takes,
 which file it leaves, and which other descriptors it leaves behind.
 */
module Writing {
  import opened Layout
  import opened Chains
  import opened Forests
  import opened Allocation
  import opened Contents
  import opened Directory
  import opened Semantics
  import opened Structure
  import opened Exactness

  // The bytes of the file in directory slot i
  function Content(img: Image, i: nat): (r: seq<Byte>)
    requires i < |img.dir|
    ensures |r| == img.dir[i].size
  {
    Slice(img.data, ChainOf(img, i), 0, img.dir[i].size)
  }

  /* ---------- sizes ---------- */

  // The blocks appended, the bytes accepted and the new size, for a write with no size_t overflow
  lemma WriteArithmetic(size: nat, offset: nat, count: nat, free: nat, add: nat, n: nat)
    requires offset <= size && offset + count < SIZE_T_LIMIT
    requires var k := Minus(BlocksFor(EndOffset(offset, count)), BlocksFor(size)); add == if k <= free then k else free
    requires n == FittingBytes(offset, count, BlocksFor(size) + add)
    ensures var room := BLOCK_SIZE * (BlocksFor(size) + free) - offset; n == if count <= room then count else room
    ensures BlocksFor(if offset + n > size then offset + n else size) == BlocksFor(size) + add
    ensures offset + n <= BLOCK_SIZE * (BlocksFor(size) + add)
    ensures add == 0 && EndOffset(offset, count) > BLOCK_SIZE * BlocksFor(size) == offset ==> n == 0
  {
  }

  // After a size_t overflow the end lies before the offset and nothing happens.
  lemma OverflowArithmetic(size: nat, offset: nat, count: nat)
    requires offset <= size && count < SIZE_T_LIMIT <= offset + count && size < SIZE_T_LIMIT
    ensures EndOffset(offset, count) < offset
    ensures Minus(BlocksFor(EndOffset(offset, count)), BlocksFor(size)) == 0
    ensures FittingBytes(offset, count, BlocksFor(size)) == 0
  {
  }

  // The shortfall in blocks is the shortfall in bytes, rounded up.
  lemma ShortfallArithmetic(end: nat, blocks: nat)
    ensures end > BLOCK_SIZE * blocks ==> BlocksFor(end - BLOCK_SIZE * blocks) == BlocksFor(end) - blocks > 0
    ensures end <= BLOCK_SIZE * blocks ==> Minus(BlocksFor(end), blocks) == 0
  {
  }

  /* ---------- the written image, when descriptor and directory agree ---------- */

  // The image after the chain of slot i became all, ending in the fresh blocks add, and chunk was stored
  function Written(img: Image, i: nat, all: seq<nat>, add: seq<nat>, off: nat, chunk: seq<Byte>, size: nat): Image
    requires i < |img.dir|
  {
    Image(Relink(img.fat, all),
          img.dir[i := img.dir[i].(size := size, index := Head(all))],
          WriteAt(Cleared(img.data, add), all, off, chunk))
  }

  // A write about to happen through descriptor f of a file with chain c
  ghost predicate WriteReady(img: Image, f: Fd, c: seq<nat>, add: seq<nat>, chunk: seq<Byte>) {
    && ImageExact(img) && Growing(img, f, c, add) && InSync(img, f)
    && f.offset + |chunk| <= BLOCK_SIZE * |c + add|
    && BlocksFor(NewSize(f, chunk)) == |c + add|
  }

  function NewSize(f: Fd, chunk: seq<Byte>): nat {
    if f.offset + |chunk| > f.size then f.offset + |chunk| else f.size
  }

  function After(img: Image, f: Fd, c: seq<nat>, add: seq<nat>, chunk: seq<Byte>): Image
    requires f.slot < |img.dir|
  {
    Written(img, f.slot, c + add, add, f.offset, chunk, NewSize(f, chunk))
  }

  // Every other file keeps its record, its chain and its bytes.
  lemma OthersKept(img: Image, f: Fd, c: seq<nat>, add: seq<nat>, chunk: seq<Byte>, j: nat)
    requires WriteReady(img, f, c, add, chunk) && j < |img.dir| && j != f.slot && img.dir[j].InUse()
    ensures var img' := After(img, f, c, add, chunk);
            img'.dir[j] == img.dir[j] && ChainOf(img', j) == ChainOf(img, j) && Content(img', j) == Content(img, j)
  {
    var d := ChainOf(img, j);
    assert img.dir[j].index == FAT_EOC || img.dir[j].index != f.first;
    GrowthKeepsHead(img.fat, |img.data|, c, add, img.dir[j].index);
    assert Disjoint(add, d) by {
      forall x | x in add ensures x !in d { assert x in c + add; }
    }
    ClearElsewhere(img.data, add, d, 0, img.dir[j].size);
    WriteElsewhere(Cleared(img.data, add), c + add, f.offset, chunk, d, 0, img.dir[j].size);
  }

  lemma WrittenChain(img: Image, f: Fd, c: seq<nat>, add: seq<nat>, chunk: seq<Byte>)
    requires WriteReady(img, f, c, add, chunk)
    ensures ChainOf(After(img, f, c, add, chunk), f.slot) == c + add
  {
    GrowthElements(img.fat, |img.data|, c, add);
  }

  // The written file is the old one with the chunk spliced in at the offset.
  lemma WrittenContent(img: Image, f: Fd, c: seq<nat>, add: seq<nat>, chunk: seq<Byte>)
    requires WriteReady(img, f, c, add, chunk)
    ensures Content(After(img, f, c, add, chunk), f.slot) == Splice(Content(img, f.slot), f.offset, chunk)
  {
    WriteReadyFacts(img, f, c, add, chunk);
    var img' := After(img, f, c, add, chunk);
    var written, want := Content(img', f.slot), Splice(Content(img, f.slot), f.offset, chunk);
    forall i | 0 <= i < |want| ensures written[i] == want[i] {
      WrittenContentAt(img, f, c, add, chunk, i);
    }
  }

  lemma WriteReadyFacts(img: Image, f: Fd, c: seq<nat>, add: seq<nat>, chunk: seq<Byte>)
    requires WriteReady(img, f, c, add, chunk)
    ensures Growth(img.fat, |img.data|, c, add) && f.slot < |img.dir| && img.dir[f.slot].InUse()
    ensures img.dir[f.slot].size == f.size && img.dir[f.slot].index == f.first == Head(c)
    ensures f.offset <= f.size && c == ChainOf(img, f.slot)
    ensures NewSize(f, chunk) <= BLOCK_SIZE * |c + add|
    ensures forall x :: x in c + add ==> x < |img.data|
    ensures Distinct(c + add)
  {
    GrowthElements(img.fat, |img.data|, c, add);
    BlocksForIsCeiling(NewSize(f, chunk), |c + add|);
  }

  lemma WriteReadySizes(img: Image, f: Fd, c: seq<nat>, add: seq<nat>, chunk: seq<Byte>)
    requires WriteReady(img, f, c, add, chunk)
    ensures Growth(img.fat, |img.data|, c, add) && BlocksFor(NewSize(f, chunk)) == |c| + |add|
  {
  }

  lemma WrittenContentAt(img: Image, f: Fd, c: seq<nat>, add: seq<nat>, chunk: seq<Byte>, i: nat)
    requires WriteReady(img, f, c, add, chunk) && f.slot < |img.dir|
    requires f.offset <= |Content(img, f.slot)| && i < |Splice(Content(img, f.slot), f.offset, chunk)|
    requires i < |Content(After(img, f, c, add, chunk), f.slot)|
    ensures Content(After(img, f, c, add, chunk), f.slot)[i] == Splice(Content(img, f.slot), f.offset, chunk)[i]
  {
    hide WriteReady, WriteAt, Cleared, IndexOf, Splice, Growth, ByteAt, Growing;
    WriteReadyFacts(img, f, c, add, chunk);
    WrittenChain(img, f, c, add, chunk);
    WrittenByte(Cleared(img.data, add), c + add, f.offset, chunk, i);
    SpliceAt(Content(img, f.slot), f.offset, chunk, i);
    if !(f.offset <= i < f.offset + |chunk|) {
      WriteReadyKept(img, f, c, add, chunk, i);
    }
  }

  lemma WriteReadyKept(img: Image, f: Fd, c: seq<nat>, add: seq<nat>, chunk: seq<Byte>, i: nat)
    requires WriteReady(img, f, c, add, chunk) && i < f.size
    ensures ByteAt(Cleared(img.data, add), c + add, i) == ByteAt(img.data, c, i)
  {
  }

  lemma WrittenNoLeak(img: Image, f: Fd, c: seq<nat>, add: seq<nat>, chunk: seq<Byte>)
    requires WriteReady(img, f, c, add, chunk) && After(img, f, c, add, chunk).dir[f.slot].InUse()
    ensures NoLeak(After(img, f, c, add, chunk))
  {
    var img' := After(img, f, c, add, chunk);
    WrittenChain(img, f, c, add, chunk);
    forall x | 0 < x < |img'.data| && img'.fat[x] != 0 ensures OnSomeChain(img', x) {
      if x in c + add {
        assert x in ChainOf(img', f.slot);
      } else {
        assert OnSomeChain(img, x);
        var j :| 0 <= j < |img.dir| && img.dir[j].InUse() && x in ChainOf(img, j);
        OthersKept(img, f, c, add, chunk, j);
        assert x in ChainOf(img', j);
      }
    }
  }

  lemma WrittenSized(img: Image, f: Fd, c: seq<nat>, add: seq<nat>, chunk: seq<Byte>)
    requires WriteReady(img, f, c, add, chunk)
    ensures Sized(After(img, f, c, add, chunk))
  {
    var img' := After(img, f, c, add, chunk);
    forall j | 0 <= j < |img'.dir| && img'.dir[j].InUse()
      ensures |ChainOf(img', j)| == BlocksFor(img'.dir[j].size)
    {
      if j == f.slot {
        WrittenChain(img, f, c, add, chunk);
      } else {
        OthersKept(img, f, c, add, chunk, j);
      }
    }
  }

  lemma WrittenOk(img: Image, f: Fd, c: seq<nat>, add: seq<nat>, chunk: seq<Byte>)
    requires WriteReady(img, f, c, add, chunk) && ImageOk(After(img, f, c, add, chunk))
    ensures ImageExact(After(img, f, c, add, chunk))
  {
    var img' := After(img, f, c, add, chunk);
    assert EntryOk(img.dir[f.slot]);
    UpdateKeepsDir(img.dir, f.slot, NewSize(f, chunk) % 0x1_0000_0000, Head(c + add) % 0x1_0000);
    assert img'.dir[f.slot].Name() == img.dir[f.slot].Name();
    WrittenSized(img, f, c, add, chunk);
    WrittenNoLeak(img, f, c, add, chunk);
  }

  /* ---------- WriteOp ---------- */

  // WriteOp on an open descriptor and a buffer that is not empty
  lemma WriteOpParts(s: FsState, fd: int, bytes: Buffer)
    requires Shaped(s) && IsOpen(s.fds, fd) && bytes != []
    ensures var f := s.fds[fd]; var c, add := Chain(s.img.fat, f.first), Appended(s.img, f, |bytes|);
            var n := FittingBytes(f.offset, |bytes|, |c + add|); var f' := Advanced(f, c + add, n);
            WriteOp(s, fd, bytes)
            == if add == [] && EndOffset(f.offset, |bytes|) > BLOCK_SIZE * |c + add| == f.offset then (s, Reply(0, []))
               else (s.(img := Stored(Grown(s.img, f.slot, c, add), f, f', c + add, bytes[..n]), fds := s.fds[fd := f']),
                     Reply(n, []))
  {
    hide Appended, FittingBytes, Grown, Stored, Advanced, Chain;
  }

  /* ---------- WriteOp through a descriptor that agrees with the directory ---------- */

  // The pieces of a write through an open descriptor
  function Before(s: FsState, fd: int): seq<nat>
    requires IsOpen(s.fds, fd)
  {
    Chain(s.img.fat, s.fds[fd].first)
  }

  function Taken(s: FsState, fd: int, count: nat): (n: nat)
    requires IsOpen(s.fds, fd) && |s.img.data| <= |s.img.fat|
    ensures n <= count
  {
    FittingBytes(s.fds[fd].offset, count, |Before(s, fd) + Appended(s.img, s.fds[fd], count)|)
  }

  lemma WriteIsReady(s: FsState, fd: int, bytes: Buffer)
    requires Current(s, fd) && s.fds[fd].offset + |bytes| < SIZE_T_LIMIT
    ensures WriteReady(s.img, s.fds[fd], Before(s, fd), Appended(s.img, s.fds[fd], |bytes|), bytes[..Taken(s, fd, |bytes|)])
    ensures var room := BLOCK_SIZE * (BlocksFor(s.fds[fd].size) + |FreeList(s.img.fat, |s.img.data|)|) - s.fds[fd].offset;
            Taken(s, fd, |bytes|) == if |bytes| <= room then |bytes| else room
  {
    var f := s.fds[fd];
    WriteGrows(s, fd, |bytes|);
    DescriptorMatches(s, fd);
    WriteArithmetic(f.size, f.offset, |bytes|, |FreeList(s.img.fat, |s.img.data|)|,
                    |Appended(s.img, f, |bytes|)|, Taken(s, fd, |bytes|));
  }

  lemma NothingWritten(img: Image, f: Fd, c: seq<nat>)
    requires WriteReady(img, f, c, [], [])
    ensures After(img, f, c, [], []) == img && Advanced(f, c, 0) == f
  {
    assert c + [] == c;
    RelinkSame(img.fat, f.first, c);
    ClearNothing(img.data);
    WriteNothing(img.data, c, f.offset);
    assert img.dir[f.slot := img.dir[f.slot]] == img.dir;
  }

  lemma StoredDir(dir: seq<DirEntry>, i: nat, c: seq<nat>, add: seq<nat>, size: nat)
    requires i < |dir| && dir[i].index == Head(c) && size < 0x1_0000_0000
    ensures var d := if c == [] && add != [] then dir[i := dir[i].(index := add[0])] else dir;
            d[i := d[i].(size := size % 0x1_0000_0000)] == dir[i := dir[i].(size := size, index := Head(c + add))]
  {
  }

  // The image fs_write leaves is After, the record written in one piece.
  lemma StoredIsAfter(img: Image, f: Fd, c: seq<nat>, add: seq<nat>, chunk: seq<Byte>)
    requires WriteReady(img, f, c, add, chunk)
    ensures Stored(Grown(img, f.slot, c, add), f, Advanced(f, c + add, |chunk|), c + add, chunk)
         == After(img, f, c, add, chunk)
    ensures Advanced(f, c + add, |chunk|).size == NewSize(f, chunk) <= MAX_SIZE
  {
    ChainLength(img, f, c, add);
    BlocksForIsCeiling(NewSize(f, chunk), |c + add|);
    StoredDir(img.dir, f.slot, c, add, NewSize(f, chunk));
    assert Advanced(f, c + add, |chunk|).size == NewSize(f, chunk);
  }

  lemma WriteOpIsAfter(s: FsState, fd: int, bytes: Buffer)
    requires Current(s, fd) && Shaped(s) && s.fds[fd].offset + |bytes| < SIZE_T_LIMIT
    ensures s.fds[fd].slot < |s.img.dir|
    ensures var f := s.fds[fd]; var c := Before(s, fd); var n := Taken(s, fd, |bytes|);
            var add := Appended(s.img, f, |bytes|);
            && (bytes == [] ==> add == [])
            && WriteOp(s, fd, bytes)
            == (s.(img := After(s.img, f, c, add, bytes[..n]), fds := s.fds[fd := Advanced(f, c + add, n)]), Reply(n, []))
  {
    hide Current, WriteReady, After, Grown, Stored;
    CurrentShaped(s, fd);
    var f := s.fds[fd];
    var c, n := Before(s, fd), Taken(s, fd, |bytes|);
    var add := Appended(s.img, f, |bytes|);
    WriteIsReady(s, fd, bytes);
    WriteSizes(s, fd, bytes);
    StoredIsAfter(s.img, f, c, add, bytes[..n]);
    if add == [] && n == 0 {
      assert bytes[..n] == [] && c + add == c;
      NothingWritten(s.img, f, c);
      assert s.fds[fd := f] == s.fds;
    }
  }

  lemma WriteSizes(s: FsState, fd: int, bytes: Buffer)
    requires Current(s, fd) && s.fds[fd].offset + |bytes| < SIZE_T_LIMIT
    ensures var f := s.fds[fd]; var add := Appended(s.img, f, |bytes|);
            && f.slot < |s.img.dir|
            && (bytes == [] ==> add == [] && Taken(s, fd, |bytes|) == 0)
            && (add == [] && EndOffset(f.offset, |bytes|) > BLOCK_SIZE * |Before(s, fd)| == f.offset
                ==> Taken(s, fd, |bytes|) == 0)
  {
  }

  // A write whose end overflows size_t returns 0 and changes nothing.
  lemma OverflowingWrite(s: FsState, fd: int, bytes: Buffer)
    requires Current(s, fd) && Shaped(s) && s.fds[fd].offset + |bytes| >= SIZE_T_LIMIT
    ensures WriteOp(s, fd, bytes) == (s, Reply(0, []))
  {
    hide After, Stored, Grown;
    var f := s.fds[fd];
    var c := Before(s, fd);
    WriteGrows(s, fd, |bytes|);
    DescriptorMatches(s, fd);
    OverflowArithmetic(f.size, f.offset, |bytes|);
    assert Appended(s.img, f, |bytes|) == [];
    assert c + [] == c && bytes[..0] == [];
    BlocksForIsCeiling(f.size, |c|);
    NothingWritten(s.img, f, c);
    StoredIsAfter(s.img, f, c, [], []);
    assert s.fds[fd := f] == s.fds;
  }

  lemma InvImage(s: FsState)
    requires Inv(s)
    ensures ImageOk(s.img)
  {
  }

  // The descriptor that wrote still agrees with the directory afterwards.
  lemma WriteKeepsCurrent(s: FsState, fd: int, bytes: Buffer)
    requires Current(s, fd)
    ensures Shaped(s) && Current(WriteOp(s, fd, bytes).0, fd)
  {
    hide Grown, Stored, Growing, Appended, Taken, Relink, WriteAt, Inv, ImageOk, ImageExact, WriteOp, WriteReady;
    WriteKeepsInv(s, fd, bytes);
    InvImage(WriteOp(s, fd, bytes).0);
    if s.fds[fd].offset + |bytes| >= SIZE_T_LIMIT {
      OverflowingWrite(s, fd, bytes);
    } else {
      var f, add, chunk := s.fds[fd], Appended(s.img, s.fds[fd], |bytes|), bytes[..Taken(s, fd, |bytes|)];
      WriteIsReady(s, fd, bytes);
      WriteOpIsAfter(s, fd, bytes);
      WrittenOk(s.img, f, Before(s, fd), add, chunk);
      WriteReadyFacts(s.img, f, Before(s, fd), add, chunk);
      StoredIsAfter(s.img, f, Before(s, fd), add, chunk);
    }
  }

  /* ---------- files that are open more than once ---------- */

  // Another open descriptor is on the same directory record
  predicate Shared(fds: seq<Fd>, fd: int)
    requires IsOpen(fds, fd)
  {
    exists k :: 0 <= k < |fds| && k != fd && fds[k].inUse && fds[k].slot == fds[fd].slot
  }

  // The call is a write that runs past the end of a file which another descriptor has open too,
  // does not overflow size_t, and finds room in the last block or a free block.
  predicate ExtendsShared(s: FsState, op: Op)
    requires Shaped(s)
  {
    && op.Write? && IsOpen(s.fds, op.fd) && Shared(s.fds, op.fd)
    && s.fds[op.fd].size < s.fds[op.fd].offset + |op.bytes| < SIZE_T_LIMIT
    && (s.fds[op.fd].size % BLOCK_SIZE != 0 || FreeList(s.img.fat, |s.img.data|) != [])
  }

  // A write makes the file longer exactly when it runs past the end and finds room.
  lemma SizeGrowsIff(s: FsState, fd: int, bytes: Buffer)
    requires Current(s, fd) && Shaped(s) && s.fds[fd].offset + |bytes| < SIZE_T_LIMIT
    ensures var f := s.fds[fd]; var size' := NewSize(f, bytes[..Taken(s, fd, |bytes|)]);
            && f.size <= size'
            && (f.size < size' <==>
                  f.size < f.offset + |bytes|
                  && (f.size % BLOCK_SIZE != 0 || FreeList(s.img.fat, |s.img.data|) != []))
  {
    hide FreeList, Appended, WriteReady;
    WriteIsReady(s, fd, bytes);
    DescriptorMatches(s, fd);
    RoomArithmetic(s.fds[fd].size, s.fds[fd].offset, |bytes|, |FreeList(s.img.fat, |s.img.data|)|);
  }

  lemma RoomArithmetic(size: nat, offset: nat, count: nat, free: nat)
    requires offset <= size
    ensures var room := BLOCK_SIZE * (BlocksFor(size) + free) - offset;
            var n := if count <= room then count else room;
            size < offset + n <==> size < offset + count && (size % BLOCK_SIZE != 0 || free > 0)
  {
  }

  // What a write does to the directory: the record of its file gets the new size, and changes only if that grew.
  lemma WriteRecord(s: FsState, fd: int, bytes: Buffer)
    requires Current(s, fd) && Shaped(s) && s.fds[fd].offset + |bytes| < SIZE_T_LIMIT
    ensures var f := s.fds[fd]; var s' := WriteOp(s, fd, bytes).0;
            var size' := NewSize(f, bytes[..Taken(s, fd, |bytes|)]);
            && f.slot < |s.img.dir| == |s'.img.dir| && |s'.fds| == |s.fds|
            && s'.img.dir == s.img.dir[f.slot := s'.img.dir[f.slot]] && s'.img.dir[f.slot].size == size'
            && (size' == f.size ==> s'.img.dir == s.img.dir)
            && s'.fds == s.fds[fd := s'.fds[fd]]
  {
    hide Appended, Grown, Stored, Taken, WriteReady, WriteOp, Relink, WriteAt, Current;
    CurrentShaped(s, fd);
    var f, c, add, chunk := s.fds[fd], Before(s, fd), Appended(s.img, s.fds[fd], |bytes|), bytes[..Taken(s, fd, |bytes|)];
    WriteIsReady(s, fd, bytes);
    WriteOpIsAfter(s, fd, bytes);
    WriteReadyFacts(s.img, f, c, add, chunk);
    if NewSize(f, chunk) == f.size {
      NothingAdded(s.img, f, c, add, chunk);
    }
  }

  lemma NothingAdded(img: Image, f: Fd, c: seq<nat>, add: seq<nat>, chunk: seq<Byte>)
    requires WriteReady(img, f, c, add, chunk) && NewSize(f, chunk) == f.size
    ensures add == [] && f.slot < |img.dir| && After(img, f, c, add, chunk).dir == img.dir
  {
    assert |c| == BlocksFor(f.size);
    assert c + [] == c;
    assert img.dir[f.slot := img.dir[f.slot]] == img.dir;
  }

  // Descriptors that were in agreement stay so, unless they are on a record that changed.
  lemma SyncReplaced(img: Image, img': Image, fds: seq<Fd>, fd: nat, f: Fd)
    requires fd < |fds| && fds[fd].inUse && f.slot == fds[fd].slot < |img.dir| == |img'.dir|
    requires AllInSync(img, fds) && InSync(img', f) && img'.dir == img.dir[f.slot := img'.dir[f.slot]]
    requires !Shared(fds, fd) || img'.dir == img.dir
    ensures AllInSync(img', fds[fd := f])
  {
  }

  lemma WriteKeepsExact(s: FsState, fd: int, bytes: Buffer)
    requires Exact(s) && Shaped(s) && !ExtendsShared(s, Write(fd, bytes))
    ensures Exact(WriteOp(s, fd, bytes).0)
  {
    hide Inv, ImageExact, WriteOp, FreeList, Shared;
    if IsOpen(s.fds, fd) {
      ExactCurrent(s, fd);
      if s.fds[fd].offset + |bytes| >= SIZE_T_LIMIT {
        OverflowingWrite(s, fd, bytes);
      } else {
        var s' := WriteOp(s, fd, bytes).0;
        WriteKeepsCurrent(s, fd, bytes);
        WriteRecord(s, fd, bytes);
        SizeGrowsIff(s, fd, bytes);
        WrittenSlot(s, fd, bytes);
        SyncReplaced(s.img, s'.img, s.fds, fd, s'.fds[fd]);
      }
    } else {
      assert WriteOp(s, fd, bytes).0 == s by { ClosedWrite(s, fd, bytes); }
    }
  }

  lemma ClosedWrite(s: FsState, fd: int, bytes: Buffer)
    requires Shaped(s) && !IsOpen(s.fds, fd)
    ensures WriteOp(s, fd, bytes) == (s, FAILED)
  {
  }

  lemma WrittenSlot(s: FsState, fd: int, bytes: Buffer)
    requires Shaped(s) && IsOpen(s.fds, fd)
    ensures var s' := WriteOp(s, fd, bytes).0; IsOpen(s'.fds, fd) && s'.fds[fd].slot == s.fds[fd].slot
  {
  }

  // Whoever shares the file with an extending write is left with a size that is no longer the file's.
  lemma ExtensionLeavesBehind(s: FsState, fd: int, bytes: Buffer, k: int)
    requires Exact(s) && Shaped(s) && ExtendsShared(s, Write(fd, bytes))
    requires IsOpen(s.fds, k) && k != fd && s.fds[k].slot == s.fds[fd].slot
    ensures var s' := WriteOp(s, fd, bytes).0;
            && IsOpen(s'.fds, k) && s'.fds[k] == s.fds[k] && s.fds[k].slot < |s'.img.dir|
            && s'.fds[k].size < s'.img.dir[s.fds[k].slot].size
  {
    hide Inv, ImageExact, WriteOp, FreeList;
    ExactCurrent(s, fd);
    WriteRecord(s, fd, bytes);
    SizeGrowsIff(s, fd, bytes);
    assert InSync(s.img, s.fds[k]) && InSync(s.img, s.fds[fd]);
  }

  /* ---------- every call ---------- */

  lemma StepKeepsExact(s: FsState, op: Op)
    requires Exact(s) && Shaped(s) && !ExtendsShared(s, op)
    ensures Exact(Step(s, op).0)
  {
    hide Exact, Inv, Quiet, ImageExact, ExtendsShared, WriteOp;
    if op.Write? {
      WriteKeepsExact(s, op.fd, op.bytes);
    } else {
      ExactInv(s);
      StepIsQuiet(s, op);
      QuietKeepsExact(s, Step(s, op).0);
    }
  }

  // One call keeps the strong invariant exactly when it does not extend a file that another descriptor
  // has open. Opening a file any number of times, and writing inside it, does no harm.
  lemma StepExactIff(s: FsState, op: Op)
    requires Exact(s)
    ensures Shaped(s) && (Exact(Step(s, op).0) <==> !ExtendsShared(s, op))
  {
    hide Inv, ImageExact, WriteOp, FreeList;
    ExactShaped(s);
    if ExtendsShared(s, op) {
      var k :| 0 <= k < |s.fds| && k != op.fd && s.fds[k].inUse && s.fds[k].slot == s.fds[op.fd].slot;
      ExtensionLeavesBehind(s, op.fd, op.bytes, k);
      assert !InSync(Step(s, op).0.img, Step(s, op).0.fds[k]);
    } else {
      StepKeepsExact(s, op);
    }
  }

  /* ---------- calls that avoid the descriptors left behind ---------- */

  // The call goes through a descriptor that was left behind; closing such a descriptor is no such call.
  predicate ThroughLeftBehind(s: FsState, op: Op) {
    (op.Stat? || op.Seek? || op.Write? || op.Read?) && LeftBehind(s, op.fd)
  }

  lemma WithinReplaced(img: Image, img': Image, fds: seq<Fd>, fd: nat, f: Fd)
    requires fd < |fds| && f.inUse && f.slot == fds[fd].slot < |img.dir| == |img'.dir|
    requires AllWithin(img, fds) && InSync(img', f) && img'.dir == img.dir[f.slot := img'.dir[f.slot]]
    requires img.dir[f.slot].size <= img'.dir[f.slot].size
    ensures AllWithin(img', fds[fd := f])
  {
    var fds' := fds[fd := f];
    forall i | 0 <= i < |fds'| ensures Within(img', fds'[i]) {
      assert Within(img, fds[i]);
    }
  }

  lemma WriteKeepsSound(s: FsState, fd: int, bytes: Buffer)
    requires Sound(s) && Shaped(s) && !LeftBehind(s, fd)
    ensures Sound(WriteOp(s, fd, bytes).0)
  {
    hide Inv, ImageExact, WriteOp, FreeList, LeftBehind;
    if IsOpen(s.fds, fd) {
      SizeTells(s, fd);
      if s.fds[fd].offset + |bytes| >= SIZE_T_LIMIT {
        OverflowingWrite(s, fd, bytes);
      } else {
        var s' := WriteOp(s, fd, bytes).0;
        WriteKeepsCurrent(s, fd, bytes);
        WriteRecord(s, fd, bytes);
        SizeGrowsIff(s, fd, bytes);
        WrittenSlot(s, fd, bytes);
        WithinReplaced(s.img, s'.img, s.fds, fd, s'.fds[fd]);
      }
    } else {
      ClosedWrite(s, fd, bytes);
    }
  }

  // Runs can go on after a shared file was extended, as long as nobody uses the descriptors left behind.
  lemma StepKeepsSound(s: FsState, op: Op)
    requires Sound(s) && !ThroughLeftBehind(s, op)
    ensures Shaped(s) && Sound(Step(s, op).0)
  {
    hide Sound, Inv, Quiet, ImageExact, LeftBehind, WriteOp;
    SoundParts(s);
    if op.Write? {
      WriteKeepsSound(s, op.fd, op.bytes);
    } else {
      StepIsQuiet(s, op);
      QuietKeepsSound(s, Step(s, op).0);
    }
  }
}
