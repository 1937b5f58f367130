/**
 What the calls do in every state that satisfies the structural invariant, also with blocks lost and descriptors
 left behind: spelled out entry by entry and byte by byte, with the numbers of the format written out.
 fs_create and fs_open are in Theorems, fs_mount in Superblock.
 */
module Calls {
  import opened Layout
  import opened Chains
  import opened Forests
  import opened Allocation
  import opened Contents
  import opened Directory
  import opened Semantics
  import opened Structure
  import opened Exactness
  import opened Writing

  /* ---------- fs_delete ---------- */

  predicate Blank(e: DirEntry) {
    && |e.filename| == 16 && (forall p :: 0 <= p < 16 ==> e.filename[p] == 0)
    && e.size == 0 && e.index == 0
    && |e.padding| == 10 && (forall p :: 0 <= p < 10 ==> e.padding[p] == 0)
  }

  // A delete blanks the record and frees every block of the file's chain, however long the record says the file is.
  lemma DeleteFrees(s: FsState, name: CString, i: nat, c: seq<nat>)
    requires Inv(s) && DeleteOp(s, name).1.ret == 0
    requires i < |s.img.dir| && s.img.dir[i].Name() == name && Linked(s.img.fat, s.img.dir[i].index, c)
    ensures var (s', r) := DeleteOp(s, name);
            && r == Reply(0, []) && s' == s.(img := s.img.(fat := s'.img.fat, dir := s'.img.dir))
            && |s'.img.fat| == |s.img.fat| >= |s.img.data|
            && (forall x :: 0 <= x < |s.img.fat| ==> s'.img.fat[x] == if x in c then 0 else s.img.fat[x])
            && |s'.img.dir| == |s.img.dir| && s'.img.dir == s.img.dir[i := s'.img.dir[i]] && Blank(s'.img.dir[i])
            && |FreeList(s'.img.fat, |s.img.data|)| == |FreeList(s.img.fat, |s.img.data|)| + |c|
  {
    hide UntilNul, FindName, FreeList, Chain, Linked;
    DeletedSlot(s, i);
    ChainUnique(s.img.fat, s.img.dir[i].index, c);
    if s.img.dir[i].index == FAT_EOC {
      ZeroedNothing(s.img.fat);
    } else {
      FreeAfterErase(s.img.fat, |s.img.data|, s.img.dir[i].index);
    }
  }

  lemma DeletedSlot(s: FsState, i: nat)
    requires Inv(s) && i < |s.img.dir| && s.img.dir[i].InUse()
    ensures FindName(s.img.dir, s.img.dir[i].Name()) == i && |s.img.data| <= |s.img.fat|
    ensures Forest(s.img.fat, |s.img.data|) && IsHead(s.img.fat, |s.img.data|, s.img.dir[i].index)
    ensures s.img.dir[i].index == FAT_EOC <==> Chain(s.img.fat, s.img.dir[i].index) == []
  {
    FindNameAt(s.img.dir, i);
    HeadTerminates(s.img.fat, |s.img.data|, s.img.dir[i].index);
  }

  /* ---------- fs_close, fs_stat, fs_lseek, remounting ---------- */

  predicate Reset(f: Fd) {
    f == Fd(false, None, 0, 0, 0, 65535)
  }

  lemma CloseResets(s: FsState, fd: int)
    requires Inv(s)
    ensures CloseOp(s, fd).1.ret == 0 <==> 0 <= fd < 32 && s.fds[fd].inUse
    ensures CloseOp(s, fd).1.ret != 0 ==> CloseOp(s, fd) == (s, Reply(-1, []))
    ensures CloseOp(s, fd).1.ret == 0 ==>
            var (s', r) := CloseOp(s, fd);
            && r == Reply(0, []) && s'.img == s.img && s'.occupied == s.occupied - 1
            && |s'.fds| == |s.fds| && s'.fds == s.fds[fd := s'.fds[fd]] && Reset(s'.fds[fd])
  {
    InvSizes(s);
    CountExtremes(s.fds);
  }

  // fs_stat answers what the descriptor remembers, and changes nothing.
  lemma StatAnswers(s: FsState, fd: int)
    requires Inv(s)
    ensures StatOp(s, fd).0 == s
    ensures StatOp(s, fd).1 == Reply(if 0 <= fd < 32 && s.fds[fd].inUse then s.fds[fd].size else -1, [])
  {
  }

  // After fs_open fs_stat answers the size in the record.
  lemma StatAfterOpen(s: FsState, name: CString, i: nat)
    requires Inv(s) && OpenOp(s, name).1.ret >= 0
    requires i < |s.img.dir| && s.img.dir[i].Name() == name
    ensures var (s', r) := OpenOp(s, name);
            StatOp(s', r.ret).1 == Reply(if s.img.dir[i].index == 65535 then 0 else s.img.dir[i].size, [])
  {
    FindNameAt(s.img.dir, i);
  }

  // Only a write through the descriptor itself, closing it or remounting change what fs_stat answers of it.
  lemma StatStays(s: FsState, op: Op, fd: int)
    requires Inv(s) && IsOpen(s.fds, fd)
    requires !(op.Write? && op.fd == fd) && !(op.Close? && op.fd == fd) && !op.Remount?
    ensures Shaped(s) && StatOp(Step(s, op).0, fd).1 == StatOp(s, fd).1
  {
    hide UntilNul, FindName, FirstBlank, Grown, Stored, Appended, FittingBytes, Chain;
    InvShaped(s);
    if op.EraseAll? { CountExtremes(s.fds); }
  }

  // fs_lseek succeeds exactly up to the size that fs_stat reports, and moves only the offset of that descriptor.
  lemma SeekSucceedsIff(s: FsState, fd: int, offset: nat)
    requires Inv(s)
    ensures SeekOp(s, fd, offset).1.ret == 0 <==> offset <= StatOp(s, fd).1.ret
    ensures SeekOp(s, fd, offset).1.ret != 0 ==> SeekOp(s, fd, offset) == (s, Reply(-1, []))
    ensures SeekOp(s, fd, offset).1.ret == 0 ==>
            && 0 <= fd < 32 == |s.fds| && s.fds[fd].inUse
            && SeekOp(s, fd, offset) == (s.(fds := s.fds[fd := s.fds[fd].(offset := offset)]), Reply(0, []))
  {
  }

  // Unmounting and mounting close all 32 descriptors and keep the image.
  lemma RemountResets(s: FsState)
    ensures var (s', r) := RemountOp(s);
            && r == Reply(0, []) && s'.img == s.img && s'.occupied == 0
            && |s'.fds| == 32 && forall i :: 0 <= i < 32 ==> Reset(s'.fds[i])
  {
  }

  /* ---------- fs_read ---------- */

  // Where a request of count bytes ends, in a 64-bit sum
  function RequestEnd(offset: nat, count: nat): nat {
    (offset + count) % 0x1_0000_0000_0000_0000
  }

  // Byte p of the chain c: past its end the last block is seen again
  predicate IsByteAt(data: seq<Block>, c: seq<nat>, p: nat, b: Byte) {
    && c != []
    && var x := c[if p / 4096 < |c| then p / 4096 else |c| - 1];
       x < |data| && data[x][p % 4096] == b
  }

  // fs_read delivers the bytes between the offset and the end of the request or of the file as the descriptor
  // knows it, and moves only the offset.
  lemma ReadDelivers(s: FsState, fd: int, count: SizeT, c: seq<nat>)
    requires Inv(s) && IsOpen(s.fds, fd) && Linked(s.img.fat, s.fds[fd].first, c)
    ensures var f := s.fds[fd]; var end := RequestEnd(f.offset, count); var stop := if end <= f.size then end else f.size;
            var n := if c == [] || stop <= f.offset then 0 else stop - f.offset;
            var (s', r) := ReadOp(s, fd, count);
            && s' == s.(fds := s.fds[fd := f.(offset := f.offset + n)])
            && r.ret == n == |r.bytes| && forall i :: 0 <= i < n ==> IsByteAt(s.img.data, c, f.offset + i, r.bytes[i])
  {
    hide Chain, Linked;
    var f := s.fds[fd];
    OpenChain(s, fd, c);
    forall i | 0 <= i < ReadCount(f, count)
      ensures IsByteAt(s.img.data, c, f.offset + i, Slice(s.img.data, c, f.offset, ReadCount(f, count))[i])
    {
      ChainByte(s.img.data, c, f.offset + i);
    }
  }

  lemma OpenChain(s: FsState, fd: int, c: seq<nat>)
    requires Inv(s) && IsOpen(s.fds, fd) && Linked(s.img.fat, s.fds[fd].first, c)
    ensures Chain(s.img.fat, s.fds[fd].first) == c && Head(c) == s.fds[fd].first
    ensures s.fds[fd].first == FAT_EOC <==> c == []
    ensures forall x :: x in c ==> x < |s.img.data|
    ensures s.fds[fd].slot < |s.img.dir| && |s.img.data| <= |s.img.fat| && s.fds[fd].size <= MAX_SIZE
  {
    OpenFdOk(s, fd);
    ChainUnique(s.img.fat, s.fds[fd].first, c);
    HeadTerminates(s.img.fat, |s.img.data|, s.fds[fd].first);
    forall x | x in c ensures x < |s.img.data| {
      ElementLive(s.img.fat, |s.img.data|, s.fds[fd].first, x);
    }
  }

  lemma ChainByte(data: seq<Block>, c: seq<nat>, p: nat)
    requires c != [] && forall x :: x in c ==> x < |data|
    ensures IsByteAt(data, c, p, ByteAt(data, c, p))
  {
    SkipToMember(c, p / BLOCK_SIZE);
  }

  /* ---------- fs_write ---------- */

  // The blocks that a write appends to the chain c: as many of the lowest free ones as the end of the request needs
  function Taking(img: Image, c: seq<nat>, end: nat): seq<nat>
    requires |img.data| <= |img.fat|
  {
    var free := FreeList(img.fat, |img.data|);
    var need := if end <= 4096 * |c| then 0 else (end + 4095) / 4096 - |c|;
    if need <= |free| then free[..need] else free
  }

  // The table has the chain all, and every other entry is as before
  ghost predicate TableAfter(fat: seq<nat>, fat': seq<nat>, all: seq<nat>) {
    && |fat'| == |fat| && Linked(fat', if all == [] then 65535 else all[0], all)
    && forall x :: 0 <= x < |fat| && x !in all ==> fat'[x] == fat[x]
  }

  // Byte j of block k of the chain is a written one, an old one, or zero in an appended block
  ghost predicate ByteAfter(data: seq<Block>, data': seq<Block>, c: seq<nat>, all: seq<nat>,
                            off: nat, chunk: seq<Byte>, k: nat, j: nat)
    requires k < |all| && j < 4096
  {
    && all[k] < |data| == |data'|
    && data'[all[k]][j] == if off <= 4096 * k + j < off + |chunk| then chunk[4096 * k + j - off]
                           else if k < |c| then data[all[k]][j] else 0
  }

  ghost predicate DataAfter(data: seq<Block>, data': seq<Block>, c: seq<nat>, all: seq<nat>, off: nat, chunk: seq<Byte>) {
    && |data'| == |data|
    && (forall b :: 0 <= b < |data| && b !in all ==> data'[b] == data[b])
    && forall k, j :: 0 <= k < |all| && 0 <= j < 4096 ==> ByteAfter(data, data', c, all, off, chunk, k, j)
  }

  // What a write of the given bytes through descriptor fd does to the state, when the chain of the file was c, the
  // blocks add were appended and the first n bytes accepted
  ghost predicate Wrote(s: FsState, s': FsState, fd: nat, bytes: seq<Byte>, c: seq<nat>, add: seq<nat>, n: nat)
    requires fd < |s.fds| && n <= |bytes|
  {
    var f := s.fds[fd];
    var all := c + add;
    var size := if n > 0 && f.offset + n > f.size then f.offset + n else f.size;
    && TableAfter(s.img.fat, s'.img.fat, all)
    && DataAfter(s.img.data, s'.img.data, c, all, f.offset, bytes[..n])
    && f.slot < |s.img.dir|
    && s'.img.dir == s.img.dir[f.slot := s.img.dir[f.slot].(size := size,
                       index := if c == [] && add != [] then add[0] else s.img.dir[f.slot].index)]
    && s'.fds == s.fds[fd := f.(first := if all == [] then 65535 else all[0], offset := f.offset + n, size := size)]
    && s'.occupied == s.occupied
  }

  // fs_write appends as many free blocks as it needs or finds, lowest first, accepts the bytes up to the end of the
  // chain, stores exactly these, and puts the size the descriptor then has in the record. It does nothing when the
  // byte at the offset gets no block.
  lemma WriteStores(s: FsState, fd: int, bytes: Buffer, c: seq<nat>)
    requires Inv(s) && IsOpen(s.fds, fd) && bytes != [] && Linked(s.img.fat, s.fds[fd].first, c)
    ensures Shaped(s)
    ensures var f := s.fds[fd]; var end := RequestEnd(f.offset, |bytes|); var add := Taking(s.img, c, end);
            var stop := if end <= 4096 * |c + add| then end else 4096 * |c + add|;
            var n := if stop <= f.offset then 0 else stop - f.offset;
            var (s', r) := WriteOp(s, fd, bytes);
            && r == Reply(n, []) && n <= |bytes|
            && if add == [] && end > 4096 * |c| == f.offset then s' == s else Wrote(s, s', fd, bytes, c, add, n)
  {
    hide Chain, Linked, FreeList, WriteOp, Wrote, Inv, Appended, Taking, Stored, Grown, Advanced, FittingBytes, EndOffset,
         RequestEnd;
    InvShaped(s);
    var f := s.fds[fd];
    var end := RequestEnd(f.offset, |bytes|);
    OpenChain(s, fd, c);
    TakingIsAppended(s.img, f, |bytes|, c);
    Fitting(f.offset, |bytes|, |c + Taking(s.img, c, end)|);
    WriteOpParts(s, fd, bytes);
    var add := Taking(s.img, c, end);
    if !(add == [] && end > 4096 * |c| == f.offset) {
      WroteParts(s, fd, bytes, c);
    } else {
      assert c + add == c;
    }
  }

  lemma TakingIsAppended(img: Image, f: Fd, count: nat, c: seq<nat>)
    requires |img.data| <= |img.fat| && c == Chain(img.fat, f.first)
    ensures Appended(img, f, count) == Taking(img, c, RequestEnd(f.offset, count))
  {
    hide FreeList, Chain;
  }

  lemma TableGrown(fat: seq<nat>, n: nat, c: seq<nat>, add: seq<nat>)
    requires Growth(fat, n, c, add)
    ensures TableAfter(fat, Relink(fat, c + add), c + add)
  {
    hide Relink, Growth, Linked;
    GrowthElements(fat, n, c, add);
    forall x | 0 <= x < |fat| && x !in c + add ensures Relink(fat, c + add)[x] == fat[x] {
      RelinkOutside(fat, c + add, x);
    }
  }

  lemma DataStored(data: seq<Block>, c: seq<nat>, add: seq<nat>, off: nat, chunk: seq<Byte>)
    requires Distinct(c + add) && forall x :: x in c + add ==> x < |data|
    ensures DataAfter(data, WriteAt(Cleared(data, add), c + add, off, chunk), c, c + add, off, chunk)
  {
    hide WriteAt, Cleared;
    var data' := WriteAt(Cleared(data, add), c + add, off, chunk);
    forall b | 0 <= b < |data| && b !in c + add ensures data'[b] == data[b] {
      BlockOutside(data, c, add, off, chunk, b);
    }
    forall k, j | 0 <= k < |c + add| && 0 <= j < 4096 ensures ByteAfter(data, data', c, c + add, off, chunk, k, j) {
      ByteStored(data, c, add, off, chunk, k, j);
    }
  }

  lemma BlockOutside(data: seq<Block>, c: seq<nat>, add: seq<nat>, off: nat, chunk: seq<Byte>, b: nat)
    requires b < |data| && b !in c + add
    ensures WriteAt(Cleared(data, add), c + add, off, chunk)[b] == data[b]
  {
  }

  lemma ByteStored(data: seq<Block>, c: seq<nat>, add: seq<nat>, off: nat, chunk: seq<Byte>, k: nat, j: nat)
    requires Distinct(c + add) && (forall x :: x in c + add ==> x < |data|) && k < |c + add| && j < 4096
    ensures ByteAfter(data, WriteAt(Cleared(data, add), c + add, off, chunk), c, c + add, off, chunk, k, j)
  {
    hide WriteAt, Cleared, Distinct, Patch;
    var b := (c + add)[k];
    assert b in c + add;
    BlockStored(Cleared(data, add), c + add, off, chunk, k);
    PatchedByte(Cleared(data, add)[b], k, off, chunk, j);
    BlockCleared(data, c, add, k);
  }

  lemma BlockStored(data: seq<Block>, e: seq<nat>, off: nat, chunk: seq<Byte>, k: nat)
    requires Distinct(e) && k < |e| && e[k] < |data|
    ensures WriteAt(data, e, off, chunk)[e[k]] == Patch(data[e[k]], BLOCK_SIZE * k, off, chunk)
  {
    hide Patch;
    IndexOfAt(e, k);
  }

  lemma PatchedByte(block: Block, k: nat, off: nat, chunk: seq<Byte>, j: nat)
    requires j < 4096
    ensures Patch(block, BLOCK_SIZE * k, off, chunk)[j]
         == if off <= 4096 * k + j < off + |chunk| then chunk[4096 * k + j - off] else block[j]
  {
  }

  lemma BlockCleared(data: seq<Block>, c: seq<nat>, add: seq<nat>, k: nat)
    requires Distinct(c + add) && k < |c + add| && (c + add)[k] < |data|
    ensures Cleared(data, add)[(c + add)[k]] == if k < |c| then data[c[k]] else ZeroBlock()
  {
    hide Distinct;
    if k < |c| {
      DistinctParts(c, add, k);
    } else {
      assert (c + add)[k] == add[k - |c|];
    }
  }

  lemma DistinctParts(c: seq<nat>, add: seq<nat>, k: nat)
    requires Distinct(c + add) && k < |c|
    ensures (c + add)[k] == c[k] && c[k] !in add
  {
    if c[k] in add {
      assert (c + add)[k] == (c + add)[|c| + IndexOf(add, c[k])];
    }
  }

  lemma WroteParts(s: FsState, fd: int, bytes: Buffer, c: seq<nat>)
    requires Inv(s) && Shaped(s) && IsOpen(s.fds, fd) && bytes != [] && Linked(s.img.fat, s.fds[fd].first, c)
    ensures var f := s.fds[fd]; var add := Appended(s.img, f, |bytes|); var n := FittingBytes(f.offset, |bytes|, |c + add|);
            var f' := Advanced(f, c + add, n);
            && f.slot < |s.img.dir|
            && var s' := s.(img := Stored(Grown(s.img, f.slot, c, add), f, f', c + add, bytes[..n]), fds := s.fds[fd := f']);
               Wrote(s, s', fd, bytes, c, add, n)
  {
    hide Chain, Linked, Appended, TableAfter, DataAfter, WriteAt, Cleared, Relink, Growth, Growing, Distinct, Inv, Stored,
         Grown, Advanced, FittingBytes;
    var f := s.fds[fd];
    OpenChain(s, fd, c);
    WriteGrows(s, fd, |bytes|);
    var add := Appended(s.img, f, |bytes|);
    var n := FittingBytes(f.offset, |bytes|, |c + add|);
    GrowingGrowth(s.img, f, c, add);
    GrowthElements(s.img.fat, |s.img.data|, c, add);
    ChainLength(s.img, f, c, add);
    TableGrown(s.img.fat, |s.img.data|, c, add);
    DataStored(s.img.data, c, add, f.offset, bytes[..n]);
    FitsInChain(f.offset, |bytes|, |c + add|);
    StoredImage(s.img, f, c, add, bytes[..n]);
  }

  lemma GrowingGrowth(img: Image, f: Fd, c: seq<nat>, add: seq<nat>)
    requires Growing(img, f, c, add)
    ensures Growth(img.fat, |img.data|, c, add) && Head(c) == f.first
  {
  }

  lemma Fitting(offset: nat, count: nat, blocks: nat)
    ensures EndOffset(offset, count) == RequestEnd(offset, count)
    ensures var end := RequestEnd(offset, count); var stop := if end <= 4096 * blocks then end else 4096 * blocks;
            FittingBytes(offset, count, blocks) == (if stop <= offset then 0 else stop - offset) <= count
  {
  }

  lemma FitsInChain(offset: nat, count: nat, blocks: nat)
    ensures var n := FittingBytes(offset, count, blocks); n > 0 ==> offset + n <= BLOCK_SIZE * blocks
  {
  }

  // The image and the descriptor after the bytes were stored, field by field
  lemma StoredImage(img: Image, f: Fd, c: seq<nat>, add: seq<nat>, chunk: seq<Byte>)
    requires f.slot < |img.dir| && f.size <= MAX_SIZE && (|chunk| > 0 ==> f.offset + |chunk| <= MAX_SIZE)
    ensures var all := c + add; var f' := Advanced(f, all, |chunk|); var img' := Stored(Grown(img, f.slot, c, add), f, f', all, chunk);
            var size := if |chunk| > 0 && f.offset + |chunk| > f.size then f.offset + |chunk| else f.size;
            && img'.fat == Relink(img.fat, all) && img'.data == WriteAt(Cleared(img.data, add), all, f.offset, chunk)
            && img'.dir == img.dir[f.slot := img.dir[f.slot].(size := size,
                             index := if c == [] && add != [] then add[0] else img.dir[f.slot].index)]
            && f' == f.(first := if all == [] then 65535 else all[0], offset := f.offset + |chunk|, size := size)
  {
    hide Relink, WriteAt, Cleared;
  }

  /* ---------- erase_all_files ---------- */

  // Blocks on the chains of the first k records
  ghost predicate OnChainBelow(img: Image, k: nat, x: nat)
    requires k <= |img.dir|
  {
    exists i :: 0 <= i < k && img.dir[i].InUse() && x in ChainOf(img, i)
  }

  // While the first k files are erased, the chains of the others stay whole.
  lemma {:induction false} ErasedChain(img: Image, k: nat, j: nat)
    requires ImageOk(img) && k <= j < |img.dir| && img.dir[j].InUse()
    ensures ErasedImage(img, k).dir[j] == img.dir[j] && ChainOf(ErasedImage(img, k), j) == ChainOf(img, j)
  {
    hide ImageOk, Chain, UntilNul, ErasedFat;
    if k == 0 {
      ErasedNothing(img);
    } else {
      ErasedChain(img, k - 1, j);
      ErasedOk(img, k - 1);
      ErasedStep(img, k - 1);
      if img.dir[k - 1].InUse() { RemovedChain(ErasedImage(img, k - 1), k - 1, j); }
    }
  }

  lemma ErasedNothing(img: Image)
    ensures ErasedImage(img, 0) == img
  {
    assert ErasedDir(img.dir, 0) == img.dir;
  }

  lemma {:induction false} ErasedEntry(img: Image, k: nat, x: nat)
    requires ImageOk(img) && k <= |img.dir| && x < |img.fat|
    ensures ErasedImage(img, k).fat[x] == if OnChainBelow(img, k, x) then 0 else img.fat[x]
  {
    hide ImageOk, Chain, UntilNul, ErasedFat, Zeroed;
    if k == 0 {
      ErasedNothing(img);
    } else {
      ErasedEntry(img, k - 1, x);
      ErasedStep(img, k - 1);
      if img.dir[k - 1].InUse() {
        ErasedChain(img, k - 1, k - 1);
        RemovedEntry(ErasedImage(img, k - 1), k - 1, x);
      }
      OneMoreChain(img, k - 1, x);
    }
  }

  lemma OneMoreChain(img: Image, k: nat, x: nat)
    requires k < |img.dir|
    ensures OnChainBelow(img, k + 1, x) <==> OnChainBelow(img, k, x) || (img.dir[k].InUse() && x in ChainOf(img, k))
  {
    hide Chain;
  }

  // erase_all_files needs every descriptor closed, blanks every record in use and frees exactly the blocks of files.
  lemma EraseAllFrees(s: FsState)
    requires Inv(s)
    ensures EraseAllOp(s).1.ret == 0 <==> forall i :: 0 <= i < |s.fds| ==> !s.fds[i].inUse
    ensures EraseAllOp(s).1.ret != 0 ==> EraseAllOp(s) == (s, Reply(-1, []))
    ensures EraseAllOp(s).1.ret == 0 ==>
            var (s', r) := EraseAllOp(s);
            && r == Reply(0, []) && s' == s.(img := s.img.(fat := s'.img.fat, dir := s'.img.dir))
            && |s'.img.fat| == |s.img.fat| && |s'.img.dir| == |s.img.dir|
            && (forall x :: 0 <= x < |s.img.fat| ==> s'.img.fat[x] == if OnSomeChain(s.img, x) then 0 else s.img.fat[x])
            && forall i :: 0 <= i < |s.img.dir| ==>
                 if s.img.dir[i].InUse() then Blank(s'.img.dir[i]) else s'.img.dir[i] == s.img.dir[i]
  {
    hide UntilNul, Chain, ErasedFat;
    CountExtremes(s.fds);
    forall x | 0 <= x < |s.img.fat|
      ensures ErasedImage(s.img, |s.img.dir|).fat[x] == if OnSomeChain(s.img, x) then 0 else s.img.fat[x]
    {
      ErasedEntry(s.img, |s.img.dir|, x);
    }
  }
}
