/** The API of the file system (libfs/fs.c, libfs/utilities.c), each call proved against its meaning in Semantics. */
module FileSystems {
  import opened Layout
  import opened Chains
  import opened Forests
  import opened Allocation
  import opened Contents
  import opened Directory
  import opened Semantics
  import opened Structure
  import opened DiskImage
  import opened Superblock
  import opened ShortDevices
  import opened FdTables
  import opened Disks
  import opened Writing
  import opened Refinement

  class FileSystem {
    const disk: Disk
    // The globals disk_mounted and fd_table
    var mounted: bool
    var table: FdTable?

    constructor (disk: Disk)
      requires !disk.isOpen
      ensures this.disk == disk && !mounted && Valid()
    {
      this.disk := disk;
      mounted := false;
      table := null;
    }

    function Nodes(): seq<FdNode>
      reads this
    {
      if table == null then [] else table.nodes
    }

    function Tables(): set<FdTable>
      reads this
    {
      if table == null then {} else {table}
    }

    ghost predicate Running()
      reads this, disk, table, Nodes()
    {
      && mounted && table != null && table.Valid() && disk.Ready()
      && Accepted(disk.blocks)
      && disk.rootDirectoryIndex == DecodeMetadata(disk.blocks[0]).rootDirectoryIndex
      && disk.dataBlocks == DecodeMetadata(disk.blocks[0]).totalDataBlocks
    }

    function State(): FsState
      requires table != null && LaidOut(disk.blocks, disk.rootDirectoryIndex, disk.dataBlocks)
      reads this, disk, table, Nodes()
    {
      FsState(disk.View(), table.Views(), table.fdsOccupied)
    }

    ghost predicate Valid()
      reads this, disk, table, Nodes()
    {
      if mounted then Running() && Inv(State()) else !disk.isOpen
    }

    /* ---------- mounting ---------- */

    // The superblock is all that fs_mount looks at.
    method FsMount() returns (r: int)
      modifies this`mounted, this`table, disk`isOpen, disk`rootDirectoryIndex, disk`dataBlocks
      ensures r == if !old(disk.isOpen) && Accepted(disk.blocks) then 0 else -1
      ensures r == -1 ==> unchanged(this) && unchanged(disk)
      ensures r == 0 ==> mounted && disk.isOpen && table != null && fresh(table) && fresh(table.nodes)
      ensures r == 0 ==> Running() && State() == FsState(DiskImageOf(disk.blocks), FreshFds(), 0)
      ensures r == 0 && ImageOk(DiskImageOf(disk.blocks)) ==> Valid()
    {
      hide Inv, ImageOk, ImageOf, LaidOut, IsValidMetadata, DecodeMetadata;
      var ret := disk.BlockDiskOpen();
      if ret != 0 {
        return ret;
      }
      var buffer;
      ret, buffer := disk.BlockRead(SUPERBLOCK_INDEX, ZeroBlock());
      if ret != 0 {
        var closed := disk.BlockDiskClose();
        return ret;
      }
      var metadata := DecodeMetadata(buffer);
      var count := disk.BlockDiskCount();
      if !IsValidMetadata(metadata, count) {
        var closed := disk.BlockDiskClose();
        return -1;
      }
      mounted := true;
      disk.rootDirectoryIndex := metadata.rootDirectoryIndex;
      disk.dataBlocks := metadata.totalDataBlocks;
      table := new FdTable();
      AcceptedIsLaidOut(disk.blocks);
      if ImageOk(DiskImageOf(disk.blocks)) {
        FreshlyMounted(DiskImageOf(disk.blocks));
      }
      return 0;
    }

    // Open descriptors do not stop it, and the disk is left as it is.
    method FsUmount() returns (r: int)
      modifies this`mounted, this`table, disk`isOpen, disk`rootDirectoryIndex, disk`dataBlocks
      ensures r == if old(disk.isOpen) then 0 else -1
      ensures r == 0 ==> !mounted && !disk.isOpen && Valid()
      ensures r == -1 ==> unchanged(this) && unchanged(disk)
      ensures old(Valid()) && old(mounted) ==>
                r == 0 && Accepted(disk.blocks) && ImageOk(DiskImageOf(disk.blocks))
                && DiskImageOf(disk.blocks) == old(State()).img
    {
      var closeStatus := disk.BlockDiskClose();
      if closeStatus == 0 {
        table := null;
        mounted := false;
        disk.rootDirectoryIndex := 0;
        disk.dataBlocks := 0;
      }
      return closeStatus;
    }

    // fs_umount followed by fs_mount of the same disk
    method Remount() returns (r: int)
      requires Valid() && mounted
      modifies this`mounted, this`table, disk`isOpen, disk`rootDirectoryIndex, disk`dataBlocks
      ensures Valid() && mounted && r == 0 && disk.blocks == old(disk.blocks)
      ensures table != null && fresh(table) && fresh(table.nodes)
      ensures disk.rootDirectoryIndex == old(disk.rootDirectoryIndex) && disk.dataBlocks == old(disk.dataBlocks)
      ensures (State(), Reply(r, [])) == RemountOp(old(State()))
    {
      hide Inv, ImageOk, ImageOf, LaidOut, DecodeMetadata, IsValidMetadata;
      r := FsUmount();
      r := FsMount();
    }

    /* ---------- directory calls ---------- */

    method FsCreate(filename: CString) returns (r: int)
      requires Valid()
      modifies disk`blocks
      ensures Valid() && disk.Kept()
      ensures !mounted ==> r == -1 && disk.blocks == old(disk.blocks)
      ensures mounted ==> (State(), Reply(r, [])) == CreateOp(old(State()), filename)
      ensures mounted && r == 0 ==> exists i :: CreatedAt(old(disk.blocks), disk.blocks, disk.rootDirectoryIndex, i, filename)
    {
      hide Inv, UntilNul, ImageOf, LaidOut, Accepted, NewEntry, FindName, FirstBlank, EntryAt, PutEntry, DecodeMetadata;
      if !mounted {
        return -1;
      }
      ghost var s := State();
      CreateKeepsInv(s, filename);
      if !ValidName(filename) {
        return -1;
      }
      var buffer := disk.ReadDirectory();
      var availableIndex := -1;
      for i := 0 to FILE_MAX_COUNT
        invariant forall j :: 0 <= j < i ==> s.img.dir[j].Name() != filename
        invariant availableIndex == -1 ==> forall j :: 0 <= j < i ==> s.img.dir[j].InUse()
        invariant availableIndex != -1 ==> 0 <= availableIndex < i && !s.img.dir[availableIndex].InUse()
        invariant availableIndex != -1 ==> forall j :: 0 <= j < availableIndex ==> s.img.dir[j].InUse()
      {
        assert EntryAt(buffer, i) == s.img.dir[i];
        if EntryAt(buffer, i).Name() == filename {
          return -1;
        }
        if availableIndex == -1 && !EntryAt(buffer, i).InUse() {
          availableIndex := i;
        }
      }
      if availableIndex == -1 {
        return -1;
      }
      PutEntryAt(buffer, availableIndex, NewEntry(filename));
      disk.WriteDirectory(PutEntry(buffer, availableIndex, NewEntry(filename)));
      SameSuperblock(old(disk.blocks), disk.blocks);
      CreatedInBytes(old(disk.blocks), disk.rootDirectoryIndex, availableIndex, filename);
      return 0;
    }

    method FsDelete(filename: CString) returns (r: int)
      requires Valid()
      modifies disk`blocks
      ensures Valid() && disk.Kept()
      ensures !mounted ==> r == -1 && disk.blocks == old(disk.blocks)
      ensures mounted ==> (State(), Reply(r, [])) == DeleteOp(old(State()), filename)
    {
      hide Inv, UntilNul, ImageOf, LaidOut, Accepted, FindName, EntryAt, PutEntry, DecodeMetadata, Chain, Walk, Zeroed;
      if !mounted {
        return -1;
      }
      ghost var s := State();
      DeleteKeepsInv(s, filename);
      InvSizes(s);
      if !ValidName(filename) {
        return -1;
      }
      var buffer := disk.ReadDirectory();
      for i := 0 to FILE_MAX_COUNT
        invariant forall j :: 0 <= j < i ==> s.img.dir[j].Name() != filename
        invariant disk.blocks == old(disk.blocks)
      {
        assert EntryAt(buffer, i) == s.img.dir[i];
        if EntryAt(buffer, i).Name() == filename {
          var open := table.IsOpenByName(EntryAt(buffer, i).Name());
          if open {
            return -1;
          }
          var index := EntryAt(buffer, i).index;
          SlotTerminates(s, i);
          BlankIsOk();
          PutEntryAt(buffer, i, BLANK_ENTRY);
          disk.WriteDirectory(PutEntry(buffer, i, BLANK_ENTRY));
          SameSuperblock(old(disk.blocks), disk.blocks);
          if index == FAT_EOC {
            return 0;
          }
          r := disk.EraseFile(index);
          SameSuperblock(old(disk.blocks), disk.blocks);
          return r;
        }
      }
      return -1;
    }

    /* ---------- descriptor calls ---------- */

    // fs_open once the record is found: takes the lowest free descriptor and fills it
    method OpenSlot(filename: CString, i: nat, dirEntry: DirEntry) returns (fd: int)
      requires Valid() && mounted && table.fdsOccupied < OPEN_MAX_COUNT && ValidName(filename)
      requires i < |State().img.dir| && dirEntry == State().img.dir[i] && dirEntry.Name() == filename
      modifies Tables(), Nodes()
      ensures Valid()
      ensures (State(), Reply(fd, [])) == OpenOp(old(State()), filename)
    {
      hide Inv, UntilNul, ImageOf, LaidOut, Accepted, FindName, FirstClosed, CountInUse, EntryAt, DecodeMetadata, OpenOp;
      ghost var s := State();
      OpenKeepsInv(s, filename);
      InvSizes(s);
      CountExtremes(s.fds);
      UsedSlot(s, i);
      OpenOpParts(s, filename);
      fd := table.AddFd(dirEntry.Name());
      ClosedAt(s, fd);
      ghost var added := table.Views();
      table.Attach(fd, i, dirEntry);
      UpdateTwice(s.fds, fd, added[fd], table.Views()[fd]);
      assert State() == OpenOp(s, filename).0;
    }

    method FsOpen(filename: CString) returns (r: int)
      requires Valid()
      modifies Tables(), Nodes()
      ensures Valid()
      ensures !mounted ==> r == -1 && unchanged(Tables()) && unchanged(Nodes())
      ensures mounted ==> (State(), Reply(r, [])) == OpenOp(old(State()), filename)
    {
      hide Inv, UntilNul, ImageOf, LaidOut, Accepted, FindName, FirstClosed, CountInUse, EntryAt, DecodeMetadata, OpenOp;
      if !mounted {
        return -1;
      }
      ghost var s := State();
      InvSizes(s);
      OpenOpParts(s, filename);
      if !ValidName(filename) {
        return -1;
      }
      var full := table.TableIsFull();
      if full {
        return -1;
      }
      var buffer := disk.ReadDirectory();
      for i := 0 to FILE_MAX_COUNT
        invariant forall j :: 0 <= j < i ==> s.img.dir[j].Name() != filename
        invariant State() == s && unchanged(table) && unchanged(Nodes())
      {
        var dirEntry := EntryAt(buffer, i);
        assert dirEntry == s.img.dir[i];
        if dirEntry.Name() == filename {
          r := OpenSlot(filename, i, dirEntry);
          return r;
        }
      }
      return -1;
    }

    method FsClose(fd: int) returns (r: int)
      requires Valid()
      modifies Tables(), Nodes()
      ensures Valid()
      ensures !mounted ==> r == -1 && unchanged(Tables()) && unchanged(Nodes())
      ensures mounted ==> (State(), Reply(r, [])) == CloseOp(old(State()), fd)
    {
      hide Inv, ImageOf, LaidOut, Accepted, DecodeMetadata;
      if !mounted {
        return -1;
      }
      ghost var s := State();
      CloseKeepsInv(s, fd);
      InvSizes(s);
      if fd < 0 || fd >= OPEN_MAX_COUNT {
        return -1;
      }
      var open := table.IsOpenByFd(fd);
      if !open {
        return -1;
      }
      table.RemoveFd(fd);
      return 0;
    }

    method FsStat(fd: int) returns (r: int)
      requires Valid()
      ensures !mounted ==> r == -1
      ensures mounted ==> (State(), Reply(r, [])) == StatOp(State(), fd)
      ensures -1 <= r < 0x8000_0000
    {
      if !mounted {
        return -1;
      }
      if fd < 0 || fd >= OPEN_MAX_COUNT {
        return -1;
      }
      var open := table.IsOpenByFd(fd);
      if !open {
        return -1;
      }
      var fdEntry := table.nodes[fd];
      assert State().fds[fd] == fdEntry.View() && FdOk(State().img, State().fds[fd]);
      return fdEntry.size;
    }

    method FsLseek(fd: int, offset: SizeT) returns (r: int)
      requires Valid()
      modifies Nodes()
      ensures Valid()
      ensures !mounted ==> r == -1 && unchanged(Nodes())
      ensures mounted ==> (State(), Reply(r, [])) == SeekOp(old(State()), fd, offset)
    {
      hide Inv, ImageOf, LaidOut, Accepted, DecodeMetadata;
      if !mounted {
        return -1;
      }
      ghost var s := State();
      if fd < 0 || fd >= OPEN_MAX_COUNT {
        return -1;
      }
      var open := table.IsOpenByFd(fd);
      if !open {
        return -1;
      }
      var fdEntry := table.nodes[fd];
      assert s.fds[fd] == fdEntry.View();
      if offset > fdEntry.size {
        return -1;
      }
      OffsetKeepsInv(s, fd, offset);
      fdEntry.offset := offset;
      table.NodeChanged(fd);
      return 0;
    }

    /* ---------- fs_read ---------- */

    // A whole block goes to the buffer directly, part of one through a zeroed block.
    method ReadPiece(readBlock: nat, offset: nat, n: nat, buf: array<Byte>, character: nat,
                     ghost c: seq<nat>, ghost piece: seq<Byte>)
      requires disk.Ready() && c != [] && readBlock == SkipTo(c, offset / BLOCK_SIZE) < disk.dataBlocks
      requires offset % BLOCK_SIZE + n <= BLOCK_SIZE && character + n <= buf.Length
      requires piece == if n == BLOCK_SIZE && readBlock >= disk.HeldBlocks() then buf[..][character..character + n]
                        else Slice(disk.View().data, c, offset, n)
      modifies buf
      ensures buf[..] == old(buf[..])[..character] + piece + old(buf[..])[character + n..]
    {
      hide ImageOf, LaidOut, Slice;
      var offsetInBlock := offset % BLOCK_SIZE;
      SliceInBlock(disk.View().data, c, offset, n);
      DataAt(disk, readBlock);
      if n == BLOCK_SIZE {
        var r, block := disk.BlockRead(ActualBlockIndex(disk.rootDirectoryIndex, readBlock), buf[character..character + BLOCK_SIZE]);
        assert r == 0 ==> block[offsetInBlock..offsetInBlock + n] == block;
        Copy(buf, character, block);
      } else {
        var block := disk.ReadData(readBlock);
        Copy(buf, character, block[offsetInBlock..offsetInBlock + n]);
      }
    }

    // One round of the read loop: what is delivered of all n bytes grows by the bytes of one block.
    method ReadRound(readBlock: nat, offset: nat, endOffset: nat, buf: array<Byte>, character: nat, ghost c: seq<nat>,
                     ghost off: nat, ghost before: seq<Byte>, ghost all: seq<Byte>) returns (readCharacters: nat)
      requires disk.Ready() && c != [] && readBlock == SkipTo(c, offset / BLOCK_SIZE) < disk.dataBlocks
      requires offset == off + character < endOffset && |all| == endOffset - off <= buf.Length == |before|
      requires character == 0 || offset % BLOCK_SIZE == 0
      requires all == Delivered(disk.View().data, c, disk.HeldBlocks(), off, endOffset - off, before)
      requires PartlyRead(buf[..], all, before, character)
      modifies buf
      ensures 0 < readCharacters == Piece(offset, endOffset) && character + readCharacters <= |all|
      ensures offset + readCharacters < endOffset ==>
                (offset + readCharacters) % BLOCK_SIZE == 0 && (offset + readCharacters) / BLOCK_SIZE == offset / BLOCK_SIZE + 1
      ensures PartlyRead(buf[..], all, before, character + readCharacters)
    {
      hide ImageOf, LaidOut, Slice, Delivered, SkipTo, FatView, DirOfBlock, DataView;
      ghost var now := buf[..];
      var offsetInBlock := offset % BLOCK_SIZE;
      readCharacters := 0;
      PieceFits(offset, endOffset);
      if offset / BLOCK_SIZE < endOffset / BLOCK_SIZE {
        readCharacters := BLOCK_SIZE - offsetInBlock;
      } else {
        readCharacters := endOffset % BLOCK_SIZE - offsetInBlock;
      }
      DeliveredPiece(disk.View().data, c, disk.HeldBlocks(), off, endOffset - off, before, character, readCharacters);
      NextDelivered(all, before, now, character, readCharacters);
      ReadPiece(readBlock, offset, readCharacters, buf, character, c, all[character..character + readCharacters]);
    }

    // The read loop: copies the bytes of the chain from the descriptor's offset up to endOffset
    method ReadLoop(fdEntry: FdNode, buf: array<Byte>, endOffset: nat) returns (bytesRead: nat)
      requires disk.Ready() && Terminates(disk.View().fat, fdEntry.firstDataBlock)
      requires Chain(disk.View().fat, fdEntry.firstDataBlock) != []
      requires forall x :: x in Chain(disk.View().fat, fdEntry.firstDataBlock) ==> x < disk.dataBlocks
      requires endOffset - fdEntry.offset <= buf.Length
      modifies fdEntry`offset, buf
      ensures bytesRead == Minus(endOffset, old(fdEntry.offset)) && fdEntry.offset == old(fdEntry.offset) + bytesRead
      ensures bytesRead <= buf.Length
      ensures buf[..] == Delivered(disk.View().data, Chain(disk.View().fat, fdEntry.firstDataBlock), disk.HeldBlocks(),
                                   old(fdEntry.offset), bytesRead, old(buf[..])) + old(buf[..])[bytesRead..]
    {
      hide Chain, Walk, ImageOf, LaidOut, Slice, Linked, Terminates, FatView, DirOfBlock, SkipTo, ByteAt, Minus, Delivered, Piece,
           PartlyRead;
      ghost var img, off, before := disk.View(), fdEntry.offset, buf[..];
      ghost var c, m, n := Chain(img.fat, fdEntry.firstDataBlock), disk.HeldBlocks(), Minus(endOffset, fdEntry.offset);
      NothingLeft(endOffset, off);
      ghost var all := Delivered(img.data, c, m, off, n, before);
      var readBlock := disk.SkipBlocks(fdEntry.firstDataBlock, fdEntry.offset / BLOCK_SIZE);
      bytesRead := 0;
      NothingDelivered(all, before);
      while fdEntry.offset < endOffset
        invariant disk.Ready() && disk.View() == img && fdEntry.offset == off + bytesRead && bytesRead <= n
        invariant fdEntry.offset < endOffset ==> readBlock == SkipTo(c, fdEntry.offset / BLOCK_SIZE)
        invariant fdEntry.offset < endOffset ==> bytesRead == 0 || fdEntry.offset % BLOCK_SIZE == 0
        invariant PartlyRead(buf[..], all, before, bytesRead)
        decreases endOffset - fdEntry.offset
      {
        ghost var k := fdEntry.offset / BLOCK_SIZE;
        SkipToMember(c, k);
        var readCharacters := ReadRound(readBlock, fdEntry.offset, endOffset, buf, bytesRead, c, off, before, all);
        fdEntry.offset := fdEntry.offset + readCharacters;
        bytesRead := bytesRead + readCharacters;
        if fdEntry.offset < endOffset {
          SkipsCompose(img.fat, fdEntry.firstDataBlock, k, 1);
          readBlock := disk.SkipBlocks(readBlock, 1);
        }
      }
      NothingMissing(buf[..], all, before);
    }

    // memcpy into the caller's buffer
    method Copy(buf: array<Byte>, at: nat, bytes: seq<Byte>)
      requires at + |bytes| <= buf.Length
      modifies buf
      ensures buf[..] == old(buf[..])[..at] + bytes + old(buf[..])[at + |bytes|..]
    {
      forall j | 0 <= j < |bytes| {
        buf[at + j] := bytes[j];
      }
    }

    // What the first r bytes of the buffer are after a read through descriptor fd of state s
    ghost predicate Filled(s: FsState, fd: int, buf: array<Byte>, before: seq<Byte>, r: nat)
      requires IsOpen(s.fds, fd) && r <= |before| && disk.rootDirectoryIndex < |disk.blocks|
      reads disk, buf
    {
      buf[..] == Delivered(s.img.data, Chain(s.img.fat, s.fds[fd].first), disk.HeldBlocks(), s.fds[fd].offset, r, before)
                 + before[r..]
    }

    // fs_read after its checks on the descriptor
    method ReadOpen(fd: nat, buf: array<Byte>, count: SizeT) returns (r: nat)
      requires Valid() && mounted && IsOpen(State().fds, fd) && count <= buf.Length
      modifies Nodes(), buf
      ensures Valid()
      ensures r <= buf.Length && r < 0x8000_0000
      ensures State() == ReadOp(old(State()), fd, count).0 && r == ReadOp(old(State()), fd, count).1.ret
      ensures Filled(old(State()), fd, buf, old(buf[..]), r)
      ensures disk.Complete() ==> buf[..r] == ReadOp(old(State()), fd, count).1.bytes
    {
      hide Inv, Chain, Walk, ImageOf, LaidOut, Accepted, DecodeMetadata, Slice, ReadOp, Delivered, FatView, DirOfBlock, DataView, OnDevice,
           SkipTo, ByteAt, Linked, Terminates;
      ghost var s, before := State(), buf[..];
      ghost var f := s.fds[fd];
      var fdEntry := table.nodes[fd];
      assert f == fdEntry.View();
      ReadKeepsInv(s, fd, count);
      OpenFdChain(s, fd);
      ReadOpParts(s, fd, count);
      ghost var c, m := Chain(s.img.fat, f.first), disk.HeldBlocks();
      DeliveredNothing(s.img.data, c, m, f.offset, before);
      if count <= 0 {
        return 0;
      }
      if fdEntry.firstDataBlock == FAT_EOC {
        return 0;
      }
      if fdEntry.offset >= fdEntry.size {
        return 0;
      }
      var endOffset := (fdEntry.offset + count) % SIZE_T_LIMIT;
      if endOffset > fdEntry.size {
        endOffset := fdEntry.size;
      }
      r := ReadLoop(fdEntry, buf, endOffset);
      table.NodeChanged(fd);
      assert State() == ReadOp(s, fd, count).0;
      if disk.Complete() { DeliveredAll(s.img.data, c, m, f.offset, r, before); }
    }

    method FsRead(fd: int, buf: array?<Byte>, count: SizeT) returns (r: int)
      requires Valid() && (buf != null ==> count <= buf.Length)
      modifies Nodes(), buf
      ensures Valid()
      ensures buf == null || !mounted ==> r == -1 && unchanged(Nodes()) && (buf != null ==> unchanged(buf))
      ensures buf == null && mounted ==> State() == old(State())
      ensures buf != null && mounted ==>
                && -1 <= r <= buf.Length && r < 0x8000_0000
                && State() == ReadOp(old(State()), fd, count).0 && r == ReadOp(old(State()), fd, count).1.ret
                && (r == -1 <==> !IsOpen(old(State()).fds, fd))
                && if r == -1 then unchanged(buf) else Filled(old(State()), fd, buf, old(buf[..]), r)
      ensures buf != null && mounted && disk.Complete() ==>
                (State(), Reply(r, if r == -1 then [] else buf[..r])) == ReadOp(old(State()), fd, count)
    {
      hide Inv, Chain, ImageOf, LaidOut, Accepted, DecodeMetadata, Slice, Delivered;
      if buf == null {
        return -1;
      }
      if !mounted {
        return -1;
      }
      InvSizes(State());
      if fd < 0 || fd >= OPEN_MAX_COUNT {
        return -1;
      }
      var open := table.IsOpenByFd(fd);
      if !open {
        return -1;
      }
      r := ReadOpen(fd, buf, count);
    }

    /* ---------- fs_write ---------- */

    // The piece goes into one block of the device, read first unless it fills the block. Nobody looks at
    // what the block calls answer, so a piece for a block past the end of the device is lost in silence.
    method StorePiece(rawWriteBlock: nat, offsetInBlock: nat, piece: seq<Byte>)
      requires disk.isOpen && offsetInBlock + |piece| <= BLOCK_SIZE
      modifies disk`blocks
      ensures disk.blocks == if rawWriteBlock >= |old(disk.blocks)| then old(disk.blocks)
                             else old(disk.blocks)[rawWriteBlock := Overwrite(old(disk.blocks)[rawWriteBlock], offsetInBlock, piece)]
    {
      var r;
      if |piece| == BLOCK_SIZE {
        assert rawWriteBlock < |disk.blocks| ==> Overwrite(disk.blocks[rawWriteBlock], offsetInBlock, piece) == piece;
        r := disk.BlockWrite(rawWriteBlock, piece);
      } else {
        var buffer;
        r, buffer := disk.BlockRead(rawWriteBlock, ZeroBlock());
        r := disk.BlockWrite(rawWriteBlock, Overwrite(buffer, offsetInBlock, piece));
      }
    }

    // One round of the write loop
    method WritePieceOut(writeBlock: nat, offsetInBlock: nat, piece: seq<Byte>)
      requires disk.Ready() && writeBlock < disk.dataBlocks && offsetInBlock + |piece| <= BLOCK_SIZE
      modifies disk`blocks
      ensures disk.Ready() && disk.Kept()
      ensures disk.View() == if writeBlock >= disk.HeldBlocks() then old(disk.View()) else old(disk.View()).(data :=
                old(disk.View()).data[writeBlock := Overwrite(old(disk.View()).data[writeBlock], offsetInBlock, piece)])
    {
      hide FatView, DirOfBlock, Overwrite;
      ghost var i := ActualBlockIndex(disk.rootDirectoryIndex, writeBlock);
      if i < |disk.blocks| {
        DataStore(disk.blocks, disk.rootDirectoryIndex, disk.dataBlocks, writeBlock,
                  Overwrite(disk.blocks[i], offsetInBlock, piece));
      }
      StorePiece(ActualBlockIndex(disk.rootDirectoryIndex, writeBlock), offsetInBlock, piece);
    }

    // One round of the write loop: of what is stored along the chain, the bytes of one more block.
    method WriteRound(writeBlock: nat, offset: nat, endOffset: nat, buf: array<Byte>, character: nat, ghost c: seq<nat>,
                      ghost off: nat, ghost img: Image) returns (writeCharacters: nat)
      requires disk.Ready() && Distinct(c) && |img.data| == disk.dataBlocks && forall x :: x in c ==> x < disk.dataBlocks
      requires writeBlock == SkipTo(c, offset / BLOCK_SIZE)
      requires offset == off + character < endOffset <= BLOCK_SIZE * |c| && endOffset - off <= buf.Length
      requires disk.View() == img.(data := OnDevice(WriteAt(img.data, c, off, buf[..character]), disk.HeldBlocks()))
      modifies disk`blocks
      ensures disk.Ready() && disk.Kept()
      ensures 0 < writeCharacters == Piece(offset, endOffset) && offset + writeCharacters <= endOffset
      ensures offset + writeCharacters < endOffset ==> (offset + writeCharacters) / BLOCK_SIZE == offset / BLOCK_SIZE + 1
      ensures disk.View()
           == img.(data := OnDevice(WriteAt(img.data, c, off, buf[..character + writeCharacters]), disk.HeldBlocks()))
    {
      hide ImageOf, LaidOut, WriteAt, Overwrite, SkipTo, Distinct, OnDevice, FatView, DirOfBlock, DataView;
      var offsetInBlock := offset % BLOCK_SIZE;
      PieceFits(offset, endOffset);
      if offset / BLOCK_SIZE < endOffset / BLOCK_SIZE {
        writeCharacters := BLOCK_SIZE - offsetInBlock;
      } else {
        writeCharacters := endOffset % BLOCK_SIZE - offsetInBlock;
      }
      var piece := buf[character..character + writeCharacters];
      WritePiece(img.data, c, off, buf[..character], piece);
      assert buf[..character] + piece == buf[..character + writeCharacters];
      ghost var d := WriteAt(img.data, c, off, buf[..character]);
      StoreOnDevice(d, disk.HeldBlocks(), writeBlock, Overwrite(d[writeBlock], offsetInBlock, piece));
      WritePieceOut(writeBlock, offsetInBlock, piece);
    }

    // The write loop: stores the buffer along the chain from the descriptor's offset up to endOffset
    method WriteLoop(fdEntry: FdNode, buf: array<Byte>, endOffset: nat) returns (bytesWritten: nat)
      requires disk.Ready() && Terminates(disk.View().fat, fdEntry.firstDataBlock)
      requires forall x :: x in Chain(disk.View().fat, fdEntry.firstDataBlock) ==> x < disk.dataBlocks
      requires endOffset <= BLOCK_SIZE * |Chain(disk.View().fat, fdEntry.firstDataBlock)|
      requires endOffset - fdEntry.offset <= buf.Length
      modifies disk`blocks, fdEntry`offset, fdEntry`size
      ensures disk.Ready() && disk.Kept()
      ensures bytesWritten == Minus(endOffset, old(fdEntry.offset)) <= buf.Length
      ensures disk.View() == old(disk.View()).(data := OnDevice(WriteAt(old(disk.View()).data,
                Chain(old(disk.View()).fat, fdEntry.firstDataBlock), old(fdEntry.offset), buf[..bytesWritten]),
                disk.HeldBlocks()))
      ensures fdEntry.View() == Advanced(old(fdEntry.View()), Chain(old(disk.View()).fat, fdEntry.firstDataBlock), bytesWritten)
    {
      hide Chain, Walk, ImageOf, LaidOut, Linked, WriteAt, Overwrite, SkipTo, Distinct, OnDevice, Piece, Terminates,
           FatView, DirOfBlock, DataView;
      ghost var img, off, f, m := disk.View(), fdEntry.offset, fdEntry.View(), disk.HeldBlocks();
      ViewOnDevice(disk);
      ghost var c := Chain(img.fat, fdEntry.firstDataBlock);
      ChainHead(img.fat, fdEntry.firstDataBlock);
      var writeBlock := disk.SkipBlocks(fdEntry.firstDataBlock, fdEntry.offset / BLOCK_SIZE);
      bytesWritten := 0;
      WriteNothing(img.data, c, off);
      assert buf[..0] == [];
      while fdEntry.offset < endOffset
        invariant disk.Ready() && disk.Kept()
        invariant fdEntry.offset == off + bytesWritten && (bytesWritten == 0 || fdEntry.offset <= endOffset)
        invariant fdEntry.offset < endOffset ==> writeBlock == SkipTo(c, fdEntry.offset / BLOCK_SIZE)
        invariant disk.View() == img.(data := OnDevice(WriteAt(img.data, c, off, buf[..bytesWritten]), m))
        invariant fdEntry.View() == Advanced(f, c, bytesWritten)
        decreases endOffset - fdEntry.offset
      {
        ghost var k := fdEntry.offset / BLOCK_SIZE;
        var writeCharacters := WriteRound(writeBlock, fdEntry.offset, endOffset, buf, bytesWritten, c, off, img);
        fdEntry.offset := fdEntry.offset + writeCharacters;
        bytesWritten := bytesWritten + writeCharacters;
        if fdEntry.offset > fdEntry.size {
          fdEntry.size := fdEntry.offset;
        }
        if fdEntry.offset < endOffset {
          SkipsCompose(img.fat, fdEntry.firstDataBlock, k, 1);
          writeBlock := disk.SkipBlocks(writeBlock, 1);
        }
      }
    }

    // The size in the directory record becomes the descriptor's, cut to 32 bits.
    method StoreSize(fdEntry: FdNode)
      requires disk.Ready() && fdEntry.dirEntryIndex < FILE_MAX_COUNT
      modifies disk`blocks
      ensures disk.Ready() && disk.Kept()
      ensures var img, i := old(disk.View()), fdEntry.dirEntryIndex;
              disk.View() == img.(dir := img.dir[i := img.dir[i].(size := fdEntry.size % 0x1_0000_0000)])
    {
      hide ImageOf, LaidOut, PutEntry, EntryAt;
      var buffer := disk.ReadDirectory();
      assert DirOfBlock(buffer)[fdEntry.dirEntryIndex] == EntryAt(buffer, fdEntry.dirEntryIndex);
      var dirEntry := EntryAt(buffer, fdEntry.dirEntryIndex).(size := fdEntry.size % 0x1_0000_0000);
      PutEntryAt(buffer, fdEntry.dirEntryIndex, dirEntry);
      disk.WriteDirectory(PutEntry(buffer, fdEntry.dirEntryIndex, dirEntry));
    }

    // The first half of fs_write: finds the end of the request and allocates blocks for it.
    // Without a block for the byte at the offset, the write is over.
    method GrowForWrite(fdEntry: FdNode, count: nat) returns (goOn: bool, endOffset: nat)
      requires disk.Ready() && 0 < count < SIZE_T_LIMIT
      requires Growing(disk.View(), fdEntry.View(), Chain(disk.View().fat, fdEntry.firstDataBlock),
                       Appended(disk.View(), fdEntry.View(), count))
      modifies disk`blocks, fdEntry`firstDataBlock
      ensures disk.Ready() && disk.Kept()
      ensures var img, f := old(disk.View()), old(fdEntry.View());
              var c, add := Chain(img.fat, f.first), Appended(img, f, count);
              disk.View() == Grown(img, f.slot, c, add) && fdEntry.View() == f.(first := Head(c + add))
      ensures var img, f := old(disk.View()), old(fdEntry.View());
              var c, add := Chain(img.fat, f.first), Appended(img, f, count);
              && (goOn <==> !(add == [] && EndOffset(f.offset, count) > BLOCK_SIZE * |c + add| == f.offset))
              && (goOn ==> endOffset == Min(EndOffset(f.offset, count), BLOCK_SIZE * |c + add|))
    {
      hide Chain, Walk, ImageOf, LaidOut, Linked, FreeList, Grown, Growing, BlocksFor, Lowest, Forest;
      ghost var img, f := disk.View(), fdEntry.View();
      ghost var c, add := Chain(img.fat, f.first), Appended(img, f, count);
      GrowingFacts(img, f, c, add, count);
      if fdEntry.firstDataBlock == FAT_EOC {
        var added := disk.AddFileToDisk(fdEntry);
        if !added {
          return false, 0;
        }
      }
      ghost var img1, f1 := disk.View(), fdEntry.View();
      ghost var c1 := Chain(img1.fat, f1.first);
      FirstStage(img, f, c, count, img1, f1);
      var totalBlockCount := disk.TotalFileBlocks(fdEntry.firstDataBlock);
      var totalBytes := totalBlockCount * BLOCK_SIZE;
      endOffset := (fdEntry.offset + count) % SIZE_T_LIMIT;
      ShortfallArithmetic(endOffset, totalBlockCount);
      if endOffset > totalBytes {
        var neededBlocks := BlocksFor(endOffset - totalBytes);
        var newBlocks := disk.AllocateMoreBlocks(fdEntry, neededBlocks);
        if newBlocks == 0 && fdEntry.offset == totalBytes {
          return false, endOffset;
        }
        totalBlockCount := disk.TotalFileBlocks(fdEntry.firstDataBlock);
        totalBytes := totalBlockCount * BLOCK_SIZE;
        if endOffset > totalBytes {
          endOffset := totalBytes;
        }
      }
      goOn := true;
    }

    // fs_write after its checks on the arguments
    method WriteOpen(fd: nat, buf: array<Byte>, count: SizeT) returns (r: nat)
      requires Valid() && mounted && IsOpen(State().fds, fd) && 0 < count <= buf.Length
      modifies disk`blocks, Nodes()
      ensures Valid() && disk.Kept() && r < 0x8000_0000
      ensures Shaped(old(State()))
      ensures (State(), Reply(r, [])) == (Held(WriteOp(old(State()), fd, buf[..count]).0, disk.HeldBlocks()),
                                          WriteOp(old(State()), fd, buf[..count]).1)
    {
      hide Inv, ImageOf, LaidOut, Accepted, DecodeMetadata, Growing, Grown, WriteAt, Appended, Chain, FittingBytes, WriteOp,
           Stored, Advanced, EndOffset, Terminates, OnDevice, FatView, DirOfBlock, DataView, Linked, FreeList, Distinct,
           BlocksFor, ActualBlockIndex;
      ghost var s := State();
      ghost var f, c := s.fds[fd], Chain(s.img.fat, s.fds[fd].first);
      var fdEntry := table.nodes[fd];
      assert f == fdEntry.View();
      WriteKeepsInv(s, fd, buf[..count]);
      HeldKeepsInv(WriteOp(s, fd, buf[..count]).0, disk.HeldBlocks());
      ViewOnDevice(disk);
      ghost var add := Appended(s.img, f, count);
      WriteGrows(s, fd, count);
      AfterGrowth(s.img, f, c, add);
      WriteOpParts(s, fd, buf[..count]);
      var goOn, endOffset := GrowForWrite(fdEntry, count);
      SameSuperblock(old(disk.blocks), disk.blocks);
      if !goOn {
        GrownByNothing(s.img, f.slot, c);
        table.NodeChanged(fd);
        assert s.fds[fd := f] == s.fds;
        return 0;
      }
      AcceptedBound(f.offset, count, |c + add|);
      StoredParts(disk.View(), f, fdEntry.View(), c + add, buf[..FittingBytes(f.offset, count, |c + add|)]);
      r := WriteLoop(fdEntry, buf, endOffset);
      StoreSize(fdEntry);
      SameSuperblock(old(disk.blocks), disk.blocks);
      table.NodeChanged(fd);
      assert buf[..count][..r] == buf[..r];
      assert State() == Held(WriteOp(s, fd, buf[..count]).0, disk.HeldBlocks());
    }

    method FsWrite(fd: int, buf: array?<Byte>, count: SizeT) returns (r: int)
      requires Valid() && (buf != null ==> count <= buf.Length)
      modifies disk`blocks, Nodes()
      ensures Valid() && disk.Kept() && -1 <= r < 0x8000_0000
      ensures buf == null || !mounted ==> r == -1 && disk.blocks == old(disk.blocks) && unchanged(Nodes())
      ensures buf == null && mounted ==> State() == old(State())
      ensures buf != null && mounted ==> Shaped(old(State()))
      ensures buf != null && mounted ==>
                (State(), Reply(r, [])) == (Held(WriteOp(old(State()), fd, buf[..count]).0, disk.HeldBlocks()),
                                            WriteOp(old(State()), fd, buf[..count]).1)
      ensures buf != null && mounted && disk.Complete() ==>
                (State(), Reply(r, [])) == WriteOp(old(State()), fd, buf[..count])
    {
      hide Inv, ImageOf, LaidOut, Accepted, DecodeMetadata, Chain, OnDevice, WriteOp;
      if buf == null {
        return -1;
      }
      if !mounted {
        return -1;
      }
      ghost var s, bytes := State(), buf[..count];
      InvSizes(s);
      InvShaped(s);
      ViewOnDevice(disk);
      if !IsOpen(s.fds, fd) || bytes == [] { NothingToWrite(s, fd, bytes); }
      if disk.Complete() { HeldWrite(s, fd, bytes, disk.HeldBlocks()); }
      if fd < 0 || fd >= OPEN_MAX_COUNT {
        return -1;
      }
      var open := table.IsOpenByFd(fd);
      if !open {
        return -1;
      }
      if count <= 0 {
        return 0;
      }
      r := WriteOpen(fd, buf, count);
    }

    /* ---------- whole-disk scans ---------- */

    // The two ratios that fs_info prints: free data blocks and free directory records
    method FsInfo() returns (r: int, fatAvailable: int, dirFreeEntries: nat)
      requires Valid()
      ensures r == if mounted then 0 else -1
      ensures mounted ==> fatAvailable == |FreeList(State().img.fat, |State().img.data|)|
      ensures mounted ==> dirFreeEntries == 128 - |Files(State().img)|
    {
      hide Inv, ImageOf, Accepted, DecodeMetadata, FreeList, Files, Blanks, Occupied, UntilNul;
      fatAvailable, dirFreeEntries := 0, 0;
      if !mounted {
        return -1, fatAvailable, dirFreeEntries;
      }
      ghost var img := State().img;
      var fatOccupiedEntries := CountFatEntries();
      OccupiedInv(State());
      fatAvailable := disk.dataBlocks - fatOccupiedEntries;
      var buffer := disk.ReadDirectory();
      NoBlanks(img.dir);
      for entry := 0 to FILE_MAX_COUNT
        invariant dirFreeEntries == Blanks(img.dir, entry)
      {
        assert EntryAt(buffer, entry) == img.dir[entry];
        BlanksStep(img.dir, entry);
        if !EntryAt(buffer, entry).InUse() {
          dirFreeEntries := dirFreeEntries + 1;
        }
      }
      BlanksInv(State());
      return 0, fatAvailable, dirFreeEntries;
    }

    // Counts the nonzero entries of every table block, padding included.
    method CountFatEntries() returns (count: nat)
      requires disk.Ready()
      ensures count == Occupied(disk.View().fat, |disk.View().fat|)
    {
      hide Occupied, FreeList, ImageOf, LaidOut;
      count := 0;
      ghost var fat := disk.View().fat;
      ScanStep(fat, 0);
      for fBlock := FAT_BLOCK_START_INDEX to disk.rootDirectoryIndex
        invariant (fBlock - 1) * FAT_ENTRIES <= |fat|
        invariant count == Occupied(fat, (fBlock - 1) * FAT_ENTRIES)
      {
        var buffer := disk.ReadFatBlock(fBlock);
        for entry := 0 to FAT_ENTRIES
          invariant (fBlock - 1) * FAT_ENTRIES + entry <= |fat|
          invariant count == Occupied(fat, (fBlock - 1) * FAT_ENTRIES + entry)
        {
          ScanStep(fat, (fBlock - 1) * FAT_ENTRIES + entry);
          if U16At(buffer, 2 * entry) != 0 {
            count := count + 1;
          }
        }
      }
    }

    // free_blocks: counts the zero entries, stopping at the end of the data area
    method FreeBlocks() returns (count: nat)
      requires Valid()
      ensures count == if mounted then |FreeList(State().img.fat, |State().img.data|)| else 0
    {
      hide Inv, Accepted, DecodeMetadata, FreeList, Occupied, ImageOf, LaidOut;
      if !mounted {
        return 0;
      }
      count := 0;
      ghost var fat, n := disk.View().fat, disk.dataBlocks;
      ScanStep(fat, 0);
      for fatBlockIndex := FAT_BLOCK_START_INDEX to disk.rootDirectoryIndex
        invariant (fatBlockIndex - 1) * FAT_ENTRIES <= |fat|
        invariant count == |FreeList(fat, Min(n, (fatBlockIndex - 1) * FAT_ENTRIES))|
      {
        var buffer := disk.ReadFatBlock(fatBlockIndex);
        for entry := 0 to FAT_ENTRIES
          invariant (fatBlockIndex - 1) * FAT_ENTRIES + entry <= n
          invariant count == |FreeList(fat, (fatBlockIndex - 1) * FAT_ENTRIES + entry)|
        {
          var dataBlockIndex := (fatBlockIndex - FAT_BLOCK_START_INDEX) * FAT_ENTRIES + entry;
          if dataBlockIndex == disk.dataBlocks {
            break;
          }
          ScanStep(fat, dataBlockIndex);
          if U16At(buffer, 2 * entry) == 0 {
            count := count + 1;
          }
        }
      }
    }

    // Frees every chain, blanks every record, and stores the directory at the end.
    method EraseAllFiles() returns (r: int)
      requires Valid()
      modifies disk`blocks
      ensures Valid() && disk.Kept()
      ensures !mounted ==> r == -1 && disk.blocks == old(disk.blocks)
      ensures mounted ==> (State(), Reply(r, [])) == EraseAllOp(old(State()))
    {
      hide Inv, ImageOf, LaidOut, Accepted, DecodeMetadata, UntilNul, Chain, Zeroed, PutEntry, EntryAt;
      if !mounted {
        return -1;
      }
      if table.fdsOccupied != 0 {
        return -1;
      }
      ghost var s := State();
      ghost var dir := s.img.dir;
      EraseAllKeepsInv(s);
      InvSizes(s);
      var buffer := disk.ReadDirectory();
      assert ErasedDir(dir, 0) == dir;
      for i := 0 to FILE_MAX_COUNT
        invariant disk.Ready() && disk.Kept() && DirOfBlock(buffer) == ErasedDir(dir, i)
        invariant disk.View() == s.img.(fat := ErasedFat(s.img.fat, dir, i))
      {
        var entry := EntryAt(buffer, i);
        assert entry == DirOfBlock(buffer)[i] == dir[i];
        ErasedStep(s.img, i);
        if entry.InUse() {
          EraseSlotTerminates(s, i);
          if entry.index != FAT_EOC {
            var erased := disk.EraseFile(entry.index);
          }
          BlankIsOk();
          PutEntryAt(buffer, i, BLANK_ENTRY);
          buffer := PutEntry(buffer, i, BLANK_ENTRY);
        }
      }
      disk.WriteDirectory(buffer);
      SameSuperblock(old(disk.blocks), disk.blocks);
      return 0;
    }
  }

  // The device after fs_create: the first record of the directory whose first byte is 0 holds the name, zeros, and
  // 255 at positions 20 and 21, and no other byte changed.
  ghost predicate CreatedAt(blocks: seq<Block>, blocks': seq<Block>, root: nat, i: nat, name: CString) {
    && root < |blocks| == |blocks'| && i < 128
    && blocks[root][32 * i] == 0 && (forall j :: 0 <= j < i ==> blocks[root][32 * j] != 0)
    && (forall k :: 0 <= k < |blocks| && k != root ==> blocks'[k] == blocks[k])
    && forall q :: 0 <= q < 4096 ==>
         blocks'[root][q] == if q < 32 * i || q >= 32 * i + 32 then blocks[root][q] else CreatedByte(name, q - 32 * i)
  }

  function CreatedByte(name: CString, p: nat): Byte {
    if p < |name| then name[p] else if p == 20 || p == 21 then 255 else 0
  }

  lemma CreatedInBytes(blocks: seq<Block>, root: nat, i: nat, name: CString)
    requires root < |blocks| && i < FILE_MAX_COUNT && ValidName(name)
    requires var dir := DirOfBlock(blocks[root]); !dir[i].InUse() && forall j :: 0 <= j < i ==> dir[j].InUse()
    ensures CreatedAt(blocks, blocks[root := PutEntry(blocks[root], i, NewEntry(name))], root, i, name)
  {
    hide EntryAt, EncodeEntry;
    assert forall j :: 0 <= j < FILE_MAX_COUNT ==> DirOfBlock(blocks[root])[j] == EntryAt(blocks[root], j);
    var record := EncodeEntry(NewEntry(name));
    forall p | 0 <= p < 32 ensures record[p] == CreatedByte(name, p) {
      NewEntryByte(name, p);
    }
    forall j | 0 <= j <= i ensures EntryAt(blocks[root], j).InUse() <==> blocks[root][32 * j] != 0 {
      FirstByte(blocks[root], j);
    }
  }

  lemma NewEntryByte(name: CString, p: nat)
    requires ValidName(name) && p < 32
    ensures EncodeEntry(NewEntry(name))[p] == CreatedByte(name, p)
  {
  }

  lemma FirstByte(b: Block, j: nat)
    requires j < FILE_MAX_COUNT
    ensures EntryAt(b, j).InUse() <==> b[32 * j] != 0
  {
  }

  /* ---------- what the calls need from the invariant ---------- */

  lemma SlotTerminates(s: FsState, i: nat)
    requires Inv(s) && i < |s.img.dir| && s.img.dir[i].InUse()
    ensures Terminates(s.img.fat, s.img.dir[i].index)
    ensures s.img.dir[i].index == FAT_EOC ==> Zeroed(s.img.fat, Chain(s.img.fat, s.img.dir[i].index)) == s.img.fat
  {
  }

  lemma UsedSlot(s: FsState, i: nat)
    requires Inv(s) && i < |s.img.dir| && s.img.dir[i].InUse()
    ensures FindName(s.img.dir, s.img.dir[i].Name()) == i
  {
    FindNameAt(s.img.dir, i);
  }

  lemma ClosedAt(s: FsState, fd: int)
    requires Inv(s) && 0 <= fd < |s.fds| && !s.fds[fd].inUse
    ensures s.fds[fd] == CLOSED
  {
  }

  lemma DataAt(disk: Disk, i: nat)
    requires disk.Ready() && i < disk.dataBlocks
    ensures i < disk.HeldBlocks() <==> ActualBlockIndex(disk.rootDirectoryIndex, i) < |disk.blocks|
    ensures i < disk.HeldBlocks() ==> disk.View().data[i] == disk.blocks[ActualBlockIndex(disk.rootDirectoryIndex, i)]
  {
    hide FatView, DirOfBlock;
  }

  lemma NothingToWrite(s: FsState, fd: int, bytes: Buffer)
    requires Shaped(s) && (!IsOpen(s.fds, fd) || bytes == [])
    ensures WriteOp(s, fd, bytes) == (s, if IsOpen(s.fds, fd) then Reply(0, []) else FAILED)
  {
  }

  lemma HeldWrite(s: FsState, fd: int, bytes: Buffer, m: nat)
    requires Shaped(s) && |s.img.data| <= m
    ensures Held(WriteOp(s, fd, bytes).0, m) == WriteOp(s, fd, bytes).0
  {
    HeldAll(WriteOp(s, fd, bytes).0, m);
  }

  // What the device does not hold reads as zeros.
  lemma ViewOnDevice(disk: Disk)
    requires disk.Ready()
    ensures OnDevice(disk.View().data, disk.HeldBlocks()) == disk.View().data
  {
    DataOnDevice(disk.blocks, disk.rootDirectoryIndex, disk.dataBlocks);
  }

  lemma DeliveredNothing(data: seq<Block>, c: seq<nat>, m: nat, from: nat, before: seq<Byte>)
    ensures before == Delivered(data, c, m, from, 0, before) + before[0..]
  {
  }

  // The buffer holds the first k bytes of all, and after them what it held before.
  ghost predicate PartlyRead(now: seq<Byte>, all: seq<Byte>, before: seq<Byte>, k: nat) {
    k <= |all| <= |before| && now == all[..k] + before[k..]
  }

  lemma NothingDelivered(all: seq<Byte>, before: seq<Byte>)
    requires |all| <= |before|
    ensures PartlyRead(before, all, before, 0)
  {
  }

  lemma NothingMissing(now: seq<Byte>, all: seq<Byte>, before: seq<Byte>)
    requires PartlyRead(now, all, before, |all|)
    ensures |all| <= |before| && now == all + before[|all|..]
  {
    assert all[..|all|] == all;
  }

  // The next piece in its place
  lemma NextDelivered(all: seq<Byte>, before: seq<Byte>, now: seq<Byte>, k: nat, p: nat)
    requires k + p <= |all| <= |before| && now == all[..k] + before[k..]
    ensures |now| == |before| && now[..k] + all[k..k + p] + now[k + p..] == all[..k + p] + before[k + p..]
    ensures now[k..k + p] == before[k..k + p]
  {
    assert now[..k] == all[..k];
    assert now[k..] == before[k..];
    assert now[k..k + p] == before[k..][..p] == before[k..k + p];
    assert now[k + p..] == before[k..][p..] == before[k + p..];
    assert all[..k] + all[k..k + p] == all[..k + p];
  }

  lemma NothingLeft(endOffset: nat, offset: nat)
    ensures Minus(endOffset, offset) == if endOffset <= offset then 0 else endOffset - offset
  {
  }

  // fs_read on an open descriptor
  lemma ReadOpParts(s: FsState, fd: int, count: SizeT)
    requires IsOpen(s.fds, fd)
    ensures var f := s.fds[fd]; var n := ReadCount(f, count);
            ReadOp(s, fd, count) == (s.(fds := s.fds[fd := f.(offset := f.offset + n)]),
                                     Reply(n, Slice(s.img.data, Chain(s.img.fat, f.first), f.offset, n)))
    ensures ReadCount(s.fds[fd], count) == 0 ==> ReadOp(s, fd, count) == (s, Reply(0, []))
  {
    assert s.fds[fd := s.fds[fd].(offset := s.fds[fd].offset + 0)] == s.fds;
  }

  // The chain of an open descriptor
  lemma OpenFdChain(s: FsState, fd: int)
    requires Inv(s) && IsOpen(s.fds, fd)
    ensures var f := s.fds[fd]; var c := Chain(s.img.fat, f.first);
            && Terminates(s.img.fat, f.first) && (f.first == FAT_EOC <==> c == [])
            && (forall x :: x in c ==> 0 < x < |s.img.data|)
            && f.offset <= f.size <= MAX_SIZE && f.slot < |s.img.dir|
            && (f.first == FAT_EOC ==> f.offset == 0)
  {
    var f := s.fds[fd];
    assert FdOk(s.img, f);
    HeadTerminates(s.img.fat, |s.img.data|, f.first);
    forall x | x in Chain(s.img.fat, f.first) ensures 0 < x < |s.img.data| {
      ElementLive(s.img.fat, |s.img.data|, f.first, x);
    }
  }

  lemma ChainHead(fat: seq<nat>, b: nat)
    requires Terminates(fat, b)
    ensures Head(Chain(fat, b)) == b && Distinct(Chain(fat, b))
  {
    LinkedDistinct(fat, b, Chain(fat, b));
  }

  // Facts about a write before anything is allocated
  lemma GrowingFacts(img: Image, f: Fd, c: seq<nat>, add: seq<nat>, count: nat)
    requires Growing(img, f, c, add) && add == Appended(img, f, count) && 0 < count < SIZE_T_LIMIT
    ensures Forest(img.fat, |img.data|) && IsHead(img.fat, |img.data|, f.first) && f.slot < |img.dir| == FILE_MAX_COUNT
    ensures |img.data| <= |img.fat| && Terminates(img.fat, f.first) && c == Chain(img.fat, f.first) && Head(c) == f.first
    ensures f.first == FAT_EOC ==> f.offset == 0 && c == []
    ensures f.first == FAT_EOC && FreeList(img.fat, |img.data|) == [] ==>
              add == [] && Grown(img, f.slot, c, add) == img && Head(c + add) == f.first
  {
  }

  // The image once the file has a first block: what is still to be appended completes the growth.
  lemma FirstStage(img: Image, f: Fd, c: seq<nat>, count: nat, img1: Image, f1: Fd)
    requires |img.data| <= |img.fat| && Growing(img, f, c, Appended(img, f, count)) && 0 < count < SIZE_T_LIMIT
    requires if f.first != FAT_EOC then img1 == img && f1 == f
             else FreeList(img.fat, |img.data|) != [] && f1 == f.(first := FreeList(img.fat, |img.data|)[0])
                  && img1 == Grown(img, f.slot, [], [f1.first])
    ensures |img1.data| == |img.data| <= |img1.fat| == |img.fat|
    ensures Forest(img1.fat, |img.data|) && Root(img1.fat, |img.data|, f1.first) && Terminates(img1.fat, f1.first)
    ensures var c1 := Chain(img1.fat, f1.first); var add := Appended(img, f, count);
            var rest := Lowest(img1.fat, |img.data|, Minus(BlocksFor(EndOffset(f.offset, count)), |c1|));
            && c1 != [] && c1 + rest == c + add && Head(c + add) == f1.first
            && Grown(img1, f.slot, c1, rest) == Grown(img, f.slot, c, add)
            && (rest == [] ==> img1 == Grown(img, f.slot, c, add))
            && (EndOffset(f.offset, count) <= BLOCK_SIZE * |c1| ==> rest == [])
            && (if f.first == FAT_EOC then add != [] else add == rest)
            && Terminates(Grown(img, f.slot, c, add).fat, f1.first)
            && Chain(Grown(img, f.slot, c, add).fat, f1.first) == c + add
  {
    hide FreeList, Forest, BlocksFor;
    var n, add := |img.data|, Appended(img, f, count);
    GrowingFacts(img, f, c, add, count);
    if f.first == FAT_EOC {
      NewFileStage(img, f, count);
    } else {
      RootChain(img.fat, n, f.first);
    }
    var c1 := Chain(img1.fat, f1.first);
    var rest := Lowest(img1.fat, n, Minus(BlocksFor(EndOffset(f.offset, count)), |c1|));
    GrowthElements(img.fat, n, c, add);
    ShortfallArithmetic(EndOffset(f.offset, count), |c1|);
    if rest == [] {
      RootChain(img1.fat, n, f1.first);
      GrownByNothing(img1, f.slot, c1);
    }
  }

  // The same, for a file that just got its first block
  lemma NewFileStage(img: Image, f: Fd, count: nat)
    requires |img.data| <= |img.fat| && Growing(img, f, [], Appended(img, f, count)) && 0 < count < SIZE_T_LIMIT
    requires f.first == FAT_EOC && FreeList(img.fat, |img.data|) != []
    ensures var n := |img.data|; var b := FreeList(img.fat, n)[0]; var img1 := Grown(img, f.slot, [], [b]);
            var rest := Lowest(img1.fat, n, Minus(BlocksFor(EndOffset(f.offset, count)), 1));
            && Forest(img1.fat, n) && Root(img1.fat, n, b) && Chain(img1.fat, b) == [b] && Terminates(img1.fat, b)
            && [b] + rest == Appended(img, f, count)
            && Grown(img1, f.slot, [b], rest) == Grown(img, f.slot, [], Appended(img, f, count))
  {
    hide FreeList, Forest, BlocksFor, Relink, Cleared, Chain, Terminates, Linked;
    var n, b := |img.data|, FreeList(img.fat, |img.data|)[0];
    var end := EndOffset(f.offset, count);
    GrowingFacts(img, f, [], Appended(img, f, count), count);
    FirstBlockChain(img.fat, n);
    PositiveBlocks(end);
    LowestTwice(img.fat, n, b, BlocksFor(end) - 1);
    var rest := Lowest(Relink(img.fat, [b]), n, BlocksFor(end) - 1);
    assert [] + [b] == [b] && [] + ([b] + rest) == [b] + rest;
    RelinkTwice(img.fat, [b], rest);
    ClearTwice(img.data, [b], rest);
  }

  // The chain of the lowest free block, once it is linked on its own
  lemma FirstBlockChain(fat: seq<nat>, n: nat)
    requires Forest(fat, n) && FreeList(fat, n) != []
    ensures var b := FreeList(fat, n)[0]; var fat' := Relink(fat, [b]);
            && Forest(fat', n) && Root(fat', n, b) && Chain(fat', b) == [b] && Terminates(fat', b) && Chain(fat, FAT_EOC) == []
  {
    hide FreeList, Forest;
    ForestBounds(fat, n);
    var b := FreeList(fat, n)[0];
    HeadTerminates(fat, n, FAT_EOC);
    LowestFresh(fat, n, 1);
    assert Lowest(fat, n, 1) == [b];
    assert [] + [b] == [b];
    GrowthElements(fat, n, [], [b]);
    GrowthKeepsForest(fat, n, [], [b]);
    GrowthHead(fat, n, [], [b]);
  }

  lemma PositiveBlocks(bytes: nat)
    requires bytes > 0
    ensures BlocksFor(bytes) > 0
  {
  }

  // The chain of the file once the blocks are appended
  lemma AfterGrowth(img: Image, f: Fd, c: seq<nat>, add: seq<nat>)
    requires Growing(img, f, c, add)
    ensures f.slot < |img.dir| == FILE_MAX_COUNT && |c + add| <= |img.data| <= MAX_DATA_BLOCKS && Linked(img.fat, Head(c), c)
    ensures var fat := Grown(img, f.slot, c, add).fat;
            Terminates(fat, Head(c + add)) && Chain(fat, Head(c + add)) == c + add
    ensures forall x :: x in c + add ==> x < |img.data|
  {
    GrowthElements(img.fat, |img.data|, c, add);
    ChainLength(img, f, c, add);
  }

  // No int overflow: what a write returns is at most the size of the data area.
  lemma AcceptedBound(offset: nat, count: nat, blocks: nat)
    requires blocks <= MAX_DATA_BLOCKS
    ensures FittingBytes(offset, count, blocks) == Minus(Min(EndOffset(offset, count), BLOCK_SIZE * blocks), offset)
    ensures FittingBytes(offset, count, blocks) <= count && FittingBytes(offset, count, blocks) < 0x8000_0000
  {
  }

  lemma OccupiedInv(s: FsState)
    requires Inv(s)
    ensures |s.img.data| <= |s.img.fat|
    ensures Occupied(s.img.fat, |s.img.fat|) + |FreeList(s.img.fat, |s.img.data|)| == |s.img.data|
  {
    OccupiedAndFree(s.img.fat, |s.img.data|, |s.img.fat|);
  }

  lemma NoBlanks(dir: seq<DirEntry>)
    ensures Blanks(dir, 0) == 0
  {
  }

  lemma BlanksStep(dir: seq<DirEntry>, k: nat)
    requires k < |dir|
    ensures Blanks(dir, k + 1) == Blanks(dir, k) + (if dir[k].InUse() then 0 else 1)
  {
  }

  lemma BlanksInv(s: FsState)
    requires Inv(s)
    ensures |s.img.dir| == FILE_MAX_COUNT && Blanks(s.img.dir, FILE_MAX_COUNT) == FILE_MAX_COUNT - |Files(s.img)|
  {
    BlanksAndNames(s.img.dir, |s.img.dir|);
    FilesKeys(s.img);
    assert s.img.dir[..|s.img.dir|] == s.img.dir;
    assert |Files(s.img).Keys| == |Files(s.img)|;
  }

  // While the files are erased one by one, the next chain is still whole.
  lemma EraseSlotTerminates(s: FsState, i: nat)
    requires Inv(s) && i < |s.img.dir| && s.img.dir[i].InUse()
    ensures var g := ErasedFat(s.img.fat, s.img.dir, i);
            Terminates(g, s.img.dir[i].index) && (s.img.dir[i].index == FAT_EOC ==> Zeroed(g, Chain(g, FAT_EOC)) == g)
  {
    hide ErasedFat, UntilNul;
    var img' := ErasedImage(s.img, i);
    ErasedOk(s.img, i);
    assert img'.dir[i] == s.img.dir[i];
    HeadTerminates(img'.fat, |img'.data|, img'.dir[i].index);
    if s.img.dir[i].index == FAT_EOC { ZeroedNothing(img'.fat); }
  }

  // The data, the size in the record and the descriptor, written one after the other
  lemma StoredParts(img: Image, f: Fd, g: Fd, c: seq<nat>, bytes: seq<Byte>)
    requires f.slot < |img.dir| && g == f.(first := Head(c))
    ensures var f' := Advanced(f, c, |bytes|); var d := WriteAt(img.data, c, g.offset, bytes);
            && Advanced(g, c, |bytes|) == f' && f'.slot == f.slot && f'.inUse == f.inUse
            && Stored(img, f, f', c, bytes)
            == img.(data := d, dir := img.dir[f.slot := img.dir[f.slot].(size := f'.size % 0x1_0000_0000)])
  {
  }

  // fs_open, by whether the name is valid, a descriptor is free and the file is there
  lemma OpenOpParts(s: FsState, name: CString)
    ensures var i, fd := FindName(s.img.dir, name), FirstClosed(s.fds);
            && (!ValidName(name) || fd == |s.fds| || i == |s.img.dir| ==> OpenOp(s, name) == (s, FAILED))
            && (ValidName(name) && fd < |s.fds| && i < |s.img.dir| ==>
                  var e := s.img.dir[i];
                  var f := Fd(true, Some(name), i, if e.index == FAT_EOC then 0 else e.size, 0, e.index);
                  OpenOp(s, name) == (s.(fds := s.fds[fd := f], occupied := s.occupied + 1), Reply(fd, [])))
  {
  }
}
