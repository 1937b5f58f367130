/** The block device and the operations on the allocation table (libfs/disk.c). */
module Disks {
  import opened Layout
  import opened Chains
  import opened Forests
  import opened Allocation
  import opened Contents
  import opened Semantics
  import opened DiskImage
  import opened FdTables

  class Disk {
    // The host file, and whether it is open
    var blocks: seq<Block>
    var isOpen: bool
    // The globals root_directory_index and data_blocks
    var rootDirectoryIndex: nat
    var dataBlocks: nat

    constructor (file: seq<Block>)
      ensures blocks == file && !isOpen && rootDirectoryIndex == 0 && dataBlocks == 0
    {
      blocks := file;
      isOpen := false;
      rootDirectoryIndex := 0;
      dataBlocks := 0;
    }

    ghost predicate Ready()
      reads this
    {
      isOpen && LaidOut(blocks, rootDirectoryIndex, dataBlocks)
    }

    function View(): (img: Image)
      requires LaidOut(blocks, rootDirectoryIndex, dataBlocks)
      reads this
      ensures |img.data| == dataBlocks && |img.fat| == EntryCount(rootDirectoryIndex) && |img.dir| == FILE_MAX_COUNT
      ensures 1 <= |img.data| <= |img.fat| <= 0x1_0000 && FAT_BLOCK_START_INDEX <= rootDirectoryIndex < |blocks|
    {
      ImageOf(blocks, rootDirectoryIndex, dataBlocks)
    }

    // How many data blocks the device has room for, and whether that is all of them
    function HeldBlocks(): nat
      requires rootDirectoryIndex < |blocks|
      reads this
    {
      |blocks| - rootDirectoryIndex - 1
    }

    predicate Complete()
      reads this
    {
      rootDirectoryIndex + 1 + dataBlocks <= |blocks|
    }

    // Same device, same size, same superblock: what every operation below keeps
    twostate predicate Kept()
      reads this
    {
      && isOpen == old(isOpen) && |blocks| == |old(blocks)|
      && (|blocks| > 0 ==> blocks[0] == old(blocks)[0])
    }

    /* ---------- the block layer ---------- */

    method BlockDiskOpen() returns (r: int)
      modifies this`isOpen
      ensures r == (if old(isOpen) then -1 else 0) && isOpen
    {
      if isOpen {
        return -1;
      }
      isOpen := true;
      return 0;
    }

    method BlockDiskClose() returns (r: int)
      modifies this`isOpen
      ensures r == (if old(isOpen) then 0 else -1) && !isOpen
    {
      if !isOpen {
        return -1;
      }
      isOpen := false;
      return 0;
    }

    method BlockDiskCount() returns (r: int)
      ensures r == if isOpen then |blocks| else -1
    {
      if !isOpen {
        return -1;
      }
      return |blocks|;
    }

    method BlockWrite(block: nat, buf: Block) returns (r: int)
      modifies this`blocks
      ensures r == if isOpen && block < |blocks| then 0 else -1
      ensures blocks == if isOpen && block < |old(blocks)| then old(blocks)[block := buf] else old(blocks)
    {
      if !isOpen {
        return -1;
      }
      if block >= |blocks| {
        return -1;
      }
      blocks := blocks[block := buf];
      return 0;
    }

    // A failed read leaves the caller's buffer, passed in as buf0, as it was.
    method BlockRead(block: nat, buf0: Block) returns (r: int, buf: Block)
      ensures r == if isOpen && block < |blocks| then 0 else -1
      ensures buf == if isOpen && block < |blocks| then blocks[block] else buf0
    {
      if !isOpen {
        return -1, buf0;
      }
      if block >= |blocks| {
        return -1, buf0;
      }
      return 0, blocks[block];
    }

    /* ---------- single entries and blocks ---------- */

    method GetFatEntry(i: nat) returns (v: nat)
      requires Ready() && i < |View().fat|
      ensures v == View().fat[i]
    {
      FatIndexInRange(rootDirectoryIndex, i);
      var r, buffer := BlockRead(FatBlockIndex(i), ZeroBlock());
      return U16At(buffer, 2 * FatBlockEntry(i));
    }

    method SetFatEntry(i: nat, v: nat)
      requires Ready() && i < |View().fat| && v < 0x1_0000
      modifies this`blocks
      ensures Ready() && Kept()
      ensures View() == old(View()).(fat := old(View()).fat[i := v])
    {
      FatIndexInRange(rootDirectoryIndex, i);
      FatStore(blocks, rootDirectoryIndex, dataBlocks, i, v);
      var r, buffer := BlockRead(FatBlockIndex(i), ZeroBlock());
      var w := BlockWrite(FatBlockIndex(i), PutU16(buffer, 2 * FatBlockEntry(i), v));
    }

    method ClearBlock(i: nat)
      requires Ready() && i < dataBlocks
      modifies this`blocks
      ensures Ready() && Kept()
      ensures View() == old(View()).(data := old(View()).data[i := ZeroBlock()])
    {
      if ActualBlockIndex(rootDirectoryIndex, i) < |blocks| {
        DataStore(blocks, rootDirectoryIndex, dataBlocks, i, ZeroBlock());
      }
      var w := BlockWrite(ActualBlockIndex(rootDirectoryIndex, i), ZeroBlock());
    }

    method ReadData(i: nat) returns (b: Block)
      requires Ready() && i < dataBlocks
      ensures b == View().data[i]
    {
      var r;
      r, b := BlockRead(ActualBlockIndex(rootDirectoryIndex, i), ZeroBlock());
    }

    method ReadDirectory() returns (b: Block)
      requires Ready()
      ensures b == blocks[rootDirectoryIndex] && DirOfBlock(b) == View().dir
    {
      var r;
      r, b := BlockRead(rootDirectoryIndex, ZeroBlock());
    }

    method WriteDirectory(b: Block)
      requires Ready()
      modifies this`blocks
      ensures Ready() && Kept()
      ensures blocks == old(blocks)[rootDirectoryIndex := b]
      ensures View() == old(View()).(dir := DirOfBlock(b))
    {
      DirStore(blocks, rootDirectoryIndex, dataBlocks, b);
      var w := BlockWrite(rootDirectoryIndex, b);
    }

    // One block of the table, as the scans read it
    method ReadFatBlock(fatBlockIndex: nat) returns (buffer: Block)
      requires Ready() && FAT_BLOCK_START_INDEX <= fatBlockIndex < rootDirectoryIndex
      ensures (fatBlockIndex - 1) * FAT_ENTRIES < dataBlocks && fatBlockIndex * FAT_ENTRIES <= |View().fat|
      ensures forall entry {:trigger U16At(buffer, 2 * entry)} :: 0 <= entry < FAT_ENTRIES ==>
                U16At(buffer, 2 * entry) == View().fat[(fatBlockIndex - 1) * FAT_ENTRIES + entry]
    {
      var r;
      r, buffer := BlockRead(fatBlockIndex, ZeroBlock());
      forall entry | 0 <= entry < FAT_ENTRIES
        ensures U16At(buffer, 2 * entry) == View().fat[(fatBlockIndex - 1) * FAT_ENTRIES + entry]
      {
        FatIndexInRange(rootDirectoryIndex, (fatBlockIndex - 1) * FAT_ENTRIES + entry);
      }
    }

    /* ---------- walking chains ---------- */

    // The block number_of_blocks further on, or the last one.
    method SkipBlocks(b: nat, numberOfBlocks: nat) returns (r: nat)
      requires Ready() && Terminates(View().fat, b)
      ensures r == SkipTo(Chain(View().fat, b), numberOfBlocks)
    {
      hide Walk, Chain, ImageOf, LaidOut;
      if numberOfBlocks == 0 || b == FAT_EOC {
        return b;
      }
      ghost var fat := View().fat;
      ghost var c := Chain(fat, b);
      var dataBlock := b % 0x1_0000;
      for blockJump := 1 to numberOfBlocks + 1
        invariant blockJump <= |c| && dataBlock == c[blockJump - 1]
      {
        assert fat[c[blockJump - 1]] == Next(c, blockJump - 1);
        var nextBlock := GetFatEntry(dataBlock);
        if nextBlock != FAT_EOC {
          dataBlock := nextBlock;
        } else {
          break;
        }
      }
      return dataBlock;
    }

    method TotalFileBlocks(b: nat) returns (count: nat)
      requires Ready() && Terminates(View().fat, b)
      ensures count == |Chain(View().fat, b)|
    {
      hide Walk, Chain, ImageOf, LaidOut;
      if b == FAT_EOC {
        return 0;
      }
      ghost var fat := View().fat;
      ghost var c := Chain(fat, b);
      count := 1;
      var dataBlock := b % 0x1_0000;
      while true
        invariant 1 <= count <= |c| && dataBlock == c[count - 1]
        decreases |c| - count
      {
        assert fat[c[count - 1]] == Next(c, count - 1);
        var nextBlock := GetFatEntry(dataBlock);
        if nextBlock != FAT_EOC {
          count := count + 1;
          dataBlock := nextBlock;
        } else {
          break;
        }
      }
    }

    // Frees the chain that starts at dataBlockStart, losing each link as it goes.
    method EraseFile(dataBlockStart: nat) returns (r: int)
      requires Ready() && Terminates(View().fat, dataBlockStart)
      modifies this`blocks
      ensures Ready() && Kept() && r == 0
      ensures View() == old(View()).(fat := Zeroed(old(View()).fat, Chain(old(View()).fat, dataBlockStart)))
    {
      hide Walk, Chain, ImageOf, LaidOut, Zeroed;
      ghost var img := View();
      ghost var c := Chain(img.fat, dataBlockStart);
      LinkedDistinct(img.fat, dataBlockStart, c);
      ZeroedPrefix(img.fat, c, 0);
      assert c == [] ==> c[..0] == c;
      if dataBlockStart % 0x1_0000 == FAT_EOC {
        return 0;
      }
      var dataBlock := dataBlockStart % 0x1_0000;
      ghost var k := 0;
      while true
        invariant Ready() && Kept()
        invariant k < |c| && dataBlock == c[k]
        invariant View() == img.(fat := Zeroed(img.fat, c[..k]))
        decreases |c| - k
      {
        assert img.fat[c[k]] == Next(c, k);
        ZeroedPrefix(img.fat, c, k);
        var nextBlock := GetFatEntry(dataBlock);
        SetFatEntry(dataBlock, 0);
        if nextBlock != FAT_EOC {
          dataBlock := nextBlock;
          k := k + 1;
        } else {
          assert c[..k + 1] == c;
          return 0;
        }
      }
    }

    /* ---------- first-fit allocation ---------- */

    method FirstBlockAvailable() returns (found: bool, b: nat)
      requires Ready()
      ensures found <==> FreeList(View().fat, dataBlocks) != []
      ensures found ==> b == FreeList(View().fat, dataBlocks)[0]
      ensures found ==> b < dataBlocks && View().fat[b] == 0 && forall j :: 0 <= j < b ==> View().fat[j] != 0
    {
      hide FreeList, ImageOf, LaidOut;
      ghost var fat := View().fat;
      b := 0;
      for fatBlockIndex := FAT_BLOCK_START_INDEX to rootDirectoryIndex
        invariant (fatBlockIndex - 1) * FAT_ENTRIES <= dataBlocks
        invariant forall j :: 0 <= j < (fatBlockIndex - 1) * FAT_ENTRIES ==> View().fat[j] != 0
      {
        var buffer := ReadFatBlock(fatBlockIndex);
        for entry := 0 to FAT_ENTRIES
          invariant (fatBlockIndex - 1) * FAT_ENTRIES + entry <= dataBlocks
          invariant forall j :: 0 <= j < (fatBlockIndex - 1) * FAT_ENTRIES + entry ==> View().fat[j] != 0
        {
          var dataBlockIndex := (fatBlockIndex - FAT_BLOCK_START_INDEX) * FAT_ENTRIES + entry;
          if dataBlockIndex == dataBlocks {
            NoneFree(View().fat, dataBlocks);
            return false, b;
          }
          if U16At(buffer, 2 * entry) == 0 {
            FirstFreeIsHead(View().fat, dataBlocks, dataBlockIndex);
            return true, dataBlockIndex;
          }
        }
      }
      NoneFree(View().fat, dataBlocks);
      return false, b;
    }

    // Gives an empty file its first block and stores its index in the directory.
    method AddFileToDisk(fd: FdNode) returns (ok: bool)
      requires Ready() && Forest(View().fat, dataBlocks) && fd.dirEntryIndex < FILE_MAX_COUNT
      modifies this`blocks, fd`firstDataBlock
      ensures Ready() && Kept()
      ensures ok <==> FreeList(old(View()).fat, dataBlocks) != []
      ensures !ok ==> View() == old(View()) && fd.firstDataBlock == old(fd.firstDataBlock)
      ensures ok ==> fd.firstDataBlock == FreeList(old(View()).fat, dataBlocks)[0]
      ensures ok ==> View() == Grown(old(View()), fd.dirEntryIndex, [], [fd.firstDataBlock])
    {
      hide FreeList, ImageOf, LaidOut, Grown, Forest, PutEntry, EntryAt;
      ghost var img := View();
      ForestBounds(img.fat, dataBlocks);
      var found, availableBlock := FirstBlockAvailable();
      if !found {
        return false;
      }
      GrownFirst(img, fd.dirEntryIndex, availableBlock);
      fd.firstDataBlock := availableBlock;
      ClearBlock(fd.firstDataBlock);
      var buffer := ReadDirectory();
      var dirEntry := EntryAt(buffer, fd.dirEntryIndex).(index := availableBlock % 0x1_0000);
      assert DirOfBlock(buffer)[fd.dirEntryIndex] == EntryAt(buffer, fd.dirEntryIndex);
      PutEntryAt(buffer, fd.dirEntryIndex, dirEntry);
      WriteDirectory(PutEntry(buffer, fd.dirEntryIndex, dirEntry));
      SetFatEntry(dirEntry.index, FAT_EOC);
      return true;
    }

    // Appends up to neededBlocks blocks, lowest free index first, and clears them.
    method AllocateMoreBlocks(fd: FdNode, neededBlocks: nat) returns (newBlocks: nat)
      requires Ready() && Forest(View().fat, dataBlocks)
      requires Root(View().fat, dataBlocks, fd.firstDataBlock)
      modifies this`blocks
      ensures Ready() && Kept()
      ensures newBlocks == |Lowest(old(View()).fat, dataBlocks, neededBlocks)|
      ensures View() == Grown(old(View()), fd.dirEntryIndex, Chain(old(View()).fat, fd.firstDataBlock),
                              Lowest(old(View()).fat, dataBlocks, neededBlocks))
    {
      hide FreeList, ImageOf, LaidOut, Chain, Walk, Forest, Grown;
      ghost var img, slot := View(), fd.dirEntryIndex;
      ghost var c := Chain(img.fat, fd.firstDataBlock);
      ghost var s := FreeList(img.fat, dataBlocks);
      RootChain(img.fat, dataBlocks, fd.firstDataBlock);
      var fileBlockCount := TotalFileBlocks(fd.firstDataBlock);
      var endBlock := SkipBlocks(fd.firstDataBlock, fileBlockCount - 1);
      newBlocks := 0;
      GrownByNothing(img, slot, c);
      for block := 1 to neededBlocks + 1
        invariant Ready() && Kept()
        invariant newBlocks == block - 1 <= |s|
        invariant View() == Grown(img, slot, c, s[..newBlocks])
        invariant endBlock == (c + s[..newBlocks])[|c| + newBlocks - 1]
      {
        GrownFree(img, slot, c, newBlocks);
        var found, availableBlock := FirstBlockAvailable();
        if !found {
          assert |s[newBlocks..]| == 0;
          break;
        }
        GrownByOne(img, slot, c, newBlocks);
        ClearBlock(availableBlock);
        newBlocks := newBlocks + 1;
        SetFatEntry(endBlock, availableBlock % 0x1_0000);
        SetFatEntry(availableBlock, FAT_EOC);
        endBlock := availableBlock;
      }
      assert newBlocks == |s| ==> s[..newBlocks] == s;
    }
  }

  lemma ZeroedPrefix(fat: seq<nat>, c: seq<nat>, k: nat)
    requires Distinct(c) && forall i :: 0 <= i < |c| ==> c[i] < |fat|
    requires k <= |c|
    ensures k == 0 ==> Zeroed(fat, c[..k]) == fat
    ensures k < |c| ==> Zeroed(fat, c[..k])[c[k]] == fat[c[k]]
    ensures k < |c| ==> Zeroed(fat, c[..k])[c[k] := 0] == Zeroed(fat, c[..k + 1])
  {
  }

  lemma GrownByNothing(img: Image, slot: nat, c: seq<nat>)
    requires Linked(img.fat, Head(c), c)
    ensures Grown(img, slot, c, []) == img
  {
  }

  // Which blocks are free while a chain grows
  lemma GrownFree(img: Image, slot: nat, c: seq<nat>, k: nat)
    requires Forest(img.fat, |img.data|) && IsHead(img.fat, |img.data|, Head(c)) && Linked(img.fat, Head(c), c)
    requires k <= |FreeList(img.fat, |img.data|)|
    ensures FreeList(Grown(img, slot, c, FreeList(img.fat, |img.data|)[..k]).fat, |img.data|)
         == FreeList(img.fat, |img.data|)[k..]
  {
    LowestFresh(img.fat, |img.data|, k);
    FreeAfterGrowth(img.fat, |img.data|, c, Lowest(img.fat, |img.data|, k), k);
  }

  // One more block: it is cleared, the old last block points to it, and it becomes the last.
  lemma GrownByOne(img: Image, slot: nat, c: seq<nat>, k: nat)
    requires Forest(img.fat, |img.data|) && Root(img.fat, |img.data|, Head(c)) && Linked(img.fat, Head(c), c)
    requires k < |FreeList(img.fat, |img.data|)|
    ensures var s := FreeList(img.fat, |img.data|); var g := Grown(img, slot, c, s[..k]);
            && c != [] && 0 < s[k] < |img.data| && (c + s[..k])[|c| + k - 1] < |img.fat|
            && Grown(img, slot, c, s[..k + 1])
            == Image(g.fat[(c + s[..k])[|c| + k - 1] := s[k]][s[k] := FAT_EOC], g.dir, g.data[s[k] := ZeroBlock()])
  {
    hide FreeList, Forest, Root, Relink, Cleared;
    ForestBounds(img.fat, |img.data|);
    var s := FreeList(img.fat, |img.data|);
    NextBlock(img, c, k);
    RootChain(img.fat, |img.data|, Head(c));
    assert s[..k + 1] == s[..k] + [s[k]];
    assert c + s[..k + 1] == c + s[..k] + [s[k]];
    RelinkStep(img.fat, c + s[..k], s[k]);
    ClearTwice(img.data, s[..k], [s[k]]);
    ClearOne(Cleared(img.data, s[..k]), s[k]);
  }

  lemma NextBlock(img: Image, c: seq<nat>, k: nat)
    requires Forest(img.fat, |img.data|) && Root(img.fat, |img.data|, Head(c)) && Linked(img.fat, Head(c), c)
    requires k < |FreeList(img.fat, |img.data|)|
    ensures var s := FreeList(img.fat, |img.data|);
            && Distinct(c + s[..k]) && s[k] !in c + s[..k] && 0 < s[k] < |img.data| <= |img.fat|
            && forall i :: 0 <= i < |c + s[..k]| ==> (c + s[..k])[i] < |img.fat|
  {
    hide FreeList, Forest, Root, Linked, Relink, Chain;
    ForestBounds(img.fat, |img.data|);
    var n, s := |img.data|, FreeList(img.fat, |img.data|);
    LowestFresh(img.fat, n, k + 1);
    GrowthElements(img.fat, n, c, s[..k + 1]);
    var e := c + s[..k];
    assert c + s[..k + 1] == e + [s[k]];
    assert s[..k + 1][k] == s[k];
    StepDistinct(e, s[k]);
    forall i | 0 <= i < |e| ensures e[i] < |img.fat| {
      assert (c + s[..k + 1])[i] == e[i];
      assert e[i] in c + s[..k + 1];
    }
  }

  lemma ClearOne(data: seq<Block>, b: nat)
    requires b < |data|
    ensures Cleared(data, [b]) == data[b := ZeroBlock()]
  {
  }

  // The first block of an empty file
  lemma GrownFirst(img: Image, slot: nat, b: nat)
    requires b < |img.data| <= |img.fat| && slot < |img.dir|
    ensures Grown(img, slot, [], [b])
         == Image(img.fat[b := FAT_EOC], img.dir[slot := img.dir[slot].(index := b)], img.data[b := ZeroBlock()])
  {
  }

  lemma StepDistinct(c: seq<nat>, b: nat)
    requires Distinct(c + [b])
    ensures Distinct(c) && b !in c
  {
    forall i | 0 <= i < |c| ensures c[i] != b {
      assert (c + [b])[i] != (c + [b])[|c|];
    }
    forall i, j | 0 <= i < j < |c| ensures c[i] != c[j] {
      assert (c + [b])[i] != (c + [b])[j];
    }
  }
}
