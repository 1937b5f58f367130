/** How the blocks of a disk encode the table, the directory and the data area. */
module DiskImage {
  import opened Layout
  import opened Semantics

  const SUPERBLOCK_INDEX: nat := 0
  const FAT_BLOCK_START_INDEX: nat := 1

  // The number of table blocks that n data blocks need
  function FatBlocksFor(n: nat): nat {
    n / FAT_ENTRIES + (if n % FAT_ENTRIES == 0 then 0 else 1)
  }

  // root is the index of the directory block: table blocks lie before it, n data blocks after it. The device
  // holds table and directory, but it may end before the last data block.
  predicate LaidOut(blocks: seq<Block>, root: nat, n: nat) {
    1 <= n <= MAX_DATA_BLOCKS && root == 1 + FatBlocksFor(n) && root < |blocks|
  }

  // get_actual_block_index, get_fat_block_index, get_fat_block_entry
  function ActualBlockIndex(root: nat, i: nat): nat {
    root + 1 + i
  }

  function FatBlockIndex(i: nat): nat {
    FAT_BLOCK_START_INDEX + i / FAT_ENTRIES
  }

  function FatBlockEntry(i: nat): nat {
    i % FAT_ENTRIES
  }

  function EntryCount(root: nat): nat {
    if root == 0 then 0 else (root - 1) * FAT_ENTRIES
  }

  function FatView(blocks: seq<Block>, root: nat): (r: seq<nat>)
    requires 1 <= root <= |blocks|
    ensures |r| == EntryCount(root)
  {
    seq(EntryCount(root), i requires 0 <= i < EntryCount(root) =>
      FatIndexInRange(root, i);
      U16At(blocks[FatBlockIndex(i)], 2 * FatBlockEntry(i)))
  }

  lemma FatIndexInRange(root: nat, i: nat)
    requires i < EntryCount(root)
    ensures 1 <= FatBlockIndex(i) < root && FatBlockEntry(i) < FAT_ENTRIES
    ensures i == (FatBlockIndex(i) - 1) * FAT_ENTRIES + FatBlockEntry(i)
  {
  }

  function EntryAt(b: Block, i: nat): (e: DirEntry)
    requires i < FILE_MAX_COUNT
    ensures e.WellSized()
  {
    DecodeEntry(b[ENTRY_SIZE * i..ENTRY_SIZE * i + ENTRY_SIZE])
  }

  function DirOfBlock(b: Block): (r: seq<DirEntry>)
    ensures |r| == FILE_MAX_COUNT
  {
    seq(FILE_MAX_COUNT, i requires 0 <= i < FILE_MAX_COUNT => EntryAt(b, i))
  }

  // The block after record i was overwritten in place
  function PutEntry(b: Block, i: nat, e: DirEntry): Block
    requires i < FILE_MAX_COUNT && e.WellSized()
  {
    b[..ENTRY_SIZE * i] + EncodeEntry(e) + b[ENTRY_SIZE * i + ENTRY_SIZE..]
  }

  lemma PutEntryAt(b: Block, i: nat, e: DirEntry)
    requires i < FILE_MAX_COUNT && e.WellSized()
    ensures DirOfBlock(PutEntry(b, i, e)) == DirOfBlock(b)[i := e]
  {
    var b' := PutEntry(b, i, e);
    forall j | 0 <= j < FILE_MAX_COUNT ensures EntryAt(b', j) == if j == i then e else EntryAt(b, j) {
      if j == i {
        assert b'[ENTRY_SIZE * j..ENTRY_SIZE * j + ENTRY_SIZE] == EncodeEntry(e);
        DecodeEncode(e);
      } else {
        OtherRecord(b, i, e, j);
      }
    }
  }

  lemma OtherRecord(b: Block, i: nat, e: DirEntry, j: nat)
    requires i < FILE_MAX_COUNT && e.WellSized() && j < FILE_MAX_COUNT && j != i
    ensures PutEntry(b, i, e)[ENTRY_SIZE * j..ENTRY_SIZE * j + ENTRY_SIZE]
         == b[ENTRY_SIZE * j..ENTRY_SIZE * j + ENTRY_SIZE]
  {
  }

  // The data area as it is read through a zeroed buffer: blocks past the end of the device are zero.
  function DataView(blocks: seq<Block>, root: nat, n: nat): (r: seq<Block>)
    ensures |r| == n
  {
    seq(n, i requires 0 <= i < n =>
      if ActualBlockIndex(root, i) < |blocks| then blocks[ActualBlockIndex(root, i)] else ZeroBlock())
  }

  function ImageOf(blocks: seq<Block>, root: nat, n: nat): Image
    requires 1 <= root < |blocks|
  {
    Image(FatView(blocks, root), DirOfBlock(blocks[root]), DataView(blocks, root, n))
  }

  // Where on the device every part of the image is: the table from block 1 on, two bytes an entry, the directory in
  // block root, 32 bytes a record, and the data after it, 4096 bytes a block.
  lemma ImageInBytes(blocks: seq<Block>, root: nat, n: nat)
    requires 1 <= root < |blocks|
    ensures var img := ImageOf(blocks, root, n);
            && |img.fat| == 2048 * (root - 1) && |img.dir| == 128 && |img.data| == n
            && (forall i :: 0 <= i < |img.fat| ==>
                  1 + i / 2048 < root && PairInBytes(blocks[1 + i / 2048], 2 * (i % 2048), img.fat[i]))
            && (forall i :: 0 <= i < 128 ==> RecordInBytes(blocks[root], 32 * i, img.dir[i]))
            && (forall i :: 0 <= i < n && root + 1 + i < |blocks| ==> img.data[i] == blocks[root + 1 + i])
            && (forall i :: 0 <= i < n && root + 1 + i >= |blocks| ==> img.data[i] == ZeroBlock())
  {
    forall i | 0 <= i < |FatView(blocks, root)|
      ensures 1 + i / 2048 < root && PairInBytes(blocks[1 + i / 2048], 2 * (i % 2048), FatView(blocks, root)[i])
    {
      FatIndexInRange(root, i);
    }
    forall i | 0 <= i < 128 ensures RecordInBytes(blocks[root], 32 * i, DirOfBlock(blocks[root])[i]) {
      RecordBytes(blocks[root], i);
    }
  }

  // A 16-bit little-endian number at position p
  predicate PairInBytes(b: Block, p: nat, v: nat) {
    p + 1 < 4096 && v == b[p] as int + 256 * b[p + 1] as int
  }

  // The record at position p: 16 bytes of name, a 32-bit size, a 16-bit first block, and 10 unused bytes
  predicate RecordInBytes(b: Block, p: nat, e: DirEntry) {
    && p + 32 <= 4096 && e.filename == b[p..p + 16]
    && e.size == b[p + 16] as int + 256 * b[p + 17] as int + 0x1_0000 * b[p + 18] as int + 0x100_0000 * b[p + 19] as int
    && PairInBytes(b, p + 20, e.index)
    && e.padding == b[p + 22..p + 32]
  }

  lemma RecordBytes(b: Block, i: nat)
    requires i < 128
    ensures RecordInBytes(b, 32 * i, EntryAt(b, i))
  {
  }

  /* ---------- one block written, one part of the image changed ---------- */

  // set_fat_entry on blocks is an update of the flat table.
  lemma FatStore(blocks: seq<Block>, root: nat, n: nat, i: nat, v: nat)
    requires 1 <= root < |blocks| && i < EntryCount(root) && v < 0x1_0000
    ensures FatBlockIndex(i) < root
    ensures ImageOf(blocks[FatBlockIndex(i) := PutU16(blocks[FatBlockIndex(i)], 2 * FatBlockEntry(i), v)], root, n)
         == ImageOf(blocks, root, n).(fat := FatView(blocks, root)[i := v])
  {
  }

  lemma DirStore(blocks: seq<Block>, root: nat, n: nat, b: Block)
    requires 1 <= root < |blocks|
    ensures ImageOf(blocks[root := b], root, n) == ImageOf(blocks, root, n).(dir := DirOfBlock(b))
  {
  }

  lemma DataStore(blocks: seq<Block>, root: nat, n: nat, i: nat, b: Block)
    requires 1 <= root && ActualBlockIndex(root, i) < |blocks| && i < n
    ensures var img := ImageOf(blocks, root, n);
            ImageOf(blocks[ActualBlockIndex(root, i) := b], root, n) == img.(data := img.data[i := b])
  {
  }

  /* ---------- the image determines the bytes ---------- */

  lemma U16Injective(b: Block, b': Block, p: nat)
    requires p + 1 < BLOCK_SIZE && U16At(b, p) == U16At(b', p)
    ensures b[p] == b'[p] && b[p + 1] == b'[p + 1]
  {
  }

  lemma FatBlocksEqual(blocks: seq<Block>, blocks': seq<Block>, root: nat, k: nat)
    requires 1 <= k < root <= |blocks| && root <= |blocks'| && FatView(blocks, root) == FatView(blocks', root)
    ensures blocks[k] == blocks'[k]
  {
    forall p | 0 <= p < BLOCK_SIZE ensures blocks[k][p] == blocks'[k][p] {
      var i := (k - 1) * FAT_ENTRIES + p / 2;
      assert FatBlockIndex(i) == k && FatBlockEntry(i) == p / 2;
      assert FatView(blocks, root)[i] == FatView(blocks', root)[i];
      U16Injective(blocks[k], blocks'[k], 2 * (p / 2));
    }
  }

  lemma DirBlocksEqual(b: Block, b': Block)
    requires DirOfBlock(b) == DirOfBlock(b')
    ensures b == b'
  {
    forall p | 0 <= p < BLOCK_SIZE ensures b[p] == b'[p] {
      var i := p / ENTRY_SIZE;
      var r, r' := b[ENTRY_SIZE * i..ENTRY_SIZE * i + ENTRY_SIZE], b'[ENTRY_SIZE * i..ENTRY_SIZE * i + ENTRY_SIZE];
      assert DirOfBlock(b)[i] == DirOfBlock(b')[i];
      EncodeDecode(r);
      EncodeDecode(r');
      assert b[p] == r[p % ENTRY_SIZE] && b'[p] == r'[p % ENTRY_SIZE];
    }
  }

  // Equal images are equal bytes in every block between the superblock and the end of the data area.
  lemma ImageIsBitForBit(blocks: seq<Block>, blocks': seq<Block>, root: nat, n: nat)
    requires 1 <= root && root + 1 + n <= |blocks| && root + 1 + n <= |blocks'|
    ensures ImageOf(blocks, root, n) == ImageOf(blocks', root, n)
       <==> blocks[1..root + 1 + n] == blocks'[1..root + 1 + n]
  {
    if ImageOf(blocks, root, n) == ImageOf(blocks', root, n) {
      forall k | 1 <= k < root + 1 + n ensures blocks[k] == blocks'[k] {
        if k < root {
          FatBlocksEqual(blocks, blocks', root, k);
        } else if k == root {
          DirBlocksEqual(blocks[k], blocks'[k]);
        } else {
          assert ImageOf(blocks, root, n).data[k - root - 1] == ImageOf(blocks', root, n).data[k - root - 1];
        }
      }
    }
    if blocks[1..root + 1 + n] == blocks'[1..root + 1 + n] {
      SameBytesSameImage(blocks, blocks', root, n);
    }
  }

  lemma SameBytesSameImage(blocks: seq<Block>, blocks': seq<Block>, root: nat, n: nat)
    requires 1 <= root && root + 1 + n <= |blocks| && root + 1 + n <= |blocks'|
    requires blocks[1..root + 1 + n] == blocks'[1..root + 1 + n]
    ensures ImageOf(blocks, root, n) == ImageOf(blocks', root, n)
  {
    hide U16At, EntryAt;
    forall k | 1 <= k < root + 1 + n ensures blocks[k] == blocks'[k] {
      assert blocks[1..root + 1 + n][k - 1] == blocks'[1..root + 1 + n][k - 1];
    }
    forall i | 0 <= i < EntryCount(root) ensures FatView(blocks, root)[i] == FatView(blocks', root)[i] {
      FatIndexInRange(root, i);
    }
    assert DataView(blocks, root, n) == DataView(blocks', root, n);
  }
}
