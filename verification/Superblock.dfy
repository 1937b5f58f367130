/** The superblock: what fs_mount checks, and what the check does and does not guarantee. */
module Superblock {
  import opened Layout
  import opened Semantics
  import opened DiskImage

  // struct DiskMetadata
  datatype Metadata = Metadata(signature: seq<Byte>, totalBlocks: nat, rootDirectoryIndex: nat,
                               dataStartIndex: nat, totalDataBlocks: nat, totalFatBlocks: nat)

  // The characters ECS150FS
  const SIGNATURE: seq<Byte> := [69, 67, 83, 49, 53, 48, 70, 83]

  function DecodeMetadata(b: Block): Metadata {
    Metadata(b[..8], U16At(b, 8), U16At(b, 10), U16At(b, 12), U16At(b, 14), b[16])
  }

  predicate FieldsFit(m: Metadata) {
    && |m.signature| == 8 && m.totalBlocks < 0x1_0000 && m.rootDirectoryIndex < 0x1_0000
    && m.dataStartIndex < 0x1_0000 && m.totalDataBlocks < 0x1_0000 && m.totalFatBlocks < 256
  }

  // The packed record at the start of a zeroed block
  function EncodeMetadata(m: Metadata): Block
    requires FieldsFit(m)
  {
    m.signature
    + [m.totalBlocks % 256, m.totalBlocks / 256, m.rootDirectoryIndex % 256, m.rootDirectoryIndex / 256,
       m.dataStartIndex % 256, m.dataStartIndex / 256, m.totalDataBlocks % 256, m.totalDataBlocks / 256,
       m.totalFatBlocks]
    + Zeros(BLOCK_SIZE - 17)
  }

  lemma MetadataRoundTrip(m: Metadata)
    requires FieldsFit(m)
    ensures DecodeMetadata(EncodeMetadata(m)) == m
  {
  }

  // isValidMetadata, on a device of count blocks
  predicate IsValidMetadata(m: Metadata, count: nat) {
    && m.signature == SIGNATURE
    && m.totalBlocks == count
    && m.totalBlocks >= 4
    && m.totalDataBlocks >= 1 && m.totalFatBlocks >= 1
    && m.totalDataBlocks <= m.totalBlocks - 3 && m.totalFatBlocks <= m.totalBlocks - 3
    && FatBlocksFor(m.totalDataBlocks) == m.totalFatBlocks
    && m.totalDataBlocks <= m.totalFatBlocks * FAT_ENTRIES
    && m.rootDirectoryIndex == 1 + m.totalFatBlocks
    && m.dataStartIndex == 1 + m.totalFatBlocks + 1
  }

  // The disk that fs_mount accepts
  predicate Accepted(blocks: seq<Block>) {
    |blocks| > 0 && IsValidMetadata(DecodeMetadata(blocks[0]), |blocks|)
  }

  // Every data block that the superblock promises is on the device
  ghost predicate AllOnDevice(m: Metadata, count: nat) {
    forall i {:trigger ActualBlockIndex(m.rootDirectoryIndex, i)} :: 0 <= i < m.totalDataBlocks ==>
      ActualBlockIndex(m.rootDirectoryIndex, i) < count
  }

  // An accepted superblock keeps every data block on the device exactly when the block counts add up,
  // which they always do with a single table block.
  lemma AcceptedGeometry(m: Metadata, count: nat)
    requires IsValidMetadata(m, count) && FieldsFit(m)
    ensures AllOnDevice(m, count) <==> 2 + m.totalFatBlocks + m.totalDataBlocks <= m.totalBlocks
    ensures m.totalFatBlocks == 1 ==> AllOnDevice(m, count)
    ensures m.totalDataBlocks <= MAX_DATA_BLOCKS && m.totalFatBlocks <= 32
  {
    if AllOnDevice(m, count) {
      assert ActualBlockIndex(m.rootDirectoryIndex, m.totalDataBlocks - 1) < count;
    }
  }

  // The check accepts a disk whose last data block is past its end.
  lemma AcceptedOffDevice()
    ensures var m := Metadata(SIGNATURE, 2052, 3, 4, 2049, 2);
            IsValidMetadata(m, 2052) && !AllOnDevice(m, 2052)
  {
    var m := Metadata(SIGNATURE, 2052, 3, 4, 2049, 2);
    assert ActualBlockIndex(m.rootDirectoryIndex, 2048) == 2052;
  }

  // Which disks fs_mount accepts, byte by byte: the superblock holds ECS150FS, then in 16-bit little-endian numbers
  // the number of blocks, of the directory block, of the first data block and of the data blocks, then the number
  // of table blocks, which is the number of data blocks divided by 2048, rounded up.
  lemma AcceptedBytes(blocks: seq<Block>)
    requires |blocks| > 0
    ensures var b := blocks[0]; var n := b[14] as int + 256 * b[15] as int; var f := (n + 2047) / 2048;
            && (Accepted(blocks) <==>
                  && b[..8] == [69, 67, 83, 49, 53, 48, 70, 83]
                  && PairInBytes(b, 8, |blocks|) && PairInBytes(b, 10, 1 + f) && PairInBytes(b, 12, 2 + f)
                  && b[16] == f && 1 <= n <= |blocks| - 3 && f <= |blocks| - 3)
            && (Accepted(blocks) ==> 1 + f < |blocks| && DiskImageOf(blocks) == ImageOf(blocks, 1 + f, n))
  {
    hide ImageOf;
  }

  /* ---------- the image on a disk ---------- */

  lemma AcceptedIsLaidOut(blocks: seq<Block>)
    requires Accepted(blocks)
    ensures LaidOut(blocks, DecodeMetadata(blocks[0]).rootDirectoryIndex, DecodeMetadata(blocks[0]).totalDataBlocks)
  {
  }

  function DiskImageOf(blocks: seq<Block>): Image
    requires Accepted(blocks)
  {
    AcceptedIsLaidOut(blocks);
    ImageOf(blocks, DecodeMetadata(blocks[0]).rootDirectoryIndex, DecodeMetadata(blocks[0]).totalDataBlocks)
  }

  lemma SameSuperblock(blocks: seq<Block>, blocks': seq<Block>)
    requires Accepted(blocks) && |blocks'| == |blocks| && blocks'[0] == blocks[0]
    ensures Accepted(blocks')
  {
  }

  // The regions of an accepted disk: superblock, table, directory and data follow each other without overlap.
  lemma RegionsApart(root: nat, n: nat, count: nat, i: nat, j: nat)
    requires 1 <= n <= MAX_DATA_BLOCKS && root == 1 + FatBlocksFor(n) && root + 1 + n <= count
    requires i < n && j < n
    ensures SUPERBLOCK_INDEX < FatBlockIndex(i) < root < ActualBlockIndex(root, j) < count
    ensures i < EntryCount(root) <= 0x1_0000
    ensures i != j ==> ActualBlockIndex(root, i) != ActualBlockIndex(root, j)
    ensures i != j ==> FatBlockIndex(i) != FatBlockIndex(j) || FatBlockEntry(i) != FatBlockEntry(j)
    ensures FatBlockEntry(i) < FAT_ENTRIES && i != FAT_EOC
  {
  }
}
