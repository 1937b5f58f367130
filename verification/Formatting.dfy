/** Formatting a disk (create_disk) and bringing it back to that state (erase_all_files). */
module Formatting {
  import opened Layout
  import opened Chains
  import opened Forests
  import opened Allocation
  import opened Directory
  import opened Semantics
  import opened Structure
  import opened Exactness
  import opened Refinement
  import opened DiskImage
  import opened Superblock
  import opened FileMap
  import opened Runs

  /* ---------- erase_all_files ---------- */

  // The table and directory of a freshly formatted disk
  function FormattedFat(entries: nat): (r: seq<nat>)
    ensures |r| == entries
  {
    seq(entries, i requires 0 <= i < entries => if i == 0 then FAT_EOC else 0)
  }

  function FormattedDir(): (r: seq<DirEntry>)
    ensures |r| == FILE_MAX_COUNT
  {
    seq(FILE_MAX_COUNT, _ => BLANK_ENTRY)
  }

  // With nothing open, erase_all_files succeeds and blanks the directory, and it brings the table back to the
  // formatted state exactly when no block had been lost.
  lemma EraseAllFormats(s: FsState)
    requires Inv(s) && forall i :: 0 <= i < |s.fds| ==> !s.fds[i].inUse
    ensures |s.img.data| <= |s.img.fat|
    ensures var img := EraseAllOp(s).0.img;
            && EraseAllOp(s).1.ret == 0 && img.dir == FormattedDir()
            && (img.fat == FormattedFat(|s.img.fat|) <==> NoLeak(s.img))
  {
    hide UntilNul, NoLeak, ImageOk, ErasedFat, ErasedDir, FdsOk;
    CountExtremes(s.fds);
    NoChain(s.img);
    var img := ErasedImage(s.img, |s.img.dir|);
    ErasedOk(s.img, |s.img.dir|);
    ErasedNoLeak(s.img, |s.img.dir|);
    ErasedAll(s.img);
    BlankNoLeak(img);
  }

  lemma ErasedAll(img: Image)
    requires ImageOk(img)
    ensures ErasedDir(img.dir, |img.dir|) == FormattedDir()
  {
    hide UntilNul;
    ErasedBlank(img.dir);
  }

  // Without files no block is lost exactly when the table is the formatted one.
  lemma BlankNoLeak(img: Image)
    requires ImageOk(img) && |img.data| <= |img.fat| && img.dir == FormattedDir()
    ensures NoLeak(img) <==> img.fat == FormattedFat(|img.fat|)
  {
    hide UntilNul;
    BlankIsOk();
    assert forall x: nat :: !OnSomeChain(img, x);
    if NoLeak(img) {
      forall x | 0 < x < |img.fat| ensures img.fat[x] == 0 {
        assert !OnSomeChain(img, x);
      }
    }
  }

  lemma ErasedBlank(dir: seq<DirEntry>)
    requires DirOk(dir)
    ensures ErasedDir(dir, |dir|) == FormattedDir() && !BLANK_ENTRY.InUse()
  {
  }

  /* ---------- create_disk ---------- */

  const MAX_FORMAT_BLOCKS: nat := 8198

  function FormattedImage(n: nat): Image {
    Image(FormattedFat(FatBlocksFor(n) * FAT_ENTRIES), FormattedDir(), seq(n, _ => ZeroBlock()))
  }

  lemma FormattedForest(n: nat)
    requires 1 <= n <= MAX_DATA_BLOCKS
    ensures Forest(FormattedFat(FatBlocksFor(n) * FAT_ENTRIES), n)
  {
    var fat := FormattedFat(FatBlocksFor(n) * FAT_ENTRIES);
    assert Linked(fat, 0, [0]);
    ChainUnique(fat, 0, [0]);
  }

  // A formatted disk satisfies the strong invariant, holds no file, and has all blocks but one free.
  lemma FormattedIsExact(n: nat)
    requires 1 <= n <= MAX_DATA_BLOCKS
    ensures ImageExact(FormattedImage(n)) && Files(FormattedImage(n)) == map[]
    ensures |FreeList(FormattedImage(n).fat, n)| == n - 1
    ensures Exact(FsState(FormattedImage(n), FreshFds(), 0))
  {
    hide ImageOk, FreeList, Files;
    FormattedOk(n);
    NoFiles(FormattedImage(n));
    FreshlyMounted(FormattedImage(n));
  }

  lemma FormattedOk(n: nat)
    requires 1 <= n <= MAX_DATA_BLOCKS
    ensures ImageOk(FormattedImage(n)) && n <= |FormattedImage(n).fat|
    ensures forall i :: 0 <= i < FILE_MAX_COUNT ==> !FormattedImage(n).dir[i].InUse()
  {
    hide Forest;
    FormattedForest(n);
    BlankIsOk();
  }

  // The superblock that create_disk writes
  function FormattedMetadata(n: nat): (m: Metadata)
    requires 1 <= n <= MAX_FORMAT_BLOCKS
    ensures FieldsFit(m)
  {
    var f := FatBlocksFor(n);
    Metadata(SIGNATURE, 1 + f + 1 + n, 1 + f, 1 + f + 1, n, f)
  }

  // Blocks of a formatted disk: superblock, table with only its reserved entry set, and zeros
  ghost predicate Formatted(file: seq<Block>, n: nat)
    requires 1 <= n <= MAX_FORMAT_BLOCKS
  {
    && |file| == 2 + FatBlocksFor(n) + n
    && file[0] == EncodeMetadata(FormattedMetadata(n))
    && file[1] == PutU16(ZeroBlock(), 0, FAT_EOC)
    && forall k :: 2 <= k < |file| ==> file[k] == ZeroBlock()
  }

  // The same in bytes and numbers
  ghost predicate FormattedBytes(file: seq<Block>, n: nat) {
    var f := (n + 2047) / 2048;
    && |file| == 2 + f + n
    && file[0][..17] == [69, 67, 83, 49, 53, 48, 70, 83, (2 + f + n) % 256, (2 + f + n) / 256, 1 + f, 0, 2 + f, 0,
                         n % 256, n / 256, f]
    && (forall p :: 17 <= p < 4096 ==> file[0][p] == 0)
    && file[1][0] == 255 && file[1][1] == 255 && (forall p :: 2 <= p < 4096 ==> file[1][p] == 0)
    && forall k, p :: 2 <= k < |file| && 0 <= p < 4096 ==> file[k][p] == 0
  }

  lemma FormattedInBytes(file: seq<Block>, n: nat)
    requires 1 <= n <= MAX_FORMAT_BLOCKS && Formatted(file, n)
    ensures FormattedBytes(file, n)
  {
    SuperblockInBytes(n);
  }

  lemma SuperblockInBytes(n: nat)
    requires 1 <= n <= MAX_FORMAT_BLOCKS
    ensures var f := (n + 2047) / 2048; var b := EncodeMetadata(FormattedMetadata(n));
            && f == FatBlocksFor(n)
            && b[..17] == [69, 67, 83, 49, 53, 48, 70, 83, (2 + f + n) % 256, (2 + f + n) / 256, 1 + f, 0, 2 + f, 0,
                           n % 256, n / 256, f]
            && forall p :: 17 <= p < 4096 ==> b[p] == 0
  {
  }

  lemma FormattedBlocks(file: seq<Block>, n: nat)
    requires 1 <= n <= MAX_FORMAT_BLOCKS && Formatted(file, n)
    ensures Accepted(file) && DiskImageOf(file) == FormattedImage(n)
  {
    var root := 1 + FatBlocksFor(n);
    MetadataRoundTrip(FormattedMetadata(n));
    forall i | 0 <= i < EntryCount(root) ensures FatView(file, root)[i] == FormattedImage(n).fat[i] {
      FatIndexInRange(root, i);
      if FatBlockIndex(i) == 1 {
        U16RoundTrip(ZeroBlock(), 0, 2 * i, FAT_EOC);
      }
    }
    forall i | 0 <= i < FILE_MAX_COUNT ensures EntryAt(file[root], i) == BLANK_ENTRY {
      ZeroRecord(i);
    }
  }

  lemma ZeroRecord(i: nat)
    requires i < FILE_MAX_COUNT
    ensures EntryAt(ZeroBlock(), i) == BLANK_ENTRY
  {
  }

  // create_disk, given whether the host file exists; file is what it leaves on the host
  method CreateDisk(dataBlocks: nat, present: bool) returns (r: int, file: seq<Block>)
    ensures r == if dataBlocks == 0 || dataBlocks > 8198 || present then -1 else 0
    ensures r == 0 ==> Formatted(file, dataBlocks)
    ensures r == 0 ==> FormattedBytes(file, dataBlocks)
  {
    hide EncodeMetadata, PutU16, FormattedBytes;
    file := [];
    if dataBlocks == 0 || dataBlocks > MAX_FORMAT_BLOCKS {
      return -1, file;
    }
    if present {
      return -1, file;
    }
    var fatBlocks := dataBlocks / FAT_ENTRIES;
    if dataBlocks % FAT_ENTRIES != 0 {
      fatBlocks := fatBlocks + 1;
    }
    var buffer := ZeroBlock();
    var diskBlocks := 1 + fatBlocks + 1 + dataBlocks;
    for block := 0 to diskBlocks
      invariant |file| == block && forall k :: 0 <= k < block ==> file[k] == ZeroBlock()
    {
      file := file + [buffer];
    }
    var metadata := Metadata(SIGNATURE, diskBlocks % 0x1_0000, (1 + fatBlocks) % 0x1_0000,
                             (1 + fatBlocks + 1) % 0x1_0000, dataBlocks % 0x1_0000, fatBlocks % 256);
    file := file[0 := EncodeMetadata(metadata)];
    file := file[1 := PutU16(ZeroBlock(), 0, FAT_EOC)];
    FormattedInBytes(file, dataBlocks);
    return 0, file;
  }

  // A formatted disk, just mounted
  ghost function FormattedState(n: nat): (s: FsState)
    requires 1 <= n <= MAX_DATA_BLOCKS
    ensures Exact(s)
  {
    FormattedIsExact(n);
    FsState(FormattedImage(n), FreshFds(), 0)
  }

  // From a formatted disk on, every run in which nobody uses a descriptor that was left behind is a run of the
  // abstract file map that starts with no file, no handle and all blocks free, and at its end every block is
  // accounted for. If no shared file is extended, nobody is ever left behind.
  lemma RunFromFormat(n: nat, ops: seq<Op>)
    requires 1 <= n <= MAX_FORMAT_BLOCKS
    requires Careful(FormattedState(n), ops) || Disciplined(FormattedState(n), ops)
    ensures var s := Run(FormattedState(n), ops);
            && Sound(s) && (Disciplined(FormattedState(n), ops) ==> Exact(s)) && Counted(s.img) && |s.img.data| == n
            && (Abs(s), Replies(FormattedState(n), ops))
            == AbsRun(AbsState(map[], seq(OPEN_MAX_COUNT, _ => None), n - 1, n - 1), ops)
            && |FreeList(s.img.fat, n)| + TotalBlocks(s.img, |s.img.dir|) + 1 == n
  {
    hide Exact, Sound, Careful, Disciplined, AbsRun, Abs, FreeList, FormattedState, TotalBlocks, LeftBehind;
    var s0 := FormattedState(n);
    FormattedAbs(n);
    ExactInv(s0);
    ExactIsSound(s0);
    if Disciplined(s0, ops) { DisciplinedRun(s0, ops); }
    RunRefines(s0, ops);
    RunKeepsSize(s0, ops);
    SoundParts(Run(s0, ops));
    Conservation(Run(s0, ops).img);
  }

  lemma FormattedAbs(n: nat)
    requires 1 <= n <= MAX_FORMAT_BLOCKS
    ensures var s := FormattedState(n);
            && Counted(s.img) && |s.img.data| == n
            && Abs(s) == AbsState(map[], seq(OPEN_MAX_COUNT, _ => None), n - 1, n - 1)
  {
    hide Exact, Files, FreeList;
    FormattedIsExact(n);
    assert Handles(FreshFds()) == seq(OPEN_MAX_COUNT, _ => None);
  }
}
