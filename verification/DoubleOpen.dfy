/**
 What a write costs that extends a file which another descriptor has open: blocks of an empty file
 that are lost for good, and a nonempty file cut back to the size the other descriptor remembers.
 */
module DoubleOpen {
  import opened Layout
  import opened Chains
  import opened Forests
  import opened Allocation
  import opened Contents
  import opened Directory
  import opened Semantics
  import opened Structure
  import opened Exactness
  import opened Writing
  import opened Refinement
  import opened Theorems
  import opened Formatting

  // The block a first write through a descriptor of an empty file allocates
  function FirstNew(s: FsState): nat
    requires |s.img.data| <= |s.img.fat| && FreeList(s.img.fat, |s.img.data|) != []
  {
    FreeList(s.img.fat, |s.img.data|)[0]
  }

  // A write through a descriptor that knows no first block gives the file a new head.
  lemma FirstWriteSetsHead(s: FsState, fd: int, bytes: Buffer)
    requires Inv(s) && IsOpen(s.fds, fd) && s.fds[fd].first == FAT_EOC && bytes != []
    requires FreeList(s.img.fat, |s.img.data|) != []
    ensures Shaped(s) && s.fds[fd].slot < |s.img.dir|
    ensures var s' := WriteOp(s, fd, bytes).0;
            && Inv(s') && |s'.fds| == |s.fds| && |s'.img.dir| == |s.img.dir|
            && s'.fds == s.fds[fd := s'.fds[fd]] && s'.fds[fd].inUse
            && s'.fds[fd].first == FirstNew(s) && s'.fds[fd].slot == s.fds[fd].slot
            && s'.img.dir[s.fds[fd].slot].index == FirstNew(s)
            && (forall j :: 0 <= j < |s.img.dir| && j != s.fds[fd].slot ==> s'.img.dir[j] == s.img.dir[j])
  {
    hide UntilNul, FreeList, Relink, ImageOk;
    var f := s.fds[fd];
    assert FdOk(s.img, f);
    WriteKeepsInv(s, fd, bytes);
    NoChain(s.img);
    var add := Appended(s.img, f, |bytes|);
    BlocksForIsCeiling(|bytes|, 0);
    assert add != [] && add[0] == FirstNew(s);
    assert [] + add == add;
  }

  // An old head stays allocated and stays a head through another descriptor's write.
  lemma HeadKept(s: FsState, fd: int, bytes: Buffer, b: nat)
    requires Inv(s) && IsOpen(s.fds, fd) && s.fds[fd].first == FAT_EOC && bytes != []
    requires Root(s.img.fat, |s.img.data|, b)
    ensures Shaped(s) && Root(WriteOp(s, fd, bytes).0.img.fat, |s.img.data|, b)
    ensures FreeList(s.img.fat, |s.img.data|) != [] ==> b != FirstNew(s)
  {
    hide UntilNul, FreeList;
    var f := s.fds[fd];
    InvShaped(s);
    WriteGrows(s, fd, |bytes|);
    NoChain(s.img);
    RootChain(s.img.fat, |s.img.data|, b);
    GrowthKeepsHead(s.img.fat, |s.img.data|, Chain(s.img.fat, f.first), Appended(s.img, f, |bytes|), b);
    FreeListMeaning(s.img.fat, |s.img.data|);
    assert FreeList(s.img.fat, |s.img.data|) != [] ==> FirstNew(s) in FreeList(s.img.fat, |s.img.data|);
  }

  lemma FirstNewIsBlock(s: FsState)
    requires Inv(s) && |s.img.data| <= |s.img.fat| && FreeList(s.img.fat, |s.img.data|) != []
    ensures FirstNew(s) != FAT_EOC
  {
    FreeListMeaning(s.img.fat, |s.img.data|);
    assert FirstNew(s) in FreeList(s.img.fat, |s.img.data|);
  }

  // A head that no directory record holds is on no file's chain.
  lemma LostHead(img: Image, b: nat)
    requires ImageOk(img) && Root(img.fat, |img.data|, b)
    requires forall j :: 0 <= j < |img.dir| && img.dir[j].InUse() ==> img.dir[j].index != b
    ensures !OnSomeChain(img, b) && !NoLeak(img)
  {
    hide UntilNul, Chain;
    forall j | 0 <= j < |img.dir| && img.dir[j].InUse() ensures b !in ChainOf(img, j) {
      HeadTerminates(img.fat, |img.data|, img.dir[j].index);
      RootOnlyInOwn(img.fat, |img.data|, b, img.dir[j].index);
    }
  }

  lemma HeldHead(s: FsState, fd: int)
    requires Inv(s) && IsOpen(s.fds, fd) && s.fds[fd].first != FAT_EOC
    ensures ImageOk(s.img) && Root(s.img.fat, |s.img.data|, s.fds[fd].first) && OwnsAlone(s.img, s.fds[fd])
  {
  }

  /* ---------- an empty file written through two descriptors ---------- */

  // On a full disk a write through a descriptor without a first block changes nothing.
  lemma FullDiskWrite(s: FsState, fd: int, bytes: Buffer)
    requires Inv(s) && Shaped(s) && IsOpen(s.fds, fd) && s.fds[fd].first == FAT_EOC
    requires FreeList(s.img.fat, |s.img.data|) == []
    ensures WriteOp(s, fd, bytes) == (s, Reply(0, []))
  {
    hide UntilNul, FreeList, ImageOk;
    assert FdOk(s.img, s.fds[fd]);
    NoChain(s.img);
    assert Appended(s.img, s.fds[fd], |bytes|) == [];
  }

  // With a block left, the second descriptor's write makes the file forget its first block.
  lemma SecondWriteLeaks(s: FsState, fd1: int, fd2: int, a: Buffer, b: Buffer)
    requires Inv(s) && IsOpen(s.fds, fd1) && IsOpen(s.fds, fd2) && fd1 != fd2 && a != [] && b != []
    requires s.fds[fd1].slot == s.fds[fd2].slot && s.fds[fd1].first == FAT_EOC == s.fds[fd2].first
    requires |s.img.data| <= |s.img.fat| && FreeList(s.img.fat, |s.img.data|) != []
    ensures Shaped(s) && Shaped(WriteOp(s, fd1, a).0)
    ensures var s1 := WriteOp(s, fd1, a).0;
            |s1.img.data| <= |s1.img.fat|
            && (FreeList(s1.img.fat, |s1.img.data|) != [] ==> !NoLeak(WriteOp(s1, fd2, b).0.img))
  {
    hide UntilNul, FreeList, WriteOp, Chain, FindName;
    FirstWriteSetsHead(s, fd1, a);
    var s1 := WriteOp(s, fd1, a).0;
    var slot, x := s.fds[fd1].slot, FirstNew(s);
    NoChain(s1.img);
    FirstNewIsBlock(s);
    HeldHead(s1, fd1);
    InvShaped(s1);
    if FreeList(s1.img.fat, |s1.img.data|) != [] {
      FirstWriteSetsHead(s1, fd2, b);
      HeadKept(s1, fd2, b, x);
      var s2 := WriteOp(s1, fd2, b).0;
      HeldHead(s2, fd1);
      LostHead(s2.img, x);
    }
  }

  // Two descriptors of one empty file, each written once: blocks are lost exactly when the first write
  // leaves a block free.
  lemma SecondDescriptorLeaksIff(s: FsState, fd1: int, fd2: int, a: Buffer, b: Buffer)
    requires Exact(s) && IsOpen(s.fds, fd1) && IsOpen(s.fds, fd2) && fd1 != fd2 && a != [] && b != []
    requires s.fds[fd1].slot == s.fds[fd2].slot && s.fds[fd1].size == 0
    ensures Shaped(s) && Inv(WriteOp(s, fd1, a).0) && Shaped(WriteOp(s, fd1, a).0)
    ensures var s2 := WriteOp(WriteOp(s, fd1, a).0, fd2, b).0;
            |s2.img.data| <= |s2.img.fat|
            && (NoLeak(s2.img) <==> |FreeList(s.img.fat, |s.img.data|)| <= BlocksFor(|a|))
  {
    hide Exact, WriteOp, FreeList, NoLeak, Current, Chain, Inv;
    ExactInv(s);
    ExactShaped(s);
    ExactCurrent(s, fd1);
    ExactCurrent(s, fd2);
    var s1 := WriteOp(s, fd1, a).0;
    WriteKeepsInv(s, fd1, a);
    WriteKeepsCurrent(s, fd1, a);
    CurrentShaped(s1, fd1);
    WriteKeepsInv(s1, fd2, b);
    InvSizes(WriteOp(s1, fd2, b).0);
    DescriptorMatches(s, fd1);
    DescriptorMatches(s, fd2);
    EmptyIffNoBlock(s.img, s.fds[fd1].slot);
    WriteSummary(s, fd1, a);
    WriteRecord(s, fd1, a);
    BlocksForIsCeiling(|a|, 0);
    if |FreeList(s.img.fat, |s.img.data|)| <= BlocksFor(|a|) {
      FullDiskWrite(s1, fd2, b);
    } else {
      SecondWriteLeaks(s, fd1, fd2, a, b);
    }
  }

  // A name that no descriptor holds is opened twice, through the two lowest descriptors.
  lemma OpenedTwice(s: FsState, name: CString)
    requires Exact(s) && s.fds == FreshFds() && ValidName(name)
    requires FindName(s.img.dir, name) < |s.img.dir| && s.img.dir[FindName(s.img.dir, name)].size == 0
    ensures var s2 := OpenOp(s, name).0; var s3 := OpenOp(s2, name).0;
            && Inv(s2) && Exact(s3) && IsOpen(s3.fds, 0) && IsOpen(s3.fds, 1) && s3.img == s.img
            && s3.fds[0].slot == s3.fds[1].slot && s3.fds[0].size == 0
  {
    hide Exact, FreeList, FindName, FirstClosed;
    assert !s.fds[0].inUse && FirstClosed(s.fds) == 0;
    var s2 := OpenOp(s, name).0;
    OpenKeepsExact(s, name);
    assert s2.fds[0].inUse && !s2.fds[1].inUse && FirstClosed(s2.fds) == 1;
    OpenKeepsExact(s2, name);
    ExactInv(s2);
  }

  // A name created on a formatted disk
  lemma CreatedOnFormat(n: nat, name: CString)
    requires 1 <= n <= MAX_DATA_BLOCKS && ValidName(name)
    ensures var s := CreateOp(FormattedState(n), name).0; var i := FindName(s.img.dir, name);
            && Exact(s) && Inv(s) && s.fds == FreshFds() && i < |s.img.dir| && s.img.dir[i].size == 0
            && |s.img.data| == n <= |s.img.fat| && |FreeList(s.img.fat, n)| == n - 1
  {
    hide Exact, FreeList, Files, UntilNul, FindName, FirstBlank, CreateOp;
    var s := FormattedState(n);
    FormattedIsExact(n);
    ExactInv(s);
    ExactShaped(s);
    CreateSucceedsIff(s, name);
    CreatedSlot(s, name);
    ExactInv(CreateOp(s, name).0);
  }

  lemma RunStep(s: FsState, ops: seq<Op>)
    requires Inv(s) && ops != []
    ensures Shaped(s) && Inv(Step(s, ops[0]).0) && Run(s, ops) == Run(Step(s, ops[0]).0, ops[1..])
  {
    StepKeepsInv(s, ops[0]);
  }

  lemma RunNothing(s: FsState)
    requires Inv(s)
    ensures Run(s, []) == s
  {
  }

  // From a formatted disk with n data blocks: create, open twice, write one byte through each descriptor.
  // Blocks are lost on every disk but those with fewer than three data blocks.
  lemma LeakFromFormat(n: nat, name: CString, x: Byte, y: Byte)
    requires 1 <= n <= MAX_DATA_BLOCKS && ValidName(name)
    ensures var s := Run(FormattedState(n), [Create(name), Open(name), Open(name), Write(0, [x]), Write(1, [y])]);
            |s.img.data| <= |s.img.fat| && (NoLeak(s.img) <==> n < 3)
  {
    hide Inv, Exact, CreateOp, OpenOp, WriteOp, FormattedState, NoLeak, FreeList, Run;
    var s0 := FormattedState(n);
    ExactInv(s0);
    CreatedOnFormat(n, name);
    var s1 := CreateOp(s0, name).0;
    OpenedTwice(s1, name);
    var s2 := OpenOp(s1, name).0;
    var s3 := OpenOp(s2, name).0;
    SecondDescriptorLeaksIff(s3, 0, 1, [x], [y]);
    ExactInv(s3);
    var ops := [Create(name), Open(name), Open(name), Write(0, [x]), Write(1, [y])];
    RunStep(s0, ops);
    RunStep(s1, ops[1..]);
    assert ops[1..][1..] == ops[2..];
    RunStep(s2, ops[2..]);
    assert ops[2..][1..] == ops[3..];
    RunStep(s3, ops[3..]);
    assert ops[3..][1..] == ops[4..];
    var s4 := WriteOp(s3, 0, [x]).0;
    RunStep(s4, ops[4..]);
    assert ops[4..][1..] == [];
    RunNothing(WriteOp(s4, 1, [y]).0);
  }

  /* ---------- a nonempty file written through two descriptors ---------- */

  // The state in which a descriptor has learnt the size of its file
  function Refreshed(s: FsState, fd: int): FsState
    requires IsOpen(s.fds, fd) && s.fds[fd].slot < |s.img.dir|
  {
    s.(fds := s.fds[fd := s.fds[fd].(size := s.img.dir[s.fds[fd].slot].size)])
  }

  // A descriptor that knows its file's first block but thinks the file shorter than it is
  ghost predicate Stale(s: FsState, fd: int) {
    && Inv(s) && Shaped(s) && ImageExact(s.img) && IsOpen(s.fds, fd)
    && s.fds[fd].first == s.img.dir[s.fds[fd].slot].index != FAT_EOC
    && s.fds[fd].size < s.img.dir[s.fds[fd].slot].size
  }

  lemma RefreshedIsCurrent(s: FsState, fd: int)
    requires Stale(s, fd)
    ensures s.fds[fd].slot < |s.img.dir| && Current(Refreshed(s, fd), fd) && Shaped(Refreshed(s, fd))
  {
    hide UntilNul, ImageExact;
    var f := Refreshed(s, fd).fds[fd];
    assert FdOk(s.img, s.fds[fd]) && OwnsAlone(s.img, s.fds[fd]);
    assert ImageOk(s.img) by { StaleParts(s, fd); }
    forall k | 0 <= k < |s.fds| && k != fd ensures Apart(f, s.fds[k]) {
      assert Apart(s.fds[fd], s.fds[k]);
    }
    FdUpdate(s, fd, f);
    CountUpdate(s.fds, fd, f);
    InvShaped(Refreshed(s, fd));
  }

  lemma StaleParts(s: FsState, fd: int)
    requires Stale(s, fd)
    ensures IsOpen(s.fds, fd) && Shaped(s)
    ensures ImageOk(s.img) && FdOk(s.img, s.fds[fd]) && |s.img.data| <= |s.img.fat| && s.fds[fd].slot < |s.img.dir|
    ensures s.fds[fd].offset < s.img.dir[s.fds[fd].slot].size <= MAX_SIZE
  {
    assert FdOk(s.img, s.fds[fd]);
  }

  // fs_write in one piece, when the byte at the offset already has a block
  lemma WriteParts(s: FsState, fd: int, bytes: Buffer)
    requires Shaped(s) && IsOpen(s.fds, fd) && bytes != []
    requires s.fds[fd].offset < BLOCK_SIZE * |Before(s, fd)|
    ensures var f := s.fds[fd]; var c, add := Before(s, fd), Appended(s.img, f, |bytes|); var n := Taken(s, fd, |bytes|);
            WriteOp(s, fd, bytes)
            == (s.(img := Stored(Grown(s.img, f.slot, c, add), f, Advanced(f, c + add, n), c + add, bytes[..n]),
                   fds := s.fds[fd := Advanced(f, c + add, n)]), Reply(n, []))
  {
    hide WriteOp, Appended, FittingBytes, Grown, Stored, Advanced, Chain;
    WriteOpParts(s, fd, bytes);
  }

  lemma StaleRoom(s: FsState, fd: int)
    requires Stale(s, fd)
    ensures s.fds[fd].offset < BLOCK_SIZE * |Before(s, fd)|
  {
    StaleParts(s, fd);
    var f := s.fds[fd];
    assert |ChainOf(s.img, f.slot)| == BlocksFor(s.img.dir[f.slot].size);
    BlocksForIsCeiling(s.img.dir[f.slot].size, |Before(s, fd)|);
  }

  // A stale descriptor takes and stores the bytes that a current one would, and then puts its own size,
  // or the end of what it wrote, in the record.
  lemma StaleWrite(s: FsState, fd: int, bytes: Buffer)
    requires Stale(s, fd) && bytes != []
    ensures s.fds[fd].slot < |s.img.dir| && Shaped(Refreshed(s, fd)) && Shaped(s)
    ensures var f := s.fds[fd]; var (s', r) := WriteOp(s, fd, bytes); var (t, q) := WriteOp(Refreshed(s, fd), fd, bytes);
            var size := if r.ret > 0 && f.offset + r.ret > f.size then f.offset + r.ret else f.size;
            && r == q && 0 <= r.ret && f.slot < |t.img.dir| && size <= MAX_SIZE
            && s'.img == t.img.(dir := t.img.dir[f.slot := t.img.dir[f.slot].(size := size)])
  {
    hide Stale, Stored, Grown, Appended, Taken, Before, WriteOp, Current;
    StaleParts(s, fd);
    StaleRoom(s, fd);
    RefreshedIsCurrent(s, fd);
    SameRequest(s, fd, |bytes|);
    var f, g, n := s.fds[fd], Refreshed(s, fd).fds[fd], Taken(s, fd, |bytes|);
    var c, add := Before(s, fd), Appended(s.img, f, |bytes|);
    WriteParts(s, fd, bytes);
    WriteParts(Refreshed(s, fd), fd, bytes);
    StaleSize(s, fd, bytes);
    GrownSlots(s.img, f.slot, c, add);
    StoredSize(Grown(s.img, f.slot, c, add), f, g, c + add, bytes[..n], n);
  }

  // The size a descriptor remembers plays no part in what a write takes and where it stores it.
  lemma SameRequest(s: FsState, fd: int, count: nat)
    requires IsOpen(s.fds, fd) && s.fds[fd].slot < |s.img.dir| && |s.img.data| <= |s.img.fat|
    ensures var t := Refreshed(s, fd);
            && IsOpen(t.fds, fd) && t.img == s.img && t.fds[fd] == s.fds[fd].(size := t.fds[fd].size)
            && Before(t, fd) == Before(s, fd) && Appended(t.img, t.fds[fd], count) == Appended(s.img, s.fds[fd], count)
            && Taken(t, fd, count) == Taken(s, fd, count)
  {
    hide Chain, FreeList, BlocksFor;
  }

  lemma StoredSize(img: Image, f: Fd, g: Fd, c: seq<nat>, chunk: seq<Byte>, n: nat)
    requires f.slot < |img.dir| && g == f.(size := g.size) && Advanced(f, c, n).size < 0x1_0000_0000
    ensures var s, t := Stored(img, f, Advanced(f, c, n), c, chunk), Stored(img, g, Advanced(g, c, n), c, chunk);
            |t.dir| == |img.dir| && s == t.(dir := t.dir[f.slot := t.dir[f.slot].(size := Advanced(f, c, n).size)])
  {
    hide WriteAt;
  }

  lemma GrownSlots(img: Image, slot: nat, c: seq<nat>, add: seq<nat>)
    ensures |Grown(img, slot, c, add).dir| == |img.dir|
  {
  }

  lemma StaleSize(s: FsState, fd: int, bytes: Buffer)
    requires Stale(s, fd) && bytes != []
    ensures Shaped(s) && 0 <= fd < |WriteOp(s, fd, bytes).0.fds| && WriteOp(s, fd, bytes).0.fds[fd].size <= MAX_SIZE
  {
    hide WriteOp, ImageOk, ImageExact, FdOk;
    WriteKeepsInv(s, fd, bytes);
    var s' := WriteOp(s, fd, bytes).0;
    WrittenSlot(s, fd, bytes);
    assert FdOk(s'.img, s'.fds[fd]);
    SizeBound(s'.img, s'.fds[fd]);
  }

  lemma SizeBound(img: Image, f: Fd)
    requires FdOk(img, f) && f.inUse
    ensures f.size <= MAX_SIZE
  {
  }

  // A file that has blocks keeps its first block when it is written.
  lemma HeadStays(s: FsState, fd: int, bytes: Buffer)
    requires Current(s, fd) && Shaped(s) && s.fds[fd].offset + |bytes| < SIZE_T_LIMIT && s.fds[fd].first != FAT_EOC
    ensures s.fds[fd].slot < |WriteOp(s, fd, bytes).0.img.dir|
    ensures WriteOp(s, fd, bytes).0.img.dir[s.fds[fd].slot].index == s.fds[fd].first
  {
    hide Current, WriteOp, WriteReady, Appended, Taken, Relink, WriteAt, Cleared, Chain;
    CurrentShaped(s, fd);
    var f, c, add, chunk := s.fds[fd], Before(s, fd), Appended(s.img, s.fds[fd], |bytes|), bytes[..Taken(s, fd, |bytes|)];
    WriteIsReady(s, fd, bytes);
    WriteOpIsAfter(s, fd, bytes);
    WriteReadyFacts(s.img, f, c, add, chunk);
    assert Head(c + add) == Head(c);
  }

  lemma LeftStale(s: FsState, fd1: int, fd2: int, a: Buffer)
    requires Exact(s) && Shaped(s) && ExtendsShared(s, Write(fd1, a)) && s.fds[fd1].size > 0
    requires IsOpen(s.fds, fd2) && fd1 != fd2 && s.fds[fd1].slot == s.fds[fd2].slot
    ensures Stale(WriteOp(s, fd1, a).0, fd2) && WriteOp(s, fd1, a).0.fds[fd2] == s.fds[fd2]
  {
    hide Exact, Current, WriteOp, ImageExact, Inv;
    ExactInv(s);
    ExactCurrent(s, fd1);
    ExactCurrent(s, fd2);
    DescriptorMatches(s, fd1);
    DescriptorMatches(s, fd2);
    EmptyIffNoBlock(s.img, s.fds[fd1].slot);
    WriteKeepsInv(s, fd1, a);
    WriteKeepsCurrent(s, fd1, a);
    CurrentShaped(WriteOp(s, fd1, a).0, fd1);
    ExtensionLeavesBehind(s, fd1, a, fd2);
    HeadStays(s, fd1, a);
  }

  lemma ShorterContent(img: Image, i: nat, size: nat)
    requires i < |img.dir| && size <= img.dir[i].size
    ensures Content(img.(dir := img.dir[i := img.dir[i].(size := size)]), i) == Content(img, i)[..size]
  {
  }

  // One descriptor extends a nonempty file, another one writes to it afterwards: its bytes are stored, but the
  // file ends where the second descriptor thinks it does. The file loses bytes exactly when the second request
  // stops short of the end that the first write gave it, whether or not the disk is full.
  lemma SecondWriteCuts(s: FsState, fd1: int, fd2: int, a: Buffer, b: Buffer)
    requires Exact(s) && Shaped(s) && ExtendsShared(s, Write(fd1, a)) && s.fds[fd1].size > 0
    requires IsOpen(s.fds, fd2) && fd1 != fd2 && s.fds[fd1].slot == s.fds[fd2].slot
    requires b != [] && s.fds[fd2].offset + |b| < SIZE_T_LIMIT
    ensures Shaped(WriteOp(s, fd1, a).0)
    ensures var slot, known, off := s.fds[fd1].slot, s.fds[fd1].size, s.fds[fd2].offset;
            var s1 := WriteOp(s, fd1, a).0; var (s2, r) := WriteOp(s1, fd2, b);
            var size := if off + r.ret > known then off + r.ret else known;
            && 0 <= r.ret <= |b| && slot < |s1.img.dir| == |s2.img.dir|
            && off <= known < |Content(s1.img, slot)|
            && size <= |Splice(Content(s1.img, slot), off, b[..r.ret])|
            && Content(s2.img, slot) == Splice(Content(s1.img, slot), off, b[..r.ret])[..size]
            && (off + |b| <= |Content(s1.img, slot)| ==> r.ret == |b|)
            && (|Content(s2.img, slot)| < |Content(s1.img, slot)| <==> off + |b| < |Content(s1.img, slot)|)
  {
    hide Exact, Current, WriteOp, Splice, Content, Stale, Shared, FreeList;
    LeftStale(s, fd1, fd2, a);
    LeftBehindSize(s, fd1, fd2, a);
    var s1 := WriteOp(s, fd1, a).0;
    StaleParts(s1, fd2);
    RefreshedIsCurrent(s1, fd2);
    StaleWrite(s1, fd2, b);
    WriteIsSplice(Refreshed(s1, fd2), fd2, b);
    RoomInside(Refreshed(s1, fd2), fd2);
    ExactCurrent(s, fd1);
    ExactCurrent(s, fd2);
    DescriptorMatches(s, fd1);
    DescriptorMatches(s, fd2);
    var (s2, r) := WriteOp(s1, fd2, b);
    var size := if s.fds[fd2].offset + r.ret > s.fds[fd1].size then s.fds[fd2].offset + r.ret else s.fds[fd1].size;
    ShorterContent(WriteOp(Refreshed(s1, fd2), fd2, b).0.img, s.fds[fd1].slot, size);
  }

  // What lies inside the file always fits.
  lemma RoomInside(s: FsState, fd: int)
    requires Current(s, fd)
    ensures |s.img.data| <= |s.img.fat| && s.fds[fd].offset + SpaceLeft(s, fd) >= s.fds[fd].size
  {
    hide Chain, FreeList, BlocksFor;
    CurrentShaped(s, fd);
    DescriptorMatches(s, fd);
    BlocksForIsCeiling(s.fds[fd].size, |Before(s, fd)|);
  }

  lemma LeftBehindSize(s: FsState, fd1: int, fd2: int, a: Buffer)
    requires Exact(s) && Shaped(s) && ExtendsShared(s, Write(fd1, a))
    requires IsOpen(s.fds, fd2) && fd1 != fd2 && s.fds[fd1].slot == s.fds[fd2].slot
    ensures s.fds[fd1].slot < |WriteOp(s, fd1, a).0.img.dir|
    ensures s.fds[fd1].size < WriteOp(s, fd1, a).0.img.dir[s.fds[fd1].slot].size
  {
    hide Exact, Current, WriteOp;
    ExactCurrent(s, fd1);
    ExactCurrent(s, fd2);
    DescriptorMatches(s, fd1);
    DescriptorMatches(s, fd2);
    ExtensionLeavesBehind(s, fd1, a, fd2);
  }

  /* ---------- a run from a formatted disk that cuts a file ---------- */

  // A file that is created, opened, given one byte and opened once more
  lemma OneByteOpenedTwice(n: nat, name: CString, x: Byte)
    requires 2 <= n <= MAX_DATA_BLOCKS && ValidName(name)
    ensures var s1 := CreateOp(FormattedState(n), name).0; var s2 := OpenOp(s1, name).0;
            Inv(s1) && Inv(s2) && Shaped(s2)
            && var s3 := WriteOp(s2, 0, [x]).0; var s4 := OpenOp(s3, name).0;
            && Inv(s3) && Inv(s4) && Exact(s4) && IsOpen(s4.fds, 0) && IsOpen(s4.fds, 1)
            && s4.fds[0].slot == s4.fds[1].slot < |s4.img.dir| && s4.fds[1].filename == Some(name)
            && s4.fds[0].size == s4.fds[0].offset == 1 && s4.fds[1].offset == 0
            && Content(s4.img, s4.fds[0].slot) == [x]
  {
    hide Exact, FreeList, CreateOp, WriteOp, OpenOp, FormattedState, Content, Splice, Current;
    CreatedOnFormat(n, name);
    var s1 := CreateOp(FormattedState(n), name).0;
    OpenedOnce(s1, name);
    var s2 := OpenOp(s1, name).0;
    OneByteWritten(s2, name, x);
    OpenedAgain(WriteOp(s2, 0, [x]).0, name);
  }

  lemma OpenedOnce(s: FsState, name: CString)
    requires Exact(s) && s.fds == FreshFds() && ValidName(name)
    requires FindName(s.img.dir, name) < |s.img.dir| && s.img.dir[FindName(s.img.dir, name)].size == 0
    ensures var s2 := OpenOp(s, name).0;
            && Exact(s2) && Inv(s2) && Shaped(s2) && s2.img == s.img
            && s2.fds == FreshFds()[0 := s2.fds[0]] && s2.fds[0].inUse && s2.fds[0].filename == Some(name)
            && s2.fds[0].slot == FindName(s.img.dir, name) && s2.fds[0].size == s2.fds[0].offset == 0
  {
    hide Exact, FindName, FirstClosed;
    assert !s.fds[0].inUse && FirstClosed(s.fds) == 0;
    OpenKeepsExact(s, name);
    ExactInv(OpenOp(s, name).0);
    ExactShaped(OpenOp(s, name).0);
  }

  lemma OneByteWritten(s: FsState, name: CString, x: Byte)
    requires Exact(s) && Shaped(s) && s.fds == FreshFds()[0 := s.fds[0]] && s.fds[0].inUse
    requires s.fds[0].filename == Some(name) && s.fds[0].size == s.fds[0].offset == 0
    requires FreeList(s.img.fat, |s.img.data|) != []
    ensures var s' := WriteOp(s, 0, [x]).0; var slot := s.fds[0].slot;
            && Exact(s') && Inv(s') && slot < |s'.img.dir| && Content(s'.img, slot) == [x]
            && s'.fds == FreshFds()[0 := s'.fds[0]] && s'.fds[0].inUse && s'.fds[0].slot == slot
            && s'.fds[0].filename == Some(name) && s'.fds[0].size == s'.fds[0].offset == 1
  {
    hide Exact, Current, FreeList, WriteOp, Content, Splice;
    ExactCurrent(s, 0);
    DescriptorMatches(s, 0);
    StepKeepsExact(s, Write(0, [x]));
    ExactInv(WriteOp(s, 0, [x]).0);
    WriteIsSplice(s, 0, [x]);
    UpdateTwice(FreshFds(), 0, s.fds[0], WriteOp(s, 0, [x]).0.fds[0]);
    var content := Content(s.img, s.fds[0].slot);
    assert content == [];
    OneByteSpliced(content, x);
  }

  lemma OneByteSpliced(content: seq<Byte>, x: Byte)
    requires |content| <= 1
    ensures Splice(content, |content|, [x][..1]) == content + [x]
    ensures |content| == 1 ==> Splice(content, 0, [x][..1]) == [x]
  {
  }

  lemma OpenedAgain(s: FsState, name: CString)
    requires Exact(s) && ValidName(name) && s.fds == FreshFds()[0 := s.fds[0]] && s.fds[0].inUse
    requires s.fds[0].filename == Some(name)
    ensures var s' := OpenOp(s, name).0;
            && Exact(s') && Inv(s') && s'.img == s.img && IsOpen(s'.fds, 1) && s'.fds[0] == s.fds[0]
            && s'.fds[1].slot == s.fds[0].slot && s'.fds[1].offset == 0 && s'.fds[1].filename == Some(name)
  {
    hide Exact, FindName, FirstClosed;
    assert s.fds[0].inUse && !s.fds[1].inUse && FirstClosed(s.fds) == 1;
    ExactCurrent(s, 0);
    FdNames(s, 0);
    OpenKeepsExact(s, name);
    ExactInv(OpenOp(s, name).0);
  }

  // The file xy becomes z.
  lemma OneByteCut(s: FsState, x: Byte, y: Byte, z: Byte)
    requires Exact(s) && Shaped(s) && IsOpen(s.fds, 0) && IsOpen(s.fds, 1) && s.fds[0].slot == s.fds[1].slot < |s.img.dir|
    requires s.fds[0].size == s.fds[0].offset == 1 && s.fds[1].offset == 0 && Content(s.img, s.fds[0].slot) == [x]
    ensures var s' := WriteOp(s, 0, [y]).0; var slot := s.fds[0].slot;
            && Inv(s') && Shaped(s') && slot < |s'.img.dir| && Content(s'.img, slot) == [x, y]
            && IsOpen(s'.fds, 1) && s'.fds[1] == s.fds[1]
            && var t := WriteOp(s', 1, [z]).0;
               slot < |t.img.dir| && |t.img.dir| == |s'.img.dir| && Content(t.img, slot) == [z]
  {
    hide Exact, Current, FreeList, WriteOp, Content, Splice, Inv;
    ExactInv(s);
    ExactCurrent(s, 0);
    assert Shared(s.fds, 0);
    assert ExtendsShared(s, Write(0, [y]));
    SecondWriteCuts(s, 0, 1, [y], [z]);
    ExtensionLeavesBehind(s, 0, [y], 1);
    WriteIsSplice(s, 0, [y]);
    WriteKeepsInv(s, 0, [y]);
    OneByteSpliced([x], y);
    CutSplice(Content(WriteOp(s, 0, [y]).0.img, s.fds[0].slot), z);
  }

  lemma CutSplice(content: seq<Byte>, z: Byte)
    requires |content| == 2
    ensures Splice(content, 0, [z][..1])[..1] == [z]
  {
  }

  // The last call of a run
  lemma {:induction false} RunLast(s: FsState, ops: seq<Op>, op: Op)
    requires Inv(s)
    ensures Shaped(Run(s, ops)) && Run(s, ops + [op]) == Step(Run(s, ops), op).0
    decreases |ops|
  {
    hide Inv, Step;
    StepKeepsInv(s, (ops + [op])[0]);
    if ops == [] {
      assert ([] + [op])[1..] == [];
      RunNothing(Step(s, op).0);
    } else {
      assert (ops + [op])[1..] == ops[1..] + [op];
      RunLast(Step(s, ops[0]).0, ops[1..], op);
    }
    InvShaped(Run(s, ops));
  }

  // From a formatted disk with a block to spare: create, open, write x, open again, write y through the first
  // descriptor and z through the second. The file is xy before the last call and z after it.
  lemma CutFromFormat(n: nat, name: CString, x: Byte, y: Byte, z: Byte)
    requires 2 <= n <= MAX_DATA_BLOCKS && ValidName(name)
    ensures var ops := [Create(name), Open(name), Write(0, [x]), Open(name), Write(0, [y])];
            var s := Run(FormattedState(n), ops); var t := Run(FormattedState(n), ops + [Write(1, [z])]);
            && IsOpen(s.fds, 1) && s.fds[1].filename == Some(name) && s.fds[1].slot < |s.img.dir| == |t.img.dir|
            && Content(s.img, s.fds[1].slot) == [x, y] && Content(t.img, s.fds[1].slot) == [z]
  {
    hide Exact, Inv, CreateOp, OpenOp, WriteOp, FormattedState, Content, Run;
    var s0 := FormattedState(n);
    ExactInv(s0);
    OneByteOpenedTwice(n, name, x);
    var s2 := OpenOp(CreateOp(s0, name).0, name).0;
    var s4 := OpenOp(WriteOp(s2, 0, [x]).0, name).0;
    ExactShaped(s4);
    OneByteCut(s4, x, y, z);
    var ops := [Create(name), Open(name), Write(0, [x]), Open(name), Write(0, [y])];
    RunNothing(s0);
    RunLast(s0, [], ops[0]);
    RunLast(s0, [ops[0]], ops[1]);
    RunLast(s0, [ops[0], ops[1]], ops[2]);
    RunLast(s0, [ops[0], ops[1], ops[2]], ops[3]);
    RunLast(s0, [ops[0], ops[1], ops[2], ops[3]], ops[4]);
    RunLast(s0, ops, Write(1, [z]));
    assert [] + [ops[0]] == [ops[0]] && [ops[0]] + [ops[1]] == [ops[0], ops[1]];
    assert [ops[0], ops[1]] + [ops[2]] == [ops[0], ops[1], ops[2]];
    assert [ops[0], ops[1], ops[2]] + [ops[3]] == [ops[0], ops[1], ops[2], ops[3]];
    assert [ops[0], ops[1], ops[2], ops[3]] + [ops[4]] == ops;
  }
}
