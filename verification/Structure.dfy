/**
 The invariant that every run keeps, even when one file is open through several descriptors:
 the table is a forest, the directory and the descriptor table are well formed, and no chain
 is reachable from two different directory slots.
 */
module Structure {
  import opened Layout
  import opened Chains
  import opened Forests
  import opened Allocation
  import opened Contents
  import opened Directory
  import opened Semantics

  const MAX_SIZE: nat := BLOCK_SIZE * MAX_DATA_BLOCKS

  // Directory slots hold heads of chains, no two of them the same chain
  ghost predicate HeadsOk(img: Image) {
    && (forall i :: 0 <= i < |img.dir| && img.dir[i].InUse() ==>
          IsHead(img.fat, |img.data|, img.dir[i].index) && img.dir[i].size <= MAX_SIZE)
    && (forall i, j {:trigger HeadsApart(img, i, j)} :: 0 <= i < |img.dir| && 0 <= j < |img.dir| && i != j ==>
          HeadsApart(img, i, j))
  }

  ghost predicate HeadsApart(img: Image, i: nat, j: nat)
    requires i < |img.dir| && j < |img.dir|
  {
    img.dir[i].InUse() && img.dir[j].InUse() && img.dir[i].index != FAT_EOC ==> img.dir[i].index != img.dir[j].index
  }

  ghost predicate ImageOk(img: Image) {
    Forest(img.fat, |img.data|) && DirOk(img.dir) && HeadsOk(img)
  }

  // One descriptor, looked at on its own
  ghost predicate FdOk(img: Image, f: Fd) {
    if !f.inUse then f == CLOSED
    else
      && f.slot < |img.dir| && img.dir[f.slot].InUse()
      && f.filename == Some(img.dir[f.slot].Name())
      && IsHead(img.fat, |img.data|, f.first)
      && f.offset <= f.size <= MAX_SIZE
      && (f.first == FAT_EOC ==> f.size == 0)
  }

  // A descriptor's chain is not the chain of another directory slot
  ghost predicate OwnsAlone(img: Image, f: Fd) {
    f.inUse && f.first != FAT_EOC ==>
      forall j :: 0 <= j < |img.dir| && j != f.slot && img.dir[j].InUse() ==> img.dir[j].index != f.first
  }

  ghost predicate Apart(f: Fd, g: Fd) {
    f.inUse && g.inUse && f.first == g.first && f.first != FAT_EOC ==> f.slot == g.slot
  }

  ghost predicate FdsOk(img: Image, fds: seq<Fd>) {
    && |fds| == OPEN_MAX_COUNT
    && (forall i :: 0 <= i < |fds| ==> FdOk(img, fds[i]) && OwnsAlone(img, fds[i]))
    && (forall i, j :: 0 <= i < |fds| && 0 <= j < |fds| ==> Apart(fds[i], fds[j]))
  }

  ghost predicate Inv(s: FsState) {
    ImageOk(s.img) && FdsOk(s.img, s.fds) && s.occupied == CountInUse(s.fds)
  }

  // An empty file has no chain.
  lemma NoChain(img: Image)
    requires ImageOk(img)
    ensures Chain(img.fat, FAT_EOC) == [] && |img.data| <= |img.fat|
  {
    HeadTerminates(img.fat, |img.data|, FAT_EOC);
  }

  lemma InvShaped(s: FsState)
    requires Inv(s)
    ensures Shaped(s)
  {
  }

  /* ---------- counting open descriptors ---------- */

  lemma {:induction false} CountUpdate(fds: seq<Fd>, i: nat, f: Fd)
    requires i < |fds|
    ensures CountInUse(fds[i := f]) + (if fds[i].inUse then 1 else 0)
         == CountInUse(fds) + (if f.inUse then 1 else 0)
  {
    if i > 0 {
      assert fds[i := f][1..] == fds[1..][i - 1 := f];
      CountUpdate(fds[1..], i - 1, f);
    } else {
      assert fds[i := f][1..] == fds[1..];
    }
  }

  lemma {:induction false} CountExtremes(fds: seq<Fd>)
    ensures CountInUse(fds) <= |fds|
    ensures CountInUse(fds) == |fds| <==> FirstClosed(fds) == |fds|
    ensures CountInUse(fds) == 0 <==> forall i :: 0 <= i < |fds| ==> !fds[i].inUse
  {
    if fds != [] {
      CountExtremes(fds[1..]);
      assert fds == [fds[0]] + fds[1..];
      if FirstClosed(fds) == |fds| {
        assert fds[0].inUse;
      }
    }
  }

  /* ---------- each call keeps the invariant ---------- */

  // A directory change that keeps every used slot's name and first block keeps the descriptors.
  lemma DirFrame(img: Image, dir': seq<DirEntry>, fds: seq<Fd>)
    requires FdsOk(img, fds) && |dir'| == |img.dir|
    requires forall i :: 0 <= i < |fds| && fds[i].inUse && fds[i].slot < |dir'|
                 ==> dir'[fds[i].slot].InUse() && dir'[fds[i].slot].Name() == img.dir[fds[i].slot].Name()
    requires forall j :: 0 <= j < |dir'| && dir'[j].InUse()
                 ==> dir'[j].index == FAT_EOC || (img.dir[j].InUse() && dir'[j].index == img.dir[j].index)
    ensures FdsOk(img.(dir := dir'), fds)
  {
  }

  lemma CreatedOk(img: Image, name: CString, i: nat)
    requires ImageOk(img) && ValidName(name) && FindName(img.dir, name) == |img.dir|
    requires i < |img.dir| && !img.dir[i].InUse()
    ensures ImageOk(img.(dir := img.dir[i := NewEntry(name)]))
  {
    hide UntilNul, FindName;
    var img' := img.(dir := img.dir[i := NewEntry(name)]);
    CreateKeepsDir(img.dir, name, i);
    forall j, k | 0 <= j < |img'.dir| && 0 <= k < |img'.dir| && j != k ensures HeadsApart(img', j, k) {
      assert HeadsApart(img, j, k);
    }
  }

  lemma CreateKeepsInv(s: FsState, name: CString)
    requires Inv(s)
    ensures Inv(CreateOp(s, name).0)
  {
    hide UntilNul, FindName, FirstBlank;
    var i := FirstBlank(s.img.dir);
    if ValidName(name) && FindName(s.img.dir, name) == |s.img.dir| && i < |s.img.dir| {
      CreatedOk(s.img, name, i);
      NewEntryName(name);
      forall k | 0 <= k < |s.fds| && s.fds[k].inUse
        ensures s.fds[k].slot != i
      {
        assert FdOk(s.img, s.fds[k]);
      }
      DirFrame(s.img, s.img.dir[i := NewEntry(name)], s.fds);
    }
  }

  lemma NotOpenSlot(s: FsState, i: nat, k: nat)
    requires Inv(s) && i < |s.img.dir| && s.img.dir[i].InUse() && !NameOpen(s.fds, s.img.dir[i].Name())
    requires k < |s.fds| && s.fds[k].inUse
    ensures s.fds[k].slot != i
  {
  }

  // The image after slot i was blanked and its chain freed
  function Removed(img: Image, i: nat): Image
    requires i < |img.dir|
  {
    img.(dir := img.dir[i := BLANK_ENTRY], fat := Zeroed(img.fat, Chain(img.fat, img.dir[i].index)))
  }

  lemma ZeroedNothing(fat: seq<nat>)
    ensures Zeroed(fat, []) == fat
  {
  }

  // What survives when the file in slot i goes: every other head and its chain
  lemma RemovedKeepsHead(img: Image, i: nat, b: nat)
    requires ImageOk(img) && i < |img.dir| && img.dir[i].InUse()
    requires IsHead(img.fat, |img.data|, b) && (b == FAT_EOC || b != img.dir[i].index)
    ensures IsHead(Removed(img, i).fat, |img.data|, b)
    ensures Terminates(img.fat, b) && Chain(Removed(img, i).fat, b) == Chain(img.fat, b)
  {
    var r := img.dir[i].index;
    HeadTerminates(img.fat, |img.data|, b);
    if r == FAT_EOC {
      HeadTerminates(img.fat, |img.data|, r);
      ZeroedNothing(img.fat);
    } else {
      assert Root(img.fat, |img.data|, r);
      if b != FAT_EOC {
        EraseKeepsHead(img.fat, |img.data|, r, b);
      } else {
        ChainFrame(img.fat, Removed(img, i).fat, b);
      }
    }
  }

  lemma RemovedOk(img: Image, i: nat)
    requires ImageOk(img) && i < |img.dir| && img.dir[i].InUse()
    ensures ImageOk(Removed(img, i))
  {
    var img' := Removed(img, i);
    BlankKeepsDir(img.dir, i);
    BlankIsOk();
    HeadTerminates(img.fat, |img.data|, img.dir[i].index);
    if img.dir[i].index == FAT_EOC {
      ZeroedNothing(img.fat);
    } else {
      EraseKeepsForest(img.fat, |img.data|, img.dir[i].index);
    }
    forall j | 0 <= j < |img'.dir| && img'.dir[j].InUse()
      ensures IsHead(img'.fat, |img.data|, img'.dir[j].index) && img'.dir[j].size <= MAX_SIZE
    {
      assert HeadsApart(img, j, i);
      RemovedKeepsHead(img, i, img.dir[j].index);
    }
    forall j, k | 0 <= j < |img'.dir| && 0 <= k < |img'.dir| && j != k ensures HeadsApart(img', j, k) {
      assert HeadsApart(img, j, k);
    }
  }

  lemma DeleteKeepsInv(s: FsState, name: CString)
    requires Inv(s)
    ensures Inv(DeleteOp(s, name).0)
  {
    var i := FindName(s.img.dir, name);
    if ValidName(name) && i < |s.img.dir| && !NameOpen(s.fds, name) {
      var img' := Removed(s.img, i);
      RemovedOk(s.img, i);
      BlankIsOk();
      forall k | 0 <= k < |s.fds| ensures FdOk(img', s.fds[k]) && OwnsAlone(img', s.fds[k]) {
        assert FdOk(s.img, s.fds[k]) && OwnsAlone(s.img, s.fds[k]);
        if s.fds[k].inUse {
          NotOpenSlot(s, i, k);
          RemovedKeepsHead(s.img, i, s.fds[k].first);
        }
      }
    }
  }

  // Replacing one descriptor while the image changes to img
  lemma FdReplaced(img: Image, fds: seq<Fd>, fd: nat, f: Fd)
    requires |fds| == OPEN_MAX_COUNT && fd < |fds| && FdOk(img, f) && OwnsAlone(img, f)
    requires forall i :: 0 <= i < |fds| && i != fd ==>
               FdOk(img, fds[i]) && OwnsAlone(img, fds[i]) && Apart(f, fds[i])
    requires forall i, j :: 0 <= i < |fds| && 0 <= j < |fds| ==> Apart(fds[i], fds[j])
    ensures FdsOk(img, fds[fd := f])
  {
  }

  lemma FdUpdate(s: FsState, fd: nat, f: Fd)
    requires Inv(s) && fd < |s.fds| && FdOk(s.img, f) && OwnsAlone(s.img, f)
    requires forall i :: 0 <= i < |s.fds| && i != fd ==> Apart(f, s.fds[i])
    ensures FdsOk(s.img, s.fds[fd := f])
  {
  }

  lemma OpenKeepsInv(s: FsState, name: CString)
    requires Inv(s)
    ensures Inv(OpenOp(s, name).0)
  {
    var i := FindName(s.img.dir, name);
    var fd := FirstClosed(s.fds);
    if ValidName(name) && fd < |s.fds| && i < |s.img.dir| {
      var e := s.img.dir[i];
      var f := Fd(true, Some(name), i, if e.index == FAT_EOC then 0 else e.size, 0, e.index);
      forall k | 0 <= k < |s.fds| && k != fd ensures Apart(f, s.fds[k]) {
        assert FdOk(s.img, s.fds[k]) && OwnsAlone(s.img, s.fds[k]);
      }
      forall j | 0 <= j < |s.img.dir| && j != i && s.img.dir[j].InUse() ensures e.index == FAT_EOC || s.img.dir[j].index != e.index {
        assert HeadsApart(s.img, i, j);
      }
      FdUpdate(s, fd, f);
      CountUpdate(s.fds, fd, f);
    }
  }

  lemma CloseKeepsInv(s: FsState, fd: int)
    requires Inv(s)
    ensures Inv(CloseOp(s, fd).0)
  {
    if IsOpen(s.fds, fd) {
      FdUpdate(s, fd, CLOSED);
      CountUpdate(s.fds, fd, CLOSED);
    }
  }

  // Moving the offset inside the known size
  lemma OffsetKeepsInv(s: FsState, fd: int, offset: nat)
    requires Inv(s) && IsOpen(s.fds, fd) && offset <= s.fds[fd].size
    ensures Inv(s.(fds := s.fds[fd := s.fds[fd].(offset := offset)]))
  {
    var f := s.fds[fd].(offset := offset);
    assert FdOk(s.img, s.fds[fd]) && OwnsAlone(s.img, s.fds[fd]);
    forall k | 0 <= k < |s.fds| && k != fd ensures Apart(f, s.fds[k]) {
      assert Apart(s.fds[fd], s.fds[k]);
    }
    FdUpdate(s, fd, f);
    CountUpdate(s.fds, fd, f);
  }

  lemma ReadKeepsInv(s: FsState, fd: int, count: nat)
    requires Inv(s)
    ensures Inv(ReadOp(s, fd, count).0)
  {
    hide ImageOk, OwnsAlone, Apart, CountInUse, Chain, Slice;
    if IsOpen(s.fds, fd) {
      assert FdOk(s.img, s.fds[fd]);
      OffsetKeepsInv(s, fd, s.fds[fd].offset + ReadCount(s.fds[fd], count));
    }
  }

  lemma RemountKeepsInv(s: FsState)
    requires Inv(s)
    ensures Inv(RemountOp(s).0)
  {
    CountExtremes(FreshFds());
  }

  /* ---------- fs_write ---------- */

  // f is a descriptor whose chain c is about to get the blocks add
  ghost predicate Growing(img: Image, f: Fd, c: seq<nat>, add: seq<nat>) {
    && ImageOk(img) && f.inUse && FdOk(img, f) && OwnsAlone(img, f)
    && c == Chain(img.fat, f.first) && Growth(img.fat, |img.data|, c, add)
    && Head(c) == f.first
  }

  lemma WriteGrows(s: FsState, fd: int, count: nat)
    requires Inv(s) && IsOpen(s.fds, fd)
    ensures Growing(s.img, s.fds[fd], Chain(s.img.fat, s.fds[fd].first), Appended(s.img, s.fds[fd], count))
  {
    var f := s.fds[fd];
    assert FdOk(s.img, f) && OwnsAlone(s.img, f);
    HeadTerminates(s.img.fat, |s.img.data|, f.first);
    LowestFresh(s.img.fat, |s.img.data|, Minus(BlocksFor(EndOffset(f.offset, count)), |Chain(s.img.fat, f.first)|));
  }

  // Heads stay heads, and no old head is the head that the growth may create.
  lemma GrownHead(img: Image, f: Fd, c: seq<nat>, add: seq<nat>, b: nat)
    requires Growing(img, f, c, add) && IsHead(img.fat, |img.data|, b)
    ensures IsHead(Grown(img, f.slot, c, add).fat, |img.data|, b)
    ensures b != FAT_EOC && b == Head(c + add) ==> b == f.first
  {
    GrowthKeepsForest(img.fat, |img.data|, c, add);
    if b != FAT_EOC && b == f.first {
      assert Head(c + add) == Head(c);
    } else {
      GrowthKeepsHead(img.fat, |img.data|, c, add, b);
    }
  }

  lemma GrownDir(img: Image, f: Fd, c: seq<nat>, add: seq<nat>, j: nat)
    requires Growing(img, f, c, add) && j < |img.dir| && img.dir[j].InUse()
    ensures var img' := Grown(img, f.slot, c, add);
            && IsHead(img'.fat, |img.data|, img'.dir[j].index)
            && (j != f.slot ==> img'.dir[j] == img.dir[j])
            && img'.dir[j].Name() == img.dir[j].Name()
            && img'.dir[j].size == img.dir[j].size
            && img'.dir[j].WellSized()
            && (j != f.slot && img.dir[j].index != FAT_EOC ==> img.dir[j].index != Head(c + add))
  {
    assert EntryOk(img.dir[j]);
    GrownHead(img, f, c, add, img.dir[j].index);
    GrowthKeepsForest(img.fat, |img.data|, c, add);
  }

  lemma GrownOk(img: Image, f: Fd, c: seq<nat>, add: seq<nat>)
    requires Growing(img, f, c, add)
    ensures ImageOk(Grown(img, f.slot, c, add))
    ensures Grown(img, f.slot, c, add).dir[f.slot].InUse()
    ensures IsHead(Grown(img, f.slot, c, add).fat, |img.data|, Head(c + add))
  {
    var img' := Grown(img, f.slot, c, add);
    GrowthKeepsForest(img.fat, |img.data|, c, add);
    GrownDir(img, f, c, add, f.slot);
    UpdateKeepsDir(img.dir, f.slot, img'.dir[f.slot].size, img'.dir[f.slot].index);
    assert img'.dir == img.dir[f.slot := img'.dir[f.slot]];
    forall j | 0 <= j < |img'.dir| && img'.dir[j].InUse()
      ensures IsHead(img'.fat, |img.data|, img'.dir[j].index) && img'.dir[j].size <= MAX_SIZE
    {
      GrownDir(img, f, c, add, j);
    }
    forall i, j | 0 <= i < |img'.dir| && 0 <= j < |img'.dir| && i != j ensures HeadsApart(img', i, j) {
      assert HeadsApart(img, i, j);
      if img'.dir[i].InUse() && img'.dir[j].InUse() {
        GrownDir(img, f, c, add, i);
        GrownDir(img, f, c, add, j);
      }
    }
  }

  lemma GrownFd(img: Image, f: Fd, c: seq<nat>, add: seq<nat>, g: Fd)
    requires Growing(img, f, c, add) && FdOk(img, g) && OwnsAlone(img, g) && Apart(f, g)
    ensures FdOk(Grown(img, f.slot, c, add), g) && OwnsAlone(Grown(img, f.slot, c, add), g)
    ensures g.inUse && g.first != FAT_EOC && g.slot != f.slot ==> g.first != Head(c + add)
  {
    var img' := Grown(img, f.slot, c, add);
    if g.inUse {
      GrownHead(img, f, c, add, g.first);
      GrownDir(img, f, c, add, g.slot);
      forall j | 0 <= j < |img'.dir| && j != g.slot && img'.dir[j].InUse()
        ensures g.first == FAT_EOC || img'.dir[j].index != g.first
      {
        if img.dir[j].InUse() { GrownDir(img, f, c, add, j); }
      }
    }
  }

  lemma ChainLength(img: Image, f: Fd, c: seq<nat>, add: seq<nat>)
    requires Growing(img, f, c, add)
    ensures |c + add| <= |img.data| <= MAX_DATA_BLOCKS
  {
    GrowthElements(img.fat, |img.data|, c, add);
    assert forall i :: 0 <= i < |c + add| ==> (c + add)[i] in c + add;
    DistinctBound(c + add, |img.data|);
  }

  lemma AdvancedOk(img: Image, f: Fd, c: seq<nat>, add: seq<nat>, count: nat)
    requires Growing(img, f, c, add) && (c + add == [] ==> FittingBytes(f.offset, count, 0) == 0)
    ensures var f' := Advanced(f, c + add, FittingBytes(f.offset, count, |c + add|));
            FdOk(Grown(img, f.slot, c, add), f') && OwnsAlone(Grown(img, f.slot, c, add), f')
  {
    var img' := Grown(img, f.slot, c, add);
    var f' := Advanced(f, c + add, FittingBytes(f.offset, count, |c + add|));
    ChainLength(img, f, c, add);
    GrownOk(img, f, c, add);
    GrownDir(img, f, c, add, f.slot);
    forall j | 0 <= j < |img'.dir| && j != f.slot && img'.dir[j].InUse()
      ensures f'.first == FAT_EOC || img'.dir[j].index != f'.first
    {
      GrownDir(img, f, c, add, j);
    }
  }

  // Storing bytes and a size touches neither the table nor any name or head.
  lemma StoredKeeps(img: Image, fds: seq<Fd>, f: Fd, f': Fd, c: seq<nat>, bytes: seq<Byte>)
    requires ImageOk(img) && FdsOk(img, fds) && f.slot < |img.dir| && img.dir[f.slot].InUse()
    requires f'.size <= MAX_SIZE
    ensures ImageOk(Stored(img, f, f', c, bytes)) && FdsOk(Stored(img, f, f', c, bytes), fds)
  {
    var img' := Stored(img, f, f', c, bytes);
    assert EntryOk(img.dir[f.slot]);
    UpdateKeepsDir(img.dir, f.slot, f'.size, img.dir[f.slot].index);
    assert img'.dir == img.dir[f.slot := img.dir[f.slot].(size := f'.size, index := img.dir[f.slot].index)];
    forall i, j | 0 <= i < |img'.dir| && 0 <= j < |img'.dir| && i != j ensures HeadsApart(img', i, j) {
      assert HeadsApart(img, i, j);
    }
    forall i | 0 <= i < |fds| ensures FdOk(img', fds[i]) && OwnsAlone(img', fds[i]) {
      assert FdOk(img, fds[i]) && OwnsAlone(img, fds[i]);
    }
  }

  lemma WriteKeepsInv(s: FsState, fd: int, bytes: seq<Byte>)
    requires Inv(s)
    ensures Shaped(s) && Inv(WriteOp(s, fd, bytes).0)
  {
    hide Stored, Grown, Appended, FittingBytes, ImageOk;
    InvShaped(s);
    if IsOpen(s.fds, fd) {
      var f := s.fds[fd];
      var c := Chain(s.img.fat, f.first);
      var add := Appended(s.img, f, |bytes|);
      WriteGrows(s, fd, |bytes|);
      if add != [] || EndOffset(f.offset, |bytes|) <= BLOCK_SIZE * |c| || f.offset != BLOCK_SIZE * |c| {
        WriteKeepsFds(s, fd, bytes);
        var f' := Advanced(f, c + add, FittingBytes(f.offset, |bytes|, |c + add|));
        GrownOk(s.img, f, c, add);
        CountUpdate(s.fds, fd, f');
        var img1 := Grown(s.img, f.slot, c, add);
        assert FdOk(img1, s.fds[fd := f'][fd]);
        StoredKeeps(img1, s.fds[fd := f'], f, f', c + add, bytes[..FittingBytes(f.offset, |bytes|, |c + add|)]);
      }
    }
  }

  lemma InvSizes(s: FsState)
    requires Inv(s)
    ensures |s.img.data| <= |s.img.fat| && |s.img.dir| == FILE_MAX_COUNT && |s.fds| == OPEN_MAX_COUNT
    ensures s.occupied == CountInUse(s.fds)
  {
  }

  lemma WriteKeepsFds(s: FsState, fd: int, bytes: seq<Byte>)
    requires Inv(s) && IsOpen(s.fds, fd)
    requires var f := s.fds[fd]; var c := Chain(s.img.fat, f.first); var add := Appended(s.img, f, |bytes|);
             add != [] || EndOffset(f.offset, |bytes|) <= BLOCK_SIZE * |c| || f.offset != BLOCK_SIZE * |c|
    ensures var f := s.fds[fd]; var c := Chain(s.img.fat, f.first); var add := Appended(s.img, f, |bytes|);
            var f' := Advanced(f, c + add, FittingBytes(f.offset, |bytes|, |c + add|));
            FdsOk(Grown(s.img, f.slot, c, add), s.fds[fd := f'])
  {
    hide ImageOk, Grown, Appended, Chain, UntilNul, Growth, OwnsAlone;
    InvSizes(s);
    var f := s.fds[fd];
    var c := Chain(s.img.fat, f.first);
    var add := Appended(s.img, f, |bytes|);
    var f' := Advanced(f, c + add, FittingBytes(f.offset, |bytes|, |c + add|));
    var img1 := Grown(s.img, f.slot, c, add);
    WriteGrows(s, fd, |bytes|);
    AdvancedOk(s.img, f, c, add, |bytes|);
    forall i | 0 <= i < |s.fds| && i != fd
      ensures FdOk(img1, s.fds[i]) && OwnsAlone(img1, s.fds[i]) && Apart(f', s.fds[i])
    {
      assert FdOk(s.img, s.fds[i]) && OwnsAlone(s.img, s.fds[i]) && Apart(f, s.fds[i]);
      GrownFd(s.img, f, c, add, s.fds[i]);
    }
    FdReplaced(img1, s.fds, fd, f');
  }

  /* ---------- erase_all_files ---------- */

  function ErasedImage(img: Image, k: nat): Image
    requires k <= |img.dir|
  {
    Image(ErasedFat(img.fat, img.dir, k), ErasedDir(img.dir, k), img.data)
  }

  // Erasing one more slot is deleting the file in it.
  lemma ErasedStep(img: Image, k: nat)
    requires k < |img.dir|
    ensures ErasedImage(img, k + 1)
         == if img.dir[k].InUse() then Removed(ErasedImage(img, k), k) else ErasedImage(img, k)
  {
  }

  lemma {:induction false} ErasedOk(img: Image, k: nat)
    requires ImageOk(img) && k <= |img.dir|
    ensures ImageOk(ErasedImage(img, k))
  {
    hide ImageOk, Removed;
    if k == 0 {
      assert ErasedDir(img.dir, 0) == img.dir;
    } else {
      ErasedOk(img, k - 1);
      ErasedStep(img, k - 1);
      if img.dir[k - 1].InUse() {
        RemovedOk(ErasedImage(img, k - 1), k - 1);
      }
    }
  }

  lemma EraseAllKeepsInv(s: FsState)
    requires Inv(s)
    ensures Inv(EraseAllOp(s).0)
  {
    if s.occupied == 0 {
      var img' := ErasedImage(s.img, |s.img.dir|);
      ErasedOk(s.img, |s.img.dir|);
      CountExtremes(s.fds);
      forall i | 0 <= i < |s.fds| ensures FdOk(img', s.fds[i]) && OwnsAlone(img', s.fds[i]) {
        assert FdOk(s.img, s.fds[i]);
      }
    }
  }

  /* ---------- runs ---------- */

  // Whatever is called, with whatever arguments, the invariant holds afterwards.
  lemma StepKeepsInv(s: FsState, op: Op)
    requires Inv(s)
    ensures Shaped(s) && Inv(Step(s, op).0)
  {
    InvShaped(s);
    match op
    case Create(name) => CreateKeepsInv(s, name);
    case Delete(name) => DeleteKeepsInv(s, name);
    case Open(name) => OpenKeepsInv(s, name);
    case Close(fd) => CloseKeepsInv(s, fd);
    case Stat(fd) =>
    case Seek(fd, offset) =>
      if IsOpen(s.fds, fd) && offset <= s.fds[fd].size { OffsetKeepsInv(s, fd, offset); }
    case Write(fd, bytes) => WriteKeepsInv(s, fd, bytes);
    case Read(fd, count) => ReadKeepsInv(s, fd, count);
    case EraseAll => EraseAllKeepsInv(s);
    case Remount => RemountKeepsInv(s);
  }

  // The state after a run of calls
  ghost function Run(s: FsState, ops: seq<Op>): (r: FsState)
    requires Inv(s)
    ensures Inv(r)
    decreases |ops|
  {
    if ops == [] then s
    else
      StepKeepsInv(s, ops[0]);
      Run(Step(s, ops[0]).0, ops[1..])
  }

  // A good image with no descriptor open
  lemma FreshlyMounted(img: Image)
    requires ImageOk(img)
    ensures Inv(FsState(img, FreshFds(), 0))
  {
    CountExtremes(FreshFds());
  }

  lemma UpdateTwice(fds: seq<Fd>, fd: int, x: Fd, y: Fd)
    requires 0 <= fd < |fds|
    ensures fds[fd := x][fd := y] == fds[fd := y]
  {
  }
}
