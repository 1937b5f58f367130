/**
 The stronger invariant: every allocated block belongs to exactly one file, each chain is as long
 as its file needs, and each descriptor agrees with the directory. One file may be open through
 any number of descriptors.
 */
module Exactness {
  import opened Layout
  import opened Chains
  import opened Forests
  import opened Directory
  import opened Semantics
  import opened Structure

  function ChainOf(img: Image, i: nat): seq<nat>
    requires i < |img.dir|
  {
    Chain(img.fat, img.dir[i].index)
  }

  // Each chain has exactly the blocks that its file's size needs
  ghost predicate Sized(img: Image) {
    forall i :: 0 <= i < |img.dir| && img.dir[i].InUse() ==> |ChainOf(img, i)| == BlocksFor(img.dir[i].size)
  }

  ghost predicate OnSomeChain(img: Image, x: nat) {
    exists i :: 0 <= i < |img.dir| && img.dir[i].InUse() && x in ChainOf(img, i)
  }

  // No block is allocated without being part of a file, except block 0
  ghost predicate NoLeak(img: Image)
    requires |img.data| <= |img.fat|
  {
    forall x {:trigger OnSomeChain(img, x)} :: 0 < x < |img.data| && img.fat[x] != 0 ==> OnSomeChain(img, x)
  }

  ghost predicate ImageExact(img: Image) {
    ImageOk(img) && Sized(img) && NoLeak(img)
  }

  // A descriptor's cached size and first block are those of the directory
  ghost predicate InSync(img: Image, f: Fd) {
    f.inUse ==> f.slot < |img.dir| && f.first == img.dir[f.slot].index && f.size == img.dir[f.slot].size
  }

  ghost predicate AllInSync(img: Image, fds: seq<Fd>) {
    forall i :: 0 <= i < |fds| ==> InSync(img, fds[i])
  }

  ghost predicate Exact(s: FsState) {
    Inv(s) && ImageExact(s.img) && AllInSync(s.img, s.fds)
  }

  // A descriptor that does not take its file for longer than the directory says it is
  ghost predicate Within(img: Image, f: Fd) {
    f.inUse ==> f.slot < |img.dir| && f.size <= img.dir[f.slot].size
  }

  ghost predicate AllWithin(img: Image, fds: seq<Fd>) {
    forall i :: 0 <= i < |fds| ==> Within(img, fds[i])
  }

  // The same without agreement: descriptors may have been left behind while their file grew
  ghost predicate Sound(s: FsState) {
    Inv(s) && ImageExact(s.img) && AllWithin(s.img, s.fds)
  }

  // The size that an open descriptor remembers is not the one in the directory
  predicate LeftBehind(s: FsState, fd: int) {
    IsOpen(s.fds, fd) && s.fds[fd].slot < |s.img.dir| && s.fds[fd].size != s.img.dir[s.fds[fd].slot].size
  }

  lemma ExactInv(s: FsState)
    requires Exact(s)
    ensures Inv(s) && ImageExact(s.img)
  {
  }

  lemma ExactShaped(s: FsState)
    requires Exact(s)
    ensures Shaped(s) && 1 <= |s.img.data| <= |s.img.fat|
  {
    InvShaped(s);
  }

  // What the calls through one descriptor need: it agrees with the directory, whatever the others do
  ghost predicate Current(s: FsState, fd: int) {
    Inv(s) && ImageExact(s.img) && IsOpen(s.fds, fd) && InSync(s.img, s.fds[fd])
  }

  lemma ExactCurrent(s: FsState, fd: int)
    requires Exact(s) && IsOpen(s.fds, fd)
    ensures Current(s, fd)
  {
  }

  lemma CurrentShaped(s: FsState, fd: int)
    requires Current(s, fd)
    ensures Inv(s) && ImageExact(s.img) && IsOpen(s.fds, fd)
    ensures Shaped(s) && 1 <= |s.img.data| <= |s.img.fat|
  {
    InvShaped(s);
  }

  lemma SoundParts(s: FsState)
    requires Sound(s)
    ensures Inv(s) && ImageExact(s.img) && ImageOk(s.img) && DirOk(s.img.dir)
    ensures Shaped(s) && 1 <= |s.img.data| <= |s.img.fat|
  {
    InvShaped(s);
  }

  // A file has no first block exactly when it is empty.
  lemma EmptyIffNoBlock(img: Image, i: nat)
    requires ImageExact(img) && i < |img.dir| && img.dir[i].InUse()
    ensures img.dir[i].index == FAT_EOC <==> img.dir[i].size == 0
  {
  }

  // Different files have no block in common.
  lemma FilesDisjoint(img: Image, i: nat, j: nat)
    requires ImageOk(img) && i < |img.dir| && j < |img.dir| && i != j
    requires img.dir[i].InUse() && img.dir[j].InUse()
    ensures Disjoint(ChainOf(img, i), ChainOf(img, j))
  {
    HeadTerminates(img.fat, |img.data|, img.dir[i].index);
    HeadTerminates(img.fat, |img.data|, img.dir[j].index);
    if img.dir[i].index != FAT_EOC && img.dir[j].index != FAT_EOC {
      assert HeadsApart(img, i, j);
      HeadsDisjoint(img.fat, |img.data|, img.dir[i].index, img.dir[j].index);
    }
  }

  lemma DescriptorMatches(s: FsState, fd: int)
    requires Current(s, fd)
    ensures var f := s.fds[fd];
            && f.slot < |s.img.dir| && s.img.dir[f.slot].InUse()
            && f.filename == Some(s.img.dir[f.slot].Name())
            && f.first == s.img.dir[f.slot].index && f.size == s.img.dir[f.slot].size
            && f.offset <= f.size
            && |Chain(s.img.fat, f.first)| == BlocksFor(f.size)
  {
  }

  /* ---------- creating, deleting, opening ---------- */

  // A new empty file leaves the exact image exact.
  lemma CreatedExact(img: Image, name: CString, i: nat)
    requires ImageExact(img) && ValidName(name) && i < |img.dir| && !img.dir[i].InUse()
    requires ImageOk(img.(dir := img.dir[i := NewEntry(name)]))
    ensures ImageExact(img.(dir := img.dir[i := NewEntry(name)]))
  {
    hide UntilNul, ImageOk;
    var img' := img.(dir := img.dir[i := NewEntry(name)]);
    NoChain(img);
    assert ChainOf(img', i) == [];
    forall x | 0 < x < |img'.data| && img'.fat[x] != 0 ensures OnSomeChain(img', x) {
      assert OnSomeChain(img, x);
      var j :| 0 <= j < |img.dir| && img.dir[j].InUse() && x in ChainOf(img, j);
      assert x in ChainOf(img', j);
    }
  }

  // Chains of the files that stay when slot i is removed
  lemma RemovedChain(img: Image, i: nat, j: nat)
    requires ImageOk(img) && i < |img.dir| && j < |img.dir| && i != j
    requires img.dir[i].InUse() && img.dir[j].InUse()
    ensures ChainOf(Removed(img, i), j) == ChainOf(img, j)
  {
    assert HeadsApart(img, j, i);
    RemovedKeepsHead(img, i, img.dir[j].index);
  }

  // Freeing one file's chain loses no block and finds none.
  lemma RemovedNoLeak(img: Image, i: nat)
    requires ImageOk(img) && i < |img.dir| && img.dir[i].InUse()
    ensures |img.data| <= |img.fat| && (NoLeak(Removed(img, i)) <==> NoLeak(img))
  {
    hide Chain, Zeroed, UntilNul;
    var img' := Removed(img, i);
    RemovedSizes(img, i);
    if NoLeak(img) {
      forall x | 0 < x < |img'.data| && img'.fat[x] != 0 ensures OnSomeChain(img', x) {
        RemovedEntry(img, i, x);
        assert OnSomeChain(img, x);
        var j :| 0 <= j < |img.dir| && img.dir[j].InUse() && x in ChainOf(img, j);
        RemovedChain(img, i, j);
        assert x in ChainOf(img', j);
      }
    }
    if NoLeak(img') {
      forall x | 0 < x < |img.data| && img.fat[x] != 0 ensures OnSomeChain(img, x) {
        RemovedEntry(img, i, x);
        if x !in ChainOf(img, i) {
          assert OnSomeChain(img', x);
          var j :| 0 <= j < |img'.dir| && img'.dir[j].InUse() && x in ChainOf(img', j);
          RemovedChain(img, i, j);
          assert x in ChainOf(img, j);
        }
      }
    }
  }

  lemma RemovedSizes(img: Image, i: nat)
    requires ImageOk(img) && i < |img.dir|
    ensures |img.data| <= |img.fat| == |Removed(img, i).fat| && !BLANK_ENTRY.InUse()
  {
    BlankIsOk();
  }

  lemma RemovedEntry(img: Image, i: nat, x: nat)
    requires i < |img.dir| && x < |img.fat|
    ensures Removed(img, i).fat[x] == if x in ChainOf(img, i) then 0 else img.fat[x]
  {
  }

  lemma RemovedExact(img: Image, i: nat)
    requires ImageExact(img) && i < |img.dir| && img.dir[i].InUse()
    ensures ImageExact(Removed(img, i))
  {
    var img' := Removed(img, i);
    RemovedOk(img, i);
    RemovedNoLeak(img, i);
    BlankIsOk();
    forall j | 0 <= j < |img'.dir| && img'.dir[j].InUse()
      ensures |ChainOf(img', j)| == BlocksFor(img'.dir[j].size)
    {
      RemovedChain(img, i, j);
    }
  }

  // erase_all_files loses no block either.
  lemma {:induction false} ErasedNoLeak(img: Image, k: nat)
    requires ImageOk(img) && k <= |img.dir|
    ensures |img.data| <= |img.fat| && (NoLeak(ErasedImage(img, k)) <==> NoLeak(img))
  {
    hide NoLeak, ImageOk, Removed;
    NoChain(img);
    if k == 0 {
      assert ErasedDir(img.dir, 0) == img.dir;
      assert ErasedImage(img, 0) == img;
    } else {
      ErasedNoLeak(img, k - 1);
      ErasedOk(img, k - 1);
      ErasedStep(img, k - 1);
      if img.dir[k - 1].InUse() {
        RemovedNoLeak(ErasedImage(img, k - 1), k - 1);
      }
    }
  }

  lemma {:induction false} ErasedExact(img: Image, k: nat)
    requires ImageExact(img) && k <= |img.dir|
    ensures ImageExact(ErasedImage(img, k))
  {
    if k == 0 {
      assert ErasedDir(img.dir, 0) == img.dir;
      assert ErasedImage(img, 0) == img;
    } else {
      ErasedExact(img, k - 1);
      ErasedStep(img, k - 1);
      if img.dir[k - 1].InUse() {
        RemovedExact(ErasedImage(img, k - 1), k - 1);
      }
    }
  }

  /* ---------- calls that change no record of an open file ---------- */

  // Descriptor k agrees with the directory, or is the old one on a record with the old size and first block.
  ghost predicate Undisturbed(s: FsState, s': FsState, k: nat)
    requires k < |s.fds| && k < |s'.fds|
  {
    var f, g := s.fds[k], s'.fds[k];
    InSync(s'.img, g)
    || (f.inUse && g.slot == f.slot && g.size == f.size && g.first == f.first
        && f.slot < |s.img.dir| && f.slot < |s'.img.dir|
        && s'.img.dir[f.slot].size == s.img.dir[f.slot].size && s'.img.dir[f.slot].index == s.img.dir[f.slot].index)
  }

  ghost predicate Quiet(s: FsState, s': FsState) {
    && ImageExact(s'.img) && |s'.fds| == |s.fds|
    && forall k :: 0 <= k < |s.fds| ==> Undisturbed(s, s', k)
  }

  lemma QuietKeepsExact(s: FsState, s': FsState)
    requires Exact(s) && Inv(s') && Quiet(s, s')
    ensures Exact(s')
  {
    hide Inv, ImageExact;
    forall k | 0 <= k < |s'.fds| ensures InSync(s'.img, s'.fds[k]) {
      assert InSync(s.img, s.fds[k]) && Undisturbed(s, s', k);
    }
  }

  lemma QuietKeepsSound(s: FsState, s': FsState)
    requires Sound(s) && Inv(s') && Quiet(s, s')
    ensures Sound(s')
  {
    hide Inv, ImageExact;
    forall k | 0 <= k < |s'.fds| ensures Within(s'.img, s'.fds[k]) {
      assert Within(s.img, s.fds[k]) && Undisturbed(s, s', k);
    }
  }

  lemma CreateIsQuiet(s: FsState, name: CString)
    requires Inv(s) && ImageExact(s.img)
    ensures Inv(CreateOp(s, name).0) && Quiet(s, CreateOp(s, name).0)
  {
    hide ImageExact, UntilNul, FindName, FirstBlank;
    CreateKeepsInv(s, name);
    var i := FirstBlank(s.img.dir);
    if ValidName(name) && FindName(s.img.dir, name) == |s.img.dir| && i < |s.img.dir| {
      CreatedExact(s.img, name, i);
    }
    forall k | 0 <= k < |s.fds| ensures Undisturbed(s, CreateOp(s, name).0, k) {
      assert FdOk(s.img, s.fds[k]);
    }
  }

  lemma DeleteIsQuiet(s: FsState, name: CString)
    requires Inv(s) && ImageExact(s.img)
    ensures Inv(DeleteOp(s, name).0) && Quiet(s, DeleteOp(s, name).0)
  {
    hide ImageExact, UntilNul, FindName, Chain, Zeroed;
    DeleteKeepsInv(s, name);
    var i := FindName(s.img.dir, name);
    if ValidName(name) && i < |s.img.dir| && !NameOpen(s.fds, name) {
      RemovedExact(s.img, i);
      assert DeleteOp(s, name).0.img == Removed(s.img, i);
    }
    forall k | 0 <= k < |s.fds| ensures Undisturbed(s, DeleteOp(s, name).0, k) {
      assert FdOk(s.img, s.fds[k]);
      if ValidName(name) && i < |s.img.dir| && !NameOpen(s.fds, name) && s.fds[k].inUse {
        NotOpenSlot(s, i, k);
      }
    }
  }

  lemma OpenIsQuiet(s: FsState, name: CString)
    requires Inv(s) && ImageExact(s.img)
    ensures Inv(OpenOp(s, name).0) && Quiet(s, OpenOp(s, name).0)
  {
    hide ImageExact, UntilNul, FindName, FirstClosed;
    OpenKeepsInv(s, name);
    var i := FindName(s.img.dir, name);
    if i < |s.img.dir| && ValidName(name) { EmptyIffNoBlock(s.img, i); }
    forall k | 0 <= k < |s.fds| ensures Undisturbed(s, OpenOp(s, name).0, k) {
      assert FdOk(s.img, s.fds[k]);
    }
  }

  // Closing a descriptor or moving its offset
  lemma FdStepIsQuiet(s: FsState, fd: int, f: Fd, occupied: nat)
    requires Inv(s) && ImageExact(s.img) && IsOpen(s.fds, fd)
    requires f == CLOSED || f == s.fds[fd].(offset := f.offset)
    ensures Quiet(s, s.(fds := s.fds[fd := f], occupied := occupied))
  {
    hide ImageExact;
    var s' := s.(fds := s.fds[fd := f], occupied := occupied);
    forall k | 0 <= k < |s.fds| ensures Undisturbed(s, s', k) {
      assert FdOk(s.img, s.fds[k]);
    }
  }

  lemma NothingIsQuiet(s: FsState)
    requires Inv(s) && ImageExact(s.img)
    ensures Quiet(s, s)
  {
    hide ImageExact;
    forall k | 0 <= k < |s.fds| ensures Undisturbed(s, s, k) {
      assert FdOk(s.img, s.fds[k]);
    }
  }

  lemma CloseIsQuiet(s: FsState, fd: int)
    requires Inv(s) && ImageExact(s.img)
    ensures Inv(CloseOp(s, fd).0) && Quiet(s, CloseOp(s, fd).0)
  {
    hide Inv, ImageExact, Quiet;
    CloseKeepsInv(s, fd);
    if IsOpen(s.fds, fd) { FdStepIsQuiet(s, fd, CLOSED, Minus(s.occupied, 1)); } else { NothingIsQuiet(s); }
  }

  lemma OffsetIsQuiet(s: FsState, fd: int, offset: nat)
    requires Inv(s) && ImageExact(s.img) && IsOpen(s.fds, fd) && offset <= s.fds[fd].size
    ensures var s' := s.(fds := s.fds[fd := s.fds[fd].(offset := offset)]); Inv(s') && Quiet(s, s')
  {
    hide Inv, ImageExact, Quiet;
    OffsetKeepsInv(s, fd, offset);
    FdStepIsQuiet(s, fd, s.fds[fd].(offset := offset), s.occupied);
  }

  lemma SeekIsQuiet(s: FsState, fd: int, offset: nat)
    requires Inv(s) && ImageExact(s.img)
    ensures Inv(SeekOp(s, fd, offset).0) && Quiet(s, SeekOp(s, fd, offset).0)
  {
    hide Inv, ImageExact, Quiet;
    if IsOpen(s.fds, fd) && offset <= s.fds[fd].size { OffsetIsQuiet(s, fd, offset); } else { NothingIsQuiet(s); }
  }

  lemma ReadIsQuiet(s: FsState, fd: int, count: nat)
    requires Inv(s) && ImageExact(s.img)
    ensures Inv(ReadOp(s, fd, count).0) && Quiet(s, ReadOp(s, fd, count).0)
  {
    hide Inv, ImageExact, Quiet;
    ReadKeepsInv(s, fd, count);
    if IsOpen(s.fds, fd) {
      var offset := s.fds[fd].offset + ReadCount(s.fds[fd], count);
      FdStepIsQuiet(s, fd, s.fds[fd].(offset := offset), s.occupied);
    } else {
      NothingIsQuiet(s);
    }
  }

  lemma NoneOpenIsQuiet(s: FsState, s': FsState)
    requires ImageExact(s'.img) && |s'.fds| == |s.fds| && forall k :: 0 <= k < |s'.fds| ==> !s'.fds[k].inUse
    ensures Quiet(s, s')
  {
  }

  lemma EraseAllIsQuiet(s: FsState)
    requires Inv(s) && ImageExact(s.img)
    ensures Inv(EraseAllOp(s).0) && Quiet(s, EraseAllOp(s).0)
  {
    hide ImageExact, Quiet, ImageOk, FdsOk, ErasedFat, ErasedDir;
    EraseAllKeepsInv(s);
    if s.occupied == 0 {
      ErasedExact(s.img, |s.img.dir|);
      CountExtremes(s.fds);
      NoneOpenIsQuiet(s, EraseAllOp(s).0);
    } else {
      NothingIsQuiet(s);
    }
  }

  lemma RemountIsQuiet(s: FsState)
    requires Inv(s) && ImageExact(s.img)
    ensures Inv(RemountOp(s).0) && Quiet(s, RemountOp(s).0)
  {
    hide ImageExact, Quiet, Inv;
    InvSizes(s);
    RemountKeepsInv(s);
    NoneOpenIsQuiet(s, RemountOp(s).0);
  }

  // No call but fs_write changes a record that is open.
  lemma StepIsQuiet(s: FsState, op: Op)
    requires Inv(s) && ImageExact(s.img) && !op.Write?
    ensures Shaped(s) && Inv(Step(s, op).0) && Quiet(s, Step(s, op).0)
  {
    hide Inv, ImageExact, Quiet;
    InvShaped(s);
    match op
    case Create(name) => CreateIsQuiet(s, name);
    case Delete(name) => DeleteIsQuiet(s, name);
    case Open(name) => OpenIsQuiet(s, name);
    case Close(fd) => CloseIsQuiet(s, fd);
    case Stat(fd) => NothingIsQuiet(s);
    case Seek(fd, offset) => SeekIsQuiet(s, fd, offset);
    case Read(fd, count) => ReadIsQuiet(s, fd, count);
    case EraseAll => EraseAllIsQuiet(s);
    case Remount => RemountIsQuiet(s);
  }

  lemma CreateKeepsExact(s: FsState, name: CString)
    requires Exact(s)
    ensures Exact(CreateOp(s, name).0)
  {
    hide Exact, Quiet;
    ExactInv(s);
    CreateIsQuiet(s, name);
    QuietKeepsExact(s, CreateOp(s, name).0);
  }

  lemma OpenKeepsExact(s: FsState, name: CString)
    requires Exact(s)
    ensures Exact(OpenOp(s, name).0)
  {
    hide Exact, Quiet;
    ExactInv(s);
    OpenIsQuiet(s, name);
    QuietKeepsExact(s, OpenOp(s, name).0);
  }

  lemma OffsetKeepsCurrent(s: FsState, fd: int, offset: nat)
    requires Current(s, fd) && offset <= s.fds[fd].size
    ensures Current(s.(fds := s.fds[fd := s.fds[fd].(offset := offset)]), fd)
  {
    OffsetKeepsInv(s, fd, offset);
  }

  lemma ReadKeepsCurrent(s: FsState, fd: int, count: nat)
    requires Current(s, fd)
    ensures Current(ReadOp(s, fd, count).0, fd)
  {
    DescriptorMatches(s, fd);
    OffsetKeepsCurrent(s, fd, s.fds[fd].offset + ReadCount(s.fds[fd], count));
  }

  // With every descriptor closed there is nothing to disagree with the directory.
  lemma RemountRestoresExact(s: FsState)
    requires Inv(s) && ImageExact(s.img)
    ensures Exact(RemountOp(s).0)
  {
    RemountKeepsInv(s);
  }

  /* ---------- descriptors that were left behind ---------- */

  // With no block lost, the size tells: a descriptor that remembers it right agrees with the directory in all.
  lemma SizeTells(s: FsState, fd: int)
    requires Inv(s) && ImageExact(s.img) && IsOpen(s.fds, fd)
    ensures Current(s, fd) <==> !LeftBehind(s, fd)
  {
    hide UntilNul, Chain, FdsOk;
    var f, img := s.fds[fd], s.img;
    OpenFdOk(s, fd);
    if !LeftBehind(s, fd) {
      EmptyIffNoBlock(img, f.slot);
      if f.first != FAT_EOC {
        assert OnSomeChain(img, f.first);
        var j :| 0 <= j < |img.dir| && img.dir[j].InUse() && f.first in ChainOf(img, j);
        HeadTerminates(img.fat, |img.data|, img.dir[j].index);
        if img.dir[j].index != f.first { RootOnlyInOwn(img.fat, |img.data|, f.first, img.dir[j].index); }
      }
    }
  }

  lemma OpenFdOk(s: FsState, fd: int)
    requires Inv(s) && IsOpen(s.fds, fd)
    ensures FdOk(s.img, s.fds[fd]) && OwnsAlone(s.img, s.fds[fd]) && s.fds[fd].slot < |s.img.dir|
  {
  }

  // Nobody left behind is what separates the two invariants.
  lemma ExactIsSound(s: FsState)
    ensures Exact(s) <==> Sound(s) && forall fd :: !LeftBehind(s, fd)
  {
    hide ImageExact;
    if Sound(s) && forall fd :: !LeftBehind(s, fd) {
      forall i | 0 <= i < |s.fds| ensures InSync(s.img, s.fds[i]) {
        if s.fds[i].inUse { SizeTells(s, i); }
      }
    }
  }
}
