/** The file system refines the abstract file map: same answers, corresponding states, in every run. */
module Refinement {
  import opened Layout
  import opened Chains
  import opened Forests
  import opened Allocation
  import opened Contents
  import opened Directory
  import opened Semantics
  import opened Structure
  import opened Exactness
  import opened Writing
  import opened FileMap

  /* ---------- the abstraction function ---------- */

  function Names(dir: seq<DirEntry>): set<CString> {
    set i | 0 <= i < |dir| && dir[i].InUse() :: dir[i].Name()
  }

  // The name-to-contents map that the disk alone determines
  function Files(img: Image): map<CString, seq<Byte>> {
    map name | name in Names(img.dir) :: Content(img, FindName(img.dir, name))
  }

  function HandleOf(f: Fd): Option<Handle> {
    if f.inUse then Some(Handle(match f.filename case Some(n) => n case None => [], f.offset)) else None
  }

  function Handles(fds: seq<Fd>): (r: seq<Option<Handle>>)
    ensures |r| == |fds|
  {
    seq(|fds|, i requires 0 <= i < |fds| => HandleOf(fds[i]))
  }

  predicate Counted(img: Image) {
    1 <= |img.data| <= |img.fat|
  }

  function Abs(s: FsState): AbsState
    requires Counted(s.img)
  {
    AbsState(Files(s.img), Handles(s.fds), |FreeList(s.img.fat, |s.img.data|)|, |s.img.data| - 1)
  }

  /* ---------- the map of files ---------- */

  lemma FileAt(img: Image, i: nat)
    requires DirOk(img.dir) && i < |img.dir| && img.dir[i].InUse()
    ensures img.dir[i].Name() in Files(img) && Files(img)[img.dir[i].Name()] == Content(img, i)
  {
    hide UntilNul, Content, FindName, EntryOk;
    FindNameAt(img.dir, i);
  }

  lemma FileFound(img: Image, name: CString)
    requires DirOk(img.dir) && name != []
    ensures name in Files(img) <==> FindName(img.dir, name) < |img.dir|
  {
  }

  lemma {:induction false} CountNames(dir: seq<DirEntry>)
    requires NamesDistinct(dir)
    ensures |Names(dir)| <= |dir|
    ensures |Names(dir)| == |dir| <==> forall i :: 0 <= i < |dir| ==> dir[i].InUse()
  {
    hide UntilNul, Names;
    if dir == [] {
      NoNames();
    } else {
      var last := |dir| - 1;
      var d := dir[..last];
      CountNames(d);
      NamesStep(dir);
      assert forall i :: 0 <= i < last ==> d[i] == dir[i];
    }
  }

  lemma NoNames()
    ensures Names([]) == {}
  {
  }

  lemma NamesStep(dir: seq<DirEntry>)
    requires NamesDistinct(dir) && dir != []
    ensures var last := |dir| - 1; var d := dir[..last];
            Names(dir) == (if dir[last].InUse() then Names(d) + {dir[last].Name()} else Names(d))
            && (dir[last].InUse() ==> dir[last].Name() !in Names(d))
  {
  }

  // Slot i aside, two images have the same files
  ghost predicate SameButSlot(img: Image, img': Image, i: nat) {
    && DirOk(img.dir) && DirOk(img'.dir) && i < |img.dir|
    && (forall j :: 0 <= j < |img.dir| && j != i ==> img'.dir[j].Name() == img.dir[j].Name())
    && (forall j :: 0 <= j < |img.dir| && j != i && img.dir[j].InUse() ==> Content(img', j) == Content(img, j))
  }

  lemma OtherName(img: Image, img': Image, i: nat, name: CString)
    requires SameButSlot(img, img', i) && name != [] && name != img.dir[i].Name() && name != img'.dir[i].Name()
    ensures FindName(img'.dir, name) == FindName(img.dir, name)
    ensures name in Files(img') <==> name in Files(img)
    ensures name in Files(img) ==> Files(img')[name] == Files(img)[name]
  {
    var j, k := FindName(img.dir, name), FindName(img'.dir, name);
    if j < |img.dir| { assert img'.dir[j].Name() == name; }
    if k < |img.dir| { assert img.dir[k].Name() == name; }
    FileFound(img, name);
    FileFound(img', name);
  }

  lemma OldNameGone(img: Image, img': Image, i: nat)
    requires SameButSlot(img, img', i) && img.dir[i].InUse() && img'.dir[i].Name() != img.dir[i].Name()
    ensures img.dir[i].Name() !in Files(img')
  {
  }

  lemma SlotInside(img: Image, img': Image, i: nat)
    requires SameButSlot(img, img', i)
    ensures i < |img.dir| == |img'.dir|
  {
  }

  lemma NewNameThere(img: Image, img': Image, i: nat)
    requires SameButSlot(img, img', i) && img'.dir[i].InUse()
    ensures img'.dir[i].Name() in Files(img') && Files(img')[img'.dir[i].Name()] == Content(img', i)
  {
    FileAt(img', i);
  }

  lemma NoEmptyName(img: Image)
    ensures [] !in Files(img)
  {
  }

  // The files of img with those of slot i as in img'
  function Replaced(img: Image, img': Image, i: nat): map<CString, seq<Byte>>
    requires i < |img.dir| == |img'.dir|
  {
    var kept := Files(img) - {img.dir[i].Name()};
    if img'.dir[i].InUse() then kept[img'.dir[i].Name() := Content(img', i)] else kept
  }

  lemma NameReplaced(img: Image, img': Image, i: nat, name: CString)
    requires SameButSlot(img, img', i)
    ensures name in Files(img') <==> name in Replaced(img, img', i)
    ensures name in Files(img') ==> Replaced(img, img', i)[name] == Files(img')[name]
  {
    hide Content, UntilNul, FindName, SameButSlot, Files;
    SlotInside(img, img', i);
    NoEmptyName(img);
    NoEmptyName(img');
    if name == [] {
    } else if name == img'.dir[i].Name() {
      NewNameThere(img, img', i);
    } else if name == img.dir[i].Name() {
      OldNameGone(img, img', i);
    } else {
      OtherName(img, img', i, name);
    }
  }

  // A change of one slot is a change of one file.
  lemma FilesChanged(img: Image, img': Image, i: nat)
    requires SameButSlot(img, img', i)
    ensures img'.dir[i].InUse() ==>
              Files(img') == (Files(img) - {img.dir[i].Name()})[img'.dir[i].Name() := Content(img', i)]
    ensures !img'.dir[i].InUse() ==> Files(img') == Files(img) - {img.dir[i].Name()}
  {
    hide Content, UntilNul, FindName, SameButSlot, Files;
    SlotInside(img, img', i);
    forall name: CString ensures name in Files(img') <==> name in Replaced(img, img', i)
                         ensures name in Files(img') ==> Replaced(img, img', i)[name] == Files(img')[name]
    {
      NameReplaced(img, img', i, name);
    }
    assert Files(img') == Replaced(img, img', i);
  }

  /* ---------- handles ---------- */

  lemma NameOpenIsHeld(s: FsState, name: CString)
    requires Inv(s)
    ensures NameOpen(s.fds, name) <==> Held(Abs(s), name)
  {
    forall i | 0 <= i < |s.fds| ensures FdOk(s.img, s.fds[i]) {}
    if NameOpen(s.fds, name) {
      var i :| 0 <= i < |s.fds| && s.fds[i].inUse && s.fds[i].filename == Some(name);
      assert Handles(s.fds)[i].value.name == name;
    }
    if Held(Abs(s), name) {
      var i :| 0 <= i < |s.fds| && Handles(s.fds)[i].Some? && Handles(s.fds)[i].value.name == name;
      assert FdOk(s.img, s.fds[i]);
    }
  }

  lemma {:induction false} FirstClosedIsUnused(fds: seq<Fd>)
    ensures FirstUnused(Handles(fds)) == FirstClosed(fds)
  {
    if fds != [] {
      assert Handles(fds)[1..] == Handles(fds[1..]);
      FirstClosedIsUnused(fds[1..]);
    }
  }

  lemma HandlesUpdate(fds: seq<Fd>, fd: nat, f: Fd)
    requires fd < |fds|
    ensures Handles(fds[fd := f]) == Handles(fds)[fd := HandleOf(f)]
  {
  }

  lemma HandleOpen(s: FsState, fd: int)
    requires Counted(s.img)
    ensures IsOpen(s.fds, fd) <==> HasHandle(Abs(s), fd)
  {
  }

  // An open descriptor is a handle on an existing file, at an offset inside it.
  lemma HandleAt(s: FsState, fd: int)
    requires Current(s, fd)
    ensures Counted(s.img) && HasHandle(Abs(s), fd)
    ensures var f := s.fds[fd];
            && f.slot < |s.img.dir|
            && Handles(s.fds)[fd] == Some(Handle(s.img.dir[f.slot].Name(), f.offset))
            && s.img.dir[f.slot].Name() in Files(s.img)
            && Files(s.img)[s.img.dir[f.slot].Name()] == Content(s.img, f.slot)
            && f.offset <= f.size == |Content(s.img, f.slot)|
  {
    hide Content, Files, FreeList, Sized, NoLeak;
    DescriptorMatches(s, fd);
    FileAt(s.img, s.fds[fd].slot);
  }

  // Also through a descriptor that was left behind the offset is inside the file.
  lemma HandleInside(s: FsState, fd: int)
    requires Sound(s)
    ensures Counted(s.img) && Inside(Abs(s), fd)
  {
    hide ImageExact, Content, FreeList, Files, Inv;
    SoundParts(s);
    HandleOpen(s, fd);
    if IsOpen(s.fds, fd) {
      OpenFdOk(s, fd);
      FileAt(s.img, s.fds[fd].slot);
      assert Within(s.img, s.fds[fd]);
    }
  }

  lemma AbsIsValid(s: FsState)
    requires Sound(s)
    ensures Counted(s.img) && AbsValid(Abs(s))
  {
    hide Sound, Abs, Inside;
    SoundParts(s);
    forall fd: int ensures Inside(Abs(s), fd) {
      HandleInside(s, fd);
    }
  }

  /* ---------- each call ---------- */

  lemma CreateRefines(s: FsState, name: CString)
    requires ImageOk(s.img)
    ensures (Abs(CreateOp(s, name).0), CreateOp(s, name).1) == AbsCreate(Abs(s), name)
  {
    hide Content, FindName, NewEntry, FreeList, UntilNul, Names;
    var i := FirstBlank(s.img.dir);
    if ValidName(name) {
      FileFound(s.img, name);
      CountNames(s.img.dir);
      assert Files(s.img).Keys == Names(s.img.dir) by { FilesKeys(s.img); }
      if name !in Files(s.img) && i < |s.img.dir| {
        CreatedFiles(s.img, name, i);
      }
    }
  }

  // The blank records of a directory are the names it has room for.
  lemma {:induction false} BlanksAndNames(dir: seq<DirEntry>, k: nat)
    requires NamesDistinct(dir) && k <= |dir|
    ensures Blanks(dir, k) + |Names(dir[..k])| == k
  {
    hide UntilNul;
    if k > 0 {
      BlanksAndNames(dir, k - 1);
      assert dir[..k][..k - 1] == dir[..k - 1];
      NamesStep(dir[..k]);
    }
  }

  lemma FilesKeys(img: Image)
    ensures Files(img).Keys == Names(img.dir)
  {
  }

  lemma CreatedFiles(img: Image, name: CString, i: nat)
    requires DirOk(img.dir) && ValidName(name) && FindName(img.dir, name) == |img.dir|
    requires i < |img.dir| && !img.dir[i].InUse()
    ensures Files(img.(dir := img.dir[i := NewEntry(name)])) == Files(img)[name := []]
  {
    hide FreeList, UntilNul, FindName, Files, DirOk, ByteAt, RawName;
    var img' := img.(dir := img.dir[i := NewEntry(name)]);
    CreateKeepsDir(img.dir, name, i);
    NewEntryName(name);
    FilesChanged(img, img', i);
    NoEmptyName(img);
    assert Files(img) - {[]} == Files(img);
  }

  lemma RemovedContent(img: Image, i: nat, j: nat)
    requires ImageOk(img) && i < |img.dir| && j < |img.dir| && i != j
    requires img.dir[i].InUse() && img.dir[j].InUse()
    ensures Content(Removed(img, i), j) == Content(img, j)
  {
    RemovedChain(img, i, j);
  }

  lemma RemovedFiles(img: Image, i: nat)
    requires ImageOk(img) && i < |img.dir| && img.dir[i].InUse()
    ensures Files(Removed(img, i)) == Files(img) - {img.dir[i].Name()}
  {
    hide Content, UntilNul, ImageOk;
    var img' := Removed(img, i);
    RemovedDirs(img, i);
    BlankIsOk();
    forall j | 0 <= j < |img.dir| && j != i && img.dir[j].InUse() ensures Content(img', j) == Content(img, j) {
      RemovedContent(img, i, j);
    }
    FilesChanged(img, img', i);
  }

  lemma RemovedDirs(img: Image, i: nat)
    requires ImageOk(img) && i < |img.dir| && img.dir[i].InUse()
    ensures DirOk(img.dir) && DirOk(Removed(img, i).dir)
  {
    BlankKeepsDir(img.dir, i);
  }

  // Removing a file takes it out of the map and returns its blocks.
  lemma RemovedAbs(img: Image, i: nat)
    requires ImageExact(img) && i < |img.dir| && img.dir[i].InUse()
    ensures Files(Removed(img, i)) == Files(img) - {img.dir[i].Name()}
    ensures |FreeList(Removed(img, i).fat, |img.data|)|
         == |FreeList(img.fat, |img.data|)| + BlocksFor(img.dir[i].size)
  {
    RemovedFiles(img, i);
    HeadTerminates(img.fat, |img.data|, img.dir[i].index);
    if img.dir[i].index == FAT_EOC {
      ZeroedNothing(img.fat);
    } else {
      FreeAfterErase(img.fat, |img.data|, img.dir[i].index);
    }
  }

  lemma DeleteRefines(s: FsState, name: CString)
    requires Inv(s) && ImageExact(s.img)
    ensures Counted(s.img) && Counted(DeleteOp(s, name).0.img)
    ensures (Abs(DeleteOp(s, name).0), DeleteOp(s, name).1) == AbsDelete(Abs(s), name)
  {
    hide FreeList, UntilNul, FindName, Exact, ImageExact;
    NameOpenIsHeld(s, name);
    if ValidName(name) {
      FileFound(s.img, name);
      var i := FindName(s.img.dir, name);
      if i < |s.img.dir| && !NameOpen(s.fds, name) {
        FileAt(s.img, i);
        RemovedAbs(s.img, i);
        assert DeleteOp(s, name).0.img == Removed(s.img, i);
      }
    }
  }

  lemma OpenRefines(s: FsState, name: CString)
    requires Counted(s.img) && DirOk(s.img.dir)
    ensures (Abs(OpenOp(s, name).0), OpenOp(s, name).1) == AbsOpen(Abs(s), name)
  {
    hide FreeList, Files, UntilNul, FindName;
    FirstClosedIsUnused(s.fds);
    var i := FindName(s.img.dir, name);
    var fd := FirstClosed(s.fds);
    if ValidName(name) {
      FileFound(s.img, name);
      if i < |s.img.dir| && fd < |s.fds| {
        HandlesUpdate(s.fds, fd, OpenOp(s, name).0.fds[fd]);
      }
    }
  }

  lemma CloseRefines(s: FsState, fd: int)
    requires Counted(s.img)
    ensures (Abs(CloseOp(s, fd).0), CloseOp(s, fd).1) == AbsClose(Abs(s), fd)
  {
    if IsOpen(s.fds, fd) { HandlesUpdate(s.fds, fd, CLOSED); }
  }

  lemma StatRefines(s: FsState, fd: int)
    requires Sound(s) && !LeftBehind(s, fd)
    ensures Counted(s.img) && Inside(Abs(s), fd)
    ensures (Abs(StatOp(s, fd).0), StatOp(s, fd).1) == AbsStat(Abs(s), fd)
  {
    hide FreeList, Files, Sound, LeftBehind, Content;
    SoundParts(s);
    HandleInside(s, fd);
    HandleOpen(s, fd);
    if IsOpen(s.fds, fd) {
      SizeTells(s, fd);
      HandleAt(s, fd);
    }
  }

  lemma SeekRefines(s: FsState, fd: int, offset: SizeT)
    requires Sound(s) && !LeftBehind(s, fd)
    ensures Counted(s.img) && Inside(Abs(s), fd)
    ensures (Abs(SeekOp(s, fd, offset).0), SeekOp(s, fd, offset).1) == AbsSeek(Abs(s), fd, offset)
  {
    hide FreeList, Files, Sound, LeftBehind, Content;
    SoundParts(s);
    HandleInside(s, fd);
    HandleOpen(s, fd);
    if IsOpen(s.fds, fd) {
      SizeTells(s, fd);
      HandleAt(s, fd);
      HandlesUpdate(s.fds, fd, s.fds[fd].(offset := offset));
    }
  }

  lemma SlicePart(data: seq<Block>, c: seq<nat>, size: nat, from: nat, n: nat)
    requires from + n <= size
    ensures Slice(data, c, from, n) == Slice(data, c, 0, size)[from..from + n]
  {
  }

  lemma ReadRefines(s: FsState, fd: int, count: SizeT)
    requires Current(s, fd)
    ensures Counted(s.img) && Inside(Abs(s), fd) && (Abs(ReadOp(s, fd, count).0), ReadOp(s, fd, count).1) == AbsRead(Abs(s), fd, count)
  {
    hide FreeList, Files, Current, Content, ReadOp;
    CurrentShaped(s, fd);
    HandleAt(s, fd);
    ReadMeaning(s, fd, count);
    HandlesUpdate(s.fds, fd, ReadOp(s, fd, count).0.fds[fd]);
  }

  // fs_read delivers the file's bytes from the offset up to the count or the end of the file.
  lemma ReadMeaning(s: FsState, fd: int, count: SizeT)
    requires Current(s, fd)
    ensures var f := s.fds[fd];
            var n := if f.offset + count >= SIZE_T_LIMIT then 0 else Min(count, f.size - f.offset);
            && f.slot < |s.img.dir| && 0 <= n && f.offset + n <= |Content(s.img, f.slot)|
            && ReadOp(s, fd, count)
            == (s.(fds := s.fds[fd := f.(offset := f.offset + n)]),
                Reply(n, Content(s.img, f.slot)[f.offset..f.offset + n]))
  {
    var f := s.fds[fd];
    DescriptorMatches(s, fd);
    EmptyIffNoBlock(s.img, f.slot);
    SlicePart(s.img.data, Chain(s.img.fat, f.first), f.size, f.offset, ReadCount(f, count));
  }

  lemma WrittenFiles(s: FsState, fd: int, bytes: Buffer)
    requires Current(s, fd) && Shaped(s) && s.fds[fd].offset + |bytes| < SIZE_T_LIMIT
    requires s.fds[fd].slot < |s.img.dir| && s.fds[fd].offset <= s.img.dir[s.fds[fd].slot].size
    ensures Files(WriteOp(s, fd, bytes).0.img)
         == Files(s.img)[s.img.dir[s.fds[fd].slot].Name() :=
              Splice(Content(s.img, s.fds[fd].slot), s.fds[fd].offset, bytes[..Taken(s, fd, |bytes|)])]
  {
    hide Current, Content, WriteOp, Splice, After, Files, WriteReady, Appended, Chain;
    CurrentShaped(s, fd);
    WriteIsReady(s, fd, bytes);
    WriteOpIsAfter(s, fd, bytes);
    WrittenContent(s.img, s.fds[fd], Before(s, fd), Appended(s.img, s.fds[fd], |bytes|), bytes[..Taken(s, fd, |bytes|)]);
    AfterFiles(s.img, s.fds[fd], Before(s, fd), Appended(s.img, s.fds[fd], |bytes|), bytes[..Taken(s, fd, |bytes|)]);
  }

  lemma AfterFiles(img: Image, f: Fd, c: seq<nat>, add: seq<nat>, chunk: seq<Byte>)
    requires WriteReady(img, f, c, add, chunk)
    ensures Files(After(img, f, c, add, chunk))
         == Files(img)[img.dir[f.slot].Name() := Content(After(img, f, c, add, chunk), f.slot)]
  {
    hide Content, ByteAt, UntilNul, WriteReady, WriteAt, Relink, Cleared, FindName, DirOk, Files;
    WriteReadyFacts(img, f, c, add, chunk);
    AfterDirOk(img, f, c, add, chunk);
    var img' := After(img, f, c, add, chunk);
    forall j | 0 <= j < |img.dir| && j != f.slot && img.dir[j].InUse()
      ensures Content(img', j) == Content(img, j)
    {
      OthersKept(img, f, c, add, chunk, j);
    }
    assert img'.dir[f.slot].Name() == img.dir[f.slot].Name();
    FilesChanged(img, img', f.slot);
    PutOver(Files(img), img.dir[f.slot].Name(), Content(img', f.slot));
  }

  lemma PutOver<K, V>(m: map<K, V>, k: K, v: V)
    ensures (m - {k})[k := v] == m[k := v]
  {
  }

  lemma AfterDirOk(img: Image, f: Fd, c: seq<nat>, add: seq<nat>, chunk: seq<Byte>)
    requires WriteReady(img, f, c, add, chunk)
    ensures DirOk(img.dir) && f.slot < |img.dir| && DirOk(After(img, f, c, add, chunk).dir)
  {
    ChainLength(img, f, c, add);
    GrowthElements(img.fat, |img.data|, c, add);
    BlocksForIsCeiling(NewSize(f, chunk), |c + add|);
    assert c + add != [] ==> Head(c + add) in c + add;
    UpdateKeepsDir(img.dir, f.slot, NewSize(f, chunk), Head(c + add));
  }

  lemma WrittenFree(s: FsState, fd: int, bytes: Buffer)
    requires Current(s, fd) && Shaped(s) && s.fds[fd].offset + |bytes| < SIZE_T_LIMIT
    ensures |FreeList(WriteOp(s, fd, bytes).0.img.fat, |s.img.data|)| + |Appended(s.img, s.fds[fd], |bytes|)|
         == |FreeList(s.img.fat, |s.img.data|)|
    ensures BlocksFor(NewSize(s.fds[fd], bytes[..Taken(s, fd, |bytes|)]))
         == BlocksFor(s.fds[fd].size) + |Appended(s.img, s.fds[fd], |bytes|)|
  {
    hide Current, WriteReady, FreeList, WriteOp, Taken, Relink, WriteAt;
    CurrentShaped(s, fd);
    var f := s.fds[fd];
    WriteIsReady(s, fd, bytes);
    WriteOpIsAfter(s, fd, bytes);
    WriteReadySizes(s.img, f, Before(s, fd), Appended(s.img, f, |bytes|), bytes[..Taken(s, fd, |bytes|)]);
    DescriptorMatches(s, fd);
    FreeAfterGrowth(s.img.fat, |s.img.data|, Before(s, fd), Appended(s.img, f, |bytes|),
                    Minus(BlocksFor(EndOffset(f.offset, |bytes|)), |Chain(s.img.fat, f.first)|));
  }

  lemma RoomIsTaken(s: FsState, fd: int, bytes: Buffer)
    requires Current(s, fd) && s.fds[fd].offset + |bytes| < SIZE_T_LIMIT
    ensures Counted(s.img) && Inside(Abs(s), fd) && HasHandle(Abs(s), fd)
    ensures Room(Abs(s), Abs(s).handles[fd].value, |bytes|) == Taken(s, fd, |bytes|)
  {
    hide FreeList, Files, Current, Content, WriteReady, Appended, Chain, UntilNul;
    CurrentShaped(s, fd);
    HandleAt(s, fd);
    WriteIsReady(s, fd, bytes);
  }

  lemma WriteRefines(s: FsState, fd: int, bytes: Buffer)
    requires Current(s, fd) && Shaped(s) && s.fds[fd].offset + |bytes| < SIZE_T_LIMIT
    ensures Counted(s.img) && Inside(Abs(s), fd) && Counted(WriteOp(s, fd, bytes).0.img)
    ensures (Abs(WriteOp(s, fd, bytes).0), WriteOp(s, fd, bytes).1) == AbsWrite(Abs(s), fd, bytes)
  {
    hide FreeList, Files, Current, Content, WriteOp, WriteReady, Splice, Appended, FittingBytes, WriteAt, Relink, Chain, UntilNul, Room,
         BlocksFor, Cleared;
    CurrentShaped(s, fd);
    HandleAt(s, fd);
    RoomIsTaken(s, fd, bytes);
    WriteOpIsAfter(s, fd, bytes);
    WrittenFiles(s, fd, bytes);
    WrittenFree(s, fd, bytes);
    DescriptorMatches(s, fd);
    HandlesUpdate(s.fds, fd, WriteOp(s, fd, bytes).0.fds[fd]);
  }

  lemma OverflowRefines(s: FsState, fd: int, bytes: Buffer)
    requires Current(s, fd) && Shaped(s) && s.fds[fd].offset + |bytes| >= SIZE_T_LIMIT
    ensures Counted(s.img) && Inside(Abs(s), fd) && Counted(WriteOp(s, fd, bytes).0.img)
    ensures (Abs(WriteOp(s, fd, bytes).0), WriteOp(s, fd, bytes).1) == AbsWrite(Abs(s), fd, bytes)
  {
    hide FreeList, Files, Current, Content, WriteOp, Splice;
    CurrentShaped(s, fd);
    HandleAt(s, fd);
    OverflowingWrite(s, fd, bytes);
    assert bytes[..0] == [];
    NothingSpliced(Abs(s), fd);
  }

  lemma NothingSpliced(a: AbsState, fd: int)
    requires Inside(a, fd) && HasHandle(a, fd)
    ensures var h := a.handles[fd].value;
            && a.files[h.name := Splice(a.files[h.name], h.offset, [])] == a.files
            && a.handles[fd := Some(h.(offset := h.offset + 0))] == a.handles
  {
    var h := a.handles[fd].value;
    assert Splice(a.files[h.name], h.offset, []) == a.files[h.name];
  }

  lemma NoFiles(img: Image)
    requires ImageExact(img) && forall i :: 0 <= i < |img.dir| ==> !img.dir[i].InUse()
    ensures Files(img) == map[]
    ensures forall x :: 0 < x < |img.data| ==> img.fat[x] == 0
    ensures |FreeList(img.fat, |img.data|)| == |img.data| - 1
  {
    assert Names(img.dir) == {};
    forall x | 0 < x < |img.data| ensures img.fat[x] == 0 {
      assert !OnSomeChain(img, x);
    }
    AllFree(img.fat, |img.data|);
  }

  lemma {:induction false} AllFree(fat: seq<nat>, n: nat)
    requires 1 <= n <= |fat| && fat[0] != 0 && forall x :: 0 < x < n ==> fat[x] == 0
    ensures |FreeList(fat, n)| == n - 1
  {
    if n > 1 { AllFree(fat, n - 1); } else { assert FreeList(fat, 0) == []; }
  }

  lemma EraseAllRefines(s: FsState)
    requires Inv(s) && ImageExact(s.img)
    ensures Counted(EraseAllOp(s).0.img) && (Abs(EraseAllOp(s).0), EraseAllOp(s).1) == AbsEraseAll(Abs(s))
  {
    CountExtremes(s.fds);
    if s.occupied == 0 {
      BlankIsOk();
      ErasedExact(s.img, |s.img.dir|);
      NoFiles(ErasedImage(s.img, |s.img.dir|));
      assert forall i :: 0 <= i < |s.fds| ==> Handles(s.fds)[i] == None;
    } else {
      var i :| 0 <= i < |s.fds| && s.fds[i].inUse;
      assert HasHandle(Abs(s), i);
    }
  }

  /* ---------- the refinement theorem ---------- */

  // The call answers as the abstract file system does, and leaves a state that represents its state
  ghost predicate Simulates(s: FsState, op: Op) {
    && Shaped(s) && Counted(s.img) && AbsValid(Abs(s)) && Counted(Step(s, op).0.img)
    && (Abs(Step(s, op).0), Step(s, op).1) == AbsStep(Abs(s), op)
  }

  lemma RemountRefines(s: FsState)
    requires Inv(s) && Counted(s.img)
    ensures Abs(RemountOp(s).0) == Abs(s).(handles := seq(|Abs(s).handles|, _ => None))
  {
    hide Files, FreeList;
    InvSizes(s);
    assert Handles(FreshFds()) == seq(|Handles(s.fds)|, _ => None);
  }

  lemma ReadStepRefines(s: FsState, fd: int, count: SizeT)
    requires Sound(s) && !LeftBehind(s, fd)
    ensures Counted(s.img) && Inside(Abs(s), fd)
    ensures (Abs(ReadOp(s, fd, count).0), ReadOp(s, fd, count).1) == AbsRead(Abs(s), fd, count)
  {
    hide Sound, LeftBehind, Handles, Files, FreeList, Slice;
    SoundParts(s);
    HandleInside(s, fd);
    HandleOpen(s, fd);
    if IsOpen(s.fds, fd) {
      SizeTells(s, fd);
      ReadRefines(s, fd, count);
    }
  }

  lemma WriteStepRefines(s: FsState, fd: int, bytes: Buffer)
    requires Sound(s) && !LeftBehind(s, fd)
    ensures Shaped(s) && Counted(s.img) && Inside(Abs(s), fd) && Counted(WriteOp(s, fd, bytes).0.img)
    ensures (Abs(WriteOp(s, fd, bytes).0), WriteOp(s, fd, bytes).1) == AbsWrite(Abs(s), fd, bytes)
  {
    hide Sound, LeftBehind, Handles, Files, FreeList, Room, Splice, WriteOp;
    SoundParts(s);
    HandleInside(s, fd);
    HandleOpen(s, fd);
    if !IsOpen(s.fds, fd) {
      ClosedWrite(s, fd, bytes);
    } else {
      SizeTells(s, fd);
      if s.fds[fd].offset + |bytes| >= SIZE_T_LIMIT {
        OverflowRefines(s, fd, bytes);
      } else {
        WriteRefines(s, fd, bytes);
      }
    }
  }

  // Every call that avoids the descriptors left behind answers as the abstract file system does and leaves a
  // state that represents its state, however often its file is open.
  lemma StepRefines(s: FsState, op: Op)
    requires Sound(s) && !ThroughLeftBehind(s, op)
    ensures Simulates(s, op)
  {
    hide Sound, ImageExact, ImageOk, DirOk, Inv, Abs, AbsValid, LeftBehind;
    hide AbsCreate, AbsDelete, AbsOpen, AbsClose, AbsStat, AbsSeek, AbsWrite, AbsRead, AbsEraseAll;
    hide FindName, FirstBlank, FirstClosed, FreeList, Chain, ErasedFat, ErasedDir, WriteOp;
    SoundParts(s);
    AbsIsValid(s);
    match op
    case Create(name) => CreateRefines(s, name);
    case Delete(name) => DeleteRefines(s, name);
    case Open(name) => OpenRefines(s, name);
    case Close(fd) => CloseRefines(s, fd);
    case Stat(fd) => StatRefines(s, fd);
    case Seek(fd, offset) => SeekRefines(s, fd, offset);
    case Write(fd, bytes) => WriteStepRefines(s, fd, bytes);
    case Read(fd, count) => ReadStepRefines(s, fd, count);
    case EraseAll => EraseAllRefines(s);
    case Remount => RemountRefines(s);
  }

  // fs_stat tells whether a descriptor was left behind: it reports a size that the file no longer has.
  lemma StatTells(s: FsState, fd: int)
    requires Sound(s)
    ensures LeftBehind(s, fd) <==> !Simulates(s, Stat(fd))
  {
    hide Sound, Simulates, LeftBehind;
    if LeftBehind(s, fd) {
      StatDiffers(s, fd);
    } else {
      StepRefines(s, Stat(fd));
    }
  }

  lemma StatDiffers(s: FsState, fd: int)
    requires Sound(s) && LeftBehind(s, fd)
    ensures !Simulates(s, Stat(fd))
  {
    hide FreeList, Content, Files, ImageExact, Inv;
    SoundParts(s);
    OpenFdOk(s, fd);
    FileAt(s.img, s.fds[fd].slot);
  }

  // All calls answer as the abstract file system exactly when no descriptor was left behind.
  lemma SoundAgreesIff(s: FsState)
    requires Sound(s)
    ensures Exact(s) <==> forall op :: Simulates(s, op)
  {
    hide Sound, Exact, Simulates, LeftBehind;
    ExactIsSound(s);
    if forall fd :: !LeftBehind(s, fd) {
      forall op: Op ensures Simulates(s, op) {
        StepRefines(s, op);
      }
    } else {
      var fd :| LeftBehind(s, fd);
      StatTells(s, fd);
    }
  }

  // One call on, the answers are still those of the abstract file system, for every next call, exactly
  // when no file that another descriptor has open was extended.
  lemma AgreementIff(s: FsState, op: Op)
    requires Exact(s)
    ensures Shaped(s) && (ExtendsShared(s, op) <==> exists next :: !Simulates(Step(s, op).0, next))
  {
    hide Exact, Sound, Simulates, ExtendsShared, Step;
    ExactIsSound(s);
    StepKeepsSound(s, op);
    SoundAgreesIff(Step(s, op).0);
    StepExactIff(s, op);
  }
}
