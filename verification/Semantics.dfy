/** The decoded state of a mounted file system, and what every call of the API does to it. */
module Semantics {
  import opened Layout
  import opened Chains
  import opened Allocation
  import opened Contents
  import opened Directory

  // What the disk blocks say: the table, the directory and the data area
  datatype Image = Image(fat: seq<nat>, dir: seq<DirEntry>, data: seq<Block>)

  // struct fdNode
  datatype Fd = Fd(inUse: bool, filename: Option<CString>, slot: nat, size: nat, offset: nat, first: nat)

  const CLOSED: Fd := Fd(false, None, 0, 0, 0, FAT_EOC)

  datatype FsState = FsState(img: Image, fds: seq<Fd>, occupied: nat)

  // The int a call returns, and the bytes it stores in the caller's buffer
  datatype Reply = Reply(ret: int, bytes: seq<Byte>)

  const FAILED: Reply := Reply(-1, [])

  datatype Op =
    | Create(name: CString)
    | Delete(name: CString)
    | Open(name: CString)
    | Close(fd: int)
    | Stat(fd: int)
    | Seek(fd: int, offset: SizeT)
    | Write(fd: int, bytes: Buffer)
    | Read(fd: int, count: SizeT)
    | EraseAll
    | Remount

  function FreshFds(): (r: seq<Fd>)
    ensures |r| == OPEN_MAX_COUNT
  {
    seq(OPEN_MAX_COUNT, _ => CLOSED)
  }

  predicate IsOpen(fds: seq<Fd>, fd: int) {
    0 <= fd < |fds| && fds[fd].inUse
  }

  // isOpenByName, without its shortcut
  predicate NameOpen(fds: seq<Fd>, name: CString) {
    exists i :: 0 <= i < |fds| && fds[i].inUse && fds[i].filename == Some(name)
  }

  // The descriptor that addFd picks, or |fds|
  function FirstClosed(fds: seq<Fd>): (i: nat)
    ensures i <= |fds|
    ensures i < |fds| ==> !fds[i].inUse
    ensures forall j :: 0 <= j < i ==> fds[j].inUse
  {
    if fds == [] then 0 else if !fds[0].inUse then 0 else 1 + FirstClosed(fds[1..])
  }

  function CountInUse(fds: seq<Fd>): nat {
    if fds == [] then 0 else (if fds[0].inUse then 1 else 0) + CountInUse(fds[1..])
  }

  // A size_t sum
  function EndOffset(offset: nat, count: nat): nat {
    (offset + count) % SIZE_T_LIMIT
  }

  function Minus(a: nat, b: nat): nat {
    if a <= b then 0 else a - b
  }

  function Min(a: int, b: int): int {
    if a <= b then a else b
  }

  /* ---------- directory calls ---------- */

  function CreateOp(s: FsState, name: CString): (FsState, Reply) {
    var i := FirstBlank(s.img.dir);
    if !ValidName(name) || FindName(s.img.dir, name) < |s.img.dir| || i == |s.img.dir| then (s, FAILED)
    else (s.(img := s.img.(dir := s.img.dir[i := NewEntry(name)])), Reply(0, []))
  }

  function DeleteOp(s: FsState, name: CString): (FsState, Reply) {
    var i := FindName(s.img.dir, name);
    if !ValidName(name) || i == |s.img.dir| || NameOpen(s.fds, name) then (s, FAILED)
    else
      var img := s.img;
      (s.(img := img.(dir := img.dir[i := BLANK_ENTRY], fat := Zeroed(img.fat, Chain(img.fat, img.dir[i].index)))),
       Reply(0, []))
  }

  /* ---------- descriptor calls ---------- */

  function OpenOp(s: FsState, name: CString): (FsState, Reply) {
    var i := FindName(s.img.dir, name);
    var fd := FirstClosed(s.fds);
    if !ValidName(name) || fd == |s.fds| || i == |s.img.dir| then (s, FAILED)
    else
      var e := s.img.dir[i];
      var f := Fd(true, Some(name), i, if e.index == FAT_EOC then 0 else e.size, 0, e.index);
      (s.(fds := s.fds[fd := f], occupied := s.occupied + 1), Reply(fd, []))
  }

  function CloseOp(s: FsState, fd: int): (FsState, Reply) {
    if !IsOpen(s.fds, fd) then (s, FAILED)
    else (s.(fds := s.fds[fd := CLOSED], occupied := Minus(s.occupied, 1)), Reply(0, []))
  }

  function StatOp(s: FsState, fd: int): (FsState, Reply) {
    if !IsOpen(s.fds, fd) then (s, FAILED) else (s, Reply(s.fds[fd].size, []))
  }

  function SeekOp(s: FsState, fd: int, offset: nat): (FsState, Reply) {
    if !IsOpen(s.fds, fd) || offset > s.fds[fd].size then (s, FAILED)
    else (s.(fds := s.fds[fd := s.fds[fd].(offset := offset)]), Reply(0, []))
  }

  /* ---------- fs_write ---------- */

  // The blocks a write of count bytes appends to the descriptor's chain
  function Appended(img: Image, f: Fd, count: nat): seq<nat>
    requires |img.data| <= |img.fat|
  {
    Lowest(img.fat, |img.data|, Minus(BlocksFor(EndOffset(f.offset, count)), |Chain(img.fat, f.first)|))
  }

  // The image after add was appended to the chain c of the file in a directory slot
  function Grown(img: Image, slot: nat, c: seq<nat>, add: seq<nat>): Image {
    Image(Relink(img.fat, c + add),
          if c == [] && add != [] && slot < |img.dir|
          then img.dir[slot := img.dir[slot].(index := add[0])] else img.dir,
          Cleared(img.data, add))
  }

  // The bytes that fit: nothing after a size_t overflow, else up to the end of the chain
  function FittingBytes(offset: nat, count: nat, blocks: nat): (n: nat)
    ensures n <= count
  {
    Minus(Min(EndOffset(offset, count), BLOCK_SIZE * blocks), offset)
  }

  function Advanced(f: Fd, c: seq<nat>, n: nat): Fd {
    f.(first := Head(c), offset := f.offset + n,
       size := if n > 0 && f.offset + n > f.size then f.offset + n else f.size)
  }

  function Stored(img: Image, f: Fd, f': Fd, c: seq<nat>, bytes: seq<Byte>): Image
    requires f.slot < |img.dir|
  {
    img.(data := WriteAt(img.data, c, f.offset, bytes),
         dir := img.dir[f.slot := img.dir[f.slot].(size := f'.size % 0x1_0000_0000)])
  }

  function WriteOp(s: FsState, fd: int, bytes: seq<Byte>): (FsState, Reply)
    requires |s.img.data| <= |s.img.fat|
    requires IsOpen(s.fds, fd) ==> s.fds[fd].slot < |s.img.dir|
  {
    if !IsOpen(s.fds, fd) then (s, FAILED)
    else if bytes == [] then (s, Reply(0, []))
    else
      var f := s.fds[fd];
      var c := Chain(s.img.fat, f.first);
      var add := Appended(s.img, f, |bytes|);
      var all := c + add;
      if add == [] && EndOffset(f.offset, |bytes|) > BLOCK_SIZE * |all| == f.offset then (s, Reply(0, []))
      else
        var n := FittingBytes(f.offset, |bytes|, |all|);
        var f' := Advanced(f, all, n);
        (s.(img := Stored(Grown(s.img, f.slot, c, add), f, f', all, bytes[..n]), fds := s.fds[fd := f']),
         Reply(n, []))
  }

  /* ---------- fs_read ---------- */

  function ReadCount(f: Fd, count: nat): nat {
    if f.first == FAT_EOC || f.offset >= f.size then 0
    else
      Minus(Min(EndOffset(f.offset, count), f.size), f.offset)
  }

  function ReadOp(s: FsState, fd: int, count: nat): (FsState, Reply) {
    if !IsOpen(s.fds, fd) then (s, FAILED)
    else
      var f := s.fds[fd];
      var n := ReadCount(f, count);
      (s.(fds := s.fds[fd := f.(offset := f.offset + n)]),
       Reply(n, Slice(s.img.data, Chain(s.img.fat, f.first), f.offset, n)))
  }

  /* ---------- whole-disk calls ---------- */

  // The table after the chains of the first k directory slots were freed
  function ErasedFat(fat: seq<nat>, dir: seq<DirEntry>, k: nat): (r: seq<nat>)
    requires k <= |dir|
    ensures |r| == |fat|
  {
    if k == 0 then fat
    else
      var g := ErasedFat(fat, dir, k - 1);
      if dir[k - 1].InUse() then Zeroed(g, Chain(g, dir[k - 1].index)) else g
  }

  function ErasedDir(dir: seq<DirEntry>, k: nat): seq<DirEntry>
    requires k <= |dir|
  {
    seq(|dir|, i requires 0 <= i < |dir| => if i < k && dir[i].InUse() then BLANK_ENTRY else dir[i])
  }

  // erase_all_files
  function EraseAllOp(s: FsState): (FsState, Reply) {
    if s.occupied != 0 then (s, FAILED)
    else
      var d := s.img.dir;
      (s.(img := s.img.(fat := ErasedFat(s.img.fat, d, |d|), dir := ErasedDir(d, |d|))), Reply(0, []))
  }

  // fs_umount, then fs_mount of the same disk
  function RemountOp(s: FsState): (FsState, Reply) {
    (s.(fds := FreshFds(), occupied := 0), Reply(0, []))
  }

  /* ---------- one call, and a run of calls ---------- */

  // What the calls below need to be defined
  predicate Shaped(s: FsState) {
    && |s.img.data| <= |s.img.fat|
    && forall i :: 0 <= i < |s.fds| && s.fds[i].inUse ==> s.fds[i].slot < |s.img.dir|
  }

  function Step(s: FsState, op: Op): (FsState, Reply)
    requires Shaped(s)
  {
    match op
    case Create(name) => CreateOp(s, name)
    case Delete(name) => DeleteOp(s, name)
    case Open(name) => OpenOp(s, name)
    case Close(fd) => CloseOp(s, fd)
    case Stat(fd) => StatOp(s, fd)
    case Seek(fd, offset) => SeekOp(s, fd, offset)
    case Write(fd, bytes) => WriteOp(s, fd, bytes)
    case Read(fd, count) => ReadOp(s, fd, count)
    case EraseAll => EraseAllOp(s)
    case Remount => RemountOp(s)
  }
}
