/**
 The abstract file system: named byte strings, open handles with an offset, and a number of
 free blocks. It has no table, no chains and no directory slots.
 */
module FileMap {
  import opened Layout
  import opened Contents
  import opened Semantics

  datatype Handle = Handle(name: CString, offset: nat)

  // capacity is the number of blocks that files can have in all
  datatype AbsState = AbsState(files: map<CString, seq<Byte>>, handles: seq<Option<Handle>>, free: nat, capacity: nat)

  predicate HasHandle(a: AbsState, fd: int) {
    0 <= fd < |a.handles| && a.handles[fd].Some?
  }

  // The handle is inside a file that exists
  predicate Inside(a: AbsState, fd: int) {
    HasHandle(a, fd) ==>
      var h := a.handles[fd].value;
      h.name in a.files && h.offset <= |a.files[h.name]|
  }

  ghost predicate AbsValid(a: AbsState) {
    forall fd :: Inside(a, fd)
  }

  predicate Held(a: AbsState, name: CString) {
    exists i :: 0 <= i < |a.handles| && a.handles[i].Some? && a.handles[i].value.name == name
  }

  function FirstUnused(handles: seq<Option<Handle>>): (i: nat)
    ensures i <= |handles|
    ensures i < |handles| ==> handles[i] == None
    ensures forall j :: 0 <= j < i ==> handles[j].Some?
  {
    if handles == [] then 0 else if handles[0] == None then 0 else 1 + FirstUnused(handles[1..])
  }

  // A name of 1 to 15 bytes without a slash
  predicate Allowed(name: CString) {
    1 <= |name| <= 15 && 47 !in name
  }

  // How many of count bytes a write takes: none after a size_t overflow, else as many as fit
  ghost function Room(a: AbsState, h: Handle, count: nat): nat
    requires h.name in a.files && h.offset <= |a.files[h.name]|
  {
    var size := |a.files[h.name]|;
    BlocksForIsCeiling(size, BlocksFor(size));
    if h.offset + count >= 0x1_0000_0000_0000_0000 then 0
    else Min(count, 4096 * (BlocksFor(size) + a.free) - h.offset)
  }

  ghost function AbsWrite(a: AbsState, fd: int, bytes: Buffer): (AbsState, Reply)
    requires Inside(a, fd)
  {
    if !HasHandle(a, fd) then (a, FAILED)
    else
      var h := a.handles[fd].value;
      var n := Room(a, h, |bytes|);
      var content := a.files[h.name];
      var written := Splice(content, h.offset, bytes[..n]);
      (a.(files := a.files[h.name := written],
          handles := a.handles[fd := Some(h.(offset := h.offset + n))],
          free := Minus(a.free + BlocksFor(|content|), BlocksFor(|written|))),
       Reply(n, []))
  }

  ghost function AbsRead(a: AbsState, fd: int, count: SizeT): (AbsState, Reply)
    requires Inside(a, fd)
  {
    if !HasHandle(a, fd) then (a, FAILED)
    else
      var h := a.handles[fd].value;
      var content := a.files[h.name];
      var n := if h.offset + count >= 0x1_0000_0000_0000_0000 then 0 else Min(count, |content| - h.offset);
      (a.(handles := a.handles[fd := Some(h.(offset := h.offset + n))]),
       Reply(n, content[h.offset..h.offset + n]))
  }

  ghost function AbsCreate(a: AbsState, name: CString): (AbsState, Reply) {
    if !Allowed(name) || name in a.files || |a.files| == 128 then (a, FAILED)
    else (a.(files := a.files[name := []]), Reply(0, []))
  }

  ghost function AbsDelete(a: AbsState, name: CString): (AbsState, Reply) {
    if !Allowed(name) || name !in a.files || Held(a, name) then (a, FAILED)
    else (a.(files := a.files - {name}, free := a.free + BlocksFor(|a.files[name]|)), Reply(0, []))
  }

  ghost function AbsOpen(a: AbsState, name: CString): (AbsState, Reply) {
    var fd := FirstUnused(a.handles);
    if !Allowed(name) || name !in a.files || fd == |a.handles| then (a, FAILED)
    else (a.(handles := a.handles[fd := Some(Handle(name, 0))]), Reply(fd, []))
  }

  ghost function AbsClose(a: AbsState, fd: int): (AbsState, Reply) {
    if !HasHandle(a, fd) then (a, FAILED) else (a.(handles := a.handles[fd := None]), Reply(0, []))
  }

  ghost function AbsStat(a: AbsState, fd: int): (AbsState, Reply)
    requires Inside(a, fd)
  {
    if !HasHandle(a, fd) then (a, FAILED) else (a, Reply(|a.files[a.handles[fd].value.name]|, []))
  }

  ghost function AbsSeek(a: AbsState, fd: int, offset: SizeT): (AbsState, Reply)
    requires Inside(a, fd)
  {
    if !HasHandle(a, fd) || offset > |a.files[a.handles[fd].value.name]| then (a, FAILED)
    else (a.(handles := a.handles[fd := Some(a.handles[fd].value.(offset := offset))]), Reply(0, []))
  }

  ghost function AbsEraseAll(a: AbsState): (AbsState, Reply) {
    if exists fd :: HasHandle(a, fd) then (a, FAILED)
    else (a.(files := map[], free := a.capacity), Reply(0, []))
  }

  ghost function AbsStep(a: AbsState, op: Op): (AbsState, Reply)
    requires AbsValid(a)
  {
    match op
    case Create(name) => AbsCreate(a, name)
    case Delete(name) => AbsDelete(a, name)
    case Open(name) => AbsOpen(a, name)
    case Close(fd) => AbsClose(a, fd)
    case Stat(fd) => AbsStat(a, fd)
    case Seek(fd, offset) => AbsSeek(a, fd, offset)
    case Write(fd, bytes) => AbsWrite(a, fd, bytes)
    case Read(fd, count) => AbsRead(a, fd, count)
    case EraseAll => AbsEraseAll(a)
    case Remount => (a.(handles := seq(|a.handles|, _ => None)), Reply(0, []))
  }
}
