/** A client: any sequence of calls on the class is a run of the decoded state, and so of the abstract file map. */
module Clients {
  import opened Layout
  import opened Semantics
  import opened Structure
  import opened Exactness
  import opened Refinement
  import opened Runs
  import opened DiskImage
  import opened Superblock
  import opened FileSystems

  // A buffer holding the bytes, handed to fs_write
  method WriteBytes(fs: FileSystem, fd: int, bytes: Buffer) returns (reply: Reply)
    requires fs.Valid() && fs.mounted && fs.disk.Complete()
    modifies fs.disk`blocks, fs.Nodes()
    ensures fs.Valid() && fs.disk.Complete()
    ensures Shaped(old(fs.State())) && (fs.State(), reply) == WriteOp(old(fs.State()), fd, bytes)
  {
    hide Inv, WriteOp, ImageOf, LaidOut, Accepted, DecodeMetadata;
    var buf := new Byte[|bytes|](i requires 0 <= i < |bytes| => bytes[i]);
    assert buf[..|bytes|] == bytes;
    var r := fs.FsWrite(fd, buf, |bytes|);
    return Reply(r, []);
  }

  // A fresh buffer, filled by fs_read
  method ReadBytes(fs: FileSystem, fd: int, count: SizeT) returns (reply: Reply)
    requires fs.Valid() && fs.mounted && fs.disk.Complete()
    modifies fs.Nodes()
    ensures fs.Valid() && (fs.State(), reply) == ReadOp(old(fs.State()), fd, count)
  {
    hide Inv, ReadOp, ImageOf, LaidOut, Accepted, DecodeMetadata;
    var buf := new Byte[count];
    var r := fs.FsRead(fd, buf, count);
    return Reply(r, if r == -1 then [] else buf[..r]);
  }

  // One call that needs no remounting, on a mounted disk that holds all its data blocks
  method CallMounted(fs: FileSystem, op: Op) returns (reply: Reply)
    requires fs.Valid() && fs.mounted && fs.disk.Complete() && !op.Remount?
    modifies fs.disk`blocks, fs.Tables(), fs.Nodes()
    ensures fs.Valid() && fs.disk.Complete()
    ensures Shaped(old(fs.State())) && (fs.State(), reply) == Step(old(fs.State()), op)
  {
    hide Inv, ImageOf, LaidOut, Accepted, DecodeMetadata;
    hide CreateOp, DeleteOp, OpenOp, CloseOp, StatOp, SeekOp, WriteOp, ReadOp, EraseAllOp;
    var r;
    InvShaped(fs.State());
    match op
    case Create(name) => r := fs.FsCreate(name); return Reply(r, []);
    case Delete(name) => r := fs.FsDelete(name); return Reply(r, []);
    case Open(name) => r := fs.FsOpen(name); return Reply(r, []);
    case Close(fd) => r := fs.FsClose(fd); return Reply(r, []);
    case Stat(fd) => r := fs.FsStat(fd); return Reply(r, []);
    case Seek(fd, offset) => r := fs.FsLseek(fd, offset); return Reply(r, []);
    case Write(fd, bytes) => reply := WriteBytes(fs, fd, bytes);
    case Read(fd, count) => reply := ReadBytes(fs, fd, count);
    case EraseAll => r := fs.EraseAllFiles(); return Reply(r, []);
  }

  // One call. Remounting puts a new descriptor table in place of the old one.
  method Call(fs: FileSystem, op: Op) returns (reply: Reply)
    requires fs.Valid() && fs.mounted && fs.disk.Complete()
    modifies fs`mounted, fs`table, fs.disk, fs.Tables(), fs.Nodes()
    ensures fs.Valid() && fs.mounted && fs.disk.Complete()
    ensures fs.table == old(fs.table) || (fs.table != null && fresh(fs.table) && fresh(fs.table.nodes))
    ensures Shaped(old(fs.State())) && (fs.State(), reply) == Step(old(fs.State()), op)
  {
    hide Inv, ImageOf, LaidOut, Accepted, DecodeMetadata;
    InvShaped(fs.State());
    if op.Remount? {
      var r := fs.Remount();
      return Reply(r, []);
    }
    reply := CallMounted(fs, op);
  }

  // Any sequence of calls: the class does what the run of its decoded state does, and answers as the abstract
  // file map as long as nobody uses a descriptor that was left behind.
  method RunCalls(fs: FileSystem, ops: seq<Op>) returns (replies: seq<Reply>)
    requires fs.Valid() && fs.mounted && fs.disk.Complete()
    modifies fs`mounted, fs`table, fs.disk, fs.Tables(), fs.Nodes()
    ensures fs.Valid() && fs.mounted && fs.disk.Complete() && Inv(old(fs.State()))
    ensures fs.table == old(fs.table) || (fs.table != null && fresh(fs.table) && fresh(fs.table.nodes))
    ensures fs.State() == Run(old(fs.State()), ops) && replies == Replies(old(fs.State()), ops)
    ensures Sound(old(fs.State())) && Careful(old(fs.State()), ops) ==>
              Counted(old(fs.State()).img) && Counted(fs.State().img)
              && (Abs(fs.State()), replies) == AbsRun(Abs(old(fs.State())), ops)
    decreases |ops|
  {
    hide Inv, Step, Sound, Careful, Abs, AbsRun, ImageOf, LaidOut, Accepted, DecodeMetadata;
    ghost var s := fs.State();
    replies := [];
    if ops != [] {
      var reply := Call(fs, ops[0]);
      var rest := RunCalls(fs, ops[1..]);
      replies := [reply] + rest;
    }
    if Sound(s) && Careful(s, ops) { RunRefines(s, ops); }
  }
}
