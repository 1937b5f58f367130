/**
 Laws that relate several calls through one descriptor. They need that this descriptor agrees with
 the directory (Current); the file may be open through others as well.
 */
module Theorems {
  import opened Layout
  import opened Chains
  import opened Forests
  import opened Allocation
  import opened Contents
  import opened Directory
  import opened Semantics
  import opened Structure
  import opened Exactness
  import opened Writing
  import opened Refinement

  /* ---------- fs_write is a splice ---------- */

  // The number of bytes that still fit at a descriptor's offset
  function SpaceLeft(s: FsState, fd: int): int
    requires IsOpen(s.fds, fd) && |s.img.data| <= |s.img.fat|
  {
    BLOCK_SIZE * (|Before(s, fd)| + |FreeList(s.img.fat, |s.img.data|)|) - s.fds[fd].offset
  }

  // fs_write takes as many bytes as fit, splices them in, and leaves every other file alone.
  lemma WriteIsSplice(s: FsState, fd: int, bytes: Buffer)
    requires Current(s, fd) && s.fds[fd].offset + |bytes| < SIZE_T_LIMIT
    ensures Shaped(s)
    ensures var f := s.fds[fd]; var (s', r) := WriteOp(s, fd, bytes); var n := Min(|bytes|, SpaceLeft(s, fd));
            && f.slot < |s.img.dir| == |s'.img.dir| && f.offset <= |Content(s.img, f.slot)|
            && 0 <= n && r == Reply(n, [])
            && Content(s'.img, f.slot) == Splice(Content(s.img, f.slot), f.offset, bytes[..n])
            && |s'.fds| == |s.fds| && s'.fds == s.fds[fd := s'.fds[fd]]
            && s'.fds[fd] == f.(first := s'.fds[fd].first, offset := f.offset + n,
                                size := if f.offset + n > f.size then f.offset + n else f.size)
            && Before(s, fd) <= Before(s', fd)
    ensures var s' := WriteOp(s, fd, bytes).0;
            forall j :: 0 <= j < |s.img.dir| && j != s.fds[fd].slot && s.img.dir[j].InUse() ==>
              |s'.img.dir| == |s.img.dir| && s'.img.dir[j] == s.img.dir[j]
              && ChainOf(s'.img, j) == ChainOf(s.img, j) && Content(s'.img, j) == Content(s.img, j)
  {
    hide Current, WriteOp, After, Content, WriteReady, Splice;
    CurrentShaped(s, fd);
    var f := s.fds[fd];
    var c, add, n := Before(s, fd), Appended(s.img, f, |bytes|), Taken(s, fd, |bytes|);
    DescriptorMatches(s, fd);
    WriteIsReady(s, fd, bytes);
    WriteOpIsAfter(s, fd, bytes);
    AfterShape(s.img, f, c, add, bytes[..n]);
    WrittenContent(s.img, f, c, add, bytes[..n]);
    forall j | 0 <= j < |s.img.dir| && j != f.slot && s.img.dir[j].InUse()
      ensures var img' := WriteOp(s, fd, bytes).0.img;
              |img'.dir| == |s.img.dir| && img'.dir[j] == s.img.dir[j]
              && ChainOf(img', j) == ChainOf(s.img, j) && Content(img', j) == Content(s.img, j)
    {
      OthersKept(s.img, f, c, add, bytes[..n], j);
    }
  }

  lemma AfterShape(img: Image, f: Fd, c: seq<nat>, add: seq<nat>, chunk: seq<Byte>)
    requires WriteReady(img, f, c, add, chunk)
    ensures f.slot < |img.dir| && |After(img, f, c, add, chunk).dir| == |img.dir|
    ensures f.offset <= |Content(img, f.slot)|
    ensures Chain(After(img, f, c, add, chunk).fat, Advanced(f, c + add, |chunk|).first) == c + add
    ensures Advanced(f, c + add, |chunk|).size == NewSize(f, chunk)
  {
    WriteReadyFacts(img, f, c, add, chunk);
    WrittenChain(img, f, c, add, chunk);
    StoredIsAfter(img, f, c, add, chunk);
  }

  /* ---------- two writes are one ---------- */

  // How block counts and byte counts of two consecutive writes add up
  lemma ComposeArithmetic(size: nat, offset: nat, a: nat, b: nat, free: nat, add1: nat, n1: nat)
    requires offset <= size && offset + a + b < SIZE_T_LIMIT
    requires var k := Minus(BlocksFor(offset + a), BlocksFor(size)); add1 == if k <= free then k else free
    requires var room := BLOCK_SIZE * (BlocksFor(size) + free) - offset; n1 == if a <= room then a else room
    ensures var have := BlocksFor(size);
            var k2 := Minus(BlocksFor(offset + n1 + b), have + add1);
            var k := Minus(BlocksFor(offset + a + b), have);
            (if k <= free then k else free) == add1 + (if k2 <= free - add1 then k2 else free - add1)
  {
  }

  // The images of two consecutive writes
  lemma AfterTwice(img: Image, f: Fd, c: seq<nat>, add1: seq<nat>, chunk1: seq<Byte>, f1: Fd, add2: seq<nat>, chunk2: seq<Byte>)
    requires f.slot < |img.dir| && Disjoint(c + add1, add2) && f.offset + |chunk1| <= BLOCK_SIZE * |c + add1|
    requires f1.slot == f.slot && f1.offset == f.offset + |chunk1| && f1.size == NewSize(f, chunk1)
    ensures After(After(img, f, c, add1, chunk1), f1, c + add1, add2, chunk2)
         == After(img, f, c, add1 + add2, chunk1 + chunk2)
  {
    hide Relink, WriteAt, Cleared;
    assert c + add1 + add2 == c + (add1 + add2);
    RelinkTwice(img.fat, c + add1, add2);
    WriteTwice(Cleared(img.data, add1), c + add1, add2, f.offset, chunk1, chunk2);
    ClearTwice(img.data, add1, add2);
  }

  lemma PrefixParts(s: seq<nat>, i: nat, j: nat)
    requires i + j <= |s|
    ensures s[..i] + s[i..][..j] == s[..i + j]
  {
  }

  // The second write appends the blocks that one combined write would have appended next.
  lemma AppendedTwice(s: FsState, fd: int, a: Buffer, b: Buffer)
    requires Current(s, fd) && Shaped(s) && s.fds[fd].offset + |a| + |b| < SIZE_T_LIMIT
    ensures var s1 := WriteOp(s, fd, a).0;
            && |s1.img.data| <= |s1.img.fat| && IsOpen(s1.fds, fd)
            && Appended(s.img, s.fds[fd], |a| + |b|)
            == Appended(s.img, s.fds[fd], |a|) + Appended(s1.img, s1.fds[fd], |b|)
            && Taken(s, fd, |a| + |b|) == Taken(s, fd, |a|) + Taken(s1, fd, |b|)
            && (Taken(s1, fd, |b|) > 0 ==> Taken(s, fd, |a|) == |a|)
  {
    hide FreeList, Appended, Taken, BlocksFor, Minus;
    hide Current, WriteOp, After, WriteReady;
    CurrentShaped(s, fd);
    AfterFirst(s, fd, a, b);
    var s1 := WriteOp(s, fd, a).0;
    var f := s.fds[fd];
    var n, free := |s.img.data|, FreeList(s.img.fat, |s.img.data|);
    WriteSummary(s, fd, a);
    WriteSummary(s, fd, a + b);
    WriteSummary(s1, fd, b);
    ComposeArithmetic(f.size, f.offset, |a|, |b|, |free|, |Appended(s.img, f, |a|)|, Taken(s, fd, |a|));
    PrefixParts(free, |Appended(s.img, f, |a|)|, |Appended(s1.img, s1.fds[fd], |b|)|);
  }

  // Sizes, free blocks and counts around one write, without the bytes
  lemma WriteSummary(s: FsState, fd: int, bytes: Buffer)
    requires Current(s, fd) && s.fds[fd].offset + |bytes| < SIZE_T_LIMIT
    ensures Shaped(s) && Counted(s.img)
    ensures var f := s.fds[fd]; var free := FreeList(s.img.fat, |s.img.data|);
            var add := Appended(s.img, f, |bytes|); var n := Taken(s, fd, |bytes|); var s' := WriteOp(s, fd, bytes).0;
            var k := Minus(BlocksFor(f.offset + |bytes|), BlocksFor(f.size));
            var room := BLOCK_SIZE * (BlocksFor(f.size) + |free|) - f.offset;
            && f.offset <= f.size
            && add == free[..if k <= |free| then k else |free|]
            && n == (if |bytes| <= room then |bytes| else room)
            && |s'.img.data| == |s.img.data| <= |s'.img.fat|
            && FreeList(s'.img.fat, |s'.img.data|) == free[|add|..]
            && fd < |s'.fds| && s'.fds[fd].offset == f.offset + n
            && BlocksFor(s'.fds[fd].size) == BlocksFor(f.size) + |add|
  {
    hide Current, WriteOp, FreeList, WriteReady, BlocksFor, WriteAt, Relink, Chain;
    CurrentShaped(s, fd);
    var f := s.fds[fd];
    DescriptorMatches(s, fd);
    WriteIsReady(s, fd, bytes);
    WriteOpIsAfter(s, fd, bytes);
    AfterShape(s.img, f, Before(s, fd), Appended(s.img, f, |bytes|), bytes[..Taken(s, fd, |bytes|)]);
    WrittenFree(s, fd, bytes);
    WriteReadyFacts(s.img, f, Before(s, fd), Appended(s.img, f, |bytes|), bytes[..Taken(s, fd, |bytes|)]);
    FreeAfterGrowth(s.img.fat, |s.img.data|, Before(s, fd), Appended(s.img, f, |bytes|),
                    Minus(BlocksFor(EndOffset(f.offset, |bytes|)), |Before(s, fd)|));
  }

  lemma DistinctParts(c: seq<nat>, d: seq<nat>)
    requires Distinct(c + d)
    ensures Disjoint(c, d)
  {
    forall x | x in c ensures x !in d {
      if x in d {
        assert (c + d)[IndexOf(c, x)] == (c + d)[|c| + IndexOf(d, x)];
      }
    }
  }

  lemma ChunksJoin(a: seq<Byte>, b: seq<Byte>, n1: nat, n2: nat)
    requires n1 <= |a| && n2 <= |b| && (n2 > 0 ==> n1 == |a|)
    ensures a[..n1] + b[..n2] == (a + b)[..n1 + n2]
  {
  }

  // The state after one write, seen from a second one
  lemma AfterFirst(s: FsState, fd: int, a: Buffer, b: Buffer)
    requires Current(s, fd) && Shaped(s) && s.fds[fd].offset + |a| + |b| < SIZE_T_LIMIT
    ensures var s1 := WriteOp(s, fd, a).0; var f := s.fds[fd];
            && Current(s1, fd) && Shaped(s1) && IsOpen(s1.fds, fd) && f.slot < |s.img.dir|
            && Before(s1, fd) == Before(s, fd) + Appended(s.img, f, |a|)
            && s1.fds[fd].slot == f.slot && s1.fds[fd].offset == f.offset + Taken(s, fd, |a|)
            && s1.fds[fd].offset + |b| < SIZE_T_LIMIT
            && s1.fds[fd].size == NewSize(f, a[..Taken(s, fd, |a|)])
            && s1.fds[fd].offset <= BLOCK_SIZE * |Before(s1, fd)|
            && Disjoint(Before(s1, fd), Appended(s1.img, s1.fds[fd], |b|))
  {
    hide Current, WriteOp, WriteReady;
    CurrentShaped(s, fd);
    WriteKeepsCurrent(s, fd, a);
    var s1 := WriteOp(s, fd, a).0;
    var f, add, chunk := s.fds[fd], Appended(s.img, s.fds[fd], |a|), a[..Taken(s, fd, |a|)];
    CurrentShaped(s1, fd);
    WriteIsReady(s, fd, a);
    WriteOpIsAfter(s, fd, a);
    AfterShape(s.img, f, Before(s, fd), add, chunk);
    WriteReadyFacts(s.img, f, Before(s, fd), add, chunk);
    WriteIsReady(s1, fd, b);
    var add2 := Appended(s1.img, s1.fds[fd], |b|);
    WriteReadyFacts(s1.img, s1.fds[fd], Before(s1, fd), add2, b[..Taken(s1, fd, |b|)]);
    DistinctParts(Before(s1, fd), add2);
  }

  lemma AdvancedTwice(f: Fd, c1: seq<nat>, n1: nat, c2: seq<nat>, n2: nat)
    requires f.offset <= f.size
    ensures Advanced(Advanced(f, c1, n1), c2, n2) == Advanced(f, c2, n1 + n2)
  {
  }

  // Two writes leave exactly the disk and the descriptor that one write of both buffers leaves.
  lemma WritesCompose(s: FsState, fd: int, a: Buffer, b: Buffer)
    requires Current(s, fd) && Shaped(s)
    requires s.fds[fd].offset + |a| + |b| < SIZE_T_LIMIT
    ensures Shaped(WriteOp(s, fd, a).0)
    ensures var (s1, r1) := WriteOp(s, fd, a); var (s2, r2) := WriteOp(s1, fd, b);
            WriteOp(s, fd, a + b) == (s2, Reply(r1.ret + r2.ret, []))
  {
    hide Current, WriteOp, After, Appended, Taken, Advanced, Before;
    CurrentShaped(s, fd);
    AfterFirst(s, fd, a, b);
    AppendedTwice(s, fd, a, b);
    var s1, f := WriteOp(s, fd, a).0, s.fds[fd];
    var add1, add2 := Appended(s.img, f, |a|), Appended(s1.img, s1.fds[fd], |b|);
    var n1, n2 := Taken(s, fd, |a|), Taken(s1, fd, |b|);
    WriteOpIsAfter(s, fd, a);
    WriteOpIsAfter(s1, fd, b);
    WriteOpIsAfter(s, fd, a + b);
    ChunksJoin(a, b, n1, n2);
    assert Before(s, fd) + add1 + add2 == Before(s, fd) + (add1 + add2);
    AfterTwice(s.img, f, Before(s, fd), add1, a[..n1], s1.fds[fd], add2, b[..n2]);
    DescriptorMatches(s, fd);
    AdvancedTwice(f, Before(s, fd) + add1, n1, Before(s, fd) + add1 + add2, n2);
    UpdateTwice(s.fds, fd, s1.fds[fd], WriteOp(s1, fd, b).0.fds[fd]);
  }

  function Joined(chunks: seq<Buffer>): seq<Byte> {
    if chunks == [] then [] else chunks[0] + Joined(chunks[1..])
  }

  // The state and the total count after one write per chunk
  ghost function WriteAll(s: FsState, fd: int, chunks: seq<Buffer>): (FsState, int)
    requires Inv(s)
    decreases |chunks|
  {
    if chunks == [] then (s, 0)
    else
      WriteKeepsInv(s, fd, chunks[0]);
      var (s1, r1) := WriteOp(s, fd, chunks[0]);
      var (s2, n2) := WriteAll(s1, fd, chunks[1..]);
      (s2, r1.ret + n2)
  }

  // However a buffer is cut into chunks, writing them one by one is writing it at once,
  // also when the disk fills up on the way.
  lemma {:induction false} ChunksDoNotMatter(s: FsState, fd: int, chunks: seq<Buffer>)
    requires Current(s, fd) && Shaped(s) && s.fds[fd].offset + |Joined(chunks)| < SIZE_T_LIMIT
    ensures var (s', r) := WriteOp(s, fd, Joined(chunks)); (s', r.ret) == WriteAll(s, fd, chunks)
    decreases |chunks|
  {
    hide Current, WriteOp, Appended, Taken, Before;
    CurrentShaped(s, fd);
    if chunks == [] {
      EmptyWrite(s, fd);
    } else {
      var a, b := chunks[0], Joined(chunks[1..]);
      AfterFirst(s, fd, a, b);
      ChunksDoNotMatter(WriteOp(s, fd, a).0, fd, chunks[1..]);
      WritesCompose(s, fd, a, b);
    }
  }

  lemma EmptyWrite(s: FsState, fd: int)
    requires Shaped(s) && IsOpen(s.fds, fd)
    ensures WriteOp(s, fd, []) == (s, Reply(0, []))
  {
  }

  /* ---------- reading back ---------- */

  lemma SplicedPart(content: seq<Byte>, off: nat, bytes: seq<Byte>)
    requires off <= |content|
    ensures Splice(content, off, bytes)[off..off + |bytes|] == bytes
  {
  }

  // Write, seek back, read: the bytes written come back, and the state is as after the write.
  lemma WriteSeekRead(s: FsState, fd: int, bytes: Buffer)
    requires Current(s, fd) && s.fds[fd].offset + |bytes| < SIZE_T_LIMIT
    ensures Shaped(s)
    ensures var off := s.fds[fd].offset; var (s1, r1) := WriteOp(s, fd, bytes);
            var (s2, r2) := SeekOp(s1, fd, off);
            && 0 <= r1.ret <= |bytes| && r2 == Reply(0, [])
            && ReadOp(s2, fd, r1.ret) == (s1, Reply(r1.ret, bytes[..r1.ret]))
  {
    hide Current, WriteOp, Content, Splice, ReadOp;
    CurrentShaped(s, fd);
    WriteIsSplice(s, fd, bytes);
    var off := s.fds[fd].offset;
    var (s1, r1) := WriteOp(s, fd, bytes);
    WriteKeepsCurrent(s, fd, bytes);
    DescriptorMatches(s1, fd);
    OffsetKeepsCurrent(s1, fd, off);
    var s2 := SeekOp(s1, fd, off).0;
    ReadMeaning(s2, fd, r1.ret);
    SplicedPart(Content(s.img, s.fds[fd].slot), off, bytes[..r1.ret]);
    UpdateTwice(s1.fds, fd, s2.fds[fd], s1.fds[fd]);
    assert s1.fds[fd := s1.fds[fd]] == s1.fds;
  }

  lemma PartsJoin(content: seq<Byte>, i: nat, m: nat, k: nat)
    requires i + m + k <= |content|
    ensures content[i..i + m] + content[i + m..i + m + k] == content[i..i + m + k]
  {
  }

  // Two reads deliver the bytes of one read, and leave the same state.
  lemma ReadsCompose(s: FsState, fd: int, m: SizeT, k: SizeT)
    requires Current(s, fd) && s.fds[fd].offset + m + k < SIZE_T_LIMIT
    ensures var (s1, r1) := ReadOp(s, fd, m); var (s2, r2) := ReadOp(s1, fd, k);
            ReadOp(s, fd, m + k) == (s2, Reply(r1.ret + r2.ret, r1.bytes + r2.bytes))
            && s2.img == s.img
  {
    hide Current, Content, ReadOp;
    CurrentShaped(s, fd);
    ReadMeaning(s, fd, m);
    ReadMeaning(s, fd, m + k);
    ReadKeepsCurrent(s, fd, m);
    var s1 := ReadOp(s, fd, m).0;
    DescriptorMatches(s, fd);
    ReadMeaning(s1, fd, k);
    PartsJoin(Content(s.img, s.fds[fd].slot), s.fds[fd].offset, ReadOp(s, fd, m).1.ret, ReadOp(s1, fd, k).1.ret);
    UpdateTwice(s.fds, fd, s1.fds[fd], ReadOp(s1, fd, k).0.fds[fd]);
  }

  /* ---------- the life of a file ---------- */

  // Calls through one descriptor
  predicate ThroughFd(op: Op, fd: int) {
    match op
    case Stat(d) => d == fd
    case Seek(d, _) => d == fd
    case Write(d, _) => d == fd
    case Read(d, _) => d == fd
    case _ => false
  }

  // s differs from s0 only by the file in slot i, which descriptor fd has open
  ghost predicate OneMore(s0: FsState, s: FsState, i: nat, fd: nat, name: CString) {
    && i < |s.img.dir| == |s0.img.dir| && fd < |s.fds| == |s0.fds|
    && |s.img.data| == |s0.img.data|
    && s.occupied == s0.occupied + 1
    && s.fds[fd].inUse && s.fds[fd].slot == i && s.fds[fd := s0.fds[fd]] == s0.fds
    && s.img.dir[i].Name() == name && s.img.dir[i := s0.img.dir[i]] == s0.img.dir
    && Zeroed(s.img.fat, ChainOf(s.img, i)) == s0.img.fat
    && Files(s.img) - {name} == Files(s0.img)
  }

  lemma ZeroedGrown(fat: seq<nat>, c: seq<nat>, add: seq<nat>)
    requires forall x :: x in add && x < |fat| ==> fat[x] == 0
    ensures Zeroed(Relink(fat, c + add), c + add) == Zeroed(fat, c)
  {
  }

  // A write changes only the slot, the chain and the contents of its own file.
  lemma WriteKeepsOneMore(s0: FsState, s: FsState, i: nat, fd: nat, name: CString, bytes: Buffer)
    requires Current(s, fd) && OneMore(s0, s, i, fd, name)
    ensures Shaped(s) && OneMore(s0, WriteOp(s, fd, bytes).0, i, fd, name)
  {
    hide Current, WriteOp, WriteReady, Files, Content, Splice, Appended, Chain, Relink, Zeroed, Cleared, WriteAt;
    CurrentShaped(s, fd);
    var f := s.fds[fd];
    if f.offset + |bytes| >= SIZE_T_LIMIT {
      OverflowingWrite(s, fd, bytes);
    } else {
      var c, add, n := Before(s, fd), Appended(s.img, f, |bytes|), Taken(s, fd, |bytes|);
      DescriptorMatches(s, fd);
      WriteIsReady(s, fd, bytes);
      WriteOpIsAfter(s, fd, bytes);
      WrittenFiles(s, fd, bytes);
      WriteReadyFacts(s.img, f, c, add, bytes[..n]);
      WrittenChain(s.img, f, c, add, bytes[..n]);
      ZeroedGrown(s.img.fat, c, add);
      UpdateTwice(s.fds, fd, WriteOp(s, fd, bytes).0.fds[fd], s0.fds[fd]);
    }
  }

  lemma ThroughKeepsCurrent(s: FsState, fd: nat, op: Op)
    requires Current(s, fd) && ThroughFd(op, fd)
    ensures Shaped(s) && Current(Step(s, op).0, fd)
  {
    hide Current, WriteOp;
    CurrentShaped(s, fd);
    match op
    case Stat(_) =>
    case Write(_, bytes) => WriteKeepsCurrent(s, fd, bytes);
    case Seek(_, offset) => if offset <= s.fds[fd].size { OffsetKeepsCurrent(s, fd, offset); }
    case Read(_, count) => ReadKeepsCurrent(s, fd, count);
  }

  lemma StepKeepsOneMore(s0: FsState, s: FsState, i: nat, fd: nat, name: CString, op: Op)
    requires Current(s, fd) && OneMore(s0, s, i, fd, name) && ThroughFd(op, fd)
    ensures Shaped(s) && Current(Step(s, op).0, fd) && OneMore(s0, Step(s, op).0, i, fd, name)
  {
    hide Current, WriteOp, Files, Zeroed;
    CurrentShaped(s, fd);
    ThroughKeepsCurrent(s, fd, op);
    match op
    case Stat(_) =>
    case Write(_, bytes) => WriteKeepsOneMore(s0, s, i, fd, name, bytes);
    case Seek(_, offset) => UpdateTwice(s.fds, fd, s.fds[fd].(offset := offset), s0.fds[fd]);
    case Read(_, count) => UpdateTwice(s.fds, fd, ReadOp(s, fd, count).0.fds[fd], s0.fds[fd]);
  }

  lemma {:induction false} RunKeepsOneMore(s0: FsState, s: FsState, i: nat, fd: nat, name: CString, ops: seq<Op>)
    requires Current(s, fd) && OneMore(s0, s, i, fd, name) && forall k :: 0 <= k < |ops| ==> ThroughFd(ops[k], fd)
    ensures Inv(s) && Current(Run(s, ops), fd) && OneMore(s0, Run(s, ops), i, fd, name)
    decreases |ops|
  {
    hide Current, Step, OneMore, ThroughFd;
    CurrentShaped(s, fd);
    if ops != [] {
      StepKeepsOneMore(s0, s, i, fd, name, ops[0]);
      RunKeepsOneMore(s0, Step(s, ops[0]).0, i, fd, name, ops[1..]);
    }
  }

  // After create and open, the state has one more file and one more descriptor.
  lemma CreateOpenIsOneMore(s: FsState, name: CString)
    requires Exact(s) && FirstClosed(s.fds) < |s.fds| && CreateOp(s, name).1.ret == 0
    ensures Exact(CreateOp(s, name).0) && !NameOpen(s.fds, name)
    ensures var s2 := OpenOp(CreateOp(s, name).0, name).0; var i := FirstBlank(s.img.dir);
            && OpenOp(CreateOp(s, name).0, name).1 == Reply(FirstClosed(s.fds), [])
            && Exact(s2) && IsOpen(s2.fds, FirstClosed(s.fds)) && OneMore(s, s2, i, FirstClosed(s.fds), name)
  {
    hide Exact, Files, UntilNul, Content, Zeroed, Chain;
    var i, fd, s1 := FirstBlank(s.img.dir), FirstClosed(s.fds), CreateOp(s, name).0;
    CreatedSlot(s, name);
    ExactInv(s);
    NotYetOpen(s, name);
    OpenKeepsExact(s1, name);
    ZeroedNothing(s.img.fat);
  }

  // What fs_create did, when it succeeded
  lemma CreatedSlot(s: FsState, name: CString)
    requires Exact(s) && CreateOp(s, name).1.ret == 0
    ensures var s1 := CreateOp(s, name).0; var i := FirstBlank(s.img.dir);
            && Exact(s1) && i < |s.img.dir| && s1 == s.(img := s.img.(dir := s.img.dir[i := NewEntry(name)]))
            && ValidName(name) && NewEntry(name).Name() == name && FindName(s1.img.dir, name) == i
            && s.img.dir[i] == BLANK_ENTRY && s1.img.dir[i := BLANK_ENTRY] == s.img.dir
            && ChainOf(s1.img, i) == [] && Files(s1.img) - {name} == Files(s.img)
            && Counted(s.img)
  {
    hide Files, Content;
    var i := FirstBlank(s.img.dir);
    CreateKeepsExact(s, name);
    NewEntryName(name);
    HeadTerminates(s.img.fat, |s.img.data|, FAT_EOC);
    CreatedFiles(s.img, name, i);
    FileFound(s.img, name);
    assert EntryOk(s.img.dir[i]);
    FindNameAt(CreateOp(s, name).0.img.dir, i);
  }

  // A name that fs_create accepts is not open.
  lemma NotYetOpen(s: FsState, name: CString)
    requires Inv(s) && FindName(s.img.dir, name) == |s.img.dir|
    ensures !NameOpen(s.fds, name)
  {
  }

  // Close and delete undo create and open, whatever was done in between.
  lemma CloseDeleteUndo(s0: FsState, s: FsState, i: nat, fd: nat, name: CString)
    requires Exact(s0) && Current(s, fd) && OneMore(s0, s, i, fd, name) && ValidName(name)
    requires !NameOpen(s0.fds, name) && !s0.fds[fd].inUse && s0.img.dir[i] == BLANK_ENTRY
    ensures CloseOp(s, fd).1.ret == 0 && DeleteOp(CloseOp(s, fd).0, name).1.ret == 0
    ensures var s' := DeleteOp(CloseOp(s, fd).0, name).0;
            s'.img.fat == s0.img.fat && s'.img.dir == s0.img.dir && s'.fds == s0.fds && s'.occupied == s0.occupied
            && Files(s'.img) == Files(s0.img)
  {
    hide Exact, Current, Files, UntilNul, Content, Zeroed, Chain, FindName;
    var s4 := CloseOp(s, fd).0;
    CurrentShaped(s, fd);
    CloseKeepsInv(s, fd);
    ClosedFd(s0, fd);
    assert s4.fds == s0.fds;
    SlotName(s4, i);
    assert DeleteOp(s4, name).0.img == Removed(s4.img, i);
    RemovedAbs(s4.img, i);
  }

  lemma ClosedFd(s: FsState, fd: nat)
    requires Exact(s) && fd < |s.fds| && !s.fds[fd].inUse
    ensures s.fds[fd] == CLOSED
  {
  }

  lemma SlotName(s: FsState, i: nat)
    requires Inv(s) && i < |s.img.dir| && ValidName(s.img.dir[i].Name())
    ensures ImageOk(s.img) && s.img.dir[i].InUse() && FindName(s.img.dir, s.img.dir[i].Name()) == i
  {
  }

  // Create, open, any calls through the descriptor, close, delete: table, directory and descriptors
  // are as before bit for bit, and every other file has its contents.
  lemma LifeCycle(s: FsState, name: CString, ops: seq<Op>)
    requires Exact(s) && FirstClosed(s.fds) < |s.fds| && CreateOp(s, name).1.ret == 0
    requires forall k :: 0 <= k < |ops| ==> ThroughFd(ops[k], FirstClosed(s.fds))
    ensures var fd := FirstClosed(s.fds); var s2 := OpenOp(CreateOp(s, name).0, name).0;
            && OpenOp(CreateOp(s, name).0, name).1.ret == fd && Inv(s2)
            && var s4 := CloseOp(Run(s2, ops), fd);
               var s5 := DeleteOp(s4.0, name);
            && s4.1.ret == 0 && s5.1.ret == 0
            && s5.0.img.fat == s.img.fat && s5.0.img.dir == s.img.dir
            && s5.0.fds == s.fds && s5.0.occupied == s.occupied
            && Files(s5.0.img) == Files(s.img)
  {
    hide Exact, Current, Files, CreateOp, OpenOp, CloseOp, DeleteOp, OneMore, ThroughFd;
    var i, fd := FirstBlank(s.img.dir), FirstClosed(s.fds);
    var s2 := OpenOp(CreateOp(s, name).0, name).0;
    CreatedSlot(s, name);
    CreateOpenIsOneMore(s, name);
    ExactInv(s2);
    ExactCurrent(s2, fd);
    RunKeepsOneMore(s, s2, i, fd, name, ops);
    CloseDeleteUndo(s, Run(s2, ops), i, fd, name);
  }

  /* ---------- persistence ---------- */

  // What a descriptor reads is what a fresh descriptor reads after unmounting and mounting again:
  // nothing that was written through a descriptor lives only in memory.
  lemma ViewSurvivesRemount(s: FsState, fd: int, count: SizeT)
    requires Current(s, fd)
    ensures s.fds[fd].filename.Some?
    ensures var name := s.fds[fd].filename.value; var s1 := RemountOp(s).0;
            var (s2, r2) := OpenOp(s1, name); var (s3, r3) := SeekOp(s2, r2.ret, s.fds[fd].offset);
            && Files(s1.img) == Files(s.img)
            && r2.ret == 0 && r3.ret == 0
            && ReadOp(s3, r2.ret, count).1 == ReadOp(s, fd, count).1
  {
    hide Exact, Current, Files, UntilNul, Content, FindName, ReadOp, ImageExact, Inv;
    CurrentShaped(s, fd);
    var f := s.fds[fd];
    DescriptorMatches(s, fd);
    FdNames(s, fd);
    var name, s1 := f.filename.value, RemountOp(s).0;
    RemountRestoresExact(s);
    OpenKeepsExact(s1, name);
    var s2 := OpenOp(s1, name).0;
    ExactCurrent(s2, 0);
    DescriptorMatches(s2, 0);
    OffsetKeepsCurrent(s2, 0, f.offset);
    ReadMeaning(s, fd, count);
    ReadMeaning(SeekOp(s2, 0, f.offset).0, 0, count);
  }

  lemma FdNames(s: FsState, fd: int)
    requires Current(s, fd)
    ensures var f := s.fds[fd];
            f.slot < |s.img.dir| && f.filename == Some(s.img.dir[f.slot].Name())
            && ValidName(s.img.dir[f.slot].Name()) && FindName(s.img.dir, s.img.dir[f.slot].Name()) == f.slot
  {
  }

  /* ---------- the directory as a map of at most 128 names ---------- */

  lemma CreateSucceedsIff(s: FsState, name: CString)
    requires Inv(s)
    ensures CreateOp(s, name).1.ret == 0 <==>
            1 <= |name| <= 15 && 47 !in name && name !in Files(s.img) && |Files(s.img)| < 128
    ensures CreateOp(s, name).1.ret != 0 ==> CreateOp(s, name) == (s, Reply(-1, []))
    ensures CreateOp(s, name).1.ret == 0 ==>
            var s' := CreateOp(s, name).0;
            && Files(s'.img) == Files(s.img)[name := []]
            && s' == s.(img := s.img.(dir := s'.img.dir))
            && |s'.img.dir| == |s.img.dir|
            && exists i :: 0 <= i < |s.img.dir| && !s.img.dir[i].InUse() && s'.img.dir == s.img.dir[i := NewEntry(name)]
  {
    hide UntilNul, FindName, Content, FreeList, Files, ImageOk;
    InvCounted(s);
    CreateRefines(s, name);
  }

  // The 32 bytes that fs_create puts in the lowest blank record: the name, zeros, and the end marker as first block
  lemma CreatedRecord(s: FsState, name: CString, i: nat)
    requires Inv(s) && CreateOp(s, name).1.ret == 0
    requires i < |s.img.dir| && !s.img.dir[i].InUse() && forall j :: 0 <= j < i ==> s.img.dir[j].InUse()
    ensures var e := CreateOp(s, name).0.img.dir;
            e == s.img.dir[i := e[i]] && e[i].WellSized() && |EncodeEntry(e[i])| == 32
            && forall p :: 0 <= p < 32 ==>
                 EncodeEntry(e[i])[p] == if p < |name| then name[p] else if p == 20 || p == 21 then 255 else 0
  {
    hide UntilNul, FindName, ImageOk;
  }

  lemma InvCounted(s: FsState)
    requires Inv(s)
    ensures ImageOk(s.img) && Counted(s.img) && |Files(s.img)| <= FILE_MAX_COUNT
  {
    CountNames(s.img.dir);
    FilesKeys(s.img);
    assert |Files(s.img).Keys| == |Files(s.img)|;
  }

  lemma DeleteSucceedsIff(s: FsState, name: CString)
    requires Inv(s)
    ensures DeleteOp(s, name).1.ret == 0 <==>
            1 <= |name| <= 15 && 47 !in name && name in Files(s.img)
            && !exists k :: 0 <= k < |s.fds| && s.fds[k].inUse && s.fds[k].filename == Some(name)
    ensures DeleteOp(s, name).1.ret != 0 ==> DeleteOp(s, name) == (s, Reply(-1, []))
    ensures DeleteOp(s, name).1.ret == 0 ==>
            Files(DeleteOp(s, name).0.img) == Files(s.img) - {name}
            && forall j :: 0 <= j < |s.img.dir| && s.img.dir[j].Name() != name ==>
                 DeleteOp(s, name).0.img.dir[j] == s.img.dir[j]
  {
    hide Content, UntilNul, Chain;
    if ValidName(name) {
      FileFound(s.img, name);
      var i := FindName(s.img.dir, name);
      if i < |s.img.dir| { RemovedFiles(s.img, i); }
    }
  }

  predicate OpensAtStart(img: Image, name: CString, f: Fd) {
    && f.inUse && f.filename == Some(name) && f.offset == 0
    && f.slot < |img.dir| && img.dir[f.slot].Name() == name
    && f.first == img.dir[f.slot].index && f.size == if f.first == 65535 then 0 else img.dir[f.slot].size
  }

  // fs_open needs an existing file and a closed descriptor, takes the lowest one, and opens it at the start of the
  // file with the size and first block of the record.
  lemma OpenSucceedsIff(s: FsState, name: CString)
    requires Inv(s)
    ensures OpenOp(s, name).1.ret >= 0 <==>
            1 <= |name| <= 15 && 47 !in name && name in Files(s.img) && s.occupied < 32
    ensures OpenOp(s, name).1.ret < 0 ==> OpenOp(s, name) == (s, Reply(-1, []))
    ensures OpenOp(s, name).1.ret >= 0 ==>
            var (s', r) := OpenOp(s, name);
            && |s.fds| == |s'.fds| == 32 && r == Reply(r.ret, []) && r.ret < 32
            && !s.fds[r.ret].inUse && (forall k :: 0 <= k < r.ret ==> s.fds[k].inUse)
            && s'.img == s.img && s'.occupied == s.occupied + 1 && s'.fds == s.fds[r.ret := s'.fds[r.ret]]
            && OpensAtStart(s.img, name, s'.fds[r.ret])
  {
    hide UntilNul, FindName, Files, FirstClosed, CountInUse;
    InvSizes(s);
    CountExtremes(s.fds);
    if ValidName(name) { FileFound(s.img, name); }
  }
}
