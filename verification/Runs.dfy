/**
 Whole runs: safety with any use of descriptors, and refinement of the file map as long as nobody uses
 a descriptor that was left behind while its file grew.
 */
module Runs {
  import opened Layout
  import opened Chains
  import opened Forests
  import opened Allocation
  import opened Semantics
  import opened Structure
  import opened Exactness
  import opened Writing
  import opened FileMap
  import opened Refinement

  /* ---------- any run, files opened any number of times ---------- */

  // The table stays a forest, and every walk of it ends.
  lemma RunKeepsForest(s: FsState, ops: seq<Op>)
    requires Inv(s)
    ensures var fat := Run(s, ops).img.fat; var n := |Run(s, ops).img.data|;
            && n <= |fat| && n > 0 && fat[0] == FAT_EOC
            && (forall i :: 0 < i < n && fat[i] != 0 ==> SuccessorOk(fat, n, i) && Terminates(fat, i))
            && (forall i, j :: 0 <= i < j < |fat| && fat[i] == fat[j] ==> fat[i] == 0 || fat[i] == FAT_EOC)
    ensures var img := Run(s, ops).img;
            forall i :: 0 <= i < |img.dir| && img.dir[i].InUse() && img.dir[i].index != FAT_EOC
              ==> img.dir[i].index !in img.fat
  {
    var img := Run(s, ops).img;
    forall i | 0 < i < |img.data| && img.fat[i] != 0
      ensures SuccessorOk(img.fat, |img.data|, i) && Terminates(img.fat, i)
    {
      SuccessorLive(img.fat, |img.data|, i);
    }
    forall i, j | 0 <= i < j < |img.fat| && img.fat[i] == img.fat[j]
      ensures img.fat[i] == 0 || img.fat[i] == FAT_EOC
    {
      assert Unjoined(img.fat, i, j);
    }
  }

  predicate SuccessorOk(fat: seq<nat>, n: nat, i: nat)
    requires i < n <= |fat|
  {
    fat[i] == FAT_EOC || (0 < fat[i] < n && fat[fat[i]] != 0)
  }

  // isOpenByName, with its shortcut through the number of open descriptors
  predicate IsOpenByName(s: FsState, name: CString) {
    s.occupied != 0 && NameOpen(s.fds, name)
  }

  // Descriptors stay accounted for: counted, reset when closed, and on a live record when open.
  lemma RunKeepsDescriptors(s: FsState, ops: seq<Op>)
    requires Inv(s)
    ensures var t := Run(s, ops);
            && t.occupied == CountInUse(t.fds)
            && (forall i :: 0 <= i < |t.fds| && !t.fds[i].inUse ==> t.fds[i] == CLOSED)
            && (forall i :: 0 <= i < |t.fds| && t.fds[i].inUse ==>
                  t.fds[i].slot < |t.img.dir| && t.img.dir[t.fds[i].slot].InUse()
                  && t.fds[i].filename == Some(t.img.dir[t.fds[i].slot].Name()))
            && (forall name: CString :: IsOpenByName(t, name) <==> NameOpen(t.fds, name))
  {
    var t := Run(s, ops);
    CountExtremes(t.fds);
    forall i | 0 <= i < |t.fds| ensures FdOk(t.img, t.fds[i]) {
    }
  }

  /* ---------- runs as runs of the file map ---------- */

  // No call goes through a descriptor that was left behind
  ghost predicate Careful(s: FsState, ops: seq<Op>)
    requires Inv(s)
    decreases |ops|
  {
    if ops == [] then true
    else
      StepKeepsInv(s, ops[0]);
      !ThroughLeftBehind(s, ops[0]) && Careful(Step(s, ops[0]).0, ops[1..])
  }

  // No call extends a file that another descriptor has open
  ghost predicate Disciplined(s: FsState, ops: seq<Op>)
    requires Inv(s)
    decreases |ops|
  {
    if ops == [] then true
    else
      StepKeepsInv(s, ops[0]);
      !ExtendsShared(s, ops[0]) && Disciplined(Step(s, ops[0]).0, ops[1..])
  }

  ghost function Replies(s: FsState, ops: seq<Op>): seq<Reply>
    requires Inv(s)
    decreases |ops|
  {
    if ops == [] then []
    else
      StepKeepsInv(s, ops[0]);
      [Step(s, ops[0]).1] + Replies(Step(s, ops[0]).0, ops[1..])
  }

  // The abstract run, which stops at a state it cannot continue from
  ghost function AbsRun(a: AbsState, ops: seq<Op>): (AbsState, seq<Reply>)
    decreases |ops|
  {
    if ops == [] || !AbsValid(a) then (a, [])
    else
      var (b, r) := AbsStep(a, ops[0]);
      var (c, rs) := AbsRun(b, ops[1..]);
      (c, [r] + rs)
  }

  // A whole run gives the answers of the abstract file map and ends in a state that represents its state,
  // also past the point where a shared file was extended.
  lemma {:induction false} RunRefines(s: FsState, ops: seq<Op>)
    requires Sound(s) && Careful(s, ops)
    ensures Sound(Run(s, ops)) && Counted(s.img) && Counted(Run(s, ops).img)
    ensures (Abs(Run(s, ops)), Replies(s, ops)) == AbsRun(Abs(s), ops)
    decreases |ops|
  {
    hide Sound, Abs, AbsStep, Step, ThroughLeftBehind, AbsValid;
    SoundParts(s);
    if ops != [] {
      OneStep(s, ops[0]);
      RunRefines(Step(s, ops[0]).0, ops[1..]);
    }
  }

  lemma OneStep(s: FsState, op: Op)
    requires Sound(s) && !ThroughLeftBehind(s, op)
    ensures Shaped(s) && Counted(s.img) && Inv(Step(s, op).0) && Sound(Step(s, op).0) && Counted(Step(s, op).0.img)
    ensures AbsValid(Abs(s)) && (Abs(Step(s, op).0), Step(s, op).1) == AbsStep(Abs(s), op)
  {
    hide Sound, AbsStep, Step, ThroughLeftBehind, AbsValid, Abs;
    StepRefines(s, op);
    StepKeepsSound(s, op);
    SoundParts(Step(s, op).0);
  }

  // A run that extends no shared file leaves nobody behind, so all its calls are careful.
  lemma {:induction false} DisciplinedRun(s: FsState, ops: seq<Op>)
    requires Exact(s) && Inv(s) && Disciplined(s, ops)
    ensures Careful(s, ops) && Exact(Run(s, ops))
    decreases |ops|
  {
    hide Exact, Step, Sound, ExtendsShared, LeftBehind;
    if ops != [] {
      ExactIsSound(s);
      StepKeepsInv(s, ops[0]);
      StepKeepsExact(s, ops[0]);
      DisciplinedRun(Step(s, ops[0]).0, ops[1..]);
    }
  }

  // What a careful run guarantees of the disk and the descriptors, spelled out: every allocated block but
  // block 0 is on the chain of exactly one file, chains have the length their sizes need, a file without
  // blocks is an empty one, and no descriptor takes its file for longer than it is. If no shared file was
  // extended, each descriptor has the size and first block of its record.
  lemma RunKeepsOwnership(s: FsState, ops: seq<Op>)
    requires Sound(s) && Careful(s, ops)
    ensures var img := Run(s, ops).img;
            && |img.data| <= |img.fat|
            && (forall x :: 0 < x < |img.data| && img.fat[x] != 0 ==> OnSomeChain(img, x))
            && (forall i, j :: 0 <= i < |img.dir| && 0 <= j < |img.dir| && i != j && img.dir[i].InUse() && img.dir[j].InUse()
                  ==> Disjoint(ChainOf(img, i), ChainOf(img, j)))
            && (forall i :: 0 <= i < |img.dir| && img.dir[i].InUse() ==>
                  |ChainOf(img, i)| == BlocksFor(img.dir[i].size)
                  && (img.dir[i].index == FAT_EOC <==> img.dir[i].size == 0))
    ensures var t := Run(s, ops);
            forall i :: 0 <= i < |t.fds| && t.fds[i].inUse ==>
              && t.fds[i].slot < |t.img.dir| && t.fds[i].size <= t.img.dir[t.fds[i].slot].size
              && (Exact(s) && Disciplined(s, ops) ==> t.fds[i].size == t.img.dir[t.fds[i].slot].size
                                                      && t.fds[i].first == t.img.dir[t.fds[i].slot].index)
  {
    hide Exact, Sound, Run, Chain, Disciplined, Careful, Inv;
    SoundParts(s);
    RunRefines(s, ops);
    var t := Run(s, ops);
    SoundParts(t);
    forall i, j | 0 <= i < |t.img.dir| && 0 <= j < |t.img.dir| && i != j && t.img.dir[i].InUse() && t.img.dir[j].InUse()
      ensures Disjoint(ChainOf(t.img, i), ChainOf(t.img, j))
    {
      FilesDisjoint(t.img, i, j);
    }
    forall i | 0 <= i < |t.img.dir| && t.img.dir[i].InUse()
      ensures |ChainOf(t.img, i)| == BlocksFor(t.img.dir[i].size)
      ensures t.img.dir[i].index == FAT_EOC <==> t.img.dir[i].size == 0
    {
      EmptyIffNoBlock(t.img, i);
    }
    if Exact(s) && Disciplined(s, ops) { DisciplinedRun(s, ops); }
    forall i | 0 <= i < |t.fds| && t.fds[i].inUse
      ensures t.fds[i].slot < |t.img.dir| && t.fds[i].size <= t.img.dir[t.fds[i].slot].size
      ensures Exact(t) ==> t.fds[i].size == t.img.dir[t.fds[i].slot].size
                           && t.fds[i].first == t.img.dir[t.fds[i].slot].index
    {
      SoundFd(t, i);
      if Exact(t) {
        ExactCurrent(t, i);
        DescriptorMatches(t, i);
      }
    }
  }

  lemma SoundFd(s: FsState, i: nat)
    requires Sound(s) && i < |s.fds| && s.fds[i].inUse
    ensures s.fds[i].slot < |s.img.dir| && s.fds[i].size <= s.img.dir[s.fds[i].slot].size
  {
    assert Within(s.img, s.fds[i]);
  }

  // No call changes the number of data blocks.
  lemma {:induction false} RunKeepsSize(s: FsState, ops: seq<Op>)
    requires Inv(s)
    ensures |Run(s, ops).img.data| == |s.img.data|
    decreases |ops|
  {
    hide Inv;
    if ops != [] {
      StepKeepsInv(s, ops[0]);
      RunKeepsSize(Step(s, ops[0]).0, ops[1..]);
    }
  }

  /* ---------- conservation of blocks ---------- */

  // Blocks of the files in the first k slots
  function TotalBlocks(img: Image, k: nat): nat
    requires k <= |img.dir|
  {
    if k == 0 then 0
    else TotalBlocks(img, k - 1) + (if img.dir[k - 1].InUse() then |ChainOf(img, k - 1)| else 0)
  }

  ghost function UsedBlocks(img: Image, k: nat): set<nat>
    requires k <= |img.dir|
  {
    if k == 0 then {}
    else UsedBlocks(img, k - 1) + (if img.dir[k - 1].InUse() then Elements(ChainOf(img, k - 1)) else {})
  }

  lemma {:induction false} UsedBlocksMeaning(img: Image, k: nat, x: nat)
    requires k <= |img.dir|
    ensures x in UsedBlocks(img, k) <==> exists i :: 0 <= i < k && img.dir[i].InUse() && x in ChainOf(img, i)
  {
    if k > 0 { UsedBlocksMeaning(img, k - 1, x); }
  }

  lemma UsedApart(img: Image, k: nat)
    requires ImageOk(img) && k < |img.dir| && img.dir[k].InUse()
    ensures UsedBlocks(img, k) !! Elements(ChainOf(img, k))
  {
    hide ImageOk, Chain;
    forall x | x in ChainOf(img, k) ensures x !in UsedBlocks(img, k) {
      UsedBlocksMeaning(img, k, x);
      if i :| 0 <= i < k && img.dir[i].InUse() && x in ChainOf(img, i) {
        FilesDisjoint(img, i, k);
      }
    }
  }

  lemma CountApart(a: set<nat>, b: set<nat>)
    requires a !! b
    ensures |a + b| == |a| + |b|
  {
  }

  lemma UsedStep(img: Image, k: nat)
    requires k < |img.dir|
    ensures !img.dir[k].InUse() ==>
              UsedBlocks(img, k + 1) == UsedBlocks(img, k) && TotalBlocks(img, k + 1) == TotalBlocks(img, k)
    ensures img.dir[k].InUse() ==>
              UsedBlocks(img, k + 1) == UsedBlocks(img, k) + Elements(ChainOf(img, k))
              && TotalBlocks(img, k + 1) == TotalBlocks(img, k) + |ChainOf(img, k)|
  {
    hide ChainOf, Elements, UntilNul;
  }

  lemma {:induction false} CountUsed(img: Image, k: nat)
    requires ImageOk(img) && k <= |img.dir|
    ensures |UsedBlocks(img, k)| == TotalBlocks(img, k)
  {
    hide ImageOk, ChainOf, Elements, Distinct, UsedBlocks, TotalBlocks;
    if k == 0 {
      NoneUsed(img);
    } else {
      CountUsed(img, k - 1);
      UsedStep(img, k - 1);
      if img.dir[k - 1].InUse() {
        SlotChainDistinct(img, k - 1);
        CountElements(ChainOf(img, k - 1));
        UsedApart(img, k - 1);
        CountApart(UsedBlocks(img, k - 1), Elements(ChainOf(img, k - 1)));
      }
    }
  }

  lemma NoneUsed(img: Image)
    ensures UsedBlocks(img, 0) == {} && TotalBlocks(img, 0) == 0
  {
  }

  lemma SlotChainDistinct(img: Image, i: nat)
    requires ImageOk(img) && i < |img.dir| && img.dir[i].InUse()
    ensures Distinct(ChainOf(img, i))
  {
    HeadTerminates(img.fat, |img.data|, img.dir[i].index);
    LinkedDistinct(img.fat, img.dir[i].index, ChainOf(img, i));
  }

  // Free blocks, blocks of files and the reserved block 0 are never more than all the data blocks, and they
  // are all of them exactly when no block was lost.
  lemma Conservation(img: Image)
    requires ImageOk(img)
    ensures |img.data| <= |img.fat|
    ensures var sum := |FreeList(img.fat, |img.data|)| + TotalBlocks(img, |img.dir|) + 1;
            sum <= |img.data| && (sum == |img.data| <==> NoLeak(img))
  {
    hide ImageOk, FreeList, NoLeak, UsedBlocks, TotalBlocks, Elements;
    NoChain(img);
    var n := |img.data|;
    var free, used := Elements(FreeList(img.fat, n)), UsedBlocks(img, |img.dir|);
    CountUsed(img, |img.dir|);
    FreeListMeaning(img.fat, n);
    CountElements(FreeList(img.fat, n));
    BlocksApart(img);
    CountApart(free, used);
    CountApart(free + used, {0});
    CountBelow(n);
    CountSubset(free + used + {0}, Below(n));
    AllUsedIff(img);
  }

  lemma CountSubset(a: set<nat>, b: set<nat>)
    requires a <= b
    ensures |a| <= |b| && (|a| == |b| <==> a == b)
  {
    assert b == a + (b - a);
    CountApart(a, b - a);
  }

  // Block 0, the free blocks and the blocks of files are different data blocks.
  lemma BlocksApart(img: Image)
    requires ImageOk(img) && |img.data| <= |img.fat|
    ensures Elements(FreeList(img.fat, |img.data|)) !! UsedBlocks(img, |img.dir|)
    ensures 0 !in Elements(FreeList(img.fat, |img.data|)) && 0 !in UsedBlocks(img, |img.dir|)
    ensures Elements(FreeList(img.fat, |img.data|)) + UsedBlocks(img, |img.dir|) + {0} <= Below(|img.data|)
  {
    hide UntilNul, UsedBlocks, Below, Chain;
    var n := |img.data|;
    var fat0 := img.fat[0];
    FreeListMeaning(img.fat, n);
    forall x: nat
      ensures x in UsedBlocks(img, |img.dir|) ==> 0 < x < n && img.fat[x] != 0
      ensures x in Below(n) <==> x < n
    {
      BlockUse(img, x);
      InBelow(n, x);
    }
  }

  // A data block that is none of these was lost.
  lemma AllUsedIff(img: Image)
    requires ImageOk(img) && |img.data| <= |img.fat|
    ensures Elements(FreeList(img.fat, |img.data|)) + UsedBlocks(img, |img.dir|) + {0} == Below(|img.data|)
       <==> NoLeak(img)
  {
    hide UntilNul, UsedBlocks, Below, Chain, ImageOk, OnSomeChain;
    var n := |img.data|;
    BlocksApart(img);
    FreeListMeaning(img.fat, n);
    var all := Elements(FreeList(img.fat, n)) + UsedBlocks(img, |img.dir|) + {0};
    forall x: nat
      ensures x in UsedBlocks(img, |img.dir|) <==> OnSomeChain(img, x)
      ensures x in Below(n) <==> x < n
    {
      BlockUse(img, x);
      InBelow(n, x);
    }
    if all == Below(n) {
      forall x | 0 < x < n && img.fat[x] != 0 ensures OnSomeChain(img, x) {
        assert x in all;
      }
    }
    if NoLeak(img) {
      forall x | x in Below(n) ensures x in all {
      }
    }
  }

  lemma BlockUse(img: Image, x: nat)
    requires ImageOk(img) && |img.data| <= |img.fat|
    ensures x in UsedBlocks(img, |img.dir|) <==> OnSomeChain(img, x)
    ensures x in UsedBlocks(img, |img.dir|) ==> 0 < x < |img.data| && img.fat[x] != 0
  {
    hide UntilNul, UsedBlocks, Chain;
    UsedBlocksMeaning(img, |img.dir|, x);
    if i :| 0 <= i < |img.dir| && img.dir[i].InUse() && x in ChainOf(img, i) {
      HeadTerminates(img.fat, |img.data|, img.dir[i].index);
      ElementLive(img.fat, |img.data|, img.dir[i].index, x);
    }
  }

  ghost function Below(n: nat): set<nat> {
    if n == 0 then {} else Below(n - 1) + {n - 1}
  }

  lemma {:induction false} InBelow(n: nat, x: nat)
    ensures x in Below(n) <==> x < n
  {
    if n > 0 { InBelow(n - 1, x); }
  }

  lemma {:induction false} CountBelow(n: nat)
    ensures |Below(n)| == n
  {
    if n > 0 {
      CountBelow(n - 1);
      InBelow(n - 1, n - 1);
    }
  }
}
