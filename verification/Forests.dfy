/** The invariant of the whole table: it is a forest of disjoint chains, and how it survives change. */
module Forests {
  import opened Layout
  import opened Chains

  // Entries i and j do not point to the same block
  ghost predicate Unjoined(fat: seq<nat>, i: nat, j: nat)
    requires i < |fat| && j < |fat|
  {
    fat[i] == fat[j] ==> fat[i] == 0 || fat[i] == FAT_EOC
  }

  ghost predicate SuccessorsDistinct(fat: seq<nat>) {
    forall i, j {:trigger Unjoined(fat, i, j)} :: 0 <= i < |fat| && 0 <= j < |fat| && i != j ==> Unjoined(fat, i, j)
  }

  ghost predicate AllTerminate(fat: seq<nat>, n: nat)
    requires n <= |fat|
  {
    forall i {:trigger Terminates(fat, i)} :: 0 <= i < n && fat[i] != 0 ==> Terminates(fat, i)
  }

  // n is the number of data blocks; the table is padded with free entries to whole blocks
  ghost predicate Forest(fat: seq<nat>, n: nat) {
    && 1 <= n <= |fat| && n <= MAX_DATA_BLOCKS
    && fat[0] == FAT_EOC
    && (forall i :: n <= i < |fat| ==> fat[i] == 0)
    && SuccessorsDistinct(fat)
    && AllTerminate(fat, n)
  }

  // An allocated block that no entry points to
  ghost predicate Root(fat: seq<nat>, n: nat, b: nat) {
    0 < b < n <= |fat| && fat[b] != 0 && b !in fat
  }

  // What a directory record or a descriptor may hold as its first block
  ghost predicate IsHead(fat: seq<nat>, n: nat, b: nat) {
    b == FAT_EOC || Root(fat, n, b)
  }

  ghost predicate Disjoint(c: seq<nat>, d: seq<nat>) {
    forall x :: x in c ==> x !in d
  }

  // Blocks that can be handed out: distinct, inside the data area, and marked free
  ghost predicate Fresh(fat: seq<nat>, n: nat, bs: seq<nat>)
    requires n <= |fat|
  {
    Distinct(bs) && forall k :: 0 <= k < |bs| ==> 0 < bs[k] < n && fat[bs[k]] == 0
  }

  // Every entry is free, the end marker, or the index of another allocated data block.
  lemma SuccessorLive(fat: seq<nat>, n: nat, i: nat)
    requires Forest(fat, n) && i < |fat|
    ensures fat[i] == 0 || fat[i] == FAT_EOC || (0 < fat[i] < n && fat[fat[i]] != 0)
  {
    if fat[i] != 0 {
      assert Terminates(fat, i);
      var c := Chain(fat, i);
      assert fat[c[0]] == Next(c, 0);
      if |c| > 1 {
        assert fat[c[1]] != 0;
      }
    }
  }

  lemma HeadTerminates(fat: seq<nat>, n: nat, b: nat)
    requires Forest(fat, n) && IsHead(fat, n, b)
    ensures Terminates(fat, b)
    ensures b == FAT_EOC <==> Chain(fat, b) == []
  {
  }

  lemma ForestBounds(fat: seq<nat>, n: nat)
    requires Forest(fat, n)
    ensures 1 <= n <= |fat| && n <= MAX_DATA_BLOCKS
  {
  }

  // The chain of a file that has blocks
  lemma RootChain(fat: seq<nat>, n: nat, b: nat)
    requires Forest(fat, n) && Root(fat, n, b)
    ensures b != FAT_EOC && Terminates(fat, b) && Chain(fat, b) != [] && Head(Chain(fat, b)) == b
  {
    HeadTerminates(fat, n, b);
  }

  // Every block of a file's chain is an allocated data block other than block 0.
  lemma ElementLive(fat: seq<nat>, n: nat, b: nat, x: nat)
    requires Forest(fat, n) && b != 0 && Terminates(fat, b) && x in Chain(fat, b)
    ensures 0 < x < n && fat[x] != 0
  {
    var c := Chain(fat, b);
    var k := IndexOf(c, x);
    assert fat[c[k]] != 0;
    if k > 0 {
      assert fat[c[k - 1]] == Next(c, k - 1) == c[k];
    }
  }

  lemma SamePredecessor(fat: seq<nat>, i: nat, j: nat)
    requires SuccessorsDistinct(fat) && i < |fat| && j < |fat|
    requires fat[i] == fat[j] && fat[i] != 0 && fat[i] != FAT_EOC
    ensures i == j
  {
    assert i != j ==> Unjoined(fat, i, j);
  }

  // Chains can only meet if the one that starts at a root contains the other's start.
  lemma {:induction false} TraceBack(fat: seq<nat>, n: nat, c: seq<nat>, d: seq<nat>, k: nat, j: nat)
    requires SuccessorsDistinct(fat) && Linked(fat, Head(c), c) && Linked(fat, Head(d), d)
    requires k < |c| && j < |d| && c[k] == d[j] && c[0] !in fat
    ensures d[0] in c
  {
    if j > 0 {
      assert fat[d[j - 1]] == Next(d, j - 1) == d[j];
      if k > 0 {
        assert fat[c[k - 1]] == Next(c, k - 1) == c[k];
        SamePredecessor(fat, c[k - 1], d[j - 1]);
        TraceBack(fat, n, c, d, k - 1, j - 1);
      }
    }
  }

  lemma ChainsDisjoint(fat: seq<nat>, n: nat, r: nat, b: nat)
    requires Forest(fat, n) && Root(fat, n, r) && Terminates(fat, b)
    requires b !in Chain(fat, r)
    ensures Disjoint(Chain(fat, r), Chain(fat, b))
  {
    assert Terminates(fat, r);
    var c, d := Chain(fat, r), Chain(fat, b);
    forall x | x in c ensures x !in d {
      if x in d {
        TraceBack(fat, n, c, d, IndexOf(c, x), IndexOf(d, x));
      }
    }
  }

  // A root is on no chain but its own.
  lemma RootOnlyInOwn(fat: seq<nat>, n: nat, r: nat, b: nat)
    requires Forest(fat, n) && Root(fat, n, r) && Terminates(fat, b) && b != r
    ensures r !in Chain(fat, b)
  {
    var c := Chain(fat, b);
    if r in c {
      var k := IndexOf(c, r);
      var before := Next(c, k - 1);
    }
  }

  lemma HeadsDisjoint(fat: seq<nat>, n: nat, a: nat, b: nat)
    requires Forest(fat, n) && IsHead(fat, n, a) && IsHead(fat, n, b) && a != b
    ensures Terminates(fat, a) && Terminates(fat, b)
    ensures Disjoint(Chain(fat, a), Chain(fat, b))
  {
    HeadTerminates(fat, n, a);
    HeadTerminates(fat, n, b);
    if a != FAT_EOC && b != FAT_EOC {
      RootOnlyInOwn(fat, n, b, a);
      ChainsDisjoint(fat, n, a, b);
    }
  }

  /* ---------- appending fresh blocks to one chain ---------- */

  // c is the chain of a file and add are the free blocks about to be appended to it
  ghost predicate Growth(fat: seq<nat>, n: nat, c: seq<nat>, add: seq<nat>) {
    Forest(fat, n) && IsHead(fat, n, Head(c)) && Linked(fat, Head(c), c) && Fresh(fat, n, add)
  }

  lemma GrowthElements(fat: seq<nat>, n: nat, c: seq<nat>, add: seq<nat>)
    requires Growth(fat, n, c, add)
    ensures Distinct(c + add) && Chain(fat, Head(c)) == c
    ensures forall x :: x in c + add ==> 0 < x < n
    ensures Linked(Relink(fat, c + add), Head(c + add), c + add)
    ensures Chain(Relink(fat, c + add), Head(c + add)) == c + add
  {
    ChainUnique(fat, Head(c), c);
    LinkedDistinct(fat, Head(c), c);
    forall x | x in c ensures 0 < x < n && fat[x] != 0 {
      ElementLive(fat, n, Head(c), x);
    }
    RelinkLinked(fat, c + add);
  }

  // Every other chain survives.
  lemma GrowthFrame(fat: seq<nat>, n: nat, c: seq<nat>, add: seq<nat>, b: nat)
    requires Growth(fat, n, c, add)
    requires Terminates(fat, b) && Disjoint(c, Chain(fat, b))
    ensures Terminates(Relink(fat, c + add), b) && Chain(Relink(fat, c + add), b) == Chain(fat, b)
  {
    var d := Chain(fat, b);
    forall x | 0 <= x < |fat| && x in d ensures x !in c + add {
      assert fat[d[IndexOf(d, x)]] != 0;
    }
    ChainFrame(fat, Relink(fat, c + add), b);
  }

  lemma GrowthSuccessors(fat: seq<nat>, n: nat, c: seq<nat>, add: seq<nat>)
    requires Growth(fat, n, c, add)
    ensures SuccessorsDistinct(Relink(fat, c + add))
  {
    hide Growth, Relink, Unjoined;
    forall i, j | 0 <= i < |fat| && 0 <= j < |fat| && i != j ensures Unjoined(Relink(fat, c + add), i, j) {
      GrowthUnjoined(fat, n, c, add, i, j);
    }
  }

  lemma GrowthUnjoined(fat: seq<nat>, n: nat, c: seq<nat>, add: seq<nat>, i: nat, j: nat)
    requires Growth(fat, n, c, add) && i < |fat| && j < |fat| && i != j
    ensures Unjoined(Relink(fat, c + add), i, j)
  {
    hide Relink, Growth;
    var e := c + add;
    var fat' := Relink(fat, e);
    if fat'[i] != FAT_EOC && fat'[j] != FAT_EOC {
      if i in e && j in e {
        GrowthBothLinks(fat, n, c, add, i, j);
      } else if i in e {
        GrowthNewLink(fat, n, c, add, i, j);
        RelinkOutside(fat, e, j);
      } else if j in e {
        GrowthNewLink(fat, n, c, add, j, i);
        RelinkOutside(fat, e, i);
      } else {
        GrowthOldLinks(fat, n, c, add, i, j);
      }
    }
  }

  lemma RelinkOutside(fat: seq<nat>, e: seq<nat>, i: nat)
    requires i < |fat| && i !in e
    ensures Relink(fat, e)[i] == fat[i]
  {
  }

  lemma GrowthOldLinks(fat: seq<nat>, n: nat, c: seq<nat>, add: seq<nat>, i: nat, j: nat)
    requires Growth(fat, n, c, add) && i < |fat| && j < |fat| && i != j && i !in c + add && j !in c + add
    ensures Unjoined(Relink(fat, c + add), i, j)
  {
    assert Unjoined(fat, i, j);
  }

  // Two links of the grown chain lead to different elements of it.
  lemma GrowthBothLinks(fat: seq<nat>, n: nat, c: seq<nat>, add: seq<nat>, i: nat, j: nat)
    requires Growth(fat, n, c, add) && i < |fat| && j < |fat| && i != j && i in c + add && j in c + add
    requires Relink(fat, c + add)[i] != FAT_EOC && Relink(fat, c + add)[j] != FAT_EOC
    ensures Relink(fat, c + add)[i] != Relink(fat, c + add)[j]
  {
    hide Growth;
    GrowthElements(fat, n, c, add);
    var k, l := IndexOf(c + add, i), IndexOf(c + add, j);
    assert (c + add)[k] != (c + add)[l];
  }

  // A link of the grown chain never meets a link outside it.
  lemma GrowthNewLink(fat: seq<nat>, n: nat, c: seq<nat>, add: seq<nat>, i: nat, j: nat)
    requires Growth(fat, n, c, add)
    requires i < |fat| && j < |fat| && i in c + add && j !in c + add
    requires Relink(fat, c + add)[i] != FAT_EOC
    ensures fat[j] != Relink(fat, c + add)[i]
  {
    var e := c + add;
    GrowthElements(fat, n, c, add);
    var k := IndexOf(e, i);
    SuccessorLive(fat, n, j);
    if k + 1 < |c| {
      assert fat[c[k]] == Next(c, k) == e[k + 1];
      assert c[k] == i && Unjoined(fat, i, j);
    } else {
      assert e[k + 1] == add[k + 1 - |c|];
    }
  }

  lemma GrowthTerminates(fat: seq<nat>, n: nat, c: seq<nat>, add: seq<nat>, i: nat)
    requires Growth(fat, n, c, add)
    requires i < n && Relink(fat, c + add)[i] != 0
    ensures Terminates(Relink(fat, c + add), i)
  {
    var e := c + add;
    GrowthElements(fat, n, c, add);
    if i in e {
      var k := IndexOf(e, i);
      LinkedSuffix(Relink(fat, e), Head(e), e, k);
      ChainUnique(Relink(fat, e), i, e[k..]);
    } else {
      assert Terminates(fat, i);
      if c != [] {
        ChainsDisjoint(fat, n, c[0], i);
      }
      GrowthFrame(fat, n, c, add, i);
    }
  }

  // Appending fresh blocks to a file's chain keeps the forest.
  lemma GrowthKeepsForest(fat: seq<nat>, n: nat, c: seq<nat>, add: seq<nat>)
    requires Growth(fat, n, c, add)
    ensures Forest(Relink(fat, c + add), n)
    ensures IsHead(Relink(fat, c + add), n, Head(c + add))
  {
    var fat' := Relink(fat, c + add);
    GrowthElements(fat, n, c, add);
    GrowthSuccessors(fat, n, c, add);
    if 0 in c { ElementLive(fat, n, Head(c), 0); }
    forall i | 0 <= i < n && fat'[i] != 0 ensures Terminates(fat', i) {
      GrowthTerminates(fat, n, c, add, i);
    }
    if c + add != [] {
      GrowthHead(fat, n, c, add);
    }
  }

  lemma GrowthHead(fat: seq<nat>, n: nat, c: seq<nat>, add: seq<nat>)
    requires Growth(fat, n, c, add) && c + add != []
    ensures Root(Relink(fat, c + add), n, Head(c + add))
  {
    var e := c + add;
    var fat' := Relink(fat, e);
    GrowthElements(fat, n, c, add);
    if j :| 0 <= j < |fat| && fat'[j] == e[0] {
      SuccessorLive(fat, n, j);
    }
    assert fat'[e[0]] == Next(e, 0);
  }

  // Every other head stays a head, with the same chain.
  lemma GrowthKeepsHead(fat: seq<nat>, n: nat, c: seq<nat>, add: seq<nat>, b: nat)
    requires Growth(fat, n, c, add) && IsHead(fat, n, b) && (b == FAT_EOC || b != Head(c))
    ensures IsHead(Relink(fat, c + add), n, b)
    ensures Terminates(fat, b) && Chain(Relink(fat, c + add), b) == Chain(fat, b)
    ensures Disjoint(c + add, Chain(fat, b))
  {
    var e := c + add;
    var fat' := Relink(fat, e);
    GrowthElements(fat, n, c, add);
    HeadTerminates(fat, n, b);
    if b != FAT_EOC {
      HeadsDisjoint(fat, n, Head(c), b);
      GrowthFrame(fat, n, c, add, b);
      forall x | x in e ensures x !in Chain(fat, b) {
        if x in Chain(fat, b) { ElementLive(fat, n, b, x); }
      }
      assert b == Chain(fat, b)[0];
    }
  }

  /* ---------- freeing one chain ---------- */

  lemma EraseFrame(fat: seq<nat>, n: nat, r: nat, b: nat)
    requires Forest(fat, n) && Root(fat, n, r) && Terminates(fat, b) && b !in Chain(fat, r)
    ensures Terminates(Zeroed(fat, Chain(fat, r)), b)
    ensures Chain(Zeroed(fat, Chain(fat, r)), b) == Chain(fat, b)
  {
    ChainsDisjoint(fat, n, r, b);
    ChainFrame(fat, Zeroed(fat, Chain(fat, r)), b);
  }

  // Freeing a file's chain keeps the forest.
  lemma EraseKeepsForest(fat: seq<nat>, n: nat, r: nat)
    requires Forest(fat, n) && Root(fat, n, r)
    ensures Forest(Zeroed(fat, Chain(fat, r)), n)
  {
    var fat' := Zeroed(fat, Chain(fat, r));
    assert Terminates(fat, r);
    if 0 in Chain(fat, r) { ElementLive(fat, n, r, 0); }
    forall i | 0 <= i < n && fat'[i] != 0 ensures Terminates(fat', i) {
      assert Terminates(fat, i);
      EraseFrame(fat, n, r, i);
    }
    forall i, j | 0 <= i < |fat| && 0 <= j < |fat| && i != j ensures Unjoined(fat', i, j) {
      assert Unjoined(fat, i, j);
    }
  }

  lemma EraseKeepsHead(fat: seq<nat>, n: nat, r: nat, b: nat)
    requires Forest(fat, n) && Root(fat, n, r) && IsHead(fat, n, b) && b != r
    ensures IsHead(Zeroed(fat, Chain(fat, r)), n, b)
    ensures Terminates(fat, b) && Chain(Zeroed(fat, Chain(fat, r)), b) == Chain(fat, b)
    ensures Disjoint(Chain(fat, r), Chain(fat, b))
  {
    HeadsDisjoint(fat, n, r, b);
    ChainFrame(fat, Zeroed(fat, Chain(fat, r)), b);
    if b != FAT_EOC {
      assert b == Chain(fat, b)[0];
    }
  }
}
