/** Chains of blocks threaded through the file allocation table. */
module Chains {
  import opened Layout

  ghost predicate Distinct(c: seq<nat>) {
    forall i, j :: 0 <= i < j < |c| ==> c[i] != c[j]
  }

  function Head(c: seq<nat>): nat {
    if c == [] then FAT_EOC else c[0]
  }

  // The table value that belongs at element i of a chain
  function Next(c: seq<nat>, i: nat): nat
    requires i < |c|
  {
    if i + 1 < |c| then c[i + 1] else FAT_EOC
  }

  // c is the whole chain of table indices that starts at b; an empty file has b == FAT_EOC
  ghost predicate Linked(fat: seq<nat>, b: nat, c: seq<nat>) {
    && b == Head(c)
    && (forall i :: 0 <= i < |c| ==> c[i] < |fat| && c[i] != FAT_EOC)
    && (forall i {:trigger Next(c, i)} {:trigger fat[c[i]]} :: 0 <= i < |c| ==> fat[c[i]] == Next(c, i) && fat[c[i]] != 0)
  }

  // The walk from b, cut off after fuel steps
  function Walk(fat: seq<nat>, b: nat, fuel: nat): seq<nat>
    decreases fuel
  {
    if fuel == 0 || b == FAT_EOC || b >= |fat| then [] else [b] + Walk(fat, fat[b], fuel - 1)
  }

  function Chain(fat: seq<nat>, b: nat): seq<nat> {
    Walk(fat, b, |fat|)
  }

  ghost predicate Terminates(fat: seq<nat>, b: nat) {
    Linked(fat, b, Chain(fat, b))
  }

  lemma LinkedSuffix(fat: seq<nat>, b: nat, c: seq<nat>, k: nat)
    requires Linked(fat, b, c) && k <= |c|
    ensures Linked(fat, Head(c[k..]), c[k..])
  {
  }

  // Equal elements would have equal successors, up to an end marker that only one of them has.
  lemma {:induction false} LaterDiffers(fat: seq<nat>, b: nat, c: seq<nat>, i: nat, j: nat)
    requires Linked(fat, b, c) && i < j < |c|
    ensures c[i] != c[j]
    decreases |c| - j
  {
    assert fat[c[i]] == Next(c, i) == c[i + 1] && fat[c[j]] == Next(c, j);
    if j + 1 < |c| {
      LaterDiffers(fat, b, c, i + 1, j + 1);
    }
  }

  lemma LinkedDistinct(fat: seq<nat>, b: nat, c: seq<nat>)
    requires Linked(fat, b, c)
    ensures Distinct(c)
  {
    forall i, j | 0 <= i < j < |c| ensures c[i] != c[j] {
      LaterDiffers(fat, b, c, i, j);
    }
  }

  // Pigeonhole: distinct indices below n are at most n.
  lemma {:induction false} DistinctBound(c: seq<nat>, n: nat)
    requires Distinct(c) && forall i :: 0 <= i < |c| ==> c[i] < n
    ensures |c| <= n
  {
    if c == [] {
    } else if i :| 0 <= i < |c| && c[i] == n - 1 {
      var d := c[..i] + c[i + 1..];
      DistinctBound(d, n - 1);
    } else {
      assert c[0] < n;
      DistinctBound(c, n - 1);
    }
  }

  lemma {:induction false} WalkIsChain(fat: seq<nat>, b: nat, c: seq<nat>, fuel: nat)
    requires Linked(fat, b, c) && |c| <= fuel
    decreases fuel
    ensures Walk(fat, b, fuel) == c
  {
    if c != [] {
      LinkedSuffix(fat, b, c, 1);
      assert fat[c[0]] == Next(c, 0) == Head(c[1..]);
      WalkIsChain(fat, fat[b], c[1..], fuel - 1);
    }
  }

  // A terminated walk is unique, so Chain computes it.
  lemma ChainUnique(fat: seq<nat>, b: nat, c: seq<nat>)
    requires Linked(fat, b, c)
    ensures Chain(fat, b) == c
  {
    LinkedDistinct(fat, b, c);
    DistinctBound(c, |fat|);
    WalkIsChain(fat, b, c, |fat|);
  }

  // A chain depends only on the table entries of its own elements.
  lemma ChainFrame(fat: seq<nat>, fat': seq<nat>, b: nat)
    requires Terminates(fat, b) && |fat| == |fat'|
    requires forall i :: 0 <= i < |fat| && i in Chain(fat, b) ==> fat'[i] == fat[i]
    ensures Terminates(fat', b) && Chain(fat', b) == Chain(fat, b)
  {
    var c := Chain(fat, b);
    assert Linked(fat', b, c);
    ChainUnique(fat', b, c);
  }

  // The element n links further on, or the last one: where skip_blocks stops
  function SkipTo(c: seq<nat>, n: nat): nat {
    if c == [] then FAT_EOC else c[if n < |c| then n else |c| - 1]
  }

  lemma SkipToMember(c: seq<nat>, n: nat)
    requires c != []
    ensures SkipTo(c, n) in c
  {
  }

  // Every element of a chain heads the rest of it.
  lemma SuffixChain(fat: seq<nat>, b: nat, k: nat)
    requires Terminates(fat, b) && k < |Chain(fat, b)|
    ensures Terminates(fat, Chain(fat, b)[k]) && Chain(fat, Chain(fat, b)[k]) == Chain(fat, b)[k..]
  {
    var c := Chain(fat, b);
    LinkedSuffix(fat, b, c, k);
    ChainUnique(fat, c[k], c[k..]);
  }

  // Skipping m and then k blocks is skipping m + k.
  lemma SkipsCompose(fat: seq<nat>, b: nat, m: nat, k: nat)
    requires Terminates(fat, b)
    ensures var x := SkipTo(Chain(fat, b), m);
            Terminates(fat, x) && SkipTo(Chain(fat, x), k) == SkipTo(Chain(fat, b), m + k)
  {
    var c := Chain(fat, b);
    if c != [] {
      SuffixChain(fat, b, if m < |c| then m else |c| - 1);
    }
  }

  function IndexOf(c: seq<nat>, x: nat): (k: nat)
    requires x in c
    ensures k < |c| && c[k] == x
  {
    if c[0] == x then 0 else 1 + IndexOf(c[1..], x)
  }

  lemma IndexOfAt(c: seq<nat>, k: nat)
    requires Distinct(c) && k < |c|
    ensures IndexOf(c, c[k]) == k
  {
  }

  /* ---------- the two ways a table changes ---------- */

  // The table in which c is a chain and every other entry is as before
  function Relink(fat: seq<nat>, c: seq<nat>): (r: seq<nat>)
    ensures |r| == |fat|
  {
    seq(|fat|, i requires 0 <= i < |fat| => if i in c then Next(c, IndexOf(c, i)) else fat[i])
  }

  // The table in which the elements of c are free and every other entry is as before
  function Zeroed(fat: seq<nat>, c: seq<nat>): (r: seq<nat>)
    ensures |r| == |fat|
  {
    seq(|fat|, i requires 0 <= i < |fat| => if i in c then 0 else fat[i])
  }

  lemma RelinkAt(fat: seq<nat>, c: seq<nat>, k: nat)
    requires Distinct(c) && k < |c| && c[k] < |fat|
    ensures Relink(fat, c)[c[k]] == Next(c, k)
  {
  }

  lemma RelinkLinked(fat: seq<nat>, c: seq<nat>)
    requires Distinct(c) && forall i :: 0 <= i < |c| ==> 0 < c[i] < |fat| && c[i] != FAT_EOC
    ensures Linked(Relink(fat, c), Head(c), c)
    ensures Chain(Relink(fat, c), Head(c)) == c
  {
    forall i | 0 <= i < |c| ensures Relink(fat, c)[c[i]] == Next(c, i) {
      RelinkAt(fat, c, i);
    }
    ChainUnique(Relink(fat, c), Head(c), c);
  }

  // Relinking a chain that is already there changes nothing.
  lemma RelinkSame(fat: seq<nat>, b: nat, c: seq<nat>)
    requires Linked(fat, b, c)
    ensures Relink(fat, c) == fat
  {
  }

  // Appending one block is one or two entry updates, as allocate_more_blocks makes them.
  lemma RelinkStep(fat: seq<nat>, c: seq<nat>, b: nat)
    requires Distinct(c) && b !in c && b < |fat|
    requires forall i :: 0 <= i < |c| ==> c[i] < |fat|
    ensures c == [] ==> Relink(fat, c + [b]) == fat[b := FAT_EOC]
    ensures c != [] ==> Relink(fat, c + [b]) == Relink(fat, c)[c[|c| - 1] := b][b := FAT_EOC]
  {
  }

  lemma RelinkTwice(fat: seq<nat>, c: seq<nat>, d: seq<nat>)
    ensures Relink(Relink(fat, c), c + d) == Relink(fat, c + d)
  {
  }
}
