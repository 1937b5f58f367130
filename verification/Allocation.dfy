/** First-fit allocation: which blocks are free, in which order they are handed out, and how many there are. */
module Allocation {
  import opened Layout
  import opened Chains
  import opened Forests

  // The free data blocks in ascending order
  function FreeList(fat: seq<nat>, n: nat): seq<nat>
    requires n <= |fat|
  {
    if n == 0 then []
    else FreeList(fat, n - 1) + (if fat[n - 1] == 0 then [n - 1] else [])
  }

  ghost predicate Ascending(s: seq<nat>) {
    forall i, j :: 0 <= i < j < |s| ==> s[i] < s[j]
  }

  lemma {:induction false} FreeListMeaning(fat: seq<nat>, n: nat)
    requires n <= |fat|
    ensures Ascending(FreeList(fat, n))
    ensures forall x :: x in FreeList(fat, n) <==> 0 <= x < n && fat[x] == 0
  {
    if n > 0 {
      FreeListMeaning(fat, n - 1);
      var s := FreeList(fat, n - 1);
      forall i | 0 <= i < |s| ensures s[i] < n - 1 {
        assert s[i] in s;
      }
    }
  }

  lemma FirstIsMember(s: seq<nat>)
    requires s != []
    ensures s[0] in s
  {
  }

  // An ascending list is determined by its members.
  lemma {:induction false} AscendingUnique(a: seq<nat>, b: seq<nat>)
    requires Ascending(a) && Ascending(b)
    requires forall x :: x in a <==> x in b
    ensures a == b
  {
    if a == [] {
      if b != [] { FirstIsMember(b); }
    } else {
      assert a[0] in b && (b != [] ==> b[0] in a);
      assert a[0] == b[0];
      assert Ascending(a[1..]) && Ascending(b[1..]);
      forall x ensures x in a[1..] <==> x in b[1..] {
        TailMember(a, x);
        TailMember(b, x);
      }
      AscendingUnique(a[1..], b[1..]);
    }
  }

  lemma TailMember(a: seq<nat>, x: nat)
    requires Ascending(a) && a != []
    ensures x in a[1..] <==> x in a && x != a[0]
  {
  }

  // The block found by the first-fit scan is the head of the free list.
  lemma FirstFreeIsHead(fat: seq<nat>, n: nat, b: nat)
    requires b < n <= |fat| && fat[b] == 0 && forall i :: 0 <= i < b ==> fat[i] != 0
    ensures FreeList(fat, n) != [] && FreeList(fat, n)[0] == b
  {
    FreeListMeaning(fat, n);
    var s := FreeList(fat, n);
    assert b in s;
    assert s[0] in s;
  }

  lemma NoneFree(fat: seq<nat>, n: nat)
    requires n <= |fat| && forall i :: 0 <= i < n ==> fat[i] != 0
    ensures FreeList(fat, n) == []
  {
  }

  // The blocks handed out when k are asked for
  function Lowest(fat: seq<nat>, n: nat, k: nat): seq<nat>
    requires n <= |fat|
  {
    var s := FreeList(fat, n);
    if k <= |s| then s[..k] else s
  }

  lemma LowestFresh(fat: seq<nat>, n: nat, k: nat)
    requires Forest(fat, n)
    ensures Fresh(fat, n, Lowest(fat, n, k))
  {
    FreeListMeaning(fat, n);
    var s := FreeList(fat, n);
    forall i | 0 <= i < |s| ensures 0 < s[i] < n && fat[s[i]] == 0 {
      assert s[i] in s;
    }
  }

  lemma FreeAfterGrowthAt(fat: seq<nat>, n: nat, c: seq<nat>, add: seq<nat>, x: nat)
    requires Growth(fat, n, c, add) && x < n
    ensures Relink(fat, c + add)[x] == 0 <==> fat[x] == 0 && x !in add
  {
  }

  lemma SplitMembers(s: seq<nat>, k: nat, x: nat)
    requires Ascending(s) && k <= |s|
    ensures x in s[k..] <==> x in s && x !in s[..k]
  {
  }

  // After the lowest k blocks were appended to a chain, exactly the rest are free.
  lemma FreeAfterGrowth(fat: seq<nat>, n: nat, c: seq<nat>, add: seq<nat>, k: nat)
    requires Growth(fat, n, c, add) && add == Lowest(fat, n, k)
    ensures FreeList(Relink(fat, c + add), n) == FreeList(fat, n)[|add|..]
  {
    var s := FreeList(fat, n);
    var fat' := Relink(fat, c + add);
    FreeListMeaning(fat, n);
    FreeListMeaning(fat', n);
    forall x: nat ensures x in FreeList(fat', n) <==> x in s[|add|..] {
      SplitMembers(s, |add|, x);
      if x < n { FreeAfterGrowthAt(fat, n, c, add, x); }
    }
    AscendingUnique(FreeList(fat', n), s[|add|..]);
  }

  ghost function Elements(c: seq<nat>): set<nat> {
    set x | x in c
  }

  lemma {:induction false} CountElements(c: seq<nat>)
    requires Distinct(c)
    ensures |Elements(c)| == |c|
  {
    if c != [] {
      var d := c[..|c| - 1];
      CountElements(d);
      assert Elements(c) == Elements(d) + {c[|c| - 1]};
    }
  }

  // Freeing a chain raises the number of free blocks by exactly its length.
  lemma FreeAfterErase(fat: seq<nat>, n: nat, r: nat)
    requires Forest(fat, n) && Root(fat, n, r)
    ensures |FreeList(Zeroed(fat, Chain(fat, r)), n)| == |FreeList(fat, n)| + |Chain(fat, r)|
  {
    var c := Chain(fat, r);
    var s, s' := FreeList(fat, n), FreeList(Zeroed(fat, c), n);
    assert Terminates(fat, r);
    LinkedDistinct(fat, r, c);
    forall x | x in c ensures 0 < x < n && fat[x] != 0 {
      ElementLive(fat, n, r, x);
    }
    ErasedAreFree(fat, n, c);
    CountElements(c);
    CountElements(s);
    CountElements(s');
  }

  lemma ErasedAreFree(fat: seq<nat>, n: nat, c: seq<nat>)
    requires n <= |fat| && forall x :: x in c ==> 0 < x < n && fat[x] != 0
    ensures Elements(FreeList(Zeroed(fat, c), n)) == Elements(FreeList(fat, n)) + Elements(c)
    ensures Elements(FreeList(fat, n)) !! Elements(c)
    ensures Distinct(FreeList(fat, n)) && Distinct(FreeList(Zeroed(fat, c), n))
  {
    FreeListMeaning(fat, n);
    FreeListMeaning(Zeroed(fat, c), n);
  }

  // Asking for one block and then for k more is asking for k + 1.
  lemma LowestTwice(fat: seq<nat>, n: nat, b: nat, k: nat)
    requires Forest(fat, n) && FreeList(fat, n) != [] && b == FreeList(fat, n)[0]
    ensures Lowest(fat, n, 1) == [b]
    ensures Lowest(fat, n, k + 1) == [b] + Lowest(Relink(fat, [b]), n, k)
  {
    hide FreeList, Relink, SuccessorsDistinct, AllTerminate;
    FreeAfterFirst(fat, n, b);
  }

  lemma FreeAfterFirst(fat: seq<nat>, n: nat, b: nat)
    requires Forest(fat, n) && FreeList(fat, n) != [] && b == FreeList(fat, n)[0]
    ensures FreeList(Relink(fat, [b]), n) == FreeList(fat, n)[1..]
  {
    hide FreeList, Relink;
    LowestFresh(fat, n, 1);
    assert Lowest(fat, n, 1) == [b];
    assert Linked(fat, FAT_EOC, []);
    assert [] + [b] == [b];
    FreeAfterGrowth(fat, n, [], [b], 1);
  }

  // How many of the first k entries are occupied
  function Occupied(fat: seq<nat>, k: nat): nat
    requires k <= |fat|
  {
    if k == 0 then 0 else Occupied(fat, k - 1) + (if fat[k - 1] != 0 then 1 else 0)
  }

  // Scanning the padding as well makes no difference, because nothing is ever allocated there.
  lemma {:induction false} OccupiedAndFree(fat: seq<nat>, n: nat, k: nat)
    requires n <= k <= |fat| && forall i :: n <= i < k ==> fat[i] == 0
    ensures Occupied(fat, k) + |FreeList(fat, n)| == n
    decreases k
  {
    if k > n {
      OccupiedAndFree(fat, n, k - 1);
    } else if k > 0 {
      OccupiedAndFree(fat, n - 1, n - 1);
    }
  }

  lemma ScanStep(fat: seq<nat>, k: nat)
    requires k < |fat|
    ensures Occupied(fat, 0) == 0 && FreeList(fat, 0) == []
    ensures Occupied(fat, k + 1) == Occupied(fat, k) + (if fat[k] != 0 then 1 else 0)
    ensures |FreeList(fat, k + 1)| == |FreeList(fat, k)| + (if fat[k] == 0 then 1 else 0)
  {
  }

  // What is handed out when k blocks are appended to chain c: as many as asked for or as there are,
  // ascending, and below every block that stays free.
  lemma AppendedMeaning(fat: seq<nat>, n: nat, c: seq<nat>, add: seq<nat>, k: nat)
    requires Growth(fat, n, c, add) && add == Lowest(fat, n, k)
    ensures |add| == if k <= |FreeList(fat, n)| then k else |FreeList(fat, n)|
    ensures Ascending(add) && forall x :: x in add ==> 0 < x < n && fat[x] == 0
    ensures forall x, y :: x in add && 0 <= y < n && Relink(fat, c + add)[y] == 0 ==> x < y
    ensures Chain(Relink(fat, c + add), Head(c + add)) == c + add
    ensures forall i :: 0 <= i < |fat| && i !in c && i !in add ==> Relink(fat, c + add)[i] == fat[i]
  {
    hide FreeList, Forest, Relink;
    ForestBounds(fat, n);
    FreeListMeaning(fat, n);
    GrowthElements(fat, n, c, add);
    var s := FreeList(fat, n);
    forall x, y | x in add && 0 <= y < n && Relink(fat, c + add)[y] == 0 ensures x < y {
      FreeAfterGrowthAt(fat, n, c, add, y);
      AscendingSplit(s, |add|, x, y);
    }
    forall i | 0 <= i < |fat| && i !in c && i !in add ensures Relink(fat, c + add)[i] == fat[i] {
      RelinkOutside(fat, c + add, i);
    }
  }

  lemma AscendingSplit(s: seq<nat>, k: nat, x: nat, y: nat)
    requires Ascending(s) && k <= |s| && x in s[..k] && y in s && y !in s[..k]
    ensures x < y
  {
  }
}
