/** The file descriptor table (libfs/fdTable.c): 32 records, updated in place. */
module FdTables {
  import opened Layout
  import opened Semantics
  import opened Structure

  // struct fdNode
  class FdNode {
    var inUse: bool
    var filename: Option<CString>
    var dirEntryIndex: nat
    var size: nat
    var offset: nat
    var firstDataBlock: nat

    constructor ()
      ensures View() == CLOSED
    {
      inUse := false;
      filename := None;
      dirEntryIndex := 0;
      size := 0;
      offset := 0;
      firstDataBlock := FAT_EOC;
    }

    function View(): Fd
      reads this
    {
      Fd(inUse, filename, dirEntryIndex, size, offset, firstDataBlock)
    }
  }

  class FdTable {
    const nodes: seq<FdNode>
    var fdsOccupied: nat

    ghost predicate Valid() {
      && |nodes| == OPEN_MAX_COUNT
      && forall i, j :: 0 <= i < j < |nodes| ==> nodes[i] != nodes[j]
    }

    function Views(): (r: seq<Fd>)
      reads nodes
      ensures |r| == |nodes|
    {
      seq(|nodes|, i requires 0 <= i < |nodes| reads nodes => nodes[i].View())
    }

    // Changing one record changes one element of the table's view.
    twostate lemma NodeChanged(fd: nat)
      requires Valid() && fd < |nodes|
      requires forall n :: n in nodes && n != nodes[fd] ==> n.View() == old(n.View())
      ensures Views() == old(Views())[fd := nodes[fd].View()]
    {
      forall k | 0 <= k < |nodes| && k != fd ensures Views()[k] == old(Views())[k] {
        assert nodes[k] in nodes && nodes[k] != nodes[fd];
        assert Views()[k] == nodes[k].View();
        assert old(Views())[k] == old(nodes[k].View());
      }
    }

    // fd_table_constructor
    constructor ()
      ensures Valid() && fresh(nodes)
      ensures Views() == FreshFds() && fdsOccupied == 0 && |nodes| == 32
    {
      var made: seq<FdNode> := [];
      for entry := 0 to OPEN_MAX_COUNT
        invariant |made| == entry && fresh(made)
        invariant forall i :: 0 <= i < |made| ==> made[i].View() == CLOSED
        invariant forall i, j :: 0 <= i < j < |made| ==> made[i] != made[j]
      {
        var node := new FdNode();
        made := made + [node];
      }
      nodes := made;
      fdsOccupied := 0;
    }

    // The shortcut through fdsOccupied is exact as long as the count is.
    method IsOpenByName(name: CString) returns (open: bool)
      requires Valid() && fdsOccupied == CountInUse(Views())
      ensures open <==> NameOpen(Views(), name)
    {
      CountExtremes(Views());
      if fdsOccupied == 0 {
        return false;
      }
      for i := 0 to OPEN_MAX_COUNT
        invariant forall k :: 0 <= k < i ==> !(Views()[k].inUse && Views()[k].filename == Some(name))
      {
        var node := nodes[i];
        assert Views()[i] == node.View();
        if node.inUse && node.filename == Some(name) {
          return true;
        }
      }
      return false;
    }

    method IsOpenByFd(fd: int) returns (open: bool)
      requires Valid() && 0 <= fd < OPEN_MAX_COUNT
      ensures open <==> IsOpen(Views(), fd)
    {
      return nodes[fd].inUse;
    }

    method TableIsFull() returns (full: bool)
      requires Valid() && fdsOccupied == CountInUse(Views())
      ensures full <==> FirstClosed(Views()) == |nodes|
      ensures full <==> fdsOccupied >= OPEN_MAX_COUNT
    {
      CountExtremes(Views());
      return fdsOccupied == OPEN_MAX_COUNT;
    }

    // Takes the lowest free slot, or -1 when there is none.
    method AddFd(name: CString) returns (fd: int)
      requires Valid() && fdsOccupied == CountInUse(Views())
      modifies this`fdsOccupied, nodes
      ensures fd == -1 <==> FirstClosed(old(Views())) == |nodes|
      ensures fd == -1 ==> Views() == old(Views()) && fdsOccupied == old(fdsOccupied)
      ensures fd != -1 ==>
                && fd == FirstClosed(old(Views())) < |nodes| && fdsOccupied == old(fdsOccupied) + 1
                && Views() == old(Views())[fd := old(Views())[fd].(inUse := true, filename := Some(name))]
    {
      CountExtremes(Views());
      if fdsOccupied == OPEN_MAX_COUNT {
        return -1;
      }
      fd := 0;
      while fd < OPEN_MAX_COUNT
        invariant 0 <= fd <= OPEN_MAX_COUNT
        invariant Views() == old(Views()) && fdsOccupied == old(fdsOccupied)
        invariant forall k :: 0 <= k < fd ==> Views()[k].inUse
      {
        var node := nodes[fd];
        assert Views()[fd] == node.View();
        if !node.inUse {
          node.inUse := true;
          node.filename := Some(name);
          fdsOccupied := fdsOccupied + 1;
          return fd;
        }
        fd := fd + 1;
      }
      return -1;
    }

    // What fs_open stores in a new descriptor: the directory slot, and size and first block unless empty
    method Attach(fd: nat, slot: nat, dirEntry: DirEntry)
      requires Valid() && fd < |nodes|
      modifies nodes
      ensures var f := old(Views())[fd];
              Views() == old(Views())[fd := f.(slot := slot,
                size := if dirEntry.index != FAT_EOC then dirEntry.size else f.size,
                first := if dirEntry.index != FAT_EOC then dirEntry.index else f.first)]
    {
      var fdEntry := nodes[fd];
      fdEntry.dirEntryIndex := slot;
      if dirEntry.index != FAT_EOC {
        fdEntry.size := dirEntry.size;
        fdEntry.firstDataBlock := dirEntry.index;
      }
      NodeChanged(fd);
    }

    // Resets the slot and its fields; anything but an open descriptor is ignored.
    method RemoveFd(fd: int)
      requires Valid() && fdsOccupied == CountInUse(Views())
      modifies this`fdsOccupied, nodes
      ensures IsOpen(old(Views()), fd) ==>
                Views() == old(Views())[fd := CLOSED] && fdsOccupied == old(fdsOccupied) - 1
      ensures !IsOpen(old(Views()), fd) ==> Views() == old(Views()) && fdsOccupied == old(fdsOccupied)
    {
      if fd < 0 || fd >= OPEN_MAX_COUNT {
        return;
      }
      var node := nodes[fd];
      if !node.inUse {
        return;
      }
      CountExtremes(Views());
      assert Views()[fd].inUse;
      node.inUse := false;
      node.filename := None;
      node.size := 0;
      node.offset := 0;
      node.firstDataBlock := FAT_EOC;
      node.dirEntryIndex := 0;
      fdsOccupied := fdsOccupied - 1;
    }
  }
}
