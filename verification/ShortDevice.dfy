/**
 Devices that end before the last data block, which fs_mount accepts: a block past the end reads as zeros
 through a zeroed buffer, is not read at all into the caller's buffer, and loses whatever is stored in it.
 */
module ShortDevices {
  import opened Layout
  import opened Chains
  import opened Contents
  import opened Semantics
  import opened Structure
  import opened Exactness
  import opened Writing
  import opened DiskImage
  import opened Theorems

  function BlockOnDevice(data: seq<Block>, m: nat, i: nat): Block
    requires i < |data|
  {
    if i < m then data[i] else ZeroBlock()
  }

  // What a device that holds m data blocks keeps of a data area
  function OnDevice(data: seq<Block>, m: nat): (r: seq<Block>)
    ensures |r| == |data|
  {
    seq<Block>(|data|, i requires 0 <= i < |data| => BlockOnDevice(data, m, i))
  }

  // The same for a whole state
  function Held(s: FsState, m: nat): FsState {
    s.(img := s.img.(data := OnDevice(s.img.data, m)))
  }

  lemma HeldAll(s: FsState, m: nat)
    requires |s.img.data| <= m
    ensures Held(s, m) == s
  {
    assert OnDevice(s.img.data, m) == s.img.data;
  }

  lemma DataOnDevice(blocks: seq<Block>, root: nat, n: nat)
    requires root < |blocks|
    ensures OnDevice(DataView(blocks, root, n), |blocks| - root - 1) == DataView(blocks, root, n)
  {
  }

  lemma StoreOnDevice(data: seq<Block>, m: nat, i: nat, b: Block)
    requires i < |data|
    ensures OnDevice(data[i := b], m) == if i < m then OnDevice(data, m)[i := b] else OnDevice(data, m)
    ensures i < m ==> OnDevice(data, m)[i] == data[i]
  {
  }

  lemma HeldKeepsInv(s: FsState, m: nat)
    requires Inv(s)
    ensures Inv(Held(s, m))
  {
    var img, img' := s.img, Held(s, m).img;
    forall i, j | 0 <= i < |img'.dir| && 0 <= j < |img'.dir| && i != j ensures HeadsApart(img', i, j) {
      assert HeadsApart(img, i, j);
    }
    forall k | 0 <= k < |s.fds| ensures FdOk(img', s.fds[k]) && OwnsAlone(img', s.fds[k]) {
      assert FdOk(img, s.fds[k]) && OwnsAlone(img, s.fds[k]);
    }
  }

  lemma ByteOnDevice(data: seq<Block>, m: nat, c: seq<nat>, i: nat)
    ensures ByteAt(OnDevice(data, m), c, i) == if SkipTo(c, i / BLOCK_SIZE) < m then ByteAt(data, c, i) else 0
  {
  }

  /* ---------- what a write answers and what is left of it ---------- */

  // Byte p of the file in slot i lies on a block that the device holds.
  predicate Present(img: Image, i: nat, m: nat, p: nat)
    requires i < |img.dir|
  {
    SkipTo(ChainOf(img, i), p / BLOCK_SIZE) < m
  }

  // fs_write counts bytes whether or not their block exists. The file has the spliced bytes where it does and
  // zeros where it does not, so it has the promised contents exactly if only zeros were meant to be there.
  lemma ShortWrite(s: FsState, fd: int, bytes: Buffer, m: nat)
    requires Current(s, fd) && s.fds[fd].offset + |bytes| < SIZE_T_LIMIT
    ensures Shaped(s)
    ensures var f := s.fds[fd]; var t := Held(WriteOp(s, fd, bytes).0, m); var n := Min(|bytes|, SpaceLeft(s, fd));
            && f.slot < |s.img.dir| == |t.img.dir| && f.offset <= |Content(s.img, f.slot)|
            && 0 <= n && WriteOp(s, fd, bytes).1 == Reply(n, [])
            && var want, got := Splice(Content(s.img, f.slot), f.offset, bytes[..n]), Content(t.img, f.slot);
            && |got| == |want|
            && (forall p :: 0 <= p < |got| ==> got[p] == if Present(t.img, f.slot, m, p) then want[p] else 0)
            && (got == want <==> forall p :: 0 <= p < |want| && !Present(t.img, f.slot, m, p) ==> want[p] == 0)
  {
    hide Current, WriteOp, Splice, ByteAt, OnDevice, Chain;
    CurrentShaped(s, fd);
    WriteIsSplice(s, fd, bytes);
    var img, slot := WriteOp(s, fd, bytes).0.img, s.fds[fd].slot;
    forall p | 0 <= p < img.dir[slot].size
      ensures Content(Held(WriteOp(s, fd, bytes).0, m).img, slot)[p]
           == if SkipTo(ChainOf(img, slot), p / BLOCK_SIZE) < m then Content(img, slot)[p] else 0
    {
      ByteOnDevice(img.data, m, ChainOf(img, slot), p);
    }
  }

  /* ---------- what a read delivers ---------- */

  // The position is in a block that the read covers completely.
  predicate ReadWhole(from: nat, n: nat, p: nat) {
    from <= p - p % BLOCK_SIZE && p - p % BLOCK_SIZE + BLOCK_SIZE <= from + n
  }

  function DeliveredByte(data: seq<Block>, c: seq<nat>, m: nat, from: nat, n: nat, before: seq<Byte>, i: nat): Byte
    requires i < |before|
  {
    if SkipTo(c, (from + i) / BLOCK_SIZE) >= m && ReadWhole(from, n, from + i) then before[i]
    else ByteAt(data, c, from + i)
  }

  // The bytes that reading n bytes from position from leaves at the start of the caller's buffer: a block that
  // is read as a whole goes there directly, and if it does not exist the buffer keeps what it had.
  function Delivered(data: seq<Block>, c: seq<nat>, m: nat, from: nat, n: nat, before: seq<Byte>): (r: seq<Byte>)
    requires n <= |before|
    ensures |r| == n
  {
    seq<Byte>(n, i requires 0 <= i < n => DeliveredByte(data, c, m, from, n, before, i))
  }

  lemma DeliveredAll(data: seq<Block>, c: seq<nat>, m: nat, from: nat, n: nat, before: seq<Byte>)
    requires n <= |before| && c != [] && forall x :: x in c ==> x < m
    ensures Delivered(data, c, m, from, n, before) == Slice(data, c, from, n)
  {
    hide SkipTo, ByteAt;
    forall i | 0 <= i < n ensures Delivered(data, c, m, from, n, before)[i] == Slice(data, c, from, n)[i] {
      SkipToMember(c, (from + i) / BLOCK_SIZE);
    }
  }

  // One round of the read loop delivers its part.
  lemma DeliveredPiece(data: seq<Block>, c: seq<nat>, m: nat, from: nat, n: nat, before: seq<Byte>, k: nat, p: nat)
    requires n <= |before| && k < n && (k == 0 || (from + k) % BLOCK_SIZE == 0) && p == Piece(from + k, from + n)
    ensures k + p <= n
    ensures Delivered(data, c, m, from, n, before)[k..k + p]
         == if p == BLOCK_SIZE && SkipTo(c, (from + k) / BLOCK_SIZE) >= m then before[k..k + p]
            else Slice(data, c, from + k, p)
  {
    hide SkipTo, ByteAt;
    PieceFits(from + k, from + n);
    var r := Delivered(data, c, m, from, n, before)[k..k + p];
    var want := if p == BLOCK_SIZE && SkipTo(c, (from + k) / BLOCK_SIZE) >= m then before[k..k + p]
                else Slice(data, c, from + k, p);
    forall i | 0 <= i < p ensures r[i] == want[i] {
      SameBlock(from + k, i);
      assert r[i] == DeliveredByte(data, c, m, from, n, before, k + i);
    }
  }

  lemma SameBlock(p: nat, i: nat)
    requires p % BLOCK_SIZE + i < BLOCK_SIZE
    ensures (p + i) / BLOCK_SIZE == p / BLOCK_SIZE && (p + i) % BLOCK_SIZE == p % BLOCK_SIZE + i
  {
  }
}
