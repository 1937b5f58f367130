/** Constants, record layouts and codecs of the on-disk format (libfs/disk.h, libfs/fs.h). */
module Layout {

  const BLOCK_SIZE: nat := 4096
  const FAT_ENTRIES: nat := 2048
  const FAT_EOC: nat := 0xFFFF
  const FILE_MAX_COUNT: nat := 128
  const OPEN_MAX_COUNT: nat := 32
  const FILENAME_LEN: nat := 16
  const ENTRY_SIZE: nat := 32
  // totalBlocks is a uint16 and three blocks are never data blocks
  const MAX_DATA_BLOCKS: nat := 65532
  const SIZE_T_LIMIT: nat := 0x1_0000_0000_0000_0000

  type Byte = b: int | 0 <= b < 256
  type Block = b: seq<Byte> | |b| == BLOCK_SIZE witness seq(BLOCK_SIZE, _ => 0)
  // A value of the 64-bit type size_t
  type SizeT = x: int | 0 <= x < SIZE_T_LIMIT
  // What a caller's buffer can hold
  type Buffer = s: seq<Byte> | |s| < SIZE_T_LIMIT
  // A NUL-terminated C string, without its terminator
  type CString = s: seq<Byte> | 0 !in s

  function ZeroBlock(): Block {
    seq(BLOCK_SIZE, _ => 0)
  }

  datatype Option<+T> = None | Some(value: T)

  // total_block_size
  function BlocksFor(bytes: nat): nat {
    bytes / BLOCK_SIZE + (if bytes % BLOCK_SIZE != 0 then 1 else 0)
  }

  // BlocksFor rounds up: it is the least number of blocks that holds the bytes.
  lemma BlocksForIsCeiling(bytes: nat, k: nat)
    ensures BlocksFor(bytes) <= k <==> bytes <= 4096 * k
  {
  }

  /* ---------- little-endian integers inside a block ---------- */

  function U16At(b: seq<Byte>, p: nat): nat
    requires p + 1 < |b|
  {
    b[p] as int + 256 * b[p + 1] as int
  }

  function PutU16(b: seq<Byte>, p: nat, v: nat): (r: seq<Byte>)
    requires p + 1 < |b|
    ensures |r| == |b|
  {
    b[p := v % 256][p + 1 := v / 256 % 256]
  }

  lemma TwoDigits(v: nat)
    ensures v % 256 + 256 * (v / 256 % 256) == v % 0x1_0000
  {
    assert v == 256 * (v / 256) + v % 256;
    assert v / 256 == 256 * (v / 0x1_0000) + v / 256 % 256;
  }

  lemma U16RoundTrip(b: seq<Byte>, p: nat, q: nat, v: nat)
    requires p + 1 < |b| && q + 1 < |b|
    requires q == p || q + 1 < p || p + 1 < q
    ensures U16At(PutU16(b, p, v), q) == if q == p then v % 0x1_0000 else U16At(b, q)
  {
    TwoDigits(v);
  }

  function U32At(b: seq<Byte>, p: nat): nat
    requires p + 3 < |b|
  {
    U16At(b, p) + 0x1_0000 * U16At(b, p + 2)
  }

  /* ---------- directory records (struct DirEntry) ---------- */

  datatype DirEntry = DirEntry(filename: seq<Byte>, size: nat, index: nat, padding: seq<Byte>) {
    // The widths of the packed C record
    predicate WellSized() {
      |filename| == FILENAME_LEN && size < 0x1_0000_0000 && index < 0x1_0000 && |padding| == 10
    }

    // *(entry->filename) != 0
    predicate InUse() {
      filename != [] && filename[0] != 0
    }

    // The C string stored in the filename field
    function Name(): (name: CString)
      ensures name != [] <==> InUse()
    {
      UntilNul(filename)
    }
  }

  function UntilNul(s: seq<Byte>): CString {
    if s == [] || s[0] == 0 then [] else [s[0]] + UntilNul(s[1..])
  }

  function Zeros(n: nat): (r: seq<Byte>)
    ensures |r| == n
  {
    seq(n, _ => 0)
  }

  // A record after memset(entry, 0, sizeof(struct DirEntry))
  const BLANK_ENTRY: DirEntry := DirEntry(Zeros(FILENAME_LEN), 0, 0, Zeros(10))

  function EncodeEntry(e: DirEntry): (r: seq<Byte>)
    requires e.WellSized()
    ensures |r| == ENTRY_SIZE
  {
    e.filename
    + [e.size % 256, e.size / 256 % 256, e.size / 0x1_0000 % 256, e.size / 0x100_0000]
    + [e.index % 256, e.index / 256]
    + e.padding
  }

  function DecodeEntry(b: seq<Byte>): (e: DirEntry)
    requires |b| == ENTRY_SIZE
    ensures e.WellSized()
  {
    DirEntry(b[..16], U32At(b, 16), U16At(b, 20), b[22..])
  }

  lemma DecodeEncode(e: DirEntry)
    requires e.WellSized()
    ensures DecodeEntry(EncodeEntry(e)) == e
  {
    var b := EncodeEntry(e);
    assert b[..16] == e.filename;
    assert b[22..] == e.padding;
    assert U16At(b, 20) == e.index;
    assert U16At(b, 16) == e.size % 0x1_0000;
    assert U16At(b, 18) == e.size / 0x1_0000;
  }

  lemma Digits(x0: Byte, x1: Byte, x2: Byte, x3: Byte)
    ensures var v := x0 as int + 256 * x1 as int + 0x1_0000 * x2 as int + 0x100_0000 * x3 as int;
            v % 256 == x0 && v / 256 % 256 == x1 && v / 0x1_0000 % 256 == x2 && v / 0x100_0000 == x3
  {
    var v := x0 as int + 256 * x1 as int + 0x1_0000 * x2 as int + 0x100_0000 * x3 as int;
    assert v == x0 as int + 256 * (x1 as int + 256 * (x2 as int + 256 * x3 as int));
    assert v / 256 == x1 as int + 256 * (x2 as int + 256 * x3 as int);
    assert v / 0x1_0000 == x2 as int + 256 * x3 as int;
  }

  // Equal records are equal bytes: statements about records are bit-for-bit statements.
  lemma EncodeDecode(b: seq<Byte>)
    requires |b| == ENTRY_SIZE
    ensures EncodeEntry(DecodeEntry(b)) == b
  {
    var e := DecodeEntry(b);
    Digits(b[16], b[17], b[18], b[19]);
    assert e.index % 256 == b[20] && e.index / 256 == b[21];
    assert b == b[..16] + [b[16], b[17], b[18], b[19]] + [b[20], b[21]] + b[22..];
  }
}
