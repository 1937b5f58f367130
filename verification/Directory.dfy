/** The root directory: 128 records, each blank or holding one file. */
module Directory {
  import opened Layout

  const SLASH: Byte := 47

  // isValidFileName
  predicate ValidName(name: CString) {
    0 < |name| < FILENAME_LEN && SLASH !in name
  }

  // The filename field after memset to zero and strcpy
  function RawName(name: CString): (r: seq<Byte>)
    requires |name| < FILENAME_LEN
    ensures |r| == FILENAME_LEN
  {
    name + Zeros(FILENAME_LEN - |name|)
  }

  lemma {:induction false} UntilNulStops(s: CString, t: seq<Byte>)
    requires t != [] && t[0] == 0
    ensures UntilNul(s + t) == s
  {
    if s == [] {
      assert s + t == t;
    } else {
      assert (s + t)[1..] == s[1..] + t;
      UntilNulStops(s[1..], t);
    }
  }

  // The record that fs_create stores
  function NewEntry(name: CString): (e: DirEntry)
    requires ValidName(name)
    ensures e.WellSized()
  {
    DirEntry(RawName(name), 0, FAT_EOC, Zeros(10))
  }

  lemma NewEntryName(name: CString)
    requires ValidName(name)
    ensures NewEntry(name).Name() == name && 0 in NewEntry(name).filename
  {
    var z := Zeros(FILENAME_LEN - |name|);
    UntilNulStops(name, z);
    assert RawName(name)[|name|] == 0;
  }

  // The first record with this name, or |dir|
  function FindName(dir: seq<DirEntry>, name: CString): (i: nat)
    ensures i <= |dir|
    ensures i < |dir| ==> dir[i].Name() == name
    ensures forall j :: 0 <= j < i ==> dir[j].Name() != name
    decreases |dir|
  {
    if dir == [] then 0
    else if dir[0].Name() == name then 0
    else 1 + FindName(dir[1..], name)
  }

  // The first blank record, or |dir|
  function FirstBlank(dir: seq<DirEntry>): (i: nat)
    ensures i <= |dir|
    ensures i < |dir| ==> !dir[i].InUse()
    ensures forall j :: 0 <= j < i ==> dir[j].InUse()
    decreases |dir|
  {
    if dir == [] then 0
    else if !dir[0].InUse() then 0
    else 1 + FirstBlank(dir[1..])
  }

  // A blank record is all zero, a used one has a valid name that no other record has
  ghost predicate EntryOk(e: DirEntry) {
    && e.WellSized()
    && 0 in e.filename
    && (if e.InUse() then ValidName(e.Name()) else e == BLANK_ENTRY)
  }

  ghost predicate NamesDistinct(dir: seq<DirEntry>) {
    forall i, j :: 0 <= i < j < |dir| && dir[i].InUse() ==> dir[i].Name() != dir[j].Name()
  }

  ghost predicate DirOk(dir: seq<DirEntry>) {
    && |dir| == FILE_MAX_COUNT
    && (forall i :: 0 <= i < |dir| ==> EntryOk(dir[i]))
    && NamesDistinct(dir)
  }

  lemma BlankIsOk()
    ensures EntryOk(BLANK_ENTRY) && !BLANK_ENTRY.InUse()
  {
    assert BLANK_ENTRY.filename[0] == 0;
  }

  lemma FindNameAt(dir: seq<DirEntry>, i: nat)
    requires NamesDistinct(dir) && i < |dir| && dir[i].InUse()
    ensures FindName(dir, dir[i].Name()) == i
  {
  }

  lemma CreateKeepsDir(dir: seq<DirEntry>, name: CString, i: nat)
    requires DirOk(dir) && ValidName(name) && FindName(dir, name) == |dir|
    requires i < |dir| && !dir[i].InUse()
    ensures DirOk(dir[i := NewEntry(name)])
  {
    NewEntryName(name);
  }

  lemma BlankKeepsDir(dir: seq<DirEntry>, i: nat)
    requires DirOk(dir) && i < |dir|
    ensures DirOk(dir[i := BLANK_ENTRY])
  {
    BlankIsOk();
  }

  lemma UpdateKeepsDir(dir: seq<DirEntry>, i: nat, size: nat, index: nat)
    requires DirOk(dir) && i < |dir| && dir[i].InUse()
    requires size < 0x1_0000_0000 && index < 0x1_0000
    ensures DirOk(dir[i := dir[i].(size := size, index := index)])
    ensures dir[i].(size := size, index := index).Name() == dir[i].Name()
  {
  }

  // How many of the first k records are blank
  function Blanks(dir: seq<DirEntry>, k: nat): nat
    requires k <= |dir|
  {
    if k == 0 then 0 else Blanks(dir, k - 1) + (if dir[k - 1].InUse() then 0 else 1)
  }
}
