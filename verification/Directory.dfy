/** filesys/directory.cc: the table of file names, and how it is laid out in its file. */
module Directories {
  import opened Bytes
  import opened SynchDisks
  import opened FileHeaders
  import opened OpenFiles

  const FILE_NAME_MAX_LEN := 9
  const ENTRY_SIZE := 20

  /** A C string: the bytes up to, and not including, the terminating 0. */
  type CString = s: seq<byte> | forall i | 0 <= i < |s| :: s[i] != 0 witness []

  /** The `name` field: ten bytes. strncpy fills the first nine and leaves the last one as it was. */
  type NameField = s: seq<byte> | |s| == FILE_NAME_MAX_LEN + 1 witness seq(FILE_NAME_MAX_LEN + 1, _ => 0)

  datatype DirectoryEntry = DirectoryEntry(inUse: bool, sector: int32, name: NameField)

  // ---------------------------------------------------------------------
  // Names
  // ---------------------------------------------------------------------

  /** strncpy(field, name, FileNameMaxLen) */
  function StrnCpy(field: NameField, name: CString): (r: NameField) {
    seq(FILE_NAME_MAX_LEN + 1, i requires 0 <= i < FILE_NAME_MAX_LEN + 1 =>
      if i == FILE_NAME_MAX_LEN then field[i] else if i < |name| then name[i] else 0)
  }

  /** strncmp(field, name, FileNameMaxLen) == 0, comparing from byte `i` on: stop at a difference, at a
      terminator, or after nine bytes. */
  predicate StrnEqFrom(field: NameField, name: CString, i: nat)
    decreases FILE_NAME_MAX_LEN - i
  {
    if i >= FILE_NAME_MAX_LEN then true
    else
      var c := if i < |name| then name[i] else 0;
      field[i] == c && (c == 0 || i == |name| || StrnEqFrom(field, name, i + 1))
  }

  predicate StrnEq(field: NameField, name: CString) {
    StrnEqFrom(field, name, 0)
  }

  /** What the directory can tell apart: the first nine bytes of a name. */
  function Key(name: CString): (k: CString) {
    if |name| <= FILE_NAME_MAX_LEN then name else name[..FILE_NAME_MAX_LEN]
  }

  /** Two names are the same to the directory exactly if they are equal, or both have nine bytes or more and the
      first nine are. */
  lemma SameKeyIff(a: CString, b: CString)
    ensures var n := FILE_NAME_MAX_LEN;
            Key(a) == Key(b) <==> a == b || (n <= |a| && n <= |b| && a[..n] == b[..n])
  {
  }

  function TerminatorFrom(field: NameField, i: nat): (k: nat)
    requires i <= FILE_NAME_MAX_LEN
    ensures i <= k <= FILE_NAME_MAX_LEN
    ensures forall j | i <= j < k :: field[j] != 0
    ensures k < FILE_NAME_MAX_LEN ==> field[k] == 0
    decreases FILE_NAME_MAX_LEN - i
  {
    if i == FILE_NAME_MAX_LEN || field[i] == 0 then i else TerminatorFrom(field, i + 1)
  }

  /** The key that a stored name stands for. */
  function FieldKey(field: NameField): (k: CString) {
    field[..TerminatorFrom(field, 0)]
  }

  lemma {:induction false} StrnEqFromMeaning(field: NameField, name: CString, i: nat)
    requires i <= FILE_NAME_MAX_LEN && i <= |name|
    ensures StrnEqFrom(field, name, i) <==>
            (forall j | i <= j < |Key(name)| :: field[j] == name[j])
            && (|name| < FILE_NAME_MAX_LEN ==> field[|name|] == 0)
    decreases FILE_NAME_MAX_LEN - i
  {
    if i < FILE_NAME_MAX_LEN && i < |name| {
      StrnEqFromMeaning(field, name, i + 1);
    }
  }

  /** strncmp finds a stored name equal exactly when the two keys are the same. */
  lemma StrnEqIsKeyEquality(field: NameField, name: CString)
    ensures StrnEq(field, name) <==> FieldKey(field) == Key(name)
  {
    StrnEqFromMeaning(field, name, 0);
    var k := TerminatorFrom(field, 0);
    if FieldKey(field) == Key(name) {
      assert k == |Key(name)|;
      assert forall j | 0 <= j < k :: field[j] == FieldKey(field)[j] == name[j];
    }
    if StrnEq(field, name) {
      assert k == |Key(name)|;
      assert forall j | 0 <= j < k :: FieldKey(field)[j] == Key(name)[j];
    }
  }

  /** A name is found again under the key it was stored with. */
  lemma StoredKey(field: NameField, name: CString)
    ensures FieldKey(StrnCpy(field, name)) == Key(name)
  {
    var f := StrnCpy(field, name);
    StrnEqFromMeaning(f, name, 0);
    StrnEqIsKeyEquality(f, name);
  }

  // ---------------------------------------------------------------------
  // Layout: inUse, 3 bytes of padding, sector, name, 2 bytes of padding
  // ---------------------------------------------------------------------

  function EncodeEntry(e: DirectoryEntry): (b: seq<byte>)
    ensures |b| == ENTRY_SIZE
  {
    [if e.inUse then 1 else 0, 0, 0, 0] + EncodeI32(e.sector) + e.name + [0, 0]
  }

  function DecodeEntry(b: seq<byte>): (e: DirectoryEntry)
    requires |b| == ENTRY_SIZE
  {
    DirectoryEntry(b[0] != 0, DecodeI32(b[4..8]), b[8..18])
  }

  lemma EntryRoundTrip(e: DirectoryEntry)
    ensures DecodeEntry(EncodeEntry(e)) == e
  {
    var b := EncodeEntry(e);
    assert b[4..8] == EncodeI32(e.sector);
    assert b[8..18] == e.name;
    I32RoundTrip(e.sector);
  }

  function EncodeTable(t: seq<DirectoryEntry>): (b: seq<byte>) {
    Flatten(seq(|t|, i requires 0 <= i < |t| => EncodeEntry(t[i])))
  }

  function DecodeTable(b: seq<byte>): (t: seq<DirectoryEntry>)
    ensures |t| == |b| / ENTRY_SIZE
  {
    seq(|b| / ENTRY_SIZE, i requires 0 <= i < |b| / ENTRY_SIZE => DecodeEntry(b[ENTRY_SIZE * i..ENTRY_SIZE * i
        + ENTRY_SIZE]))
  }

  /** Entry `i` starts at byte 20 * i: the flag, the header's sector from byte 4 on, the name from byte 8 on. */
  lemma TableLayout(t: seq<DirectoryEntry>, i: nat)
    requires i < |t|
    ensures var at := ENTRY_SIZE * i;
            && at + ENTRY_SIZE <= |EncodeTable(t)|
            && EncodeTable(t)[at] == (if t[i].inUse then 1 else 0)
            && EncodeTable(t)[at + 4..at + 8] == EncodeI32(t[i].sector)
            && EncodeTable(t)[at + 8..at + 18] == t[i].name
  {
    hide EncodeI32;
    var cs, at, b := seq(|t|, k requires 0 <= k < |t| => EncodeEntry(t[k])), ENTRY_SIZE * i, EncodeTable(t);
    FlattenChunk(cs, ENTRY_SIZE, i);
    var e := b[at..at + ENTRY_SIZE];
    assert e == EncodeEntry(t[i]) && b[at] == e[0];
    SliceOfSlice(b, at, ENTRY_SIZE, 4, 8);
    SliceOfSlice(b, at, ENTRY_SIZE, 8, 18);
    assert e[4..8] == EncodeI32(t[i].sector);
    assert e[8..18] == t[i].name;
  }

  lemma TableRoundTrip(t: seq<DirectoryEntry>)
    ensures |EncodeTable(t)| == ENTRY_SIZE * |t|
    ensures DecodeTable(EncodeTable(t)) == t
  {
    hide EncodeEntry;
    hide DecodeEntry;
    var cs := seq(|t|, i requires 0 <= i < |t| => EncodeEntry(t[i]));
    FlattenLength(cs, ENTRY_SIZE);
    forall i | 0 <= i < |t|
      ensures DecodeEntry(EncodeTable(t)[ENTRY_SIZE * i..ENTRY_SIZE * i + ENTRY_SIZE]) == t[i]
    {
      FlattenChunk(cs, ENTRY_SIZE, i);
      EntryRoundTrip(t[i]);
    }
  }

  // ---------------------------------------------------------------------
  // Lookup on a table
  // ---------------------------------------------------------------------

  /** Entry `i` is live and stores key `k`. */
  predicate Names(t: seq<DirectoryEntry>, i: int, k: CString) {
    0 <= i < |t| && t[i].inUse && FieldKey(t[i].name) == k
  }

  ghost predicate Absent(t: seq<DirectoryEntry>, k: CString) {
    forall i | 0 <= i < |t| :: !Names(t, i, k)
  }

  lemma NoneNamed(t: seq<DirectoryEntry>, k: CString)
    ensures Absent(t, k) <==> forall i | 0 <= i < |t| && t[i].inUse :: FieldKey(t[i].name) != k
  {
    hide FieldKey;
    if Absent(t, k) {
      forall i | 0 <= i < |t| && t[i].inUse ensures FieldKey(t[i].name) != k {
        assert !Names(t, i, k);
      }
    }
  }

  ghost predicate FirstNamed(t: seq<DirectoryEntry>, i: int, k: CString) {
    Names(t, i, k) && forall j | 0 <= j < i :: !Names(t, j, k)
  }

  lemma {:induction false} FirstOfNamed(t: seq<DirectoryEntry>, k: CString, i: int) returns (j: int)
    requires Names(t, i, k)
    ensures FirstNamed(t, j, k)
    decreases i
  {
    j := i;
    if l :| 0 <= l < i && Names(t, l, k) {
      j := FirstOfNamed(t, k, l);
    }
  }

  /** No two live entries store the same key. */
  ghost predicate UniqueKeys(t: seq<DirectoryEntry>) {
    forall i, j | 0 <= i < j < |t| && t[i].inUse && t[j].inUse :: FieldKey(t[i].name) != FieldKey(t[j].name)
  }

  /** The lowest unused slot. */
  predicate FirstFree(t: seq<DirectoryEntry>, i: int) {
    0 <= i < |t| && !t[i].inUse && forall j | 0 <= j < i :: t[j].inUse
  }

  predicate Full(t: seq<DirectoryEntry>) {
    forall i | 0 <= i < |t| :: t[i].inUse
  }

  class Directory {
    const tableSize: nat
    const table: array<DirectoryEntry>

    ghost predicate Valid() {
      table.Length == tableSize
    }

    constructor (size: nat)
      ensures Valid() && fresh(table) && tableSize == size
      ensures forall i | 0 <= i < size :: !table[i].inUse
    {
      tableSize := size;
      table := new DirectoryEntry[size];
      new;
      for i := 0 to tableSize
        invariant forall j | 0 <= j < i :: !table[j].inUse
      {
        table[i] := table[i].(inUse := false);
      }
    }

    method FetchFrom(file: OpenFile)
      requires Valid() && file.Valid() && file.hdr.numBytes as int == ENTRY_SIZE * tableSize
      modifies table
      ensures table[..] == DecodeTable(file.Bytes())
    {
      hide Contents;
      hide DecodeEntry;
      hide Splice;
      var raw := new byte[ENTRY_SIZE * tableSize];
      ghost var garbage := raw[..];
      var n := file.ReadAt(raw, 0, ENTRY_SIZE * tableSize, 0);
      SpliceAll(garbage, file.Bytes());
      var t := DecodeTable(raw[..]);
      forall i | 0 <= i < tableSize {
        table[i] := t[i];
      }
      assert table[..] == t;
    }

    method WriteBack(file: OpenFile)
      requires Valid() && file.Valid() && file.hdr.numBytes as int == ENTRY_SIZE * tableSize
      modifies file.disk.store
      ensures DecodeTable(file.Bytes()) == table[..]
      ensures forall s | 0 <= s < NUM_SECTORS && s !in file.hdr.View().Data() ::
                file.disk.store[..][s] == old(file.disk.store[..])[s]
    {
      hide Contents;
      hide DecodeTable;
      hide EncodeTable;
      hide Splice;
      TableRoundTrip(table[..]);
      var bytes := EncodeTable(table[..]);
      var raw := new byte[|bytes|](i requires 0 <= i < |bytes| => bytes[i]);
      assert raw[..] == bytes;
      ghost var before := file.Bytes();
      var n := file.WriteAt(raw, ENTRY_SIZE * tableSize, 0);
      SpliceAll(before, bytes);
    }

    method FindIndex(name: CString) returns (r: int)
      requires Valid()
      ensures r == -1 ==> Absent(table[..], Key(name))
      ensures r != -1 ==> FirstNamed(table[..], r, Key(name))
    {
      for i := 0 to tableSize
        invariant forall j | 0 <= j < i :: !Names(table[..], j, Key(name))
      {
        StrnEqIsKeyEquality(table[i].name, name);
        if table[i].inUse && StrnEq(table[i].name, name) {
          return i;
        }
      }
      return -1;
    }

    method Find(name: CString) returns (r: int)
      requires Valid()
      ensures Absent(table[..], Key(name)) ==> r == -1
      ensures forall i :: FirstNamed(table[..], i, Key(name)) ==> r == table[i].sector as int
    {
      var i := FindIndex(name);
      if i != -1 {
        return table[i].sector as int;
      }
      return -1;
    }

    method Add(name: CString, newSector: int32) returns (ok: bool)
      requires Valid()
      modifies table
      ensures ok <==> !Full(old(table[..])) && Absent(old(table[..]), Key(name))
      ensures ok <==> var t := old(table[..]);
              (exists i :: 0 <= i < |t| && !t[i].inUse)
              && forall i | 0 <= i < |t| && t[i].inUse :: FieldKey(t[i].name) != Key(name)
      ensures !ok ==> table[..] == old(table[..])
      ensures ok ==> exists i :: 0 <= i < |old(table[..])| && FirstFree(old(table[..]), i)
                       && !old(table[..])[i].inUse && (forall j | 0 <= j < i :: old(table[..])[j].inUse)
                       && var entry := DirectoryEntry(true, newSector, StrnCpy(old(table[..])[i].name, name));
                          table[..] == old(table[..])[i := entry]
    {
      var k := FindIndex(name);
      NoneNamed(table[..], Key(name));
      if k != -1 {
        return false;
      }
      for i := 0 to tableSize
        invariant table[..] == old(table[..])
        invariant forall j | 0 <= j < i :: table[j].inUse
      {
        if !table[i].inUse {
          ghost var t := table[..];
          table[i] := table[i].(inUse := true);
          table[i] := table[i].(name := StrnCpy(table[i].name, name));
          table[i] := table[i].(sector := newSector);
          assert FirstFree(t, i) && !t[i].inUse;
          return true;
        }
      }
      return false;
    }

    method Remove(name: CString) returns (ok: bool)
      requires Valid()
      modifies table
      ensures ok <==> !Absent(old(table[..]), Key(name))
      ensures !ok ==> table[..] == old(table[..])
      ensures ok ==> exists i :: FirstNamed(old(table[..]), i, Key(name))
                       && table[..] == old(table[..])[i := old(table[..])[i].(inUse := false)]
    {
      var i := FindIndex(name);
      if i == -1 {
        return false;
      }
      ghost var t := table[..];
      table[i] := table[i].(inUse := false);
      assert FirstNamed(t, i, Key(name));
      return true;
    }
  }
}
