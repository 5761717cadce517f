/** What a disk holds once its bitmap, directory and headers are decoded: which sectors are marked, the
    directory table, and for every file header the sectors that the file owns. Creating and removing a
    file are described here on these values; module FileSystems ties the real operations to them. */
module Volumes {
  import opened Bytes
  import opened Bitmaps
  import opened SynchDisks
  import opened FileHeaders
  import opened Directories

  const FREE_MAP_SECTOR := 0
  const DIRECTORY_SECTOR := 1
  const NUM_DIR_ENTRIES := 10

  /** `files` maps the sector of each file header, system files included, to that file's data sectors. */
  datatype Volume = Volume(bits: seq<bool>, dir: seq<DirectoryEntry>, files: map<int, seq<int>>)

  // ---------------------------------------------------------------------
  // The ownership invariant
  // ---------------------------------------------------------------------

  /** Sector `s` is the header or a data sector of the file whose header is at `hs`. */
  ghost predicate Owns(files: map<int, seq<int>>, hs: int, s: int) {
    hs in files && (s == hs || s in files[hs])
  }

  ghost predicate Used(files: map<int, seq<int>>, s: int) {
    exists hs :: Owns(files, hs, s)
  }

  /** Every sector has at most one owner and one use, and the marked sectors are exactly the owned ones. */
  ghost predicate Disjoint(files: map<int, seq<int>>, bits: seq<bool>) {
    && |bits| == NUM_SECTORS
    && (forall hs | hs in files ::
          0 <= hs < NUM_SECTORS && hs !in files[hs] && SectorNumbers(files[hs]) && Distinct(files[hs]))
    && (forall hs, gs, s | Owns(files, hs, s) && Owns(files, gs, s) :: hs == gs)
    && (forall s | 0 <= s < NUM_SECTORS :: bits[s] <==> Used(files, s))
  }

  /** Live entries name different keys and point at different headers, none of them a system header. */
  ghost predicate TableOk(dir: seq<DirectoryEntry>) {
    && |dir| == NUM_DIR_ENTRIES
    && UniqueKeys(dir)
    && (forall i | 0 <= i < |dir| && dir[i].inUse ::
        dir[i].sector as int != FREE_MAP_SECTOR && dir[i].sector as int != DIRECTORY_SECTOR)
    && (forall i, j | 0 <= i < j < |dir| && dir[i].inUse && dir[j].inUse :: dir[i].sector != dir[j].sector)
  }

  ghost function Roots(dir: seq<DirectoryEntry>): (hs: set<int>) {
    {FREE_MAP_SECTOR, DIRECTORY_SECTOR} + set i | 0 <= i < |dir| && dir[i].inUse :: dir[i].sector as int
  }

  ghost predicate VolumeOk(v: Volume) {
    TableOk(v.dir) && v.files.Keys == Roots(v.dir) && Disjoint(v.files, v.bits)
  }

  // ---------------------------------------------------------------------
  // Creating and removing a file
  // ---------------------------------------------------------------------

  ghost predicate CanCreate(v: Volume, name: CString, size: nat) {
    && Absent(v.dir, Key(name))
    && !Full(v.dir)
    && CountClear(v.bits) >= 1 + DivRoundUp(size, SECTOR_SIZE)
  }

  /** A header at the lowest clear sector, data in the lowest clear ones after that, an entry in the first free slot. */
  ghost predicate Created(v: Volume, name: CString, s: int, ds: seq<int>, i: int, v': Volume) {
    && LowestClear(v.bits, s) && Allocates(v.bits[s := true], ds, v'.bits)
    && s < NUM_SECTORS
    && FirstFree(v.dir, i)
    && v'.dir == v.dir[i := DirectoryEntry(true, s as int32, StrnCpy(v.dir[i].name, name))]
    && v'.files == v.files[s := ds]
  }

  ghost predicate Removed(v: Volume, name: CString, i: int, v': Volume) {
    && FirstNamed(v.dir, i, Key(name))
    && var s := v.dir[i].sector as int;
       && 0 <= s < |v.bits| && s in v.files
       && (forall k | 0 <= k < |v.files[s]| :: 0 <= v.files[s][k] < |v.bits|)
       && v'.bits == ClearAll(v.bits, v.files[s])[s := false]
       && v'.dir == v.dir[i := v.dir[i].(inUse := false)]
       && v'.files == v.files - {s}
  }

  lemma AllocationIsDisjoint(files: map<int, seq<int>>, bits: seq<bool>, s: int, ds: seq<int>, bits': seq<bool>)
    requires Disjoint(files, bits)
    requires LowestClear(bits, s) && Allocates(bits[s := true], ds, bits')
    ensures !Used(files, s) && forall d | d in ds :: !Used(files, d)
    ensures Disjoint(files[s := ds], bits')
  {
    var files' := files[s := ds];
    var mid := bits[s := true];
    AllocatesMarks(mid, ds, bits');
    AllocatesLowest(mid, ds, bits');
    assert forall i | 0 <= i < |ds| :: ds[i] in ds;
    assert !Used(files, s);
    forall d | d in ds ensures !Used(files, d) {
      assert !mid[d];
    }
    assert !Owns(files, s, s);
    forall hs, t ensures Owns(files', hs, t) <==> (Owns(files, hs, t) || (hs == s && (t == s || t in ds))) {
    }
    forall t | 0 <= t < NUM_SECTORS
      ensures bits'[t] <==> Used(files', t)
    {
      if t == s || t in ds {
        assert Owns(files', s, t);
      } else if Used(files, t) {
        var hs :| Owns(files, hs, t);
        assert Owns(files', hs, t);
      }
    }
    forall hs, gs, t | Owns(files', hs, t) && Owns(files', gs, t)
      ensures hs == gs
    {
      if t == s || t in ds {
        assert !Used(files, t);
        assert !Owns(files, hs, t) && !Owns(files, gs, t);
      }
    }
  }

  lemma ReleaseIsDisjoint(files: map<int, seq<int>>, bits: seq<bool>, s: int)
    requires Disjoint(files, bits) && s in files
    ensures forall d | d in files[s] :: 0 <= d < NUM_SECTORS && bits[d]
    ensures Disjoint(files - {s}, ClearAll(bits, files[s])[s := false])
  {
    var files', ds := files - {s}, files[s];
    assert forall d | d in ds :: Owns(files, s, d);
    ClearAllMeaning(bits, ds);
    var bits' := ClearAll(bits, ds)[s := false];
    forall hs, t ensures Owns(files', hs, t) <==> Owns(files, hs, t) && hs != s {
    }
    forall t | 0 <= t < NUM_SECTORS
      ensures bits'[t] <==> Used(files', t)
    {
      if Used(files, t) {
        var hs :| Owns(files, hs, t);
        if hs != s {
          assert Owns(files', hs, t);
          assert !Owns(files, s, t);
        } else {
          assert forall gs | Owns(files, gs, t) :: gs == s;
        }
      }
    }
  }

  lemma AddedRoot(dir: seq<DirectoryEntry>, i: int, e: DirectoryEntry)
    requires 0 <= i < |dir| && !dir[i].inUse && e.inUse
    ensures Roots(dir[i := e]) == Roots(dir) + {e.sector as int}
  {
    var dir' := dir[i := e];
    forall r ensures r in Roots(dir') <==> r in Roots(dir) + {e.sector as int} {
      if r == e.sector as int {
        assert dir'[i].inUse && dir'[i].sector as int == r;
      } else if r in Roots(dir) && r != 0 && r != 1 {
        var j :| 0 <= j < |dir| && dir[j].inUse && dir[j].sector as int == r;
        assert dir'[j] == dir[j];
      }
    }
  }

  lemma AddEntryKeepsTable(dir: seq<DirectoryEntry>, i: int, s: int32, name: CString)
    requires TableOk(dir) && FirstFree(dir, i) && Absent(dir, Key(name))
    requires s as int !in Roots(dir)
    ensures var dir' := dir[i := DirectoryEntry(true, s, StrnCpy(dir[i].name, name))];
            TableOk(dir') && Roots(dir') == Roots(dir) + {s as int}
  {
    hide StrnCpy;
    hide FieldKey;
    hide Key;
    StoredKey(dir[i].name, name);
    AddedRoot(dir, i, DirectoryEntry(true, s, StrnCpy(dir[i].name, name)));
    assert forall j | 0 <= j < |dir| && dir[j].inUse :: !Names(dir, j, Key(name)) && dir[j].sector as int in Roots(dir);
  }

  lemma RemoveEntryKeepsTable(dir: seq<DirectoryEntry>, i: int)
    requires TableOk(dir) && 0 <= i < |dir| && dir[i].inUse
    ensures var dir' := dir[i := dir[i].(inUse := false)];
            TableOk(dir') && Roots(dir') == Roots(dir) - {dir[i].sector as int}
  {
    var dir' := dir[i := dir[i].(inUse := false)];
    forall r ensures r in Roots(dir') <==> r in Roots(dir) - {dir[i].sector as int} {
      if r in Roots(dir) - {dir[i].sector as int} && r != 0 && r != 1 {
        var j :| 0 <= j < |dir| && dir[j].inUse && dir[j].sector as int == r;
        assert dir'[j] == dir[j];
      }
    }
  }

  /** Creating a file keeps every sector singly owned and every name unique. */
  lemma CreatePreserves(v: Volume, name: CString, s: int, ds: seq<int>, i: int, v': Volume)
    requires VolumeOk(v) && Absent(v.dir, Key(name)) && Created(v, name, s, ds, i, v')
    ensures VolumeOk(v')
    ensures !Used(v.files, s) && forall d | d in ds :: !Used(v.files, d)
  {
    AllocationIsDisjoint(v.files, v.bits, s, ds, v'.bits);
    assert Owns(v.files, s, s) <==> s in v.files;
    AddEntryKeepsTable(v.dir, i, s as int32, name);
  }

  lemma RemovePreserves(v: Volume, name: CString, i: int, v': Volume)
    requires VolumeOk(v) && Removed(v, name, i, v')
    ensures VolumeOk(v')
  {
    ReleaseIsDisjoint(v.files, v.bits, v.dir[i].sector as int);
    RemoveEntryKeepsTable(v.dir, i);
  }

  lemma SameEntryRemoved(v: Volume, name: CString, s: int, ds: seq<int>, i: int, v1: Volume, j: int, v2: Volume)
    requires Absent(v.dir, Key(name)) && Created(v, name, s, ds, i, v1) && Removed(v1, name, j, v2)
    ensures j == i && v1.dir[j].sector as int == s && v1.files[s] == ds
  {
    assert j == i || Names(v.dir, j, Key(name));
  }

  /** Create followed by Remove of the same name gives back the old marked set, the old owners and the old
      table, except for what an unused slot still contains. */
  lemma CreateThenRemove(v: Volume, name: CString, s: int, ds: seq<int>, i: int, v1: Volume, j: int, v2: Volume)
    requires VolumeOk(v) && Absent(v.dir, Key(name)) && Created(v, name, s, ds, i, v1) && Removed(v1, name, j, v2)
    ensures v2.bits == v.bits && v2.files == v.files
    ensures |v2.dir| == |v.dir| && forall x | 0 <= x < |v.dir| ::
        v2.dir[x] == v.dir[x] || (!v2.dir[x].inUse && !v.dir[x].inUse)
  {
    hide StrnCpy;
    hide FieldKey;
    hide Key;
    hide CountClear;
    CreatePreserves(v, name, s, ds, i, v1);
    SameEntryRemoved(v, name, s, ds, i, v1, j, v2);
    DeallocateInvertsAllocate(v.bits[s := true], ds, v1.bits);
    assert v.bits[s := true][s := false] == v.bits;
    assert Owns(v.files, s, s) <==> s in v.files;
  }
}
