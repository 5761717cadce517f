/** The file system as the disk records it: decoding a disk image into a Volume and into the map from file
    names to file contents, and what each operation does to those, over any run of operations. */
module DiskStates {
  import opened Bytes
  import opened Bitmaps
  import opened SynchDisks
  import opened FileHeaders
  import opened OpenFiles
  import opened Directories
  import opened Volumes

  const BITS_IN_BYTE := 8
  const FREE_MAP_FILE_SIZE := NUM_SECTORS / BITS_IN_BYTE
  const DIRECTORY_FILE_SIZE := ENTRY_SIZE * NUM_DIR_ENTRIES

  // ---------------------------------------------------------------------
  // Decoding an image
  // ---------------------------------------------------------------------

  function HeaderAt(img: Image, sector: int): (h: Header)
    requires 0 <= sector < |img|
  {
    DecodeHeader(img[sector])
  }

  ghost predicate SystemFiles(img: Image) {
    && |img| == NUM_SECTORS
    && HeaderAt(img, FREE_MAP_SECTOR).Ok() && HeaderAt(img, FREE_MAP_SECTOR).numBytes as int == FREE_MAP_FILE_SIZE
    && HeaderAt(img, DIRECTORY_SECTOR).Ok() && HeaderAt(img, DIRECTORY_SECTOR).numBytes as int == DIRECTORY_FILE_SIZE
  }

  ghost function DecodeBits(bytes: seq<byte>): (bits: seq<bool>)
    requires |bytes| == FREE_MAP_FILE_SIZE
    ensures |bits| == NUM_SECTORS
  {
    BitsOfWords(DecodeWords(bytes), NUM_SECTORS)
  }

  ghost function BitsOn(img: Image): (bits: seq<bool>)
    requires SystemFiles(img)
    ensures |bits| == NUM_SECTORS
  {
    DecodeBits(Contents(img, HeaderAt(img, FREE_MAP_SECTOR)))
  }

  ghost function DirOn(img: Image): (dir: seq<DirectoryEntry>)
    requires SystemFiles(img)
    ensures |dir| == NUM_DIR_ENTRIES
  {
    DecodeTable(Contents(img, HeaderAt(img, DIRECTORY_SECTOR)))
  }

  /** Every file in the directory, and both system files, have a well-formed header. */
  ghost predicate WellFormed(img: Image) {
    SystemFiles(img) && forall hs | hs in Roots(DirOn(img)) :: 0 <= hs < NUM_SECTORS && HeaderAt(img, hs).Ok()
  }

  ghost function FilesOf(img: Image, roots: set<int>): (files: map<int, seq<int>>)
    requires forall hs | hs in roots :: 0 <= hs < |img|
    ensures files.Keys == roots
  {
    map hs | hs in roots :: HeaderAt(img, hs).Data()
  }

  ghost function VolumeOf(img: Image): (v: Volume)
    requires WellFormed(img)
  {
    Volume(BitsOn(img), DirOn(img), FilesOf(img, Roots(DirOn(img))))
  }

  /** The file system invariant. */
  ghost predicate FsOk(img: Image) {
    WellFormed(img) && VolumeOk(VolumeOf(img))
  }

  // ---------------------------------------------------------------------
  // What survives an update of the system files
  // ---------------------------------------------------------------------

  ghost predicate SystemData(img: Image, t: int)
    requires SystemFiles(img)
  {
    t in HeaderAt(img, FREE_MAP_SECTOR).Data() || t in HeaderAt(img, DIRECTORY_SECTOR).Data()
  }

  /** Outside sector `s` and the data of the two system files, nothing changed. */
  ghost predicate OnlySystem(img: Image, s: int, img': Image)
    requires SystemFiles(img)
  {
    |img'| == |img| && forall t | 0 <= t < NUM_SECTORS && t != s && !SystemData(img, t) :: img'[t] == img[t]
  }

  /** The parts of the invariant that talk about owners, without the decoding behind them. */
  lemma Owners(img: Image)
    requires FsOk(img)
    ensures var files := VolumeOf(img).files;
            && files == FilesOf(img, Roots(DirOn(img)))
            && Disjoint(files, BitsOn(img))
            && FREE_MAP_SECTOR in files && DIRECTORY_SECTOR in files
            && (forall t | SystemData(img, t) :: Owns(files, FREE_MAP_SECTOR, t) || Owns(files, DIRECTORY_SECTOR, t))
  {
    hide Contents;
    hide DecodeTable;
    hide DecodeHeader;
    hide DecodeBits;
    hide Disjoint;
  }

  lemma NotSystemData(files: map<int, seq<int>>, bits: seq<bool>, hs: int, t: int)
    requires Disjoint(files, bits) && FREE_MAP_SECTOR in files && DIRECTORY_SECTOR in files
    requires Owns(files, hs, t)
    requires t == hs || (hs != FREE_MAP_SECTOR && hs != DIRECTORY_SECTOR)
    ensures 0 <= t < NUM_SECTORS && Used(files, t)
    ensures t !in files[FREE_MAP_SECTOR] && t !in files[DIRECTORY_SECTOR]
  {
    assert Owns(files, FREE_MAP_SECTOR, t) ==> hs == FREE_MAP_SECTOR;
    assert Owns(files, DIRECTORY_SECTOR, t) ==> hs == DIRECTORY_SECTOR;
  }

  /** Updating the system files, and one sector nobody owns, leaves what user files own alone, and all headers. */
  lemma OwnedSectorKept(img: Image, s: int, img': Image, hs: int, t: int)
    requires FsOk(img) && OnlySystem(img, s, img') && !Used(VolumeOf(img).files, s)
    requires Owns(VolumeOf(img).files, hs, t)
    requires t == hs || (hs != FREE_MAP_SECTOR && hs != DIRECTORY_SECTOR)
    ensures 0 <= t < NUM_SECTORS && t != s && img'[t] == img[t]
  {
    hide Disjoint;
    hide DecodeHeader;
    hide DecodeTable;
    hide Contents;
    Owners(img);
    NotSystemData(VolumeOf(img).files, BitsOn(img), hs, t);
  }

  lemma HeadersSurvive(img: Image, s: int, img': Image, hs: int)
    requires FsOk(img) && OnlySystem(img, s, img') && !Used(VolumeOf(img).files, s)
    requires hs in Roots(DirOn(img))
    ensures 0 <= hs < NUM_SECTORS && hs != s && img'[hs] == img[hs]
    ensures hs != FREE_MAP_SECTOR && hs != DIRECTORY_SECTOR ==>
        Contents(img', HeaderAt(img, hs)) == Contents(img, HeaderAt(img, hs))
  {
    hide Contents;
    hide VolumeOf;
    hide DecodeHeader;
    hide DecodeTable;
    hide Disjoint;
    Owners(img);
    var files := VolumeOf(img).files;
    assert Owns(files, hs, hs);
    OwnedSectorKept(img, s, img', hs, hs);
    if hs != FREE_MAP_SECTOR && hs != DIRECTORY_SECTOR {
      forall d | d in HeaderAt(img, hs).Data()
        ensures img'[d] == img[d]
      {
        assert Owns(files, hs, d);
        OwnedSectorKept(img, s, img', hs, d);
      }
      ContentsDependOnData(img, img', HeaderAt(img, hs));
    }
  }

  // ---------------------------------------------------------------------
  // Create and Remove on images
  // ---------------------------------------------------------------------

  const NO_SECTOR := -1

  ghost predicate CreatedAt(img: Image, name: CString, size: nat, s: int, ds: seq<int>, i: int, img': Image) {
    && WellFormed(img) && WellFormed(img')
    && Created(VolumeOf(img), name, s, ds, i, VolumeOf(img'))
    && OnlySystem(img, s, img')
    && 0 <= s < NUM_SECTORS && HeaderAt(img', s).numBytes as int == size
  }

  ghost predicate CreatedOn(img: Image, name: CString, size: nat, img': Image) {
    exists s, ds, i :: CreatedAt(img, name, size, s, ds, i, img')
  }

  ghost predicate RemovedAt(img: Image, name: CString, i: int, img': Image) {
    && WellFormed(img) && WellFormed(img')
    && Removed(VolumeOf(img), name, i, VolumeOf(img'))
    && OnlySystem(img, NO_SECTOR, img')
  }

  ghost predicate RemovedOn(img: Image, name: CString, img': Image) {
    exists i :: RemovedAt(img, name, i, img')
  }

  lemma ClearSectorUnused(img: Image, s: int)
    requires FsOk(img) && LowestClear(BitsOn(img), s)
    ensures 0 <= s < NUM_SECTORS && !Used(VolumeOf(img).files, s)
  {
  }

  lemma NoSectorUnused(img: Image)
    requires FsOk(img)
    ensures !Used(VolumeOf(img).files, NO_SECTOR)
  {
  }

  /** After an update of the system files, decoding goes through the same two headers. */
  lemma SystemFilesSurvive(img: Image, s: int, img': Image)
    requires FsOk(img) && OnlySystem(img, s, img') && !Used(VolumeOf(img).files, s)
    ensures SystemFiles(img')
    ensures HeaderAt(img', FREE_MAP_SECTOR) == HeaderAt(img, FREE_MAP_SECTOR)
    ensures HeaderAt(img', DIRECTORY_SECTOR) == HeaderAt(img, DIRECTORY_SECTOR)
  {
    hide Contents;
    hide DecodeHeader;
    hide DecodeTable;
    hide DecodeBits;
    HeadersSurvive(img, s, img', FREE_MAP_SECTOR);
    HeadersSurvive(img, s, img', DIRECTORY_SECTOR);
  }

  lemma FilesOfSurvive(img: Image, s: int, img': Image, roots: set<int>)
    requires FsOk(img) && OnlySystem(img, s, img') && !Used(VolumeOf(img).files, s)
    requires roots <= Roots(DirOn(img))
    ensures forall hs | hs in roots :: 0 <= hs < NUM_SECTORS && HeaderAt(img', hs) == HeaderAt(img, hs)
    ensures FilesOf(img', roots) == FilesOf(img, roots)
  {
    hide Contents;
    hide DecodeHeader;
    hide DecodeTable;
    hide VolumeOf;
    forall hs | hs in roots
      ensures 0 <= hs < NUM_SECTORS && img'[hs] == img[hs]
    {
      HeadersSurvive(img, s, img', hs);
    }
  }

  lemma OneMoreFile(img: Image, roots: set<int>, s: int)
    requires (forall hs | hs in roots :: 0 <= hs < |img|) && 0 <= s < |img|
    ensures FilesOf(img, roots + {s}) == FilesOf(img, roots)[s := HeaderAt(img, s).Data()]
  {
    hide DecodeHeader;
  }

  lemma LiveRoot(dir: seq<DirectoryEntry>, i: int)
    requires 0 <= i < |dir| && dir[i].inUse
    ensures dir[i].sector as int in Roots(dir)
  {
  }

  lemma FileOfRoot(img: Image, roots: set<int>, s: int)
    requires (forall hs | hs in roots :: 0 <= hs < |img|) && s in roots
    ensures FilesOf(img, roots)[s] == HeaderAt(img, s).Data()
  {
  }

  lemma OneFewerFile(img: Image, roots: set<int>, s: int)
    requires forall hs | hs in roots :: 0 <= hs < |img|
    ensures FilesOf(img, roots - {s}) == FilesOf(img, roots) - {s}
  {
    hide DecodeHeader;
  }

  lemma CreateImage(img: Image, name: CString, h: Header, s: int, i: int, bits': seq<bool>, img': Image)
    requires FsOk(img) && Absent(DirOn(img), Key(name))
    requires LowestClear(BitsOn(img), s) && h.Ok() && Allocates(BitsOn(img)[s := true], h.Data(), bits')
    requires FirstFree(DirOn(img), i) && s < NUM_SECTORS
    requires OnlySystem(img, s, img') && DecodeHeader(img'[s]) == h
    requires DecodeBits(Contents(img', HeaderAt(img, FREE_MAP_SECTOR))) == bits'
    requires DecodeTable(Contents(img', HeaderAt(img, DIRECTORY_SECTOR)))
          == DirOn(img)[i := DirectoryEntry(true, s as int32, StrnCpy(DirOn(img)[i].name, name))]
    ensures CreatedAt(img, name, h.numBytes as nat, s, h.Data(), i, img')
  {
    hide Contents;
    hide DecodeHeader;
    hide DecodeTable;
    hide DecodeBits;
    hide StrnCpy;
    hide Key;
    hide FieldKey;
    hide Allocates;
    hide Disjoint;
    hide TableOk;
    hide LowestClear;
    hide Roots;
    hide FilesOf;
    ClearSectorUnused(img, s);
    SystemFilesSurvive(img, s, img');
    var roots := Roots(DirOn(img));
    FilesOfSurvive(img, s, img', roots);
    AddedRoot(DirOn(img), i, DirectoryEntry(true, s as int32, StrnCpy(DirOn(img)[i].name, name)));
    assert Roots(DirOn(img')) == roots + {s};
    OneMoreFile(img', roots, s);
    assert WellFormed(img');
  }

  lemma RemoveImage(img: Image, name: CString, i: int, bits': seq<bool>, img': Image)
    requires FsOk(img) && FirstNamed(DirOn(img), i, Key(name))
    requires var s := DirOn(img)[i].sector as int;
             && 0 <= s < NUM_SECTORS && HeaderAt(img, s).Ok()
             && bits' == ClearAll(BitsOn(img), HeaderAt(img, s).Data())[s := false]
    requires OnlySystem(img, NO_SECTOR, img')
    requires DecodeBits(Contents(img', HeaderAt(img, FREE_MAP_SECTOR))) == bits'
    requires DecodeTable(Contents(img', HeaderAt(img, DIRECTORY_SECTOR))) ==
        DirOn(img)[i := DirOn(img)[i].(inUse := false)]
    ensures RemovedAt(img, name, i, img')
  {
    hide Contents;
    hide DecodeHeader;
    hide DecodeTable;
    hide DecodeBits;
    hide FieldKey;
    hide Key;
    hide ClearAll;
    hide Disjoint;
    hide FilesOf;
    hide Roots;
    NoSectorUnused(img);
    SystemFilesSurvive(img, NO_SECTOR, img');
    var roots, s := Roots(DirOn(img)), DirOn(img)[i].sector as int;
    RemoveEntryKeepsTable(DirOn(img), i);
    FilesOfSurvive(img, NO_SECTOR, img', roots - {s});
    LiveRoot(DirOn(img), i);
    FileOfRoot(img, roots, s);
    OneFewerFile(img, roots, s);
    assert WellFormed(img');
  }

  lemma SystemDataDisjoint(img: Image, t: int)
    requires FsOk(img)
    ensures t in HeaderAt(img, FREE_MAP_SECTOR).Data() ==> t !in HeaderAt(img, DIRECTORY_SECTOR).Data()
  {
    hide Contents;
    hide DecodeHeader;
    hide DecodeTable;
    hide DecodeBits;
    Owners(img);
    var files := VolumeOf(img).files;
    assert t in HeaderAt(img, FREE_MAP_SECTOR).Data() ==> Owns(files, FREE_MAP_SECTOR, t);
    assert t in HeaderAt(img, DIRECTORY_SECTOR).Data() ==> Owns(files, DIRECTORY_SECTOR, t);
  }

  /** The two system files can be written in either order without disturbing each other. */
  lemma SystemFilesApart(img: Image, img1: Image, img2: Image, hw: Header, hk: Header)
    requires FsOk(img) && |img1| == |img2| == NUM_SECTORS
    requires var hm, hd := HeaderAt(img, FREE_MAP_SECTOR), HeaderAt(img, DIRECTORY_SECTOR);
             (hw == hm && hk == hd) || (hw == hd && hk == hm)
    requires forall t | 0 <= t < NUM_SECTORS && t !in hw.Data() :: img2[t] == img1[t]
    ensures Contents(img2, hk) == Contents(img1, hk)
  {
    hide Contents;
    hide DecodeHeader;
    hide DecodeTable;
    hide DecodeBits;
    hide VolumeOk;
    forall t | t in hk.Data()
      ensures 0 <= t < NUM_SECTORS && img2[t] == img1[t]
    {
      SystemDataDisjoint(img, t);
    }
    ContentsDependOnData(img1, img2, hk);
  }

  /** A sector that was clear is untouched by the writes to the system files that follow. */
  lemma NewHeaderSurvives(img: Image, s: int, img1: Image, img2: Image, img3: Image)
    requires FsOk(img) && LowestClear(BitsOn(img), s) && |img1| == |img2| == |img3| == NUM_SECTORS
    requires forall t | 0 <= t < NUM_SECTORS && t != s :: img1[t] == img[t]
    requires forall t | 0 <= t < NUM_SECTORS && t !in HeaderAt(img, DIRECTORY_SECTOR).Data() :: img2[t] == img1[t]
    requires forall t | 0 <= t < NUM_SECTORS && t !in HeaderAt(img, FREE_MAP_SECTOR).Data() :: img3[t] == img2[t]
    ensures OnlySystem(img, s, img3) && s < NUM_SECTORS && img3[s] == img1[s]
    ensures HeaderAt(img3, FREE_MAP_SECTOR) == HeaderAt(img, FREE_MAP_SECTOR)
    ensures HeaderAt(img3, DIRECTORY_SECTOR) == HeaderAt(img, DIRECTORY_SECTOR)
  {
    hide Contents;
    hide DecodeHeader;
    hide DecodeTable;
    hide DecodeBits;
    hide Disjoint;
    ClearSectorUnused(img, s);
    Owners(img);
    assert !Owns(VolumeOf(img).files, FREE_MAP_SECTOR, s) && !Owns(VolumeOf(img).files, DIRECTORY_SECTOR, s);
    assert !SystemData(img, s);
    SystemFilesSurvive(img, s, img3);
  }

  // ---------------------------------------------------------------------
  // The map from names to contents
  // ---------------------------------------------------------------------

  ghost function Keys(dir: seq<DirectoryEntry>): (ks: set<CString>) {
    set i | 0 <= i < |dir| && dir[i].inUse :: FieldKey(dir[i].name)
  }

  ghost function SlotOf(dir: seq<DirectoryEntry>, k: CString): (i: int)
    requires k in Keys(dir)
    ensures Names(dir, i, k)
  {
    assert exists i :: Names(dir, i, k) by {
      var i :| 0 <= i < |dir| && dir[i].inUse && FieldKey(dir[i].name) == k;
      assert Names(dir, i, k);
    }
    var i :| Names(dir, i, k);
    i
  }

  ghost function FileAt(img: Image, i: int): (bytes: seq<byte>)
    requires WellFormed(img) && 0 <= i < NUM_DIR_ENTRIES && DirOn(img)[i].inUse
  {
    LiveRoot(DirOn(img), i);
    Contents(img, HeaderAt(img, DirOn(img)[i].sector as int))
  }

  /** The files of the disk, by name. */
  ghost function FilesOn(img: Image): (files: map<CString, seq<byte>>)
    requires WellFormed(img)
  {
    map k | k in Keys(DirOn(img)) :: FileAt(img, SlotOf(DirOn(img), k))
  }

  lemma SlotIsUnique(dir: seq<DirectoryEntry>, i: int, k: CString)
    requires UniqueKeys(dir) && Names(dir, i, k)
    ensures k in Keys(dir) && SlotOf(dir, k) == i
  {
    hide FieldKey;
  }

  lemma FileSurvives(img: Image, s: int, img': Image, i: int)
    requires FsOk(img) && WellFormed(img') && OnlySystem(img, s, img') && !Used(VolumeOf(img).files, s)
    requires 0 <= i < NUM_DIR_ENTRIES && DirOn(img)[i].inUse && DirOn(img')[i] == DirOn(img)[i]
    ensures FileAt(img', i) == FileAt(img, i)
  {
    hide Contents;
    hide DecodeHeader;
    hide DecodeTable;
    hide DecodeBits;
    hide Disjoint;
    hide OnlySystem;
    LiveRoot(DirOn(img), i);
    HeadersSurvive(img, s, img', DirOn(img)[i].sector as int);
  }

  lemma KeysAfterAdd(dir: seq<DirectoryEntry>, i: int, e: DirectoryEntry, k0: CString)
    requires 0 <= i < |dir| && !dir[i].inUse && e.inUse && FieldKey(e.name) == k0
    requires UniqueKeys(dir) && UniqueKeys(dir[i := e])
    ensures k0 !in Keys(dir) && Keys(dir[i := e]) == Keys(dir) + {k0}
    ensures SlotOf(dir[i := e], k0) == i
    ensures forall k | k in Keys(dir) :: SlotOf(dir[i := e], k) == SlotOf(dir, k) != i
  {
    hide FieldKey;
    var dir' := dir[i := e];
    SlotIsUnique(dir', i, k0);
    forall k | k in Keys(dir)
      ensures k in Keys(dir') && k != k0 && SlotOf(dir', k) == SlotOf(dir, k) != i
    {
      SlotIsUnique(dir', SlotOf(dir, k), k);
    }
    forall k | k in Keys(dir') && k != k0
      ensures k in Keys(dir)
    {
      SlotIsUnique(dir, SlotOf(dir', k), k);
    }
  }

  lemma KeysAfterRemove(dir: seq<DirectoryEntry>, i: int, e: DirectoryEntry)
    requires UniqueKeys(dir) && 0 <= i < |dir| && dir[i].inUse && !e.inUse
    ensures FieldKey(dir[i].name) in Keys(dir) && Keys(dir[i := e]) == Keys(dir) - {FieldKey(dir[i].name)}
    ensures forall k | k in Keys(dir[i := e]) :: SlotOf(dir[i := e], k) == SlotOf(dir, k) != i
  {
    hide FieldKey;
    var dir', k0 := dir[i := e], FieldKey(dir[i].name);
    assert UniqueKeys(dir');
    SlotIsUnique(dir, i, k0);
    forall k | k in Keys(dir')
      ensures k in Keys(dir) && k != k0 && SlotOf(dir', k) == SlotOf(dir, k) != i
    {
      SlotIsUnique(dir, SlotOf(dir', k), k);
    }
    forall k | k in Keys(dir) && k != k0
      ensures k in Keys(dir')
    {
      SlotIsUnique(dir', SlotOf(dir, k), k);
    }
  }

  /** Create adds one file of the requested size under the name's key and changes no other file. */
  lemma CreateAddsOneFile(img: Image, name: CString, size: nat, s: int, ds: seq<int>, i: int, img': Image)
    requires FsOk(img) && Absent(DirOn(img), Key(name)) && CreatedAt(img, name, size, s, ds, i, img')
    ensures FsOk(img') && DirOn(img')[i].inUse && |FileAt(img', i)| == size
    ensures Key(name) !in FilesOn(img)
    ensures FilesOn(img') == FilesOn(img)[Key(name) := FileAt(img', i)]
  {
    hide Contents;
    hide DecodeHeader;
    hide DecodeTable;
    hide DecodeBits;
    hide Disjoint;
    hide OnlySystem;
    hide StrnCpy;
    hide FieldKey;
    hide Key;
    hide Allocates;
    hide LowestClear;
    hide Roots;
    hide Keys;
    hide SlotOf;
    var dir, dir' := DirOn(img), DirOn(img');
    CreatePreserves(VolumeOf(img), name, s, ds, i, VolumeOf(img'));
    StoredKey(dir[i].name, name);
    KeysAfterAdd(dir, i, dir'[i], Key(name));
    forall k | k in Keys(dir)
      ensures FilesOn(img')[k] == FilesOn(img)[k]
    {
      FileSurvives(img, s, img', SlotOf(dir, k));
    }
  }

  /** Remove takes away the named file and changes no other file. */
  lemma RemoveTakesOneFile(img: Image, name: CString, i: int, img': Image)
    requires FsOk(img) && RemovedAt(img, name, i, img')
    ensures FsOk(img')
    ensures Key(name) in FilesOn(img)
    ensures FilesOn(img') == FilesOn(img) - {Key(name)}
  {
    hide Contents;
    hide DecodeHeader;
    hide DecodeTable;
    hide DecodeBits;
    hide Disjoint;
    hide OnlySystem;
    hide FieldKey;
    hide Key;
    hide ClearAll;
    hide Roots;
    hide Keys;
    hide SlotOf;
    var dir, dir' := DirOn(img), DirOn(img');
    RemovePreserves(VolumeOf(img), name, i, VolumeOf(img'));
    KeysAfterRemove(dir, i, dir'[i]);
    NoSectorUnused(img);
    forall k | k in Keys(dir')
      ensures FilesOn(img')[k] == FilesOn(img)[k]
    {
      FileSurvives(img, NO_SECTOR, img', SlotOf(dir, k));
    }
  }

  // ---------------------------------------------------------------------
  // Writing to a live file
  // ---------------------------------------------------------------------

  /** What WriteAt does through a handle whose header is that of live entry `i`. */
  ghost predicate WrittenAt(img: Image, i: int, position: nat, data: seq<byte>, img': Image) {
    && WellFormed(img) && 0 <= i < NUM_DIR_ENTRIES && DirOn(img)[i].inUse
    && var hs := DirOn(img)[i].sector as int;
       && hs in Roots(DirOn(img))
       && var h := HeaderAt(img, hs);
          && |img'| == NUM_SECTORS && position + |data| <= h.numBytes as int
          && Contents(img', h) == Splice(Contents(img, h), position, data)
          && forall t | 0 <= t < NUM_SECTORS && t !in h.Data() :: img'[t] == img[t]
  }

  /** A sector that a file owns is no header and belongs to no other file. */
  lemma NotDataOf(files: map<int, seq<int>>, bits: seq<bool>, hs: int, gs: int, t: int)
    requires Disjoint(files, bits) && hs in files && Owns(files, gs, t) && (gs != hs || t == hs)
    ensures t !in files[hs] && 0 <= t < NUM_SECTORS
  {
    assert Owns(files, hs, t) ==> hs == gs;
  }

  lemma OthersSurviveWrite(img: Image, i: int, position: nat, data: seq<byte>, img': Image, gs: int)
    requires FsOk(img) && WrittenAt(img, i, position, data, img') && gs in Roots(DirOn(img))
    ensures 0 <= gs < NUM_SECTORS && img'[gs] == img[gs] && HeaderAt(img, gs).Ok()
    ensures gs != DirOn(img)[i].sector as int ==> Contents(img', HeaderAt(img, gs)) == Contents(img, HeaderAt(img, gs))
  {
    hide Contents;
    hide DecodeHeader;
    hide DecodeTable;
    hide DecodeBits;
    hide Disjoint;
    hide Splice;
    hide TableOk;
    Owners(img);
    var files, hs := VolumeOf(img).files, DirOn(img)[i].sector as int;
    assert Owns(files, gs, gs);
    NotDataOf(files, BitsOn(img), hs, gs, gs);
    if gs != hs {
      forall d | d in HeaderAt(img, gs).Data()
        ensures img'[d] == img[d]
      {
        assert Owns(files, gs, d);
        NotDataOf(files, BitsOn(img), hs, gs, d);
      }
      ContentsDependOnData(img, img', HeaderAt(img, gs));
    }
  }

  /** The bitmap, the directory and all headers are as they were. */
  lemma WriteKeepsVolume(img: Image, i: int, position: nat, data: seq<byte>, img': Image)
    requires FsOk(img) && WrittenAt(img, i, position, data, img')
    ensures FsOk(img') && VolumeOf(img') == VolumeOf(img)
  {
    hide Contents;
    hide DecodeHeader;
    hide DecodeTable;
    hide DecodeBits;
    hide Disjoint;
    hide Splice;
    hide VolumeOk;
    hide FilesOf;
    SystemSurvivesWrite(img, i, position, data, img');
    var roots := Roots(DirOn(img));
    forall gs | gs in roots
      ensures 0 <= gs < NUM_SECTORS && img'[gs] == img[gs] && HeaderAt(img', gs).Ok()
    {
      OthersSurviveWrite(img, i, position, data, img', gs);
    }
    SameFiles(img, img', roots);
  }

  lemma SystemSurvivesWrite(img: Image, i: int, position: nat, data: seq<byte>, img': Image)
    requires FsOk(img) && WrittenAt(img, i, position, data, img')
    ensures SystemFiles(img') && BitsOn(img') == BitsOn(img) && DirOn(img') == DirOn(img)
  {
    hide Contents;
    hide DecodeHeader;
    hide DecodeTable;
    hide DecodeBits;
    hide Disjoint;
    hide Splice;
    OthersSurviveWrite(img, i, position, data, img', FREE_MAP_SECTOR);
    OthersSurviveWrite(img, i, position, data, img', DIRECTORY_SECTOR);
  }

  lemma SameFiles(img: Image, img': Image, roots: set<int>)
    requires forall gs | gs in roots :: 0 <= gs < |img| && 0 <= gs < |img'| && img'[gs] == img[gs]
    ensures FilesOf(img', roots) == FilesOf(img, roots)
  {
    hide DecodeHeader;
  }

  lemma FileSurvivesWrite(img: Image, i: int, position: nat, data: seq<byte>, img': Image, j: int)
    requires FsOk(img) && WrittenAt(img, i, position, data, img') && WellFormed(img') && DirOn(img') == DirOn(img)
    requires 0 <= j < NUM_DIR_ENTRIES && DirOn(img)[j].inUse
    ensures FileAt(img', j) == if j == i then Splice(FileAt(img, j), position, data) else FileAt(img, j)
  {
    hide Contents;
    hide DecodeHeader;
    hide DecodeTable;
    hide DecodeBits;
    hide Disjoint;
    hide Splice;
    hide UniqueKeys;
    LiveRoot(DirOn(img), j);
    assert j != i ==> DirOn(img)[j].sector != DirOn(img)[i].sector;
    OthersSurviveWrite(img, i, position, data, img', DirOn(img)[j].sector as int);
  }

  /** A write splices its bytes into the named file and changes no other file. */
  lemma WriteChangesOneFile(img: Image, i: int, position: nat, data: seq<byte>, img': Image)
    requires FsOk(img) && WrittenAt(img, i, position, data, img')
    ensures FsOk(img')
    ensures var k := FieldKey(DirOn(img)[i].name);
            && k in FilesOn(img) && position + |data| <= |FilesOn(img)[k]|
            && FilesOn(img') == FilesOn(img)[k := Splice(FilesOn(img)[k], position, data)]
  {
    hide Contents;
    hide DecodeHeader;
    hide DecodeTable;
    hide DecodeBits;
    hide Disjoint;
    hide Splice;
    hide FieldKey;
    hide Roots;
    hide SlotOf;
    hide FileAt;
    var dir, k0 := DirOn(img), FieldKey(DirOn(img)[i].name);
    WriteKeepsVolume(img, i, position, data, img');
    SlotIsUnique(dir, i, k0);
    FileLength(img, i);
    assert FilesOn(img)[k0] == FileAt(img, i);
    forall k | k in Keys(dir)
      ensures FilesOn(img')[k] == if k == k0 then Splice(FilesOn(img)[k], position, data) else FilesOn(img)[k]
    {
      FileSurvivesWrite(img, i, position, data, img', SlotOf(dir, k));
    }
  }

  lemma FileLength(img: Image, i: int)
    requires WellFormed(img) && 0 <= i < NUM_DIR_ENTRIES && DirOn(img)[i].inUse
    ensures DirOn(img)[i].sector as int in Roots(DirOn(img))
    ensures |FileAt(img, i)| == HeaderAt(img, DirOn(img)[i].sector as int).numBytes as int
  {
    LiveRoot(DirOn(img), i);
  }

  // ---------------------------------------------------------------------
  // Formatting
  // ---------------------------------------------------------------------

  /** A freshly formatted disk: both headers, their three data sectors, an empty directory. */
  ghost predicate Formatted(img: Image) {
    && SystemFiles(img)
    && (forall i | 0 <= i < NUM_DIR_ENTRIES :: !DirOn(img)[i].inUse)
    && exists bits ::
         && Allocates(seq(NUM_SECTORS, _ => false)[FREE_MAP_SECTOR := true][DIRECTORY_SECTOR := true],
                      HeaderAt(img, FREE_MAP_SECTOR).Data(), bits)
         && Allocates(bits, HeaderAt(img, DIRECTORY_SECTOR).Data(), BitsOn(img))
  }

  lemma {:induction false} TakenAre(bits: seq<bool>, ds: seq<int>, bits': seq<bool>, low: nat)
    requires |bits| == NUM_SECTORS && Allocates(bits, ds, bits')
    requires forall j | 0 <= j < NUM_SECTORS :: bits[j] <==> j < low
    ensures forall k | 0 <= k < |ds| :: ds[k] == low + k
    ensures |bits'| == NUM_SECTORS && forall j | 0 <= j < NUM_SECTORS :: bits'[j] <==> j < low + |ds|
    decreases |ds|
  {
    hide CountClear;
    if ds != [] {
      assert ds[0] >= low && !bits[low];
      TakenAre(bits[ds[0] := true], ds[1..], bits', low + 1);
      assert forall k | 0 < k < |ds| :: ds[k] == ds[1..][k - 1];
    }
  }

  /** Formatting lays the bitmap in sector 2 and the directory in sectors 3 and 4. */
  lemma FormattedLayout(img: Image)
    requires Formatted(img)
    ensures HeaderAt(img, FREE_MAP_SECTOR).Data() == [2] && HeaderAt(img, DIRECTORY_SECTOR).Data() == [3, 4]
    ensures forall j | 0 <= j < NUM_SECTORS :: BitsOn(img)[j] <==> j < 5
  {
    hide DecodeHeader;
    hide DecodeTable;
    hide DecodeBits;
    hide Contents;
    hide Allocates;
    var blank := seq(NUM_SECTORS, _ => false)[FREE_MAP_SECTOR := true][DIRECTORY_SECTOR := true];
    var bits :| Allocates(blank, HeaderAt(img, FREE_MAP_SECTOR).Data(), bits)
             && Allocates(bits, HeaderAt(img, DIRECTORY_SECTOR).Data(), BitsOn(img));
    TakenAre(blank, HeaderAt(img, FREE_MAP_SECTOR).Data(), bits, 2);
    assert HeaderAt(img, FREE_MAP_SECTOR).Data() == [2];
    TakenAre(bits, HeaderAt(img, DIRECTORY_SECTOR).Data(), BitsOn(img), 3);
    assert HeaderAt(img, DIRECTORY_SECTOR).Data() == [3, 4];
  }

  /** Formatting establishes the invariant, although the bitmap that records its own sectors is one of the files. */
  lemma FormattedIsOk(img: Image)
    requires Formatted(img)
    ensures FsOk(img) && FilesOn(img) == map[] && CountClear(BitsOn(img)) == NUM_SECTORS - 5
  {
    hide DecodeHeader;
    hide DecodeTable;
    hide DecodeBits;
    hide Contents;
    hide Allocates;
    FormattedLayout(img);
    var dir := DirOn(img);
    assert Roots(dir) == {FREE_MAP_SECTOR, DIRECTORY_SECTOR};
    assert WellFormed(img);
    var files := VolumeOf(img).files;
    assert files[FREE_MAP_SECTOR] == [2] && files[DIRECTORY_SECTOR] == [3, 4];
    SystemFilesDisjoint(files, BitsOn(img));
    ClearAbove(BitsOn(img), 5);
    assert Keys(dir) == {};
  }

  lemma {:induction false} ClearAbove(bits: seq<bool>, low: nat)
    requires forall j | 0 <= j < |bits| :: bits[j] <==> j < low
    ensures CountClear(bits) == if |bits| <= low then 0 else |bits| - low
  {
    if bits != [] {
      ClearAbove(bits[..|bits| - 1], low);
    }
  }

  lemma SystemFilesDisjoint(files: map<int, seq<int>>, bits: seq<bool>)
    requires files.Keys == {FREE_MAP_SECTOR, DIRECTORY_SECTOR}
    requires files[FREE_MAP_SECTOR] == [2] && files[DIRECTORY_SECTOR] == [3, 4]
    requires |bits| == NUM_SECTORS && forall j | 0 <= j < NUM_SECTORS :: bits[j] <==> j < 5
    ensures Disjoint(files, bits)
  {
    assert forall hs, t :: Owns(files, hs, t) <==>
      (hs == 0 && (t == 0 || t == 2)) || (hs == 1 && (t == 1 || t == 3 || t == 4));
    assert Owns(files, 0, 0) && Owns(files, 1, 1) && Owns(files, 0, 2) && Owns(files, 1, 3) && Owns(files, 1, 4);
  }

  // ---------------------------------------------------------------------
  // Runs
  // ---------------------------------------------------------------------

  datatype Op =
    | Create(name: CString, size: nat)
    | Remove(name: CString)
    | Write(name: CString, position: nat, data: seq<byte>)

  /** What one operation does to the disk. The methods of FileSystem and OpenFile are proved to do this. */
  ghost predicate Step(img: Image, op: Op, img': Image)
    requires WellFormed(img)
  {
    match op
    case Create(name, size) =>
      if CanCreate(VolumeOf(img), name, size) then CreatedOn(img, name, size, img') else img' == img
    case Remove(name) =>
      if Absent(DirOn(img), Key(name)) then img' == img else RemovedOn(img, name, img')
    case Write(name, position, data) =>
      if Absent(DirOn(img), Key(name)) then img' == img else
        exists i :: WriteStep(img, i, name, position, data, img')
  }

  ghost predicate WriteStep(img: Image, i: int, name: CString, position: nat, data: seq<byte>, img': Image)
    requires WellFormed(img)
  {
    && Names(DirOn(img), i, Key(name))
    && var n := Transferred(|FileAt(img, i)|, |data|, position);
       if n == 0 then img' == img else WrittenAt(img, i, position, data[..n], img')
  }

  /** The file system as its users see it: byte strings under keys, and how many sectors are free. */
  datatype FileStore = FileStore(files: map<CString, seq<byte>>, free: nat)

  ghost function StoreOn(img: Image): (store: FileStore)
    requires WellFormed(img)
  {
    FileStore(FilesOn(img), CountClear(BitsOn(img)))
  }

  /** A file of `size` bytes takes one sector for its header and whole sectors for its bytes. */
  function SectorsFor(size: nat): (n: nat)
    ensures n >= 1 && (n - 2) * SECTOR_SIZE < size <= (n - 1) * SECTOR_SIZE
  {
    1 + DivRoundUp(size, SECTOR_SIZE)
  }

  predicate HasRoom(store: FileStore, name: CString, size: nat) {
    Key(name) !in store.files && |store.files| < NUM_DIR_ENTRIES && store.free >= SectorsFor(size)
  }

  /** The same operation on the file store. */
  ghost predicate AbstractStep(store: FileStore, op: Op, store': FileStore) {
    match op
    case Create(name, size) =>
      if HasRoom(store, name, size) then
        exists bytes ::
          |bytes| == size && store' == FileStore(store.files[Key(name) := bytes], store.free - SectorsFor(size))
      else store' == store
    case Remove(name) =>
      if Key(name) in store.files then
        store' == FileStore(store.files - {Key(name)}, store.free + SectorsFor(|store.files[Key(name)]|))
      else store' == store
    case Write(name, position, data) =>
      if Key(name) !in store.files then store' == store else
        var bytes := store.files[Key(name)];
        var n := Transferred(|bytes|, |data|, position);
        if n == 0 then store' == store
        else store' == store.(files := store.files[Key(name) := Splice(bytes, position, data[..n])])
  }

  lemma {:induction false} LiveCount(dir: seq<DirectoryEntry>)
    requires UniqueKeys(dir)
    ensures |Keys(dir)| <= |dir|
    ensures |Keys(dir)| == |dir| <==> Full(dir)
  {
    hide FieldKey;
    hide Keys;
    if dir == [] {
      NoKeys(dir);
    } else {
      var init := dir[..|dir| - 1];
      LiveCount(init);
      KeysOfLast(dir);
      assert Full(dir) <==> dir[|dir| - 1].inUse && Full(init) by {
        assert dir == init + [dir[|dir| - 1]];
      }
    }
  }

  lemma NoKeys(dir: seq<DirectoryEntry>)
    ensures (forall i | 0 <= i < |dir| :: !dir[i].inUse) ==> Keys(dir) == {}
  {
  }

  lemma KeysOfLast(dir: seq<DirectoryEntry>)
    requires UniqueKeys(dir) && dir != []
    ensures var n := |dir| - 1;
            if dir[n].inUse then FieldKey(dir[n].name) !in Keys(dir[..n])
                && Keys(dir) == Keys(dir[..n]) + {FieldKey(dir[n].name)}
            else Keys(dir) == Keys(dir[..n])
  {
    hide FieldKey;
    var n := |dir| - 1;
    var init := dir[..n];
    forall k | k in Keys(dir) && !(dir[n].inUse && FieldKey(dir[n].name) == k)
      ensures k in Keys(init)
    {
      var i :| 0 <= i < |dir| && dir[i].inUse && FieldKey(dir[i].name) == k;
      assert init[i] == dir[i];
    }
    forall k | k in Keys(init)
      ensures k in Keys(dir) && !(dir[n].inUse && FieldKey(dir[n].name) == k)
    {
      var i :| 0 <= i < n && init[i].inUse && FieldKey(init[i].name) == k;
      assert init[i] == dir[i];
    }
  }

  lemma CreateTakesSectors(img: Image, name: CString, size: nat, s: int, ds: seq<int>, i: int, img': Image)
    requires FsOk(img) && CreatedAt(img, name, size, s, ds, i, img')
    ensures CountClear(BitsOn(img')) == CountClear(BitsOn(img)) - SectorsFor(size)
  {
    hide Contents;
    hide DecodeHeader;
    hide DecodeTable;
    hide DecodeBits;
    hide Disjoint;
    hide TableOk;
    hide OnlySystem;
    hide StrnCpy;
    hide FieldKey;
    hide CountClear;
    hide Allocates;
    hide FilesOf;
    hide Roots;
    CountClearUpdate(BitsOn(img), s);
    AllocatesMarks(BitsOn(img)[s := true], ds, BitsOn(img'));
    assert s in FilesOf(img', Roots(DirOn(img')));
    FileOfRoot(img', Roots(DirOn(img')), s);
  }

  lemma RemoveFreesSectors(img: Image, name: CString, i: int, img': Image)
    requires FsOk(img) && RemovedAt(img, name, i, img')
    ensures DirOn(img)[i].inUse
    ensures CountClear(BitsOn(img')) == CountClear(BitsOn(img)) + SectorsFor(|FileAt(img, i)|)
  {
    hide Contents;
    hide DecodeHeader;
    hide DecodeTable;
    hide DecodeBits;
    hide TableOk;
    hide OnlySystem;
    hide Disjoint;
    hide CountClear;
    hide ClearAll;
    hide FilesOf;
    hide Roots;
    hide FieldKey;
    var dir, bits := DirOn(img), BitsOn(img);
    var s := dir[i].sector as int;
    LiveRoot(dir, i);
    FileOfRoot(img, Roots(dir), s);
    var files := VolumeOf(img).files;
    ReleaseCount(files, bits, s);
  }

  lemma ReleaseCount(files: map<int, seq<int>>, bits: seq<bool>, s: int)
    requires Disjoint(files, bits) && s in files
    ensures CountClear(ClearAll(bits, files[s])[s := false]) == CountClear(bits) + 1 + |files[s]|
  {
    var ds := files[s];
    ReleaseIsDisjoint(files, bits, s);
    assert forall k | 0 <= k < |ds| :: ds[k] in ds;
    ClearAllCount(bits, ds);
    ClearAllMeaning(bits, ds);
    assert Owns(files, s, s);
    var mid := ClearAll(bits, ds);
    assert mid[s := false][s := true] == mid;
    CountClearUpdate(mid[s := false], s);
  }

  lemma AbsentKey(img: Image, k: CString)
    requires WellFormed(img)
    ensures Absent(DirOn(img), k) <==> k !in FilesOn(img)
  {
    hide FieldKey;
    var dir := DirOn(img);
    if k in Keys(dir) {
      assert Names(dir, SlotOf(dir, k), k);
    }
  }

  /** Create's own tests, on the table and the bitmap, are those of the file store. */
  lemma CreateAllowed(img: Image, name: CString, size: nat)
    requires FsOk(img)
    ensures CanCreate(VolumeOf(img), name, size) <==> HasRoom(StoreOn(img), name, size)
  {
    hide Contents;
    hide DecodeHeader;
    hide DecodeTable;
    hide DecodeBits;
    hide Disjoint;
    hide FieldKey;
    hide Key;
    hide Keys;
    hide FileAt;
    AbsentKey(img, Key(name));
    LiveCount(DirOn(img));
    assert FilesOn(img).Keys == Keys(DirOn(img));
  }

  lemma CreateRefines(img: Image, name: CString, size: nat, img': Image)
    requires FsOk(img) && Step(img, Create(name, size), img')
    ensures FsOk(img') && AbstractStep(StoreOn(img), Create(name, size), StoreOn(img'))
  {
    hide Contents;
    hide DecodeHeader;
    hide DecodeTable;
    hide DecodeBits;
    hide Disjoint;
    hide CreatedAt;
    hide FieldKey;
    hide Key;
    hide Keys;
    hide FileAt;
    CreateAllowed(img, name, size);
    if CanCreate(VolumeOf(img), name, size) {
      var s, ds, i :| CreatedAt(img, name, size, s, ds, i, img');
      CreateAddsOneFile(img, name, size, s, ds, i, img');
      CreateTakesSectors(img, name, size, s, ds, i, img');
    }
  }

  lemma RemoveRefines(img: Image, name: CString, img': Image)
    requires FsOk(img) && Step(img, Remove(name), img')
    ensures FsOk(img') && AbstractStep(StoreOn(img), Remove(name), StoreOn(img'))
  {
    hide Contents;
    hide DecodeHeader;
    hide DecodeTable;
    hide DecodeBits;
    hide Disjoint;
    hide FieldKey;
    hide Key;
    hide Keys;
    hide FileAt;
    AbsentKey(img, Key(name));
    if !Absent(DirOn(img), Key(name)) {
      var i :| RemovedAt(img, name, i, img');
      RemoveTakesOneFile(img, name, i, img');
      RemoveFreesSectors(img, name, i, img');
      SlotIsUnique(DirOn(img), i, Key(name));
    }
  }

  lemma WriteRefines(img: Image, name: CString, position: nat, data: seq<byte>, img': Image)
    requires FsOk(img) && Step(img, Write(name, position, data), img')
    ensures FsOk(img') && AbstractStep(StoreOn(img), Write(name, position, data), StoreOn(img'))
  {
    hide Contents;
    hide DecodeHeader;
    hide DecodeTable;
    hide DecodeBits;
    hide Splice;
    hide FieldKey;
    hide Key;
    hide Keys;
    hide WrittenAt;
    hide FileAt;
    hide VolumeOk;
    AbsentKey(img, Key(name));
    if !Absent(DirOn(img), Key(name)) {
      var i :| WriteStep(img, i, name, position, data, img');
      UniqueInFs(img);
      SlotIsUnique(DirOn(img), i, Key(name));
      var n := Transferred(|FileAt(img, i)|, |data|, position);
      if n != 0 {
        WriteChangesOneFile(img, i, position, data[..n], img');
        WriteKeepsVolume(img, i, position, data[..n], img');
      }
    }
  }

  /** What Directory::Find's result means on a disk that satisfies the invariant. */
  lemma FindMeaning(img: Image, k: CString, found: int)
    requires FsOk(img)
    requires Absent(DirOn(img), k) ==> found == -1
    requires forall i :: FirstNamed(DirOn(img), i, k) ==> found == DirOn(img)[i].sector as int
    ensures found == -1 <==> Absent(DirOn(img), k)
    ensures found != -1 ==> found in Roots(DirOn(img))
    ensures found != -1 ==> exists i :: FirstNamed(DirOn(img), i, k) && DirOn(img)[i].sector as int == found
  {
    hide Contents;
    hide DecodeHeader;
    hide DecodeTable;
    hide DecodeBits;
    hide VolumeOk;
    hide FieldKey;
    if !Absent(DirOn(img), k) {
      var i :| 0 <= i < |DirOn(img)| && Names(DirOn(img), i, k);
      var j := FirstOfNamed(DirOn(img), k, i);
      LiveRoot(DirOn(img), j);
    }
  }

  lemma UniqueInFs(img: Image)
    requires FsOk(img)
    ensures UniqueKeys(DirOn(img))
  {
  }

  /** Every operation keeps the invariant and acts as it would on the file store. */
  lemma StepRefines(img: Image, op: Op, img': Image)
    requires FsOk(img) && Step(img, op, img')
    ensures FsOk(img') && AbstractStep(StoreOn(img), op, StoreOn(img'))
  {
    hide Step;
    hide AbstractStep;
    hide FsOk;
    match op
    case Create(name, size) => CreateRefines(img, name, size, img');
    case Remove(name) => RemoveRefines(img, name, img');
    case Write(name, position, data) => WriteRefines(img, name, position, data, img');
  }

  /** Creating a file and removing it again restores the marked set, the owners and every file. */
  lemma CreateThenRemoveUndoes(img: Image, name: CString, size: nat, img1: Image, img2: Image)
    requires FsOk(img) && CanCreate(VolumeOf(img), name, size)
    requires Step(img, Create(name, size), img1)
    requires WellFormed(img1) && Step(img1, Remove(name), img2)
    ensures FsOk(img2) && StoreOn(img2) == StoreOn(img)
    ensures BitsOn(img2) == BitsOn(img) && VolumeOf(img2).files == VolumeOf(img).files
    ensures forall x, k :: Names(DirOn(img2), x, k) <==> Names(DirOn(img), x, k)
    ensures forall x | 0 <= x < NUM_DIR_ENTRIES && DirOn(img)[x].inUse :: DirOn(img2)[x] == DirOn(img)[x]
  {
    hide Contents;
    hide DecodeHeader;
    hide DecodeTable;
    hide DecodeBits;
    hide Disjoint;
    hide TableOk;
    hide FieldKey;
    hide Key;
    hide Keys;
    hide FileAt;
    hide Created;
    hide Removed;
    hide OnlySystem;
    hide Roots;
    var s, ds, i :| CreatedAt(img, name, size, s, ds, i, img1);
    CreateAddsOneFile(img, name, size, s, ds, i, img1);
    AbsentKey(img1, Key(name));
    var j :| RemovedAt(img1, name, j, img2);
    RemoveTakesOneFile(img1, name, j, img2);
    CreateThenRemove(VolumeOf(img), name, s, ds, i, VolumeOf(img1), j, VolumeOf(img2));
  }

  /** `imgs` is what the disk holds before, between and after the operations `ops`. */
  ghost predicate Run(imgs: seq<Image>, ops: seq<Op>) {
    && |imgs| == |ops| + 1
    && forall k | 0 <= k < |ops| :: WellFormed(imgs[k]) ==> Step(imgs[k], ops[k], imgs[k + 1])
  }

  ghost predicate SafeStep(img: Image, op: Op, img': Image) {
    FsOk(img) && FsOk(img') && AbstractStep(StoreOn(img), op, StoreOn(img'))
  }

  lemma FormattedStore(img: Image)
    requires Formatted(img)
    ensures WellFormed(img) && StoreOn(img) == FileStore(map[], NUM_SECTORS - 5)
  {
    hide Formatted;
    hide FilesOn;
    hide Roots;
    hide VolumeOk;
    FormattedIsOk(img);
  }

  /** Over every run from a formatted disk the invariant holds, and the disk evolves as the file store does. */
  lemma RunsAreSafe(imgs: seq<Image>, ops: seq<Op>)
    requires Run(imgs, ops) && Formatted(imgs[0])
    ensures FsOk(imgs[0]) && StoreOn(imgs[0]) == FileStore(map[], NUM_SECTORS - 5)
    ensures forall k | 0 <= k < |ops| :: SafeStep(imgs[k], ops[k], imgs[k + 1])
  {
    hide Step;
    hide AbstractStep;
    hide FilesOn;
    hide VolumeOk;
    hide VolumeOf;
    hide Formatted;
    hide StoreOn;
    hide WellFormed;
    FormattedIsOk(imgs[0]);
    FormattedStore(imgs[0]);
    for n := 0 to |ops|
      invariant FsOk(imgs[n])
      invariant forall k | 0 <= k < n :: SafeStep(imgs[k], ops[k], imgs[k + 1])
    {
      StepRefines(imgs[n], ops[n], imgs[n + 1]);
    }
  }

  // ---------------------------------------------------------------------
  // Handles
  // ---------------------------------------------------------------------

  /** `h` is the header of the live file that `name` names. */
  ghost predicate LiveHeader(img: Image, name: CString, h: Header)
    requires WellFormed(img)
  {
    exists i :: HeaderOfEntry(img, i, name, h)
  }

  ghost predicate HeaderOfEntry(img: Image, i: int, name: CString, h: Header)
    requires WellFormed(img)
  {
    && Names(DirOn(img), i, Key(name))
    && DirOn(img)[i].sector as int in Roots(DirOn(img))
    && h == HeaderAt(img, DirOn(img)[i].sector as int)
  }

  /** Create's tests, in the user's terms: the name is new, there are fewer than ten files, and the clear sectors,
      one set aside for the header, hold the bytes. */
  lemma CreateSucceedsIff(img: Image, name: CString, size: nat)
    requires FsOk(img)
    ensures CanCreate(VolumeOf(img), name, size) <==>
              && Key(name) !in FilesOn(img) && |FilesOn(img)| < NUM_DIR_ENTRIES
              && (CountClear(BitsOn(img)) - 1) * SECTOR_SIZE >= size
  {
    hide FilesOn;
    hide CanCreate;
    hide FsOk;
    hide Key;
    CreateAllowed(img, name, size);
  }

  /** `s` and then `ds`, in increasing order, were clear and are the newly marked ones; they lie below every sector
      that stays clear. */
  ghost predicate LowestTaken(bits: seq<bool>, s: int, ds: seq<int>, bits': seq<bool>) {
    && |bits'| == |bits|
    && (forall t | t == s || t in ds :: 0 <= t < |bits| && !bits[t])
    && (forall t | 0 <= t < |bits| :: bits'[t] <==> bits[t] || t == s || t in ds)
    && (forall j, k | 0 <= j < k < |ds| :: ds[j] < ds[k])
    && (forall d | d in ds :: s < d)
    && (forall t | 0 <= t < |bits| && !bits'[t] :: s < t && forall d | d in ds :: d < t)
  }

  lemma AllocationTakesLowest(bits: seq<bool>, s: int, ds: seq<int>, bits': seq<bool>)
    requires LowestClear(bits, s) && Allocates(bits[s := true], ds, bits')
    ensures LowestTaken(bits, s, ds, bits')
  {
    AllocatesMarks(bits[s := true], ds, bits');
    AllocatesLowest(bits[s := true], ds, bits');
  }

  /** The new file's header `h` is at `s`, and its data take no more sectors than `size` bytes need, none for an empty
      file. */
  ghost predicate TakesFewestAt(img: Image, name: CString, size: nat, s: int, h: Header, img': Image) {
    && WellFormed(img) && WellFormed(img') && LiveHeader(img', name, h)
    && 0 <= s < NUM_SECTORS && HeaderAt(img', s) == h && h.numBytes as int == size
    && (|h.Data()| - 1) * SECTOR_SIZE < size <= |h.Data()| * SECTOR_SIZE
    && LowestTaken(BitsOn(img), s, h.Data(), BitsOn(img'))
  }

  ghost predicate TakesFewest(img: Image, name: CString, size: nat, img': Image) {
    exists s, h :: TakesFewestAt(img, name, size, s, h, img')
  }

  lemma CreateTakesFewest(img: Image, name: CString, size: nat, img': Image)
    requires FsOk(img) && CanCreate(VolumeOf(img), name, size) && Step(img, Create(name, size), img')
    ensures TakesFewest(img, name, size, img')
  {
    hide Contents;
    hide DecodeHeader;
    hide DecodeTable;
    hide DecodeBits;
    hide Disjoint;
    hide TableOk;
    hide OnlySystem;
    hide StrnCpy;
    hide FieldKey;
    hide Key;
    hide Allocates;
    hide Roots;
    var s, ds, i :| CreatedAt(img, name, size, s, ds, i, img');
    CreateAddsOneFile(img, name, size, s, ds, i, img');
    StoredKey(DirOn(img)[i].name, name);
    LiveRoot(DirOn(img'), i);
    FileOfRoot(img', Roots(DirOn(img')), s);
    AllocationTakesLowest(BitsOn(img), s, ds, BitsOn(img'));
    hide LowestTaken;
    var h := HeaderAt(img', s);
    assert HeaderOfEntry(img', i, name, h);
    assert TakesFewestAt(img, name, size, s, h, img');
  }

  /** What OpenFile.WriteAt does through a handle whose cached header is `h`: no name is looked up. */
  ghost predicate WrittenThrough(img: Image, h: Header, position: nat, data: seq<byte>, img': Image) {
    && |img| == |img'| == NUM_SECTORS && h.Ok()
    && (var n := Transferred(h.numBytes as int, |data|, position);
        if n == 0 then img' == img else Contents(img', h) == Splice(Contents(img, h), position, data[..n]))
    && forall s | 0 <= s < NUM_SECTORS && s !in h.Data() :: img'[s] == img[s]
  }

  /** Through a handle to a live file that is a Write step of the file system. */
  lemma HandleWriteIsStep(img: Image, name: CString, h: Header, position: nat, data: seq<byte>, img': Image)
    requires FsOk(img) && LiveHeader(img, name, h) && WrittenThrough(img, h, position, data, img')
    ensures Step(img, Write(name, position, data), img')
  {
    hide Contents;
    hide DecodeHeader;
    hide DecodeTable;
    hide DecodeBits;
    hide VolumeOk;
    hide Splice;
    hide Key;
    hide FieldKey;
    hide Roots;
    var i :| HeaderOfEntry(img, i, name, h);
    FileLength(img, i);
    assert WriteStep(img, i, name, position, data, img');
  }

  // ---------------------------------------------------------------------
  // The writes that make up one operation
  // ---------------------------------------------------------------------

  /** Create's three writes: the new header, the directory, the bitmap. */
  lemma CreateFlushed(img: Image, name: CString, h: Header, s: int, i: int, bits': seq<bool>, img1: Image,
      img2: Image, img3: Image)
    requires FsOk(img) && Absent(DirOn(img), Key(name)) && h.Ok() && |img1| == |img2| == |img3| == NUM_SECTORS
    requires LowestClear(BitsOn(img), s) && Allocates(BitsOn(img)[s := true], h.Data(), bits')
    requires s < NUM_SECTORS && DecodeHeader(img1[s]) == h
    requires FirstFree(DirOn(img), i)
    requires forall t | 0 <= t < NUM_SECTORS && t != s :: img1[t] == img[t]
    requires forall t | 0 <= t < NUM_SECTORS && t !in HeaderAt(img, DIRECTORY_SECTOR).Data() :: img2[t] == img1[t]
    requires forall t | 0 <= t < NUM_SECTORS && t !in HeaderAt(img, FREE_MAP_SECTOR).Data() :: img3[t] == img2[t]
    requires DecodeTable(Contents(img2, HeaderAt(img, DIRECTORY_SECTOR)))
          == DirOn(img)[i := DirectoryEntry(true, s as int32, StrnCpy(DirOn(img)[i].name, name))]
    requires DecodeBits(Contents(img3, HeaderAt(img, FREE_MAP_SECTOR))) == bits'
    ensures FsOk(img3) && CreatedOn(img, name, h.numBytes as nat, img3)
    ensures HeaderAt(img3, FREE_MAP_SECTOR) == HeaderAt(img, FREE_MAP_SECTOR)
    ensures HeaderAt(img3, DIRECTORY_SECTOR) == HeaderAt(img, DIRECTORY_SECTOR)
  {
    hide Contents;
    hide DecodeHeader;
    hide DecodeTable;
    hide DecodeBits;
    hide VolumeOk;
    hide StrnCpy;
    hide Key;
    hide FieldKey;
    hide Allocates;
    hide CreatedAt;
    hide OnlySystem;
    hide Roots;
    SystemFilesApart(img, img2, img3, HeaderAt(img, FREE_MAP_SECTOR), HeaderAt(img, DIRECTORY_SECTOR));
    NewHeaderSurvives(img, s, img1, img2, img3);
    CreateImage(img, name, h, s, i, bits', img3);
    CreateAddsOneFile(img, name, h.numBytes as nat, s, h.Data(), i, img3);
  }

  /** Remove's two writes: the bitmap, the directory. */
  lemma RemoveFlushed(img: Image, name: CString, i: int, bits': seq<bool>, img1: Image, img2: Image)
    requires FsOk(img) && FirstNamed(DirOn(img), i, Key(name)) && |img1| == |img2| == NUM_SECTORS
    requires var s := DirOn(img)[i].sector as int;
             && 0 <= s < NUM_SECTORS && HeaderAt(img, s).Ok()
             && bits' == ClearAll(BitsOn(img), HeaderAt(img, s).Data())[s := false]
    requires forall t | 0 <= t < NUM_SECTORS && t !in HeaderAt(img, FREE_MAP_SECTOR).Data() :: img1[t] == img[t]
    requires forall t | 0 <= t < NUM_SECTORS && t !in HeaderAt(img, DIRECTORY_SECTOR).Data() :: img2[t] == img1[t]
    requires DecodeBits(Contents(img1, HeaderAt(img, FREE_MAP_SECTOR))) == bits'
    requires DecodeTable(Contents(img2, HeaderAt(img, DIRECTORY_SECTOR))) ==
        DirOn(img)[i := DirOn(img)[i].(inUse := false)]
    ensures FsOk(img2) && RemovedOn(img, name, img2)
    ensures HeaderAt(img2, FREE_MAP_SECTOR) == HeaderAt(img, FREE_MAP_SECTOR)
    ensures HeaderAt(img2, DIRECTORY_SECTOR) == HeaderAt(img, DIRECTORY_SECTOR)
  {
    hide Contents;
    hide DecodeHeader;
    hide DecodeTable;
    hide DecodeBits;
    hide VolumeOk;
    hide Key;
    hide FieldKey;
    hide RemovedAt;
    hide Roots;
    hide ClearAll;
    SystemFilesApart(img, img1, img2, HeaderAt(img, DIRECTORY_SECTOR), HeaderAt(img, FREE_MAP_SECTOR));
    assert OnlySystem(img, NO_SECTOR, img2);
    NoSectorUnused(img);
    SystemFilesSurvive(img, NO_SECTOR, img2);
    RemoveImage(img, name, i, bits', img2);
    RemoveTakesOneFile(img, name, i, img2);
  }

  lemma CreateStep(img: Image, name: CString, size: nat, success: bool, img': Image)
    requires FsOk(img)
    requires success <==>
      Absent(DirOn(img), Key(name)) && !Full(DirOn(img)) && CountClear(BitsOn(img)) >= SectorsFor(size)
    requires if success then CreatedOn(img, name, size, img') else img' == img
    ensures success <==> CanCreate(VolumeOf(img), name, size)
    ensures Step(img, Create(name, size), img')
  {
  }

  lemma RemoveStep(img: Image, name: CString, success: bool, img': Image)
    requires FsOk(img)
    requires success <==> !Absent(DirOn(img), Key(name))
    requires if success then RemovedOn(img, name, img') else img' == img
    ensures Step(img, Remove(name), img')
  {
  }
}
