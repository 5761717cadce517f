/** filesys/filesys.cc: formatting, Create, Open and Remove over the disk. */
module FileSystems {
  import opened Bytes
  import opened Bitmaps
  import opened SynchDisks
  import opened FileHeaders
  import opened OpenFiles
  import opened Directories
  import PersistentBitmaps
  import opened Volumes
  import opened DiskStates

  /** The image that formatting leaves: headers first, then the bitmap file, then the directory file. */
  lemma FormatImage(img1: Image, img2: Image, img3: Image, hm: Header, hd: Header, mid: seq<bool>, bits: seq<bool>)
    requires |img1| == |img2| == |img3| == NUM_SECTORS
    requires DecodeHeader(img1[FREE_MAP_SECTOR]) == hm && hm.Ok() && hm.numBytes as int == FREE_MAP_FILE_SIZE
    requires DecodeHeader(img1[DIRECTORY_SECTOR]) == hd && hd.Ok() && hd.numBytes as int == DIRECTORY_FILE_SIZE
    requires Allocates(seq(NUM_SECTORS, _ => false)[FREE_MAP_SECTOR := true][DIRECTORY_SECTOR := true], hm.Data(), mid)
    requires Allocates(mid, hd.Data(), bits)
    requires forall t | 0 <= t < NUM_SECTORS && t !in hm.Data() :: img2[t] == img1[t]
    requires forall t | 0 <= t < NUM_SECTORS && t !in hd.Data() :: img3[t] == img2[t]
    requires DecodeBits(Contents(img2, hm)) == bits
    requires forall i | 0 <= i < NUM_DIR_ENTRIES :: !DecodeTable(Contents(img3, hd))[i].inUse
    ensures Formatted(img3) && HeaderAt(img3, FREE_MAP_SECTOR) == hm && HeaderAt(img3, DIRECTORY_SECTOR) == hd
  {
    hide Contents;
    hide DecodeHeader;
    hide DecodeTable;
    hide DecodeBits;
    hide Allocates;
    var blank := seq(NUM_SECTORS, _ => false)[FREE_MAP_SECTOR := true][DIRECTORY_SECTOR := true];
    TakenAre(blank, hm.Data(), mid, 2);
    assert hm.Data() == [2];
    TakenAre(mid, hd.Data(), bits, 3);
    assert hd.Data() == [3, 4];
    ContentsDependOnData(img2, img3, hm);
    assert img3[FREE_MAP_SECTOR] == img1[FREE_MAP_SECTOR] && img3[DIRECTORY_SECTOR] == img1[DIRECTORY_SECTOR];
    assert BitsOn(img3) == bits;
  }

  /** There is room for the two system files on a blank disk. */
  lemma BlankHasRoom(bits: seq<bool>, ds: seq<int>, bits': seq<bool>)
    requires bits == seq(NUM_SECTORS, _ => false)[FREE_MAP_SECTOR := true][DIRECTORY_SECTOR := true]
    ensures CountClear(bits) == NUM_SECTORS - 2
    ensures Allocates(bits, ds, bits') ==> CountClear(bits') == NUM_SECTORS - 2 - |ds|
  {
    ClearAbove(bits, 2);
    if Allocates(bits, ds, bits') {
      AllocatesMarks(bits, ds, bits');
    }
  }

  lemma SystemHeadersOk(img: Image)
    requires FsOk(img)
    ensures |img| == NUM_SECTORS
    ensures DecodeHeader(img[FREE_MAP_SECTOR]).Ok()
        && DecodeHeader(img[FREE_MAP_SECTOR]).numBytes as int == FREE_MAP_FILE_SIZE
    ensures DecodeHeader(img[DIRECTORY_SECTOR]).Ok()
        && DecodeHeader(img[DIRECTORY_SECTOR]).numBytes as int == DIRECTORY_FILE_SIZE
  {
    hide DecodeHeader;
    hide VolumeOk;
  }

  /** Deallocate's assertion never fails on the header of a live file: all its data sectors are marked. */
  lemma DataIsMarked(img: Image, hs: int)
    requires FsOk(img) && hs in Roots(DirOn(img))
    ensures 0 <= hs < NUM_SECTORS && HeaderAt(img, hs).Ok()
    ensures forall d | d in HeaderAt(img, hs).Data() :: 0 <= d < NUM_SECTORS && BitsOn(img)[d]
  {
    hide Contents;
    hide DecodeHeader;
    hide DecodeTable;
    hide DecodeBits;
    hide Disjoint;
    Owners(img);
    FileOfRoot(img, Roots(DirOn(img)), hs);
    ReleaseIsDisjoint(VolumeOf(img).files, BitsOn(img), hs);
  }

  class FileSystem {
    const disk: SynchDisk
    var freeMapFile: OpenFile
    var directoryFile: OpenFile

    /** The two system files stay open, so their in-memory headers must match the disk. */
    ghost predicate Handles()
      reads this, freeMapFile.hdr, freeMapFile.hdr.dataSectors, directoryFile.hdr, directoryFile.hdr.dataSectors,
          disk.store
    {
      && disk.Valid() && freeMapFile.disk == disk && directoryFile.disk == disk
      && freeMapFile.Valid() && directoryFile.Valid()
      && freeMapFile.hdr.View() == HeaderAt(disk.store[..], FREE_MAP_SECTOR)
      && directoryFile.hdr.View() == HeaderAt(disk.store[..], DIRECTORY_SECTOR)
    }

    ghost predicate Valid()
      reads this, freeMapFile.hdr, freeMapFile.hdr.dataSectors, directoryFile.hdr, directoryFile.hdr.dataSectors,
          disk.store
    {
      Handles() && FsOk(disk.store[..])
    }

    /** Formatting, first half: mark the two header sectors and allocate the two system files. */
    static method AllocateSystemFiles(freeMap: Bitmap, mapHdr: FileHeader, dirHdr: FileHeader)
      returns (ghost mid: seq<bool>)
      requires freeMap.Valid() && freeMap.numBits == NUM_SECTORS && freeMap.Bits() == seq(NUM_SECTORS, _ => false)
      requires mapHdr.Valid() && dirHdr.Valid() && mapHdr != dirHdr && mapHdr.dataSectors != dirHdr.dataSectors
      modifies freeMap.words, mapHdr, mapHdr.dataSectors, dirHdr, dirHdr.dataSectors
      ensures Allocates(seq(NUM_SECTORS, _ => false)[FREE_MAP_SECTOR := true][DIRECTORY_SECTOR := true],
                        mapHdr.View().Data(), mid)
      ensures Allocates(mid, dirHdr.View().Data(), freeMap.Bits())
      ensures mapHdr.View().Ok() && mapHdr.numBytes as int == FREE_MAP_FILE_SIZE
      ensures dirHdr.View().Ok() && dirHdr.numBytes as int == DIRECTORY_FILE_SIZE
    {
      hide Allocates;
      hide CountClear;
      freeMap.Mark(FREE_MAP_SECTOR);
      freeMap.Mark(DIRECTORY_SECTOR);
      ghost var blank := freeMap.Bits();

      BlankHasRoom(blank, [], blank);
      var mapOk := mapHdr.Allocate(freeMap, FREE_MAP_FILE_SIZE as int32);
      assert mapOk;  // the source's ASSERT
      ghost var hm := mapHdr.View();
      mid := freeMap.Bits();
      BlankHasRoom(blank, hm.Data(), mid);
      var dirOk := dirHdr.Allocate(freeMap, DIRECTORY_FILE_SIZE as int32);
      assert dirOk;  // the source's ASSERT
      assert mapHdr.View() == hm;
    }

    /** Formatting, second half: headers to disk, open the two files, write their first contents. */
    static method WriteSystemFiles(disk: SynchDisk, freeMap: Bitmap, directory: Directory, mapHdr: FileHeader,
        dirHdr: FileHeader, ghost mid: seq<bool>)
      returns (mapFile: OpenFile, dirFile: OpenFile)
      requires disk.Valid() && freeMap.Valid() && freeMap.numBits == NUM_SECTORS
      requires directory.Valid() && directory.tableSize == NUM_DIR_ENTRIES
      requires forall i | 0 <= i < NUM_DIR_ENTRIES :: !directory.table[i].inUse
      requires mapHdr.Valid() && mapHdr.View().Ok() && mapHdr.numBytes as int == FREE_MAP_FILE_SIZE
      requires dirHdr.Valid() && dirHdr.View().Ok() && dirHdr.numBytes as int == DIRECTORY_FILE_SIZE
      requires Allocates(seq(NUM_SECTORS, _ => false)[FREE_MAP_SECTOR := true][DIRECTORY_SECTOR := true],
                         mapHdr.View().Data(), mid)
      requires Allocates(mid, dirHdr.View().Data(), freeMap.Bits())
      modifies disk.store
      ensures Formatted(disk.store[..])
      ensures mapFile.disk == disk && mapFile.Valid() && mapFile.hdr.View() == HeaderAt(disk.store[..], FREE_MAP_SECTOR)
      ensures dirFile.disk == disk && dirFile.Valid()
          && dirFile.hdr.View() == HeaderAt(disk.store[..], DIRECTORY_SECTOR)
    {
      hide Contents;
      hide DecodeHeader;
      hide EncodeHeader;
      hide DecodeTable;
      hide DecodeWords;
      hide BitsOfWords;
      hide Allocates;
      hide Formatted;
      ghost var hm, hd, bits := mapHdr.View(), dirHdr.View(), freeMap.Bits();
      HeaderRoundTrip(hm);
      HeaderRoundTrip(hd);
      mapHdr.WriteBack(disk, FREE_MAP_SECTOR);
      dirHdr.WriteBack(disk, DIRECTORY_SECTOR);
      ghost var img1 := disk.store[..];

      mapFile := new OpenFile(disk, FREE_MAP_SECTOR);
      dirFile := new OpenFile(disk, DIRECTORY_SECTOR);
      assert mapFile.hdr.View() == hm && dirFile.hdr.View() == hd;

      PersistentBitmaps.WriteBack(freeMap, mapFile);
      ghost var img2 := disk.store[..];
      assert DecodeBits(Contents(img2, hm)) == bits;
      directory.WriteBack(dirFile);
      FormatImage(img1, img2, disk.store[..], hm, hd, mid, bits);
    }

    static method OpenSystemFiles(disk: SynchDisk) returns (mapFile: OpenFile, dirFile: OpenFile)
      requires disk.Valid() && FsOk(disk.store[..])
      ensures mapFile.disk == disk && mapFile.Valid() && mapFile.hdr.View() == HeaderAt(disk.store[..], FREE_MAP_SECTOR)
      ensures dirFile.disk == disk && dirFile.Valid()
          && dirFile.hdr.View() == HeaderAt(disk.store[..], DIRECTORY_SECTOR)
    {
      hide DecodeHeader;
      hide Header.Ok;
      hide FsOk;
      SystemHeadersOk(disk.store[..]);
      mapFile := new OpenFile(disk, FREE_MAP_SECTOR);
      dirFile := new OpenFile(disk, DIRECTORY_SECTOR);
    }

    constructor (disk: SynchDisk, format: bool)
      requires disk.Valid()
      requires !format ==> FsOk(disk.store[..])
      modifies disk.store
      ensures this.disk == disk && Valid()
      ensures format ==> Formatted(disk.store[..])
      ensures !format ==> disk.store[..] == old(disk.store[..])
    {
      hide HeaderAt;
      hide Header.Ok;
      hide Formatted;
      hide FsOk;
      this.disk := disk;
      if format {
        var freeMap := new Bitmap(NUM_SECTORS);
        var directory := new Directory(NUM_DIR_ENTRIES);
        var mapHdr := new FileHeader();
        var dirHdr := new FileHeader();
        ghost var mid := AllocateSystemFiles(freeMap, mapHdr, dirHdr);
        var mapFile, dirFile := WriteSystemFiles(disk, freeMap, directory, mapHdr, dirHdr, mid);
        freeMapFile, directoryFile := mapFile, dirFile;
        FormattedIsOk(disk.store[..]);
      } else {
        var mapFile, dirFile := OpenSystemFiles(disk);
        freeMapFile, directoryFile := mapFile, dirFile;
      }
      ghost var img := disk.store[..];
      new;
      assert disk.store[..] == img;
      assert freeMapFile.hdr.View() == HeaderAt(img, FREE_MAP_SECTOR);
      assert directoryFile.hdr.View() == HeaderAt(img, DIRECTORY_SECTOR);
    }

    method FetchDirectory() returns (directory: Directory)
      requires Valid()
      ensures fresh(directory) && fresh(directory.table) && directory.Valid() && directory.tableSize == NUM_DIR_ENTRIES
      ensures directory.table[..] == DirOn(disk.store[..])
    {
      hide Contents;
      hide DecodeTable;
      hide VolumeOk;
      directory := new Directory(NUM_DIR_ENTRIES);
      directory.FetchFrom(directoryFile);
    }

    method FetchFreeMap() returns (freeMap: Bitmap)
      requires Valid()
      ensures fresh(freeMap) && fresh(freeMap.words) && freeMap.Valid() && freeMap.numBits == NUM_SECTORS
      ensures freeMap.Bits() == BitsOn(disk.store[..])
    {
      hide Contents;
      hide DecodeWords;
      hide VolumeOk;
      freeMap := new Bitmap(NUM_SECTORS);
      PersistentBitmaps.FetchFrom(freeMap, freeMapFile);
    }

    /** Create's flush of a new header, the directory and the bitmap, in that order. */
    method FlushCreate(hdr: FileHeader, sector: int, directory: Directory, freeMap: Bitmap, ghost name: CString,
        ghost slot: int)
      requires Valid() && hdr.Valid() && hdr.View().Ok()
      requires directory.Valid() && directory.tableSize == NUM_DIR_ENTRIES
      requires freeMap.Valid() && freeMap.numBits == NUM_SECTORS
      requires Absent(DirOn(disk.store[..]), Key(name))
      requires LowestClear(BitsOn(disk.store[..]), sector) && sector < NUM_SECTORS
      requires Allocates(BitsOn(disk.store[..])[sector := true], hdr.View().Data(), freeMap.Bits())
      requires FirstFree(DirOn(disk.store[..]), slot)
      requires directory.table[..] == DirOn(disk.store[..])[slot :=
                 DirectoryEntry(true, sector as int32, StrnCpy(DirOn(disk.store[..])[slot].name, name))]
      modifies disk.store
      ensures Valid()
      ensures CreatedOn(old(disk.store[..]), name, hdr.numBytes as nat, disk.store[..])
    {
      hide Contents;
      hide DecodeHeader;
      hide EncodeHeader;
      hide DecodeTable;
      hide DecodeWords;
      hide BitsOfWords;
      hide Allocates;
      hide VolumeOk;
      hide StrnCpy;
      hide Key;
      hide FieldKey;
      hide Header.Ok;
      hide FsOk;
      hide CreatedOn;
      ghost var img, h, bits := disk.store[..], hdr.View(), freeMap.Bits();
      SystemHeadersOk(img);
      HeaderRoundTrip(h);
      hdr.WriteBack(disk, sector);
      ghost var img1 := disk.store[..];
      directory.WriteBack(directoryFile);
      ghost var img2 := disk.store[..];
      PersistentBitmaps.WriteBack(freeMap, freeMapFile);
      ghost var img3 := disk.store[..];
      assert DecodeBits(Contents(img3, freeMapFile.hdr.View())) == bits;
      CreateFlushed(img, name, h, sector, slot, bits, img1, img2, img3);
    }

    /** Create's work in memory: a sector for the header, an entry, and sectors for the data. */
    method Reserve(directory: Directory, freeMap: Bitmap, hdr: FileHeader, name: CString, initialSize: int32)
      returns (success: bool, sector: int, ghost slot: int)
      requires 0 <= initialSize as int <= MAX_FILE_SIZE
      requires directory.Valid() && freeMap.Valid() && freeMap.numBits == NUM_SECTORS && hdr.Valid()
      requires directory.table as object != freeMap.words && directory.table as object != hdr.dataSectors
      requires freeMap.words as object != hdr.dataSectors
      requires Absent(directory.table[..], Key(name))
      modifies directory.table, freeMap.words, hdr, hdr.dataSectors
      ensures success <==>
        !Full(old(directory.table[..])) && CountClear(old(freeMap.Bits())) >= SectorsFor(initialSize as nat)
      ensures success ==>
                && LowestClear(old(freeMap.Bits()), sector) && sector < NUM_SECTORS
                && Allocates(old(freeMap.Bits())[sector := true], hdr.View().Data(), freeMap.Bits())
                && hdr.View().Ok() && hdr.numBytes == initialSize
                && FirstFree(old(directory.table[..]), slot)
                && directory.table[..] == old(directory.table[..])[slot :=
                     DirectoryEntry(true, sector as int32, StrnCpy(old(directory.table[..])[slot].name, name))]
    {
      hide Allocates;
      hide StrnCpy;
      hide Key;
      hide FieldKey;
      hide CountClear;
      ghost var bits, table := freeMap.Bits(), directory.table[..];
      slot := 0;
      sector := freeMap.FindAndSet();
      if sector == -1 {
        return false, sector, slot;
      }
      CountClearUpdate(bits, sector);
      var added := directory.Add(name, sector as int32);
      if !added {
        return false, sector, slot;
      }
      slot :| FirstFree(table, slot)
           && var entry := DirectoryEntry(true, sector as int32, StrnCpy(table[slot].name, name));
              directory.table[..] == table[slot := entry];
      success := hdr.Allocate(freeMap, initialSize);
    }

    method Create(name: CString, initialSize: int32) returns (success: bool)
      requires Valid() && 0 <= initialSize as int <= MAX_FILE_SIZE
      modifies disk.store
      ensures Valid()
      ensures var img := old(disk.store[..]);
              && (success <==> CanCreate(VolumeOf(img), name, initialSize as nat))
              && (success <==> Key(name) !in FilesOn(img) && |FilesOn(img)| < NUM_DIR_ENTRIES
                               && (CountClear(BitsOn(img)) - 1) * SECTOR_SIZE >= initialSize as int)
      ensures !success ==> disk.store[..] == old(disk.store[..])
      ensures success ==> TakesFewest(old(disk.store[..]), name, initialSize as nat, disk.store[..])
      ensures Step(old(disk.store[..]), DiskStates.Create(name, initialSize as nat), disk.store[..])
    {
      hide Contents;
      hide DecodeHeader;
      hide DecodeTable;
      hide DecodeBits;
      hide Allocates;
      hide VolumeOk;
      hide StrnCpy;
      hide Key;
      hide FieldKey;
      hide CountClear;
      hide CreatedOn;
      hide CanCreate;
      hide Step;
      hide Roots;
      hide FilesOn;
      hide TakesFewest;
      ghost var img := disk.store[..];
      CreateSucceedsIff(img, name, initialSize as nat);
      var directory := FetchDirectory();
      var found := directory.Find(name);
      FindMeaning(img, Key(name), found);
      if found != -1 {
        CreateStep(img, name, initialSize as nat, false, img);
        return false;
      }
      var freeMap := FetchFreeMap();
      var hdr := new FileHeader();
      ghost var slot: int;
      var sector: int;
      success, sector, slot := Reserve(directory, freeMap, hdr, name, initialSize);
      if success {
        FlushCreate(hdr, sector, directory, freeMap, name, slot);
      }
      CreateStep(img, name, initialSize as nat, success, disk.store[..]);
      if success {
        CreateTakesFewest(img, name, initialSize as nat, disk.store[..]);
      }
    }

    method Open(name: CString) returns (openFile: OpenFile?)
      requires Valid()
      ensures openFile == null <==> Absent(DirOn(disk.store[..]), Key(name))
      ensures openFile != null ==>
                && fresh(openFile) && openFile.disk == disk && openFile.Valid() && openFile.seekPosition == 0
                && LiveHeader(disk.store[..], name, openFile.hdr.View())
    {
      hide Contents;
      hide DecodeHeader;
      hide DecodeTable;
      hide DecodeBits;
      hide VolumeOk;
      hide Key;
      hide FieldKey;
      hide Roots;
      hide Header.Ok;
      ghost var img := disk.store[..];
      openFile := null;
      var directory := FetchDirectory();
      var sector := directory.Find(name);
      FindMeaning(img, Key(name), sector);
      if sector >= 0 {
        openFile := new OpenFile(disk, sector);
        ghost var i :| FirstNamed(DirOn(img), i, Key(name)) && DirOn(img)[i].sector as int == sector;
        assert HeaderOfEntry(img, i, name, openFile.hdr.View());
      }
    }

    /** Remove's flush of the bitmap and the directory, in that order. */
    method FlushRemove(directory: Directory, freeMap: Bitmap, ghost name: CString, ghost slot: int)
      requires Valid()
      requires directory.Valid() && directory.tableSize == NUM_DIR_ENTRIES
      requires freeMap.Valid() && freeMap.numBits == NUM_SECTORS
      requires FirstNamed(DirOn(disk.store[..]), slot, Key(name))
      requires directory.table[..] == DirOn(disk.store[..])[slot := DirOn(disk.store[..])[slot].(inUse := false)]
      requires var s := DirOn(disk.store[..])[slot].sector as int;
               && 0 <= s < NUM_SECTORS && HeaderAt(disk.store[..], s).Ok()
               && freeMap.Bits() == ClearAll(BitsOn(disk.store[..]), HeaderAt(disk.store[..], s).Data())[s := false]
      modifies disk.store
      ensures Valid()
      ensures RemovedOn(old(disk.store[..]), name, disk.store[..])
    {
      hide Contents;
      hide DecodeHeader;
      hide DecodeTable;
      hide DecodeWords;
      hide BitsOfWords;
      hide ClearAll;
      hide VolumeOk;
      hide Key;
      hide FieldKey;
      hide Header.Ok;
      hide FsOk;
      hide RemovedOn;
      ghost var img, bits := disk.store[..], freeMap.Bits();
      SystemHeadersOk(img);
      PersistentBitmaps.WriteBack(freeMap, freeMapFile);
      ghost var img1 := disk.store[..];
      assert DecodeBits(Contents(img1, freeMapFile.hdr.View())) == bits;
      directory.WriteBack(directoryFile);
      RemoveFlushed(img, name, slot, bits, img1, disk.store[..]);
    }

    /** Remove's work in memory: free the data sectors and the header sector, and drop the entry. */
    method Release(directory: Directory, freeMap: Bitmap, fileHdr: FileHeader, name: CString, sector: int)
      returns (ghost slot: int)
      requires directory.Valid() && freeMap.Valid() && freeMap.numBits == NUM_SECTORS && fileHdr.Valid()
      requires directory.table as object != freeMap.words && directory.table as object != fileHdr.dataSectors
      requires freeMap.words as object != fileHdr.dataSectors
      requires 0 <= sector < NUM_SECTORS && fileHdr.View().Ok()
      requires forall d | d in fileHdr.View().Data() :: freeMap.Bits()[d]
      requires !Absent(directory.table[..], Key(name))
      modifies directory.table, freeMap.words
      ensures freeMap.Bits() == ClearAll(old(freeMap.Bits()), fileHdr.View().Data())[sector := false]
      ensures FirstNamed(old(directory.table[..]), slot, Key(name))
      ensures directory.table[..] == old(directory.table[..])[slot := old(directory.table[..])[slot].(inUse := false)]
    {
      hide Key;
      hide FieldKey;
      hide ClearAll;
      ghost var table := directory.table[..];
      fileHdr.Deallocate(freeMap);
      freeMap.Clear(sector);
      var _ := directory.Remove(name);
      slot :| FirstNamed(table, slot, Key(name)) && directory.table[..] == table[slot := table[slot].(inUse := false)];
    }

    method Remove(name: CString) returns (success: bool)
      requires Valid()
      modifies disk.store
      ensures Valid()
      ensures success <==> !Absent(DirOn(old(disk.store[..])), Key(name))
      ensures Step(old(disk.store[..]), DiskStates.Remove(name), disk.store[..])
    {
      hide Contents;
      hide DecodeHeader;
      hide DecodeTable;
      hide DecodeBits;
      hide VolumeOk;
      hide Key;
      hide FieldKey;
      hide Roots;
      hide Header.Ok;
      hide ClearAll;
      hide RemovedOn;
      hide Step;
      ghost var img := disk.store[..];
      var directory := FetchDirectory();
      var sector := directory.Find(name);
      FindMeaning(img, Key(name), sector);
      if sector == -1 {
        RemoveStep(img, name, false, img);
        return false;
      }
      DataIsMarked(img, sector);
      var fileHdr := new FileHeader();
      fileHdr.FetchFrom(disk, sector);
      assert fileHdr.View() == HeaderAt(img, sector);
      var freeMap := FetchFreeMap();
      ghost var slot := Release(directory, freeMap, fileHdr, name, sector);
      assert DirOn(img)[slot].sector as int == sector;
      FlushRemove(directory, freeMap, name, slot);
      RemoveStep(img, name, true, disk.store[..]);
      return true;
    }
  }
}
