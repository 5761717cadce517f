/** Open files: a handle keeps the header that Open read, and later writes go through it while other files come and
    go. filesys/openfile.cc, filesys/filesys.cc. */
module Handles {
  import opened Bytes
  import opened Bitmaps
  import opened SynchDisks
  import opened FileHeaders
  import opened OpenFiles
  import opened Directories
  import opened Volumes
  import opened DiskStates
  import opened FileSystems

  // ---------------------------------------------------------------------
  // A handle stays good
  // ---------------------------------------------------------------------

  /** What a handle to a live file reads is what the file system has under the name. */
  lemma LiveContents(img: Image, name: CString, h: Header)
    requires FsOk(img) && LiveHeader(img, name, h)
    ensures WellFormed(img) && |img| == NUM_SECTORS
    ensures h.Ok() && Key(name) in FilesOn(img) && FilesOn(img)[Key(name)] == Contents(img, h)
  {
    hide Contents;
    hide DecodeHeader;
    hide DecodeTable;
    hide DecodeBits;
    hide Disjoint;
    hide Key;
    hide FieldKey;
    hide Roots;
    hide Header.Ok;
    hide SlotOf;
    var i :| HeaderOfEntry(img, i, name, h);
    SlotIsUnique(DirOn(img), i, Key(name));
    LiveRoot(DirOn(img), i);
  }

  lemma CreateLeavesLive(img: Image, name: CString, h: Header, other: CString, size: nat, img': Image)
    requires FsOk(img) && LiveHeader(img, name, h) && WellFormed(img') && CreatedOn(img, other, size, img')
    ensures LiveHeader(img', name, h)
  {
    hide Contents;
    hide DecodeHeader;
    hide DecodeTable;
    hide DecodeBits;
    hide VolumeOk;
    hide OnlySystem;
    hide StrnCpy;
    hide Key;
    hide FieldKey;
    hide Roots;
    hide LowestClear;
    hide Allocates;
    var i :| HeaderOfEntry(img, i, name, h);
    var s, ds, j :| CreatedAt(img, other, size, s, ds, j, img');
    ClearSectorUnused(img, s);
    HeadersSurvive(img, s, img', DirOn(img)[i].sector as int);
    assert DirOn(img')[i] == DirOn(img)[i];
    LiveRoot(DirOn(img'), i);
    assert HeaderOfEntry(img', i, name, h);
  }

  lemma RemoveLeavesLive(img: Image, name: CString, h: Header, other: CString, img': Image)
    requires FsOk(img) && LiveHeader(img, name, h) && WellFormed(img')
    requires Key(other) != Key(name) && RemovedOn(img, other, img')
    ensures LiveHeader(img', name, h)
  {
    hide Contents;
    hide DecodeHeader;
    hide DecodeTable;
    hide DecodeBits;
    hide VolumeOk;
    hide OnlySystem;
    hide Key;
    hide FieldKey;
    hide Roots;
    hide ClearAll;
    var i :| HeaderOfEntry(img, i, name, h);
    var j :| RemovedAt(img, other, j, img');
    NoSectorUnused(img);
    HeadersSurvive(img, NO_SECTOR, img', DirOn(img)[i].sector as int);
    assert DirOn(img')[i] == DirOn(img)[i];
    LiveRoot(DirOn(img'), i);
    assert HeaderOfEntry(img', i, name, h);
  }

  lemma WriteLeavesLive(img: Image, name: CString, h: Header, j: int, position: nat, data: seq<byte>, img': Image)
    requires FsOk(img) && LiveHeader(img, name, h) && WellFormed(img') && WrittenAt(img, j, position, data, img')
    ensures LiveHeader(img', name, h)
  {
    hide Contents;
    hide DecodeHeader;
    hide DecodeTable;
    hide DecodeBits;
    hide VolumeOk;
    hide Splice;
    hide Key;
    hide FieldKey;
    hide Roots;
    var i :| HeaderOfEntry(img, i, name, h);
    WriteKeepsVolume(img, j, position, data, img');
    OthersSurviveWrite(img, j, position, data, img', DirOn(img)[i].sector as int);
    assert HeaderOfEntry(img', i, name, h);
  }

  /** Whatever is created, written, or removed under another name, a handle to a live file stays one: the file's
      header is where it was and says what it said when the file was opened. */
  lemma HandleSurvives(img: Image, name: CString, h: Header, op: Op, img': Image)
    requires FsOk(img) && LiveHeader(img, name, h) && Step(img, op, img')
    requires op.Remove? ==> Key(op.name) != Key(name)
    ensures FsOk(img') && WellFormed(img') && LiveHeader(img', name, h)
  {
    StepRefines(img, op, img');
    hide Contents;
    hide VolumeOk;
    hide LiveHeader;
    hide CanCreate;
    hide CreatedOn;
    hide RemovedOn;
    hide WrittenAt;
    hide Key;
    hide Roots;
    match op {
      case Create(other, size) =>
        if CanCreate(VolumeOf(img), other, size) {
          CreateLeavesLive(img, name, h, other, size, img');
        }
      case Remove(other) =>
        if !Absent(DirOn(img), Key(other)) {
          RemoveLeavesLive(img, name, h, other, img');
        }
      case Write(other, position, data) =>
        if !Absent(DirOn(img), Key(other)) {
          var j :| WriteStep(img, j, other, position, data, img');
          var n := Transferred(|FileAt(img, j)|, |data|, position);
          if n != 0 {
            WriteLeavesLive(img, name, h, j, position, data[..n], img');
          }
        }
    }
  }

  /** A write through a handle to a live file acts on that file's bytes and nothing else, and leaves the headers of
      the two system files alone. */
  lemma WriteStaysLive(img: Image, name: CString, h: Header, position: nat, data: seq<byte>, img': Image)
    requires FsOk(img) && LiveHeader(img, name, h) && WrittenThrough(img, h, position, data, img')
    ensures FsOk(img') && WellFormed(img') && LiveHeader(img', name, h)
    ensures img'[FREE_MAP_SECTOR] == img[FREE_MAP_SECTOR] && img'[DIRECTORY_SECTOR] == img[DIRECTORY_SECTOR]
    ensures AbstractStep(StoreOn(img), Write(name, position, data), StoreOn(img'))
  {
    hide Contents;
    hide VolumeOk;
    hide Key;
    hide Roots;
    hide Header.Ok;
    hide AbstractStep;
    hide Step;
    hide StoreOn;
    HandleWriteIsStep(img, name, h, position, data, img');
    StepRefines(img, Write(name, position, data), img');
    HandleSurvives(img, name, h, Write(name, position, data), img');
    SystemHeadersKept(img, name, h);
  }

  /** The headers of the two system files are no data of a file. */
  lemma SystemHeadersKept(img: Image, name: CString, h: Header)
    requires FsOk(img) && LiveHeader(img, name, h)
    ensures FREE_MAP_SECTOR !in h.Data() && DIRECTORY_SECTOR !in h.Data()
  {
    hide Contents;
    hide DecodeHeader;
    hide DecodeTable;
    hide DecodeBits;
    hide Disjoint;
    hide Key;
    hide FieldKey;
    hide Header.Ok;
    var i :| HeaderOfEntry(img, i, name, h);
    var hs := DirOn(img)[i].sector as int;
    Owners(img);
    FileOfRoot(img, Roots(DirOn(img)), hs);
    var files := VolumeOf(img).files;
    assert Owns(files, FREE_MAP_SECTOR, FREE_MAP_SECTOR) && Owns(files, DIRECTORY_SECTOR, DIRECTORY_SECTOR);
    assert hs != FREE_MAP_SECTOR && hs != DIRECTORY_SECTOR;
    NotDataOf(files, BitsOn(img), hs, FREE_MAP_SECTOR, FREE_MAP_SECTOR);
    NotDataOf(files, BitsOn(img), hs, DIRECTORY_SECTOR, DIRECTORY_SECTOR);
  }

  // ---------------------------------------------------------------------
  // Whole runs with open files
  // ---------------------------------------------------------------------

  /** An open file: the name it was opened under, the header it keeps, and whether its file has been removed. */
  datatype Handle = Handle(name: CString, h: Header, removed: bool)

  datatype Session = Session(img: Image, handles: seq<Handle>)

  datatype Action =
    | MakeFile(name: CString, size: nat)
    | DeleteFile(name: CString)
    | OpenFileNamed(name: CString)
    | WriteTo(k: nat, position: nat, data: seq<byte>)

  function Mark(handle: Handle, key: CString): (r: Handle) {
    if Key(handle.name) == key then handle.(removed := true) else handle
  }

  function MarkRemoved(handles: seq<Handle>, key: CString): (r: seq<Handle>)
    ensures |r| == |handles|
    ensures forall k | 0 <= k < |r| :: r[k].name == handles[k].name && r[k].h == handles[k].h
    ensures forall k | 0 <= k < |r| :: r[k].removed <==> handles[k].removed || Key(handles[k].name) == key
  {
    seq(|handles|, k requires 0 <= k < |handles| => Mark(handles[k], key))
  }

  /** What an action does to the disk and the open files. A write goes through the header that its handle keeps; the
      file must not have been removed since it was opened. */
  ghost predicate Acts(s: Session, action: Action, s': Session)
    requires WellFormed(s.img)
  {
    match action
    case MakeFile(name, size) => Step(s.img, Create(name, size), s'.img) && s'.handles == s.handles
    case DeleteFile(name) =>
      Step(s.img, Remove(name), s'.img) && s'.handles == MarkRemoved(s.handles, Key(name))
    case OpenFileNamed(name) =>
      && s'.img == s.img
      && if Absent(DirOn(s.img), Key(name)) then s'.handles == s.handles
         else exists h :: LiveHeader(s.img, name, h) && s'.handles == s.handles + [Handle(name, h, false)]
    case WriteTo(k, position, data) =>
      && k < |s.handles| && !s.handles[k].removed && s'.handles == s.handles
      && WrittenThrough(s.img, s.handles[k].h, position, data, s'.img)
  }

  /** The same action on the map from names to bytes: a write goes to the file that the handle was opened on. */
  ghost predicate ActsOnStore(s: Session, action: Action, store: FileStore, store': FileStore) {
    match action
    case MakeFile(name, size) => AbstractStep(store, Create(name, size), store')
    case DeleteFile(name) => AbstractStep(store, Remove(name), store')
    case OpenFileNamed(_) => store' == store
    case WriteTo(k, position, data) =>
      k < |s.handles| && AbstractStep(store, Write(s.handles[k].name, position, data), store')
  }

  /** The disk satisfies the invariant, and every open file that is still there has its handle right. */
  ghost predicate SessionOk(s: Session) {
    FsOk(s.img) && WellFormed(s.img)
    && forall k | 0 <= k < |s.handles| && !s.handles[k].removed :: LiveHeader(s.img, s.handles[k].name, s.handles[k].h)
  }

  /** What the handle of a file that is still there reads is what the file system has under the name. */
  ghost predicate ReadsRight(s: Session, k: nat)
    requires WellFormed(s.img) && k < |s.handles|
  {
    var handle := s.handles[k];
    && |s.img| == NUM_SECTORS && handle.h.Ok() && Key(handle.name) in FilesOn(s.img)
    && FilesOn(s.img)[Key(handle.name)] == Contents(s.img, handle.h)
  }

  lemma StepLeavesHandles(s: Session, op: Op, img': Image)
    requires SessionOk(s) && Step(s.img, op, img')
    ensures FsOk(img') && WellFormed(img')
    ensures forall k | 0 <= k < |s.handles| && !s.handles[k].removed
              && (op.Remove? ==> Key(op.name) != Key(s.handles[k].name)) ::
              LiveHeader(img', s.handles[k].name, s.handles[k].h)
    ensures AbstractStep(StoreOn(s.img), op, StoreOn(img'))
  {
    hide Step;
    hide AbstractStep;
    hide FsOk;
    hide LiveHeader;
    hide WellFormed;
    hide StoreOn;
    StepRefines(s.img, op, img');
    IsWellFormed(img');
    forall k | 0 <= k < |s.handles| && !s.handles[k].removed
      && (op.Remove? ==> Key(op.name) != Key(s.handles[k].name))
      ensures LiveHeader(img', s.handles[k].name, s.handles[k].h)
    {
      HandleSurvives(s.img, s.handles[k].name, s.handles[k].h, op, img');
    }
  }

  lemma IsWellFormed(img: Image)
    requires FsOk(img)
    ensures WellFormed(img)
  {
  }

  /** Every action keeps the invariant and all handles right, and acts as it would on the store. */
  lemma ActionIsSafe(s: Session, action: Action, s': Session)
    requires SessionOk(s) && Acts(s, action, s')
    ensures SessionOk(s') && ActsOnStore(s, action, StoreOn(s.img), StoreOn(s'.img))
  {
    hide Step;
    hide AbstractStep;
    hide FsOk;
    hide LiveHeader;
    hide WellFormed;
    hide StoreOn;
    hide WrittenThrough;
    hide Key;
    match action {
      case MakeFile(name, size) => StepLeavesHandles(s, Create(name, size), s'.img);
      case DeleteFile(name) => StepLeavesHandles(s, Remove(name), s'.img);
      case OpenFileNamed(name) =>
      case WriteTo(k, position, data) =>
        HandleWriteIsStep(s.img, s.handles[k].name, s.handles[k].h, position, data, s'.img);
        StepLeavesHandles(s, Write(s.handles[k].name, position, data), s'.img);
    }
  }

  lemma HandlesReadRight(s: Session)
    requires SessionOk(s)
    ensures forall k | 0 <= k < |s.handles| && !s.handles[k].removed :: ReadsRight(s, k)
  {
    hide FsOk;
    hide LiveHeader;
    hide WellFormed;
    hide Contents;
    hide FilesOn;
    hide Key;
    hide Header.Ok;
    forall k | 0 <= k < |s.handles| && !s.handles[k].removed ensures ReadsRight(s, k) {
      LiveContents(s.img, s.handles[k].name, s.handles[k].h);
    }
  }

  ghost predicate IsSession(ss: seq<Session>, actions: seq<Action>) {
    && |ss| == |actions| + 1 && Formatted(ss[0].img) && ss[0].handles == []
    && forall k | 0 <= k < |actions| :: WellFormed(ss[k].img) ==> Acts(ss[k], actions[k], ss[k + 1])
  }

  /** Over every run from a formatted disk, in which files are created, removed, opened, and written through handles
      opened at any earlier time: the invariant holds, every action acts as it would on the store, and every handle
      whose file has not been removed reads that file's bytes. */
  lemma SessionsAreSafe(ss: seq<Session>, actions: seq<Action>, n: nat)
    requires IsSession(ss, actions) && n < |ss|
    ensures SessionOk(ss[n])
    ensures forall k | 0 <= k < |ss[n].handles| && !ss[n].handles[k].removed :: ReadsRight(ss[n], k)
    ensures n < |actions| ==>
              SessionOk(ss[n + 1]) && ActsOnStore(ss[n], actions[n], StoreOn(ss[n].img), StoreOn(ss[n + 1].img))
  {
    hide Acts;
    hide ActsOnStore;
    hide Formatted;
    hide StoreOn;
    hide FsOk;
    hide LiveHeader;
    hide WellFormed;
    hide ReadsRight;
    SessionInvariant(ss, actions, n);
    if n < |actions| {
      ActionIsSafe(ss[n], actions[n], ss[n + 1]);
    }
    HandlesReadRight(ss[n]);
  }

  lemma {:induction false} SessionInvariant(ss: seq<Session>, actions: seq<Action>, n: nat)
    requires IsSession(ss, actions) && n < |ss|
    ensures SessionOk(ss[n])
  {
    hide Acts;
    hide ActsOnStore;
    hide Formatted;
    hide FsOk;
    hide LiveHeader;
    hide WellFormed;
    if n == 0 {
      FormattedIsOk(ss[0].img);
      IsWellFormed(ss[0].img);
    } else {
      SessionInvariant(ss, actions, n - 1);
      ActionIsSafe(ss[n - 1], actions[n - 1], ss[n]);
    }
  }

  // ---------------------------------------------------------------------
  // The real objects
  // ---------------------------------------------------------------------

  ghost function Headers(files: seq<OpenFile>): (objects: set<object>) {
    (set f | f in files :: f.hdr as object) + (set f | f in files :: f.hdr.dataSectors as object)
  }

  /** The disk image and the cached headers of the OpenFile objects are those of the session. */
  ghost predicate Matches(fs: FileSystem, files: seq<OpenFile>, s: Session)
    reads fs.disk.store, Headers(files)
  {
    && fs.disk.store[..] == s.img && |files| == |s.handles|
    && forall k | 0 <= k < |files| ::
         files[k].Valid() && files[k].disk == fs.disk && files[k].hdr.View() == s.handles[k].h
  }

  predicate Allowed(s: Session, action: Action) {
    match action
    case MakeFile(_, size) => size <= MAX_FILE_SIZE
    case DeleteFile(_) => true
    case OpenFileNamed(_) => true
    case WriteTo(k, position, data) =>
      k < |s.handles| && !s.handles[k].removed && position + |data| <= INT_MAX
  }

  method OpenNamed(fs: FileSystem, files: seq<OpenFile>, name: CString, ghost s: Session)
    returns (files': seq<OpenFile>, ghost s': Session)
    requires fs.Valid() && WellFormed(s.img) && Matches(fs, files, s)
    ensures Matches(fs, files', s') && Acts(s, OpenFileNamed(name), s')
  {
    hide FsOk;
    hide LiveHeader;
    hide WellFormed;
    hide Key;
    hide Header.Ok;
    hide Step;
    hide Absent;
    hide WrittenThrough;
    files', s' := files, s;
    var openFile := fs.Open(name);
    if openFile != null {
      files' := files + [openFile];
      s' := s.(handles := s.handles + [Handle(name, openFile.hdr.View(), false)]);
    }
  }

  method MakeNamed(fs: FileSystem, files: seq<OpenFile>, name: CString, size: int32, ghost s: Session)
    returns (ghost s': Session)
    requires fs.Valid() && WellFormed(s.img) && Matches(fs, files, s) && 0 <= size as int <= MAX_FILE_SIZE
    modifies fs.disk.store
    ensures fs.Valid() && Matches(fs, files, s') && Acts(s, MakeFile(name, size as nat), s')
  {
    hide FsOk;
    hide LiveHeader;
    hide WellFormed;
    hide Contents;
    hide Key;
    hide Header.Ok;
    hide Step;
    hide Absent;
    hide WrittenThrough;
    hide FileSystem.Handles;
    hide TakesFewest;
    hide FilesOn;
    var success := fs.Create(name, size);
    s' := s.(img := fs.disk.store[..]);
  }

  method DeleteNamed(fs: FileSystem, files: seq<OpenFile>, name: CString, ghost s: Session)
    returns (ghost s': Session)
    requires fs.Valid() && WellFormed(s.img) && Matches(fs, files, s)
    modifies fs.disk.store
    ensures fs.Valid() && Matches(fs, files, s') && Acts(s, DeleteFile(name), s')
  {
    hide FsOk;
    hide LiveHeader;
    hide WellFormed;
    hide Contents;
    hide Key;
    hide Header.Ok;
    hide Step;
    hide Absent;
    hide WrittenThrough;
    hide FileSystem.Handles;
    hide TakesFewest;
    hide FilesOn;
    var success := fs.Remove(name);
    s' := Session(fs.disk.store[..], MarkRemoved(s.handles, Key(name)));
    assert forall k | 0 <= k < |files| :: s'.handles[k].h == s.handles[k].h;
  }

  method WriteNumbered(fs: FileSystem, files: seq<OpenFile>, k: nat, position: nat, data: seq<byte>, ghost s: Session)
    returns (ghost s': Session)
    requires fs.Valid() && SessionOk(s) && Matches(fs, files, s) && Allowed(s, WriteTo(k, position, data))
    modifies fs.disk.store
    ensures fs.Valid() && Matches(fs, files, s') && Acts(s, WriteTo(k, position, data), s')
  {
    hide FsOk;
    hide LiveHeader;
    hide WellFormed;
    hide Contents;
    hide Key;
    hide Header.Ok;
    hide Step;
    hide Absent;
    hide WrittenThrough;
    hide FileSystem.Handles;
    hide TakesFewest;
    hide FilesOn;
    WriteHandle(fs, files[k], position, data, s.handles[k].name);
    s' := s.(img := fs.disk.store[..]);
  }

  /** FileSystem's Create, Remove and Open, and OpenFile's WriteAt on any handle opened so far whose file is still
      there, are the actions of a session. */
  method Perform(fs: FileSystem, files: seq<OpenFile>, action: Action, ghost s: Session)
    returns (files': seq<OpenFile>, ghost s': Session)
    requires fs.Valid() && SessionOk(s) && Matches(fs, files, s) && Allowed(s, action)
    modifies fs.disk.store
    ensures fs.Valid() && SessionOk(s') && Matches(fs, files', s') && Acts(s, action, s')
  {
    hide FsOk;
    hide LiveHeader;
    hide WellFormed;
    hide FileSystem.Handles;
    hide Acts;
    hide Matches;
    files' := files;
    match action {
      case MakeFile(name, size) => s' := MakeNamed(fs, files, name, size as int32, s);
      case DeleteFile(name) => s' := DeleteNamed(fs, files, name, s);
      case OpenFileNamed(name) => files', s' := OpenNamed(fs, files, name, s);
      case WriteTo(k, position, data) => s' := WriteNumbered(fs, files, k, position, data, s);
    }
    ActionIsSafe(s, action, s');
  }

  /** WriteAt on one handle: the bytes go through its cached header, and the file system stays valid. */
  method WriteHandle(fs: FileSystem, openFile: OpenFile, position: nat, data: seq<byte>, ghost name: CString)
    requires fs.Valid() && openFile.Valid() && openFile.disk == fs.disk && position + |data| <= INT_MAX
    requires WellFormed(fs.disk.store[..]) && LiveHeader(fs.disk.store[..], name, openFile.hdr.View())
    modifies fs.disk.store
    ensures fs.Valid()
    ensures WrittenThrough(old(fs.disk.store[..]), openFile.hdr.View(), position, data, fs.disk.store[..])
  {
    hide FsOk;
    hide LiveHeader;
    hide WellFormed;
    hide Contents;
    hide Key;
    hide Header.Ok;
    hide Splice;
    hide AbstractStep;
    hide DecodeHeader;
    ghost var img := fs.disk.store[..];
    var buffer := new byte[|data|](k requires 0 <= k < |data| => data[k]);
    assert buffer[..] == data;
    var n := openFile.WriteAt(buffer, |data|, position);
    assert buffer[..n] == data[..n];
    WriteStaysLive(img, name, openFile.hdr.View(), position, data, fs.disk.store[..]);
  }
}
