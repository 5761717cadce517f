/** threads/main.cc: copying a UNIX file into the file system, and printing a file from it. */
module Transfers {
  import opened Bytes
  import opened SynchDisks
  import opened FileHeaders
  import opened OpenFiles
  import opened Directories
  import opened Volumes
  import opened DiskStates
  import opened FileSystems
  import opened Handles

  const TRANSFER_SIZE := 128

  lemma ContentsLength(img: Image, h: Header)
    requires |img| == NUM_SECTORS && h.Ok()
    ensures |Contents(img, h)| == h.numBytes as int <= MAX_FILE_SIZE
  {
  }

  lemma StoreHas(img: Image, name: CString)
    requires WellFormed(img) && Key(name) in FilesOn(img)
    ensures StoreOn(img).files == FilesOn(img)
  {
  }

  /** One write of the copying loop: the bytes copied so far get longer. */
  lemma ChunkCopied(store: FileStore, store': FileStore, files: map<CString, seq<byte>>, free: nat, name: CString,
                    bytes: seq<byte>, content: seq<byte>, i: nat, n: nat)
    requires |bytes| == |content| && 0 < n && i + n <= |content|
    requires store == FileStore(files[Key(name) := Splice(bytes, 0, content[..i])], free)
    requires AbstractStep(store, Write(name, i, content[i..i + n]), store')
    ensures store' == FileStore(files[Key(name) := Splice(bytes, 0, content[..i + n])], free)
  {
    hide Key;
    hide Splice;
    SplicesJoin(bytes, 0, content[..i], content[i..i + n]);
    assert content[..i] + content[i..i + n] == content[..i + n];
    assert content[i..i + n][..n] == content[i..i + n];
    assert |Splice(bytes, 0, content[..i])| == |bytes|;
  }

  /** A write at the handle's position, as the file store sees it. */
  method WriteNext(fs: FileSystem, openFile: OpenFile, name: CString, chunk: seq<byte>)
    requires fs.Valid() && openFile.Valid() && openFile.disk == fs.disk
    requires openFile != fs.freeMapFile && openFile != fs.directoryFile
    requires WellFormed(fs.disk.store[..]) && LiveHeader(fs.disk.store[..], name, openFile.hdr.View())
    requires 0 <= openFile.seekPosition && chunk != []
    requires openFile.seekPosition + |chunk| <= openFile.hdr.numBytes as int <= MAX_FILE_SIZE
    modifies openFile, fs.disk.store
    ensures fs.Valid() && openFile.seekPosition == old(openFile.seekPosition) + |chunk|
    ensures WellFormed(fs.disk.store[..]) && LiveHeader(fs.disk.store[..], name, openFile.hdr.View())
    ensures AbstractStep(StoreOn(old(fs.disk.store[..])), Write(name, old(openFile.seekPosition), chunk),
                         StoreOn(fs.disk.store[..]))
  {
    hide Contents;
    hide FsOk;
    hide Key;
    hide Splice;
    hide LiveHeader;
    hide AbstractStep;
    hide WellFormed;
    hide Header.Ok;
    hide DecodeHeader;
    hide StoreOn;
    hide SectorBytes;
    ghost var img, h, i := fs.disk.store[..], openFile.hdr.View(), openFile.seekPosition;
    var buffer := new byte[|chunk|](k requires 0 <= k < |chunk| => chunk[k]);
    assert buffer[..] == chunk;
    var n := openFile.Write(buffer, |chunk|);
    WriteStaysLive(img, name, h, i, chunk, fs.disk.store[..]);
  }

  /** One turn of the copying loop: the next bytes of the UNIX file go to the handle's position. */
  method CopyChunk(fs: FileSystem, openFile: OpenFile, to: CString, content: seq<byte>, i: nat,
                   ghost files: map<CString, seq<byte>>, ghost free: nat, ghost bytes: seq<byte>)
    returns (amountRead: nat)
    requires fs.Valid() && openFile.Valid() && openFile.disk == fs.disk && openFile.seekPosition == i
    requires openFile != fs.freeMapFile && openFile != fs.directoryFile
    requires LiveHeader(fs.disk.store[..], to, openFile.hdr.View())
    requires i < |content| == |bytes| <= MAX_FILE_SIZE
    requires StoreOn(fs.disk.store[..]) == FileStore(files[Key(to) := Splice(bytes, 0, content[..i])], free)
    modifies openFile, fs.disk.store
    ensures fs.Valid() && openFile.seekPosition == i + amountRead <= |content| && amountRead > 0
    ensures LiveHeader(fs.disk.store[..], to, openFile.hdr.View())
    ensures StoreOn(fs.disk.store[..]) == FileStore(files[Key(to) := Splice(bytes, 0, content[..i + amountRead])], free)
  {
    hide Contents;
    hide FsOk;
    hide Key;
    hide Splice;
    hide LiveHeader;
    hide AbstractStep;
    hide WellFormed;
    hide Header.Ok;
    hide DecodeHeader;
    hide StoreOn;
    hide SectorBytes;
    ghost var img, h := fs.disk.store[..], openFile.hdr.View();
    LiveContents(img, to, h);
    ContentsLength(img, h);
    StoreHas(img, to);
    amountRead := if |content| - i < TRANSFER_SIZE then |content| - i else TRANSFER_SIZE;
    WriteNext(fs, openFile, to, content[i..i + amountRead]);
    ChunkCopied(StoreOn(img), StoreOn(fs.disk.store[..]), files, free, to, bytes, content, i, amountRead);
  }

  lemma StoredIsNamed(img: Image, name: CString, files: map<CString, seq<byte>>, bytes: seq<byte>, free: nat)
    requires WellFormed(img) && StoreOn(img) == FileStore(files[Key(name) := bytes], free)
    ensures !Absent(DirOn(img), Key(name))
  {
    hide Key;
    hide FilesOn;
    AbsentKey(img, Key(name));
  }

  /** What a successful Create leaves in the store. */
  lemma CreateLeaves(img: Image, name: CString, size: nat, img': Image) returns (bytes: seq<byte>)
    requires FsOk(img) && HasRoom(StoreOn(img), name, size) && Step(img, DiskStates.Create(name, size), img')
    ensures WellFormed(img') && |bytes| == size && !Absent(DirOn(img'), Key(name))
    ensures StoreOn(img') == FileStore(StoreOn(img).files[Key(name) := bytes], StoreOn(img).free - SectorsFor(size))
  {
    hide Step;
    hide FsOk;
    hide Key;
    hide StoreOn;
    hide SectorsFor;
    hide WellFormed;
    IsWellFormed(img);
    StepRefines(img, DiskStates.Create(name, size), img');
    IsWellFormed(img');
    bytes :| |bytes| == size
          && StoreOn(img') == FileStore(StoreOn(img).files[Key(name) := bytes], StoreOn(img).free - SectorsFor(size));
    StoredIsNamed(img', name, StoreOn(img).files, bytes, StoreOn(img).free - SectorsFor(size));
  }

  /** The copying loop. */
  method CopyBytes(fs: FileSystem, openFile: OpenFile, to: CString, content: seq<byte>,
                   ghost files: map<CString, seq<byte>>, ghost free: nat, ghost bytes: seq<byte>)
    requires fs.Valid() && openFile.Valid() && openFile.disk == fs.disk && openFile.seekPosition == 0
    requires openFile != fs.freeMapFile && openFile != fs.directoryFile
    requires LiveHeader(fs.disk.store[..], to, openFile.hdr.View())
    requires |content| == |bytes| <= MAX_FILE_SIZE
    requires StoreOn(fs.disk.store[..]) == FileStore(files[Key(to) := bytes], free)
    modifies openFile, fs.disk.store
    ensures fs.Valid() && StoreOn(fs.disk.store[..]) == FileStore(files[Key(to) := content], free)
  {
    hide FsOk;
    hide Key;
    hide Splice;
    hide LiveHeader;
    hide WellFormed;
    hide StoreOn;
    hide Header.Ok;
    hide Contents;
    hide HeaderAt;
    SpliceNothing(bytes, content);
    IsWellFormed(fs.disk.store[..]);
    ghost var h := openFile.hdr.View();
    var i := 0;
    while i < |content|
      invariant 0 <= i <= |content| && fs.Valid() && openFile.Valid() && openFile.seekPosition == i
      invariant WellFormed(fs.disk.store[..]) && LiveHeader(fs.disk.store[..], to, openFile.hdr.View())
      invariant StoreOn(fs.disk.store[..]) == FileStore(files[Key(to) := Splice(bytes, 0, content[..i])], free)
    {
      var n := CopyChunk(fs, openFile, to, content, i, files, free, bytes);
      i := i + n;
      ghost var img := fs.disk.store[..];
      IsWellFormed(img);
    }
    assert content[..i] == content[0..|content|];
    SpliceAll(bytes, content);
  }

  lemma SpliceNothing(bytes: seq<byte>, content: seq<byte>)
    ensures Splice(bytes, 0, content[..0]) == bytes
  {
  }

  /** Copy: the UNIX file's bytes become a file of the same length under the name, in chunks, and no other file
      changes. It is refused, with nothing changed, exactly when Create refuses. */
  method Copy(fs: FileSystem, content: seq<byte>, to: CString) returns (copied: bool)
    requires fs.Valid() && |content| <= MAX_FILE_SIZE
    modifies fs.disk.store
    ensures fs.Valid()
    ensures copied <==> HasRoom(StoreOn(old(fs.disk.store[..])), to, |content|)
    ensures !copied ==> fs.disk.store[..] == old(fs.disk.store[..])
    ensures var store := StoreOn(old(fs.disk.store[..]));
            copied ==> StoreOn(fs.disk.store[..])
                       == FileStore(store.files[Key(to) := content], store.free - SectorsFor(|content|))
  {
    hide FsOk;
    hide Key;
    hide LiveHeader;
    hide CanCreate;
    hide CreatedOn;
    hide WellFormed;
    hide StoreOn;
    hide SectorsFor;
    hide Absent;
    hide TakesFewest;
    hide FilesOn;
    hide Header.Ok;
    hide Contents;
    hide FileSystem.Handles;
    ghost var img := fs.disk.store[..];
    IsWellFormed(img);
    CreateAllowed(img, to, |content|);
    copied := fs.Create(to, |content| as int32);
    if !copied {
      return;
    }
    ghost var bytes := CreateLeaves(img, to, |content|, fs.disk.store[..]);
    hide Step;
    hide HasRoom;
    var openFile := fs.Open(to);
    assert openFile != null;  // the source's ASSERT
    CopyBytes(fs, openFile, to, content, StoreOn(img).files, StoreOn(img).free - SectorsFor(|content|), bytes);
    IsWellFormed(fs.disk.store[..]);
  }

  /** Print: what it prints of a file is the file. */
  method Print(fs: FileSystem, name: CString) returns (found: bool, printed: seq<byte>)
    requires fs.Valid()
    ensures found <==> Key(name) in StoreOn(fs.disk.store[..]).files
    ensures found ==> printed == StoreOn(fs.disk.store[..]).files[Key(name)]
  {
    hide FsOk;
    hide Key;
    hide LiveHeader;
    hide WellFormed;
    hide Absent;
    hide Contents;
    hide FilesOn;
    printed := [];
    ghost var img := fs.disk.store[..];
    IsWellFormed(img);
    AbsentKey(img, Key(name));
    var openFile := fs.Open(name);
    if openFile == null {
      return false, printed;
    }
    LiveContents(img, name, openFile.hdr.View());
    printed := PrintBytes(openFile);
    return true, printed;
  }

  /** One read of the printing loop. */
  method PrintChunk(openFile: OpenFile, buffer: array<byte>) returns (amountRead: nat)
    requires openFile.Valid() && 0 <= openFile.seekPosition <= |openFile.Bytes()| && buffer.Length == TRANSFER_SIZE
    modifies openFile, buffer
    ensures openFile.seekPosition == old(openFile.seekPosition) + amountRead <= |openFile.Bytes()|
    ensures amountRead <= TRANSFER_SIZE
    ensures buffer[..amountRead] == openFile.Bytes()[old(openFile.seekPosition)..openFile.seekPosition]
    ensures amountRead == 0 <==> old(openFile.seekPosition) == |openFile.Bytes()|
  {
    hide Contents;
    hide Header.Ok;
    hide Splice;
    ghost var bytes, at := openFile.Bytes(), openFile.seekPosition;
    ContentsLength(openFile.disk.store[..], openFile.hdr.View());
    ghost var old_buffer := buffer[..];
    amountRead := openFile.Read(buffer, TRANSFER_SIZE);
    if amountRead > 0 {
      SplicePrefix(old_buffer, 0, bytes[at..at + amountRead]);
      assert buffer[..amountRead] == buffer[..][..amountRead];
    }
  }

  lemma WholeSlice<T>(s: seq<T>, n: nat)
    requires n == |s|
    ensures s[..n] == s
  {
  }

  /** The printing loop. */
  method PrintBytes(openFile: OpenFile) returns (printed: seq<byte>)
    requires openFile.Valid() && openFile.seekPosition == 0
    modifies openFile
    ensures printed == openFile.Bytes()
  {
    hide Contents;
    hide Header.Ok;
    printed := [];
    ghost var bytes := openFile.Bytes();
    var buffer := new byte[TRANSFER_SIZE];
    var amountRead := PrintChunk(openFile, buffer);
    while amountRead > 0
      invariant openFile.Valid() && openFile.Bytes() == bytes && amountRead <= TRANSFER_SIZE
      invariant 0 <= amountRead <= openFile.seekPosition <= |bytes|
      invariant printed == bytes[..openFile.seekPosition - amountRead]
      invariant buffer[..amountRead] == bytes[openFile.seekPosition - amountRead..openFile.seekPosition]
      invariant amountRead == 0 ==> openFile.seekPosition == |bytes|
      decreases |bytes| - openFile.seekPosition + amountRead
    {
      TwoParts(bytes, openFile.seekPosition - amountRead, openFile.seekPosition);
      printed := printed + buffer[..amountRead];
      amountRead := PrintChunk(openFile, buffer);
    }
    WholeSlice(bytes, openFile.seekPosition);
  }

  /** A file that was copied in prints as it was, until someone writes to it or removes it. */
  method CopyThenPrint(fs: FileSystem, content: seq<byte>, name: CString) returns (copied: bool, printed: seq<byte>)
    requires fs.Valid() && |content| <= MAX_FILE_SIZE
    modifies fs.disk.store
    ensures fs.Valid() && (copied ==> printed == content)
  {
    hide StoreOn;
    hide FsOk;
    hide Key;
    copied := Copy(fs, content, name);
    printed := [];
    if copied {
      var found;
      found, printed := Print(fs, name);
    }
  }
}
