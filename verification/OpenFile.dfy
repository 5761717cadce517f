/** filesys/openfile.cc: unaligned byte reads and writes on top of whole-sector disk requests. */
module OpenFiles {
  import opened Bytes
  import opened SynchDisks
  import opened FileHeaders
  import opened Bitmaps

  const INT_MAX := 0x7FFF_FFFF

  /** How many bytes a request really transfers: nothing outside the file, and no more than fits. */
  function Transferred(length: int, numBytes: int, position: int): (n: nat)
    requires position >= 0
    ensures numBytes > 0 && position < length ==> 0 < n <= numBytes && position + n <= length
    ensures numBytes > 0 && position < length ==> n == numBytes || position + n == length
    ensures numBytes <= 0 || position >= length ==> n == 0
  {
    if numBytes <= 0 || position >= length then 0
    else if position + numBytes > length then length - position
    else numBytes
  }

  /** Two writes that follow each other amount to one write of the joined bytes. */
  lemma SplicesJoin<T>(s: seq<T>, at: nat, t: seq<T>, u: seq<T>)
    requires at + |t| + |u| <= |s|
    ensures Splice(Splice(s, at, t), at + |t|, u) == Splice(s, at, t + u)
  {
  }

  /** A stretch of a file's bytes, found inside the run of sectors that covers it. */
  lemma ContentsInRun(img: Image, h: Header, position: nat, n: nat, first: nat, last: nat)
    requires |img| == NUM_SECTORS && h.Ok()
    requires n > 0 && position + n <= h.numBytes as int
    requires first == position / SECTOR_SIZE && last == (position + n - 1) / SECTOR_SIZE
    ensures first <= last < |h.Data()|
    ensures var run, from := SectorBytes(img, h.Data()[first..last + 1]), position - first * SECTOR_SIZE;
            from + n <= |run| && Contents(img, h)[position..position + n] == run[from..from + n]
  {
    hide SectorBytes;
    var ds := h.Data();
    RunOfFile(img, ds, first, last);
    var pre, post := SectorBytes(img, ds[..first]), SectorBytes(img, ds[last + 1..]);
    SliceOfMiddle(pre, SectorBytes(img, ds[first..last + 1]), post,
                  h.numBytes as int, position - first * SECTOR_SIZE, n);
  }

  lemma RunOfFile(img: Image, ds: seq<int>, first: nat, last: nat)
    requires |img| == NUM_SECTORS && SectorNumbers(ds)
    requires first <= last < |ds|
    ensures SectorBytes(img, ds)
         == SectorBytes(img, ds[..first]) + SectorBytes(img, ds[first..last + 1]) + SectorBytes(img, ds[last + 1..])
  {
    SectorBytesJoin(img, ds[..first] + ds[first..last + 1], ds[last + 1..]);
    SectorBytesJoin(img, ds[..first], ds[first..last + 1]);
    ThreeParts(ds, first, last + 1);
  }

  lemma RunGrows(img: Image, ds: seq<int>, first: nat, i: nat)
    requires |img| == NUM_SECTORS && SectorNumbers(ds)
    requires first <= i < |ds|
    ensures SectorBytes(img, ds[first..i + 1]) == SectorBytes(img, ds[first..i]) + img[ds[i]]
  {
    hide SectorBytes;
    OneLonger(ds, first, i);
    SectorBytesJoin(img, ds[first..i], [ds[i]]);
    OneSector(img, ds[i]);
  }

  lemma OneMoreSectorRead(img: Image, ds: seq<int>, first: nat, i: nat, before: seq<byte>, after: seq<byte>)
    requires |img| == NUM_SECTORS && SectorNumbers(ds) && first <= i < |ds|
    requires var m := (i - first) * SECTOR_SIZE;
             && m + SECTOR_SIZE <= |before| && before[..m] == SectorBytes(img, ds[first..i])
             && after == Splice(before, m, img[ds[i]])
    ensures after[..(i + 1 - first) * SECTOR_SIZE] == SectorBytes(img, ds[first..i + 1])
  {
    SplicePrefix(before, (i - first) * SECTOR_SIZE, img[ds[i]]);
    RunGrows(img, ds, first, i);
  }

  /** Writing `bytes` over the sectors `ds`: those sectors hold it, all others are as before. */
  ghost predicate Stored(img: Image, img': Image, ds: seq<int>, bytes: seq<byte>) {
    && |img| == |img'| == NUM_SECTORS && SectorNumbers(ds)
    && SectorBytes(img', ds) == bytes
    && forall s | 0 <= s < NUM_SECTORS && s !in ds :: img'[s] == img[s]
  }

  lemma NothingStored(img: Image, ds: seq<int>, bytes: seq<byte>)
    requires |img| == NUM_SECTORS && ds == [] && bytes == []
    ensures Stored(img, img, ds, bytes)
  {
  }

  lemma OneMoreSectorWritten(img: Image, img': Image, ds: seq<int>, first: nat, i: nat, buf: seq<byte>)
    requires |img| == NUM_SECTORS && SectorNumbers(ds) && Distinct(ds) && first <= i < |ds|
    requires (i + 1 - first) * SECTOR_SIZE <= |buf|
    requires Stored(img, img', ds[first..i], buf[..(i - first) * SECTOR_SIZE])
    ensures var m := (i - first) * SECTOR_SIZE;
            Stored(img, img'[ds[i] := buf[m..m + SECTOR_SIZE]], ds[first..i + 1], buf[..m + SECTOR_SIZE])
  {
    var m := (i - first) * SECTOR_SIZE;
    OneLonger(ds, first, i);
    assert forall k | 0 <= k < |ds[first..i]| :: ds[first..i][k] == ds[first + k];
    OneMoreStored(img, img', ds[first..i], buf[..m], ds[i], buf[m..m + SECTOR_SIZE]);
    TwoParts(buf, m, m + SECTOR_SIZE);
  }

  lemma OneMoreStored(img: Image, img': Image, ds: seq<int>, bytes: seq<byte>, d: int, chunk: Sector)
    requires Stored(img, img', ds, bytes) && 0 <= d < NUM_SECTORS && d !in ds
    ensures Stored(img, img'[d := chunk], ds + [d], bytes + chunk)
  {
    hide SectorBytes;
    var img'' := img'[d := chunk];
    SectorBytesJoin(img'', ds, [d]);
    OneSector(img'', d);
    SectorBytesKept(img', img'', ds);
  }

  lemma OneSector(img: Image, d: int)
    requires |img| == NUM_SECTORS && 0 <= d < NUM_SECTORS
    ensures SectorBytes(img, [d]) == img[d]
  {
    assert [d][1..] == [];
  }

  /** `buf` holds the file's old bytes from sector `first` on, except where the request will overwrite them. */
  ghost predicate HoldsOldBytes(buf: seq<byte>, old_bytes: seq<byte>, first: nat, position: nat, n: nat) {
    forall j | 0 <= j < |buf| && (first * SECTOR_SIZE + j < position
        || position + n <= first * SECTOR_SIZE + j < |old_bytes|)
               && first * SECTOR_SIZE + j < |old_bytes| :: buf[j] == old_bytes[first * SECTOR_SIZE + j]
  }

  /** The one or two partial reads of WriteAt bring in every old byte that the request leaves alone. */
  lemma PartialSectorsRead(old_bytes: seq<byte>, position: nat, n: nat, first: nat, last: nat,
                           buf0: seq<byte>, buf1: seq<byte>, buf2: seq<byte>)
    requires n > 0 && position + n <= |old_bytes| && |buf0| == (last + 1 - first) * SECTOR_SIZE
    requires first == position / SECTOR_SIZE && last == (position + n - 1) / SECTOR_SIZE
    requires var n1 := Transferred(|old_bytes|, SECTOR_SIZE, first * SECTOR_SIZE);
             buf1 == if position != first * SECTOR_SIZE
                     then Splice(buf0, 0, old_bytes[first * SECTOR_SIZE..first * SECTOR_SIZE + n1]) else buf0
    requires var n2 := Transferred(|old_bytes|, SECTOR_SIZE, last * SECTOR_SIZE);
             buf2 == if position + n != (last + 1) * SECTOR_SIZE && (first != last || position == first * SECTOR_SIZE)
                     then Splice(buf1, (last - first) * SECTOR_SIZE,
                         old_bytes[last * SECTOR_SIZE..last * SECTOR_SIZE + n2])
                     else buf1
    ensures HoldsOldBytes(buf2, old_bytes, first, position, n)
  {
    var from, limit := position - first * SECTOR_SIZE, |old_bytes| - first * SECTOR_SIZE;
    forall j | 0 <= j < from && j < limit
      ensures buf2[j] == old_bytes[first * SECTOR_SIZE + j]
    {
      assert buf1[j] == old_bytes[first * SECTOR_SIZE + j];
    }
    forall j | from + n <= j < |buf2| && j < limit
      ensures buf2[j] == old_bytes[first * SECTOR_SIZE + j]
    {
      assert (last - first) * SECTOR_SIZE <= j;
      if first == last && position != first * SECTOR_SIZE {
        assert buf1[j] == old_bytes[first * SECTOR_SIZE + j];
      }
    }
  }

  lemma WrittenContents(img: Image, img': Image, h: Header, position: nat, first: nat, last: nat, buf: seq<byte>,
      data: seq<byte>)
    requires |img| == NUM_SECTORS && h.Ok()
    requires |data| > 0 && position + |data| <= h.numBytes as int
    requires first == position / SECTOR_SIZE && last == (position + |data| - 1) / SECTOR_SIZE
    requires last < |h.Data()| && |buf| == (last + 1 - first) * SECTOR_SIZE
    requires HoldsOldBytes(buf, Contents(img, h), first, position, |data|)
    requires Stored(img, img', h.Data()[first..last + 1], Splice(buf, position - first * SECTOR_SIZE, data))
    ensures Contents(img', h) == Splice(Contents(img, h), position, data)
    ensures forall s | 0 <= s < NUM_SECTORS && s !in h.Data() :: img'[s] == img[s]
  {
    hide SectorBytes;
    hide Splice;
    var ds := h.Data();
    var pre, post := SectorBytes(img, ds[..first]), SectorBytes(img, ds[last + 1..]);
    var mid := SectorBytes(img, ds[first..last + 1]);
    RunOfFile(img, ds, first, last);
    RunOfFile(img', ds, first, last);
    assert forall i | first <= i <= last :: ds[i] == ds[first..last + 1][i - first];
    SectorBytesKept(img, img', ds[..first]);
    SectorBytesKept(img, img', ds[last + 1..]);
    forall j | 0 <= j < |mid| && |pre| + j < h.numBytes as int
      ensures mid[j] == Contents(img, h)[first * SECTOR_SIZE + j]
    {
      assert mid[j] == (pre + mid + post)[|pre| + j];
    }
    SpliceOfMiddle(pre, mid, post, h.numBytes as int, buf, position - first * SECTOR_SIZE, data);
  }

  class OpenFile {
    const disk: SynchDisk
    const hdr: FileHeader
    var seekPosition: int

    ghost predicate Valid()
      reads hdr, hdr.dataSectors
    {
      disk.Valid() && hdr.Valid() && hdr.View().Ok()
    }

    /** The file's bytes as the disk holds them now. */
    ghost function Bytes(): (bytes: seq<byte>)
      requires Valid()
      reads hdr, hdr.dataSectors, disk.store
    {
      Contents(disk.store[..], hdr.View())
    }

    constructor (disk: SynchDisk, sector: int)
      requires disk.Valid() && 0 <= sector < NUM_SECTORS
      requires DecodeHeader(disk.store[sector]).Ok()
      ensures Valid() && fresh(hdr) && fresh(hdr.dataSectors)
      ensures this.disk == disk && seekPosition == 0
      ensures hdr.View() == DecodeHeader(disk.store[sector])
    {
      this.disk := disk;
      var h := new FileHeader();
      h.FetchFrom(disk, sector);
      hdr := h;
      seekPosition := 0;
    }

    method Seek(position: int)
      modifies this
      ensures seekPosition == position
    {
      seekPosition := position;
    }

    /** The loop of ReadAt: every full or partial sector of the request, in file order. */
    method ReadSectors(buf: array<byte>, firstSector: int, lastSector: int)
      requires Valid() && 0 <= firstSector <= lastSector < |hdr.View().Data()|
      requires buf.Length == (1 + lastSector - firstSector) * SECTOR_SIZE
      modifies buf
      ensures buf[..] == SectorBytes(disk.store[..], hdr.View().Data()[firstSector..lastSector + 1])
    {
      hide Splice;
      hide SectorBytes;
      ghost var img, ds := disk.store[..], hdr.View().Data();
      for i := firstSector to lastSector + 1
        invariant hdr.View().Data() == ds && disk.store[..] == img
        invariant buf[..][..(i - firstSector) * SECTOR_SIZE] == SectorBytes(img, ds[firstSector..i])
      {
        ghost var before := buf[..];
        var sector := hdr.ByteToSector(i * SECTOR_SIZE);
        disk.ReadSector(sector, buf, (i - firstSector) * SECTOR_SIZE);
        OneMoreSectorRead(img, ds, firstSector, i, before, buf[..]);
      }
      assert buf[..][..buf.Length] == buf[..];
    }

    method ReadAt(into: array<byte>, at: nat, numBytes: int, position: int) returns (n: int)
      requires Valid()
      requires 0 <= position && position + numBytes <= INT_MAX
      requires at + Transferred(hdr.numBytes as int, numBytes, position) <= into.Length
      modifies into
      ensures n == Transferred(hdr.numBytes as int, numBytes, position)
      ensures if numBytes <= 0 || position >= |Bytes()| then n == 0
              else 0 < n <= numBytes && position + n <= |Bytes()| && (n == numBytes || position + n == |Bytes()|)
      ensures n > 0 ==> into[..] == Splice(old(into[..]), at, Bytes()[position..position + n])
      ensures n == 0 ==> into[..] == old(into[..])
    {
      hide Contents;
      hide SectorBytes;
      hide Splice;
      var fileLength := hdr.FileLength();
      if numBytes <= 0 || position >= fileLength {
        return 0;
      }
      n := if position + numBytes > fileLength then fileLength - position else numBytes;

      var firstSector := position / SECTOR_SIZE;
      var lastSector := (position + n - 1) / SECTOR_SIZE;
      var numSectors := 1 + lastSector - firstSector;
      ghost var img, h, old_into := disk.store[..], hdr.View(), into[..];
      ContentsInRun(img, h, position, n, firstSector, lastSector);

      var buf := new byte[numSectors * SECTOR_SIZE];
      ReadSectors(buf, firstSector, lastSector);
      ghost var bytes := buf[..];
      Copy(buf, position - firstSector * SECTOR_SIZE, into, at, n);
      assert disk.store[..] == img;
      assert hdr.View() == h;
      assert into[..] == Splice(old_into, at, Contents(img, h)[position..position + n]);
    }

    /** The loop of WriteAt: every sector of the request, in file order. */
    method WriteSectors(buf: array<byte>, firstSector: int, lastSector: int)
      requires Valid() && 0 <= firstSector <= lastSector < |hdr.View().Data()|
      requires buf.Length == (1 + lastSector - firstSector) * SECTOR_SIZE
      modifies disk.store
      ensures Stored(old(disk.store[..]), disk.store[..], hdr.View().Data()[firstSector..lastSector + 1], buf[..])
    {
      hide Stored;
      ghost var img, ds, bytes := disk.store[..], hdr.View().Data(), buf[..];
      NothingStored(img, ds[firstSector..firstSector], bytes[..0]);
      for i := firstSector to lastSector + 1
        invariant hdr.View().Data() == ds && buf[..] == bytes
        invariant Stored(img, disk.store[..], ds[firstSector..i], bytes[..(i - firstSector) * SECTOR_SIZE])
      {
        ghost var before := disk.store[..];
        OneMoreSectorWritten(img, before, ds, firstSector, i, bytes);
        var sector := hdr.ByteToSector(i * SECTOR_SIZE);
        disk.WriteSector(sector, buf, (i - firstSector) * SECTOR_SIZE);
      }
      assert bytes[..|bytes|] == bytes;
    }

    /** WriteAt reads the first and the last sector when they will be partly overwritten. */
    method ReadPartialSectors(buf: array<byte>, position: int, n: int, firstSector: int, lastSector: int,
                              firstAligned: bool, lastAligned: bool)
      requires Valid() && 0 <= position && 0 < n && position + n <= hdr.numBytes as int
      requires firstSector == position / SECTOR_SIZE && lastSector == (position + n - 1) / SECTOR_SIZE
      requires buf.Length == (lastSector + 1 - firstSector) * SECTOR_SIZE
      requires firstAligned == (position == firstSector * SECTOR_SIZE)
      requires lastAligned == (position + n == (lastSector + 1) * SECTOR_SIZE)
      modifies buf
      ensures HoldsOldBytes(buf[..], Bytes(), firstSector, position, n)
    {
      hide Contents;
      hide Splice;
      hide HoldsOldBytes;
      ghost var buf0, bytes := buf[..], Bytes();
      if !firstAligned {
        var _ := ReadAt(buf, 0, SECTOR_SIZE, firstSector * SECTOR_SIZE);
      }
      ghost var buf1 := buf[..];
      if !lastAligned && (firstSector != lastSector || firstAligned) {
        var _ := ReadAt(buf, (lastSector - firstSector) * SECTOR_SIZE, SECTOR_SIZE, lastSector * SECTOR_SIZE);
      }
      PartialSectorsRead(bytes, position, n, firstSector, lastSector, buf0, buf1, buf[..]);
    }

    method WriteAt(from: array<byte>, numBytes: int, position: int) returns (n: int)
      requires Valid()
      requires 0 <= position && position + numBytes <= INT_MAX
      requires Transferred(hdr.numBytes as int, numBytes, position) <= from.Length
      modifies disk.store
      ensures n == Transferred(hdr.numBytes as int, numBytes, position)
      ensures if numBytes <= 0 || position >= |Bytes()| then n == 0
              else 0 < n <= numBytes && position + n <= |Bytes()| && (n == numBytes || position + n == |Bytes()|)
      ensures n > 0 ==> Bytes() == Splice(old(Bytes()), position, from[..n])
      ensures n == 0 ==> disk.store[..] == old(disk.store[..])
      ensures forall s | 0 <= s < NUM_SECTORS && s !in hdr.View().Data() :: disk.store[..][s] == old(disk.store[..])[s]
    {
      hide Contents;
      hide SectorBytes;
      hide Splice;
      hide Stored;
      hide HoldsOldBytes;
      var fileLength := hdr.FileLength();
      if numBytes <= 0 || position >= fileLength {
        return 0;
      }
      n := if position + numBytes > fileLength then fileLength - position else numBytes;

      var firstSector := position / SECTOR_SIZE;
      var lastSector := (position + n - 1) / SECTOR_SIZE;
      var numSectors := 1 + lastSector - firstSector;
      ghost var img, h := disk.store[..], hdr.View();

      var buf := new byte[numSectors * SECTOR_SIZE];
      var firstAligned := position == firstSector * SECTOR_SIZE;
      var lastAligned := position + n == (lastSector + 1) * SECTOR_SIZE;

      ReadPartialSectors(buf, position, n, firstSector, lastSector, firstAligned, lastAligned);
      ghost var buf2 := buf[..];
      Copy(from, 0, buf, position - firstSector * SECTOR_SIZE, n);
      WriteSectors(buf, firstSector, lastSector);
      WrittenContents(img, disk.store[..], h, position, firstSector, lastSector, buf2, from[..n]);
    }

    method Read(into: array<byte>, numBytes: int) returns (n: int)
      requires Valid() && 0 <= seekPosition && seekPosition + numBytes <= INT_MAX
      requires Transferred(hdr.numBytes as int, numBytes, seekPosition) <= into.Length
      modifies this, into
      ensures n == Transferred(hdr.numBytes as int, numBytes, old(seekPosition))
      ensures n > 0 ==> into[..] == Splice(old(into[..]), 0, Bytes()[old(seekPosition)..old(seekPosition) + n])
      ensures n == 0 ==> into[..] == old(into[..])
      ensures seekPosition == old(seekPosition) + n
    {
      hide Splice;
      n := ReadAt(into, 0, numBytes, seekPosition);
      seekPosition := seekPosition + n;
    }

    method Write(from: array<byte>, numBytes: int) returns (n: int)
      requires Valid() && 0 <= seekPosition && seekPosition + numBytes <= INT_MAX
      requires Transferred(hdr.numBytes as int, numBytes, seekPosition) <= from.Length
      modifies this, disk.store
      ensures n == Transferred(hdr.numBytes as int, numBytes, old(seekPosition))
      ensures n > 0 ==> Bytes() == Splice(old(Bytes()), old(seekPosition), from[..n])
      ensures n == 0 ==> disk.store[..] == old(disk.store[..])
      ensures forall s | 0 <= s < NUM_SECTORS && s !in hdr.View().Data() :: disk.store[..][s] == old(disk.store[..])[s]
      ensures seekPosition == old(seekPosition) + n
    {
      hide Splice;
      hide Contents;
      n := WriteAt(from, numBytes, seekPosition);
      seekPosition := seekPosition + n;
    }
  }

  /** bcopy between two different buffers */
  method Copy(from: array<byte>, start: nat, into: array<byte>, at: nat, n: nat)
    requires from != into && start + n <= from.Length && at + n <= into.Length
    modifies into
    ensures into[..] == Splice(old(into[..]), at, from[..][start..start + n])
  {
    forall k | 0 <= k < n {
      into[at + k] := from[start + k];
    }
  }
}
