/** filesys/filehdr.cc: the header that records which sectors hold a file's bytes. */
module FileHeaders {
  import opened Bytes
  import opened Bitmaps
  import opened SynchDisks

  const NUM_DIRECT := 30
  const MAX_FILE_SIZE := NUM_DIRECT * SECTOR_SIZE

  function Ints(xs: seq<int32>): (r: seq<int>)
    ensures |r| == |xs| && forall i | 0 <= i < |xs| :: r[i] == xs[i] as int
  {
    seq(|xs|, i requires 0 <= i < |xs| => xs[i] as int)
  }

  /** The value of a header, in memory or decoded from a sector. */
  datatype Header = Header(numBytes: int32, numSectors: int32, dataSectors: seq<int32>) {
    /** The sectors that hold the file's bytes, in file order. */
    function Data(): (ds: seq<int>) {
      if 0 <= numSectors as int <= |dataSectors| then
        Ints(dataSectors[..numSectors])
      else []
    }

    ghost predicate Ok() {
      && |dataSectors| == NUM_DIRECT
      && 0 <= numBytes as int <= MAX_FILE_SIZE
      && numSectors as int == DivRoundUp(numBytes as nat, SECTOR_SIZE)
      && SectorNumbers(Data())
      && Distinct(Data())
    }
  }

  function EncodeHeader(h: Header): (s: seq<byte>) {
    EncodeInts([h.numBytes, h.numSectors] + h.dataSectors)
  }

  function DecodeHeader(s: Sector): (h: Header) {
    var xs := DecodeInts(s);
    Header(xs[0], xs[1], xs[2..])
  }

  /** A header is exactly one sector, and reading that sector back gives the header. */
  lemma HeaderRoundTrip(h: Header)
    requires |h.dataSectors| == NUM_DIRECT
    ensures |EncodeHeader(h)| == SECTOR_SIZE
    ensures DecodeHeader(EncodeHeader(h)) == h
  {
    var xs := [h.numBytes, h.numSectors] + h.dataSectors;
    IntsRoundTrip(xs);
    assert xs[2..] == h.dataSectors;
  }

  /** The layout of a header's sector: the length in bytes, the number of sectors, then their numbers. */
  lemma HeaderLayout(h: Header, i: nat)
    requires |h.dataSectors| == NUM_DIRECT && i < NUM_DIRECT
    ensures var s := EncodeHeader(h);
            && |s| == SECTOR_SIZE
            && s[0..4] == EncodeI32(h.numBytes) && s[4..8] == EncodeI32(h.numSectors)
            && s[8 + 4 * i..12 + 4 * i] == EncodeI32(h.dataSectors[i])
  {
    hide EncodeI32;
    hide EncodeInts;
    var xs := [h.numBytes, h.numSectors] + h.dataSectors;
    HeaderRoundTrip(h);
    IntsLayout(xs, 0);
    IntsLayout(xs, 1);
    IntsLayout(xs, i + 2);
  }

  ghost predicate SectorNumbers(ds: seq<int>) {
    forall i | 0 <= i < |ds| :: 0 <= ds[i] < NUM_SECTORS
  }

  /** The bytes of the sectors ds[0], ds[1], ... laid end to end. */
  ghost function SectorBytes(img: Image, ds: seq<int>): (bytes: seq<byte>)
    requires |img| == NUM_SECTORS && SectorNumbers(ds)
    ensures |bytes| == |ds| * SECTOR_SIZE
    decreases |ds|
  {
    if ds == [] then [] else img[ds[0]] + SectorBytes(img, ds[1..])
  }

  /** The flat byte array that header `h` describes on disk `img`. */
  ghost function Contents(img: Image, h: Header): (bytes: seq<byte>)
    requires |img| == NUM_SECTORS && h.Ok()
    ensures |bytes| == h.numBytes as int
  {
    SectorBytes(img, h.Data())[..h.numBytes]
  }

  lemma {:induction false} SectorBytesJoin(img: Image, ds: seq<int>, es: seq<int>)
    requires |img| == NUM_SECTORS && SectorNumbers(ds) && SectorNumbers(es)
    ensures SectorBytes(img, ds + es) == SectorBytes(img, ds) + SectorBytes(img, es)
    decreases |ds|
  {
    if ds == [] {
      assert ds + es == es;
    } else {
      assert (ds + es)[1..] == ds[1..] + es;
      SectorBytesJoin(img, ds[1..], es);
    }
  }

  lemma {:induction false} SectorBytesKept(img: Image, img': Image, ds: seq<int>)
    requires |img| == |img'| == NUM_SECTORS && SectorNumbers(ds)
    requires forall i | 0 <= i < |ds| :: img'[ds[i]] == img[ds[i]]
    ensures SectorBytes(img', ds) == SectorBytes(img, ds)
    decreases |ds|
  {
    if ds != [] {
      SectorBytesKept(img, img', ds[1..]);
    }
  }

  lemma {:induction false} SectorBytesAt(img: Image, ds: seq<int>, k: nat)
    requires |img| == NUM_SECTORS && SectorNumbers(ds) && k < |ds| * SECTOR_SIZE
    ensures SectorBytes(img, ds)[k] == img[ds[k / SECTOR_SIZE]][k % SECTOR_SIZE]
    decreases |ds|
  {
    if k >= SECTOR_SIZE {
      SectorBytesAt(img, ds[1..], k - SECTOR_SIZE);
    }
  }

  /** Byte `k` of a file is in its data sector number k / SECTOR_SIZE, at offset k % SECTOR_SIZE. */
  lemma ContentsAt(img: Image, h: Header, k: nat)
    requires |img| == NUM_SECTORS && h.Ok() && k < h.numBytes as int
    ensures k / SECTOR_SIZE < |h.Data()| && Contents(img, h)[k] == img[h.Data()[k / SECTOR_SIZE]][k % SECTOR_SIZE]
  {
    SectorBytesAt(img, h.Data(), k);
  }

  /** A file's bytes depend on its own data sectors only. */
  lemma ContentsDependOnData(img: Image, img': Image, h: Header)
    requires |img| == |img'| == NUM_SECTORS && h.Ok()
    requires forall d | d in h.Data() :: img'[d] == img[d]
    ensures Contents(img', h) == Contents(img, h)
  {
    var ds := h.Data();
    assert forall i | 0 <= i < |ds| :: ds[i] in ds;
    SectorBytesKept(img, img', ds);
  }

  lemma {:induction false} ClearAllOneMore(bits: seq<bool>, ds: seq<int>, d: int)
    requires (forall i | 0 <= i < |ds| :: 0 <= ds[i] < |bits|) && 0 <= d < |bits|
    ensures ClearAll(bits, ds + [d]) == ClearAll(bits, ds)[d := false]
    decreases |ds|
  {
    if ds == [] {
      assert [d][1..] == [];
    } else {
      ClearAllOneMore(bits[ds[0] := false], ds[1..], d);
      assert (ds + [d])[1..] == ds[1..] + [d];
    }
  }

  lemma AllocatedHeaderOk(h: Header, bits: seq<bool>, bits': seq<bool>)
    requires |bits| == NUM_SECTORS && Allocates(bits, h.Data(), bits')
    requires |h.dataSectors| == NUM_DIRECT && 0 <= h.numBytes as int <= MAX_FILE_SIZE
    requires h.numSectors as int == DivRoundUp(h.numBytes as nat, SECTOR_SIZE)
    ensures h.Ok()
  {
    var ds := h.Data();
    AllocatesMarks(bits, ds, bits');
    AllocatesLowest(bits, ds, bits');
    assert forall i | 0 <= i < |ds| :: ds[i] in ds;
  }

  /** While clear bits are left over, the next FindAndSet succeeds. */
  lemma RoomForOneMore(bits: seq<bool>, ds: seq<int>, bits': seq<bool>)
    requires Allocates(bits, ds, bits') && |ds| < CountClear(bits)
    ensures CountClear(bits') > 0
  {
    AllocatesMarks(bits, ds, bits');
  }

  lemma NothingAllocated(bits: seq<bool>)
    ensures Allocates(bits, [], bits)
  {
  }

  class FileHeader {
    var numBytes: int32
    var numSectors: int32
    const dataSectors: array<int32>

    ghost predicate Valid() {
      dataSectors.Length == NUM_DIRECT
    }

    function View(): Header
      reads this, dataSectors
    {
      Header(numBytes, numSectors, dataSectors[..])
    }

    constructor ()
      ensures Valid() && fresh(dataSectors)
    {
      dataSectors := new int32[NUM_DIRECT];
    }

    method Allocate(freeMap: Bitmap, fileSize: int32) returns (ok: bool)
      requires Valid() && freeMap.Valid() && freeMap.numBits == NUM_SECTORS
      requires 0 <= fileSize as int <= MAX_FILE_SIZE
      modifies this, dataSectors, freeMap.words
      ensures numBytes == fileSize
      ensures (numSectors as int - 1) * SECTOR_SIZE < fileSize as int <= numSectors as int * SECTOR_SIZE
      ensures ok <==> CountClear(old(freeMap.Bits())) * SECTOR_SIZE >= fileSize as int
      ensures ok ==> Allocates(old(freeMap.Bits()), View().Data(), freeMap.Bits()) && View().Ok()
      ensures ok ==> |View().Data()| == numSectors as int
      ensures !ok ==> freeMap.Bits() == old(freeMap.Bits())
    {
      hide Allocates;
      hide BitsOfWords;
      numBytes := fileSize;
      numSectors := DivRoundUp(fileSize as nat, SECTOR_SIZE) as int32;
      var clear := freeMap.NumClear();
      if clear < numSectors as int {
        return false;
      }
      ghost var bits := freeMap.Bits();
      NothingAllocated(bits);
      for i := 0 to numSectors as int
        invariant numBytes == fileSize && numSectors as int == DivRoundUp(fileSize as nat, SECTOR_SIZE)
        invariant Allocates(bits, Ints(dataSectors[..i]), freeMap.Bits())
      {
        ghost var ds := Ints(dataSectors[..i]);
        ghost var before := freeMap.Bits();
        RoomForOneMore(bits, ds, before);
        var s := freeMap.FindAndSet();
        assert s >= 0;  // the source's ASSERT
        AllocatesOneMore(bits, ds, before, s);
        dataSectors[i] := s as int32;
        assert Ints(dataSectors[..i + 1]) == ds + [s];
      }
      AllocatedHeaderOk(View(), bits, freeMap.Bits());
      return true;
    }

    method Deallocate(freeMap: Bitmap)
      requires Valid() && freeMap.Valid() && freeMap.numBits == NUM_SECTORS && View().Ok()
      requires forall d | d in View().Data() :: freeMap.Bits()[d]
      modifies freeMap.words
      ensures freeMap.Bits() == ClearAll(old(freeMap.Bits()), View().Data())
    {
      ghost var ds := View().Data();
      ghost var bits := freeMap.Bits();
      for i := 0 to numSectors as int
        invariant View().Data() == ds
        invariant freeMap.Bits() == ClearAll(bits, ds[..i])
      {
        ClearAllMeaning(bits, ds[..i]);
        assert dataSectors[i] as int == ds[i] && ds[i] in ds;
        var marked := freeMap.Test(dataSectors[i] as int);
        assert marked;  // the source's ASSERT
        freeMap.Clear(dataSectors[i] as int);
        ClearAllOneMore(bits, ds[..i], ds[i]);
        assert ds[..i + 1] == ds[..i] + [ds[i]];
      }
      assert ds[..|ds|] == ds;
    }

    method FetchFrom(disk: SynchDisk, sector: int)
      requires Valid() && disk.Valid() && 0 <= sector < NUM_SECTORS
      modifies this, dataSectors
      ensures View() == DecodeHeader(disk.store[sector])
    {
      var raw := new byte[SECTOR_SIZE];
      disk.ReadSector(sector, raw, 0);
      var h := DecodeHeader(raw[..]);
      assert raw[..] == disk.store[sector];
      numBytes, numSectors := h.numBytes, h.numSectors;
      forall i | 0 <= i < NUM_DIRECT {
        dataSectors[i] := h.dataSectors[i];
      }
      assert dataSectors[..] == h.dataSectors;
    }

    method WriteBack(disk: SynchDisk, sector: int)
      requires Valid() && disk.Valid() && 0 <= sector < NUM_SECTORS
      modifies disk.store
      ensures |EncodeHeader(View())| == SECTOR_SIZE
      ensures disk.store[..] == old(disk.store[..])[sector := EncodeHeader(View())]
    {
      HeaderRoundTrip(View());
      ghost var h := View();
      var bytes := EncodeHeader(Header(numBytes, numSectors, dataSectors[..]));
      var raw := new byte[SECTOR_SIZE](i requires 0 <= i < SECTOR_SIZE => bytes[i]);
      assert raw[..] == bytes;
      disk.WriteSector(sector, raw, 0);
      assert raw[0..SECTOR_SIZE] == bytes;
      assert View() == h;
    }

    method ByteToSector(offset: int) returns (sector: int)
      requires Valid() && View().Ok() && 0 <= offset / SECTOR_SIZE < |View().Data()|
      ensures sector == View().Data()[offset / SECTOR_SIZE]
    {
      sector := dataSectors[offset / SECTOR_SIZE] as int;
    }

    method FileLength() returns (n: int)
      ensures n == numBytes as int
    {
      n := numBytes as int;
    }
  }
}
