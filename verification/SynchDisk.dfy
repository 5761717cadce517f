/** filesys/synchdisk.cc and machine/disk.h: the disk as an array of sectors, read and written
    one whole sector at a time. The timing of a request is in module DiskLatency. */
module SynchDisks {
  import opened Bytes

  const SECTOR_SIZE := 128
  const NUM_SECTORS := 1024

  type Sector = s: seq<byte> | |s| == SECTOR_SIZE witness seq(SECTOR_SIZE, _ => 0)

  /** The contents of the whole disk. */
  type Image = seq<Sector>

  class SynchDisk {
    const store: array<Sector>

    ghost predicate Valid() {
      store.Length == NUM_SECTORS
    }

    method ReadSector(sectorNumber: int, data: array<byte>, at: nat)
      requires Valid() && 0 <= sectorNumber < NUM_SECTORS
      requires at + SECTOR_SIZE <= data.Length
      modifies data
      ensures data[..] == Splice(old(data[..]), at, store[..][sectorNumber])
    {
      forall i | 0 <= i < SECTOR_SIZE {
        data[at + i] := store[sectorNumber][i];
      }
    }

    method WriteSector(sectorNumber: int, data: array<byte>, at: nat)
      requires Valid() && 0 <= sectorNumber < NUM_SECTORS
      requires at + SECTOR_SIZE <= data.Length
      modifies store
      ensures store[..] == old(store[..])[sectorNumber := data[at..at + SECTOR_SIZE]]
    {
      store[sectorNumber] := data[at..at + SECTOR_SIZE];
    }
  }
}
