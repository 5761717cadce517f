/** filesys/pbitmap.cc: a bitmap kept in a file. */
module PersistentBitmaps {
  import opened Bytes
  import opened Bitmaps
  import opened SynchDisks
  import opened FileHeaders
  import opened OpenFiles

  method FetchFrom(freeMap: Bitmap, file: OpenFile)
    requires freeMap.Valid() && file.Valid() && file.hdr.numBytes as int == 4 * freeMap.numWords
    requires freeMap.words as object != file.hdr.dataSectors  // two different blocks of memory
    modifies freeMap.words
    ensures freeMap.words[..] == DecodeWords(file.Bytes())
  {
    hide Contents;
    hide DecodeWord;
    hide Splice;
    var raw := new byte[4 * freeMap.numWords];
    ghost var garbage := raw[..];
    var n := file.ReadAt(raw, 0, 4 * freeMap.numWords, 0);
    SpliceAll(garbage, file.Bytes());
    var ws := DecodeWords(raw[..]);
    forall i | 0 <= i < freeMap.numWords {
      freeMap.words[i] := ws[i];
    }
    assert freeMap.words[..] == ws;
  }

  method WriteBack(freeMap: Bitmap, file: OpenFile)
    requires freeMap.Valid() && file.Valid() && file.hdr.numBytes as int == 4 * freeMap.numWords
    modifies file.disk.store
    ensures DecodeWords(file.Bytes()) == freeMap.words[..]
    ensures forall s | 0 <= s < NUM_SECTORS && s !in file.hdr.View().Data() ::
              file.disk.store[..][s] == old(file.disk.store[..])[s]
  {
    hide Contents;
    hide DecodeWords;
    hide EncodeWords;
    hide Splice;
    WordsRoundTrip(freeMap.words[..]);
    var bytes := EncodeWords(freeMap.words[..]);
    var raw := new byte[|bytes|](i requires 0 <= i < |bytes| => bytes[i]);
    assert raw[..] == bytes;
    ghost var before := file.Bytes();
    var n := file.WriteAt(raw, 4 * freeMap.numWords, 0);
    SpliceAll(before, bytes);
  }
}
