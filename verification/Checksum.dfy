/** cse644/Lab6_RemoteDNS/code/packet_headers.h: the Internet checksum, as computed on a little-endian host. */
module Checksums {
  import opened Bytes

  const MOD := 65535
  const MAX_LENGTH := 65535

  type Short = n: nat | n < 0x1_0000

  // ---------------------------------------------------------------------
  // Section 1 of RFC 1071: the 16-bit one's complement sum
  // ---------------------------------------------------------------------

  /** Addition with the carry brought around. */
  function OnesAdd(x: Short, y: Short): (z: Short) {
    if x + y > 0xffff then x + y - 0xffff else x + y
  }

  function OnesSum(words: seq<Short>): (z: Short) {
    if words == [] then 0 else OnesAdd(OnesSum(words[..|words| - 1]), words[|words| - 1])
  }

  /** The words of a buffer as the host reads them; an odd last byte is padded with a zero. */
  function HostWords(buf: seq<byte>): (words: seq<Short>) {
    seq((|buf| + 1) / 2, i requires 0 <= i < (|buf| + 1) / 2 => HostWord(buf, i))
  }

  function HostWord(buf: seq<byte>, i: nat): (w: Short)
    requires i < (|buf| + 1) / 2
  {
    buf[2 * i] as int + if 2 * i + 1 < |buf| then 256 * (buf[2 * i + 1] as int) else 0
  }

  function Total(words: seq<Short>): (t: nat) {
    if words == [] then 0 else Total(words[..|words| - 1]) + words[|words| - 1]
  }

  lemma {:induction false} TotalBound(words: seq<Short>)
    ensures Total(words) <= 0xffff * |words|
  {
    if words != [] {
      TotalBound(words[..|words| - 1]);
    }
  }

  /** The one's complement sum is the plain sum reduced modulo 65535 to 1 .. 65535, and 0 only for 0. */
  lemma {:induction false} OnesSumIs(words: seq<Short>)
    ensures OnesSum(words) % MOD == Total(words) % MOD
    ensures OnesSum(words) == 0 <==> Total(words) == 0
  {
    if words != [] {
      var init, last := words[..|words| - 1], words[|words| - 1];
      OnesSumIs(init);
      ModAdd(OnesSum(init), Total(init), last);
    }
  }

  lemma ModAdd(x: int, y: int, z: int)
    requires x % MOD == y % MOD
    ensures (x + z) % MOD == (y + z) % MOD
  {
    assert x - y == MOD * (x / MOD - y / MOD);
    ModShift(y + z, x / MOD - y / MOD);
  }

  lemma ModShift(x: int, k: int)
    ensures (x + MOD * k) % MOD == x % MOD
  {
    assert (x + MOD * k) / MOD == x / MOD + k;
  }

  lemma Determined(x: Short, y: Short)
    requires x % MOD == y % MOD && (x == 0 <==> y == 0)
    ensures x == y
  {
  }

  /** The two folds at the end of in_cksum. */
  function Fold(sum: nat): (f: nat) {
    var once := sum / 0x1_0000 + sum % 0x1_0000;
    once + once / 0x1_0000
  }

  lemma FoldIs(sum: nat)
    requires sum < 0x8000_0000
    ensures Fold(sum) < 0x2_0000
    ensures (Fold(sum) % 0x1_0000) % MOD == sum % MOD
    ensures Fold(sum) % 0x1_0000 == 0 <==> sum == 0
  {
    var once := sum / 0x1_0000 + sum % 0x1_0000;
    assert sum == once + MOD * (sum / 0x1_0000);
    ModShift(once, sum / 0x1_0000);
    if once >= 0x1_0000 {
      assert Fold(sum) % 0x1_0000 == once - MOD;
      ModShift(once - MOD, 1);
    }
  }

  lemma FoldsToOnesSum(words: seq<Short>)
    requires Total(words) < 0x8000_0000
    ensures Fold(Total(words)) % 0x1_0000 == OnesSum(words)
  {
    FoldIs(Total(words));
    OnesSumIs(words);
    Determined(Fold(Total(words)) % 0x1_0000, OnesSum(words));
  }

  lemma TotalStep(words: seq<Short>, w: nat)
    requires w < |words|
    ensures Total(words[..w + 1]) == Total(words[..w]) + words[w]
  {
    assert words[..w + 1][..w] == words[..w];
  }

  function Checksum(buf: seq<byte>): (c: Short) {
    0xffff - OnesSum(HostWords(buf))
  }

  /** in_cksum returns the complement of the one's complement sum, for every buffer of up to 65535 bytes; `sum` is
      a 32-bit int and never overflows. */
  method InCksum(buf: seq<byte>) returns (c: Short)
    requires |buf| <= MAX_LENGTH
    ensures c == Checksum(buf)
  {
    hide Total;
    hide OnesSum;
    ghost var words := HostWords(buf);
    var w := 0;
    var nleft := |buf|;
    var sum: int32 := 0;
    assert Total(words[..0]) == 0 by {
      TotalBound(words[..0]);
    }
    while nleft > 1
      invariant nleft == |buf| - 2 * w && nleft >= 0
      invariant sum as int == Total(words[..w]) <= 0xffff * w
    {
      TotalStep(words, w);
      sum := sum + (buf[2 * w] as int32 + 256 * (buf[2 * w + 1] as int32));
      w := w + 1;
      nleft := nleft - 2;
    }
    if nleft == 1 {
      TotalStep(words, w);
      sum := sum + buf[2 * w] as int32;
      w := w + 1;
    }
    assert words[..w] == words;
    FoldsToOnesSum(words);
    FoldIs(sum as nat);
    hide HostWords;
    var folded := sum / 0x1_0000 + sum % 0x1_0000;
    folded := folded + folded / 0x1_0000;
    assert folded as int == Fold(sum as nat);
    return 0xffff - folded as int % 0x1_0000;
  }

  // ---------------------------------------------------------------------
  // What the checksum is for
  // ---------------------------------------------------------------------

  /** A buffer checks out, that is, its checksum is 0, exactly if its words add up to a multiple of 65535 and are
      not all zero. */
  lemma ZeroIff(buf: seq<byte>)
    ensures Checksum(buf) == 0 <==> Total(HostWords(buf)) % MOD == 0 && Total(HostWords(buf)) > 0
  {
    OnesSumIs(HostWords(buf));
  }

  /** A zero byte after a buffer of odd length changes nothing. */
  lemma OddIsPadded(buf: seq<byte>)
    requires |buf| % 2 == 1
    ensures Checksum(buf + [0]) == Checksum(buf)
  {
    assert HostWords(buf + [0]) == HostWords(buf);
  }

  lemma OnesSumJoin(words: seq<Short>, w: Short)
    ensures OnesSum(words + [w]) == OnesAdd(OnesSum(words), w)
  {
    assert (words + [w])[..|words|] == words;
  }

  /** The example of section 3 of RFC 1071: the bytes 00 01 f2 03 f4 f5 f6 f7, read low byte first, add up to f2dd. */
  lemma ExampleOfTheRfc()
    ensures Checksum([0x00, 0x01, 0xf2, 0x03, 0xf4, 0xf5, 0xf6, 0xf7]) == 0xffff - 0xf2dd
  {
    hide OnesSum;
    var words: seq<Short> := [0x0100, 0x03f2, 0xf5f4, 0xf7f6];
    var buf: seq<byte> := [0x00, 0x01, 0xf2, 0x03, 0xf4, 0xf5, 0xf6, 0xf7];
    assert HostWords(buf) == words;
    OnesSumIs([]);
    OnesSumJoin([], words[0]);
    OnesSumJoin(words[..1], words[1]);
    OnesSumJoin(words[..2], words[2]);
    OnesSumJoin(words[..3], words[3]);
    assert words[..1] == [] + [words[0]];
    assert words[..2] == words[..1] + [words[1]];
    assert words[..3] == words[..2] + [words[2]];
    assert words == words[..3] + [words[3]];
  }

  /** The 16-bit field at byte 2 * i, written in the byte order of the host. */
  function WithField(buf: seq<byte>, i: nat, value: Short): (buf': seq<byte>)
    requires 2 * i + 1 < |buf|
    ensures |buf'| == |buf|
  {
    buf[2 * i := (value % 256) as byte][2 * i + 1 := (value / 256) as byte]
  }

  lemma WordsWithField(buf: seq<byte>, i: nat, value: Short)
    requires 2 * i + 1 < |buf|
    ensures HostWords(WithField(buf, i, value)) == HostWords(buf)[i := value]
  {
    var words, words' := HostWords(buf), HostWords(WithField(buf, i, value));
    forall k | 0 <= k < |words| ensures words'[k] == words[i := value][k] {
      assert words'[k] == HostWord(WithField(buf, i, value), k) && words[k] == HostWord(buf, k);
    }
  }

  lemma {:induction false} TotalWithWord(words: seq<Short>, i: nat, value: Short)
    requires i < |words|
    ensures Total(words[i := value]) == Total(words) - words[i] + value
  {
    var k := |words| - 1;
    if i == k {
      assert words[i := value][..k] == words[..k];
    } else {
      assert words[i := value][..k] == words[..k][i := value];
      TotalWithWord(words[..k], i, value);
    }
  }

  /** Filling a zeroed 16-bit field with the checksum makes the checksum of the whole zero, for every buffer. */
  lemma StoredChecksumVerifies(buf: seq<byte>, i: nat)
    requires 2 * i + 1 < |buf| && buf[2 * i] == 0 && buf[2 * i + 1] == 0
    ensures Checksum(WithField(buf, i, Checksum(buf))) == 0
  {
    var words, c := HostWords(buf), Checksum(buf);
    WordsWithField(buf, i, c);
    assert words[i] == HostWord(buf, i) == 0;
    TotalWithWord(words, i, c);
    OnesSumIs(words);
    ZeroIff(WithField(buf, i, c));
    hide Total;
    hide OnesSum;
    hide HostWords;
    assert OnesSum(words) + c == MOD;
    ModAdd(Total(words), OnesSum(words), c);
  }

  /** A buffer that checks out and has one field changed checks out again only if the change is from 0 to 65535 or
      back, and the rest is not all zero: every other change of 16 aligned bits is detected. */
  lemma ChangedWordIsDetected(buf: seq<byte>, i: nat, value: Short)
    requires 2 * i + 1 < |buf| && Checksum(buf) == 0
    ensures Checksum(WithField(buf, i, value)) == 0 <==>
              || value == HostWords(buf)[i]
              || (value == 0xffff && HostWords(buf)[i] == 0)
              || (value == 0 && HostWords(buf)[i] == 0xffff && Total(HostWords(buf)) > 0xffff)
  {
    var words := HostWords(buf);
    WordsWithField(buf, i, value);
    TotalWithWord(words, i, value);
    ZeroIff(buf);
    ZeroIff(WithField(buf, i, value));
    hide Total;
    hide OnesSum;
    var t, w := Total(words), words[i];
    hide HostWords;
    ModAdd(t, 0, value - w);
    MultipleBetween(value - w);
  }

  lemma MultipleBetween(d: int)
    requires -MOD <= d <= MOD
    ensures d % MOD == 0 <==> d == 0 || d == MOD || d == -MOD
  {
  }

  /** The two bytes of a word exchanged. */
  function Swapped(x: Short): (y: Short)
    ensures y % MOD == 256 * x % MOD && (y == 0 <==> x == 0)
  {
    assert 256 * x == (x % 256 * 256 + x / 256) + MOD * (x / 256);
    ModShift(x % 256 * 256 + x / 256, x / 256);
    x % 256 * 256 + x / 256
  }

  /** The words as a host of the other byte order reads them. */
  function SwappedAll(words: seq<Short>): (r: seq<Short>)
    ensures |r| == |words|
  {
    seq(|words|, i requires 0 <= i < |words| => Swapped(words[i]))
  }

  lemma {:induction false} SwappedTotal(words: seq<Short>)
    ensures Total(SwappedAll(words)) % MOD == 256 * Total(words) % MOD
    ensures Total(SwappedAll(words)) == 0 <==> Total(words) == 0
  {
    if words != [] {
      var k := |words| - 1;
      SwappedTotal(words[..k]);
      assert SwappedAll(words)[..k] == SwappedAll(words[..k]);
      var x: Short := words[k];
      var t, t' := Total(words[..k]), Total(SwappedAll(words[..k]));
      ModAdd(t', 256 * t, Swapped(x));
      ModAdd(Swapped(x), 256 * x, 256 * t);
    }
  }

  /** Byte order does not matter: a host of the other order computes the same bytes. */
  lemma ByteOrderDoesNotMatter(buf: seq<byte>)
    ensures OnesSum(SwappedAll(HostWords(buf))) == Swapped(OnesSum(HostWords(buf)))
    ensures 0xffff - OnesSum(SwappedAll(HostWords(buf))) == Swapped(Checksum(buf))
  {
    var words := HostWords(buf);
    var sum := OnesSum(words);
    OnesSumIs(words);
    OnesSumIs(SwappedAll(words));
    SwappedTotal(words);
    hide Total;
    hide OnesSum;
    hide HostWords;
    hide SwappedAll;
    ModTimes(sum, Total(words));
    Determined(OnesSum(SwappedAll(words)), Swapped(sum));
    SwappedComplement(sum);
  }

  lemma ModTimes(x: nat, y: nat)
    requires x % MOD == y % MOD
    ensures 256 * x % MOD == 256 * y % MOD
  {
    assert 256 * x == 256 * y + MOD * (256 * (x / MOD - y / MOD));
    ModShift(256 * y, 256 * (x / MOD - y / MOD));
  }

  lemma SwappedComplement(x: Short)
    ensures Swapped(0xffff - x) == 0xffff - Swapped(x)
  {
    var high, low := x / 256, x % 256;
    var y := 0xffff - x;
    assert y == 256 * (255 - high) + (255 - low);
    assert y / 256 == 255 - high && y % 256 == 255 - low;
  }
}
