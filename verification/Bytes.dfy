/** Bytes and machine words as the file system lays them out on disk.
    The host is little-endian and `int` is 32 bits wide. */
module Bytes {

  newtype byte = x: int | 0 <= x < 256

  newtype int32 = x: int | -0x8000_0000 <= x < 0x8000_0000

  datatype Option<+T> = None | Some(value: T)

  const BITS_IN_WORD := 32

  function Abs(x: int): (r: nat) {
    if x < 0 then -x else x
  }

  /** C's divRoundUp(n, s) for the non-negative sizes used here: the fewest pieces of size `s` that hold `n`. */
  function DivRoundUp(n: nat, s: nat): (r: nat)
    requires s > 0
    ensures (r - 1) * s < n <= r * s
  {
    n / s + if n % s > 0 then 1 else 0
  }

  // ---------------------------------------------------------------------
  // One 32-bit word as four bytes, least significant first
  // ---------------------------------------------------------------------

  function EncodeU32(n: nat): (b: seq<byte>)
    requires n < 0x1_0000_0000
    ensures |b| == 4
  {
    [(n % 256) as byte, (n / 256 % 256) as byte, (n / 256 / 256 % 256) as byte, (n / 256 / 256 / 256) as byte]
  }

  function DecodeU32(b: seq<byte>): (n: nat)
    requires |b| == 4
    ensures n < 0x1_0000_0000
  {
    b[0] as int + 256 * (b[1] as int) + 0x1_0000 * (b[2] as int) + 0x100_0000 * (b[3] as int)
  }

  /** The least significant byte comes first, and decoding gives the number back. */
  lemma U32RoundTrip(n: nat)
    requires n < 0x1_0000_0000
    ensures var b := EncodeU32(n);
            n == b[0] as int + 0x100 * b[1] as int + 0x1_0000 * b[2] as int + 0x100_0000 * b[3] as int
    ensures DecodeU32(EncodeU32(n)) == n
  {
  }

  function EncodeI32(x: int32): (b: seq<byte>)
    ensures |b| == 4
  {
    EncodeU32(if x < 0 then x as int + 0x1_0000_0000 else x as int)
  }

  function DecodeI32(b: seq<byte>): (x: int32)
    requires |b| == 4
  {
    var n := DecodeU32(b);
    if n < 0x8000_0000 then n as int32 else (n - 0x1_0000_0000) as int32
  }

  lemma I32RoundTrip(x: int32)
    ensures DecodeI32(EncodeI32(x)) == x
  {
    U32RoundTrip(if x < 0 then x as int + 0x1_0000_0000 else x as int);
  }

  function EncodeWord(w: bv32): (b: seq<byte>)
    ensures |b| == 4
  {
    EncodeU32(w as nat)
  }

  function DecodeWord(b: seq<byte>): (w: bv32)
    requires |b| == 4
  {
    DecodeU32(b) as bv32
  }

  lemma WordRoundTrip(w: bv32)
    ensures DecodeWord(EncodeWord(w)) == w
  {
    U32RoundTrip(w as nat);
  }

  // ---------------------------------------------------------------------
  // Arrays of fixed-size records, stored one after the other
  // ---------------------------------------------------------------------

  ghost predicate Records(cs: seq<seq<byte>>, size: nat) {
    forall i | 0 <= i < |cs| :: |cs[i]| == size
  }

  function Flatten(cs: seq<seq<byte>>): (b: seq<byte>) {
    if cs == [] then [] else cs[0] + Flatten(cs[1..])
  }

  lemma {:induction false} FlattenLength(cs: seq<seq<byte>>, size: nat)
    requires Records(cs, size)
    ensures |Flatten(cs)| == |cs| * size
  {
    if cs != [] {
      FlattenLength(cs[1..], size);
    }
  }

  /** Record `i` sits at offset `i * size`. */
  lemma {:induction false} FlattenChunk(cs: seq<seq<byte>>, size: nat, i: nat)
    requires Records(cs, size) && i < |cs|
    ensures 0 <= i * size && i * size + size <= |Flatten(cs)|
    ensures Flatten(cs)[i * size..i * size + size] == cs[i]
  {
    if i == 0 {
    } else {
      FlattenChunk(cs[1..], size, i - 1);
      var rest, at := Flatten(cs[1..]), (i - 1) * size;
      assert at + size == i * size;
      assert Flatten(cs)[i * size..i * size + size] == rest[at..at + size];
    }
  }

  function EncodeInts(xs: seq<int32>): (b: seq<byte>) {
    Flatten(seq(|xs|, i requires 0 <= i < |xs| => EncodeI32(xs[i])))
  }

  function DecodeInts(b: seq<byte>): (xs: seq<int32>)
    ensures |xs| == |b| / 4
  {
    seq(|b| / 4, i requires 0 <= i < |b| / 4 => DecodeI32(b[4 * i..4 * i + 4]))
  }

  /** Integer `i` is bytes 4 * i to 4 * i + 3. */
  lemma IntsLayout(xs: seq<int32>, i: nat)
    requires i < |xs|
    ensures 4 * i + 4 <= |EncodeInts(xs)| && EncodeInts(xs)[4 * i..4 * i + 4] == EncodeI32(xs[i])
  {
    var cs := seq(|xs|, k requires 0 <= k < |xs| => EncodeI32(xs[k]));
    FlattenChunk(cs, 4, i);
  }

  lemma IntsRoundTrip(xs: seq<int32>)
    ensures |EncodeInts(xs)| == 4 * |xs|
    ensures DecodeInts(EncodeInts(xs)) == xs
  {
    var cs := seq(|xs|, i requires 0 <= i < |xs| => EncodeI32(xs[i]));
    FlattenLength(cs, 4);
    forall i | 0 <= i < |xs|
      ensures DecodeI32(EncodeInts(xs)[4 * i..4 * i + 4]) == xs[i]
    {
      FlattenChunk(cs, 4, i);
      I32RoundTrip(xs[i]);
    }
  }

  function EncodeWords(ws: seq<bv32>): (b: seq<byte>) {
    Flatten(seq(|ws|, i requires 0 <= i < |ws| => EncodeWord(ws[i])))
  }

  function DecodeWords(b: seq<byte>): (ws: seq<bv32>)
    ensures |ws| == |b| / 4
  {
    seq(|b| / 4, i requires 0 <= i < |b| / 4 => DecodeWord(b[4 * i..4 * i + 4]))
  }

  lemma WordsRoundTrip(ws: seq<bv32>)
    ensures |EncodeWords(ws)| == 4 * |ws|
    ensures DecodeWords(EncodeWords(ws)) == ws
  {
    hide EncodeWord;
    hide DecodeWord;
    var cs := seq(|ws|, i requires 0 <= i < |ws| => EncodeWord(ws[i]));
    FlattenLength(cs, 4);
    forall i | 0 <= i < |ws|
      ensures DecodeWord(EncodeWords(ws)[4 * i..4 * i + 4]) == ws[i]
    {
      FlattenChunk(cs, 4, i);
      WordRoundTrip(ws[i]);
    }
  }

  // ---------------------------------------------------------------------
  // Overwriting part of a sequence
  // ---------------------------------------------------------------------

  /** `s` with `t` written over it from position `at`. */
  function Splice<T>(s: seq<T>, at: nat, t: seq<T>): (r: seq<T>)
    requires at + |t| <= |s|
    ensures |r| == |s|
  {
    s[..at] + t + s[at + |t|..]
  }

  lemma SpliceAll<T>(s: seq<T>, t: seq<T>)
    requires |t| == |s|
    ensures Splice(s, 0, t[0..|t|]) == t
    ensures t[..|t|] == t
  {
  }

  lemma SplicePrefix<T>(s: seq<T>, at: nat, t: seq<T>)
    requires at + |t| <= |s|
    ensures Splice(s, at, t)[..at + |t|] == s[..at] + t
  {
  }

  lemma ThreeParts<T>(s: seq<T>, i: nat, j: nat)
    requires i <= j <= |s|
    ensures s[..i] + s[i..j] + s[j..] == s
  {
  }

  lemma TwoParts<T>(s: seq<T>, i: nat, j: nat)
    requires i <= j <= |s|
    ensures s[..j] == s[..i] + s[i..j]
  {
  }

  lemma SliceOfSlice<T>(s: seq<T>, at: nat, n: nat, i: nat, j: nat)
    requires at + n <= |s| && i <= j <= n
    ensures s[at..at + n][i..j] == s[at + i..at + j]
  {
    var t := s[at..at + n];
    assert |t[i..j]| == j - i == |s[at + i..at + j]|;
    forall k | 0 <= k < j - i ensures t[i..j][k] == s[at + i..at + j][k] {
      assert t[i..j][k] == t[i + k] == s[at + (i + k)];
      assert s[at + i..at + j][k] == s[(at + i) + k];
    }
  }

  lemma OneLonger<T>(s: seq<T>, i: nat, j: nat)
    requires i <= j < |s|
    ensures s[i..j + 1] == s[i..j] + [s[j]]
  {
  }

  /** A slice that lies inside the middle of three parts, and inside a prefix of the whole. */
  lemma SliceOfMiddle<T>(pre: seq<T>, mid: seq<T>, post: seq<T>, whole: nat, from: nat, n: nat)
    requires |pre| + from + n <= whole <= |pre + mid + post| && from + n <= |mid|
    ensures (pre + mid + post)[..whole][|pre| + from..|pre| + from + n] == mid[from..from + n]
  {
  }

  /** Replacing the middle of three parts by `buf` with `t` spliced in at `from` is the same as splicing
      `t` into the whole, when `buf` agrees with the old middle everywhere else below `whole`. */
  lemma SpliceOfMiddle<T>(pre: seq<T>, mid: seq<T>, post: seq<T>, whole: nat, buf: seq<T>, from: nat, t: seq<T>)
    requires |buf| == |mid| && whole <= |pre + mid + post|
    requires from + |t| <= |mid| && |pre| + from + |t| <= whole
    requires forall j | 0 <= j < |mid| && (j < from || from + |t| <= j) && |pre| + j < whole :: buf[j] == mid[j]
    ensures (pre + Splice(buf, from, t) + post)[..whole] == Splice((pre + mid + post)[..whole], |pre| + from, t)
  {
  }
}
