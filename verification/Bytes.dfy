/** 32-bit words: wrapping arithmetic and little-endian views of byte buffers. */
module Bytes {
  import opened Bits

  type Byte = b: nat | b < 256

  function ByteOf(w: nat, i: nat): (b: Byte)
  {
    if i == 0 then w % 256
    else if i == 1 then w / 0x100 % 256
    else if i == 2 then w / 0x1_0000 % 256
    else w / 0x100_0000 % 256
  }

  /** The bytes of a word array. */
  function ToBytes(words: seq<nat>): (s: seq<Byte>)
    ensures |s| == 4 * |words|
    ensures forall i | 0 <= i < |s| :: s[i] == ByteOf(words[i / 4], i % 4)
  {
    seq(4 * |words|, i requires 0 <= i < 4 * |words| => ByteOf(words[i / 4], i % 4))
  }

  /** The word stored at a byte offset. */
  function WordAt(s: seq<Byte>, at: nat): (w: nat)
    requires at + 4 <= |s|
    ensures w < 0x1_0000_0000
  {
    s[at] as int + 0x100 * (s[at + 1] as int) + 0x1_0000 * (s[at + 2] as int) + 0x100_0000 * (s[at + 3] as int)
  }

  /** A byte buffer read as an array of words; a partial last word is left out. */
  function WordsOf(s: seq<Byte>): (words: seq<nat>)
    ensures |words| == |s| / 4
    ensures forall k | 0 <= k < |words| :: words[k] == WordAt(s, 4 * k)
  {
    seq(|s| / 4, k requires 0 <= k < |s| / 4 => WordAt(s, 4 * k))
  }

  lemma WordBytesRoundTrip(w: nat)
    requires w < 0x1_0000_0000
    ensures ByteOf(w, 0) as int + 0x100 * (ByteOf(w, 1) as int) + 0x1_0000 * (ByteOf(w, 2) as int)
          + 0x100_0000 * (ByteOf(w, 3) as int) == w
  {
    var a := w / 0x100;
    var b := a / 0x100;
    assert w / 0x1_0000 == b && w / 0x100_0000 == b / 0x100;
  }

  /** Words written after a word-aligned prefix are read back, whatever follows. */
  lemma WordsOfToBytes(prefix: seq<Byte>, words: seq<nat>, rest: seq<Byte>)
    requires |prefix| % 4 == 0
    requires forall k | 0 <= k < |words| :: words[k] < 0x1_0000_0000
    ensures
      var all := WordsOf(prefix + ToBytes(words) + rest);
      var at := |prefix| / 4;
      |all| >= at + |words| && all[at..at + |words|] == words
  {
    hide ByteOf, WordAt;
    var s := prefix + ToBytes(words) + rest;
    var all, at := WordsOf(s), |prefix| / 4;
    assert |s| / 4 >= at + |words|;
    forall k | 0 <= k < |words| ensures all[at..at + |words|][k] == words[k] {
      assert all[at..at + |words|][k] == all[at + k] == WordAt(s, 4 * (at + k));
      assert 4 * (at + k) == |prefix| + 4 * k;
      WordAtToBytes(prefix, words, rest, k);
    }
  }

  lemma WordAtToBytes(prefix: seq<Byte>, words: seq<nat>, rest: seq<Byte>, k: nat)
    requires |prefix| % 4 == 0 && k < |words|
    requires words[k] < 0x1_0000_0000
    ensures WordAt(prefix + ToBytes(words) + rest, |prefix| + 4 * k) == words[k]
  {
    var s, at := prefix + ToBytes(words) + rest, |prefix| + 4 * k;
    forall i | 0 <= i < 4 ensures s[at + i] == ByteOf(words[k], i) {
      assert s[at + i] == ToBytes(words)[4 * k + i];
      assert (4 * k + i) / 4 == k && (4 * k + i) % 4 == i;
    }
    assert s[at] == ByteOf(words[k], 0);
    WordBytesRoundTrip(words[k]);
  }

  lemma WordBound()
    ensures Pow2(8) == 256 && Pow2(32) == 0x1_0000_0000
  {
    assert Pow2(8) == 256;
    assert Pow2(16) == 0x1_0000;
    assert Pow2(24) == 0x100_0000;
  }

  // ----- uint32 arithmetic

  /** The uint32 a computation wraps to. */
  function Wrap(a: int): (r: nat)
    ensures r < 0x1_0000_0000
  {
    a % 0x1_0000_0000
  }

  function Sub32(a: int, b: int): (r: nat) { Wrap(a - b) }
  function Add32(a: int, b: int): (r: nat) { Wrap(a + b) }

  lemma AddWrapped(a: int, b: int)
    ensures Add32(Wrap(a), b) == Wrap(a + b) && Add32(Wrap(a), Wrap(b)) == Wrap(a + b)
  {
  }
}
