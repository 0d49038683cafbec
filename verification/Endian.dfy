/** The little-endian view of words as bytes, for the casts between
    `uint8_t *` and `uint32_t *`. */
module Endian {
  import opened Words

  function WordOf(b0: int, b1: int, b2: int, b3: int): int
  {
    b0 + 0x100 * b1 + 0x1_0000 * b2 + 0x100_0000 * b3
  }

  function ByteOf(w: word, k: nat): byte
  {
    match k
    case 0 => w % 256
    case 1 => w / 0x100 % 256
    case 2 => w / 0x100 / 0x100 % 256
    case _ => w / 0x100 / 0x100 / 0x100
  }

  function ToBytes(s: seq<word>): (b: seq<byte>)
    ensures |b| == 4 * |s|
    ensures forall i :: 0 <= i < |b| ==> b[i] == ByteOf(s[i / 4], i % 4)
  {
    seq(4 * |s|, i requires 0 <= i < 4 * |s| => ByteOf(s[i / 4], i % 4))
  }

  function ToWords(b: seq<byte>): (s: seq<word>)
    ensures |s| == |b| / 4
    ensures forall i :: 0 <= i < |s| ==> s[i] == WordOf(b[4 * i], b[4 * i + 1], b[4 * i + 2], b[4 * i + 3])
  {
    seq(|b| / 4, i requires 0 <= i < |b| / 4 => WordOf(b[4 * i], b[4 * i + 1], b[4 * i + 2], b[4 * i + 3]))
  }

  lemma WordOfBytes(w: word)
    ensures WordOf(ByteOf(w, 0), ByteOf(w, 1), ByteOf(w, 2), ByteOf(w, 3)) == w
  {}

  /** Reading back the bytes of a word sequence gives the words. */
  lemma ToWordsToBytes(s: seq<word>)
    ensures ToWords(ToBytes(s)) == s
  {
    var b := ToBytes(s);
    forall i | 0 <= i < |s| ensures ToWords(b)[i] == s[i]
    {
      WordOfBytes(s[i]);
      assert 4 * i / 4 == i && (4 * i + 1) / 4 == i && (4 * i + 2) / 4 == i && (4 * i + 3) / 4 == i;
    }
  }

  /** The word at position j of the bytes of s is made of the four bytes there. */
  lemma BytesAt(s: seq<word>, j: nat)
    requires j < |s|
    ensures s[j] == WordOf(ToBytes(s)[4 * j], ToBytes(s)[4 * j + 1], ToBytes(s)[4 * j + 2], ToBytes(s)[4 * j + 3])
  {
    ToWordsToBytes(s);
  }
}
