/** Bytes, 32-bit words and 64-bit double words, little-endian as on the Cortex-M targets. */
module Words {

  type byte = bv8

  /** The four bytes a word occupies in memory. */
  function WordBytes(w: bv32): (b: seq<byte>)
    ensures |b| == 4
  {
    [(w & 0xFF) as byte, ((w >> 8) & 0xFF) as byte, ((w >> 16) & 0xFF) as byte, ((w >> 24) & 0xFF) as byte]
  }

  function BytesWord(b: seq<byte>): bv32
    requires |b| == 4
  {
    Join(b[0], b[1], b[2], b[3])
  }

  function Join(b0: byte, b1: byte, b2: byte, b3: byte): bv32 {
    (b0 as bv32) | ((b1 as bv32) << 8) | ((b2 as bv32) << 16) | ((b3 as bv32) << 24)
  }

  /** `memcpy(&dword, b, |b|)`: with four bytes the upper half of the old double word stays. */
  function Overlay(dword: bv64, b: seq<byte>): bv64
    requires |b| == 4 || |b| == 8
  {
    if |b| == 4 then
      (dword & 0xFFFF_FFFF_0000_0000) | (BytesWord(b) as bv64)
    else
      (BytesWord(b[..4]) as bv64) | ((BytesWord(b[4..]) as bv64) << 32)
  }

  /** The split in NVT_FMC_Program. */
  function LowWord(dword: bv64): bv32 {
    (dword & 0xFFFF_FFFF) as bv32
  }

  function HighWord(dword: bv64): bv32 {
    ((dword & 0xFFFF_FFFF_0000_0000) >> 32) as bv32
  }

  lemma JoinSplit(w: bv32, b0: byte, b1: byte, b2: byte, b3: byte)
    requires w == Join(b0, b1, b2, b3)
    ensures (w & 0xFF) as byte == b0
    ensures ((w >> 8) & 0xFF) as byte == b1
    ensures ((w >> 16) & 0xFF) as byte == b2
    ensures ((w >> 24) & 0xFF) as byte == b3
  {
  }

  lemma JoinBytes(w: bv32, b0: byte, b1: byte, b2: byte, b3: byte)
    requires w == Join(b0, b1, b2, b3)
    ensures WordBytes(w) == [b0, b1, b2, b3]
  {
    JoinSplit(w, b0, b1, b2, b3);
  }

  /** A word read from flash and copied out is the bytes that were stored. */
  lemma WordRoundTrip(b: seq<byte>)
    requires |b| == 4
    ensures WordBytes(BytesWord(b)) == b
  {
    JoinBytes(BytesWord(b), b[0], b[1], b[2], b[3]);
  }

  lemma SplitHalves(lo: bv32, hi: bv32, d: bv64)
    requires d == (lo as bv64) | ((hi as bv64) << 32)
    ensures LowWord(d) == lo && HighWord(d) == hi
  {
  }

  lemma SplitLow(lo: bv32, old_: bv64, d: bv64)
    requires d == (old_ & 0xFFFF_FFFF_0000_0000) | (lo as bv64)
    ensures LowWord(d) == lo
  {
  }

  /** Packing `b` into a double word and splitting it into the words the controller programs gives
      `b` back: both words of an 8-byte unit, the low word of a 4-byte unit, whatever the stale upper half was. */
  lemma PackRoundTrip(stale: bv64, b: seq<byte>)
    requires |b| == 4 || |b| == 8
    ensures |b| == 8 ==> WordBytes(LowWord(Overlay(stale, b))) + WordBytes(HighWord(Overlay(stale, b))) == b
    ensures |b| == 4 ==> WordBytes(LowWord(Overlay(stale, b))) == b
  {
    if |b| == 8 {
      SplitHalves(BytesWord(b[..4]), BytesWord(b[4..]), Overlay(stale, b));
      WordRoundTrip(b[..4]);
      WordRoundTrip(b[4..]);
    } else {
      SplitLow(BytesWord(b), stale, Overlay(stale, b));
      WordRoundTrip(b);
    }
  }
}
