/** Byte buffers and the 32-bit header word read out of them.

    The headers are read with a plain `*(const uint*)` load on a little-endian
    machine, so the first byte of the buffer becomes bits 0-7 of the word, the
    second byte bits 8-15, and so on. */
module Bytes {

  /** The 32-bit word whose low byte is `data[i]` and whose high byte is `data[i + 3]`. */
  function LoadWord(data: seq<bv8>, i: nat): (w: bv32)
    requires i + 4 <= |data|
    ensures w & 0xFF == data[i] as bv32
    ensures (w >> 8) & 0xFF == data[i + 1] as bv32
    ensures (w >> 16) & 0xFF == data[i + 2] as bv32
    ensures w >> 24 == data[i + 3] as bv32
  {
    (data[i] as bv32) | ((data[i + 1] as bv32) << 8) | ((data[i + 2] as bv32) << 16) | ((data[i + 3] as bv32) << 24)
  }

  /** The four bytes that a little-endian store of `w` writes, lowest first. */
  function StoreWord(w: bv32): (s: seq<bv8>)
    ensures |s| == 4
  {
    [(w & 0xFF) as bv8, ((w >> 8) & 0xFF) as bv8, ((w >> 16) & 0xFF) as bv8, (w >> 24) as bv8]
  }

  /** Loading the stored bytes gives the word back. */
  lemma LoadStore(w: bv32)
    ensures LoadWord(StoreWord(w), 0) == w
  {
  }

  /** Storing a loaded word gives the four bytes back. */
  lemma StoreLoad(data: seq<bv8>, i: nat)
    requires i + 4 <= |data|
    ensures StoreWord(LoadWord(data, i)) == data[i..i + 4]
  {
  }

  /** Reading at `i` inside the suffix that starts at `o` is reading at `o + i`
      (the source passes `f_data + offset` around as a new buffer). */
  lemma LoadWordSuffix(data: seq<bv8>, o: nat, i: nat)
    requires o + i + 4 <= |data|
    ensures LoadWord(data[o..], i) == LoadWord(data, o + i)
  {
  }
}
