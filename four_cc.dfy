/** The FOUR_CC macro of common.h: four characters packed big-endian into
    one 32-bit word. Each argument is the 32-bit two's complement pattern
    of the C integer passed in, and the word is the pattern of the result,
    read as unsigned. */
module FourCC {
  /** FOUR_CC(A, B, C, D): each argument's low byte can be read back from
      its lane, the first argument in the top byte. */
  function Pack(a: bv32, b: bv32, c: bv32, d: bv32): (r: bv32)
    ensures (r >> 24) & 0xFF == a & 0xFF
    ensures (r >> 16) & 0xFF == b & 0xFF
    ensures (r >> 8) & 0xFF == c & 0xFF
    ensures r & 0xFF == d & 0xFF
  {
    ((a & 0xFF) << 24) | ((b & 0xFF) << 16) | ((c & 0xFF) << 8) | (d & 0xFF)
  }

  /** As a number the word is big-endian: the first argument's byte weighs
      2^24, the last one's 1. */
  lemma PackIsBigEndian(a: bv32, b: bv32, c: bv32, d: bv32)
    ensures Pack(a, b, c, d) == (a & 0xFF) * 0x100_0000 + (b & 0xFF) * 0x1_0000 + (c & 0xFF) * 0x100 + (d & 0xFF)
  {
  }

  /** Only the low 8 bits of each argument matter. */
  lemma PackLowBytesOnly(a: bv32, b: bv32, c: bv32, d: bv32)
    ensures Pack(a, b, c, d) == Pack(a & 0xFF, b & 0xFF, c & 0xFF, d & 0xFF)
  {
  }

  /** Two packings are equal exactly when their arguments agree in the low
      8 bits: no two byte quadruples collide. */
  lemma PackEqualIff(a: bv32, b: bv32, c: bv32, d: bv32, a': bv32, b': bv32, c': bv32, d': bv32)
    ensures Pack(a, b, c, d) == Pack(a', b', c', d') <==>
      a & 0xFF == a' & 0xFF && b & 0xFF == b' & 0xFF && c & 0xFF == c' & 0xFF && d & 0xFF == d' & 0xFF
  {
    if Pack(a, b, c, d) == Pack(a', b', c', d') {
      PackInjective(a, b, c, d, a', b', c', d');
    } else if a & 0xFF == a' & 0xFF && b & 0xFF == b' & 0xFF && c & 0xFF == c' & 0xFF && d & 0xFF == d' & 0xFF {
      PackLowBytesOnly(a, b, c, d);
      PackLowBytesOnly(a', b', c', d');
    }
  }

  /** Equal packings come from equal low bytes: read each lane back. */
  lemma PackInjective(a: bv32, b: bv32, c: bv32, d: bv32, a': bv32, b': bv32, c': bv32, d': bv32)
    requires Pack(a, b, c, d) == Pack(a', b', c', d')
    ensures a & 0xFF == a' & 0xFF && b & 0xFF == b' & 0xFF && c & 0xFF == c' & 0xFF && d & 0xFF == d' & 0xFF
  {
    var r, r' := Pack(a, b, c, d), Pack(a', b', c', d');
    assert (r >> 24) & 0xFF == (r' >> 24) & 0xFF;
    assert (r >> 16) & 0xFF == (r' >> 16) & 0xFF;
    assert (r >> 8) & 0xFF == (r' >> 8) & 0xFF;
  }

  /** FOUR_CC('R', 'I', 'F', 'F') is the word 0x52494646. */
  lemma PackExample()
    ensures Pack(0x52, 0x49, 0x46, 0x46) == 0x52494646
  {
  }
}
