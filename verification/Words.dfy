/** The masks, shifts and ors of the UTF-8 codec on machine words, against the arithmetic the model computes with. */
module Words {

  /** The masks of the C code, read on machine words, are the ranges, offsets and quotients used here. */
  lemma MasksAreArithmetic(b: bv8, c: bv32)
    ensures (0x80 & b == 0) <==> b < 128
    ensures ((b & 0xC0) ^ 0x80 == 0) <==> 128 <= b < 192
    ensures 128 <= b < 192 ==> 0x3f & b == b - 128
    ensures (0xe0 & b == 0xc0) <==> 192 <= b < 224
    ensures 192 <= b < 224 ==> 0x1f & b == b - 192
    ensures (0xf0 & b == 0xe0) <==> 224 <= b < 240
    ensures 224 <= b < 240 ==> 0x0f & b == b - 224
    ensures (0xf8 & b == 0xf0) <==> 240 <= b < 248
    ensures 240 <= b < 248 ==> 0x07 & b == b - 240
    ensures (c & 0x3f) | 0x80 == 128 + c % 64 && ((c >> 6) & 0x3f) | 0x80 == 128 + c / 64 % 64
    ensures ((c >> 12) & 0x3f) | 0x80 == 128 + c / 64 / 64 % 64
    ensures c <= 0x7ff ==> ((c >> 6) & 0x1f) | 0xc0 == 192 + c / 64
    ensures c <= 0xffff ==> ((c >> 12) & 0x0f) | 0xe0 == 224 + c / 64 / 64
    ensures c <= 0x10ffff ==> ((c >> 18) & 0x07) | 0xf0 == 240 + c / 64 / 64 / 64
  {
  }

  // The shifts and ors that put a codepoint together add its parts at their places.

  lemma TwoBytesAssemble(b0: bv32, b1: bv32)
    requires 192 <= b0 < 224 && 128 <= b1 < 192
    ensures ((0x1f & b0) << 6) | (0x3f & b1) == (b0 - 192) * 64 + (b1 - 128) < 0x800
  {
  }

  lemma ThreeBytesAssemble(b0: bv32, b1: bv32, b2: bv32)
    requires 224 <= b0 < 240 && 128 <= b1 < 192 && 128 <= b2 < 192
    ensures ((0x0f & b0) << 12) | ((0x3f & b1) << 6) | (0x3f & b2)
            == (b0 - 224) * 4096 + (b1 - 128) * 64 + (b2 - 128) < 0x1_0000
  {
  }

  lemma FourBytesAssemble(b0: bv32, b1: bv32, b2: bv32, b3: bv32)
    requires 240 <= b0 < 248 && 128 <= b1 < 192 && 128 <= b2 < 192 && 128 <= b3 < 192
    ensures ((0x07 & b0) << 18) | ((0x3f & b1) << 12) | ((0x3f & b2) << 6) | (0x3f & b3)
            == (b0 - 240) * 262144 + (b1 - 128) * 4096 + (b2 - 128) * 64 + (b3 - 128) < 0x20_0000
  {
  }
}
