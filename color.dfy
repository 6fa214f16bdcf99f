/** RGB888 to RGB565 packing of `RGB_TO_RGB565` and the named colours built from it. */
module Color {

  /** The macro's expression before its cast: the operands are promoted to a
      32-bit `int`, masked to the bits RGB565 keeps and shifted into place. The
      value always fits in 16 bits. */
  function PromotedRgb(r: bv8, g: bv8, b: bv8): (w: bv32)
    ensures w < 0x1_0000
  {
    ((r & 0xF8) as bv32 << 8) | ((g & 0xFC) as bv32 << 3) | ((b & 0xF8) as bv32 >> 3)
  }

  /** `RGB_TO_RGB565(r, g, b)`: the promoted value cast to `uint16_t` (its low
      16 bits). The result holds `r >> 3` in bits 15-11, `g >> 2` in bits 10-5
      and `b >> 3` in bits 4-0. */
  function Rgb565(r: bv8, g: bv8, b: bv8): (c: bv16)
    ensures c == ((r >> 3) as bv16 << 11) | ((g >> 2) as bv16 << 5) | (b >> 3) as bv16
  {
    (PromotedRgb(r, g, b) & 0xFFFF) as bv16
  }

  /** The three fields of a packed colour: red in bits 15-11, green in 10-5, blue in 4-0. */
  function Red5(c: bv16): bv8 { (c >> 11) as bv8 }
  function Green6(c: bv16): bv8 { ((c >> 5) & 0x3F) as bv8 }
  function Blue5(c: bv16): bv8 { (c & 0x1F) as bv8 }

  /** Packing keeps exactly the top five, six and five bits of the channels. */
  lemma UnpackRgb565(r: bv8, g: bv8, b: bv8)
    ensures Red5(Rgb565(r, g, b)) == r >> 3
    ensures Green6(Rgb565(r, g, b)) == g >> 2
    ensures Blue5(Rgb565(r, g, b)) == b >> 3
  {
  }

  /** Every 16-bit colour is the packing of its own fields, shifted back to the top of each channel. */
  lemma PackUnpacked(c: bv16)
    ensures Rgb565(Red5(c) << 3, Green6(c) << 2, Blue5(c) << 3) == c
  {
  }

  const White: bv16 := 0xFFFF
  const Black: bv16 := 0x0000
  const Red: bv16 := Rgb565(255, 0, 0)
  const Green: bv16 := Rgb565(0, 255, 0)
  const Blue: bv16 := Rgb565(0, 0, 255)

  /** The named colours have their textbook RGB565 values, and full white packs to `White`. */
  lemma NamedColours()
    ensures Red == 0xF800 && Green == 0x07E0 && Blue == 0x001F
    ensures Rgb565(255, 255, 255) == White && Rgb565(0, 0, 0) == Black
  {
  }
}
