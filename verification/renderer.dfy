/**
 * The pure part of renderer/renderer.go: the packed 0xRRGGBBAA colour
 * constants and `fromHex`, which unpacks such a word into an RGBA colour.
 * Everything that talks to SDL is outside this model.
 */
module Renderer {

  /** A packed colour: red in the top byte, alpha in the bottom byte (Go uint32). */
  type Hex = bv32

  const WHITE: Hex := 0xFFFF_FFFF
  const RED: Hex := 0xFF00_00FF
  const DEBUG: Hex := 0xFF00_FFFF
  const GREEN: Hex := 0x00FF_00FF

  /** SDL's colour record: four 8-bit channels. */
  datatype Color = Color(r: bv8, g: bv8, b: bv8, a: bv8)

  /** Packs the channels back into a word as R<<24 | G<<16 | B<<8 | A. */
  function Pack(c: Color): Hex
  {
    (c.r as Hex << 24) | (c.g as Hex << 16) | (c.b as Hex << 8) | c.a as Hex
  }

  /**
   * fromHex: byte 3 of the word is red, byte 2 green, byte 1 blue and
   * byte 0 alpha, so packing the result gives back the word.
   */
  function FromHex(hex: Hex): (c: Color)
    ensures Pack(c) == hex
  {
    Color(
      ((hex >> 24) & 0xFF) as bv8,
      ((hex >> 16) & 0xFF) as bv8,
      ((hex >> 8) & 0xFF) as bv8,
      (hex & 0xFF) as bv8)
  }

  /** Unpacking a packed colour gives the colour back. */
  lemma FromHexOfPack(c: Color)
    ensures FromHex(Pack(c)) == c
  {
  }

  /** Distinct words unpack to distinct colours. */
  lemma FromHexInjective(h1: Hex, h2: Hex)
    ensures FromHex(h1) == FromHex(h2) ==> h1 == h2
  {
    if FromHex(h1) == FromHex(h2) {
      calc {
        h1;
        Pack(FromHex(h1));
        Pack(FromHex(h2));
        h2;
      }
    }
  }

  /** The channels of the four named colours. */
  lemma NamedColors()
    ensures FromHex(WHITE) == Color(255, 255, 255, 255)
    ensures FromHex(RED) == Color(255, 0, 0, 255)
    ensures FromHex(GREEN) == Color(0, 255, 0, 255)
    ensures FromHex(DEBUG) == Color(255, 0, 255, 255)
  {
  }
}
