/** Board-wide constants and machine integer types of the branch controller. */
module Board {

  /** Number of parallel LED strips driven by the controller. */
  const NUM_STRIPS: nat := 8
  /** Number of pixels on every strip. */
  const LEDS_PER_STRIP: nat := 550
  /** Size of the whole pixel frame buffer, in pixels. */
  const NUM_PIXELS: nat := NUM_STRIPS * LEDS_PER_STRIP

  /** Packed 0xRRGGBB colours. */
  const RED: int := 0xFF0000
  const GREEN: int := 0x00FF00
  const BLUE: int := 0x0000FF
  const WHITE: int := 0xFFFFFF
  const BLACK: int := 0x000000

  /** Default brightness written into the persisted settings. */
  const BRIGHTNESS: int := 32

  const TWO_TO_THE_32: int := 0x1_0000_0000

  /** An unsigned 8-bit value (`uint8_t`, `byte`, an EEPROM cell, a network octet). */
  type byte = x: int | 0 <= x < 256

  /** An unsigned 16-bit value (`uint16_t`). */
  type u16 = x: int | 0 <= x < 0x1_0000

  /** An unsigned 32-bit value (`uint32_t`, `unsigned int`). */
  type u32 = x: int | 0 <= x < 0x1_0000_0000

  /** An optional value. */
  datatype Option<T> = None | Some(value: T)

  function Min(a: int, b: int): (m: int)
    ensures m <= a && m <= b && (m == a || m == b)
  {
    if a < b then a else b
  }
}
