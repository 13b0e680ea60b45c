/** Colour samples and the fixed-width integer operations the grayscale
    mappers use.

    A colour sample is what Go's `color.Color.RGBA()` hands back: four
    channels, each a 16-bit value held in a `uint32`. `RGBA()` returns
    alpha-premultiplied values (no colour channel above alpha); the model
    admits any combination of four 16-bit channels, and every property
    proved here holds for all of them.
    The mappers combine them with `uint32` arithmetic and narrow the result
    with a `uint8(...)` conversion; both are written out here so that the
    absence of wrap-around and truncation is something proved, not assumed. */
module Colors {

  /** One 16-bit colour channel, 0..65535. */
  type Channel = x: int | 0 <= x < 0x1_0000

  /** One 8-bit intensity, 0..255 (Go's `uint8`). */
  type Byte = x: int | 0 <= x < 0x100

  /** A colour sample as returned by `RGBA()`: red, green, blue, alpha. */
  datatype Color = Color(r: Channel, g: Channel, b: Channel, a: Channel)

  /** What a mapper returns, a Go `color.Color`: either a `color.Gray`
      holding one 8-bit intensity, or an arbitrary colour sample. */
  datatype Mapped = Gray(y: Byte) | Sample(c: Color)

  const Uint32Modulus: int := 0x1_0000_0000

  /** Go's `+` on `uint32`: the sum modulo 2^32. */
  function AddU32(u: nat, v: nat): (s: nat)
    ensures s < Uint32Modulus
    ensures u + v < Uint32Modulus ==> s == u + v
  {
    (u + v) % Uint32Modulus
  }

  /** Go's `v >> 8` on an unsigned value: drop the low byte. */
  function Shr8(v: nat): (s: nat)
    ensures s * 0x100 <= v < (s + 1) * 0x100
  {
    v / 0x100
  }

  /** Go's `uint8(v)` conversion: keep the low eight bits. */
  function Uint8(v: nat): (b: Byte)
    ensures v < 0x100 ==> b == v
    ensures (v - b) % 0x100 == 0
  {
    v % 0x100
  }
}
