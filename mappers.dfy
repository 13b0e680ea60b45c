/** The per-pixel grayscale mappers (Go's `ConvertFunc` values).

    Each mapper is a total function from one colour sample to a `Mapped`
    value. The average and single-channel mappers read 16-bit channels,
    drop the low byte and narrow to `uint8`; the standard mapper passes the
    sample through unchanged and leaves the grayscale conversion to the
    buffer it is written into. */
module Mappers {
  import opened Colors

  /** `stdGrayConvert`: the sample itself, still a colour. */
  function StdGray(c: Color): (m: Mapped)
    ensures m.Sample? && m.c == c
  {
    Sample(c)
  }

  /** `avgGrayConvert`: the unweighted average of red, green and blue,
      computed in `uint32`, shifted down by eight bits and narrowed to
      `uint8`. Neither the `uint32` sum nor the narrowing ever loses
      information, so the result is the exact truncated average of the
      three channels scaled from 0..3*65535 down to 0..255. */
  function AvgGray(c: Color): (m: Mapped)
    ensures m.Gray?
    ensures m.y == ((c.r + c.g + c.b) / 3) / 0x100
    ensures m.y * 0x300 <= c.r + c.g + c.b < (m.y + 1) * 0x300
  {
    var sum := AddU32(AddU32(c.r, c.g), c.b);
    Gray(Uint8(Shr8(sum / 3)))
  }

  /** `redGrayConvert`: the red channel's high byte. */
  function RedGray(c: Color): (m: Mapped)
    ensures m.Gray?
    ensures m.y * 0x100 <= c.r < (m.y + 1) * 0x100
  {
    Gray(Uint8(Shr8(c.r)))
  }

  /** `greenGrayConvert`: the green channel's high byte. */
  function GreenGray(c: Color): (m: Mapped)
    ensures m.Gray?
    ensures m.y * 0x100 <= c.g < (m.y + 1) * 0x100
  {
    Gray(Uint8(Shr8(c.g)))
  }

  /** `blueGrayConvert`: the blue channel's high byte. */
  function BlueGray(c: Color): (m: Mapped)
    ensures m.Gray?
    ensures m.y * 0x100 <= c.b < (m.y + 1) * 0x100
  {
    Gray(Uint8(Shr8(c.b)))
  }

  /** `RGBA()` widens an 8-bit channel v to 16 bits as v * 0x101. */
  function Widen(v: Byte): Channel
  {
    v * 0x101
  }

  function Min3(u: int, v: int, w: int): int
  {
    if u <= v && u <= w then u else if v <= w then v else w
  }

  function Max3(u: int, v: int, w: int): int
  {
    if u >= v && u >= w then u else if v >= w then v else w
  }

  /** Changing only alpha changes none of the four gray-valued mappers. */
  lemma AlphaIgnored(c: Color, alpha: Channel)
    ensures AvgGray(c.(a := alpha)) == AvgGray(c)
    ensures RedGray(c.(a := alpha)) == RedGray(c)
    ensures GreenGray(c.(a := alpha)) == GreenGray(c)
    ensures BlueGray(c.(a := alpha)) == BlueGray(c)
  {
  }

  /** Each single-channel mapper depends on its own channel only. */
  lemma SingleChannelIsolation(c: Color, d: Color)
    ensures c.r == d.r ==> RedGray(c) == RedGray(d)
    ensures c.g == d.g ==> GreenGray(c) == GreenGray(d)
    ensures c.b == d.b ==> BlueGray(c) == BlueGray(d)
  {
  }

  /** On an achromatic sample (r = g = b) the average and the three
      single-channel mappers agree. */
  lemma AchromaticAgreement(c: Color)
    requires c.r == c.g == c.b
    ensures AvgGray(c) == RedGray(c) == GreenGray(c) == BlueGray(c)
  {
    assert (c.r + c.g + c.b) / 3 == c.r;
  }

  /** The average lies between the high bytes of the darkest and the
      brightest of the three channels. */
  lemma {:induction false} AvgWithinChannels(c: Color)
    ensures Min3(c.r, c.g, c.b) / 0x100 <= AvgGray(c).y <= Max3(c.r, c.g, c.b) / 0x100
  {
    var lo, hi := Min3(c.r, c.g, c.b), Max3(c.r, c.g, c.b);
    assert 3 * lo <= c.r + c.g + c.b <= 3 * hi;
    assert lo <= (c.r + c.g + c.b) / 3 <= hi;
    DivMonotone(lo, (c.r + c.g + c.b) / 3, 0x100);
    DivMonotone((c.r + c.g + c.b) / 3, hi, 0x100);
  }

  /** Brightening any channel never darkens the average. */
  lemma {:induction false} AvgMonotone(c: Color, d: Color)
    requires c.r <= d.r && c.g <= d.g && c.b <= d.b
    ensures AvgGray(c).y <= AvgGray(d).y
  {
    DivMonotone(c.r + c.g + c.b, d.r + d.g + d.b, 3);
    DivMonotone((c.r + c.g + c.b) / 3, (d.r + d.g + d.b) / 3, 0x100);
  }

  lemma DivMonotone(u: nat, v: nat, k: nat)
    requires u <= v && 0 < k
    ensures u / k <= v / k
  {
    var p, q := u / k, v / k;
    assert p * k <= u && v < q * k + k;
    if q < p {
      assert (q + 1) * k <= p * k by { MulMonotone(q + 1, p, k); }
    }
  }

  lemma MulMonotone(u: nat, v: nat, k: nat)
    requires u <= v
    ensures u * k <= v * k
  {
    assert v * k == u * k + (v - u) * k;
  }

  /** A single-channel mapper undoes `RGBA()`'s widening: an 8-bit channel
      comes back out unchanged. */
  lemma {:induction false} WidenedChannelRoundTrip(v: Byte, c: Color)
    requires c.r == Widen(v) && c.g == Widen(v) && c.b == Widen(v)
    ensures RedGray(c) == Gray(v) && GreenGray(c) == Gray(v) && BlueGray(c) == Gray(v)
    ensures AvgGray(c) == Gray(v)
  {
    assert Widen(v) == v * 0x100 + v;
    AchromaticAgreement(c);
  }

  /** The average formula on the extreme samples: full red alone, white,
      and black. */
  lemma AvgExamples(alpha: Channel)
    ensures AvgGray(Color(0xFFFF, 0, 0, alpha)) == Gray(85)
    ensures AvgGray(Color(0xFFFF, 0xFFFF, 0xFFFF, alpha)) == Gray(255)
    ensures AvgGray(Color(0, 0, 0, alpha)) == Gray(0)
  {
  }

  /** Red, green, blue and white opaque 8-bit pixels, widened by `RGBA()`:
      the red mapper gives 255, 0, 0, 255 and the average mapper
      85, 85, 85, 255. */
  lemma PrimaryColoursExample()
    ensures var px := [Color(Widen(255), 0, 0, Widen(255)), Color(0, Widen(255), 0, Widen(255)),
                       Color(0, 0, Widen(255), Widen(255)), Color(Widen(255), Widen(255), Widen(255), Widen(255))];
      && (RedGray(px[0]), RedGray(px[1]), RedGray(px[2]), RedGray(px[3]))
         == (Gray(255), Gray(0), Gray(0), Gray(255))
      && (AvgGray(px[0]), AvgGray(px[1]), AvgGray(px[2]), AvgGray(px[3]))
         == (Gray(85), Gray(85), Gray(85), Gray(255))
  {
  }
}
