/** Colours with real channels and their conversion to and from 8-bit RGB
    (src/color.rs). A channel of 1.0 is full intensity. */
module Colors {
  import opened Vectors

  newtype u8 = x: int | 0 <= x < 256

  /** image's `Rgb<u8>` */
  datatype Rgb = Rgb(r: u8, g: u8, b: u8)

  /** `Color`: three real channels. */
  datatype Color = Color(rgb: Vec3)

  const BLACK: Rgb := Rgb(0, 0, 0)
  const WHITE: Rgb := Rgb(255, 255, 255)
  const RED: Rgb := Rgb(255, 0, 0)
  const LIME: Rgb := Rgb(0, 255, 0)
  const BLUE: Rgb := Rgb(0, 0, 255)
  const YELLOW: Rgb := Rgb(255, 255, 0)
  const CYAN: Rgb := Rgb(0, 255, 255)
  const MAGENTA: Rgb := Rgb(255, 0, 255)
  const SILVER: Rgb := Rgb(192, 192, 192)
  const GRAY: Rgb := Rgb(128, 128, 128)
  const MAROON: Rgb := Rgb(128, 0, 0)
  const OLIVE: Rgb := Rgb(128, 128, 0)
  const GREEN: Rgb := Rgb(0, 128, 0)
  const PURPLE: Rgb := Rgb(128, 0, 128)
  const TEAL: Rgb := Rgb(0, 128, 128)
  const NAVY: Rgb := Rgb(0, 0, 128)

  /** `Color::new([r, g, b])` */
  function New(r: real, g: real, b: real): Color {
    Color(Vec3(r, g, b))
  }

  /** `From<Vector3<f32>> for Color` */
  function FromVector(v: Vec3): Color {
    Color(v)
  }

  /** `Color::into_inner` */
  function IntoInner(c: Color): Vec3 {
    c.rgb
  }

  /** One channel of `into_rgb`: 256 v, floored, clamped to [0, 255]. Below
      1/256 the byte is 0, from 255/256 up it is 255, and in between it is
      the integer part of 256 v. */
  function ChannelToByte(v: real): (b: u8)
    ensures 256.0 * v < 1.0 ==> b == 0
    ensures 256.0 * v >= 255.0 ==> b == 255
    ensures 0.0 <= 256.0 * v < 256.0 ==> b as real <= 256.0 * v < b as real + 1.0
  {
    var f := (256.0 * v).Floor;
    if f < 0 then 0 else if f > 255 then 255 else f as u8
  }

  /** `Color::into_rgb` */
  function IntoRgb(c: Color): Rgb {
    Rgb(ChannelToByte(c.rgb.x), ChannelToByte(c.rgb.y), ChannelToByte(c.rgb.z))
  }

  /** One channel of `from_rgb`: the byte divided by 255. */
  function ByteToChannel(b: u8): (v: real)
    ensures 0.0 <= v <= 1.0
    ensures v * 255.0 == b as real
  {
    b as real / 255.0
  }

  /** `Color::from_rgb` (and `From<Rgb<u8>> for Color`) */
  function FromRgb(p: Rgb): Color {
    Color(Vec3(ByteToChannel(p.r), ByteToChannel(p.g), ByteToChannel(p.b)))
  }

  /** A brighter channel never gives a smaller byte. */
  lemma ChannelToByteMonotone(v: real, w: real)
    requires v <= w
    ensures ChannelToByte(v) <= ChannelToByte(w)
  {
    assert (256.0 * v).Floor <= (256.0 * w).Floor;
  }

  /** A channel at or below 0 is 0; one at or above 255/256 is 255. */
  lemma ChannelToByteSaturates(v: real)
    ensures v <= 0.0 ==> ChannelToByte(v) == 0
    ensures v >= 255.0 / 256.0 ==> ChannelToByte(v) == 255
  {}

  /** Converting a byte to a channel and back gives the byte: 256 b / 255
      lies in [b, b + 1) for b < 255, and 256 is clamped to 255. */
  lemma ChannelRoundTrip(b: u8)
    ensures ChannelToByte(ByteToChannel(b)) == b
  {
    var v := ByteToChannel(b);
    assert 256.0 * v == b as real + b as real / 255.0;
  }

  /** `into_rgb(from_rgb(p)) == p` for every byte triple. */
  lemma RgbRoundTrip(p: Rgb)
    ensures IntoRgb(FromRgb(p)) == p
  {
    ChannelRoundTrip(p.r);
    ChannelRoundTrip(p.g);
    ChannelRoundTrip(p.b);
  }

  /** `into_inner(Color::from(v)) == v`, and `Color::new` stores its
      channels. */
  lemma FromVectorRoundTrip(v: Vec3)
    ensures IntoInner(FromVector(v)) == v
    ensures FromVector(v) == New(v.x, v.y, v.z)
  {}

  /** 0 maps to 0, 1.0 to 255 and 0.5 to 128 on every channel. */
  lemma IntoRgbExamples()
    ensures IntoRgb(FromVector(Vec3(0.0, 0.0, 0.0))) == Rgb(0, 0, 0)
    ensures IntoRgb(FromVector(Vec3(1.0, 1.0, 1.0))) == Rgb(255, 255, 255)
    ensures IntoRgb(FromVector(Vec3(0.5, 0.5, 0.5))) == Rgb(128, 128, 128)
  {
    assert (256.0 * 0.5).Floor == 128;
  }

  /** Every named colour survives the trip through channels. */
  lemma NamedColorsRoundTrip()
    ensures forall p :: p in {BLACK, WHITE, RED, LIME, BLUE, YELLOW, CYAN, MAGENTA,
                              SILVER, GRAY, MAROON, OLIVE, GREEN, PURPLE, TEAL, NAVY}
                        ==> IntoRgb(FromRgb(p)) == p
  {
    forall p ensures IntoRgb(FromRgb(p)) == p {
      RgbRoundTrip(p);
    }
  }
}
