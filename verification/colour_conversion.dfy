/**
 * Integer colour conversions of ImageProcessingUtils.cs: the 8-bit
 * ITU-R BT.601 studio-range conversions RGB -> YUV and YUV -> RGB, written
 * with the fixed-point shift formulas, and the two Clip helpers.
 */
module ColourConversion {

  /** C#'s `byte`: an unsigned 8-bit value. */
  type byte = x: int | 0 <= x < 256

  /** C#'s unchecked `(byte)` cast of an int: keeps the low eight bits. */
  function ToByte(x: int): (b: byte)
    ensures (x - b) % 256 == 0
    ensures 0 <= x < 256 ==> b == x
  {
    x % 256
  }

  /** `Clip(int value, int min = 0, int max = 255)`. */
  function Clip(value: int, min: int := 0, max: int := 255): (r: int)
    ensures min <= max ==> min <= r <= max
    ensures min <= value <= max ==> r == value
    ensures value < min ==> r == min
    ensures min <= value && max < value ==> r == max
  {
    if value < min then min
    else if value > max then max
    else value
  }

  /** `Clip(byte value, byte min = 0, byte max = 255)`, the byte overload. */
  function ClipByte(value: byte, min: byte := 0, max: byte := 255): (r: byte)
    ensures min <= max ==> min <= r <= max
    ensures min <= value <= max ==> r == value
    ensures value < min ==> r == min
    ensures min <= value && max < value ==> r == max
  {
    if value < min then min
    else if value > max then max
    else value
  }

  /** The three bytes of a YUV pixel, in the order of the returned array. */
  datatype Yuv = Yuv(y: byte, u: byte, v: byte)

  /** The three bytes of an RGB pixel, in the order of the returned array. */
  datatype Rgb = Rgb(r: byte, g: byte, b: byte)

  // The shift formulas of BT.601, before the byte cast. C#'s `>>` on an int
  // is an arithmetic shift: floor division by 256, as Dafny's `/` is here.

  function LumaFormula(r: byte, g: byte, b: byte): int
  {
    (66 * r + 129 * g + 25 * b + 128) / 256 + 16
  }

  function BlueDifferenceFormula(r: byte, g: byte, b: byte): int
  {
    (-38 * r - 74 * g + 112 * b + 128) / 256 + 128
  }

  function RedDifferenceFormula(r: byte, g: byte, b: byte): int
  {
    (112 * r - 94 * g - 18 * b + 128) / 256 + 128
  }

  /**
   * RGBToYUV. Every channel stays inside the studio range of BT.601
   * (Y in 16..235, U and V in 16..240), so none of the byte casts wraps:
   * each byte is its shift formula's value.
   */
  function RGBToYUV(r: byte, g: byte, b: byte): (yuv: Yuv)
    ensures 16 <= yuv.y <= 235 && 16 <= yuv.u <= 240 && 16 <= yuv.v <= 240
    ensures yuv.y == LumaFormula(r, g, b)
    ensures yuv.u == BlueDifferenceFormula(r, g, b)
    ensures yuv.v == RedDifferenceFormula(r, g, b)
  {
    Yuv(ToByte(LumaFormula(r, g, b)),
        ToByte(BlueDifferenceFormula(r, g, b)),
        ToByte(RedDifferenceFormula(r, g, b)))
  }

  /** A grey input carries no colour difference: U and V are both 128. */
  lemma GreyHasNeutralChroma(k: byte)
    ensures RGBToYUV(k, k, k).u == 128 && RGBToYUV(k, k, k).v == 128
  {
    assert -38 * k - 74 * k + 112 * k + 128 == 128;
    assert 112 * k - 94 * k - 18 * k + 128 == 128;
  }

  /** `channel` is what `(byte)Clip(x)` stores for the formula value `x`. */
  predicate Saturated(channel: byte, x: int)
  {
    && (x < 0 ==> channel == 0)
    && (0 <= x <= 255 ==> channel == x)
    && (255 < x ==> channel == 255)
  }

  /**
   * YUVToRGB. Each channel is its shift formula clipped to 0..255, so the
   * byte cast never wraps.
   */
  function YUVToRGB(y: byte, u: byte, v: byte): (rgb: Rgb)
    ensures Saturated(rgb.r, (298 * (y - 16) + 409 * (v - 128) + 128) / 256)
    ensures Saturated(rgb.g, (298 * (y - 16) - 100 * (u - 128) - 208 * (v - 128) + 128) / 256)
    ensures Saturated(rgb.b, (298 * (y - 16) + 516 * (u - 128) + 128) / 256)
  {
    var c := y - 16;
    var d := u - 128;
    var e := v - 128;
    Rgb(ToByte(Clip((298 * c + 409 * e + 128) / 256)),
        ToByte(Clip((298 * c - 100 * d - 208 * e + 128) / 256)),
        ToByte(Clip((298 * c + 516 * d + 128) / 256)))
  }

  /**
   * The two conversions are near inverses on the grey axis: converting a
   * grey to YUV and back gives a grey at most one step away.
   */
  lemma GreyRoundTrip(k: byte)
    ensures var yuv := RGBToYUV(k, k, k);
            var rgb := YUVToRGB(yuv.y, yuv.u, yuv.v);
            rgb.r == rgb.g == rgb.b && k - 1 <= rgb.r <= k + 1
  {
    GreyHasNeutralChroma(k);
    var yuv := RGBToYUV(k, k, k);
    var q := (220 * k + 128) / 256;
    assert yuv.y == q + 16;
    var x := (298 * q + 128) / 256;
    assert 256 * q <= 220 * k + 128 < 256 * q + 256;
    assert 256 * x <= 298 * q + 128 < 256 * x + 256;
    assert k - 1 <= x <= k + 1;
  }
}
