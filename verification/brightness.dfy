/**
 * Brightness helpers of ImageProcessingUtils.cs: the integer brightness of
 * a colour and the loop that steps a colour until it has a target
 * brightness.
 */
module Brightness {
  import opened ColourConversion

  /** The `Windows.UI.Color` value type: alpha, red, green and blue bytes. */
  datatype Color = Color(a: byte, r: byte, g: byte, b: byte)

  /** BrightnessFromColor: the integer average of the three colour channels. */
  function BrightnessFromColor(color: Color): (level: nat)
    ensures level <= 255
    ensures 3 * level <= color.r + color.g + color.b < 3 * level + 3
  {
    (color.r + color.g + color.b) / 3
  }

  /** One step of `channel += (byte)change` when the channel is not already at its end. */
  function Step(channel: byte, change: int): (r: byte)
    requires change == 1 || change == -1
    ensures change == 1 ==> r == if channel < 255 then channel + 1 else channel
    ensures change == -1 ==> r == if channel > 0 then channel - 1 else channel
  {
    if (change == 1 && channel < 255) || (change == -1 && channel > 0)
    then ToByte(channel + ToByte(change))
    else channel
  }

  /**
   * ApplyBrightnessToColor, for an integer target brightness. A target in
   * 0..255 is always reached (the loop cannot step over it, since one round
   * changes the channel sum by at most three); every colour channel moves
   * only towards the target, and alpha is never touched. An out-of-range
   * target, or one already met, leaves the colour as it is.
   */
  method ApplyBrightnessToColor(color: Color, brightness: int) returns (result: Color)
    ensures result.a == color.a
    ensures 0 <= brightness <= 255 ==> BrightnessFromColor(result) == brightness
    ensures brightness < 0 || 255 < brightness || brightness == BrightnessFromColor(color) ==> result == color
    ensures BrightnessFromColor(color) <= brightness ==>
              color.r <= result.r && color.g <= result.g && color.b <= result.b
    ensures brightness <= BrightnessFromColor(color) ==>
              result.r <= color.r && result.g <= color.g && result.b <= color.b
  {
    result := color;
    if 0 <= brightness <= 255 && brightness != BrightnessFromColor(result) {
      var change := if BrightnessFromColor(result) > brightness then -1 else 1;
      while BrightnessFromColor(result) != brightness
        invariant result.a == color.a
        invariant change == 1 ==> BrightnessFromColor(result) <= brightness
        invariant change == 1 ==> color.r <= result.r && color.g <= result.g && color.b <= result.b
        invariant change == -1 ==> brightness <= BrightnessFromColor(result)
        invariant change == -1 ==> result.r <= color.r && result.g <= color.g && result.b <= color.b
        invariant change == 1 <==> BrightnessFromColor(color) < brightness
        decreases if change == 1 then 765 - (result.r + result.g + result.b) else result.r + result.g + result.b
      {
        result := result.(r := Step(result.r, change));
        result := result.(g := Step(result.g, change));
        result := result.(b := Step(result.b, change));
      }
    }
  }
}
