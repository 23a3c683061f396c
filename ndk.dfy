/** `ndk.cpp`: `NativeLib.grayscale`, the in-place grayscale kernel of the `ndk` module. */
module Ndk {
  import opened Wrappers
  import opened Bitmaps

  /**
   * `Java_br_com_b256_core_ndk_NativeLib_grayscale`. `info` is what `AndroidBitmap_getInfo`
   * reported (`None` when it failed), `locked` whether `AndroidBitmap_lockPixels` succeeded,
   * and `pixels` the locked buffer as 32-bit words.
   */
  method Grayscale(pixels: array<bv32>, info: Option<BitmapInfo>, locked: bool)
    requires Proceeds(info, locked) ==> Fits(info.value, pixels.Length)
    modifies pixels
    ensures pixels[..] == GrayscaleBitmap(old(pixels[..]), info, locked)
  {
    if info.None? {
      return;
    }
    var bitmap := info.value;
    if bitmap.format != FormatRgba8888 {
      return;
    }
    if !locked {
      return;
    }
    ghost var original := pixels[..];
    var rowWords := bitmap.stride / 4;
    assert bitmap.width <= rowWords && bitmap.height * rowWords <= pixels.Length;
    var line := 0;
    var y := 0;
    ProgressStart(original, bitmap.width, rowWords);
    while y < bitmap.height
      invariant 0 <= y <= bitmap.height
      invariant line == y * rowWords
      invariant pixels[..] == Progress(original, bitmap.width, y, rowWords, 0)
    {
      RowInside(y, bitmap.height, rowWords, pixels.Length);
      var x := 0;
      while x < bitmap.width
        invariant 0 <= x <= bitmap.width
        invariant line + rowWords <= pixels.Length
        invariant pixels[..] == Progress(original, bitmap.width, y, rowWords, x)
      {
        ProgressStep(original, bitmap.width, y, rowWords, x);
        var pixel := pixels[line + x];
        pixels[line + x] := Gray(pixel);
        x := x + 1;
      }
      ProgressRow(original, bitmap.width, y, rowWords);
      line := line + rowWords;
      y := y + 1;
    }
    ProgressDone(original, bitmap.width, bitmap.height, rowWords);
  }
}
