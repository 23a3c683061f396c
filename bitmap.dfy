/**
 * The pixel arithmetic and the row layout shared by the two native grayscale kernels
 * (`ndk.cpp` and `engine.cpp`). A locked RGBA_8888 bitmap is a buffer of 32-bit words; the
 * kernels read the colour channels at bits 16-23, 8-15 and 0-7 of each word.
 */
module Bitmaps {
  import opened Wrappers

  /** `ANDROID_BITMAP_FORMAT_RGBA_8888` */
  const FormatRgba8888: int := 1

  /** What `AndroidBitmap_getInfo` reports: sizes in pixels, `stride` in bytes. */
  datatype BitmapInfo = BitmapInfo(width: nat, height: nat, stride: nat, format: int)

  /** `uint8_t r = (pixel >> 16) & 0xFF` */
  function Red(p: bv32): bv8 { ((p >> 16) & 0xFF) as bv8 }
  /** `uint8_t g = (pixel >> 8) & 0xFF` */
  function Green(p: bv32): bv8 { ((p >> 8) & 0xFF) as bv8 }
  /** `uint8_t b = pixel & 0xFF` */
  function Blue(p: bv32): bv8 { (p & 0xFF) as bv8 }
  function Alpha(p: bv32): bv8 { ((p >> 24) & 0xFF) as bv8 }

  /**
   * `(r + g + b) / 3`: the three bytes are promoted to `int`, so the sum cannot wrap and the
   * division is the floor of the mean; it fits the `uint8_t gray` it is stored in.
   */
  function Average(p: bv32): (avg: int)
    ensures 0 <= avg <= 0xFF
  {
    (Red(p) as int + Green(p) as int + Blue(p) as int) / 3
  }

  /** `uint8_t gray = (r + g + b) / 3` */
  function GrayByte(p: bv32): bv8 {
    Average(p) as bv8
  }

  /** `(0xFF << 24) | (gray << 16) | (gray << 8) | gray` */
  function Pack(gray: bv8): bv32 {
    var g := gray as bv32;
    0xFF00_0000 | (g << 16) | (g << 8) | g
  }

  lemma PackChannels(g: bv8)
    ensures Alpha(Pack(g)) == 0xFF && Red(Pack(g)) == g && Green(Pack(g)) == g && Blue(Pack(g)) == g
  {
  }

  /**
   * The statements of the inner loop body: the new value of one pixel, from that pixel's value
   * alone. It is opaque and its three colour channels all hold the average of the old ones.
   */
  function Gray(p: bv32): (g: bv32)
    ensures Alpha(g) == 0xFF
    ensures Red(g) == Average(p) as bv8 && Green(g) == Average(p) as bv8 && Blue(g) == Average(p) as bv8
  {
    PackChannels(GrayByte(p));
    Pack(GrayByte(p))
  }

  function Min3(a: int, b: int, c: int): int {
    if a <= b && a <= c then a else if b <= c then b else c
  }

  function Max3(a: int, b: int, c: int): int {
    if a >= b && a >= c then a else if b >= c then b else c
  }

  /** The average lies between the smallest and the largest channel. */
  lemma AverageBetweenChannels(p: bv32)
    ensures Min3(Red(p) as int, Green(p) as int, Blue(p) as int) <= Average(p)
    ensures Average(p) <= Max3(Red(p) as int, Green(p) as int, Blue(p) as int)
  {
    MeanBetween(Red(p) as int, Green(p) as int, Blue(p) as int);
  }

  lemma MeanBetween(a: int, b: int, c: int)
    ensures Min3(a, b, c) <= (a + b + c) / 3 <= Max3(a, b, c)
  {
  }

  lemma ByteBackAndForth(x: bv8)
    ensures (x as int) as bv8 == x
  {
  }

  /** A gray pixel maps to itself. */
  lemma GrayIdempotent(p: bv32)
    ensures Gray(Gray(p)) == Gray(p)
  {
    var g := GrayByte(p);
    PackChannels(g);
    assert Average(Gray(p)) == g as int;
    ByteBackAndForth(g);
  }

  /*
   * Row layout. `line` advances by `stride` bytes per row, which is `stride / 4` words; from
   * row start `start` the kernel touches the words `start .. start + width - 1`.
   */

  /** The words of one row the inner loop rewrites, left to right. */
  function Row(start: int, width: nat): (r: seq<int>)
    ensures |r| == width
    ensures forall x :: 0 <= x < width ==> r[x] == start + x
  {
    seq(width, x => start + x)
  }

  /** Every word index the two loops rewrite, in the order they rewrite them. */
  function Visited(start: int, width: nat, height: nat, rowWords: nat): (v: seq<int>)
    ensures |v| == height * width
    decreases height
  {
    if height == 0 then [] else Row(start, width) + Visited(start + rowWords, width, height - 1, rowWords)
  }

  /** Word `k` is column `k - start - y * rowWords` of row `y`, within the first `width` words. */
  predicate InRow(k: int, start: int, y: nat, width: nat, rowWords: nat) {
    start + y * rowWords <= k < start + y * rowWords + width
  }

  lemma RowIff(k: int, start: int, width: nat)
    ensures k in Row(start, width) <==> start <= k < start + width
  {
    if start <= k < start + width {
      assert Row(start, width)[k - start] == k;
    }
  }

  /** Row `y + 1` counted from `start` is row `y` counted from the next row's start. */
  lemma InRowShift(k: int, start: int, y: nat, width: nat, rowWords: nat)
    ensures InRow(k, start, y + 1, width, rowWords) == InRow(k, start + rowWords, y, width, rowWords)
  {
    assert (y + 1) * rowWords == y * rowWords + rowWords;
  }

  /** The words visited are exactly the first `width` words of each of the `height` rows. */
  lemma {:induction false} VisitedIff(k: int, start: int, width: nat, height: nat, rowWords: nat)
    ensures k in Visited(start, width, height, rowWords) <==> exists y: nat :: y < height && InRow(k, start, y, width, rowWords)
    decreases height
  {
    if height > 0 {
      var rest := Visited(start + rowWords, width, height - 1, rowWords);
      VisitedIff(k, start + rowWords, width, height - 1, rowWords);
      RowIff(k, start, width);
      assert Visited(start, width, height, rowWords) == Row(start, width) + rest;
      assert InRow(k, start, 0, width, rowWords) <==> start <= k < start + width;
      if k in rest {
        var y: nat :| y < height - 1 && InRow(k, start + rowWords, y, width, rowWords);
        InRowShift(k, start, y, width, rowWords);
      }
      if y: nat :| y < height && y > 0 && InRow(k, start, y, width, rowWords) {
        InRowShift(k, start, y - 1, width, rowWords);
      }
    }
  }

  /** Visiting one more row adds exactly that row's first `width` words. */
  lemma VisitedOneMoreRow(k: int, start: int, width: nat, height: nat, rowWords: nat)
    ensures k in Visited(start, width, height + 1, rowWords)
      <==> k in Visited(start, width, height, rowWords) || InRow(k, start, height, width, rowWords)
  {
    VisitedIff(k, start, width, height, rowWords);
    VisitedIff(k, start, width, height + 1, rowWords);
  }

  /** With rows at least `width` words apart, the rows visited lie in `[start, start + height * rowWords)`. */
  lemma {:induction false} VisitedBounds(k: int, start: int, width: nat, height: nat, rowWords: nat)
    requires width <= rowWords
    ensures k in Visited(start, width, height, rowWords) ==> start <= k < start + height * rowWords
    decreases height
  {
    if height > 0 {
      VisitedBounds(k, start + rowWords, width, height - 1, rowWords);
      assert (height - 1) * rowWords + rowWords == height * rowWords;
    }
  }

  /** With rows at least `width` words apart, the visit order is strictly increasing: no word is rewritten twice. */
  lemma {:induction false} VisitedIncreasing(start: int, width: nat, height: nat, rowWords: nat)
    requires width <= rowWords
    ensures forall i, j :: 0 <= i < j < |Visited(start, width, height, rowWords)| ==>
      Visited(start, width, height, rowWords)[i] < Visited(start, width, height, rowWords)[j]
    decreases height
  {
    if height > 0 {
      var rest := Visited(start + rowWords, width, height - 1, rowWords);
      VisitedIncreasing(start + rowWords, width, height - 1, rowWords);
      forall e | e in rest ensures start + rowWords <= e {
        VisitedBounds(e, start + rowWords, width, height - 1, rowWords);
      }
      var v := Visited(start, width, height, rowWords);
      assert v == Row(start, width) + rest;
      forall i, j | 0 <= i < j < |v| ensures v[i] < v[j] {
        if j >= width {
          assert v[j] == rest[j - width] && v[j] in rest;
          if i >= width {
            assert v[i] == rest[i - width];
          }
        }
      }
    }
  }

  /** Pixel `(x, y)` sits at word `y * rowWords + x` and is visited. */
  lemma PixelVisited(x: nat, y: nat, width: nat, height: nat, rowWords: nat)
    requires x < width && y < height
    ensures y * rowWords + x in Visited(0, width, height, rowWords)
  {
    VisitedIff(y * rowWords + x, 0, width, height, rowWords);
    assert InRow(y * rowWords + x, 0, y, width, rowWords);
  }

  /** The padding words of each row, from `width` up to the next row, are never visited. */
  lemma PaddingNotVisited(x: nat, y: nat, width: nat, height: nat, rowWords: nat)
    requires width <= x < rowWords
    ensures y * rowWords + x !in Visited(0, width, height, rowWords)
  {
    var k := y * rowWords + x;
    VisitedIff(k, 0, width, height, rowWords);
    if exists z: nat :: z < height && InRow(k, 0, z, width, rowWords) {
      var z: nat :| z < height && InRow(k, 0, z, width, rowWords);
      assert (y + 1) * rowWords == y * rowWords + rowWords;
      assert (z + 1) * rowWords == z * rowWords + rowWords;
      if z > y {
        MulMonotone(y + 1, z, rowWords);
      } else if z < y {
        MulMonotone(z + 1, y, rowWords);
      }
    }
  }

  /** Row `y` of `height` lies inside a buffer of `height * rowWords` words or more. */
  lemma RowInside(y: nat, height: nat, rowWords: nat, words: nat)
    requires y < height && height * rowWords <= words
    ensures y * rowWords + rowWords <= words
    ensures y * rowWords + rowWords == (y + 1) * rowWords
  {
    MulMonotone(y + 1, height, rowWords);
  }

  lemma MulMonotone(a: nat, b: nat, c: nat)
    requires a <= b
    ensures a * c <= b * c
  {
  }

  /** The buffer after the loops: the visited words grayed, every other word as it was. */
  function Grayscaled(s: seq<bv32>, width: nat, height: nat, rowWords: nat): (r: seq<bv32>)
    ensures |r| == |s|
  {
    seq(|s|, k requires 0 <= k < |s| => if k in Visited(0, width, height, rowWords) then Gray(s[k]) else s[k])
  }

  /** One word of the finished buffer. */
  lemma GrayscaledAt(s: seq<bv32>, width: nat, height: nat, rowWords: nat, k: nat)
    requires k < |s|
    ensures Grayscaled(s, width, height, rowWords)[k] == if k in Visited(0, width, height, rowWords) then Gray(s[k]) else s[k]
  {
  }

  /** The buffer part-way through: rows before `y` done, and the first `x` words of row `y`. */
  function Progress(s: seq<bv32>, width: nat, y: nat, rowWords: nat, x: nat): (r: seq<bv32>)
    ensures |r| == |s|
  {
    seq(|s|, k requires 0 <= k < |s| =>
      if k in Visited(0, width, y, rowWords) || y * rowWords <= k < y * rowWords + x then Gray(s[k]) else s[k])
  }

  lemma ProgressStart(s: seq<bv32>, width: nat, rowWords: nat)
    ensures Progress(s, width, 0, rowWords, 0) == s
  {
  }

  /** Rewriting word `y * rowWords + x` from its original value advances the inner loop by one. */
  lemma ProgressStep(s: seq<bv32>, width: nat, y: nat, rowWords: nat, x: nat)
    requires width <= rowWords && x < width && y * rowWords + x < |s|
    ensures Progress(s, width, y, rowWords, x)[y * rowWords + x] == s[y * rowWords + x]
    ensures Progress(s, width, y, rowWords, x + 1)
      == Progress(s, width, y, rowWords, x)[y * rowWords + x := Gray(s[y * rowWords + x])]
  {
    VisitedBounds(y * rowWords + x, 0, width, y, rowWords);
  }

  /** A finished row is the start of the next one. */
  lemma ProgressRow(s: seq<bv32>, width: nat, y: nat, rowWords: nat)
    ensures Progress(s, width, y, rowWords, width) == Progress(s, width, y + 1, rowWords, 0)
  {
    forall k | 0 <= k < |s| {
      VisitedOneMoreRow(k, 0, width, y, rowWords);
    }
  }

  lemma ProgressDone(s: seq<bv32>, width: nat, height: nat, rowWords: nat)
    ensures Progress(s, width, height, rowWords, 0) == Grayscaled(s, width, height, rowWords)
  {
  }

  /** The three early returns: `getInfo` failed (`None`), not RGBA_8888, `lockPixels` failed. */
  predicate Proceeds(info: Option<BitmapInfo>, locked: bool) {
    info.Some? && info.value.format == FormatRgba8888 && locked
  }

  /** What the native `grayscale` leaves in the bitmap's buffer. */
  function GrayscaleBitmap(s: seq<bv32>, info: Option<BitmapInfo>, locked: bool): (r: seq<bv32>)
    ensures |r| == |s|
    ensures !Proceeds(info, locked) ==> r == s
  {
    if Proceeds(info, locked) then Grayscaled(s, info.value.width, info.value.height, info.value.stride / 4) else s
  }

  /** Geometry Android guarantees for a locked bitmap: whole-word stride, rows no shorter than `width`, `height` rows. */
  predicate Fits(info: BitmapInfo, words: nat) {
    info.stride % 4 == 0 && info.width <= info.stride / 4 && info.height * (info.stride / 4) <= words
  }

  /** Each rewritten pixel becomes opaque gray computed from its own value; every other word is kept. */
  lemma GrayscaleBitmapPixels(s: seq<bv32>, info: Option<BitmapInfo>, locked: bool, x: nat, y: nat)
    requires Proceeds(info, locked) && Fits(info.value, |s|)
    ensures var i := info.value; var k := y * (i.stride / 4) + x;
      && (x < i.width && y < i.height ==> k < |s| && GrayscaleBitmap(s, info, locked)[k] == Gray(s[k]))
      && (i.width <= x < i.stride / 4 && k < |s| ==> GrayscaleBitmap(s, info, locked)[k] == s[k])
  {
    var i := info.value;
    var rw := i.stride / 4;
    var k := y * rw + x;
    if k < |s| {
      GrayscaledAt(s, i.width, i.height, rw, k);
    }
    if x < i.width && y < i.height {
      PixelVisited(x, y, i.width, i.height, rw);
      VisitedBounds(k, 0, i.width, i.height, rw);
    }
    if i.width <= x < rw {
      PaddingNotVisited(x, y, i.width, i.height, rw);
    }
  }

  /** Running the kernel a second time changes nothing. */
  lemma GrayscaleBitmapIdempotent(s: seq<bv32>, info: Option<BitmapInfo>, locked: bool)
    ensures GrayscaleBitmap(GrayscaleBitmap(s, info, locked), info, locked) == GrayscaleBitmap(s, info, locked)
  {
    if Proceeds(info, locked) {
      var once := GrayscaleBitmap(s, info, locked);
      var twice := GrayscaleBitmap(once, info, locked);
      forall k | 0 <= k < |s| ensures twice[k] == once[k] {
        GrayIdempotent(s[k]);
      }
    }
  }
}
