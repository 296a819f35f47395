/**
 * PixelArrayConversion: NV12PixelArrayToRGBPixelArray and
 * YUY2PixelArrayToRGBPixelArray of ImageProcessingUtils.cs. Both walk the
 * frame row by row, two columns at a time, derive one YUV sample per pixel
 * pair, convert it with YUVToRGB and store the colour twice, three bytes
 * per pixel plus an opaque alpha byte unless `ignoreAlpha` is set.
 */
module PixelArrayConversion {
  import opened ColourConversion
  import opened Arithmetic

  datatype Format = NV12 | YUY2

  /** The arguments of one call. */
  datatype Request = Request(format: Format, yuvPixelArray: seq<byte>, pixelWidth: nat, pixelHeight: nat,
                             ignoreAlpha: bool)

  /**
   * The outcome of a call: null for a buffer shorter than the format
   * needs, the IndexOutOfRangeException a read past the end of the buffer
   * raises, or the converted pixel array.
   */
  datatype Conversion = TooFewBytes | IndexOutOfRange | Converted(rgbPixelArray: seq<byte>)

  function BytesPerPixel(ignoreAlpha: bool): nat
  {
    if ignoreAlpha then 3 else 4
  }

  /** The size of the allocated pixel array: every pixel of every row. */
  function OutputLength(q: Request): nat
  {
    q.pixelWidth * BytesPerPixel(q.ignoreAlpha) * q.pixelHeight
  }

  /** The bytes one row of pixel pairs fills. */
  function RowLength(q: Request): nat
  {
    q.pixelWidth / 2 * 2 * BytesPerPixel(q.ignoreAlpha)
  }

  /**
   * The length guard: NV12 needs one and a half bytes per pixel (compared
   * as `len < w * h * 1.5f`, i.e. 2 * len < 3 * w * h), YUY2 two.
   */
  predicate TooShort(q: Request)
  {
    match q.format
    case NV12 => 2 * |q.yuvPixelArray| < 3 * (q.pixelWidth * q.pixelHeight)
    case YUY2 => |q.yuvPixelArray| < q.pixelWidth * q.pixelHeight * 2
  }

  /**
   * The buffer positions read for the pixel pair at column `x` of row `y`.
   * NV12: the four luma bytes of rows y and y + 1, then U and V from the
   * chroma plane, which is taken to start at `w * h - 1`. YUY2: the two
   * luma bytes, then the bytes at +3 (taken as U) and +1 (taken as V).
   */
  function ReadIndices(q: Request, y: nat, x: nat): (indices: seq<int>)
    ensures |indices| == if q.format.NV12? then 6 else 4
  {
    var w := q.pixelWidth;
    match q.format
    case NV12 =>
      var cumulativeYIndex := y * w;
      var cumulativeUVPlaneIndex := y / 2 * w + (w * q.pixelHeight - 1);
      [cumulativeYIndex + x, cumulativeYIndex + x + 1, cumulativeYIndex + w + x, cumulativeYIndex + w + x + 1,
       cumulativeUVPlaneIndex + x, cumulativeUVPlaneIndex + x + 1]
    case YUY2 =>
      var index := (y * w + x) * 2;
      [index, index + 2, index + 3, index + 1]
  }

  /** `x` is a column the pair loop visits. */
  predicate PairColumn(w: nat, x: nat)
  {
    x % 2 == 0 && x + 1 < w
  }

  /** Every read of every visited pair lies inside the buffer. */
  ghost predicate EveryReadInBounds(q: Request)
  {
    forall y: nat, x: nat, j ::
      y < q.pixelHeight && PairColumn(q.pixelWidth, x) && 0 <= j < |ReadIndices(q, y, x)| ==>
        0 <= ReadIndices(q, y, x)[j] < |q.yuvPixelArray|
  }

  /** The same condition in closed form: the largest positions read lie inside the buffer. */
  predicate ReadsInBounds(q: Request)
  {
    var w := q.pixelWidth;
    var h := q.pixelHeight;
    var len := |q.yuvPixelArray|;
    w < 2 || h == 0 ||
    match q.format
    case NV12 => h * w + 2 * (w / 2) - 1 < len && (h - 1) / 2 * w + w * h + 2 * (w / 2) - 2 < len
    case YUY2 => ((h - 1) * w + 2 * (w / 2) - 2) * 2 + 3 < len
  }

  /** The buffer byte at `i`, or 0 where there is none (never used by a conversion that completes). */
  function At(s: seq<byte>, i: int): byte
  {
    if 0 <= i < |s| then s[i] else 0
  }

  /** The YUV sample of the pair at column `x` of row `y`: the mean luma and the chroma pair. */
  function PairYuv(q: Request, y: nat, x: nat): Yuv
  {
    var r := ReadIndices(q, y, x);
    var b := q.yuvPixelArray;
    match q.format
    case NV12 => Yuv((At(b, r[0]) + At(b, r[1]) + At(b, r[2]) + At(b, r[3])) / 4, At(b, r[4]), At(b, r[5]))
    case YUY2 => Yuv((At(b, r[0]) + At(b, r[1])) / 2, At(b, r[2]), At(b, r[3]))
  }

  /** The stored bytes of one pixel: the three converted bytes, then 0xff unless alpha is ignored. */
  function PixelBytes(rgb: Rgb, ignoreAlpha: bool): (p: seq<byte>)
    ensures |p| == BytesPerPixel(ignoreAlpha)
  {
    [rgb.r, rgb.g, rgb.b] + if ignoreAlpha then [] else [255]
  }

  /** The colour of the pair at column `x` of row `y`. */
  function PairColour(q: Request, y: nat, x: nat): Rgb
  {
    var yuv := PairYuv(q, y, x);
    YUVToRGB(yuv.y, yuv.u, yuv.v)
  }

  /** The colours `colour(0), colour(2), ..., colour(2 * (n - 1))` of the first `n` pairs. */
  function PairSamples(colour: nat -> Rgb, n: nat): (colours: seq<Rgb>)
    ensures |colours| == n
  {
    if n == 0 then [] else PairSamples(colour, n - 1) + [colour(2 * (n - 1))]
  }

  lemma {:induction false} PairSamplesAt(colour: nat -> Rgb, n: nat, k: nat)
    requires k < n
    ensures PairSamples(colour, n)[k] == colour(2 * k)
  {
    if k < n - 1 {
      PairSamplesAt(colour, n - 1, k);
    }
  }

  /** The colours of the first `n` pixel pairs of row `y`, left to right. */
  function PairColours(q: Request, y: nat, n: nat): (colours: seq<Rgb>)
    ensures |colours| == n
  {
    PairSamples((x: nat) => PairColour(q, y, x), n)
  }

  lemma PairColoursAt(q: Request, y: nat, n: nat, k: nat)
    requires k < n
    ensures PairColours(q, y, n)[k] == PairColour(q, y, 2 * k)
  {
    PairSamplesAt((x: nat) => PairColour(q, y, x), n, k);
  }

  /** The colours of all pixel pairs of row `y`. */
  function RowColours(q: Request, y: nat): (colours: seq<Rgb>)
    ensures |colours| == q.pixelWidth / 2
  {
    PairColours(q, y, q.pixelWidth / 2)
  }

  /** The bytes stored for a run of pair colours: every pixel twice. */
  function Emit(colours: seq<Rgb>, ignoreAlpha: bool): seq<byte>
  {
    if |colours| == 0 then []
    else
      var p := PixelBytes(colours[|colours| - 1], ignoreAlpha);
      Emit(colours[..|colours| - 1], ignoreAlpha) + p + p
  }

  /** The pair colours of the first `n` rows. */
  function FrameColours(q: Request, n: nat): (rows: seq<seq<Rgb>>)
    ensures |rows| == n
  {
    if n == 0 then [] else FrameColours(q, n - 1) + [RowColours(q, n - 1)]
  }

  lemma {:induction false} FrameColoursAt(q: Request, n: nat, y: nat)
    requires y < n
    ensures FrameColours(q, n)[y] == RowColours(q, y)
  {
    var init := FrameColours(q, n - 1);
    assert FrameColours(q, n) == init + [RowColours(q, n - 1)];
    if y < n - 1 {
      FrameColoursAt(q, n - 1, y);
      assert (init + [RowColours(q, n - 1)])[y] == init[y];
    }
  }

  lemma FrameColoursShape(q: Request, n: nat)
    ensures forall y :: 0 <= y < n ==> |FrameColours(q, n)[y]| == q.pixelWidth / 2
  {
    forall y | 0 <= y < n
      ensures |FrameColours(q, n)[y]| == q.pixelWidth / 2
    {
      FrameColoursAt(q, n, y);
    }
  }

  /** Rows of pair colours laid out one after another, without padding. */
  function Layout(rows: seq<seq<Rgb>>, ignoreAlpha: bool): seq<byte>
  {
    if |rows| == 0 then []
    else Layout(rows[..|rows| - 1], ignoreAlpha) + Emit(rows[|rows| - 1], ignoreAlpha)
  }

  /** The first `n` rows of the frame, packed one after another. */
  function FrameBytes(q: Request, n: nat): seq<byte>
  {
    Layout(FrameColours(q, n), q.ignoreAlpha)
  }

  lemma {:induction false} EmitLength(colours: seq<Rgb>, ignoreAlpha: bool)
    ensures |Emit(colours, ignoreAlpha)| == |colours| * 2 * BytesPerPixel(ignoreAlpha)
  {
    if |colours| > 0 {
      EmitLength(colours[..|colours| - 1], ignoreAlpha);
      var bpp := BytesPerPixel(ignoreAlpha);
      assert (|colours| - 1) * 2 * bpp + 2 * bpp == |colours| * 2 * bpp;
    }
  }

  lemma AddOneRow(n: nat, rowLength: nat)
    requires n > 0
    ensures (n - 1) * rowLength + rowLength == n * rowLength
  {
  }

  lemma {:induction false} LayoutLength(rows: seq<seq<Rgb>>, ignoreAlpha: bool, pairs: nat)
    requires forall y :: 0 <= y < |rows| ==> |rows[y]| == pairs
    ensures |Layout(rows, ignoreAlpha)| == |rows| * (pairs * 2 * BytesPerPixel(ignoreAlpha))
  {
    if |rows| > 0 {
      LayoutLength(rows[..|rows| - 1], ignoreAlpha, pairs);
      EmitLength(rows[|rows| - 1], ignoreAlpha);
      AddOneRow(|rows|, pairs * 2 * BytesPerPixel(ignoreAlpha));
    }
  }

  lemma FrameBytesLength(q: Request, n: nat)
    ensures |FrameBytes(q, n)| == n * RowLength(q)
  {
    FrameColoursShape(q, n);
    LayoutLength(FrameColours(q, n), q.ignoreAlpha, q.pixelWidth / 2);
  }

  /** One more row appends that row's pairs. */
  lemma FrameBytesStep(q: Request, y: nat)
    ensures FrameBytes(q, y + 1) == FrameBytes(q, y) + Emit(RowColours(q, y), q.ignoreAlpha)
  {
    LayoutSnoc(FrameColours(q, y), RowColours(q, y), q.ignoreAlpha);
  }

  lemma LayoutSnoc(rows: seq<seq<Rgb>>, row: seq<Rgb>, ignoreAlpha: bool)
    ensures Layout(rows + [row], ignoreAlpha) == Layout(rows, ignoreAlpha) + Emit(row, ignoreAlpha)
  {
    assert (rows + [row])[..|rows|] == rows;
  }

  function Zeros(n: nat): (z: seq<byte>)
    ensures |z| == n
  {
    seq(n, _ => 0)
  }

  /** Writing pixel pairs never needs more bytes than the array holds. */
  lemma FrameFits(q: Request)
    ensures q.pixelHeight * RowLength(q) <= OutputLength(q)
  {
    var bpp := BytesPerPixel(q.ignoreAlpha);
    assert q.pixelWidth / 2 * 2 <= q.pixelWidth;
    assert q.pixelWidth / 2 * 2 * bpp <= q.pixelWidth * bpp;
    assert q.pixelHeight * (q.pixelWidth / 2 * 2 * bpp) <= q.pixelHeight * (q.pixelWidth * bpp);
  }

  /** The array after a completed conversion: the pairs of all rows, then the untouched zeros. */
  function PixelArray(q: Request): (out: seq<byte>)
    ensures |out| == OutputLength(q)
  {
    RowsFit(q, q.pixelHeight);
    var frame := FrameBytes(q, q.pixelHeight);
    frame + Zeros(OutputLength(q) - |frame|)
  }

  /** What a call yields. */
  function Convert(q: Request): Conversion
  {
    if TooShort(q) then TooFewBytes
    else if !ReadsInBounds(q) then IndexOutOfRange
    else Converted(PixelArray(q))
  }

  // ---------------------------------------------------------------------------
  // Bounds of the reads

  lemma EvenColumn(k: nat)
    ensures (2 * k) % 2 == 0 && (2 * k) / 2 == k
  {
  }

  /** The last column the pair loop visits. */
  lemma LastPairColumn(w: nat, x: nat)
    requires PairColumn(w, x)
    ensures x <= 2 * (w / 2) - 2 && PairColumn(w, 2 * (w / 2) - 2)
  {
  }

  /** Under the closed form, one visited NV12 pair reads inside the buffer. */
  lemma NV12PairInBounds(q: Request, y: nat, x: nat)
    requires q.format.NV12? && ReadsInBounds(q)
    requires y < q.pixelHeight && PairColumn(q.pixelWidth, x)
    ensures var cumulativeYIndex := y * q.pixelWidth;
      var cumulativeUVPlaneIndex := y / 2 * q.pixelWidth + (q.pixelWidth * q.pixelHeight - 1);
      0 <= cumulativeYIndex + x && cumulativeYIndex + q.pixelWidth + x + 1 < |q.yuvPixelArray| &&
      0 <= cumulativeUVPlaneIndex + x && cumulativeUVPlaneIndex + x + 1 < |q.yuvPixelArray|
  {
    var w := q.pixelWidth;
    var h := q.pixelHeight;
    LastPairColumn(w, x);
    MulMonotone(y, h - 1, w);
    MulMonotone(y / 2, (h - 1) / 2, w);
    MulMonotone(1, h, w);
    assert (h - 1) * w + w == h * w;
    assert w * h == h * w;
  }

  /** Under the closed form, one visited YUY2 pair reads inside the buffer. */
  lemma YUY2PairInBounds(q: Request, y: nat, x: nat)
    requires q.format.YUY2? && ReadsInBounds(q)
    requires y < q.pixelHeight && PairColumn(q.pixelWidth, x)
    ensures (y * q.pixelWidth + x) * 2 + 3 < |q.yuvPixelArray|
  {
    LastPairColumn(q.pixelWidth, x);
    MulMonotone(y, q.pixelHeight - 1, q.pixelWidth);
  }

  /** When the closed form fails, the last pair of the last row reads outside the buffer. */
  lemma LastPairOverruns(q: Request)
    requires !ReadsInBounds(q)
    ensures var last := ReadIndices(q, q.pixelHeight - 1, 2 * (q.pixelWidth / 2) - 2);
      PairColumn(q.pixelWidth, 2 * (q.pixelWidth / 2) - 2) &&
      exists j :: 0 <= j < |last| && !(0 <= last[j] < |q.yuvPixelArray|)
  {
    var w := q.pixelWidth;
    var h := q.pixelHeight;
    var last := ReadIndices(q, h - 1, 2 * (w / 2) - 2);
    assert (h - 1) * w + w == h * w;
    assert w * h == h * w;
    if q.format.NV12? {
      assert !(0 <= last[3] < |q.yuvPixelArray|) || !(0 <= last[5] < |q.yuvPixelArray|);
    } else {
      assert !(0 <= last[2] < |q.yuvPixelArray|);
    }
  }

  /** The closed form is exact: it holds if and only if no visited read leaves the buffer. */
  lemma ReadsInBoundsExact(q: Request)
    ensures ReadsInBounds(q) <==> EveryReadInBounds(q)
  {
    if ReadsInBounds(q) {
      forall y: nat, x: nat | y < q.pixelHeight && PairColumn(q.pixelWidth, x)
        ensures forall j :: 0 <= j < |ReadIndices(q, y, x)| ==> 0 <= ReadIndices(q, y, x)[j] < |q.yuvPixelArray|
      {
        PairReadsInBounds(q, y, x);
      }
    } else {
      LastPairOverruns(q);
    }
  }

  /** Under the closed form every read of one visited pair lies inside the buffer. */
  lemma PairReadsInBounds(q: Request, y: nat, x: nat)
    requires ReadsInBounds(q) && y < q.pixelHeight && PairColumn(q.pixelWidth, x)
    ensures forall j :: 0 <= j < |ReadIndices(q, y, x)| ==> 0 <= ReadIndices(q, y, x)[j] < |q.yuvPixelArray|
  {
    if q.format.NV12? {
      NV12PairInBounds(q, y, x);
    } else {
      YUY2PairInBounds(q, y, x);
    }
  }

  /** The YUY2 length guard is enough: a buffer that passes it is never read past its end. */
  lemma YUY2GuardSuffices(q: Request)
    requires q.format.YUY2? && !TooShort(q)
    ensures ReadsInBounds(q)
  {
    var w := q.pixelWidth;
    var h := q.pixelHeight;
    if w >= 2 && h > 0 {
      YUY2LastRead(w, h, |q.yuvPixelArray|);
    }
  }

  /** The last YUY2 read of a `w` x `h` frame lies below `2 * w * h`. */
  lemma YUY2LastRead(w: nat, h: nat, len: nat)
    requires w >= 2 && h > 0 && w * h * 2 <= len
    ensures ((h - 1) * w + 2 * (w / 2) - 2) * 2 + 3 < len
  {
    var rows := (h - 1) * w;
    assert rows + w == h * w;
    assert w * h * 2 == 2 * (h * w);
    assert 2 * (w / 2) <= w;
  }

  /** For an even height the NV12 guard is enough as well. */
  lemma NV12EvenHeightGuardSuffices(q: Request)
    requires q.format.NV12? && !TooShort(q) && q.pixelHeight % 2 == 0
    ensures ReadsInBounds(q)
  {
    var w := q.pixelWidth;
    var h := q.pixelHeight;
    if w >= 2 && h > 0 {
      var m := h / 2;
      var area := m * w;
      assert h * w == 2 * area && w * h == 2 * area;
      assert (h - 1) / 2 == m - 1;
      assert (m - 1) * w == area - w;
      MulMonotone(1, m, w);
      EvenHeightArithmetic(|q.yuvPixelArray|, w, area);
    }
  }

  lemma EvenHeightArithmetic(len: nat, w: nat, area: nat)
    requires 2 * len >= 6 * area && w <= area
    ensures 2 * area + 2 * (w / 2) - 1 < len
    ensures area - w + 2 * area + 2 * (w / 2) - 2 < len
  {
  }

  /**
   * For an odd height the NV12 guard is not enough: a single row of two
   * pixels in three bytes, or a 4 x 3 frame in 18 bytes, passes it and then
   * reads past the end of the buffer.
   */
  lemma NV12OddHeightOverruns(b3: seq<byte>, b18: seq<byte>)
    requires |b3| == 3 && |b18| == 18
    ensures Convert(Request(NV12, b3, 2, 1, false)) == IndexOutOfRange
    ensures Convert(Request(NV12, b18, 4, 3, true)) == IndexOutOfRange
  {
  }

  // ---------------------------------------------------------------------------
  // The conversion loops

  /** The source's index arithmetic and reads for one pixel pair. */
  method ReadPairYuv(q: Request, y: nat, x: nat) returns (yuv: Yuv)
    requires ReadsInBounds(q) && y < q.pixelHeight && PairColumn(q.pixelWidth, x)
    ensures yuv == PairYuv(q, y, x)
  {
    var yuvPixelArray := q.yuvPixelArray;
    var w := q.pixelWidth;
    match q.format
    case NV12 =>
      NV12PairInBounds(q, y, x);
      var uvPlaneStartIndex := w * q.pixelHeight - 1;
      var cumulativeYIndex := y * w;
      var cumulativeUVPlaneIndex := y / 2 * w + uvPlaneStartIndex;
      var yAsInt := (yuvPixelArray[cumulativeYIndex + x] as int + yuvPixelArray[cumulativeYIndex + x + 1] as int
                     + yuvPixelArray[cumulativeYIndex + w + x] as int + yuvPixelArray[cumulativeYIndex + w + x + 1] as int) / 4;
      yuv := Yuv(yAsInt, yuvPixelArray[cumulativeUVPlaneIndex + x], yuvPixelArray[cumulativeUVPlaneIndex + x + 1]);
    case YUY2 =>
      YUY2PairInBounds(q, y, x);
      var index := (y * w + x) * 2;
      yuv := Yuv((yuvPixelArray[index] as int + yuvPixelArray[index + 2] as int) / 2, yuvPixelArray[index + 3], yuvPixelArray[index + 1]);
  }

  /** One pixel pair: read its YUV sample and convert it. */
  method ConvertPair(q: Request, y: nat, x: nat) returns (rgbPixel: Rgb)
    requires ReadsInBounds(q) && y < q.pixelHeight && PairColumn(q.pixelWidth, x)
    ensures rgbPixel == PairColour(q, y, x)
  {
    var yuv := ReadPairYuv(q, y, x);
    rgbPixel := YUVToRGB(yuv.y, yuv.u, yuv.v);
  }

  /** Appending one pair colour appends its pixel twice. */
  lemma EmitStep(colours: seq<Rgb>, k: nat, c: Rgb, ignoreAlpha: bool)
    requires k < |colours| && colours[k] == c
    ensures Emit(colours[..k + 1], ignoreAlpha)
            == Emit(colours[..k], ignoreAlpha) + PixelBytes(c, ignoreAlpha) + PixelBytes(c, ignoreAlpha)
  {
    assert colours[..k + 1][..k] == colours[..k];
  }

  /** The three (or four) byte writes of one pixel at `rgbIndex`. */
  method WritePixel(rgbPixelArray: array<byte>, rgbIndex: nat, rgbPixel: Rgb, ignoreAlpha: bool)
    requires rgbIndex + BytesPerPixel(ignoreAlpha) <= rgbPixelArray.Length
    modifies rgbPixelArray
    ensures rgbPixelArray[..] == old(rgbPixelArray[..])[..rgbIndex] + PixelBytes(rgbPixel, ignoreAlpha)
                                 + old(rgbPixelArray[..])[rgbIndex + BytesPerPixel(ignoreAlpha)..]
  {
    rgbPixelArray[rgbIndex] := rgbPixel.r;
    rgbPixelArray[rgbIndex + 1] := rgbPixel.g;
    rgbPixelArray[rgbIndex + 2] := rgbPixel.b;
    if !ignoreAlpha {
      rgbPixelArray[rgbIndex + 3] := 255;
    }
  }

  /** `p` written `i` times. */
  function Repeat(p: seq<byte>, i: nat): (r: seq<byte>)
    ensures |r| == i * |p|
  {
    if i == 0 then [] else Repeat(p, i - 1) + p
  }

  /** Overwriting the head of the zero tail. */
  lemma OverwriteZeros(written: seq<byte>, p: seq<byte>, n: nat)
    requires |p| <= n
    ensures var s := written + Zeros(n);
      s[..|written|] + p + s[|written| + |p|..] == written + p + Zeros(n - |p|)
  {
    var s := written + Zeros(n);
    assert s[..|written|] == written;
    assert s[|written| + |p|..] == Zeros(n - |p|);
  }

  /** The first `n` rows fit in the array. */
  lemma RowsFit(q: Request, n: nat)
    requires n <= q.pixelHeight
    ensures |FrameBytes(q, n)| <= OutputLength(q)
  {
    FrameBytesLength(q, n);
    FrameFits(q);
    MulMonotone(n, q.pixelHeight, RowLength(q));
  }

  /** The pair at column `x` of row `y` fits in the array. */
  lemma PairFits(q: Request, y: nat, x: nat)
    requires y < q.pixelHeight && PairColumn(q.pixelWidth, x)
    ensures y * RowLength(q) + (x / 2 + 1) * 2 * BytesPerPixel(q.ignoreAlpha) <= OutputLength(q)
  {
    LastPairColumn(q.pixelWidth, x);
    var bpp := BytesPerPixel(q.ignoreAlpha);
    MulMonotone(x / 2 + 1, q.pixelWidth / 2, 2 * bpp);
    AddOneRow(y + 1, RowLength(q));
    MulMonotone(y + 1, q.pixelHeight, RowLength(q));
    FrameFits(q);
  }

  /** The inner loop: the pixel is stored twice, one after the other. */
  method StorePixelTwice(rgbPixelArray: array<byte>, rgbIndex: nat, rgbPixel: Rgb, ignoreAlpha: bool,
                         ghost written: seq<byte>)
    returns (next: nat)
    requires rgbIndex == |written| && rgbIndex + 2 * BytesPerPixel(ignoreAlpha) <= rgbPixelArray.Length
    requires rgbPixelArray[..] == written + Zeros(rgbPixelArray.Length - rgbIndex)
    modifies rgbPixelArray
    ensures next == rgbIndex + 2 * BytesPerPixel(ignoreAlpha)
    ensures rgbPixelArray[..] == written + PixelBytes(rgbPixel, ignoreAlpha) + PixelBytes(rgbPixel, ignoreAlpha)
                                 + Zeros(rgbPixelArray.Length - next)
  {
    ghost var p := PixelBytes(rgbPixel, ignoreAlpha);
    next := rgbIndex;
    for i := 0 to 2
      invariant next == rgbIndex + i * |p|
      invariant rgbPixelArray[..] == written + Repeat(p, i) + Zeros(rgbPixelArray.Length - next)
    {
      OverwriteZeros(written + Repeat(p, i), p, rgbPixelArray.Length - next);
      WritePixel(rgbPixelArray, next, rgbPixel, ignoreAlpha);
      next := next + BytesPerPixel(ignoreAlpha);
      assert written + Repeat(p, i) + p == written + Repeat(p, i + 1);
    }
    assert Repeat(p, 2) == p + p;
  }

  /** One pass of the pair loop: convert the pair at column `x = 2 * k` and store it twice. */
  method FillPair(q: Request, rgbPixelArray: array<byte>, y: nat, x: nat, rgbIndex: nat,
                  ghost written: seq<byte>, ghost colours: seq<Rgb>, ghost k: nat)
    returns (next: nat)
    requires ReadsInBounds(q) && y < q.pixelHeight && rgbPixelArray.Length == OutputLength(q)
    requires colours == RowColours(q, y) && x == 2 * k && x + 1 < q.pixelWidth
    requires |written| == y * RowLength(q)
    requires rgbIndex == |written + Emit(colours[..k], q.ignoreAlpha)| <= rgbPixelArray.Length
    requires rgbPixelArray[..] == written + Emit(colours[..k], q.ignoreAlpha) + Zeros(rgbPixelArray.Length - rgbIndex)
    modifies rgbPixelArray
    ensures k < |colours|
    ensures next == |written + Emit(colours[..k + 1], q.ignoreAlpha)| <= rgbPixelArray.Length
    ensures rgbPixelArray[..] == written + Emit(colours[..k + 1], q.ignoreAlpha) + Zeros(rgbPixelArray.Length - next)
  {
    PairColourReady(q, y, x, k, colours);
    PairRoomReady(q, y, x, written, colours[..k], rgbIndex);
    var rgbPixel := ConvertPair(q, y, x);
    next := StorePair(rgbPixelArray, rgbIndex, rgbPixel, q.ignoreAlpha, written, colours, k);
  }

  /** Pair `k` of row `y` sits at column `2 * k`, and its colour is the one laid out for it. */
  lemma PairColourReady(q: Request, y: nat, x: nat, k: nat, colours: seq<Rgb>)
    requires y < q.pixelHeight && colours == RowColours(q, y) && x == 2 * k && x + 1 < q.pixelWidth
    ensures PairColumn(q.pixelWidth, x) && k < |colours| && colours[k] == PairColour(q, y, x)
  {
    EvenColumn(k);
    PairColoursAt(q, y, q.pixelWidth / 2, k);
  }

  /** After the rows before `y` and the pairs before column `x`, two more pixels still fit. */
  lemma PairRoomReady(q: Request, y: nat, x: nat, written: seq<byte>, done: seq<Rgb>, rgbIndex: nat)
    requires y < q.pixelHeight && x == 2 * |done| && x + 1 < q.pixelWidth
    requires |written| == y * RowLength(q)
    requires rgbIndex == |written + Emit(done, q.ignoreAlpha)|
    ensures rgbIndex + 2 * BytesPerPixel(q.ignoreAlpha) <= OutputLength(q)
  {
    var k, bpp := |done|, BytesPerPixel(q.ignoreAlpha);
    EvenColumn(k);
    PairFits(q, y, x);
    EmitLength(done, q.ignoreAlpha);
    assert (x / 2 + 1) * 2 * bpp == k * 2 * bpp + 2 * bpp;
  }

  /** Stores the colour of pair `k` after the bytes of the pairs before it. */
  method StorePair(rgbPixelArray: array<byte>, rgbIndex: nat, rgbPixel: Rgb, ignoreAlpha: bool,
                   ghost written: seq<byte>, ghost colours: seq<Rgb>, ghost k: nat)
    returns (next: nat)
    requires k < |colours| && colours[k] == rgbPixel
    requires rgbIndex == |written + Emit(colours[..k], ignoreAlpha)|
    requires rgbIndex + 2 * BytesPerPixel(ignoreAlpha) <= rgbPixelArray.Length
    requires rgbPixelArray[..] == written + Emit(colours[..k], ignoreAlpha) + Zeros(rgbPixelArray.Length - rgbIndex)
    modifies rgbPixelArray
    ensures next == |written + Emit(colours[..k + 1], ignoreAlpha)| <= rgbPixelArray.Length
    ensures rgbPixelArray[..] == written + Emit(colours[..k + 1], ignoreAlpha) + Zeros(rgbPixelArray.Length - next)
  {
    EmitStep(colours, k, rgbPixel, ignoreAlpha);
    next := StorePixelTwice(rgbPixelArray, rgbIndex, rgbPixel, ignoreAlpha, written + Emit(colours[..k], ignoreAlpha));
  }

  /** The pair loop of row `y`. */
  method FillRow(q: Request, rgbPixelArray: array<byte>, y: nat, rgbIndex: nat) returns (next: nat)
    requires ReadsInBounds(q) && y < q.pixelHeight && rgbPixelArray.Length == OutputLength(q)
    requires rgbIndex == |FrameBytes(q, y)| <= rgbPixelArray.Length
    requires rgbPixelArray[..] == FrameBytes(q, y) + Zeros(rgbPixelArray.Length - rgbIndex)
    modifies rgbPixelArray
    ensures next == |FrameBytes(q, y + 1)| <= rgbPixelArray.Length
    ensures rgbPixelArray[..] == FrameBytes(q, y + 1) + Zeros(rgbPixelArray.Length - next)
  {
    FrameBytesLength(q, y);
    next := FillPairs(q, rgbPixelArray, y, rgbIndex, FrameBytes(q, y), RowColours(q, y));
    FrameBytesStep(q, y);
  }

  /** The loop over the even columns of row `y`, after the bytes `written` of the rows before it. */
  method FillPairs(q: Request, rgbPixelArray: array<byte>, y: nat, rgbIndex: nat,
                   ghost written: seq<byte>, ghost colours: seq<Rgb>)
    returns (next: nat)
    requires ReadsInBounds(q) && y < q.pixelHeight && rgbPixelArray.Length == OutputLength(q)
    requires colours == RowColours(q, y) && |written| == y * RowLength(q)
    requires rgbIndex == |written| <= rgbPixelArray.Length
    requires rgbPixelArray[..] == written + Zeros(rgbPixelArray.Length - rgbIndex)
    modifies rgbPixelArray
    ensures next == |written + Emit(colours, q.ignoreAlpha)| <= rgbPixelArray.Length
    ensures rgbPixelArray[..] == written + Emit(colours, q.ignoreAlpha) + Zeros(rgbPixelArray.Length - next)
  {
    var pixelWidth := q.pixelWidth;
    next := rgbIndex;
    var x := 0;
    ghost var k := 0;
    assert written + Emit(colours[..0], q.ignoreAlpha) == written;
    while x + 1 < pixelWidth
      invariant x == 2 * k && k <= |colours|
      invariant next == |written + Emit(colours[..k], q.ignoreAlpha)| <= rgbPixelArray.Length
      invariant rgbPixelArray[..] == written + Emit(colours[..k], q.ignoreAlpha) + Zeros(rgbPixelArray.Length - next)
    {
      next := FillPair(q, rgbPixelArray, y, x, next, written, colours, k);
      x := x + 2;
      k := k + 1;
    }
    PairsExhausted(pixelWidth, k);
    assert colours[..k] == colours;
  }

  /** The pair loop stops after `w / 2` pairs. */
  lemma PairsExhausted(w: nat, k: nat)
    requires w <= 2 * k + 1 && k <= w / 2
    ensures k == w / 2
  {
  }

  /**
   * Both conversion loops: for each row, for each pixel pair, read the YUV
   * sample, convert it and store the pixel twice. Requires the reads to
   * stay inside the buffer; the callers raise the exception otherwise.
   */
  method FillPixelArray(q: Request) returns (rgbPixelArray: seq<byte>)
    requires ReadsInBounds(q)
    ensures rgbPixelArray == PixelArray(q)
  {
    var a := NewPixelArray(q);
    var rgbIndex := 0;
    for y := 0 to q.pixelHeight
      invariant rgbIndex == |FrameBytes(q, y)| <= a.Length
      invariant a[..] == FrameBytes(q, y) + Zeros(a.Length - rgbIndex)
    {
      rgbIndex := FillRow(q, a, y, rgbIndex);
    }
    rgbPixelArray := a[..];
    PixelArrayFrame(q);
  }

  /** The zeroed array of `bytesPerLineRGB * pixelHeight` bytes, before any row is written. */
  method NewPixelArray(q: Request) returns (a: array<byte>)
    ensures fresh(a) && a.Length == OutputLength(q)
    ensures a[..] == FrameBytes(q, 0) + Zeros(a.Length)
  {
    var bytesPerPixel := BytesPerPixel(q.ignoreAlpha);
    var bytesPerLineRGB := q.pixelWidth * bytesPerPixel;
    a := new byte[bytesPerLineRGB * q.pixelHeight](_ => 0);
    assert a[..] == Zeros(a.Length);
  }

  /** NV12PixelArrayToRGBPixelArray. */
  method NV12PixelArrayToRGBPixelArray(yuvPixelArray: seq<byte>, pixelWidth: nat, pixelHeight: nat, ignoreAlpha: bool)
    returns (result: Conversion)
    ensures result == Convert(Request(NV12, yuvPixelArray, pixelWidth, pixelHeight, ignoreAlpha))
  {
    var q := Request(NV12, yuvPixelArray, pixelWidth, pixelHeight, ignoreAlpha);
    if 2 * |yuvPixelArray| < 3 * (pixelWidth * pixelHeight) {
      return TooFewBytes;
    }
    if !ReadsInBounds(q) {
      // the first read past the end of the buffer throws
      return IndexOutOfRange;
    }
    var rgbPixelArray := FillPixelArray(q);
    return Converted(rgbPixelArray);
  }

  /** YUY2PixelArrayToRGBPixelArray. */
  method YUY2PixelArrayToRGBPixelArray(yuvPixelArray: seq<byte>, pixelWidth: nat, pixelHeight: nat, ignoreAlpha: bool)
    returns (result: Conversion)
    ensures result == Convert(Request(YUY2, yuvPixelArray, pixelWidth, pixelHeight, ignoreAlpha))
    ensures result.IndexOutOfRange? == false
  {
    var q := Request(YUY2, yuvPixelArray, pixelWidth, pixelHeight, ignoreAlpha);
    if |yuvPixelArray| < pixelWidth * pixelHeight * 2 {
      return TooFewBytes;
    }
    YUY2GuardSuffices(q);
    var rgbPixelArray := FillPixelArray(q);
    return Converted(rgbPixelArray);
  }

  // ---------------------------------------------------------------------------
  // The layout of a completed conversion

  lemma {:induction false} EmitPrefix(colours: seq<Rgb>, m: nat, ignoreAlpha: bool)
    requires m <= |colours|
    ensures Emit(colours[..m], ignoreAlpha) <= Emit(colours, ignoreAlpha)
    decreases |colours|
  {
    if m < |colours| {
      var init := colours[..|colours| - 1];
      assert init[..m] == colours[..m];
      EmitPrefix(init, m, ignoreAlpha);
    } else {
      assert colours[..m] == colours;
    }
  }

  lemma {:induction false} LayoutPrefix(rows: seq<seq<Rgb>>, m: nat, ignoreAlpha: bool)
    requires m <= |rows|
    ensures Layout(rows[..m], ignoreAlpha) <= Layout(rows, ignoreAlpha)
    decreases |rows|
  {
    if m < |rows| {
      var init := rows[..|rows| - 1];
      assert init[..m] == rows[..m];
      LayoutPrefix(init, m, ignoreAlpha);
    } else {
      assert rows[..m] == rows;
    }
  }

  /** A prefix `head + p + p` of `all` holds `p` twice after `head`. */
  lemma TwiceAfter(all: seq<byte>, head: seq<byte>, p: seq<byte>)
    requires head + p + p <= all
    ensures all[|head|..|head| + |p|] == p && all[|head| + |p|..|head| + 2 * |p|] == p
  {
    var whole := head + p + p;
    assert all[|head|..|head| + |p|] == whole[|head|..|head| + |p|];
    assert all[|head| + |p|..|head| + 2 * |p|] == whole[|head| + |p|..|head| + 2 * |p|];
  }

  /** Prefixes compose: `a + b` starts `d` when `b` starts `c` and `a + c` starts `d`. */
  lemma PrefixThrough(a: seq<byte>, b: seq<byte>, c: seq<byte>, d: seq<byte>)
    requires b <= c && a + c <= d
    ensures a + b <= d
  {
    assert (a + b)[..] == (a + c)[..|a + b|];
  }

  /** Row `y` follows the rows before it in the layout of all the rows. */
  lemma RowStartsAfterEarlierRows(rows: seq<seq<Rgb>>, y: nat, ignoreAlpha: bool)
    requires y < |rows|
    ensures Layout(rows[..y], ignoreAlpha) + Emit(rows[y], ignoreAlpha) <= Layout(rows, ignoreAlpha)
  {
    var upTo := rows[..y + 1];
    assert upTo[..y] == rows[..y];
    assert upTo[y] == rows[y];
    LayoutPrefix(rows, y + 1, ignoreAlpha);
  }

  /** The bytes before pair `k` of row `y`, then that pair, start the layout. */
  lemma LayoutPairPrefix(rows: seq<seq<Rgb>>, y: nat, k: nat, ignoreAlpha: bool)
    requires y < |rows| && k < |rows[y]|
    ensures var p := PixelBytes(rows[y][k], ignoreAlpha);
      Layout(rows[..y], ignoreAlpha) + (Emit(rows[y][..k], ignoreAlpha) + p + p) <= Layout(rows, ignoreAlpha)
  {
    var colours := rows[y];
    EmitStep(colours, k, colours[k], ignoreAlpha);
    EmitPrefix(colours, k + 1, ignoreAlpha);
    RowStartsAfterEarlierRows(rows, y, ignoreAlpha);
    var p := PixelBytes(colours[k], ignoreAlpha);
    PrefixThrough(Layout(rows[..y], ignoreAlpha), Emit(colours[..k], ignoreAlpha) + p + p,
                  Emit(colours, ignoreAlpha), Layout(rows, ignoreAlpha));
  }

  /**
   * In rows of `pairs` colours laid out one after another, the colour of
   * pair `k` of row `y` is stored twice from byte `(y * pairs + k) * 2 * bpp`.
   */
  lemma LayoutPairAt(rows: seq<seq<Rgb>>, frame: seq<byte>, y: nat, k: nat, ignoreAlpha: bool, pairs: nat, offset: nat)
    requires frame == Layout(rows, ignoreAlpha)
    requires forall r :: 0 <= r < |rows| ==> |rows[r]| == pairs
    requires y < |rows| && k < pairs
    requires offset == y * (pairs * 2 * BytesPerPixel(ignoreAlpha)) + k * 2 * BytesPerPixel(ignoreAlpha)
    ensures var bpp := BytesPerPixel(ignoreAlpha);
      var p := PixelBytes(rows[y][k], ignoreAlpha);
      && offset + 2 * bpp <= |frame|
      && frame[offset..offset + bpp] == p
      && frame[offset + bpp..offset + 2 * bpp] == p
  {
    var head := Layout(rows[..y], ignoreAlpha);
    var before := Emit(rows[y][..k], ignoreAlpha);
    var p := PixelBytes(rows[y][k], ignoreAlpha);
    PairOffsetInLayout(rows, y, k, ignoreAlpha, pairs);
    assert |head + before| == offset;
    LayoutPairPrefix(rows, y, k, ignoreAlpha);
    Regroup(head, before, p);
    TwiceAfter(frame, head + before, p);
  }

  lemma Regroup(head: seq<byte>, before: seq<byte>, p: seq<byte>)
    ensures head + (before + p + p) == (head + before) + p + p
  {
  }

  /** The bytes before pair `k` of row `y`: `y` whole rows and `k` pairs. */
  lemma PairOffsetInLayout(rows: seq<seq<Rgb>>, y: nat, k: nat, ignoreAlpha: bool, pairs: nat)
    requires forall r :: 0 <= r < |rows| ==> |rows[r]| == pairs
    requires y < |rows| && k < pairs
    ensures |Layout(rows[..y], ignoreAlpha)| + |Emit(rows[y][..k], ignoreAlpha)|
            == y * (pairs * 2 * BytesPerPixel(ignoreAlpha)) + k * 2 * BytesPerPixel(ignoreAlpha)
  {
    LayoutLength(rows[..y], ignoreAlpha, pairs);
    EmitLength(rows[y][..k], ignoreAlpha);
  }

  /** Where the pixels of the pair at column `x` of row `y` start in the array. */
  function PairOffset(q: Request, y: nat, x: nat): nat
  {
    y * RowLength(q) + x * BytesPerPixel(q.ignoreAlpha)
  }

  /**
   * Pair `x / 2` of row `y` is stored at byte `y * RowLength + x * bpp`:
   * its converted colour, twice in a row.
   */
  lemma PairStoredTwice(q: Request, y: nat, x: nat)
    requires y < q.pixelHeight && PairColumn(q.pixelWidth, x)
    ensures var bpp := BytesPerPixel(q.ignoreAlpha);
      var offset := PairOffset(q, y, x);
      var p := PixelBytes(PairColour(q, y, x), q.ignoreAlpha);
      && offset + 2 * bpp <= OutputLength(q)
      && PixelArray(q)[offset..offset + bpp] == p
      && PixelArray(q)[offset + bpp..offset + 2 * bpp] == p
  {
    var bpp := BytesPerPixel(q.ignoreAlpha);
    var offset := PairOffset(q, y, x);
    var p := PixelBytes(PairColour(q, y, x), q.ignoreAlpha);
    var frame := FrameBytes(q, q.pixelHeight);
    PairInFrame(q, y, x);
    PixelArrayFrame(q);
    SliceOfFront(frame, Zeros(OutputLength(q) - |frame|), offset, offset + bpp);
    SliceOfFront(frame, Zeros(OutputLength(q) - |frame|), offset + bpp, offset + 2 * bpp);
  }

  /** The same within the bytes of the rows. */
  lemma PairInFrame(q: Request, y: nat, x: nat)
    requires y < q.pixelHeight && PairColumn(q.pixelWidth, x)
    ensures var bpp := BytesPerPixel(q.ignoreAlpha);
      var offset := PairOffset(q, y, x);
      var p := PixelBytes(PairColour(q, y, x), q.ignoreAlpha);
      var frame := FrameBytes(q, q.pixelHeight);
      && offset + 2 * bpp <= |frame|
      && frame[offset..offset + bpp] == p
      && frame[offset + bpp..offset + 2 * bpp] == p
  {
    PairIndexOf(q.pixelWidth, x);
    PairSlot(q, y, x / 2, FrameColours(q, q.pixelHeight), FrameBytes(q, q.pixelHeight));
    ColourOfPair(q, y, x);
  }

  /** The colour laid out for the pair at column `x` of row `y`. */
  lemma ColourOfPair(q: Request, y: nat, x: nat)
    requires y < q.pixelHeight && PairColumn(q.pixelWidth, x)
    ensures x / 2 < |FrameColours(q, q.pixelHeight)[y]|
    ensures FrameColours(q, q.pixelHeight)[y][x / 2] == PairColour(q, y, x)
  {
    PairIndexOf(q.pixelWidth, x);
    FrameColoursAt(q, q.pixelHeight, y);
    PairColoursAt(q, y, q.pixelWidth / 2, x / 2);
  }

  /** Pair `k` of row `y` within the bytes of the rows, given as `rows` and `frame`. */
  lemma PairSlot(q: Request, y: nat, k: nat, rows: seq<seq<Rgb>>, frame: seq<byte>)
    requires rows == FrameColours(q, q.pixelHeight) && frame == FrameBytes(q, q.pixelHeight)
    requires y < q.pixelHeight && k < q.pixelWidth / 2
    ensures y < |rows| && k < |rows[y]|
    ensures var bpp := BytesPerPixel(q.ignoreAlpha);
      var offset := PairOffset(q, y, 2 * k);
      var p := PixelBytes(rows[y][k], q.ignoreAlpha);
      && offset + 2 * bpp <= |frame|
      && frame[offset..offset + bpp] == p
      && frame[offset + bpp..offset + 2 * bpp] == p
  {
    FrameRows(q, rows, frame);
    OffsetOfPair(q, y, k);
    LayoutPairAt(rows, frame, y, k, q.ignoreAlpha, q.pixelWidth / 2, PairOffset(q, y, 2 * k));
  }

  /** The laid-out frame: `h` rows of `w / 2` pair colours each. */
  lemma FrameRows(q: Request, rows: seq<seq<Rgb>>, frame: seq<byte>)
    requires rows == FrameColours(q, q.pixelHeight) && frame == FrameBytes(q, q.pixelHeight)
    ensures |rows| == q.pixelHeight && frame == Layout(rows, q.ignoreAlpha)
    ensures forall r :: 0 <= r < |rows| ==> |rows[r]| == q.pixelWidth / 2
  {
    FrameColoursShape(q, q.pixelHeight);
  }

  lemma OffsetOfPair(q: Request, y: nat, k: nat)
    ensures PairOffset(q, y, 2 * k)
            == y * (q.pixelWidth / 2 * 2 * BytesPerPixel(q.ignoreAlpha)) + k * 2 * BytesPerPixel(q.ignoreAlpha)
  {
    ScaleHalf(k, 2 * k, BytesPerPixel(q.ignoreAlpha));
  }

  /** A visited column is the even column of a pair within the row. */
  lemma PairIndexOf(w: nat, x: nat)
    requires PairColumn(w, x)
    ensures x == 2 * (x / 2) && x / 2 < w / 2
  {
  }

  lemma ScaleHalf(k: nat, x: nat, bpp: nat)
    requires x == 2 * k
    ensures k * 2 * bpp == x * bpp
  {
  }

  /** The array is the bytes of the rows followed by zeros. */
  lemma PixelArrayFrame(q: Request)
    ensures |FrameBytes(q, q.pixelHeight)| <= OutputLength(q)
    ensures PixelArray(q) == FrameBytes(q, q.pixelHeight) + Zeros(OutputLength(q) - |FrameBytes(q, q.pixelHeight)|)
  {
    RowsFit(q, q.pixelHeight);
  }

  /** A slice inside the front part of a concatenation is a slice of that part. */
  lemma SliceOfFront(front: seq<byte>, back: seq<byte>, i: nat, j: nat)
    requires i <= j <= |front|
    ensures (front + back)[i..j] == front[i..j]
  {
  }

  lemma FourDividesOffset(a: nat, j: int)
    ensures (a * 4 + j) % 4 == j % 4
  {
  }

  /** Every fourth byte of an alpha-carrying run of pairs is 0xff. */
  lemma {:induction false} EmitAlphaOpaque(colours: seq<Rgb>)
    ensures forall j :: 0 <= j < |Emit(colours, false)| && j % 4 == 3 ==> Emit(colours, false)[j] == 255
  {
    if |colours| > 0 {
      var init := colours[..|colours| - 1];
      EmitAlphaOpaque(init);
      EmitLength(init, false);
      var offset := |Emit(init, false)|;
      assert offset == (|init| * 2) * 4;
      forall j | offset <= j < |Emit(colours, false)| && j % 4 == 3
        ensures Emit(colours, false)[j] == 255
      {
        FourDividesOffset(|init| * 2, j - offset);
      }
    }
  }

  /** The same for rows laid out one after another. */
  lemma {:induction false} LayoutAlphaOpaque(rows: seq<seq<Rgb>>)
    ensures forall j :: 0 <= j < |Layout(rows, false)| && j % 4 == 3 ==> Layout(rows, false)[j] == 255
  {
    if |rows| > 0 {
      var init := rows[..|rows| - 1];
      LayoutAlphaOpaque(init);
      EmitAlphaOpaque(rows[|rows| - 1]);
      var offset := |Layout(init, false)|;
      LayoutRunLengths(init);
      forall j | offset <= j < |Layout(rows, false)| && j % 4 == 3
        ensures Layout(rows, false)[j] == 255
      {
        FourDividesOffset(offset / 4, j - offset);
      }
    }
  }

  /** With alpha, every laid-out run is a whole number of four-byte pixels. */
  lemma {:induction false} LayoutRunLengths(rows: seq<seq<Rgb>>)
    ensures |Layout(rows, false)| % 4 == 0
  {
    if |rows| > 0 {
      LayoutRunLengths(rows[..|rows| - 1]);
      EmitLength(rows[|rows| - 1], false);
      FourDividesOffset(|Layout(rows[..|rows| - 1], false)| / 4, |rows[|rows| - 1]| * 2 * 4);
    }
  }

  /** Unless alpha is ignored, every stored pixel carries an opaque alpha byte. */
  lemma AlphaIsOpaque(q: Request)
    requires !q.ignoreAlpha
    ensures q.pixelHeight * RowLength(q) <= |PixelArray(q)|
    ensures forall j :: 0 <= j < q.pixelHeight * RowLength(q) && j % 4 == 3 ==> PixelArray(q)[j] == 255
  {
    FrameBytesLength(q, q.pixelHeight);
    LayoutAlphaOpaque(FrameColours(q, q.pixelHeight));
  }

  /**
   * The pairs fill `2 * (w / 2)` pixels per row, packed: for an odd width
   * the last `h` pixels of the array are never written and stay zero.
   */
  lemma UnwrittenTailIsZero(q: Request)
    ensures forall j: nat :: q.pixelHeight * RowLength(q) <= j < OutputLength(q) ==> PixelArray(q)[j] == 0
  {
    var frame := FrameBytes(q, q.pixelHeight);
    FrameBytesLength(q, q.pixelHeight);
    PixelArrayFrame(q);
    ZerosAfter(PixelArray(q), frame, OutputLength(q) - |frame|);
  }

  lemma ZerosAfter(s: seq<byte>, front: seq<byte>, n: nat)
    requires s == front + Zeros(n)
    ensures forall j :: |front| <= j < |s| ==> s[j] == 0
  {
  }

  /** The never-written tail holds `h` pixels when the width is odd, none otherwise. */
  lemma TailLength(q: Request)
    ensures OutputLength(q) - q.pixelHeight * RowLength(q)
            == q.pixelHeight * (q.pixelWidth % 2) * BytesPerPixel(q.ignoreAlpha)
  {
    var w := q.pixelWidth;
    SplitWidth(w / 2, w % 2, w, BytesPerPixel(q.ignoreAlpha), q.pixelHeight);
  }

  lemma SplitWidth(pairs: nat, odd: nat, w: nat, bpp: nat, h: nat)
    requires w == pairs * 2 + odd
    ensures w * bpp * h == h * (pairs * 2 * bpp) + h * odd * bpp
  {
    calc {
      w * bpp * h;
      (pairs * 2 + odd) * bpp * h;
      { assert (pairs * 2 + odd) * bpp == pairs * 2 * bpp + odd * bpp; }
      (pairs * 2 * bpp + odd * bpp) * h;
      h * (pairs * 2 * bpp) + h * odd * bpp;
    }
  }
}
