/// Thresholding a grayscale buffer into packed, horizontally mirrored raster rows.
module Utils {
  import opened Lib

  /** The byte with only bit `i` set (bit 0 is the least significant). */
  function Mask(i: nat): bv8
    requires i < 8
  {
    match i
    case 0 => 0x01 case 1 => 0x02 case 2 => 0x04 case 3 => 0x08
    case 4 => 0x10 case 5 => 0x20 case 6 => 0x40 case _ => 0x80
  }

  /** Bit `i` of byte `b`. */
  predicate Bit(b: bv8, i: nat)
    requires i < 8
  {
    b & Mask(i) != 0
  }

  lemma ShiftIsMask(d: bv8, n: nat)
    requires d <= 1 && n < 8
    ensures d << n == if d == 1 then Mask(n) else 0
  {
  }

  lemma OrMaskSameBit(a: bv8, n: nat)
    requires n < 8
    ensures Bit(a | Mask(n), n)
  {
  }

  lemma OrMaskOtherBit(a: bv8, n: nat, i: nat)
    requires i < 8 && n < 8 && i != n
    ensures Bit(a | Mask(n), i) == Bit(a, i)
  {
    if n == 0 {} else if n == 1 {} else if n == 2 {} else if n == 3 {}
    else if n == 4 {} else if n == 5 {} else if n == 6 {} else {}
  }

  /** A pixel prints (bit 1) when it is at most the threshold, i.e. dark enough. */
  function Dark(pixel: bv8, threshold: bv8): bv8
  {
    if pixel > threshold then 0 else 1
  }

  /** What pixel `n` of a group contributes to the packed byte: bit `n` when it is dark. */
  function Contribution(pixel: bv8, threshold: bv8, n: nat): bv8
    requires n < 8
  {
    if pixel > threshold then 0 else Mask(n)
  }

  /** The driver's `value << i` is the pixel's contribution. */
  lemma ShiftedDark(pixel: bv8, threshold: bv8, n: nat)
    requires n < 8
    ensures Dark(pixel, threshold) << n == Contribution(pixel, threshold, n)
  {
    ShiftIsMask(Dark(pixel, threshold), n);
  }

  /** OR-ing in the contribution of pixel `n` sets bit `n` exactly for a dark pixel, when it was clear. */
  lemma OrContributionSameBit(a: bv8, pixel: bv8, threshold: bv8, n: nat)
    requires n < 8 && !Bit(a, n)
    ensures Bit(a | Contribution(pixel, threshold, n), n) == (pixel <= threshold)
  {
    if pixel > threshold {
      assert a | 0 == a;
    } else {
      OrMaskSameBit(a, n);
    }
  }

  /** OR-ing in the contribution of pixel `n` keeps every other bit. */
  lemma OrContributionOtherBit(a: bv8, pixel: bv8, threshold: bv8, n: nat, i: nat)
    requires n < 8 && i < 8 && i != n
    ensures Bit(a | Contribution(pixel, threshold, n), i) == Bit(a, i)
  {
    if pixel > threshold {
      assert a | 0 == a;
    } else {
      OrMaskOtherBit(a, n, i);
    }
  }

  /** Packs up to eight pixels, pixel `i` into bit `i`, as the driver's inner loop does. */
  function PackPixels(pixels: seq<bv8>, threshold: bv8): bv8
    requires |pixels| <= 8
    decreases |pixels|
  {
    if pixels == [] then 0
    else
      var n := |pixels| - 1;
      PackPixels(pixels[..n], threshold) | Contribution(pixels[n], threshold, n)
  }

  /** One step of the driver's inner loop: OR-ing `value << n` onto the packing of
      the first `n` pixels of a group gives the packing of the first `n + 1`. */
  lemma PackPixelsSnoc(bytes: seq<bv8>, threshold: bv8, index: nat, n: nat, low: bv8)
    requires index + n < |bytes| && n < 8
    requires low == PackPixels(bytes[index..index + n], threshold)
    ensures low | (Dark(bytes[index + n], threshold) << n) == PackPixels(bytes[index..index + n + 1], threshold)
  {
    ShiftedDark(bytes[index + n], threshold, n);
    PackPixelsExtend(bytes, threshold, index, n);
  }

  lemma PackPixelsExtend(bytes: seq<bv8>, threshold: bv8, index: nat, n: nat)
    requires index + n < |bytes| && n < 8
    ensures PackPixels(bytes[index..index + n + 1], threshold)
         == PackPixels(bytes[index..index + n], threshold) | Contribution(bytes[index + n], threshold, n)
  {
    var pixels := bytes[index..index + n + 1];
    assert pixels[..n] == bytes[index..index + n];
  }

  /** Bits above the packed pixels are clear. */
  lemma {:induction false} PackPixelsHighClear(pixels: seq<bv8>, threshold: bv8, i: nat)
    requires |pixels| <= i < 8
    ensures !Bit(PackPixels(pixels, threshold), i)
    decreases |pixels|
  {
    if pixels != [] {
      var n := |pixels| - 1;
      PackPixelsHighClear(pixels[..n], threshold, i);
      OrContributionOtherBit(PackPixels(pixels[..n], threshold), pixels[n], threshold, n, i);
    }
  }

  /** The last pixel packed decides the top bit of the group. */
  lemma PackPixelsTopBit(pixels: seq<bv8>, threshold: bv8)
    requires 0 < |pixels| <= 8
    ensures Bit(PackPixels(pixels, threshold), |pixels| - 1) == (pixels[|pixels| - 1] <= threshold)
  {
    var n := |pixels| - 1;
    PackPixelsHighClear(pixels[..n], threshold, n);
    OrContributionSameBit(PackPixels(pixels[..n], threshold), pixels[n], threshold, n);
  }

  /** Packing one more pixel leaves the lower bits as they were. */
  lemma PackPixelsLowBit(pixels: seq<bv8>, threshold: bv8, i: nat)
    requires i + 1 < |pixels| <= 8
    ensures Bit(PackPixels(pixels, threshold), i) == Bit(PackPixels(pixels[..|pixels| - 1], threshold), i)
  {
    var n := |pixels| - 1;
    OrContributionOtherBit(PackPixels(pixels[..n], threshold), pixels[n], threshold, n, i);
  }

  /** Bit `i` of a packed byte is set exactly when pixel `i` is dark. */
  lemma {:induction false} PackPixelsBit(pixels: seq<bv8>, threshold: bv8, i: nat)
    requires i < |pixels| <= 8
    ensures Bit(PackPixels(pixels, threshold), i) <==> pixels[i] <= threshold
    decreases |pixels|
  {
    var n := |pixels| - 1;
    if i < n {
      PackPixelsLowBit(pixels, threshold, i);
      PackPixelsBit(pixels[..n], threshold, i);
      assert pixels[..n][i] == pixels[i];
    } else {
      PackPixelsTopBit(pixels, threshold);
    }
  }

  /** First source index of byte `x` of row `y`: bytes run right to left. */
  function SourceIndex(width: nat, y: nat, x: nat): int
  {
    (1 + y) * width - (1 + x) * 8
  }

  /** The eight source pixels of byte `x` in row `y` lie inside row `y`. */
  lemma SourceIndexInRow(width: nat, y: nat, x: nat)
    requires x < width / 8
    ensures y * width <= SourceIndex(width, y, x)
    ensures SourceIndex(width, y, x) + 8 <= (y + 1) * width
  {
    assert (x + 1) * 8 <= width;
  }

  lemma RowsInBuffer(width: nat, length: nat, y: nat)
    requires y < length
    ensures (y + 1) * width <= length * width
  {
  }

  /** Reference definition of the filter: `length` rows of `width / 8` bytes. */
  function Filtered(threshold: bv8, width: nat, length: nat, bytes: seq<bv8>): (m: Matrix)
    requires |bytes| >= length * width
    ensures |m| == length
    ensures forall y :: 0 <= y < length ==> |m[y]| == width / 8
  {
    seq(length, y requires 0 <= y < length =>
      seq(width / 8, x requires 0 <= x < width / 8 =>
        SourceIndexInRow(width, y, x);
        RowsInBuffer(width, length, y);
        var index := SourceIndex(width, y, x);
        PackPixels(bytes[index..index + 8], threshold)))
  }

  /** Bit `i` of byte `x` in row `y` is set exactly when its source pixel is dark. */
  lemma FilteredBit(threshold: bv8, width: nat, length: nat, bytes: seq<bv8>, y: nat, x: nat, i: nat)
    requires |bytes| >= length * width
    requires y < length && x < width / 8 && i < 8
    ensures SourceIndex(width, y, x) >= 0
    ensures SourceIndex(width, y, x) + i < |bytes|
    ensures Bit(Filtered(threshold, width, length, bytes)[y][x], i)
        <==> bytes[SourceIndex(width, y, x) + i] <= threshold
  {
    SourceIndexInRow(width, y, x);
    RowsInBuffer(width, length, y);
    var index := SourceIndex(width, y, x);
    var px := bytes[index..index + 8];
    assert Filtered(threshold, width, length, bytes)[y][x] == PackPixels(px, threshold);
    PackPixelsBit(px, threshold, i);
    assert px[i] == bytes[index + i];
  }

  /** Rows are mirrored: byte `x` holds the pixels of columns
      `width - 8(x+1)` up to `width - 8x` of its row, so byte 0 holds the last eight. */
  lemma FilteredMirrored(threshold: bv8, width: nat, length: nat, bytes: seq<bv8>, y: nat, x: nat)
    requires |bytes| >= length * width
    requires y < length && x < width / 8
    ensures y * width <= y * width + width - 8 * (x + 1)
    ensures y * width + width - 8 * x <= |bytes|
    ensures Filtered(threshold, width, length, bytes)[y][x]
         == PackPixels(bytes[y * width + width - 8 * (x + 1) .. y * width + width - 8 * x], threshold)
  {
    SourceIndexInRow(width, y, x);
    RowsInBuffer(width, length, y);
    assert SourceIndex(width, y, x) == y * width + width - 8 * (x + 1);
  }

  /** Raising the threshold never clears a printed dot. */
  lemma FilteredMonotone(t1: bv8, t2: bv8, width: nat, length: nat, bytes: seq<bv8>, y: nat, x: nat, i: nat)
    requires t1 <= t2
    requires |bytes| >= length * width
    requires y < length && x < width / 8 && i < 8
    ensures Bit(Filtered(t1, width, length, bytes)[y][x], i)
        ==> Bit(Filtered(t2, width, length, bytes)[y][x], i)
  {
    FilteredBit(t1, width, length, bytes, y, x, i);
    FilteredBit(t2, width, length, bytes, y, x, i);
  }

  /** Inner loop of the filter: packs the eight pixels starting at `index`. */
  method PackByte(threshold: bv8, bytes: seq<bv8>, index: nat) returns (tmp: bv8)
    requires index + 8 <= |bytes|
    ensures tmp == PackPixels(bytes[index..index + 8], threshold)
  {
    tmp := 0x00;
    for i := 0 to 8
      invariant tmp == PackPixels(bytes[index..index + i], threshold)
    {
      var value := Dark(bytes[index + i], threshold);
      PackPixelsSnoc(bytes, threshold, index, i, tmp);
      tmp := tmp | (value << i);
    }
  }

  /** Middle loop of the filter: the `width / 8` bytes of row `y`. */
  method FilterRow(threshold: bv8, width: nat, length: nat, bytes: seq<bv8>, y: nat) returns (buf: seq<bv8>)
    requires |bytes| >= length * width && y < length
    ensures buf == Filtered(threshold, width, length, bytes)[y]
  {
    buf := [];
    for x := 0 to width / 8
      invariant |buf| == x
      invariant forall k :: 0 <= k < x ==> buf[k] == Filtered(threshold, width, length, bytes)[y][k]
    {
      SourceIndexInRow(width, y, x);
      RowsInBuffer(width, length, y);
      var tmp := PackByte(threshold, bytes, SourceIndex(width, y, x));
      buf := buf + [tmp];
    }
  }

  /** Thresholds a `width` x `length` grayscale buffer into packed raster rows. */
  method StepFilter(threshold: bv8, width: nat, length: nat, bytes: seq<bv8>) returns (bw: Matrix)
    requires |bytes| >= length * width
    ensures bw == Filtered(threshold, width, length, bytes)
  {
    bw := [];
    for y := 0 to length
      invariant |bw| == y
      invariant forall k :: 0 <= k < y ==> bw[k] == Filtered(threshold, width, length, bytes)[k]
    {
      var buf := FilterRow(threshold, width, length, bytes, y);
      bw := bw + [buf];
    }
  }

  /** The filter for a normal (720 pin) head: rows of 90 bytes. */
  method StepFilterNormal(threshold: bv8, length: nat, bytes: seq<bv8>) returns (bw: Matrix)
    requires |bytes| >= length * NormalPrinterWidth
    ensures |bw| == length && forall y :: 0 <= y < length ==> |bw[y]| == 90
    ensures bw == Filtered(threshold, NormalPrinterWidth, length, bytes)
  {
    bw := StepFilter(threshold, NormalPrinterWidth, length, bytes);
  }

  /** The filter for a wide (1296 pin) head: rows of 162 bytes. */
  method StepFilterWide(threshold: bv8, length: nat, bytes: seq<bv8>) returns (bw: Matrix)
    requires |bytes| >= length * WidePrinterWidth
    ensures |bw| == length && forall y :: 0 <= y < length ==> |bw[y]| == 162
    ensures bw == Filtered(threshold, WidePrinterWidth, length, bytes)
  {
    bw := StepFilter(threshold, WidePrinterWidth, length, bytes);
  }

  /** The 16 x 16 test image: even columns white (255), odd columns black (0). */
  function StripedImage(): (img: seq<bv8>)
    ensures |img| == 256
  {
    seq(256, k requires 0 <= k < 256 => if (k % 16) % 2 == 0 then 255 else 0)
  }

  /** Two bytes with the same eight bits are equal. */
  lemma BitsDetermineByte(a: bv8, b: bv8)
    requires forall i :: 0 <= i < 8 ==> (Bit(a, i) <==> Bit(b, i))
    ensures a == b
  {
    assert Bit(a, 0) == Bit(b, 0) && Bit(a, 1) == Bit(b, 1);
    assert Bit(a, 2) == Bit(b, 2) && Bit(a, 3) == Bit(b, 3);
    assert Bit(a, 4) == Bit(b, 4) && Bit(a, 5) == Bit(b, 5);
    assert Bit(a, 6) == Bit(b, 6) && Bit(a, 7) == Bit(b, 7);
  }

  /** With threshold 127 every byte of the striped image packs to 0b1010_1010. */
  lemma StripedByte(y: nat, x: nat)
    requires y < 16 && x < 2
    ensures Filtered(127, 16, 16, StripedImage())[y][x] == 170
  {
    var b := Filtered(127, 16, 16, StripedImage())[y][x];
    forall i | 0 <= i < 8
      ensures Bit(b, i) <==> Bit(170, i)
    {
      FilteredBit(127, 16, 16, StripedImage(), y, x, i);
      var k := SourceIndex(16, y, x) + i;
      assert k % 16 == 8 * (1 - x) + i;
      assert Bit(170, i) <==> i % 2 == 1 by {
        assert !Bit(170, 0) && Bit(170, 1) && !Bit(170, 2) && Bit(170, 3);
        assert !Bit(170, 4) && Bit(170, 5) && !Bit(170, 6) && Bit(170, 7);
      }
    }
    BitsDetermineByte(b, 170);
  }

  /** The test vector: 16 rows of `[170, 170]`. */
  lemma StripedImageFiltered()
    ensures Filtered(127, 16, 16, StripedImage()) == seq(16, y => [170, 170])
  {
    var m := Filtered(127, 16, 16, StripedImage());
    forall y | 0 <= y < 16
      ensures m[y] == [170, 170]
    {
      StripedByte(y, 0);
      StripedByte(y, 1);
    }
  }
}
