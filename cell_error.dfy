/** The cell error kernel: how far a 64-pixel cell is from a colour pair under a
    coverage mask, computed with the kernel's own 16-bit squares and 32-bit lanes. */
module CellError {
  import opened CellTypes

  /** Difference of one channel, selected colour minus pixel. Both bytes are
      zero-extended to 16 bits first, so the i16 subtraction never wraps. */
  function ChannelDiff(p: Pixel, s: Color, c: Channel): (d: int)
    ensures -255 <= d <= 255
  {
    s.Ch(c) as int - p.Ch(c) as int
  }

  /** The square of one channel difference as the kernel keeps it: the low 16 bits
      of the product, read back as a signed 16-bit lane by the pairwise widening add. */
  function WrappedSquare(d: int): (q: i16)
    requires -255 <= d <= 255
  {
    SquareAtMost(d, 255);
    WrapI16(Square(d))
  }

  /** What one pixel adds to a 32-bit lane after the shuffle-add: the wrapped squares
      of all four channels, alpha included. */
  function PixelTerm(p: Pixel, pair: ColorPair, w: u32): (t: int)
    ensures -0x2_0000 <= t < 0x2_0000
  {
    var s := Selected(pair, w);
    WrappedSquare(ChannelDiff(p, s, 0)) + WrappedSquare(ChannelDiff(p, s, 1))
    + WrappedSquare(ChannelDiff(p, s, 2)) + WrappedSquare(ChannelDiff(p, s, 3))
  }

  /** Sum of PixelTerm over a block; the kernel returns twice this value. */
  function ErrorSum(pixels: seq<Pixel>, pair: ColorPair, mask: seq<u32>): (e: int)
    requires |pixels| == |mask|
    ensures -0x2_0000 * |pixels| <= e <= 0x2_0000 * |pixels|
  {
    if |pixels| == 0 then 0
    else
      var n := |pixels| - 1;
      ErrorSum(pixels[..n], pair, mask[..n]) + PixelTerm(pixels[n], pair, mask[n])
  }

  /** Taking one more pixel adds its term to the sum. */
  lemma ErrorStep(pixels: seq<Pixel>, pair: ColorPair, mask: seq<u32>, i: nat)
    requires |pixels| == |mask| && i < |pixels|
    ensures ErrorSum(pixels[..i + 1], pair, mask[..i + 1])
         == ErrorSum(pixels[..i], pair, mask[..i]) + PixelTerm(pixels[i], pair, mask[i])
  {
    assert pixels[..i + 1][..i] == pixels[..i] && mask[..i + 1][..i] == mask[..i];
  }

  /** chafa_calc_cell_error_wasm_simd. Every pixel ends up in two of the four i32 lanes
      (the shuffle-add copies each pixel's total to both halves of its lane pair), and
      the final horizontal sum adds all four lanes, so each pixel counts twice. The
      32-bit lane additions are written with their wrap-around; the bound on ErrorSum
      shows they never wrap for a 64-pixel cell. */
  method CalcCellError(pixels: seq<Pixel>, pair: ColorPair, mask: seq<u32>) returns (err: int)
    requires |pixels| == SymbolPixels && |mask| == SymbolPixels
    ensures err == 2 * ErrorSum(pixels, pair, mask)
    ensures -0x8000_0000 <= err < 0x8000_0000
  {
    err := 0;
    var i := 0;
    while i < SymbolPixels
      invariant 0 <= i <= SymbolPixels
      invariant err == 2 * ErrorSum(pixels[..i], pair, mask[..i])
    {
      ErrorStep(pixels, pair, mask, i);
      err := WrapI32(err + 2 * PixelTerm(pixels[i], pair, mask[i]));
      i := i + 1;
    }
    assert pixels[..SymbolPixels] == pixels && mask[..SymbolPixels] == mask;
  }

  /** With selection masks, a cell whose every pixel equals its selected colour
      (foreground where the mask is set, background where it is clear) scores zero. */
  lemma {:induction false} ExactCellScoresZero(pixels: seq<Pixel>, pair: ColorPair, mask: seq<u32>)
    requires |pixels| == |mask|
    requires forall i :: 0 <= i < |mask| ==> IsSelectMask(mask[i])
    requires forall i :: 0 <= i < |pixels| ==> pixels[i] == if mask[i] == 0 then pair.bg else pair.fg
    ensures ErrorSum(pixels, pair, mask) == 0
  {
    if |pixels| > 0 {
      var n := |pixels| - 1;
      ExactCellScoresZero(pixels[..n], pair, mask[..n]);
      SelectedBySelectMask(pair, mask[n]);
    }
  }

  /** True squared differences of red, green and blue between a pixel and a colour. */
  function RgbSquares(p: Pixel, s: Color): (q: nat)
    ensures q == 0 <==> p.r == s.r && p.g == s.g && p.b == s.b
  {
    Square(ChannelDiff(p, s, 0)) + Square(ChannelDiff(p, s, 1)) + Square(ChannelDiff(p, s, 2))
  }

  /** True squared differences of all four channels between a pixel and a colour. */
  function PixelSquares(p: Pixel, s: Color): (q: nat)
    ensures q == 0 <==> p == s
  {
    RgbSquares(p, s) + Square(ChannelDiff(p, s, 3))
  }

  /** Sum over the block of the true (unwrapped) squared differences of all four
      channels. */
  function SquareSum(pixels: seq<Pixel>, pair: ColorPair, mask: seq<u32>): (e: int)
    requires |pixels| == |mask|
  {
    if |pixels| == 0 then 0
    else
      var n := |pixels| - 1;
      SquareSum(pixels[..n], pair, mask[..n]) + PixelSquares(pixels[n], Selected(pair, mask[n]))
  }

  /** Every channel difference of the cell lies within [-181, 181]. */
  ghost predicate SmallDiffs(pixels: seq<Pixel>, pair: ColorPair, mask: seq<u32>)
    requires |pixels| == |mask|
  {
    forall i, c: Channel :: 0 <= i < |pixels| ==>
      -181 <= ChannelDiff(pixels[i], Selected(pair, mask[i]), c) <= 181
  }

  /** A square below 2^15 survives the 16-bit wrap. */
  lemma SmallSquareUnwrapped(d: int)
    requires -181 <= d <= 181
    ensures WrappedSquare(d) == Square(d)
  {
    SquareAtMost(d, 181);
  }

  /** While every channel difference has magnitude at most 181 no square wraps, and the
      kernel's score is twice the sum of squared differences over all four channels. */
  lemma {:induction false} SmallDiffsScoreTrueSquares(pixels: seq<Pixel>, pair: ColorPair, mask: seq<u32>)
    requires |pixels| == |mask|
    requires SmallDiffs(pixels, pair, mask)
    ensures ErrorSum(pixels, pair, mask) == SquareSum(pixels, pair, mask)
  {
    if |pixels| > 0 {
      var n := |pixels| - 1;
      assert SmallDiffs(pixels[..n], pair, mask[..n]) by {
        forall i, c: Channel | 0 <= i < n
          ensures -181 <= ChannelDiff(pixels[..n][i], Selected(pair, mask[..n][i]), c) <= 181
        {
          assert pixels[..n][i] == pixels[i] && mask[..n][i] == mask[i];
        }
      }
      SmallDiffsScoreTrueSquares(pixels[..n], pair, mask[..n]);
      var s := Selected(pair, mask[n]);
      assert -181 <= ChannelDiff(pixels[n], s, 0) <= 181;
      assert -181 <= ChannelDiff(pixels[n], s, 1) <= 181;
      assert -181 <= ChannelDiff(pixels[n], s, 2) <= 181;
      assert -181 <= ChannelDiff(pixels[n], s, 3) <= 181;
      SmallSquareUnwrapped(ChannelDiff(pixels[n], s, 0));
      SmallSquareUnwrapped(ChannelDiff(pixels[n], s, 1));
      SmallSquareUnwrapped(ChannelDiff(pixels[n], s, 2));
      SmallSquareUnwrapped(ChannelDiff(pixels[n], s, 3));
    }
  }

  /** The score the cell error is meant to be: squared differences of red, green and
      blue only, without wrap-around and counted once per pixel. */
  function RgbError(pixels: seq<Pixel>, pair: ColorPair, mask: seq<u32>): (e: int)
    requires |pixels| == |mask|
    ensures e >= 0
  {
    if |pixels| == 0 then 0
    else
      var n := |pixels| - 1;
      RgbError(pixels[..n], pair, mask[..n]) + RgbSquares(pixels[n], Selected(pair, mask[n]))
  }

  /** Every pixel agrees with its selected colour on red, green and blue. */
  ghost predicate RgbMatches(pixels: seq<Pixel>, pair: ColorPair, mask: seq<u32>)
    requires |pixels| == |mask|
  {
    forall i :: 0 <= i < |pixels| ==>
      var s := Selected(pair, mask[i]);
      pixels[i].r == s.r && pixels[i].g == s.g && pixels[i].b == s.b
  }

  /** The intended score is zero exactly when every pixel matches its selected colour
      on red, green and blue. */
  lemma {:induction false} RgbErrorZeroIff(pixels: seq<Pixel>, pair: ColorPair, mask: seq<u32>)
    requires |pixels| == |mask|
    ensures RgbError(pixels, pair, mask) == 0 <==> RgbMatches(pixels, pair, mask)
  {
    if |pixels| > 0 {
      var n := |pixels| - 1;
      RgbErrorZeroIff(pixels[..n], pair, mask[..n]);
      assert forall i :: 0 <= i < n ==> pixels[..n][i] == pixels[i] && mask[..n][i] == mask[i];
      var last := RgbSquares(pixels[n], Selected(pair, mask[n]));
      assert RgbError(pixels, pair, mask) == RgbError(pixels[..n], pair, mask[..n]) + last;
      if RgbError(pixels, pair, mask) == 0 {
        assert RgbMatches(pixels[..n], pair, mask[..n]) && last == 0;
      }
    }
  }

  /** Where no square wraps and every pixel's alpha equals its selected alpha, the
      kernel's score is exactly twice the intended RGB score, so both rank candidates
      alike. */
  lemma {:induction false} ScoreIsTwiceRgbError(pixels: seq<Pixel>, pair: ColorPair, mask: seq<u32>)
    requires |pixels| == |mask|
    requires SmallDiffs(pixels, pair, mask)
    requires forall i :: 0 <= i < |pixels| ==> pixels[i].a == Selected(pair, mask[i]).a
    ensures ErrorSum(pixels, pair, mask) == RgbError(pixels, pair, mask)
  {
    SmallDiffsScoreTrueSquares(pixels, pair, mask);
    AlphaFreeSquareSum(pixels, pair, mask);
  }

  /** With matching alpha the four-channel square sum is the RGB one. */
  lemma {:induction false} AlphaFreeSquareSum(pixels: seq<Pixel>, pair: ColorPair, mask: seq<u32>)
    requires |pixels| == |mask|
    requires forall i :: 0 <= i < |pixels| ==> pixels[i].a == Selected(pair, mask[i]).a
    ensures SquareSum(pixels, pair, mask) == RgbError(pixels, pair, mask)
  {
    if |pixels| > 0 {
      var n := |pixels| - 1;
      assert forall i :: 0 <= i < n ==> pixels[..n][i] == pixels[i] && mask[..n][i] == mask[i];
      AlphaFreeSquareSum(pixels[..n], pair, mask[..n]);
    }
  }

  /** The score of a cell whose pixels and mask words are all the same. */
  lemma {:induction false} UniformCellError(p: Pixel, pair: ColorPair, w: u32, n: nat)
    ensures ErrorSum(seq(n, _ => p), pair, seq(n, _ => w)) == n * PixelTerm(p, pair, w)
  {
    if n > 0 {
      assert seq(n, _ => p)[..n - 1] == seq(n - 1, _ => p);
      assert seq(n, _ => w)[..n - 1] == seq(n - 1, _ => w);
      UniformCellError(p, pair, w, n - 1);
      var t := PixelTerm(p, pair, w);
      assert (n - 1) * t + t == n * t;
    }
  }

  /** The intended score of a cell whose pixels and mask words are all the same. */
  lemma {:induction false} UniformRgbError(p: Pixel, pair: ColorPair, w: u32, n: nat)
    ensures RgbError(seq(n, _ => p), pair, seq(n, _ => w)) == n * RgbSquares(p, Selected(pair, w))
  {
    if n > 0 {
      assert seq(n, _ => p)[..n - 1] == seq(n - 1, _ => p);
      assert seq(n, _ => w)[..n - 1] == seq(n - 1, _ => w);
      UniformRgbError(p, pair, w, n - 1);
      var t := RgbSquares(p, Selected(pair, w));
      assert (n - 1) * t + t == n * t;
    }
  }

  /** A channel that goes from 0 in the pixel to 255 in the colour squares to 65025,
      which wraps to -511 in 16 bits. */
  lemma FullDiffWraps(p: Pixel, s: Color, c: Channel)
    requires p.Ch(c) == 0 && s.Ch(c) == 255
    ensures Square(ChannelDiff(p, s, c)) == 65025 && WrappedSquare(ChannelDiff(p, s, c)) == -511
  {
    var d := ChannelDiff(p, s, c);
    assert d == 255;
  }

  /** One black pixel against a white selected colour: each channel's 65025 wraps to
      -511 in 16 bits. */
  lemma BlackAgainstWhite(black: Pixel, white: Color, w: u32)
    requires black == Color(0, 0, 0, 0) && white == Color(255, 255, 255, 255) && w == 0xFFFF_FFFF
    ensures PixelTerm(black, ColorPair(white, black), w) == -2044
  {
    SelectedBySelectMask(ColorPair(white, black), w);
    FullDiffWraps(black, white, 0);
    FullDiffWraps(black, white, 1);
    FullDiffWraps(black, white, 2);
    FullDiffWraps(black, white, 3);
  }

  /** The same pixel and colour differ by 3 * 65025 in true squares. */
  lemma BlackAgainstWhiteRgb(black: Pixel, white: Color, w: u32)
    requires black == Color(0, 0, 0, 0) && white == Color(255, 255, 255, 255) && w == 0xFFFF_FFFF
    ensures RgbSquares(black, Selected(ColorPair(white, black), w)) == 3 * 65025
  {
    SelectedBySelectMask(ColorPair(white, black), w);
    FullDiffWraps(black, white, 0);
    FullDiffWraps(black, white, 1);
    FullDiffWraps(black, white, 2);
  }

  /** A cell of black pixels scored against an all-set mask and a white foreground
      differs by 255 in every channel, yet each 65025 square wraps to -511 and the
      kernel returns -261632, below the 0 an exact match scores; the intended RGB
      score is 64 * 3 * 65025. */
  lemma WrappedSquareCounterexample(black: Pixel, white: Color, w: u32, n: nat)
    requires black == Color(0, 0, 0, 0) && white == Color(255, 255, 255, 255) && w == 0xFFFF_FFFF
    requires n == SymbolPixels
    ensures 2 * ErrorSum(seq(n, _ => black), ColorPair(white, black), seq(n, _ => w)) == -261632
    ensures RgbError(seq(n, _ => black), ColorPair(white, black), seq(n, _ => w)) == 64 * 3 * 65025
  {
    BlackAgainstWhite(black, white, w);
    BlackAgainstWhiteRgb(black, white, w);
    UniformCellError(black, ColorPair(white, black), w, n);
    UniformRgbError(black, ColorPair(white, black), w, n);
  }

  /** One pixel equal to the colour in red, green and blue, with alpha one lower. */
  lemma AlphaOffByOne(p: Pixel, fg: Color, w: u32)
    requires fg == Color(10, 20, 30, 255) && p == Color(10, 20, 30, 254) && w == 0xFFFF_FFFF
    ensures PixelTerm(p, ColorPair(fg, fg), w) == 1
    ensures RgbSquares(p, Selected(ColorPair(fg, fg), w)) == 0
  {
    SelectedBySelectMask(ColorPair(fg, fg), w);
    assert ChannelDiff(p, fg, 0) == 0 && ChannelDiff(p, fg, 1) == 0 && ChannelDiff(p, fg, 2) == 0;
    assert ChannelDiff(p, fg, 3) == 1;
  }

  /** A cell that matches the foreground exactly in red, green and blue but whose alpha
      is one lower scores 128 (1 per pixel, counted twice), where the intended RGB
      score is 0. */
  lemma AlphaCounterexample(p: Pixel, fg: Color, w: u32, n: nat)
    requires fg == Color(10, 20, 30, 255) && p == Color(10, 20, 30, 254) && w == 0xFFFF_FFFF
    requires n == SymbolPixels
    ensures 2 * ErrorSum(seq(n, _ => p), ColorPair(fg, fg), seq(n, _ => w)) == 128
    ensures RgbError(seq(n, _ => p), ColorPair(fg, fg), seq(n, _ => w)) == 0
  {
    AlphaOffByOne(p, fg, w);
    UniformCellError(p, ColorPair(fg, fg), w, n);
    UniformRgbError(p, ColorPair(fg, fg), w, n);
  }
}
