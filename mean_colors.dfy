/** The mean-colour extraction kernel: split each pixel of a cell with its mask word
    and sum the two halves channel by channel into two colour accumulators. */
module MeanColors {
  import opened CellTypes

  /** Channel c of a pixel ANDed with its mask byte: what the pixel adds to the
      foreground (index 1) accumulator. */
  function FgPart(p: Pixel, w: u32, c: Channel): (v: byte)
    ensures v <= p.Ch(c)
  {
    PartsPartition(p, w, c);
    BitSelect(p.Ch(c), 0, MaskByte(w, c))
  }

  /** Channel c of a pixel ANDed with the complement of its mask byte: what the pixel
      adds to the background (index 0) accumulator. */
  function BgPart(p: Pixel, w: u32, c: Channel): (v: byte)
    ensures v <= p.Ch(c)
  {
    PartsPartition(p, w, c);
    BitSelect(0, p.Ch(c), MaskByte(w, c))
  }

  /** Foreground and background parts of a channel add up to the channel. */
  lemma PartsPartition(p: Pixel, w: u32, c: Channel)
    ensures SelectBits(p.Ch(c), 0, MaskByte(w, c), 8) + SelectBits(0, p.Ch(c), MaskByte(w, c), 8) == p.Ch(c)
  {
    SelectBitsSplit(p.Ch(c), MaskByte(w, c), 8);
    LowBitsOfSmall(p.Ch(c), 8);
  }

  /** With a selection mask word, the pixel goes wholly to one side. */
  lemma PartsOfSelectMask(p: Pixel, w: u32, c: Channel)
    requires IsSelectMask(w)
    ensures FgPart(p, w, c) == if w == 0 then 0 else p.Ch(c)
    ensures BgPart(p, w, c) == if w == 0 then p.Ch(c) else 0
  {
    BitSelectBySelectMask(p.Ch(c), 0, w, c);
    BitSelectBySelectMask(0, p.Ch(c), w, c);
  }

  /** Sum of channel c over the whole block. */
  function ChannelSum(pixels: seq<Pixel>, c: Channel): int
  {
    if |pixels| == 0 then 0
    else
      var n := |pixels| - 1;
      ChannelSum(pixels[..n], c) + pixels[n].Ch(c)
  }

  /** Sum of channel c over the pixels whose mask word is set (inFg) or clear (!inFg). */
  function GroupSum(pixels: seq<Pixel>, mask: seq<u32>, c: Channel, inFg: bool): int
    requires |pixels| == |mask|
  {
    if |pixels| == 0 then 0
    else
      var n := |pixels| - 1;
      GroupSum(pixels[..n], mask[..n], c, inFg) + (if (mask[n] != 0) == inFg then pixels[n].Ch(c) else 0)
  }

  /** The foreground parts of one pixel, one lane per channel. */
  function FgParts(p: Pixel, w: u32): (v: seq<int>)
    ensures |v| == 4 && forall c :: 0 <= c < 4 ==> v[c] == FgPart(p, w, c)
  {
    [FgPart(p, w, 0), FgPart(p, w, 1), FgPart(p, w, 2), FgPart(p, w, 3)]
  }

  /** The background parts of one pixel, one lane per channel. */
  function BgParts(p: Pixel, w: u32): (v: seq<int>)
    ensures |v| == 4 && forall c :: 0 <= c < 4 ==> v[c] == BgPart(p, w, c)
  {
    [BgPart(p, w, 0), BgPart(p, w, 1), BgPart(p, w, 2), BgPart(p, w, 3)]
  }

  /** Lane-wise addition of two four-lane vectors (wasm_i32x4_add; the sums here stay
      far below 2^31, so no lane wraps). */
  function LaneAdd(x: seq<int>, y: seq<int>): (r: seq<int>)
    requires |x| == 4 && |y| == 4
    ensures |r| == 4 && forall c :: 0 <= c < 4 ==> r[c] == x[c] + y[c]
  {
    [x[0] + y[0], x[1] + y[1], x[2] + y[2], x[3] + y[3]]
  }

  /** Foreground sum of channel c: the masked bits of every pixel. */
  function FgSum(pixels: seq<Pixel>, mask: seq<u32>, c: Channel): (s: int)
    requires |pixels| == |mask|
    ensures 0 <= s <= 255 * |pixels|
  {
    if |pixels| == 0 then 0
    else
      var n := |pixels| - 1;
      FgSum(pixels[..n], mask[..n], c) + FgPart(pixels[n], mask[n], c)
  }

  /** Background sum of channel c: the unmasked bits of every pixel. */
  function BgSum(pixels: seq<Pixel>, mask: seq<u32>, c: Channel): (s: int)
    requires |pixels| == |mask|
    ensures 0 <= s <= 255 * |pixels|
  {
    if |pixels| == 0 then 0
    else
      var n := |pixels| - 1;
      BgSum(pixels[..n], mask[..n], c) + BgPart(pixels[n], mask[n], c)
  }

  /** Taking one more pixel adds its parts to both sums of channel c. */
  lemma SumsStep(pixels: seq<Pixel>, mask: seq<u32>, i: nat, c: Channel)
    requires |pixels| == |mask| && i < |pixels|
    ensures FgSum(pixels[..i + 1], mask[..i + 1], c) == FgSum(pixels[..i], mask[..i], c) + FgPart(pixels[i], mask[i], c)
    ensures BgSum(pixels[..i + 1], mask[..i + 1], c) == BgSum(pixels[..i], mask[..i], c) + BgPart(pixels[i], mask[i], c)
  {
    assert pixels[..i + 1][..i] == pixels[..i] && mask[..i + 1][..i] == mask[..i];
  }

  /** Adding the parts of pixel i to lanes that hold the sums of the first i pixels gives
      lanes that hold the sums of the first i + 1. */
  lemma AccumStep(pixels: seq<Pixel>, mask: seq<u32>, i: nat, fg: seq<int>, bg: seq<int>)
    requires |pixels| == |mask| && i < |pixels|
    requires |fg| == 4 && forall c :: 0 <= c < 4 ==> fg[c] == FgSum(pixels[..i], mask[..i], c)
    requires |bg| == 4 && forall c :: 0 <= c < 4 ==> bg[c] == BgSum(pixels[..i], mask[..i], c)
    ensures forall c :: 0 <= c < 4 ==> LaneAdd(fg, FgParts(pixels[i], mask[i]))[c] == FgSum(pixels[..i + 1], mask[..i + 1], c)
    ensures forall c :: 0 <= c < 4 ==> LaneAdd(bg, BgParts(pixels[i], mask[i]))[c] == BgSum(pixels[..i + 1], mask[..i + 1], c)
  {
    forall c | 0 <= c < 4 {
      SumsStep(pixels, mask, i, c);
    }
  }

  /** chafa_extract_cell_mean_colors_wasm_simd: accumulate both halves of every pixel
      in 32-bit lanes, one lane per channel, then store the background sums in
      accumsOut[0] and the foreground sums in accumsOut[1]. The lanes never exceed
      64 * 255, so neither the 32-bit adds nor the 16-bit stores lose bits. */
  method ExtractCellMeanColors(pixels: seq<Pixel>, accumsOut: array<ColorAccum>, mask: seq<u32>)
    requires |pixels| == SymbolPixels && |mask| == SymbolPixels
    requires accumsOut.Length >= 2
    requires accumsOut[0].Valid() && accumsOut[1].Valid()
    requires accumsOut[0].ch != accumsOut[1].ch
    modifies accumsOut[0].ch, accumsOut[1].ch
    ensures forall c: Channel :: accumsOut[0].ch[c] == BgSum(pixels, mask, c)
    ensures forall c: Channel :: accumsOut[1].ch[c] == FgSum(pixels, mask, c)
  {
    var accumFg, accumBg := AccumulateCell(pixels, mask);
    var bgOut, fgOut := accumsOut[0].ch, accumsOut[1].ch;
    forall c | 0 <= c < 4 {
      bgOut[c] := accumBg[c];
    }
    forall c | 0 <= c < 4 {
      fgOut[c] := accumFg[c];
    }
  }

  /** The loop of chafa_extract_cell_mean_colors_wasm_simd: the two vector accumulators,
      lane c holding the foreground (accumFg) or background (accumBg) sum of channel c. */
  method AccumulateCell(pixels: seq<Pixel>, mask: seq<u32>) returns (accumFg: seq<int>, accumBg: seq<int>)
    requires |pixels| == SymbolPixels && |mask| == SymbolPixels
    ensures |accumFg| == 4 && forall c :: 0 <= c < 4 ==> accumFg[c] == FgSum(pixels, mask, c)
    ensures |accumBg| == 4 && forall c :: 0 <= c < 4 ==> accumBg[c] == BgSum(pixels, mask, c)
  {
    accumFg := [0, 0, 0, 0];
    accumBg := [0, 0, 0, 0];
    var i := 0;
    while i < SymbolPixels
      invariant 0 <= i <= SymbolPixels
      invariant |accumFg| == 4 && forall c :: 0 <= c < 4 ==> accumFg[c] == FgSum(pixels[..i], mask[..i], c)
      invariant |accumBg| == 4 && forall c :: 0 <= c < 4 ==> accumBg[c] == BgSum(pixels[..i], mask[..i], c)
    {
      AccumStep(pixels, mask, i, accumFg, accumBg);
      accumFg := LaneAdd(accumFg, FgParts(pixels[i], mask[i]));
      accumBg := LaneAdd(accumBg, BgParts(pixels[i], mask[i]));
      i := i + 1;
    }
    assert pixels[..SymbolPixels] == pixels && mask[..SymbolPixels] == mask;
  }

  /** For any mask words the two accumulators together hold the whole cell: the
      background and foreground sums of each channel add up to that channel's total. */
  lemma {:induction false} ExtractPartition(pixels: seq<Pixel>, mask: seq<u32>, c: Channel)
    requires |pixels| == |mask|
    ensures BgSum(pixels, mask, c) + FgSum(pixels, mask, c) == ChannelSum(pixels, c)
  {
    if |pixels| > 0 {
      var n := |pixels| - 1;
      ExtractPartition(pixels[..n], mask[..n], c);
      PartsPartition(pixels[n], mask[n], c);
    }
  }

  /** With selection mask words the foreground accumulator sums exactly the pixels whose
      word is set and the background accumulator exactly those whose word is clear. */
  lemma {:induction false} ExtractSelectsGroups(pixels: seq<Pixel>, mask: seq<u32>, c: Channel)
    requires |pixels| == |mask|
    requires forall i :: 0 <= i < |mask| ==> IsSelectMask(mask[i])
    ensures FgSum(pixels, mask, c) == GroupSum(pixels, mask, c, true)
    ensures BgSum(pixels, mask, c) == GroupSum(pixels, mask, c, false)
  {
    if |pixels| > 0 {
      var n := |pixels| - 1;
      assert forall i :: 0 <= i < n ==> mask[..n][i] == mask[i];
      ExtractSelectsGroups(pixels[..n], mask[..n], c);
      PartsOfSelectMask(pixels[n], mask[n], c);
    }
  }

  /** A cell of 64 copies of one pixel under an all-set mask puts 64 times each of its
      channels in the foreground accumulator and nothing in the background one. */
  lemma {:induction false} UniformCellSums(p: Pixel, n: nat, c: Channel)
    ensures FgSum(seq(n, _ => p), seq(n, _ => 0xFFFF_FFFF), c) == n * p.Ch(c)
    ensures BgSum(seq(n, _ => p), seq(n, _ => 0xFFFF_FFFF), c) == 0
  {
    if n > 0 {
      assert seq(n, _ => p)[..n - 1] == seq(n - 1, _ => p);
      assert seq(n, _ => 0xFFFF_FFFF as u32)[..n - 1] == seq(n - 1, _ => 0xFFFF_FFFF);
      UniformCellSums(p, n - 1, c);
      PartsOfSelectMask(p, 0xFFFF_FFFF, c);
      assert (n - 1) * p.Ch(c) + p.Ch(c) == n * p.Ch(c);
    }
  }
}
