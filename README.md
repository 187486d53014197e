# chafa WebAssembly SIMD cell kernels in Dafny

The model covers the four integer kernels of `chafa/internal/chafa-wasm-simd.c` and the
reciprocal table they share. Chafa uses them to approximate one terminal cell: a block of
64 RGBA pixels, drawn with a foreground/background colour pair and a per-pixel 32-bit
coverage mask word.

- **Cell error** (`chafa_calc_cell_error_wasm_simd`). It picks the foreground or
  background byte of each channel through the mask word. It subtracts, squares in 16-bit
  lanes and accumulates in 32-bit lanes. Modelled in `cell_error.dfy` as the loop method
  `CalcCellError`, proved against `ErrorSum`.
- **Mean-colour extraction** (`chafa_extract_cell_mean_colors_wasm_simd`). It splits
  every pixel into `pixel & mask` and `pixel & ~mask`. It sums the two halves per channel
  and stores the sums into `accums_out[1]` (foreground) and `accums_out[0]` (background).
  Modelled in `mean_colors.dfy`: the accumulator loop is `AccumulateCell`, and the writes
  into the caller's `ColorAccum` objects are `ExtractCellMeanColors`.
- **Reciprocal table** (`invdiv16`). Modelled in `accum_divide.dfy`: one constant per
  row of the C initialiser, named by its entries, and the lookup function `InvDiv16`.
- **Fixed-point divide** (`chafa_color_accum_div_scalar_wasm_simd`). It multiplies each
  16-bit channel by the table entry, adds 0x4000, shifts right by 15 and narrows with
  saturation. It writes the result back in place. Modelled as `DivScalar` on a
  `ColorAccum`, whose four channels are an `array<i16>`.
- **Nearest palette colour** (`chafa_color_diff_4x_wasm_simd`). It keeps a running
  minimum of squared RGB distance in four lanes, reduces the lanes, then scans the
  remaining colours. Modelled in `palette_match.dfy` as `ColorDiff4x`. That method is
  built from `LaneMinima`, `ReduceLanes` and `ScanTail`.

`cell_types.dfy` holds the shared data model:
- colours and pixels (four bytes R, G, B, A) and the colour pair;
- mask words, and bitwise select on bytes as arithmetic on bits (`SelectBits`);
- the 16- and 32-bit wrap-around (`WrapI16`, `WrapI32`);
- the `ColorAccum` class.

The kernels are modelled as written:
- squares wrap in 16 bits and are sign-extended when pairs are added;
- alpha is part of the error, and every pixel counts twice;
- the table entry 32768 is used as a signed 16-bit lane;
- palette ties are broken by lane.

Where the code departs from what it is meant to do, the intended property is proved under
a precondition that avoids the departure. A lemma then exhibits an input where the two
differ (see "## Findings").

Four behaviours of the code deserve a note. The model follows the code each time:
- The comment at line 75 says alpha is ignored. The shuffle-add at lines 77-80 adds
  alpha's square to every pixel, and the lane sum at lines 88-93 counts every pixel
  twice (`ScoreIsTwiceRgbError`, `AlphaCounterexample`).
- The source says only that the palette matcher returns "the minimum distance index"
  (line 219). A scalar nearest-colour search would take the lowest such index. This
  kernel decides ties between lanes by lane order (`LaneTieCounterexample`).
- With no palette colours (`n <= 0`) the kernel returns 0 rather than signalling an
  error (`LaneNearest`).
- The divide computes the rounding high multiply of lines 197-199 on the reciprocal
  `invdiv16[d]`. The table holds 32768 / d truncated (line 160), so the code promises a
  rounded product with a truncated reciprocal, not an exactly rounded quotient. For d
  in 2..256 and 0 <= ch <= 16384, which covers every sum the extraction produces (at
  most 64 * 255), the result is the floor or the ceiling of ch / d
  (`DivChannelFloorOrCeil`). It need not be the nearest integer (`DivChannelNotNearest`:
  2057 / 9 gives 228). Above 16384 it can fall below the floor
  (`DivChannelBelowFloor`: 24579 / 3 gives 8192), and divisor 1 negates the channel
  (see "## Findings").

## Model

| member | source | states |
|---|---|---|
| CellTypes.SelectedBySelectMask | chafa/internal/chafa-wasm-simd.c:52 | with a mask word of all zeros or all ones, the bitwise select picks the background or the foreground colour whole |
| CellTypes.BitSelectAllOrNothing | chafa/internal/chafa-wasm-simd.c:52 | a mask byte of 0xFF selects the first operand and 0x00 the second |
| CellTypes.BitSelectBySelectMask | chafa/internal/chafa-wasm-simd.c:52 | each byte of a selection mask word selects one side whole |
| CellTypes.MaskByteOfSelectMask | chafa/internal/chafa-wasm-simd.c:49-52 | every byte of a 0 or 0xFFFFFFFF mask word is 0x00 or 0xFF |
| CellTypes.SelectBitsSplit | chafa/internal/chafa-wasm-simd.c:114-115 | `x & m` and `x & ~m` add up to the low bits of x |
| CellTypes.WrapI16 | chafa/internal/chafa-wasm-simd.c:61 | the 16-bit lane wrap leaves values in the signed 16-bit range unchanged |
| CellTypes.WrapI32 | chafa/internal/chafa-wasm-simd.c:83-84 | the 32-bit lane wrap stays in the signed 32-bit range and leaves values in range unchanged |
| CellError.ChannelDiff | chafa/internal/chafa-wasm-simd.c:58-60 | the zero-extended channel difference lies in [-255, 255], so the subtraction cannot wrap |
| CellError.PixelTerm | chafa/internal/chafa-wasm-simd.c:61-80 | one pixel's four wrapped squares, alpha included, add up to a value in [-2^17, 2^17) |
| CellError.ErrorSum | chafa/internal/chafa-wasm-simd.c:45-85 | the sum of the pixel terms of a block is bounded by 2^17 per pixel |
| CellError.ErrorStep | chafa/internal/chafa-wasm-simd.c:83-84 | one more pixel adds its term to the running sum |
| CellError.CalcCellError | chafa/internal/chafa-wasm-simd.c:35-94 | the kernel returns exactly twice the sum of the wrapped four-channel squares, and no 32-bit addition wraps |
| CellError.ExactCellScoresZero | chafa/internal/chafa-wasm-simd.c:45-93 | with selection masks, a cell whose every pixel equals its selected colour scores 0 |
| CellError.RgbSquares | chafa/internal/chafa-wasm-simd.c:74-75 | the true RGB squared distance is zero iff red, green and blue all match |
| CellError.PixelSquares | chafa/internal/chafa-wasm-simd.c:58-72 | the true four-channel squared distance is zero iff the pixel equals the colour |
| CellError.SmallSquareUnwrapped | chafa/internal/chafa-wasm-simd.c:61 | a difference of magnitude at most 181 squares below 2^15, so the 16-bit wrap keeps it |
| CellError.SmallDiffsScoreTrueSquares | chafa/internal/chafa-wasm-simd.c:58-80 | when every channel difference is within ±181, the kernel's sum equals the true sum of four-channel squares |
| CellError.RgbError | chafa/internal/chafa-wasm-simd.c:74-75 | the intended score, squared RGB differences counted once, is never negative |
| CellError.RgbErrorZeroIff | chafa/internal/chafa-wasm-simd.c:74-75 | the intended score is 0 exactly when every pixel matches its selected colour in red, green and blue |
| CellError.ScoreIsTwiceRgbError | chafa/internal/chafa-wasm-simd.c:45-93 | with differences within ±181 and matching alpha, the kernel's sum equals the intended score, so the kernel returns twice it |
| CellError.AlphaFreeSquareSum | chafa/internal/chafa-wasm-simd.c:69-80 | with matching alpha, the four-channel square sum is the RGB one |
| CellError.UniformCellError | chafa/internal/chafa-wasm-simd.c:45-85 | a cell of n equal pixels under one mask word sums to n times the pixel term |
| CellError.UniformRgbError | chafa/internal/chafa-wasm-simd.c:45-85 | a cell of n equal pixels has n times the pixel's intended score |
| CellError.FullDiffWraps | chafa/internal/chafa-wasm-simd.c:61 | a channel difference of 255 squares to 65025, which the 16-bit lane holds as -511 |
| CellError.BlackAgainstWhite | chafa/internal/chafa-wasm-simd.c:61-80 | a black pixel against a white selected colour contributes -2044 |
| CellError.BlackAgainstWhiteRgb | chafa/internal/chafa-wasm-simd.c:74-75 | the same pixel is 3 * 65025 away in true RGB squares |
| CellError.WrappedSquareCounterexample | chafa/internal/chafa-wasm-simd.c:61-72 | 64 black pixels against a white foreground make the kernel return -261632 where the intended score is 64 * 3 * 65025 |
| CellError.AlphaOffByOne | chafa/internal/chafa-wasm-simd.c:74-80 | a pixel matching in RGB, with alpha one lower, contributes 1 to the kernel and 0 to the intended score |
| CellError.AlphaCounterexample | chafa/internal/chafa-wasm-simd.c:74-93 | a cell of 64 such pixels makes the kernel return 128 where the intended score is 0 |
| MeanColors.FgPart | chafa/internal/chafa-wasm-simd.c:114 | the masked part of a channel never exceeds the channel |
| MeanColors.BgPart | chafa/internal/chafa-wasm-simd.c:115 | the unmasked part of a channel never exceeds the channel |
| MeanColors.PartsPartition | chafa/internal/chafa-wasm-simd.c:114-115 | the masked and unmasked parts of a channel add up to the channel |
| MeanColors.PartsOfSelectMask | chafa/internal/chafa-wasm-simd.c:113-115 | with a selection mask word the whole channel goes to one side |
| MeanColors.FgSum | chafa/internal/chafa-wasm-simd.c:107-146 | a foreground channel sum lies in [0, 255 per pixel] |
| MeanColors.BgSum | chafa/internal/chafa-wasm-simd.c:107-146 | a background channel sum lies in [0, 255 per pixel] |
| MeanColors.SumsStep | chafa/internal/chafa-wasm-simd.c:128-145 | one more pixel adds its parts to both sums of a channel |
| MeanColors.AccumStep | chafa/internal/chafa-wasm-simd.c:128-145 | adding a pixel's parts to the lanes keeps each lane equal to its channel sum |
| MeanColors.AccumulateCell | chafa/internal/chafa-wasm-simd.c:102-146 | after the loop, lane c of each accumulator holds that side's sum of channel c over the 64 pixels |
| MeanColors.ExtractCellMeanColors | chafa/internal/chafa-wasm-simd.c:98-158 | accums_out[0] receives the background sums and accums_out[1] the foreground sums, channel by channel |
| MeanColors.ExtractPartition | chafa/internal/chafa-wasm-simd.c:114-157 | for any mask words, the two accumulators of a channel add up to the channel's total over the block |
| MeanColors.ExtractSelectsGroups | chafa/internal/chafa-wasm-simd.c:107-157 | with selection mask words, the foreground sum is the sum over the set pixels and the background sum over the clear ones |
| MeanColors.UniformCellSums | chafa/internal/chafa-wasm-simd.c:107-157 | n equal pixels under an all-set mask put n times each channel in the foreground and nothing in the background |
| AccumDivide.InvDiv16Reciprocal | chafa/internal/chafa-wasm-simd.c:160-184 | entry 0 of the table is 0 and entry d is 32768 / d, for every d in 1..256 |
| AccumDivide.Reciprocal | chafa/internal/chafa-wasm-simd.c:160-184 | the entry read as unsigned is 32768 / d (0 for d = 0), at most 0x8000, and at most 0x4000 from d = 2 on |
| AccumDivide.LaneReciprocal | chafa/internal/chafa-wasm-simd.c:195 | the entry splatted as a signed 16-bit lane is the reciprocal, except that divisor 1 gives -32768 |
| AccumDivide.DivChannelNoOverflow | chafa/internal/chafa-wasm-simd.c:200-207 | the widened product plus 0x4000 stays within the signed 32-bit range, so the 32-bit adds never wrap |
| AccumDivide.DivScalar | chafa/internal/chafa-wasm-simd.c:188-216 | each of the four channels is replaced, in place, by DivChannel of its old value (the floor or ceiling of the old value / d for a value in 0..16384 and every divisor except 1); nothing else changes |
| AccumDivide.DivByZeroClears | chafa/internal/chafa-wasm-simd.c:160-215 | divisor 0 turns every channel into 0 |
| AccumDivide.DivChannelRounds | chafa/internal/chafa-wasm-simd.c:195-211 | for d in 2..256 and a channel in 0..16384, the result is at least ch / d and at most ch / d rounded half up |
| AccumDivide.DivChannelFloorOrCeil | chafa/internal/chafa-wasm-simd.c:195-211 | for d in 2..256 and a channel in 0..16384, the result is the floor of ch / d, or its ceiling when d does not divide ch |
| AccumDivide.DivChannelNotNearest | chafa/internal/chafa-wasm-simd.c:195-211 | 2057 / 9 gives 228 although 229 is nearer |
| AccumDivide.DivChannelBelowFloor | chafa/internal/chafa-wasm-simd.c:195-211 | a channel above 16384 can come out below the floor: 24579 / 3 gives 8192 where the floor is 8193 |
| AccumDivide.DivChannelUnsignedRounds | chafa/internal/chafa-wasm-simd.c:195-211 | with the entry read as unsigned, the same rounding holds for every divisor in 1..256 |
| AccumDivide.DivChannelUnsignedExact | chafa/internal/chafa-wasm-simd.c:195-211 | with the entry read as unsigned, a channel that d divides gives exactly ch / d |
| AccumDivide.DivByOneNegates | chafa/internal/chafa-wasm-simd.c:163-195 | as written, divisor 1 negates the channel, and -32768 saturates to 32767 |
| AccumDivide.DivByOneUnsignedKeeps | chafa/internal/chafa-wasm-simd.c:163-195 | with the entry read as unsigned, divisor 1 keeps the channel |
| AccumDivide.DivChannelAgreesAwayFromOne | chafa/internal/chafa-wasm-simd.c:195-211 | the signed and unsigned readings agree for every divisor except 1 |
| AccumDivide.MeanOfEqualValues | chafa/internal/chafa-wasm-simd.c:195-211 | n copies of a byte value divided by n, for n in 2..64, give the value back |
| AccumDivide.UniformCellMean | chafa/internal/chafa-wasm-simd.c:107-211 | n equal pixels extracted and divided by n give each channel of the pixel back |
| AccumDivide.SinglePixelMeanNegated | chafa/internal/chafa-wasm-simd.c:107-211 | a one-pixel foreground divided by its count of 1 comes back negated, and with the unsigned reading unchanged |
| PaletteMatch.Dist | chafa/internal/chafa-wasm-simd.c:241-244 | the squared RGB distance is at most 3 * 255^2, and zero iff red, green and blue match |
| PaletteMatch.Dists | chafa/internal/chafa-wasm-simd.c:239-244 | every distance lies below the lane sentinel 0x7FFFFFFF |
| PaletteMatch.DistsAt | chafa/internal/chafa-wasm-simd.c:239-244 | entry k of the distances is the distance of palette colour k |
| PaletteMatch.Grouped | chafa/internal/chafa-wasm-simd.c:228 | the four-lane loop covers n rounded down to a multiple of 4, and nothing for n <= 0 |
| PaletteMatch.LaneOfGroup | chafa/internal/chafa-wasm-simd.c:248 | the only index of lane j in a group starting at i is i + j |
| PaletteMatch.LaneStep | chafa/internal/chafa-wasm-simd.c:251-253 | one group keeps lane j at the nearest of its colours, the first of them on a tie |
| PaletteMatch.LanesStep | chafa/internal/chafa-wasm-simd.c:247-253 | one group keeps all four lanes in that state |
| PaletteMatch.ReduceFirstLane | chafa/internal/chafa-wasm-simd.c:267-268 | lane 0 alone is the reduction over one lane |
| PaletteMatch.ReduceLane | chafa/internal/chafa-wasm-simd.c:270-272 | folding a lane in with a strict comparison keeps the earlier lane on a tie |
| PaletteMatch.ReduceLaneFirst | chafa/internal/chafa-wasm-simd.c:270-272 | folding a lane in, with ties going to the lower index, keeps the lowest index |
| PaletteMatch.ReducedAllLanes | chafa/internal/chafa-wasm-simd.c:257-272 | all four lanes reduced is the preferred colour of the covered range |
| PaletteMatch.TailStep | chafa/internal/chafa-wasm-simd.c:275-287 | a colour past the lanes replaces the best only when strictly nearer |
| PaletteMatch.PaletteDist | chafa/internal/chafa-wasm-simd.c:241-244 | the computed distance is entry k of the distances |
| PaletteMatch.GroupDists | chafa/internal/chafa-wasm-simd.c:236-245 | the inner loop fills the four distances of the group |
| PaletteMatch.LaneMinima | chafa/internal/chafa-wasm-simd.c:224-254 | the four-lane loop ends at n rounded down to a multiple of 4, with every lane at the nearest of its colours |
| PaletteMatch.ReduceLanes | chafa/internal/chafa-wasm-simd.c:257-272 | the reduction yields the nearest colour of the lanes, with lane order deciding ties |
| PaletteMatch.ReduceLanesFirst | chafa/internal/chafa-wasm-simd.c:257-272 | the reduction with ties going to the lower index yields the first nearest colour of the lanes |
| PaletteMatch.ScanTail | chafa/internal/chafa-wasm-simd.c:275-289 | the tail scan extends the preferred colour to all n colours, and returns 0 when n <= 0 |
| PaletteMatch.ColorDiff4x | chafa/internal/chafa-wasm-simd.c:220-290 | the result is 0 for n <= 0; otherwise an index in [0, n) no farther than any of the first n colours, and first in lane order among the equally near |
| PaletteMatch.ColorDiff4xFirst | chafa/internal/chafa-wasm-simd.c:220-290 | with ties reduced by index, the result is the first nearest colour among the first n |
| PaletteMatch.TieOrderAntisymmetric | chafa/internal/chafa-wasm-simd.c:251-272 | the lane tie order picks one index |
| PaletteMatch.LaneNearestUnique | chafa/internal/chafa-wasm-simd.c:220-290 | at most one index satisfies the kernel's specification, so the result is determined |
| PaletteMatch.LaneNearestAsNear | chafa/internal/chafa-wasm-simd.c:220-290 | the kernel's colour is exactly as near as the first nearest colour |
| PaletteMatch.SmallPaletteFirst | chafa/internal/chafa-wasm-simd.c:228-289 | below four colours no lane is filled, and the result is the first nearest colour |
| PaletteMatch.LaneTieCounterexample | chafa/internal/chafa-wasm-simd.c:251-272 | a black target and the palette white, black, white, white, black, white, white, white: the kernel returns 4 where the first nearest colour is 1 |

## Left out

- The `v128_t` registers, byte shuffles and 128-bit loads are not modelled. Each kernel
  is modelled by its scalar effect on one pixel, one channel or one lane.
- The cell error and mean-colour loops take four pixels per iteration. The model takes
  one. The sums are the same because every pixel is handled alike, and the 32-bit adds
  never wrap.
- CalcCellError: keeps one accumulator instead of four 32-bit lanes, and does not model
  the shuffles that fold the lanes. What the lanes compute together is kept: each pixel
  counted twice.
- The lane intrinsics are written as plain scalar definitions, with nothing proved about
  them beyond their definition. These are the u8 to u32 widening of `pix & mask` and
  `pix & ~mask` (`FgParts`, `BgParts`), `wasm_i32x4_add` (`LaneAdd`), `wasm_i32x4_lt`
  (`LessMask`), `wasm_v128_bitselect` on a comparison mask (`Blend`) and
  `wasm_i16x8_narrow_i32x4` (`SatI16`). The members that use them carry the proofs.
- The dead load of `pal` at line 231 is left out; its value is never used.
- The `HAVE_WASM_SIMD` guard and the includes are left out; they are build configuration.
- `ChafaPixel`, `ChafaColor`, `ChafaColorPair`, `ChafaColorAccum` and
  `CHAFA_SYMBOL_N_PIXELS` are defined outside the modelled file. They are taken as four
  bytes R, G, B, A, the (foreground, background) pair, four signed 16-bit channels and
  64.
- `chafa_color8_to_u32` is outside the modelled file. Its byte packing is taken as R, G,
  B, A in memory order, with mask words little-endian (`MaskByte`).
- The `invdiv16` table is a lookup function over its 21 source lines rather than a
  257-element array in memory. No kernel writes to it.
- The store of a 32-bit lane into an `int16` channel at lines 149-157 is modelled as
  exact, since every lane is at most 64 * 255. The truncation a larger value would get is
  not modelled.

## Findings

| source | as written | input that shows it | evidently intended | confidence | as-written member | corrected member |
|---|---|---|---|---|---|---|
| chafa/internal/chafa-wasm-simd.c:61-72 | squares are kept in 16-bit lanes and sign-extended by the pairwise add, so a square of 32768 or more turns negative | 64 black pixels, all-set mask, white foreground: returns -261632 | a non-negative sum of true squares | not executed | CellError.WrappedSquareCounterexample | CellError.RgbErrorZeroIff |
| chafa/internal/chafa-wasm-simd.c:74-93 | alpha is added to each pixel's total, and the shuffle-add and lane sum count each pixel twice | 64 pixels (10,20,30,254) against foreground (10,20,30,255): returns 128 | squared RGB differences only, each pixel once | not executed | CellError.AlphaCounterexample | CellError.ScoreIsTwiceRgbError |
| chafa/internal/chafa-wasm-simd.c:163-195 | entry 32768 for divisor 1 is splatted into a signed 16-bit lane as -32768, so the channel is negated | divisor 1, channel 100: returns -100 | divisor 1 leaves the channel unchanged | not executed | AccumDivide.DivByOneNegates | AccumDivide.DivByOneUnsignedKeeps |
| chafa/internal/chafa-wasm-simd.c:251-272 | ties between lanes are broken by lane order, not by palette index | black target, palette white, black, white, white, black, white, white, white: returns 4 | the first nearest colour, index 1 | not executed | PaletteMatch.LaneTieCounterexample | PaletteMatch.ColorDiff4xFirst |
