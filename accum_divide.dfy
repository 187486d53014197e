/** Division of a colour accumulator by a pixel count: multiplication by a 15-bit
    fixed-point reciprocal taken from a 257-entry table, then a rounding shift, as
    chafa_color_accum_div_scalar_wasm_simd does with 32-bit lanes. */
module AccumDivide {
  import opened CellTypes
  import opened MeanColors

  /** invdiv16, split into the rows of its C initialiser and named by the entries each
      row holds: entry d of the table is 32768 / d, and 0 for d = 0. */
  const InvDiv16Entries0To10: seq<nat> := [0, 32768, 16384, 10922, 8192, 6553, 5461, 4681, 4096, 3640, 3276]
  const InvDiv16Entries11To21: seq<nat> := [2978, 2730, 2520, 2340, 2184, 2048, 1927, 1820, 1724, 1638, 1560]
  const InvDiv16Entries22To32: seq<nat> := [1489, 1424, 1365, 1310, 1260, 1213, 1170, 1129, 1092, 1057, 1024]
  const InvDiv16Entries33To45: seq<nat> := [992, 963, 936, 910, 885, 862, 840, 819, 799, 780, 762, 744, 728]
  const InvDiv16Entries46To58: seq<nat> := [712, 697, 682, 668, 655, 642, 630, 618, 606, 595, 585, 574, 564]
  const InvDiv16Entries59To71: seq<nat> := [555, 546, 537, 528, 520, 512, 504, 496, 489, 481, 474, 468, 461]
  const InvDiv16Entries72To84: seq<nat> := [455, 448, 442, 436, 431, 425, 420, 414, 409, 404, 399, 394, 390]
  const InvDiv16Entries85To97: seq<nat> := [385, 381, 376, 372, 368, 364, 360, 356, 352, 348, 344, 341, 337]
  const InvDiv16Entries98To110: seq<nat> := [334, 330, 327, 324, 321, 318, 315, 312, 309, 306, 303, 300, 297]
  const InvDiv16Entries111To123: seq<nat> := [295, 292, 289, 287, 284, 282, 280, 277, 275, 273, 270, 268, 266]
  const InvDiv16Entries124To136: seq<nat> := [264, 262, 260, 258, 256, 254, 252, 250, 248, 246, 244, 242, 240]
  const InvDiv16Entries137To149: seq<nat> := [239, 237, 235, 234, 232, 230, 229, 227, 225, 224, 222, 221, 219]
  const InvDiv16Entries150To162: seq<nat> := [218, 217, 215, 214, 212, 211, 210, 208, 207, 206, 204, 203, 202]
  const InvDiv16Entries163To175: seq<nat> := [201, 199, 198, 197, 196, 195, 193, 192, 191, 190, 189, 188, 187]
  const InvDiv16Entries176To188: seq<nat> := [186, 185, 184, 183, 182, 181, 180, 179, 178, 177, 176, 175, 174]
  const InvDiv16Entries189To201: seq<nat> := [173, 172, 171, 170, 169, 168, 168, 167, 166, 165, 164, 163, 163]
  const InvDiv16Entries202To214: seq<nat> := [162, 161, 160, 159, 159, 158, 157, 156, 156, 155, 154, 153, 153]
  const InvDiv16Entries215To227: seq<nat> := [152, 151, 151, 150, 149, 148, 148, 147, 146, 146, 145, 144, 144]
  const InvDiv16Entries228To240: seq<nat> := [143, 143, 142, 141, 141, 140, 140, 139, 138, 138, 137, 137, 136]
  const InvDiv16Entries241To253: seq<nat> := [135, 135, 134, 134, 133, 133, 132, 132, 131, 131, 130, 130, 129]
  const InvDiv16Entries254To256: seq<nat> := [129, 128, 128]

  /** Entry d of invdiv16, for d in 0..256. */
  function InvDiv16(d: int): nat
    requires 0 <= d <= 256
  {
    if d < 11 then InvDiv16Entries0To10[d]
    else if d < 22 then InvDiv16Entries11To21[d - 11]
    else if d < 33 then InvDiv16Entries22To32[d - 22]
    else if d < 46 then InvDiv16Entries33To45[d - 33]
    else if d < 59 then InvDiv16Entries46To58[d - 46]
    else if d < 72 then InvDiv16Entries59To71[d - 59]
    else if d < 85 then InvDiv16Entries72To84[d - 72]
    else if d < 98 then InvDiv16Entries85To97[d - 85]
    else if d < 111 then InvDiv16Entries98To110[d - 98]
    else if d < 124 then InvDiv16Entries111To123[d - 111]
    else if d < 137 then InvDiv16Entries124To136[d - 124]
    else if d < 150 then InvDiv16Entries137To149[d - 137]
    else if d < 163 then InvDiv16Entries150To162[d - 150]
    else if d < 176 then InvDiv16Entries163To175[d - 163]
    else if d < 189 then InvDiv16Entries176To188[d - 176]
    else if d < 202 then InvDiv16Entries189To201[d - 189]
    else if d < 215 then InvDiv16Entries202To214[d - 202]
    else if d < 228 then InvDiv16Entries215To227[d - 215]
    else if d < 241 then InvDiv16Entries228To240[d - 228]
    else if d < 254 then InvDiv16Entries241To253[d - 241]
    else InvDiv16Entries254To256[d - 254]
  }

  /** Each row holds 32768 / d for its entries (entry 0 aside); one lemma per row keeps
      every proof small. */
  lemma InvDiv16Entries0To10Reciprocal(d: int)
    requires 1 <= d < 11
    ensures InvDiv16(d) == 32768 / d
  {
  }

  lemma InvDiv16Entries11To21Reciprocal(d: int)
    requires 11 <= d < 22
    ensures InvDiv16(d) == 32768 / d
  {
  }

  lemma InvDiv16Entries22To32Reciprocal(d: int)
    requires 22 <= d < 33
    ensures InvDiv16(d) == 32768 / d
  {
  }

  lemma InvDiv16Entries33To45Reciprocal(d: int)
    requires 33 <= d < 46
    ensures InvDiv16(d) == 32768 / d
  {
  }

  lemma InvDiv16Entries46To58Reciprocal(d: int)
    requires 46 <= d < 59
    ensures InvDiv16(d) == 32768 / d
  {
  }

  lemma InvDiv16Entries59To71Reciprocal(d: int)
    requires 59 <= d < 72
    ensures InvDiv16(d) == 32768 / d
  {
  }

  lemma InvDiv16Entries72To84Reciprocal(d: int)
    requires 72 <= d < 85
    ensures InvDiv16(d) == 32768 / d
  {
  }

  lemma InvDiv16Entries85To97Reciprocal(d: int)
    requires 85 <= d < 98
    ensures InvDiv16(d) == 32768 / d
  {
  }

  lemma InvDiv16Entries98To110Reciprocal(d: int)
    requires 98 <= d < 111
    ensures InvDiv16(d) == 32768 / d
  {
  }

  lemma InvDiv16Entries111To123Reciprocal(d: int)
    requires 111 <= d < 124
    ensures InvDiv16(d) == 32768 / d
  {
  }

  lemma InvDiv16Entries124To136Reciprocal(d: int)
    requires 124 <= d < 137
    ensures InvDiv16(d) == 32768 / d
  {
  }

  lemma InvDiv16Entries137To149Reciprocal(d: int)
    requires 137 <= d < 150
    ensures InvDiv16(d) == 32768 / d
  {
  }

  lemma InvDiv16Entries150To162Reciprocal(d: int)
    requires 150 <= d < 163
    ensures InvDiv16(d) == 32768 / d
  {
  }

  lemma InvDiv16Entries163To175Reciprocal(d: int)
    requires 163 <= d < 176
    ensures InvDiv16(d) == 32768 / d
  {
  }

  lemma InvDiv16Entries176To188Reciprocal(d: int)
    requires 176 <= d < 189
    ensures InvDiv16(d) == 32768 / d
  {
  }

  lemma InvDiv16Entries189To201Reciprocal(d: int)
    requires 189 <= d < 202
    ensures InvDiv16(d) == 32768 / d
  {
  }

  lemma InvDiv16Entries202To214Reciprocal(d: int)
    requires 202 <= d < 215
    ensures InvDiv16(d) == 32768 / d
  {
  }

  lemma InvDiv16Entries215To227Reciprocal(d: int)
    requires 215 <= d < 228
    ensures InvDiv16(d) == 32768 / d
  {
  }

  lemma InvDiv16Entries228To240Reciprocal(d: int)
    requires 228 <= d < 241
    ensures InvDiv16(d) == 32768 / d
  {
  }

  lemma InvDiv16Entries241To253Reciprocal(d: int)
    requires 241 <= d < 254
    ensures InvDiv16(d) == 32768 / d
  {
  }

  lemma InvDiv16Entries254To256Reciprocal(d: int)
    requires 254 <= d < 257
    ensures InvDiv16(d) == 32768 / d
  {
  }

  /** Every entry of the table is the reciprocal it is meant to be: 32768 / d, with
      the defined value 0 at d = 0. */
  lemma InvDiv16Reciprocal(d: int)
    requires 0 <= d <= 256
    ensures InvDiv16(d) == if d == 0 then 0 else 32768 / d
  {
    if d == 0 {
    } else if d < 11 {
      InvDiv16Entries0To10Reciprocal(d);
    } else if d < 22 {
      InvDiv16Entries11To21Reciprocal(d);
    } else if d < 33 {
      InvDiv16Entries22To32Reciprocal(d);
    } else if d < 46 {
      InvDiv16Entries33To45Reciprocal(d);
    } else if d < 59 {
      InvDiv16Entries46To58Reciprocal(d);
    } else if d < 72 {
      InvDiv16Entries59To71Reciprocal(d);
    } else if d < 85 {
      InvDiv16Entries72To84Reciprocal(d);
    } else if d < 98 {
      InvDiv16Entries85To97Reciprocal(d);
    } else if d < 111 {
      InvDiv16Entries98To110Reciprocal(d);
    } else if d < 124 {
      InvDiv16Entries111To123Reciprocal(d);
    } else if d < 137 {
      InvDiv16Entries124To136Reciprocal(d);
    } else if d < 150 {
      InvDiv16Entries137To149Reciprocal(d);
    } else if d < 163 {
      InvDiv16Entries150To162Reciprocal(d);
    } else if d < 176 {
      InvDiv16Entries163To175Reciprocal(d);
    } else if d < 189 {
      InvDiv16Entries176To188Reciprocal(d);
    } else if d < 202 {
      InvDiv16Entries189To201Reciprocal(d);
    } else if d < 215 {
      InvDiv16Entries202To214Reciprocal(d);
    } else if d < 228 {
      InvDiv16Entries215To227Reciprocal(d);
    } else if d < 241 {
      InvDiv16Entries228To240Reciprocal(d);
    } else if d < 254 {
      InvDiv16Entries241To253Reciprocal(d);
    } else {
      InvDiv16Entries254To256Reciprocal(d);
    }
  }

  /** The table entry for a divisor in 0..256, read as the unsigned 16-bit value it is. */
  function Reciprocal(d: int): (v: nat)
    requires 0 <= d <= 256
    ensures v == if d == 0 then 0 else 32768 / d
    ensures v <= 0x8000
    ensures d >= 2 ==> v <= 0x4000
  {
    InvDiv16Reciprocal(d);
    QuotientBound(32768, if d == 0 then 1 else d);
    InvDiv16(d)
  }

  /** Dividing a natural number by d >= 1 does not make it larger, and by d >= 2 at
      least halves it. */
  lemma QuotientBound(n: nat, d: int)
    requires 1 <= d
    ensures 0 <= n / d <= n
    ensures d >= 2 ==> 2 * (n / d) <= n
  {
    MulMonotone(n / d, 1, d);
    if d >= 2 {
      MulMonotone(n / d, 2, d);
    }
  }

  /** Saturating narrow of a 32-bit lane to 16 bits (wasm_i16x8_narrow_i32x4). */
  function SatI16(x: int): (r: i16)
    ensures -0x8000 <= x < 0x8000 ==> r == x
    ensures x >= 0x8000 ==> r == 0x7FFF
    ensures x < -0x8000 ==> r == -0x8000
  {
    if x < -0x8000 then -0x8000 else if x >= 0x8000 then 0x7FFF else x
  }

  /** The reciprocal as the kernel multiplies by it: splatted into signed 16-bit lanes,
      so the entry 32768 (divisor 1) becomes -32768. */
  function LaneReciprocal(d: int): (v: i16)
    requires 0 <= d <= 256
    ensures d != 1 ==> v == Reciprocal(d)
    ensures d == 1 ==> v == -0x8000
  {
    WrapI16(Reciprocal(d))
  }

  /** One channel of the kernel: widen to 32 bits, multiply by the lane reciprocal, add
      0x4000, shift right arithmetically by 15 (floor division by 32768), narrow with
      saturation. */
  function DivChannel(ch: i16, d: int): i16
    requires 0 <= d <= 256
  {
    SatI16((ch * LaneReciprocal(d) + 0x4000) / 0x8000)
  }

  /** The same channel computation with the reciprocal read as unsigned, which is what
      "multiply by 32768 / d" means for every divisor including 1. */
  function DivChannelUnsigned(ch: i16, d: int): i16
    requires 0 <= d <= 256
  {
    SatI16((ch * Reciprocal(d) + 0x4000) / 0x8000)
  }

  /** Neither the widened product nor the product plus the rounding constant leaves
      the signed 32-bit range, so the i32 lanes never wrap. */
  lemma DivChannelNoOverflow(ch: i16, d: int)
    requires 0 <= d <= 256
    ensures -0x8000_0000 <= ch * LaneReciprocal(d) && ch * LaneReciprocal(d) + 0x4000 < 0x8000_0000
    ensures -0x8000_0000 <= ch * Reciprocal(d) && ch * Reciprocal(d) + 0x4000 < 0x8000_0000
  {
    ProductBound(ch, LaneReciprocal(d));
    ProductBound(ch, Reciprocal(d));
  }

  /** Two factors of magnitude at most 2^15 have a product of magnitude at most 2^30. */
  lemma ProductBound(x: int, y: int)
    requires -0x8000 <= x <= 0x8000 && -0x8000 <= y <= 0x8000
    ensures -0x4000_0000 <= x * y <= 0x4000_0000
  {
    var a: int := if x < 0 then -x else x;
    var b: int := if y < 0 then -y else y;
    MulMonotone(a, b, 0x8000);
    MulMonotone(0x8000, a, 0x8000);
    assert x * y == a * b || x * y == -(a * b);
  }

  /** chafa_color_accum_div_scalar_wasm_simd: every channel of the accumulator is
      replaced, in place, by its quotient; the divisor must lie in 0..256. */
  method DivScalar(accum: ColorAccum, divisor: int)
    requires accum.Valid()
    requires 0 <= divisor <= 256
    modifies accum.ch
    ensures forall c :: 0 <= c < 4 ==> accum.ch[c] == DivChannel(old(accum.ch[c]), divisor)
  {
    forall c | 0 <= c < 4 {
      accum.ch[c] := DivChannel(accum.ch[c], divisor);
    }
  }

  /** Dividing by zero clears the channel, as the table's entry 0 promises. */
  lemma DivByZeroClears(ch: i16)
    ensures DivChannel(ch, 0) == 0
    ensures DivChannelUnsigned(ch, 0) == 0
  {
  }

  /** The rounding step, for a reciprocal inv = 32768 / d and a value that fits in 15
      bits: the result lies between the floor of ch / d and ch / d rounded half up. */
  lemma RoundedQuotient(ch: int, d: int, inv: int)
    requires 1 <= d && 0 <= ch <= 0x4000 && inv == 32768 / d
    ensures ch / d <= (ch * inv + 0x4000) / 0x8000
    ensures 2 * ((ch * inv + 0x4000) / 0x8000) * d <= 2 * ch + d
  {
    var rem := 32768 % d;
    assert d * inv + rem == 32768;
    MulMonotone(ch, 0, inv);
    RoundedAtMostHalfUp(ch, d, inv, rem);
    RoundedAtLeastFloor(ch, d, inv, rem);
  }

  lemma RoundedAtMostHalfUp(ch: int, d: int, inv: int, rem: int)
    requires 1 <= d && 0 <= ch && 0 <= inv && 0 <= rem && d * inv + rem == 32768
    ensures 2 * ((ch * inv + 0x4000) / 0x8000) * d <= 2 * ch + d
  {
    var p := ch * inv + 0x4000;
    var r := p / 0x8000;
    MulMonotone(ch, 0, inv);
    assert 0 <= 0x8000 * r <= p;
    MulMonotone(d, 0x8000 * r, p);
    assert d * (0x8000 * r) == 0x8000 * (r * d);
    assert d * p == ch * (d * inv) + 0x4000 * d;
    assert ch * (d * inv) == 32768 * ch - ch * rem;
    MulMonotone(ch, 0, rem);
    assert 0x8000 * (r * d) <= 0x8000 * ch + 0x4000 * d;
  }

  lemma RoundedAtLeastFloor(ch: int, d: int, inv: int, rem: int)
    requires 1 <= d && 0 <= ch <= 0x4000 && 0 <= inv && 0 <= rem < d && d * inv + rem == 32768
    ensures ch / d <= (ch * inv + 0x4000) / 0x8000
  {
    var q, s := ch / d, ch % d;
    MulMonotone(q, rem, d);
    MulMonotone(s, 0, inv);
    FloorProduct(q, s, d, inv, rem);
    assert 0x8000 * q <= ch * inv + 0x4000;
  }

  /** (q * d + s) * inv == 32768 * q - q * rem + s * inv, when d * inv + rem == 32768. */
  lemma FloorProduct(q: int, s: int, d: int, inv: int, rem: int)
    requires d * inv + rem == 32768
    ensures (q * d + s) * inv == 32768 * q - q * rem + s * inv
  {
    assert (q * d + s) * inv == q * (d * inv) + s * inv;
    assert q * (d * inv) == q * (32768 - rem);
  }

  /** For a divisor in 2..256 and a channel sum in 0..16384 (a cell holds at most
      64 * 255 = 16320 per channel), the kernel returns the quotient rounded: never
      below the floor of ch / d and never above ch / d rounded half up. */
  lemma DivChannelRounds(ch: i16, d: int)
    requires 2 <= d <= 256 && 0 <= ch <= 0x4000
    ensures ch / d <= DivChannel(ch, d)
    ensures 2 * DivChannel(ch, d) * d <= 2 * ch + d
  {
    DivChannelUnsignedRounds(ch, d);
  }

  /** The same bounds in whole numbers: the result is the floor of ch / d or its ceiling,
      and exactly ch / d when d divides ch. */
  lemma DivChannelFloorOrCeil(ch: i16, d: int)
    requires 2 <= d <= 256 && 0 <= ch <= 0x4000
    ensures DivChannel(ch, d) == ch / d || (ch % d != 0 && DivChannel(ch, d) == ch / d + 1)
  {
    DivChannelRounds(ch, d);
    FloorOrCeil(ch, d, DivChannel(ch, d));
  }

  /** An integer r with ch / d <= r and r <= ch / d + 1/2 is the floor or the ceiling. */
  lemma FloorOrCeil(ch: nat, d: int, r: int)
    requires 1 <= d && ch / d <= r && 2 * r * d <= 2 * ch + d
    ensures r == ch / d || (ch % d != 0 && r == ch / d + 1)
  {
    var q, s := ch / d, ch % d;
    assert ch == q * d + s && s < d;
    if r >= q + 2 {
      MulMonotone(d, q + 2, r);
    }
    if r == q + 1 {
      assert 2 * r * d == 2 * (q * d) + 2 * d;
    }
  }

  /** The result need not be the nearest integer: 2057 / 9 is about 228.56, yet the
      kernel returns 228. */
  lemma DivChannelNotNearest(ch: i16, d: int)
    requires ch == 2057 && d == 9
    ensures DivChannel(ch, d) == 228
    ensures 229 * d - ch < ch - 228 * d
  {
    assert LaneReciprocal(d) == 3640;
  }

  /** Above 16384 the truncated reciprocal can pull the result below the floor:
      24579 / 3 is 8193, yet the kernel returns 8192. Sums of a 64-pixel cell stay at
      or below 64 * 255, where DivChannelFloorOrCeil applies. */
  lemma DivChannelBelowFloor(ch: i16, d: int)
    requires ch == 24579 && d == 3
    ensures DivChannel(ch, d) == 8192
    ensures ch / d == 8193
  {
    assert LaneReciprocal(d) == 10922;
  }

  /** The unsigned-reciprocal computation rounds the same way for every divisor in 1..256. */
  lemma DivChannelUnsignedRounds(ch: i16, d: int)
    requires 1 <= d <= 256 && 0 <= ch <= 0x4000
    ensures ch / d <= DivChannelUnsigned(ch, d)
    ensures 2 * DivChannelUnsigned(ch, d) * d <= 2 * ch + d
  {
    var inv := Reciprocal(d);
    RoundedQuotient(ch, d, inv);
    MulMonotone(ch, inv, 0x8000);
    MulMonotone(0x8000, ch, 0x4000);
    var x := (ch * inv + 0x4000) / 0x8000;
    assert 0 <= x < 0x8000;
    assert DivChannelUnsigned(ch, d) == x;
  }

  /** When d divides the channel sum the unsigned-reciprocal result is the exact quotient. */
  lemma DivChannelUnsignedExact(ch: i16, d: int)
    requires 1 <= d <= 256 && 0 <= ch <= 0x4000 && ch % d == 0
    ensures DivChannelUnsigned(ch, d) == ch / d
  {
    DivChannelUnsignedRounds(ch, d);
    OnlyIntegerWithinHalf(ch / d, d, DivChannelUnsigned(ch, d));
  }

  /** The only integer r >= q with r * d <= q * d + d / 2 is q itself. */
  lemma OnlyIntegerWithinHalf(q: int, d: int, r: int)
    requires 1 <= d && q <= r && 2 * r * d <= 2 * (q * d) + d
    ensures r == q
  {
    if r > q {
      MulMonotone(d, q + 1, r);
    }
  }

  /** Divisor 1, as written: the entry 32768 becomes -32768 in a signed lane, so the
      channel is negated (and -32768 saturates to 32767) instead of kept. */
  lemma DivByOneNegates(ch: i16)
    ensures DivChannel(ch, 1) == if ch == -0x8000 then 0x7FFF else -ch
  {
    assert LaneReciprocal(1) == -0x8000;
    assert (ch * -0x8000 + 0x4000) / 0x8000 == -(ch as int);
  }

  /** Divisor 1 with the reciprocal read as unsigned leaves the channel unchanged. */
  lemma DivByOneUnsignedKeeps(ch: i16)
    ensures DivChannelUnsigned(ch, 1) == ch
  {
    assert Reciprocal(1) == 0x8000;
    assert (ch * 0x8000 + 0x4000) / 0x8000 == ch;
  }

  /** The two computations differ only at divisor 1. */
  lemma DivChannelAgreesAwayFromOne(ch: i16, d: int)
    requires 0 <= d <= 256 && d != 1
    ensures DivChannel(ch, d) == DivChannelUnsigned(ch, d)
  {
  }

  /** n equal pixels divided by their count give the pixel back: for a count in 2..64
      the kernel returns v from n * v. */
  lemma MeanOfEqualValues(v: byte, n: int)
    requires 2 <= n <= SymbolPixels
    ensures DivChannel(n * v, n) == v
  {
    MulMonotone(n, v, 255);
    MulMonotone(255, n, 64);
    assert (n * v) % n == 0 && (n * v) / n == v by {
      MultipleDivides(v, n);
    }
    DivChannelUnsignedExact(n * v, n);
  }

  /** (v * n) / n == v and (v * n) % n == 0 for n >= 1. */
  lemma MultipleDivides(v: nat, n: int)
    requires 1 <= n
    ensures (n * v) / n == v && (n * v) % n == 0
  {
    var q, r := (n * v) / n, (n * v) % n;
    assert n * v == q * n + r && 0 <= r < n;
    if q < v {
      MulMonotone(n, q + 1, v);
    } else if q > v {
      MulMonotone(n, v + 1, q);
    }
  }

  /** A uniform cell of n pixels, all set in the mask, extracted and then divided by n,
      gives back each channel of the pixel, for n in 2..64. */
  lemma UniformCellMean(p: Pixel, n: int, c: Channel)
    requires 2 <= n <= SymbolPixels
    ensures FgSum(seq(n, _ => p), seq(n, _ => 0xFFFF_FFFF), c) == n * p.Ch(c)
    ensures DivChannel(n * p.Ch(c), n) == p.Ch(c)
  {
    UniformCellSums(p, n, c);
    MeanOfEqualValues(p.Ch(c), n);
  }

  /** The same one-pixel group divided by its count, as written, comes back negated. */
  lemma SinglePixelMeanNegated(p: Pixel, w: u32, c: Channel)
    requires w == 0xFFFF_FFFF && p.Ch(c) > 0
    ensures FgSum([p], [w], c) == p.Ch(c)
    ensures DivChannel(p.Ch(c), 1) == -(p.Ch(c) as int)
    ensures DivChannelUnsigned(p.Ch(c), 1) == p.Ch(c)
  {
    assert FgSum([p], [w], c) == FgPart(p, w, c) by {
      assert [p][..0] == [] && [w][..0] == [];
    }
    PartsOfSelectMask(p, w, c);
    DivByOneNegates(p.Ch(c));
    DivByOneUnsignedKeeps(p.Ch(c));
  }
}
