/** Shared data model of the cell kernels: colours and pixels (4 bytes, R G B A),
    colour pairs, 32-bit coverage mask words and the bitwise operations applied to
    them, the 16- and 32-bit integer widths the kernels compute in, and the colour
    accumulator the mean-colour kernels write. */
module CellTypes {

  /** Pixels in one terminal cell (CHAFA_SYMBOL_N_PIXELS); the kernels need a multiple of 4. */
  const SymbolPixels: nat := 64

  /** Index of a colour channel: 0 = red, 1 = green, 2 = blue, 3 = alpha. */
  type Channel = c: int | 0 <= c < 4

  /** An unsigned 8-bit value (guint8). */
  type byte = x: int | 0 <= x < 0x100

  /** A signed 16-bit integer (gint16, one lane of an i16x8 vector). */
  type i16 = x: int | -0x8000 <= x < 0x8000

  /** An unsigned 32-bit value (guint32), the type of a mask word. */
  type u32 = x: int | 0 <= x < 0x1_0000_0000

  /** A colour, or a pixel: four unsigned bytes, stored R, G, B, A in memory. */
  datatype Color = Color(r: byte, g: byte, b: byte, a: byte)
  {
    function Ch(c: Channel): byte
    {
      match c
      case 0 => r
      case 1 => g
      case 2 => b
      case _ => a
    }
  }

  type Pixel = Color

  /** The foreground/background pair a cell is approximated by. */
  datatype ColorPair = ColorPair(fg: Color, bg: Color)

  /** A mask word meant for selection: all bits clear (background) or all set (foreground). */
  predicate IsSelectMask(w: u32)
  {
    w == 0 || w == 0xFFFF_FFFF
  }

  /** The byte of a little-endian mask word that lines up with channel c of a pixel. */
  function MaskByte(w: u32, c: Channel): byte
  {
    match c
    case 0 => w % 0x100
    case 1 => w / 0x100 % 0x100
    case 2 => w / 0x1_0000 % 0x100
    case _ => w / 0x100_0000
  }

  /** 2 to the power k. */
  function Pow2(k: nat): (p: nat)
    ensures p >= 1
  {
    if k == 0 then 1 else 2 * Pow2(k - 1)
  }

  /** Bit-select on the low k bits: each bit from f where the same bit of m is set, from
      b where it is clear (wasm_v128_bitselect). With b = 0 it is `f & m`, with f = 0 it
      is `b & ~m`. */
  function SelectBits(f: nat, b: nat, m: nat, k: nat): (r: nat)
    ensures r < Pow2(k)
  {
    if k == 0 then 0
    else 2 * SelectBits(f / 2, b / 2, m / 2, k - 1) + (if m % 2 == 1 then f % 2 else b % 2)
  }

  /** The low k bits of x. */
  function LowBits(x: nat, k: nat): (r: nat)
    ensures r < Pow2(k)
  {
    if k == 0 then 0 else 2 * LowBits(x / 2, k - 1) + x % 2
  }

  /** A value that fits in k bits is its own low k bits. */
  lemma {:induction false} LowBitsOfSmall(x: nat, k: nat)
    requires x < Pow2(k)
    ensures LowBits(x, k) == x
  {
    if k > 0 {
      LowBitsOfSmall(x / 2, k - 1);
    }
  }

  /** A mask of all ones selects f, a mask of zero selects b. */
  lemma {:induction false} SelectBitsAllOrNothing(f: nat, b: nat, k: nat)
    ensures SelectBits(f, b, Pow2(k) - 1, k) == LowBits(f, k)
    ensures SelectBits(f, b, 0, k) == LowBits(b, k)
  {
    if k > 0 {
      var m := Pow2(k) - 1;
      assert m == 2 * (Pow2(k - 1) - 1) + 1;
      assert m / 2 == Pow2(k - 1) - 1 && m % 2 == 1;
      SelectBitsAllOrNothing(f / 2, b / 2, k - 1);
    }
  }

  /** `x & m` and `x & ~m` share no bit and together hold the low k bits of x. */
  lemma {:induction false} SelectBitsSplit(x: nat, m: nat, k: nat)
    ensures SelectBits(x, 0, m, k) + SelectBits(0, x, m, k) == LowBits(x, k)
  {
    if k > 0 {
      SelectBitsSplit(x / 2, m / 2, k - 1);
    }
  }

  /** Bit-select on one byte. */
  function BitSelect(f: byte, b: byte, m: byte): byte
  {
    SelectBits(f, b, m, 8)
  }

  /** A mask byte of all ones selects f, a zero mask byte selects b. */
  lemma BitSelectAllOrNothing(f: byte, b: byte, m: byte)
    requires m == 0xFF || m == 0
    ensures BitSelect(f, b, m) == if m == 0 then b else f
  {
    SelectBitsAllOrNothing(f, b, 8);
    LowBitsOfSmall(f, 8);
    LowBitsOfSmall(b, 8);
  }

  /** The colour the mask word w picks from the pair, channel by channel. */
  function Selected(pair: ColorPair, w: u32): Color
  {
    Color(BitSelect(pair.fg.r, pair.bg.r, MaskByte(w, 0)),
          BitSelect(pair.fg.g, pair.bg.g, MaskByte(w, 1)),
          BitSelect(pair.fg.b, pair.bg.b, MaskByte(w, 2)),
          BitSelect(pair.fg.a, pair.bg.a, MaskByte(w, 3)))
  }

  /** Every byte of a selection mask word is 0x00 or 0xFF with it. */
  lemma MaskByteOfSelectMask(w: u32, c: Channel)
    requires IsSelectMask(w)
    ensures MaskByte(w, c) == if w == 0 then 0 else 0xFF
  {
  }

  /** Under a selection mask word, each byte picks wholly from one side. */
  lemma BitSelectBySelectMask(f: byte, b: byte, w: u32, c: Channel)
    requires IsSelectMask(w)
    ensures BitSelect(f, b, MaskByte(w, c)) == if w == 0 then b else f
  {
    MaskByteOfSelectMask(w, c);
    BitSelectAllOrNothing(f, b, MaskByte(w, c));
  }

  /** A selection mask word picks the foreground when set and the background when clear. */
  lemma SelectedBySelectMask(pair: ColorPair, w: u32)
    requires IsSelectMask(w)
    ensures Selected(pair, w) == if w == 0 then pair.bg else pair.fg
  {
    BitSelectBySelectMask(pair.fg.r, pair.bg.r, w, 0);
    BitSelectBySelectMask(pair.fg.g, pair.bg.g, w, 1);
    BitSelectBySelectMask(pair.fg.b, pair.bg.b, w, 2);
    BitSelectBySelectMask(pair.fg.a, pair.bg.a, w, 3);
  }

  /** Two's-complement wrap to 16 bits, as an i16 lane does on overflow. */
  function WrapI16(x: int): (r: i16)
    ensures -0x8000 <= x < 0x8000 ==> r == x
  {
    var m := x % 0x1_0000;
    if m >= 0x8000 then m - 0x1_0000 else m
  }

  /** Two's-complement wrap to 32 bits, as an i32 lane does on overflow. */
  function WrapI32(x: int): (r: int)
    ensures -0x8000_0000 <= r < 0x8000_0000
    ensures -0x8000_0000 <= x < 0x8000_0000 ==> r == x
  {
    var m := x % 0x1_0000_0000;
    if m >= 0x8000_0000 then m - 0x1_0000_0000 else m
  }

  /** The square of an integer; zero only for zero. */
  function Square(d: int): (s: nat)
    ensures s == 0 <==> d == 0
  {
    d * d
  }

  /** 0 <= a * b <= a * c when 0 <= a and 0 <= b <= c. */
  lemma MulMonotone(a: int, b: int, c: int)
    requires 0 <= a && 0 <= b <= c
    ensures 0 <= a * b <= a * c
  {
  }

  /** The square of a number whose magnitude is at most m is at most m * m. */
  lemma SquareAtMost(d: int, m: int)
    requires -m <= d <= m
    ensures Square(d) <= m * m
  {
    var a := if d < 0 then -d else d;
    assert d * d == a * a;
    MulMonotone(a, a, m);
    MulMonotone(m, a, m);
  }

  /** ChafaColorAccum: four signed 16-bit channel sums, updated in place. */
  class ColorAccum {
    const ch: array<i16>

    /** The class invariant: one channel per colour component. */
    predicate Valid()
    {
      ch.Length == 4
    }

    constructor ()
      ensures Valid() && fresh(ch) && ch[..] == [0, 0, 0, 0]
    {
      ch := new i16[4](_ => 0);
    }
  }
}
