/** convert_alpha: copying a block of premultiplied ARGB32 pixels (one
    native 32-bit word each, alpha in the top byte) into straight RGBA
    bytes. Each colour channel is divided by alpha with rounding; the
    result is stored in an unsigned char, so a value above 255 would wrap. */
module Pixels {

  type Byte = x: int | 0 <= x < 256

  type Word = x: int | 0 <= x < 0x1_0000_0000

  /** The top byte of a pixel word: src >> 24. */
  function AlphaOf(p: Word): Byte
  {
    p / 0x100_0000
  }

  /** (src & 0xff0000) >> 16. */
  function RedOf(p: Word): Byte
  {
    (p / 0x1_0000) % 0x100
  }

  /** (src & 0x00ff00) >> 8. */
  function GreenOf(p: Word): Byte
  {
    (p / 0x100) % 0x100
  }

  /** (src & 0x0000ff) >> 0. */
  function BlueOf(p: Word): Byte
  {
    p % 0x100
  }

  /** The four bytes a pixel word is split into rebuild the word: no bit
      is lost or counted twice. */
  lemma ChannelsRecompose(p: Word)
    ensures p == AlphaOf(p) * 0x100_0000 + RedOf(p) * 0x1_0000 + GreenOf(p) * 0x100 + BlueOf(p)
  {
    var x := p / 0x100;
    var y := p / 0x1_0000;
    assert p == x * 0x100 + BlueOf(p);
    assert x == y * 0x100 + GreenOf(p);
    assert y == AlphaOf(p) * 0x100 + RedOf(p);
  }

  /** One channel divided by a non-zero alpha, rounded, and stored in an
      unsigned char. When the channel does not exceed alpha (as in every
      well-formed premultiplied pixel) no wrap happens and the result is the
      integer nearest to c * 255 / a, halves rounding up. */
  function Unpremultiply(c: Byte, a: Byte): (r: Byte)
    requires a > 0
    ensures c <= a ==> r == (c * 255 + a / 2) / a
    ensures c <= a ==> 2 * (r * a - c * 255) <= a && -(a as int) < 2 * (r * a - c * 255)
  {
    var q := (c * 255 + a / 2) / a;
    RoundedQuotient(c, a, q);
    q % 0x100
  }

  /** The rounded quotient of a channel by alpha is within half of alpha of
      c * 255 (scaled by alpha), and stays below 256 when the channel does
      not exceed alpha. */
  lemma RoundedQuotient(c: Byte, a: Byte, q: int)
    requires a > 0 && q == (c * 255 + a / 2) / a
    ensures q >= 0
    ensures 2 * (q * a - c * 255) <= a && -(a as int) < 2 * (q * a - c * 255)
    ensures c <= a ==> q % 0x100 == q
  {
    QuotientBounds(c * 255 + a / 2, a, q);
    if c <= a {
      QuotientBelow256(c, a, q);
    }
  }

  /** The quotient brackets the dividend. */
  lemma QuotientBounds(x: int, a: int, q: int)
    requires x >= 0 && a > 0 && q == x / a
    ensures q >= 0
    ensures q * a <= x < q * a + a
  {
  }

  /** A channel no larger than alpha divides to at most 255. */
  lemma QuotientBelow256(c: int, a: int, q: int)
    requires 0 <= c <= a && a > 0
    requires q * a <= c * 255 + a / 2
    ensures q < 256
  {
    assert c * 255 <= a * 255;
    assert q * a < 256 * a;
    assert (q - 256) * a < 0 by {
      assert (q - 256) * a == q * a - 256 * a;
    }
  }

  /** A straight RGBA pixel as convert_alpha writes it. */
  datatype Rgba = Rgba(r: Byte, g: Byte, b: Byte, a: Byte)

  /** The bytes of a straight pixel in memory order R, G, B, A. */
  function Bytes(px: Rgba): (bs: seq<Byte>)
    ensures |bs| == 4
  {
    [px.r, px.g, px.b, px.a]
  }

  /** One pixel: alpha is copied; with alpha 0 the colour is black, otherwise
      each channel is unpremultiplied. */
  function ConvertPixel(p: Word): (px: Rgba)
    ensures px.a == AlphaOf(p)
    ensures px.a == 0 ==> px.r == 0 && px.g == 0 && px.b == 0
  {
    var a := AlphaOf(p);
    if a == 0 then Rgba(0, 0, 0, 0)
    else Rgba(Unpremultiply(RedOf(p), a), Unpremultiply(GreenOf(p), a), Unpremultiply(BlueOf(p), a), a)
  }

  /** An opaque pixel keeps its colour: dividing by 255 undoes nothing. */
  lemma OpaqueUnchanged(p: Word)
    requires AlphaOf(p) == 255
    ensures ConvertPixel(p) == Rgba(RedOf(p), GreenOf(p), BlueOf(p), 255)
  {
  }

  /** A well-formed premultiplied pixel (no channel above alpha) converts
      without wrapping: each channel is the nearest integer to c * 255 / a. */
  lemma WellFormedRounds(p: Word)
    requires AlphaOf(p) > 0
    requires RedOf(p) <= AlphaOf(p) && GreenOf(p) <= AlphaOf(p) && BlueOf(p) <= AlphaOf(p)
    ensures var px := ConvertPixel(p);
            var a := AlphaOf(p);
            && px.r == (RedOf(p) * 255 + a / 2) / a
            && px.g == (GreenOf(p) * 255 + a / 2) / a
            && px.b == (BlueOf(p) * 255 + a / 2) / a
  {
  }

  /** A channel above alpha wraps: red 255 under alpha 1 divides to 65025,
      which the unsigned char stores as 1. */
  lemma MalformedWraps()
    ensures ConvertPixel(0x01FF_0000) == Rgba(1, 0, 0, 1)
  {
    var p: Word := 0x01FF_0000;
    assert AlphaOf(p) == 1 && RedOf(p) == 255 && GreenOf(p) == 0 && BlueOf(p) == 0;
    assert Unpremultiply(255, 1) == 65025 % 256 == 1;
  }

  /** The bytes of one converted row: pixel x of the row lands in bytes
      4x .. 4x+3. */
  predicate RowConverted(out: seq<Byte>, row: seq<Word>, srcX: nat, n: nat)
    requires srcX + n <= |row|
  {
    |out| == 4 * n && forall i :: 0 <= i < |out| ==> out[i] == Bytes(ConvertPixel(row[srcX + i / 4]))[i % 4]
  }

  /** Appending the bytes of the next pixel extends a converted row. */
  lemma AppendPixel(out: seq<Byte>, row: seq<Word>, srcX: nat, x: nat)
    requires srcX + x < |row|
    requires RowConverted(out, row, srcX, x)
    ensures RowConverted(out + Bytes(ConvertPixel(row[srcX + x])), row, srcX, x + 1)
  {
    var bs := Bytes(ConvertPixel(row[srcX + x]));
    var o := out + bs;
    forall i | 0 <= i < |o|
      ensures o[i] == Bytes(ConvertPixel(row[srcX + i / 4]))[i % 4]
    {
      if i >= |out| {
        assert i / 4 == x && i % 4 == i - 4 * x;
      }
    }
  }

  /** The inner loop of convert_alpha over one row. */
  method ConvertRow(row: seq<Word>, srcX: nat, width: int) returns (out: seq<Byte>)
    requires width > 0 ==> srcX + width <= |row|
    ensures width <= 0 ==> out == []
    ensures width > 0 ==> RowConverted(out, row, srcX, width)
  {
    out := [];
    var x := 0;
    while x < width
      invariant 0 <= x && (width > 0 ==> x <= width)
      invariant width <= 0 ==> x == 0
      invariant width <= 0 ==> out == []
      invariant width > 0 ==> RowConverted(out, row, srcX, x)
    {
      AppendPixel(out, row, srcX, x);
      out := out + Bytes(ConvertPixel(row[srcX + x]));
      x := x + 1;
    }
  }

  /** convert_alpha over a block of width by height pixels whose top-left
      corner is (srcX, srcY) in the source: dest row y holds the bytes of
      source row srcY + y from column srcX on. Negative sizes convert
      nothing. */
  method ConvertAlpha(src: seq<seq<Word>>, srcX: nat, srcY: nat, width: int, height: int)
    returns (dest: seq<seq<Byte>>)
    requires height > 0 ==> srcY + height <= |src|
    requires width > 0 ==> forall y :: srcY <= y < srcY + height ==> srcX + width <= |src[y]|
    ensures height <= 0 ==> dest == []
    ensures height > 0 ==> |dest| == height
    ensures width <= 0 ==> forall y :: 0 <= y < |dest| ==> dest[y] == []
    ensures width > 0 ==> forall y :: 0 <= y < |dest| ==> RowConverted(dest[y], src[srcY + y], srcX, width)
  {
    dest := [];
    var y := 0;
    while y < height
      invariant 0 <= y && (height > 0 ==> y <= height)
      invariant height <= 0 ==> y == 0
      invariant |dest| == y
      invariant width <= 0 ==> forall j :: 0 <= j < y ==> dest[j] == []
      invariant width > 0 ==> forall j :: 0 <= j < y ==> RowConverted(dest[j], src[srcY + j], srcX, width)
    {
      var row := ConvertRow(src[srcY + y], srcX, width);
      dest := dest + [row];
      y := y + 1;
    }
  }
}
