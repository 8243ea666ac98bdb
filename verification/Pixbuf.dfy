/** Conversion of a GdkPixbuf to a cairo image surface, cairo.c. */
module Pixbuf {
  import opened Bytes

  /** `x` is alpha*colour/255 to the nearest integer; there is only one such `x`. */
  predicate Nearest(x: Byte, colour: Byte, alpha: Byte) {
    -255 <= 2 * (255 * (x as int) - (colour as int) * (alpha as int)) <= 255
  }

  lemma NearestIsOne(x: Byte, y: Byte, colour: Byte, alpha: Byte)
    requires Nearest(x, colour, alpha) && Nearest(y, colour, alpha)
    ensures x == y
  {}

  /** PREMUL_ALPHA: unsigned arithmetic with shifts. */
  function Premul(colour: Byte, alpha: Byte): (x: Byte)
    ensures x <= alpha
    ensures Nearest(x, colour, alpha)
  {
    PremulIsNearest(colour, alpha);
    Shifted((colour as int) * (alpha as int))
  }

  function Shifted(product: nat): nat {
    var z := product + 0x80;
    (z + z / 256) / 256
  }

  lemma PremulIsNearest(colour: Byte, alpha: Byte)
    ensures var x := Shifted((colour as int) * (alpha as int));
            x <= alpha && -255 <= 2 * (255 * x - (colour as int) * (alpha as int)) <= 255
  {
    PremulIsRounded(colour, alpha);
    RoundedIsNearest((colour as int) * (alpha as int));
    PremulAtMostAlpha(colour, alpha);
  }

  /** alpha*colour/255, rounded to the nearest integer. */
  function Rounded(product: nat): nat {
    (2 * product + 255) / 510
  }

  /** The shift form is the rounded division, on every product of two bytes. */
  lemma ShiftFormRounds(product: nat)
    requires product <= 255 * 255
    ensures Shifted(product) == Rounded(product)
  {
    var q := Rounded(product);
    var z := product + 0x80;
    assert 255 * q - 127 <= product <= 255 * q + 127;
    assert q <= 255;
    assert 255 * q + 1 <= z <= 255 * q + 255;
    assert z / 256 == q || (q > 0 && z / 256 == q - 1);
  }

  lemma ProductBound(a: nat, b: nat)
    requires a <= 255 && b <= 255
    ensures a * b <= 255 * b && a * b <= 255 * 255
  {
    assert (255 - a) * b == 255 * b - a * b;
  }

  lemma PremulIsRounded(colour: Byte, alpha: Byte)
    ensures Shifted((colour as int) * (alpha as int)) == Rounded((colour as int) * (alpha as int))
  {
    ProductBound(colour, alpha);
    ShiftFormRounds((colour as int) * (alpha as int));
  }

  lemma PremulAtMostAlpha(colour: Byte, alpha: Byte)
    ensures Rounded((colour as int) * (alpha as int)) <= alpha
  {
    ProductBound(colour, alpha);
  }

  /** The value is the nearest integer to the exact quotient. */
  lemma RoundedIsNearest(product: nat)
    ensures -255 <= 2 * (255 * Rounded(product) - product) <= 255
  {}

  /** The four bytes of the target at `at` show the pixel of the source at `from` (red, green, blue and perhaps
      alpha), in the byte order of cairo's pixels: opaque colours are copied and the unused byte is left alone, others
      are premultiplied. */
  ghost predicate PixelDone(
    dst: seq<Byte>, before: seq<Byte>, at: nat, src: seq<Byte>, from: nat, chan: nat, le: bool) {
    && |dst| == |before| && at + 4 <= |dst| && from + chan <= |src|
    && (chan == 3 || chan == 4)
    && (chan == 3 ==>
          if le then
            dst[at] == src[from + 2] && dst[at + 1] == src[from + 1] && dst[at + 2] == src[from]
            && dst[at + 3] == before[at + 3]
          else
            dst[at] == before[at] && dst[at + 1] == src[from] && dst[at + 2] == src[from + 1]
            && dst[at + 3] == src[from + 2])
    && (chan == 4 ==>
          var alpha := src[from + 3];
          if le then
            Nearest(dst[at], src[from + 2], alpha) && Nearest(dst[at + 1], src[from + 1], alpha)
            && Nearest(dst[at + 2], src[from], alpha) && dst[at + 3] == alpha
          else
            dst[at] == alpha && Nearest(dst[at + 1], src[from], alpha)
            && Nearest(dst[at + 2], src[from + 1], alpha) && Nearest(dst[at + 3], src[from + 2], alpha))
  }

  /** Four bytes as a 32-bit word of the machine. */
  function Word(q: seq<Byte>, littleEndian: bool): nat
    requires |q| == 4
  {
    if littleEndian then q[0] + 0x100 * (q[1] as int) + 0x1_0000 * (q[2] as int) + 0x100_0000 * (q[3] as int)
    else q[3] + 0x100 * (q[2] as int) + 0x1_0000 * (q[1] as int) + 0x100_0000 * (q[0] as int)
  }

  /** Cairo's formats are machine words: on either byte order the word of a converted pixel has red, green and
      blue in its low three bytes, from high to low, and with four channels alpha above them, the colours then
      being the nearest integers to alpha*colour/255. */
  lemma PixelWord(dst: seq<Byte>, before: seq<Byte>, at: nat, src: seq<Byte>, from: nat, chan: nat, le: bool)
    requires PixelDone(dst, before, at, src, from, chan, le)
    ensures var w := Word(dst[at..at + 4], le);
            var r, g, b := w / 0x1_0000 % 0x100, w / 0x100 % 0x100, w % 0x100;
            if chan == 3 then r == src[from] && g == src[from + 1] && b == src[from + 2]
            else
              var alpha := src[from + 3];
              && w / 0x100_0000 == alpha
              && Nearest(r, src[from], alpha) && Nearest(g, src[from + 1], alpha) && Nearest(b, src[from + 2], alpha)
  {
    var q := dst[at..at + 4];
    if le {
      WordParts(q[3], q[2], q[1], q[0]);
    } else {
      WordParts(q[0], q[1], q[2], q[3]);
    }
  }

  lemma WordParts(a: Byte, r: Byte, g: Byte, b: Byte)
    ensures var w := b + 0x100 * (g as int) + 0x1_0000 * (r as int) + 0x100_0000 * (a as int);
            w / 0x100_0000 == a && w / 0x1_0000 % 0x100 == r && w / 0x100 % 0x100 == g && w % 0x100 == b
  {
    var w := b + 0x100 * (g as int) + 0x1_0000 * (r as int) + 0x100_0000 * (a as int);
    var high: nat := 0x100 * (a as int) + r;
    LowByte(a, r);
    LowByte(high, g);
    LowByte(0x100 * high + g, b);
    assert w == 0x100 * (0x100 * high + g) + b;
    assert w / 0x100 == 0x100 * high + g;
    DivideTwice(w);
    DivideTwice(w / 0x100);
  }

  lemma LowByte(x: nat, y: Byte)
    ensures (0x100 * x + y) / 0x100 == x && (0x100 * x + y) % 0x100 == y
  {}

  lemma DivideTwice(x: nat)
    ensures x / 0x100 / 0x100 == x / 0x1_0000 && x / 0x1_0000 / 0x100 == x / 0x100_0000
  {}

  /** Pixel `j` of the row at `at` is converted from the row at `from`. */
  ghost predicate NthDone(dst: seq<Byte>, before: seq<Byte>, at: nat, src: seq<Byte>, from: nat, chan: nat, le: bool,
                          j: nat) {
    PixelDone(dst, before, at + 4 * j, src, from + Offset(chan, j), chan, le)
  }

  /** Where pixel `j` of a row starts: chan * j, for the two numbers of channels that occur. */
  function Offset(chan: nat, j: nat): (o: nat)
    ensures o == chan * j
  {
    if chan == 3 then 3 * j else if chan == 4 then 4 * j else chan * j
  }

  /** The first `n` pixels are. */
  ghost predicate RowDone(dst: seq<Byte>, before: seq<Byte>, at: nat, src: seq<Byte>, from: nat, chan: nat, n: nat,
                          le: bool) {
    forall j | 0 <= j < n :: NthDone(dst, before, at, src, from, chan, le, j)
  }

  /** One pixel, at `cp`, from the source at `gp`. */
  method ConvertPixel(dst: array<Byte>, cp: nat, src: array<Byte>, gp: nat, chan: nat, littleEndian: bool)
    requires chan == 3 || chan == 4
    requires dst != src && gp + chan <= src.Length && cp + 4 <= dst.Length
    modifies dst
    ensures forall i | 0 <= i < dst.Length && !(cp <= i < cp + 4) :: dst[i] == old(dst[i])
    ensures PixelDone(dst[..], old(dst[..]), cp, src[..], gp, chan, littleEndian)
  {
    if chan == 3 {
      if littleEndian {
        dst[cp] := src[gp + 2];
        dst[cp + 1] := src[gp + 1];
        dst[cp + 2] := src[gp];
      } else {
        dst[cp + 1] := src[gp];
        dst[cp + 2] := src[gp + 1];
        dst[cp + 3] := src[gp + 2];
      }
    } else {
      if littleEndian {
        dst[cp] := Premul(src[gp + 2], src[gp + 3]);
        dst[cp + 1] := Premul(src[gp + 1], src[gp + 3]);
        dst[cp + 2] := Premul(src[gp], src[gp + 3]);
        dst[cp + 3] := src[gp + 3];
      } else {
        dst[cp + 1] := Premul(src[gp], src[gp + 3]);
        dst[cp + 2] := Premul(src[gp + 1], src[gp + 3]);
        dst[cp + 3] := Premul(src[gp + 2], src[gp + 3]);
        dst[cp] := src[gp + 3];
      }
    }
  }

  /** The inner loop: one row of `w` pixels. */
  method ConvertRow(dst: array<Byte>, cpix: nat, src: array<Byte>, gdkpix: nat, chan: nat, w: nat, littleEndian: bool)
    requires chan == 3 || chan == 4
    requires dst != src && gdkpix + Offset(chan, w) <= src.Length && cpix + 4 * w <= dst.Length
    modifies dst
    ensures forall i | 0 <= i < dst.Length && !(cpix <= i < cpix + 4 * w) :: dst[i] == old(dst[i])
    ensures RowDone(dst[..], old(dst[..]), cpix, src[..], gdkpix, chan, w, littleEndian)
  {
    ghost var before := dst[..];
    var gp, cp := gdkpix, cpix;
    var end := gp + chan * w;
    ghost var n := 0;
    while gp < end
      invariant 0 <= n <= w && gp == gdkpix + Offset(chan, n) && cp == cpix + 4 * n && end == gdkpix + Offset(chan, w)
      invariant forall i | 0 <= i < dst.Length && !(cpix <= i < cp) :: dst[i] == before[i]
      invariant RowDone(dst[..], before, cpix, src[..], gdkpix, chan, n, littleEndian)
      decreases end - gp
    {
      ghost var sofar := dst[..];
      PixelLeft(gdkpix, chan, n, w);
      ConvertPixel(dst, cp, src, gp, chan, littleEndian);
      NextPixel(dst[..], sofar, before, cpix, src[..], gdkpix, chan, n, littleEndian);
      gp := gp + chan;
      cp := cp + 4;
      n := n + 1;
    }
  }

  lemma PixelLeft(from: nat, chan: nat, n: nat, w: nat)
    requires (chan == 3 || chan == 4) && from + Offset(chan, n) < from + Offset(chan, w)
    ensures n < w && Offset(chan, n) + chan == Offset(chan, n + 1) <= Offset(chan, w)
  {}

  lemma PixelKept(dst: seq<Byte>, sofar: seq<Byte>, before: seq<Byte>, at: nat, src: seq<Byte>, from: nat, chan: nat,
                  le: bool)
    requires |dst| == |sofar| && PixelDone(sofar, before, at, src, from, chan, le)
    requires forall i | at <= i < at + 4 && i < |dst| :: dst[i] == sofar[i]
    ensures PixelDone(dst, before, at, src, from, chan, le)
  {
  }

  lemma NextPixel(dst: seq<Byte>, sofar: seq<Byte>, before: seq<Byte>, at: nat, src: seq<Byte>, from: nat, chan: nat,
                  n: nat, le: bool)
    requires |dst| == |sofar| == |before| && at + 4 * n + 4 <= |dst|
    requires RowDone(sofar, before, at, src, from, chan, n, le)
    requires forall i | 0 <= i < |dst| && !(at <= i < at + 4 * n) :: sofar[i] == before[i]
    requires forall i | 0 <= i < |dst| && !(at + 4 * n <= i < at + 4 * n + 4) :: dst[i] == sofar[i]
    requires PixelDone(dst, sofar, at + 4 * n, src, from + Offset(chan, n), chan, le)
    ensures RowDone(dst, before, at, src, from, chan, n + 1, le)
  {
    forall j | 0 <= j < n + 1 ensures NthDone(dst, before, at, src, from, chan, le, j) {
      if j < n {
        assert NthDone(sofar, before, at, src, from, chan, le, j);
        PixelKept(dst, sofar, before, at + 4 * j, src, from + Offset(chan, j), chan, le);
      } else {
        PixelSince(dst, sofar, before, at + 4 * n, src, from + Offset(chan, n), chan, le);
      }
    }
  }

  lemma PixelSince(dst: seq<Byte>, sofar: seq<Byte>, before: seq<Byte>, at: nat, src: seq<Byte>, from: nat, chan: nat,
                   le: bool)
    requires |sofar| == |before| && PixelDone(dst, sofar, at, src, from, chan, le)
    requires forall i | at <= i < at + 4 && i < |before| :: sofar[i] == before[i]
    ensures PixelDone(dst, before, at, src, from, chan, le)
  {
  }

  /** Where row `i` starts, when rows are `stride` bytes apart. */
  function RowStart(i: nat, stride: nat): nat {
    if i == 0 then 0 else RowStart(i - 1, stride) + stride
  }

  lemma {:induction false} RowStartIs(i: nat, stride: nat)
    ensures RowStart(i, stride) == i * stride
  {
    if i > 0 {
      RowStartIs(i - 1, stride);
      assert i * stride == (i - 1) * stride + stride;
    }
  }

  lemma {:induction false} RowsApart(i: nat, j: nat, stride: nat)
    requires i < j
    ensures RowStart(i, stride) + stride <= RowStart(j, stride)
  {
    if i + 1 < j {
      RowsApart(i, j - 1, stride);
    }
  }

  /** A byte of the target that belongs to a pixel. */
  ghost predicate InPixels(b: nat, h: nat, w: nat, stride: nat) {
    exists i | 0 <= i < h :: RowStart(i, stride) <= b < RowStart(i, stride) + 4 * w
  }

  ghost predicate Enough(length: nat, h: nat, stride: nat, row: nat) {
    row <= stride && (h > 0 ==> RowStart(h - 1, stride) + row <= length)
  }

  lemma RowInBounds(length: nat, h: nat, stride: nat, row: nat, i: nat)
    requires Enough(length, h, stride, row) && i < h
    ensures RowStart(i, stride) + row <= length
  {
    if i < h - 1 {
      RowsApart(i, h - 1, stride);
    }
  }

  ghost predicate RowConverted(dst: seq<Byte>, before: seq<Byte>, src: seq<Byte>, i: nat, chan: nat, w: nat,
                               stride: nat, cstride: nat, le: bool) {
    RowDone(dst, before, RowStart(i, cstride), src, RowStart(i, stride), chan, w, le)
  }

  /** gdk_cairo_image_surface_create_from_pixbuf: with three channels the colours are copied, with four they
      are premultiplied; every pixel of every row is converted, and nothing else in the target changes. */
  method Convert(
    dst: array<Byte>, src: array<Byte>, chan: nat, w: nat, h: nat, stride: nat, cstride: nat, littleEndian: bool)
    requires (chan == 3 || chan == 4) && dst != src
    requires Enough(src.Length, h, stride, chan * w) && Enough(dst.Length, h, cstride, 4 * w)
    modifies dst
    ensures forall i | 0 <= i < h ::
              RowConverted(dst[..], old(dst[..]), src[..], i, chan, w, stride, cstride, littleEndian)
    ensures forall b | 0 <= b < dst.Length && !InPixels(b, h, w, cstride) :: dst[b] == old(dst[b])
  {
    ghost var before := dst[..];
    var gdkpix, cpix := 0, 0;
    for r := 0 to h
      invariant gdkpix == RowStart(r, stride) && cpix == RowStart(r, cstride)
      invariant forall i | 0 <= i < r ::
                  RowConverted(dst[..], before, src[..], i, chan, w, stride, cstride, littleEndian)
      invariant forall b | 0 <= b < dst.Length && !InPixels(b, r, w, cstride) :: dst[b] == before[b]
    {
      RowInBounds(src.Length, h, stride, chan * w, r);
      RowInBounds(dst.Length, h, cstride, 4 * w, r);
      ghost var sofar := dst[..];
      ConvertRow(dst, cpix, src, gdkpix, chan, w, littleEndian);
      NextRow(dst[..], sofar, before, src[..], r, chan, w, stride, cstride, littleEndian);
      gdkpix := gdkpix + stride;
      cpix := cpix + cstride;
    }
  }

  /** Spelt out for one pixel: pixel `j` of row `i`, at i * cstride + 4 * j in the target and i * stride + chan * j
      in the source. */
  lemma ConvertedPixel(dst: seq<Byte>, before: seq<Byte>, src: seq<Byte>, i: nat, j: nat, chan: nat, w: nat,
                       stride: nat, cstride: nat, le: bool)
    requires RowConverted(dst, before, src, i, chan, w, stride, cstride, le) && j < w
    ensures PixelDone(dst, before, i * cstride + 4 * j, src, i * stride + chan * j, chan, le)
  {
    RowStartIs(i, cstride);
    RowStartIs(i, stride);
    assert NthDone(dst, before, RowStart(i, cstride), src, RowStart(i, stride), chan, le, j);
  }

  predicate InRow(b: nat, r: nat, w: nat, cstride: nat) {
    RowStart(r, cstride) <= b < RowStart(r, cstride) + 4 * w
  }

  lemma NextRow(dst: seq<Byte>, sofar: seq<Byte>, before: seq<Byte>, src: seq<Byte>, r: nat, chan: nat, w: nat,
                stride: nat, cstride: nat, le: bool)
    requires 4 * w <= cstride && |dst| == |sofar| == |before|
    requires RowConverted(dst, sofar, src, r, chan, w, stride, cstride, le)
    requires forall i | 0 <= i < r :: RowConverted(sofar, before, src, i, chan, w, stride, cstride, le)
    requires forall b | 0 <= b < |dst| && !InPixels(b, r, w, cstride) :: sofar[b] == before[b]
    requires forall b | 0 <= b < |dst| && !InRow(b, r, w, cstride) :: dst[b] == sofar[b]
    ensures forall i | 0 <= i < r + 1 :: RowConverted(dst, before, src, i, chan, w, stride, cstride, le)
    ensures forall b | 0 <= b < |dst| && !InPixels(b, r + 1, w, cstride) :: dst[b] == before[b]
  {
    forall i | 0 <= i < r + 1 ensures RowConverted(dst, before, src, i, chan, w, stride, cstride, le) {
      if i < r {
        EarlierRow(dst, sofar, before, src, i, r, chan, w, stride, cstride, le);
      } else {
        CurrentRow(dst, sofar, before, src, r, chan, w, stride, cstride, le);
      }
    }
    forall b | 0 <= b < |dst| && !InPixels(b, r + 1, w, cstride) ensures dst[b] == before[b] {
      StillOutside(b, r, w, cstride);
    }
  }

  lemma StillOutside(b: nat, r: nat, w: nat, cstride: nat)
    requires !InPixels(b, r + 1, w, cstride)
    ensures !InPixels(b, r, w, cstride) && !InRow(b, r, w, cstride)
  {}

  /** Rows do not overlap: a later row leaves an earlier one as it is. */
  lemma EarlierRow(dst: seq<Byte>, sofar: seq<Byte>, before: seq<Byte>, src: seq<Byte>, i: nat, r: nat, chan: nat,
                   w: nat, stride: nat, cstride: nat, le: bool)
    requires i < r && 4 * w <= cstride && |dst| == |sofar| == |before|
    requires RowConverted(sofar, before, src, i, chan, w, stride, cstride, le)
    requires forall b | 0 <= b < |dst| && !InRow(b, r, w, cstride) :: dst[b] == sofar[b]
    ensures RowConverted(dst, before, src, i, chan, w, stride, cstride, le)
  {
    RowsApart(i, r, cstride);
    var at, from := RowStart(i, cstride), RowStart(i, stride);
    forall j | 0 <= j < w ensures NthDone(dst, before, at, src, from, chan, le, j) {
      assert NthDone(sofar, before, at, src, from, chan, le, j);
      PixelKept(dst, sofar, before, at + 4 * j, src, from + Offset(chan, j), chan, le);
    }
  }

  lemma CurrentRow(dst: seq<Byte>, sofar: seq<Byte>, before: seq<Byte>, src: seq<Byte>, r: nat, chan: nat, w: nat,
                   stride: nat, cstride: nat, le: bool)
    requires 4 * w <= cstride && |dst| == |sofar| == |before|
    requires RowConverted(dst, sofar, src, r, chan, w, stride, cstride, le)
    requires forall b | 0 <= b < |dst| && !InPixels(b, r, w, cstride) :: sofar[b] == before[b]
    ensures RowConverted(dst, before, src, r, chan, w, stride, cstride, le)
  {
    var at, from := RowStart(r, cstride), RowStart(r, stride);
    forall k | at <= k < |dst| ensures sofar[k] == before[k] {
      NotInEarlier(k, r, w, cstride);
    }
    forall j | 0 <= j < w ensures NthDone(dst, before, at, src, from, chan, le, j) {
      assert NthDone(dst, sofar, at, src, from, chan, le, j);
      PixelSince(dst, sofar, before, at + 4 * j, src, from + Offset(chan, j), chan, le);
    }
  }

  lemma NotInEarlier(b: nat, r: nat, w: nat, cstride: nat)
    requires 4 * w <= cstride && RowStart(r, cstride) <= b
    ensures !InPixels(b, r, w, cstride)
  {
    forall i | 0 <= i < r ensures !(RowStart(i, cstride) <= b < RowStart(i, cstride) + 4 * w) {
      RowsApart(i, r, cstride);
    }
  }
}
