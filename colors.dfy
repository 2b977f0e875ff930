/**
 * The colour structs of src/tga.rs and their byte layout. The source is generic over a
 * `ColorSpace` trait implemented by three structs; here the three structs are the
 * variants of one datatype `Color`, and `ColorSpace` names which variant a buffer holds.
 */
module Colors {

  type Byte = b: int | 0 <= b < 256

  /** The three implementations of the source's `ColorSpace` trait. */
  datatype ColorSpace = Grayscale | Rgb | Rgba {

    /** `ColorSpace::BYTE_PER_PIXEL`. */
    function BytesPerPixel(): (n: nat)
      ensures n == 1 || n == 3 || n == 4
      ensures n == 1 <==> this == Grayscale
    {
      match this
      case Grayscale => 1
      case Rgb => 3
      case Rgba => 4
    }

    /** `ColorSpace::new()`: every channel zero. */
    function Zero(): (c: Color)
      ensures c.Space() == this
      ensures forall k :: 0 <= k < |PixelBytes(c)| ==> PixelBytes(c)[k] == 0
    {
      match this
      case Grayscale => Gray(0)
      case Rgb => Bgr(0, 0, 0)
      case Rgba => Bgra(0, 0, 0, 0)
    }
  }

  /**
   * A pixel value. The RGB and RGBA structs declare their fields in the order
   * b, g, r(, a); the model assumes their bytes are laid out in that order.
   */
  datatype Color =
    | Gray(i: Byte)
    | Bgr(b: Byte, g: Byte, r: Byte)
    | Bgra(b: Byte, g: Byte, r: Byte, a: Byte)
  {
    function Space(): ColorSpace
    {
      match this
      case Gray(_) => Grayscale
      case Bgr(_, _, _) => Rgb
      case Bgra(_, _, _, _) => Rgba
    }
  }

  /**
   * The bytes of one pixel as the source's pointer cast exposes them: the fields in
   * declaration order, one byte each.
   */
  function PixelBytes(c: Color): (s: seq<Byte>)
    ensures |s| == c.Space().BytesPerPixel()
  {
    match c
    case Gray(i) => [i]
    case Bgr(b, g, r) => [b, g, r]
    case Bgra(b, g, r, a) => [b, g, r, a]
  }

  /** Reads one pixel of the given colour space back from its bytes. */
  function ParsePixel(space: ColorSpace, s: seq<Byte>): (c: Color)
    requires |s| >= space.BytesPerPixel()
    ensures c.Space() == space
  {
    match space
    case Grayscale => Gray(s[0])
    case Rgb => Bgr(s[0], s[1], s[2])
    case Rgba => Bgra(s[0], s[1], s[2], s[3])
  }

  /** Reading a pixel's bytes back gives the pixel; the bytes after it are ignored. */
  lemma {:induction false} ParsePixelBytes(c: Color, rest: seq<Byte>)
    ensures ParsePixel(c.Space(), PixelBytes(c) + rest) == c
  {
  }

  /** Parsing then serialising a pixel's worth of bytes gives the bytes back. */
  lemma {:induction false} PixelBytesParse(space: ColorSpace, s: seq<Byte>)
    requires |s| == space.BytesPerPixel()
    ensures PixelBytes(ParsePixel(space, s)) == s
  {
  }

  /**
   * Two pixels of the same colour space are equal exactly when their bytes are, so
   * comparing byte slices (as the source's run-length encoder does) is comparing pixels.
   */
  lemma {:induction false} PixelBytesInjective(c: Color, d: Color)
    requires c.Space() == d.Space()
    ensures PixelBytes(c) == PixelBytes(d) <==> c == d
  {
    if PixelBytes(c) == PixelBytes(d) {
      ParsePixelBytes(c, []);
      ParsePixelBytes(d, []);
      assert PixelBytes(c) + [] == PixelBytes(c);
      assert PixelBytes(d) + [] == PixelBytes(d);
    }
  }

  /** The bytes of a run of pixels, one after the other (the source's slice cast). */
  function Flatten(px: seq<Color>): (s: seq<Byte>)
  {
    if px == [] then [] else Flatten(px[..|px| - 1]) + PixelBytes(px[|px| - 1])
  }

  lemma {:induction false} FlattenLength(px: seq<Color>, space: ColorSpace)
    requires forall k :: 0 <= k < |px| ==> px[k].Space() == space
    ensures |Flatten(px)| == |px| * space.BytesPerPixel()
  {
    if px != [] {
      FlattenLength(px[..|px| - 1], space);
    }
  }

  /** Concatenation regroups freely. */
  lemma {:induction false} ConcatAssoc<T>(a: seq<T>, b: seq<T>, c: seq<T>)
    ensures (a + b) + c == a + (b + c)
  {
  }

  lemma {:induction false} FlattenAppend(a: seq<Color>, b: seq<Color>)
    ensures Flatten(a + b) == Flatten(a) + Flatten(b)
  {
    if b == [] {
      AppendEmpty(a);
      AppendEmpty(Flatten(a));
    } else {
      var b' := b[..|b| - 1];
      DropLastAppend(a, b);
      FlattenAppend(a, b');
      ConcatAssoc(Flatten(a), Flatten(b'), PixelBytes(b[|b| - 1]));
    }
  }

  lemma {:induction false} AppendEmpty<T>(a: seq<T>)
    ensures a + [] == a
  {
  }

  /** Dropping the last element of `a + b`, with `b` non-empty, drops it from `b`. */
  lemma {:induction false} DropLastAppend<T>(a: seq<T>, b: seq<T>)
    requires b != []
    ensures (a + b)[..|a + b| - 1] == a + b[..|b| - 1]
    ensures (a + b)[|a + b| - 1] == b[|b| - 1]
  {
  }

  lemma {:induction false} FlattenSingle(c: Color)
    ensures Flatten([c]) == PixelBytes(c)
  {
    assert [c][..0] == [];
  }

  lemma {:induction false} FlattenCons(c: Color, px: seq<Color>)
    ensures Flatten([c] + px) == PixelBytes(c) + Flatten(px)
  {
    FlattenAppend([c], px);
    assert [c][..0] == [];
  }

  /** The middle part of a three-part concatenation is the slice between the other two. */
  lemma {:induction false} SliceMiddle<T>(f: seq<T>, a: seq<T>, b: seq<T>, c: seq<T>, i: nat, j: nat)
    requires f == a + b + c && |a| == i && i + |b| == j
    ensures j <= |f| && f[i..j] == b
  {
  }

  /** The byte view of a buffer cut in three is the three byte views one after the other. */
  lemma {:induction false} FlattenSplit3(px: seq<Color>, a: nat, b: nat)
    requires a <= b <= |px|
    ensures Flatten(px) == Flatten(px[..a]) + Flatten(px[a..b]) + Flatten(px[b..])
  {
    SplitParts(px, a, b);
    FlattenAppend3(px[..a], px[a..b], px[b..]);
  }

  lemma {:induction false} SplitParts<T>(s: seq<T>, a: nat, b: nat)
    requires a <= b <= |s|
    ensures s[..a] + s[a..b] + s[b..] == s
  {
  }

  lemma {:induction false} FlattenAppend3(x: seq<Color>, y: seq<Color>, z: seq<Color>)
    ensures Flatten(x + y + z) == Flatten(x) + Flatten(y) + Flatten(z)
  {
    FlattenAppend(x + y, z);
    FlattenAppend(x, y);
  }

  /** The byte view of pixels a..b sits at byte offsets a*bpp..b*bpp of the byte view of the whole buffer. */
  lemma {:induction false} FlattenRange(px: seq<Color>, space: ColorSpace, a: nat, b: nat, i: nat, j: nat)
    requires a <= b <= |px|
    requires forall k :: 0 <= k < |px| ==> px[k].Space() == space
    requires i == a * space.BytesPerPixel() && j == b * space.BytesPerPixel()
    ensures i <= j <= |Flatten(px)| && Flatten(px)[i..j] == Flatten(px[a..b])
  {
    var x, y, z := px[..a], px[a..b], px[b..];
    FlattenSplit3(px, a, b);
    FlattenLengthIs(x, space, a, i);
    MulSub(a, b, space.BytesPerPixel(), i, j);
    FlattenLengthIs(y, space, b - a, j - i);
    SliceMiddle(Flatten(px), Flatten(x), Flatten(y), Flatten(z), i, j);
  }

  lemma {:induction false} FlattenLengthIs(px: seq<Color>, space: ColorSpace, n: nat, k: int)
    requires forall q :: 0 <= q < |px| ==> px[q].Space() == space
    requires |px| == n && k == n * space.BytesPerPixel()
    ensures |Flatten(px)| == k
  {
    FlattenLength(px, space);
  }

  lemma {:induction false} MulSub(a: nat, b: nat, m: nat, i: nat, j: nat)
    requires a <= b && i == a * m && j == b * m
    ensures j - i == (b - a) * m
  {
  }

  /** Pixel k's bytes sit at byte offsets k*bpp..(k+1)*bpp of the byte view. */
  lemma {:induction false} FlattenPixel(px: seq<Color>, space: ColorSpace, k: nat, i: nat, j: nat)
    requires k < |px|
    requires forall q :: 0 <= q < |px| ==> px[q].Space() == space
    requires i == k * space.BytesPerPixel() && j == i + space.BytesPerPixel()
    ensures j <= |Flatten(px)| && Flatten(px)[i..j] == PixelBytes(px[k])
  {
    var k' := k + 1;
    MulDistributes(k, 1, space.BytesPerPixel(), k');
    FlattenRange(px, space, k, k', i, j);
    SingletonSlice(px, k, k');
    FlattenSingle(px[k]);
  }

  lemma {:induction false} MulDistributes(x: nat, y: nat, m: nat, z: nat)
    requires z == x + y
    ensures x * m + y * m == z * m
  {
  }

  lemma {:induction false} SingletonSlice<T>(s: seq<T>, k: nat, k': nat)
    requires k < |s| && k' == k + 1
    ensures s[k..k'] == [s[k]]
  {
  }

  /** Two neighbouring pixels are equal exactly when their byte groups are. */
  lemma {:induction false} NeighbourBytes(px: seq<Color>, space: ColorSpace, k: nat, at: nat, mid: nat, end: nat)
    requires k + 1 < |px| && at == k * space.BytesPerPixel()
    requires mid == at + space.BytesPerPixel() && end == mid + space.BytesPerPixel()
    requires forall j :: 0 <= j < |px| ==> px[j].Space() == space
    ensures end <= |Flatten(px)|
    ensures Flatten(px)[at..mid] == Flatten(px)[mid..end] <==> px[k] == px[k + 1]
  {
    var k' := k + 1;
    MulDistributes(k, 1, space.BytesPerPixel(), k');
    FlattenPixel(px, space, k, at, mid);
    FlattenPixel(px, space, k', mid, end);
    PixelBytesInjective(px[k], px[k']);
  }


  // ------------------------------------------------------- conversions (tga.rs:319-376)

  /** `From<RGBA> for RGB`: drops the alpha channel. */
  function RgbFromRgba(c: Color): (r: Color)
    requires c.Bgra?
    ensures r.Space() == Rgb && PixelBytes(r) == PixelBytes(c)[..3]
  {
    Bgr(c.b, c.g, c.r)
  }

  /** `From<RGB> for RGBA`: keeps the channels, alpha opaque (255). */
  function RgbaFromRgb(c: Color): (r: Color)
    requires c.Bgr?
    ensures r.Space() == Rgba && PixelBytes(r) == PixelBytes(c) + [255]
  {
    Bgra(c.b, c.g, c.r, 255)
  }

  /** `From<Grayscale> for RGBA`: the intensity in every colour channel, alpha opaque. */
  function RgbaFromGray(c: Color): (r: Color)
    requires c.Gray?
    ensures r.Space() == Rgba && PixelBytes(r) == [c.i, c.i, c.i, 255]
  {
    Bgra(c.i, c.i, c.i, 255)
  }

  /** `From<Grayscale> for RGB`: the intensity in every channel. */
  function RgbFromGray(c: Color): (r: Color)
    requires c.Gray?
    ensures r.Space() == Rgb && PixelBytes(r) == [c.i, c.i, c.i]
  {
    Bgr(c.i, c.i, c.i)
  }

  /** `From<RGBA> for image::Rgba<u8>`: the four channels in r, g, b, a order. */
  function RgbaToChannels(c: Color): (s: seq<Byte>)
    requires c.Bgra?
    ensures |s| == 4
    ensures s == [PixelBytes(c)[2], PixelBytes(c)[1], PixelBytes(c)[0], PixelBytes(c)[3]]
  {
    [c.r, c.g, c.b, c.a]
  }

  /** `From<image::Rgba<u8>> for RGBA`: channels read in r, g, b, a order. */
  function RgbaFromChannels(s: seq<Byte>): (c: Color)
    requires |s| == 4
    ensures c.Space() == Rgba
    ensures PixelBytes(c) == [s[2], s[1], s[0], s[3]]
  {
    Bgra(s[2], s[1], s[0], s[3])
  }

  /** The byte-shuffling conversions agree with one another and the image crate's round trip is exact. */
  lemma {:induction false} ConversionsAgree(c: Color, s: seq<Byte>)
    requires |s| == 4
    ensures c.Bgra? ==> RgbaFromChannels(RgbaToChannels(c)) == c
    ensures RgbaToChannels(RgbaFromChannels(s)) == s
    ensures c.Bgr? ==> RgbFromRgba(RgbaFromRgb(c)) == c
    ensures c.Gray? ==> RgbFromRgba(RgbaFromGray(c)) == RgbFromGray(c)
    ensures c.Gray? ==> RgbaFromRgb(RgbFromGray(c)) == RgbaFromGray(c)
  {
  }

  // ------------------------------------------------------- colour constants (tga.rs:394-427)

  const WHITE: Color := Bgra(255, 255, 255, 255)
  const BLACK: Color := Bgra(0, 0, 0, 255)
  const RED: Color := Bgra(0, 0, 255, 255)
  const GREEN: Color := Bgra(0, 255, 0, 255)
  const BLUE: Color := Bgra(255, 0, 0, 255)

  /** The named colours are opaque RGBA values whose bytes are stored blue first. */
  lemma {:induction false} ConstantsLayout()
    ensures PixelBytes(RED) == [0, 0, 255, 255] && PixelBytes(BLUE) == [255, 0, 0, 255]
    ensures PixelBytes(GREEN) == [0, 255, 0, 255]
    ensures PixelBytes(WHITE) == [255, 255, 255, 255] && PixelBytes(BLACK) == [0, 0, 0, 255]
  {
  }
}
