/**
 * The `Image<T>` buffer of src/tga.rs: a row-major vector of width*height pixels of one
 * colour space, its pixel setters, `clear`, and the byte streams `write`,
 * `write_cursor` and `write_rle_data` produce (as the sequence of bytes handed to
 * the writer).
 */
module Images {
  import opened Wrappers
  import opened Colors
  import opened Math
  import opened TgaFormat

  /** One past the largest `usize`. */
  const USIZE_LIMIT: nat := 0x1_0000_0000_0000_0000
  /** The largest allocation, in bytes, a `Vec` may make. */
  const ISIZE_MAX: nat := 0x7FFF_FFFF_FFFF_FFFF

  /** Position of pixel (x, y) in the row-major buffer. */
  function Idx(x: nat, y: nat, width: nat): nat
  {
    x + y * width
  }

  /** Pixel (x, y) of a width-by-height image lies inside its buffer. */
  lemma {:induction false} IdxBound(x: nat, y: nat, width: nat, height: nat)
    requires x < width && y < height
    ensures Idx(x, y, width) < width * height
  {
    assert y * width <= (height - 1) * width;
    assert (height - 1) * width + width == height * width;
  }

  /** Every buffer position is the index of some pixel (x, y) of the image: x = k % width, y = k / width. */
  lemma {:induction false} IdxCover(k: nat, width: nat, height: nat) returns (x: nat, y: nat)
    requires k < width * height
    ensures x < width && y < height && Idx(x, y, width) == k
  {
    assert width != 0;
    DivBounds(k, width);
    x, y := k % width, k / width;
    MulStrict(y, height, width);
  }

  /** Once the cursor is past the last pixel, what has been written is the whole packet stream. */
  lemma {:induction false} EmittedAll(out: seq<Byte>, px: seq<Color>, cur: nat)
    requires cur >= |px| && out + RleFrom(px, cur) == RleFrom(px, 0)
    ensures out == RleEncode(px)
  {
    assert RleFrom(px, cur) == [];
    assert out + [] == out;
  }

  /** The two ways `set` refuses a coordinate; the source formats them into a message. */
  datatype SetError = XOutOfBounds(x: nat, width: nat) | YOutOfBounds(y: nat, height: nat)

  class Image {
    const space: ColorSpace
    const width: nat
    const height: nat
    /** The `Vec<T>`: its length never changes after `new`. */
    const data: array<Color>

    ghost predicate Valid()
      reads data
    {
      && data.Length == width * height
      && width < USIZE_LIMIT && height < USIZE_LIMIT
      && data.Length * space.BytesPerPixel() <= ISIZE_MAX
      && forall k :: 0 <= k < data.Length ==> data[k].Space() == space
    }

    /** `Image::new`: width*height pixels, all `T::new()`. The allocation must fit. */
    constructor(space: ColorSpace, width: nat, height: nat)
      requires width < USIZE_LIMIT && height < USIZE_LIMIT
      requires width * height * space.BytesPerPixel() <= ISIZE_MAX
      ensures Valid() && fresh(data)
      ensures this.space == space && this.width == width && this.height == height
      ensures forall k :: 0 <= k < data.Length ==> data[k] == space.Zero()
    {
      this.space := space;
      this.width := width;
      this.height := height;
      data := new Color[width * height](_ => space.Zero());
    }

    /**
     * `set`: x is checked against the width first, then y against the height; a
     * coordinate inside the image overwrites that one pixel and nothing else.
     */
    method Set(x: nat, y: nat, c: Color) returns (r: Outcome<SetError>)
      requires Valid() && c.Space() == space
      modifies data
      ensures Valid()
      ensures x >= width ==> r == Fail(XOutOfBounds(x, width))
      ensures x < width && y >= height ==> r == Fail(YOutOfBounds(y, height))
      ensures r.Pass? <==> x < width && y < height
      ensures r.Pass? ==> Idx(x, y, width) < data.Length && data[..] == old(data[..])[Idx(x, y, width) := c]
      ensures r.Fail? ==> data[..] == old(data[..])
    {
      if x >= width {
        return Fail(XOutOfBounds(x, width));
      } else if y >= height {
        return Fail(YOutOfBounds(y, height));
      }
      IdxBound(x, y, width, height);
      SetUnchecked(x, y, c);
      return Pass;
    }

    /** `set_unchecked`: writes position x + y*width, which must be inside the buffer (the source panics otherwise). */
    method SetUnchecked(x: nat, y: nat, c: Color)
      requires Valid() && c.Space() == space && Idx(x, y, width) < data.Length
      modifies data
      ensures Valid()
      ensures data[..] == old(data[..])[Idx(x, y, width) := c]
    {
      data[Idx(x, y, width)] := c;
    }

    /** `clear`: column by column, every pixel becomes `c`. */
    method Clear(c: Color)
      requires Valid() && c.Space() == space
      modifies data
      ensures Valid()
      ensures forall k :: 0 <= k < data.Length ==> data[k] == c
    {
      for x := 0 to width
        invariant Valid()
        invariant forall a, b :: 0 <= a < x && 0 <= b < height ==> Idx(a, b, width) < data.Length && data[Idx(a, b, width)] == c
      {
        for y := 0 to height
          invariant Valid()
          invariant forall a, b :: 0 <= a < x && 0 <= b < height ==> Idx(a, b, width) < data.Length && data[Idx(a, b, width)] == c
          invariant forall b :: 0 <= b < y ==> Idx(x, b, width) < data.Length && data[Idx(x, b, width)] == c
        {
          IdxBound(x, y, width, height);
          SetUnchecked(x, y, c);
        }
      }
      forall k | 0 <= k < data.Length
        ensures data[k] == c
      {
        var x, y := IdxCover(k, width, height);
        assert data[Idx(x, y, width)] == c;
      }
    }

    /**
     * `write_rle_data`: the packet loop over the byte view of the buffer, with the
     * payload length computed without the u8 wrap-around of tga.rs:181 (see
     * `TgaFormat.RleFromAsWritten` for the stream as written). The byte view of an
     * empty buffer panics, hence the precondition.
     */
    method WriteRleData() returns (out: seq<Byte>)
      requires Valid() && data.Length > 0
      ensures out == RleEncode(data[..])
    {
      var bpp := space.BytesPerPixel();
      var bytes := Flatten(data[..]);
      ghost var px := data[..];
      var nPixels := width * height;
      var currentPixel := 0;
      out := [];
      while currentPixel < nPixels
        invariant currentPixel <= nPixels
        invariant out + RleFrom(px, currentPixel) == RleFrom(px, 0)
        decreases nPixels - currentPixel
      {
        ghost var p, before, cur := PacketAt(px, currentPixel), out, currentPixel;
        var runLength;
        out, runLength := WritePacket(out, bytes, px, currentPixel, nPixels);
        currentPixel := currentPixel + runLength;
        RleFromAdvance(before, out, px, cur, p, currentPixel);
      }
      EmittedAll(out, px, currentPixel);
    }

    /**
     * One round of the outer loop of `write_rle_data` (tga.rs:149-186): scans the packet
     * starting at `currentPixel`, then writes its header and payload after `out`.
     */
    method WritePacket(out: seq<Byte>, bytes: seq<Byte>, ghost px: seq<Color>, currentPixel: nat, nPixels: nat)
      returns (out': seq<Byte>, runLength: nat)
      requires bytes == Flatten(px) && nPixels == |px| && currentPixel < nPixels
      requires forall j :: 0 <= j < |px| ==> px[j].Space() == space
      ensures runLength == PacketAt(px, currentPixel).count
      ensures out' == out + PacketBytes(px, currentPixel, PacketAt(px, currentPixel))
    {
      var bpp := space.BytesPerPixel();
      var chunkStart := currentPixel * bpp;
      var raw;
      raw, runLength := ScanRun(bytes, px, currentPixel, chunkStart, nPixels);
      ghost var p := Packet(raw, runLength);
      var header := if raw then runLength - 1 else runLength + 127;
      var chunkEnd := chunkStart + if raw then runLength * bpp else bpp;
      var chunk := Chunk(bytes, px, currentPixel, p, chunkStart, chunkEnd);
      out' := out + ([header] + chunk);
    }

    /**
     * The inner loop of `write_rle_data` (tga.rs:152-172): grows the packet starting at
     * `currentPixel` one pixel at a time, comparing byte slices, and ends with the packet
     * `PacketAt` describes.
     */
    method ScanRun(bytes: seq<Byte>, ghost px: seq<Color>, currentPixel: nat, chunkStart: nat, nPixels: nat)
      returns (raw: bool, runLength: nat)
      requires bytes == Flatten(px) && nPixels == |px| && currentPixel < nPixels
      requires forall j :: 0 <= j < |px| ==> px[j].Space() == space
      requires chunkStart == currentPixel * space.BytesPerPixel()
      ensures Packet(raw, runLength) == PacketAt(px, currentPixel)
    {
      var bpp := space.BytesPerPixel();
      var currentByte := chunkStart;
      runLength := 1;
      raw := true;
      while currentPixel + runLength < nPixels && runLength < MAX_CHUNK_LENGTH
        invariant 1 <= runLength <= MAX_CHUNK_LENGTH && currentPixel + runLength <= nPixels
        invariant runLength == 1 ==> raw
        invariant currentByte == (currentPixel + runLength - 1) * bpp
        invariant ScanPacket(px, currentPixel, runLength, raw) == PacketAt(px, currentPixel)
        decreases MAX_CHUNK_LENGTH - runLength
      {
        var nextPixel := currentByte + bpp;
        var succEq := SameNeighbours(bytes, px, currentPixel + runLength - 1, currentByte, nextPixel);
        MulDistributes(currentPixel + runLength - 1, 1, bpp, currentPixel + runLength);
        currentByte := currentByte + bpp;
        ghost var rawBefore := raw;
        if runLength == 1 {
          raw := !succEq;
        }
        ScanPacketStep(px, currentPixel, runLength, rawBefore, succEq, raw);
        if raw && succEq {
          runLength := runLength - 1;
          break;
        }
        if !raw && !succEq {
          break;
        }
        runLength := runLength + 1;
      }
    }

    /**
     * The comparison of tga.rs:156-157: the byte slices of pixel k and pixel k+1 are
     * equal exactly when the two pixels are.
     */
    method SameNeighbours(bytes: seq<Byte>, ghost px: seq<Color>, ghost k: nat, currentByte: nat, nextPixel: nat)
      returns (eq: bool)
      requires bytes == Flatten(px) && k + 1 < |px|
      requires forall j :: 0 <= j < |px| ==> px[j].Space() == space
      requires currentByte == k * space.BytesPerPixel() && nextPixel == currentByte + space.BytesPerPixel()
      ensures eq <==> EqualsNext(px, k)
    {
      var nextEnd := nextPixel + space.BytesPerPixel();
      NeighbourBytes(px, space, k, currentByte, nextPixel, nextEnd);
      eq := bytes[currentByte..nextPixel] == bytes[nextPixel..nextEnd];
    }

    /** The payload slice of tga.rs:177-185: the packet's pixels (raw) or its one pixel (run). */
    method Chunk(bytes: seq<Byte>, ghost px: seq<Color>, cur: nat, ghost p: Packet, chunkStart: nat, chunkEnd: nat)
      returns (chunk: seq<Byte>)
      requires bytes == Flatten(px) && forall j :: 0 <= j < |px| ==> px[j].Space() == space
      requires cur < |px| && p == PacketAt(px, cur) && chunkStart == cur * space.BytesPerPixel()
      requires chunkEnd == chunkStart + if p.raw then p.count * space.BytesPerPixel() else space.BytesPerPixel()
      ensures chunk == PacketPayload(px, cur, p)
    {
      PayloadAt(px, space, cur, p, chunkStart, chunkEnd);
      chunk := bytes[chunkStart..chunkEnd];
    }

    /**
     * `write`: the header, the pixels (raw, or `write_rle_data`), the developer- and
     * extension-area references and the footer. The raw byte view of an empty buffer
     * panics, and so does the run-length writer's.
     */
    method Write(vflip: bool, rle: bool) returns (out: seq<Byte>)
      requires Valid() && data.Length > 0
      ensures out == EncodeTga(space, width, height, data[..], vflip, rle)
    {
      var h := MakeHeader(space, width, height, vflip, rle);
      out := HeaderBytes(h);
      if !rle {
        out := out + Flatten(data[..]);
      } else {
        var body := WriteRleData();
        out := out + body;
      }
      ghost var front := out;
      out := out + DEVELOPER_AREA_REF;
      out := out + EXTENSION_AREA_REF;
      out := out + FOOTER;
      ConcatAssoc(front, DEVELOPER_AREA_REF, EXTENSION_AREA_REF);
      ConcatAssoc(front, DEVELOPER_AREA_REF + EXTENSION_AREA_REF, FOOTER);
    }

    /**
     * `write_cursor`: as `write`, except that in run-length mode no pixel data is written
     * at all (see `TgaFormat.CursorRleUnreadable`). Only the raw byte view panics on an
     * empty buffer.
     */
    method WriteCursor(vflip: bool, rle: bool) returns (out: seq<Byte>)
      requires Valid() && (rle || data.Length > 0)
      ensures out == HeaderBytes(MakeHeader(space, width, height, vflip, rle)) + (if rle then [] else Flatten(data[..])) + Trailer()
    {
      var h := MakeHeader(space, width, height, vflip, rle);
      out := HeaderBytes(h);
      if !rle {
        out := out + Flatten(data[..]);
      } else {
        assert out + [] == out;
      }
      ghost var front := out;
      out := out + DEVELOPER_AREA_REF;
      out := out + EXTENSION_AREA_REF;
      out := out + FOOTER;
      ConcatAssoc(front, DEVELOPER_AREA_REF, EXTENSION_AREA_REF);
      ConcatAssoc(front, DEVELOPER_AREA_REF + EXTENSION_AREA_REF, FOOTER);
    }
  }
}
