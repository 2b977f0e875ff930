/**
 * The Truevision TGA (version 2.0) container as src/tga.rs writes it: the 18-byte
 * header, the pixel payload (raw, or run-length packets), the developer- and
 * extension-area references and the file footer signature. The run-length packetiser
 * is given here as a pure reference (`ScanPacket`, `RleFrom`), together with an
 * independent decoder, so that round trips and packet shapes can be stated;
 * `Images.Image.WriteRleData` is the loop-based encoder proved equal to it.
 */
module TgaFormat {
  import opened Wrappers
  import opened Colors
  import opened Math

  type U16 = v: int | 0 <= v < 0x1_0000

  // ------------------------------------------------------------------ header

  /** The packed `Header` record (one byte or u16 per field; a u16 is written in the host's byte order, assumed little-endian). */
  datatype Header = Header(
    idLength: Byte,
    colorMapType: Byte,
    imageType: Byte,
    cMapStart: U16,
    cMapLength: U16,
    cMapDepth: Byte,
    xOffset: U16,
    yOffset: U16,
    width: U16,
    height: U16,
    pixelDepth: Byte,
    imageDescriptor: Byte)

  /** A u16 field's two bytes on a little-endian host: low byte first. */
  function LittleEndian16(v: U16): (s: seq<Byte>)
    ensures |s| == 2 && (s[0] as int) + 256 * (s[1] as int) == v
  {
    [v % 256, v / 256]
  }

  /** The header's bytes in field order; the record is `repr(C, packed)`, so 18 bytes. */
  function HeaderBytes(h: Header): (s: seq<Byte>)
    ensures |s| == 18
  {
    [h.idLength, h.colorMapType, h.imageType]
      + LittleEndian16(h.cMapStart) + LittleEndian16(h.cMapLength) + [h.cMapDepth]
      + LittleEndian16(h.xOffset) + LittleEndian16(h.yOffset)
      + LittleEndian16(h.width) + LittleEndian16(h.height)
      + [h.pixelDepth, h.imageDescriptor]
  }

  function ReadU16(lo: Byte, hi: Byte): U16
  {
    lo + 256 * hi
  }

  /** Reads a header back from the first 18 bytes of a stream. */
  function ParseHeader(s: seq<Byte>): Header
    requires |s| >= 18
  {
    Header(s[0], s[1], s[2], ReadU16(s[3], s[4]), ReadU16(s[5], s[6]), s[7],
           ReadU16(s[8], s[9]), ReadU16(s[10], s[11]), ReadU16(s[12], s[13]),
           ReadU16(s[14], s[15]), s[16], s[17])
  }

  lemma {:induction false} HeaderRoundTrip(h: Header, rest: seq<Byte>)
    ensures ParseHeader(HeaderBytes(h) + rest) == h
  {
  }

  /** Field 3 (image type): 3/11 for one-byte (black and white) pixels, 2/10 otherwise; the larger when run-length encoded. */
  function ImageType(space: ColorSpace, rle: bool): (t: Byte)
    ensures t in {2, 3, 10, 11}
    ensures (t == 3 || t == 11) <==> space == Grayscale
    ensures t >= 10 <==> rle
  {
    if space.BytesPerPixel() == Grayscale.BytesPerPixel() then
      (if rle then 11 else 3)
    else
      (if rle then 10 else 2)
  }

  /**
   * The header `write` and `write_cursor` build: width and height cast to u16 (so
   * truncated modulo 65536), pixel depth 8 bits per byte, descriptor bit 5 set
   * (top-left origin) unless `vflip`, every other field zero.
   */
  function MakeHeader(space: ColorSpace, width: nat, height: nat, vflip: bool, rle: bool): Header
  {
    Header(0, 0, ImageType(space, rle), 0, 0, 0, 0, 0,
           width % 0x1_0000, height % 0x1_0000,
           space.BytesPerPixel() * 8,
           if vflip then 0x00 else 0x20)
  }

  /** The serialised header: image type at byte 2, little-endian width and height at bytes 12-15, depth and descriptor last, zero elsewhere. */
  lemma {:induction false} HeaderLayout(space: ColorSpace, width: nat, height: nat, vflip: bool, rle: bool)
    ensures var b := HeaderBytes(MakeHeader(space, width, height, vflip, rle));
      && |b| == 18
      && b[2] == ImageType(space, rle)
      && (b[12] as int) + 256 * (b[13] as int) == width % 0x1_0000
      && (b[14] as int) + 256 * (b[15] as int) == height % 0x1_0000
      && b[16] == 8 * space.BytesPerPixel()
      && b[17] == (if vflip then 0x00 else 0x20)
      && b[0] == b[1] == b[3] == b[4] == b[5] == b[6] == b[7] == b[8] == b[9] == b[10] == b[11] == 0
  {
  }

  // ------------------------------------------------------------------ trailer

  const DEVELOPER_AREA_REF: seq<Byte> := [0, 0, 0, 0]
  const EXTENSION_AREA_REF: seq<Byte> := [0, 0, 0, 0]
  /** The ASCII bytes of `TRUEVISION-XFILE.` followed by a NUL. */
  const FOOTER: seq<Byte> := [84, 82, 85, 69, 86, 73, 83, 73, 79, 78, 45, 88, 70, 73, 76, 69, 46, 0]

  /** What every write appends after the pixel data: 4 + 4 zero bytes, then the footer signature. */
  function Trailer(): (s: seq<Byte>)
    ensures |s| == 26 && s[..8] == [0, 0, 0, 0, 0, 0, 0, 0] && s[8..] == FOOTER
  {
    DEVELOPER_AREA_REF + EXTENSION_AREA_REF + FOOTER
  }

  lemma {:induction false} FooterIsSignature()
    ensures |FOOTER| == 18 && FOOTER[17] == 0
    ensures forall k :: 0 <= k < 17 ==> FOOTER[k] == "TRUEVISION-XFILE."[k] as int
  {
  }

  // ------------------------------------------------------------------ run-length packets

  const MAX_CHUNK_LENGTH: nat := 128

  /** A packet: `raw` lists `count` pixels; otherwise it repeats one pixel `count` times. */
  datatype Packet = Packet(raw: bool, count: nat)

  /** Pixel k equals its successor. */
  predicate EqualsNext(px: seq<Color>, k: nat)
    requires k + 1 < |px|
  {
    px[k] == px[k + 1]
  }

  /**
   * The inner loop of `write_rle_data` (tga.rs:151-170) from the state where `count`
   * pixels, starting at `start`, are in the packet and `raw` is the packet's mode.
   * The mode is decided by the first comparison; a raw packet ends, without the
   * repeated pixel, at the first pair of equal neighbours; a run ends at the first
   * differing pixel; no packet passes 128 pixels or the end of the image.
   */
  function ScanPacket(px: seq<Color>, start: nat, count: nat, raw: bool): (p: Packet)
    requires 1 <= count <= MAX_CHUNK_LENGTH && start + count <= |px|
    requires count == 1 ==> raw
    decreases MAX_CHUNK_LENGTH - count
    ensures 1 <= p.count <= MAX_CHUNK_LENGTH && start + p.count <= |px|
    ensures count >= 2 ==> p.raw == raw
    ensures !raw && count >= 2 ==> p.count >= count
    ensures !p.raw ==> p.count >= 2
  {
    if start + count < |px| && count < MAX_CHUNK_LENGTH then
      var succEq := px[start + count - 1] == px[start + count];
      var raw' := if count == 1 then !succEq else raw;
      if raw' && succEq then Packet(raw', count - 1)
      else if !raw' && !succEq then Packet(raw', count)
      else ScanPacket(px, start, count + 1, raw')
    else
      Packet(raw, count)
  }

  /** One step of the scan: compare the pixel at the end of the packet so far with the next, then stop or extend. */
  lemma {:induction false} ScanPacketStep(px: seq<Color>, start: nat, count: nat, raw: bool, succEq: bool, raw': bool)
    requires 1 <= count < MAX_CHUNK_LENGTH && start + count < |px| && (count == 1 ==> raw)
    requires succEq == EqualsNext(px, start + count - 1)
    requires raw' == (if count == 1 then !succEq else raw)
    ensures ScanPacket(px, start, count, raw)
      == if raw' && succEq then Packet(raw', count - 1)
         else if !raw' && !succEq then Packet(raw', count)
         else ScanPacket(px, start, count + 1, raw')
  {
  }

  /**
   * The packet the scan ends with, given the loop's invariant at the state it starts from:
   * a raw packet has no two equal neighbours and, if it stopped early, is followed by an
   * equal pair; a run's pixels all equal its first and, if it stopped early, the next one differs.
   */
  lemma {:induction false} ScanPacketShape(px: seq<Color>, start: nat, count: nat, raw: bool)
    requires 1 <= count <= MAX_CHUNK_LENGTH && start + count <= |px|
    requires count == 1 ==> raw
    requires count >= 2 && raw ==> forall k :: start <= k < start + count - 1 ==> !EqualsNext(px, k)
    requires count >= 2 && !raw ==> forall k :: start <= k < start + count ==> px[k] == px[start]
    decreases MAX_CHUNK_LENGTH - count
    ensures var p := ScanPacket(px, start, count, raw);
      && (p.raw ==> forall k :: start <= k < start + p.count - 1 ==> !EqualsNext(px, k))
      && (!p.raw ==> p.count >= 2 && forall k :: start <= k < start + p.count ==> px[k] == px[start])
      && (p.raw && start + p.count < |px| && p.count < MAX_CHUNK_LENGTH ==>
            start + p.count + 1 < |px| && px[start + p.count] == px[start + p.count + 1])
      && (!p.raw && start + p.count < |px| && p.count < MAX_CHUNK_LENGTH ==>
            px[start + p.count] != px[start + p.count - 1])
  {
    if start + count < |px| && count < MAX_CHUNK_LENGTH {
      var succEq := px[start + count - 1] == px[start + count];
      var raw' := if count == 1 then !succEq else raw;
      if !(raw' && succEq) && !(!raw' && !succEq) {
        ScanPacketShape(px, start, count + 1, raw');
      }
    }
  }

  /** The packet that starts at pixel `start`. */
  function PacketAt(px: seq<Color>, start: nat): (p: Packet)
    requires start < |px|
    ensures 1 <= p.count <= MAX_CHUNK_LENGTH && start + p.count <= |px|
    ensures !p.raw ==> p.count >= 2
  {
    ScanPacket(px, start, 1, true)
  }

  /** A well-formed packet's header byte: count-1 (top bit clear) for raw, count+127 (top bit set) for a run. */
  function PacketHeader(p: Packet): (h: Byte)
    requires 1 <= p.count <= MAX_CHUNK_LENGTH && (!p.raw ==> p.count >= 2)
    ensures p.raw ==> h < 128 && h + 1 == p.count
    ensures !p.raw ==> h >= 129 && h - 127 == p.count
  {
    if p.raw then p.count - 1 else p.count + 127
  }

  /** The payload of a packet: the `count` listed pixels (raw) or the one repeated pixel (run). */
  function PacketPayload(px: seq<Color>, start: nat, p: Packet): seq<Byte>
    requires 1 <= p.count && start + p.count <= |px|
  {
    if p.raw then Flatten(px[start..start + p.count]) else PixelBytes(px[start])
  }

  /** Header byte, then the payload. */
  function PacketBytes(px: seq<Color>, start: nat, p: Packet): seq<Byte>
    requires 1 <= p.count <= MAX_CHUNK_LENGTH && start + p.count <= |px| && (!p.raw ==> p.count >= 2)
  {
    [PacketHeader(p)] + PacketPayload(px, start, p)
  }

  /** The cursor just after the packet that starts at `cur`. */
  function PacketEnd(px: seq<Color>, cur: nat): (next: nat)
    requires cur < |px|
    ensures cur < next <= |px|
  {
    cur + PacketAt(px, cur).count
  }

  /** The packet stream for the pixels from `cur` on, packet after packet (the outer loop, tga.rs:148-186). */
  function RleFrom(px: seq<Color>, cur: nat): seq<Byte>
    decreases |px| - cur
  {
    if cur >= |px| then []
    else PacketBytes(px, cur, PacketAt(px, cur)) + RleFrom(px, PacketEnd(px, cur))
  }

  function RleEncode(px: seq<Color>): seq<Byte>
  {
    RleFrom(px, 0)
  }

  // ------------------------------------------------------------------ decoding

  /** Reads `n` pixels of one colour space from the front of a stream; gives them and the rest. */
  function ParsePixels(space: ColorSpace, s: seq<Byte>, n: nat): (r: Option<(seq<Color>, seq<Byte>)>)
    ensures r.Some? ==> |r.value.0| == n && |r.value.1| <= |s|
  {
    if n == 0 then Some(([], s))
    else if |s| < space.BytesPerPixel() then None
    else
      match ParsePixels(space, s[space.BytesPerPixel()..], n - 1)
      case None => None
      case Some((ps, rest)) => Some(([ParsePixel(space, s)] + ps, rest))
  }

  function Repeat<T>(x: T, n: nat): (r: seq<T>)
    ensures |r| == n && forall k :: 0 <= k < n ==> r[k] == x
  {
    if n == 0 then [] else [x] + Repeat(x, n - 1)
  }

  /**
   * A TGA reader's decoding of one packet: a header h < 128 lists h+1 pixels; h >= 128
   * repeats the next pixel h-127 times. Gives the pixels and the bytes after the packet.
   */
  function DecodePacket(space: ColorSpace, s: seq<Byte>): (r: Option<(seq<Color>, seq<Byte>)>)
    requires s != []
    ensures r.Some? ==> 1 <= |r.value.0| <= MAX_CHUNK_LENGTH && |r.value.1| < |s|
  {
    var h := s[0];
    if h < 128 then ParsePixels(space, s[1..], h + 1)
    else
      match ParsePixels(space, s[1..], 1)
      case None => None
      case Some((ps, rest)) => Some((Repeat(ps[0], h - 127), rest))
  }

  /**
   * A TGA reader's run-length decoder: reads packets until `n` pixels are produced.
   * Fails on a truncated stream or a packet that runs past the `n`-th pixel.
   */
  function RleDecode(space: ColorSpace, s: seq<Byte>, n: nat): (r: Option<(seq<Color>, seq<Byte>)>)
    decreases |s|
    ensures r.Some? ==> |r.value.0| == n
  {
    if n == 0 then Some(([], s))
    else if s == [] then None
    else
      match DecodePacket(space, s)
      case None => None
      case Some((run, tail)) =>
        if |run| > n then None
        else
          match RleDecode(space, tail, n - |run|)
          case None => None
          case Some((qs, rest)) => Some((run + qs, rest))
  }

  lemma {:induction false} ParseFlatten(space: ColorSpace, qs: seq<Color>, rest: seq<Byte>)
    requires forall k :: 0 <= k < |qs| ==> qs[k].Space() == space
    ensures ParsePixels(space, Flatten(qs) + rest, |qs|) == Some((qs, rest))
  {
    if qs != [] {
      var q, tail := qs[0], qs[1..];
      var head, t := PixelBytes(q), Flatten(tail) + rest;
      var s := Flatten(qs) + rest;
      HeadTail(qs);
      FlattenCons(q, tail);
      ConcatAssoc(head, Flatten(tail), rest);
      DropHead(head, t);
      ParsePixelBytes(q, t);
      ParseFlatten(space, tail, rest);
      ParsePixelsStep(space, s, |qs|, |tail|, tail, rest);
    } else {
      EmptyLeft(rest);
    }
  }

  lemma {:induction false} HeadTail<T>(s: seq<T>)
    requires s != []
    ensures s == [s[0]] + s[1..]
  {
  }

  lemma {:induction false} DropHead<T>(a: seq<T>, b: seq<T>)
    ensures (a + b)[..|a|] == a && (a + b)[|a|..] == b
  {
  }

  /** Parsing n pixels is parsing one and then the other n - 1. */
  lemma {:induction false} ParsePixelsStep(space: ColorSpace, s: seq<Byte>, n: nat, m: nat, ps: seq<Color>, rest: seq<Byte>)
    requires n >= 1 && m == n - 1 && |s| >= space.BytesPerPixel()
    requires ParsePixels(space, s[space.BytesPerPixel()..], m) == Some((ps, rest))
    ensures ParsePixels(space, s, n) == Some(([ParsePixel(space, s)] + ps, rest))
  {
  }

  /** A well-formed packet header followed by its payload decodes to the packet's pixels. */
  lemma {:induction false} DecodePacketOf(space: ColorSpace, p: Packet, s: seq<Byte>, ps: seq<Color>, tail: seq<Byte>)
    requires 1 <= p.count <= MAX_CHUNK_LENGTH && (!p.raw ==> p.count >= 2)
    requires s != [] && s[0] == PacketHeader(p)
    requires ParsePixels(space, s[1..], if p.raw then p.count else 1) == Some((ps, tail))
    ensures DecodePacket(space, s) == Some((if p.raw then ps else Repeat(ps[0], p.count), tail))
  {
  }

  /** One step of the decoder: a packet, then whatever the rest decodes to. */
  lemma {:induction false} RleDecodeStep(space: ColorSpace, s: seq<Byte>, n: nat, run: seq<Color>, tail: seq<Byte>,
                      m: nat, qs: seq<Color>, rest: seq<Byte>)
    requires s != [] && DecodePacket(space, s) == Some((run, tail)) && m + |run| == n
    requires RleDecode(space, tail, m) == Some((qs, rest))
    ensures RleDecode(space, s, n) == Some((run + qs, rest))
  {
  }

  /** The payload of a packet parses back to the pixels it lists (raw) or to its one pixel (run). */
  lemma {:induction false} PacketPayloadParses(space: ColorSpace, px: seq<Color>, cur: nat, p: Packet, next: nat, tail: seq<Byte>)
    requires 1 <= p.count <= MAX_CHUNK_LENGTH && next == cur + p.count <= |px| && (!p.raw ==> p.count >= 2)
    requires forall k :: 0 <= k < |px| ==> px[k].Space() == space
    ensures ParsePixels(space, PacketPayload(px, cur, p) + tail, if p.raw then p.count else 1)
      == Some((if p.raw then px[cur..next] else [px[cur]], tail))
  {
    if p.raw {
      ParseFlatten(space, px[cur..next], tail);
    } else {
      FlattenSingle(px[cur]);
      ParseFlatten(space, [px[cur]], tail);
    }
  }

  /** The stream from `cur` is the bytes of the packet there followed by the stream after it. */
  lemma {:induction false} RleFromUnfold(px: seq<Color>, cur: nat, p: Packet, next: nat)
    requires cur < |px| && p == PacketAt(px, cur) && next == cur + p.count
    ensures RleFrom(px, cur) == PacketBytes(px, cur, p) + RleFrom(px, next)
  {
    assert next == PacketEnd(px, cur);
  }

  /** The payload of the packet at `cur` starts at byte `cur*bpp` of the buffer's byte view. */
  lemma {:induction false} PayloadAt(px: seq<Color>, space: ColorSpace, cur: nat, p: Packet, at: nat, end: nat)
    requires cur < |px| && p == PacketAt(px, cur) && at == cur * space.BytesPerPixel()
    requires forall j :: 0 <= j < |px| ==> px[j].Space() == space
    requires end == at + if p.raw then p.count * space.BytesPerPixel() else space.BytesPerPixel()
    ensures end <= |Flatten(px)| && Flatten(px)[at..end] == PacketPayload(px, cur, p)
  {
    var next := cur + p.count;
    PayloadDef(px, cur, p, next);
    if p.raw {
      MulDistributes(cur, p.count, space.BytesPerPixel(), next);
      FlattenRange(px, space, cur, next, at, end);
    } else {
      FlattenPixel(px, space, cur, at, end);
    }
  }

  lemma {:induction false} PayloadDef(px: seq<Color>, start: nat, p: Packet, next: nat)
    requires 1 <= p.count && next == start + p.count <= |px|
    ensures p.raw ==> Flatten(px[start..next]) == PacketPayload(px, start, p)
    ensures !p.raw ==> PixelBytes(px[start]) == PacketPayload(px, start, p)
  {
  }

  /** Writing the packet at `cur` after a prefix of the stream advances the prefix to the next packet. */
  lemma {:induction false} RleFromAdvance(out: seq<Byte>, out': seq<Byte>, px: seq<Color>, cur: nat, p: Packet, next: nat)
    requires cur < |px| && p == PacketAt(px, cur) && next == cur + p.count
    requires out + RleFrom(px, cur) == RleFrom(px, 0)
    requires out' == out + PacketBytes(px, cur, p)
    ensures out' + RleFrom(px, next) == RleFrom(px, 0)
  {
    RleFromUnfold(px, cur, p, next);
    ConcatAssoc(out, PacketBytes(px, cur, p), RleFrom(px, next));
  }

  /** A run packet covers pixels that all equal its first one. */
  lemma {:induction false} PacketCovers(px: seq<Color>, cur: nat, p: Packet, next: nat)
    requires cur < |px| && p == PacketAt(px, cur) && !p.raw && next == cur + p.count
    ensures Repeat(px[cur], p.count) == px[cur..next]
  {
    ScanPacketShape(px, cur, 1, true);
    var r := Repeat(px[cur], p.count);
    assert forall k :: 0 <= k < p.count ==> r[k] == px[cur + k];
  }

  lemma {:induction false} ConsParts<T>(x: T, y: seq<T>)
    ensures ([x] + y) != [] && ([x] + y)[0] == x && ([x] + y)[1..] == y
  {
  }

  /** A packet header, then a payload of parsable pixels, then a stream: the decoder yields the packet's run, then what the stream decodes to. */
  lemma {:induction false} PacketThenRest(space: ColorSpace, p: Packet, a: seq<Byte>, tail: seq<Byte>, first: Color, run: seq<Color>,
                                          n: nat, m: nat, qs: seq<Color>, after: seq<Byte>)
    requires 1 <= p.count <= MAX_CHUNK_LENGTH && (!p.raw ==> p.count >= 2)
    requires ParsePixels(space, a + tail, if p.raw then p.count else 1) == Some((if p.raw then run else [first], tail))
    requires !p.raw ==> Repeat(first, p.count) == run
    requires m + |run| == n
    requires RleDecode(space, tail, m) == Some((qs, after))
    ensures RleDecode(space, [PacketHeader(p)] + (a + tail), n) == Some((run + qs, after))
  {
    var s := [PacketHeader(p)] + (a + tail);
    ConsParts(PacketHeader(p), a + tail);
    DecodePacketOf(space, p, s, if p.raw then run else [first], tail);
    RleDecodeStep(space, s, n, run, tail, m, qs, after);
  }

  /** Decoding the packet `p` at `cur`, followed by any stream, yields the pixels it covers, then whatever that stream decodes to. */
  lemma {:induction false} PacketDecodes(space: ColorSpace, px: seq<Color>, cur: nat, p: Packet, next: nat, tail: seq<Byte>, qs: seq<Color>, after: seq<Byte>)
    requires cur < |px| && p == PacketAt(px, cur) && next == cur + p.count
    requires forall k :: 0 <= k < |px| ==> px[k].Space() == space
    requires RleDecode(space, tail, |px| - next) == Some((qs, after))
    ensures RleDecode(space, [PacketHeader(p)] + (PacketPayload(px, cur, p) + tail), |px| - cur) == Some((px[cur..next] + qs, after))
  {
    PacketPayloadParses(space, px, cur, p, next, tail);
    if !p.raw {
      PacketCovers(px, cur, p, next);
    }
    PacketThenRest(space, p, PacketPayload(px, cur, p), tail, px[cur], px[cur..next], |px| - cur, |px| - next, qs, after);
  }

  lemma {:induction false} Assoc<T>(a: seq<T>, b: seq<T>, c: seq<T>)
    ensures (a + b) + c == a + (b + c)
  {
  }

  lemma {:induction false} EmptyLeft<T>(s: seq<T>)
    ensures [] + s == s
  {
  }

  lemma {:induction false} EmptyTail<T>(s: seq<T>)
    ensures s[|s|..] == []
  {
  }

  lemma {:induction false} SliceSplit<T>(s: seq<T>, i: nat, j: nat)
    requires i <= j <= |s|
    ensures s[i..j] + s[j..] == s[i..]
  {
  }

  /**
   * Decoding the packet stream gives back exactly the encoded pixels, so every one of
   * them is covered once, none dropped or duplicated; the bytes after the stream are
   * left untouched.
   */
  lemma {:induction false} RleRoundTrip(space: ColorSpace, px: seq<Color>, cur: nat, rest: seq<Byte>)
    requires cur <= |px|
    requires forall k :: 0 <= k < |px| ==> px[k].Space() == space
    ensures RleDecode(space, RleFrom(px, cur) + rest, |px| - cur) == Some((px[cur..], rest))
    decreases |px| - cur
  {
    if cur == |px| {
      EmptyLeft(rest);
      EmptyTail(px);
    } else {
      var p := PacketAt(px, cur);
      var next := cur + p.count;
      RleRoundTrip(space, px, next, rest);
      RleFromUnfold(px, cur, p, next);
      PacketDecodes(space, px, cur, p, next, RleFrom(px, next) + rest, px[next..], rest);
      Assoc(PacketBytes(px, cur, p), RleFrom(px, next), rest);
      Assoc([PacketHeader(p)], PacketPayload(px, cur, p), RleFrom(px, next) + rest);
      SliceSplit(px, cur, next);
    }
  }

  /** The stream, followed by any bytes, decodes to exactly the encoded pixels and leaves those bytes. */
  lemma {:induction false} RleEncodeDecodes(space: ColorSpace, px: seq<Color>, rest: seq<Byte>)
    requires forall k :: 0 <= k < |px| ==> px[k].Space() == space
    ensures RleDecode(space, RleEncode(px) + rest, |px|) == Some((px, rest))
  {
    RleRoundTrip(space, px, 0, rest);
    assert px[0..] == px;
  }

  /** A successful decode of at least one pixel consumes at least one byte. */
  lemma {:induction false} RleDecodeConsumes(space: ColorSpace, s: seq<Byte>, n: nat)
    requires n > 0 && RleDecode(space, s, n).Some?
    ensures |RleDecode(space, s, n).value.1| < |s|
    decreases |s|
  {
    var (run, tail) := DecodePacket(space, s).value;
    if n - |run| > 0 {
      RleDecodeConsumes(space, tail, n - |run|);
    }
  }

  /** A raw packet that stops before 128 pixels and before the end is followed by a run packet that starts on the equal pair. */
  lemma {:induction false} RawStopsBeforeRun(px: seq<Color>, start: nat, p: Packet)
    requires start < |px| && p == PacketAt(px, start)
    requires p.raw && start + p.count < |px| && p.count < MAX_CHUNK_LENGTH
    ensures start + p.count + 1 < |px| && px[start + p.count] == px[start + p.count + 1]
    ensures !PacketAt(px, start + p.count).raw
  {
    var next := start + p.count;
    ScanPacketShape(px, start, 1, true);
    assert px[next] == px[next + 1];
    assert PacketAt(px, next) == ScanPacket(px, next, 2, false);
  }

  // ------------------------------------------------------------------ one colour

  function RepeatBytes(b: seq<Byte>, n: nat): (r: seq<Byte>)
    ensures |r| == n * |b|
  {
    if n == 0 then [] else b + RepeatBytes(b, n - 1)
  }

  /** What follows the full 128-pixel packets of a one-colour image: a run unless one pixel is left over. */
  function UniformRemainder(c: Color, r: nat): seq<Byte>
    requires r < MAX_CHUNK_LENGTH
  {
    if r == 0 then [] else if r == 1 then [0] + PixelBytes(c) else [127 + r] + PixelBytes(c)
  }

  lemma {:induction false} ScanUniform(px: seq<Color>, start: nat, count: nat, raw: bool)
    requires 1 <= count <= MAX_CHUNK_LENGTH && start + count <= |px|
    requires raw <==> count == 1
    requires forall k :: start <= k < |px| ==> px[k] == px[start]
    ensures ScanPacket(px, start, count, raw) == Packet(Min(|px| - start, MAX_CHUNK_LENGTH) == 1, Min(|px| - start, MAX_CHUNK_LENGTH))
    decreases MAX_CHUNK_LENGTH - count
  {
    if start + count < |px| && count < MAX_CHUNK_LENGTH {
      ScanUniform(px, start, count + 1, false);
    }
  }

  /** The stream of a one-colour run of n pixels, packet by packet. */
  function UniformStream(c: Color, n: nat): seq<Byte>
  {
    if n >= MAX_CHUNK_LENGTH then [255] + PixelBytes(c) + UniformStream(c, n - MAX_CHUNK_LENGTH)
    else UniformRemainder(c, n)
  }

  /** One step of the one-colour stream: a full run packet, or the remainder and nothing after it. */
  lemma {:induction false} UniformStreamStep(c: Color, n: nat, k: nat, m: nat)
    requires 1 <= n && k == Min(n, MAX_CHUNK_LENGTH) && m == n - k
    ensures UniformStream(c, n) == (if k == 1 then [0] + PixelBytes(c) else [127 + k] + PixelBytes(c)) + UniformStream(c, m)
  {
    if n < MAX_CHUNK_LENGTH {
      AppendEmpty(UniformRemainder(c, n));
    }
  }

  lemma {:induction false} UniformStreamShape(c: Color, n: nat)
    ensures UniformStream(c, n) == RepeatBytes([255] + PixelBytes(c), n / 128) + UniformRemainder(c, n % 128)
  {
    var full := [255] + PixelBytes(c);
    if n >= 128 {
      var m, q, r := n - 128, n / 128, n % 128;
      var q' := q - 1;
      DivStep(n, m, q, q', r);
      UniformStreamStep(c, n, 128, m);
      UniformStreamShape(c, m);
      RepeatBytesStep(full, q, q');
      ConcatAssoc(full, RepeatBytes(full, q'), UniformRemainder(c, r));
    } else {
      assert n / 128 == 0 && n % 128 == n;
      assert RepeatBytes(full, 0) + UniformRemainder(c, n) == UniformRemainder(c, n);
    }
  }

  lemma {:induction false} RleFromUniform(px: seq<Color>, c: Color, cur: nat)
    requires cur <= |px|
    requires forall k :: 0 <= k < |px| ==> px[k] == c
    ensures RleFrom(px, cur) == UniformStream(c, |px| - cur)
    decreases |px| - cur
  {
    if cur < |px| {
      var p := PacketAt(px, cur);
      var next := cur + p.count;
      var n, m := |px| - cur, |px| - next;
      UniformPacket(px, c, cur, p);
      RleFromUnfold(px, cur, p, next);
      RleFromUniform(px, c, next);
      UniformStreamStep(c, n, p.count, m);
    }
  }

  /**
   * n pixels of one colour encode as n/128 run packets with header 255, then a run of
   * the remainder if it is two or more pixels, or a raw packet with header 0 if it is one.
   */
  lemma {:induction false} UniformRle(px: seq<Color>, c: Color)
    requires forall k :: 0 <= k < |px| ==> px[k] == c
    ensures RleEncode(px) == RepeatBytes([255] + PixelBytes(c), |px| / 128) + UniformRemainder(c, |px| % 128)
  {
    RleFromUniform(px, c, 0);
    UniformStreamShape(c, |px|);
  }

  lemma {:induction false} DivStep(n: nat, m: nat, q: nat, q': nat, r: nat)
    requires n >= 128 && m == n - 128 && q == n / 128 && q' == q - 1 && r == n % 128
    ensures m / 128 == q' && m % 128 == r
  {
  }

  lemma {:induction false} RepeatBytesStep(b: seq<Byte>, q: nat, q': nat)
    requires q >= 1 && q' == q - 1
    ensures RepeatBytes(b, q) == b + RepeatBytes(b, q')
  {
  }

  /** In a one-colour image every packet is a run of up to 128 pixels, except a lone last pixel. */
  lemma {:induction false} UniformPacket(px: seq<Color>, c: Color, cur: nat, p: Packet)
    requires cur < |px| && p == PacketAt(px, cur)
    requires forall k :: 0 <= k < |px| ==> px[k] == c
    ensures p == Packet(Min(|px| - cur, MAX_CHUNK_LENGTH) == 1, Min(|px| - cur, MAX_CHUNK_LENGTH))
    ensures PacketBytes(px, cur, p) == if p.count == 1 then [0] + PixelBytes(c) else [127 + p.count] + PixelBytes(c)
  {
    ScanUniform(px, cur, 1, true);
    if p.count == 1 {
      assert px[cur..cur + 1] == [c];
      assert Flatten([c]) == PixelBytes(c) by { assert [c][..0] == []; }
    }
  }

  // ------------------------------------------------------------------ the u8 overflow

  /**
   * The payload length as tga.rs:181 computes it: `run_length * T::BYTE_PER_PIXEL` is a
   * product of two u8 values, which wraps modulo 256 (and panics in a debug build).
   */
  function PayloadLengthAsWritten(p: Packet, bpp: nat): nat
  {
    if p.raw then (p.count * bpp) % 256 else bpp
  }

  function PacketBytesAsWritten(px: seq<Color>, start: nat, p: Packet, bpp: nat): seq<Byte>
    requires 1 <= p.count <= MAX_CHUNK_LENGTH && start + p.count <= |px| && (!p.raw ==> p.count >= 2)
    requires PayloadLengthAsWritten(p, bpp) <= |PacketBytes(px, start, p)| - 1
  {
    PacketBytes(px, start, p)[..1 + PayloadLengthAsWritten(p, bpp)]
  }

  /** The packet stream as the source writes it, overflow included. */
  function RleFromAsWritten(px: seq<Color>, cur: nat, space: ColorSpace): seq<Byte>
    requires forall k :: 0 <= k < |px| ==> px[k].Space() == space
    decreases |px| - cur
  {
    if cur >= |px| then []
    else
      var p := PacketAt(px, cur);
      PacketBytesLength(px, space, cur, p);
      PacketBytesAsWritten(px, cur, p, space.BytesPerPixel()) + RleFromAsWritten(px, PacketEnd(px, cur), space)
  }

  lemma {:induction false} RleFromAsWrittenUnfold(px: seq<Color>, cur: nat, space: ColorSpace, p: Packet, next: nat)
    requires cur < |px| && p == PacketAt(px, cur) && next == cur + p.count
    requires forall k :: 0 <= k < |px| ==> px[k].Space() == space
    ensures PayloadLengthAsWritten(p, space.BytesPerPixel()) <= |PacketBytes(px, cur, p)| - 1
    ensures RleFromAsWritten(px, cur, space) == PacketBytesAsWritten(px, cur, p, space.BytesPerPixel()) + RleFromAsWritten(px, next, space)
  {
    PacketBytesLength(px, space, cur, p);
    assert next == PacketEnd(px, cur);
  }

  /** With one-byte pixels the product never exceeds 128, so the source's stream is the correct one. */
  lemma {:induction false} AsWrittenExactForGrayscale(px: seq<Color>, cur: nat)
    requires forall k :: 0 <= k < |px| ==> px[k].Space() == Grayscale
    ensures RleFromAsWritten(px, cur, Grayscale) == RleFrom(px, cur)
    decreases |px| - cur
  {
    if cur < |px| {
      var p := PacketAt(px, cur);
      var next := cur + p.count;
      RleFromUnfold(px, cur, p, next);
      RleFromAsWrittenUnfold(px, cur, Grayscale, p, next);
      PacketAsWrittenGrayscale(px, cur, p);
      AsWrittenExactForGrayscale(px, next);
      AppendCongruent(PacketBytesAsWritten(px, cur, p, Grayscale.BytesPerPixel()), RleFromAsWritten(px, next, Grayscale),
                      PacketBytes(px, cur, p), RleFrom(px, next));
    }
  }

  lemma {:induction false} AppendCongruent<T>(a: seq<T>, b: seq<T>, c: seq<T>, d: seq<T>)
    requires a == c && b == d
    ensures a + b == c + d
  {
  }

  lemma {:induction false} PacketAsWrittenGrayscale(px: seq<Color>, cur: nat, p: Packet)
    requires cur < |px| && p == PacketAt(px, cur)
    requires forall k :: 0 <= k < |px| ==> px[k].Space() == Grayscale
    ensures PayloadLengthAsWritten(p, Grayscale.BytesPerPixel()) == |PacketBytes(px, cur, p)| - 1
    ensures PacketBytesAsWritten(px, cur, p, Grayscale.BytesPerPixel()) == PacketBytes(px, cur, p)
  {
    PacketBytesLength(px, Grayscale, cur, p);
    var b := PacketBytes(px, cur, p);
    TakeAll(b, 1 + PayloadLengthAsWritten(p, Grayscale.BytesPerPixel()));
  }

  /** A packet's bytes are its header and `count` pixels (raw) or one pixel (run). */
  lemma {:induction false} PacketBytesLength(px: seq<Color>, space: ColorSpace, cur: nat, p: Packet)
    requires 1 <= p.count <= MAX_CHUNK_LENGTH && cur + p.count <= |px| && (!p.raw ==> p.count >= 2)
    requires forall k :: 0 <= k < |px| ==> px[k].Space() == space
    ensures |PacketBytes(px, cur, p)| - 1 == if p.raw then p.count * space.BytesPerPixel() else space.BytesPerPixel()
  {
    var next := cur + p.count;
    PayloadDef(px, cur, p, next);
    if p.raw {
      FlattenLengthIs(px[cur..next], space, p.count, p.count * space.BytesPerPixel());
    }
  }

  lemma {:induction false} TakeAll<T>(s: seq<T>, n: nat)
    requires n == |s|
    ensures s[..n] == s
  {
  }

  lemma {:induction false} ScanDistinct(px: seq<Color>, start: nat, count: nat)
    requires 1 <= count && start + count <= |px| <= start + MAX_CHUNK_LENGTH
    requires forall k :: start <= k < |px| - 1 ==> !EqualsNext(px, k)
    ensures ScanPacket(px, start, count, true) == Packet(true, |px| - start)
    decreases |px| - start - count
  {
    if start + count < |px| {
      assert !EqualsNext(px, start + count - 1);
      ScanDistinct(px, start, count + 1);
    }
  }

  /**
   * Counterexample: 64 RGBA pixels whose neighbours all differ form one raw packet with
   * header 63, whose payload length 64*4 = 256 wraps to 0. The source writes the lone
   * header byte, which no decoder can read back; the corrected stream decodes exactly.
   */
  lemma {:induction false} RleOverflowCounterexample()
    ensures var px := seq(64, k requires 0 <= k < 64 => Bgra(k, 0, 0, 255));
      && PacketAt(px, 0) == Packet(true, 64)
      && RleFromAsWritten(px, 0, Rgba) == [63]
      && RleDecode(Rgba, RleFromAsWritten(px, 0, Rgba), |px|) == None
      && RleDecode(Rgba, RleEncode(px), |px|) == Some((px, []))
  {
    var px := seq(64, k requires 0 <= k < 64 => Bgra(k, 0, 0, 255));
    forall k | 0 <= k < |px| - 1 ensures !EqualsNext(px, k) {
      assert px[k].b != px[k + 1].b;
    }
    ScanDistinct(px, 0, 1);
    assert RleFromAsWritten(px, 64, Rgba) == [];
    assert PacketBytesAsWritten(px, 0, Packet(true, 64), 4) == [63];
    assert ParsePixels(Rgba, [], 64) == None;
    assert [63][1..] == [];
    RleEncodeDecodes(Rgba, px, []);
    assert RleEncode(px) + [] == RleEncode(px);
  }

  // ------------------------------------------------------------------ whole files

  /** The bytes `write` produces: header, raw or packetised pixels, trailer. */
  function EncodeTga(space: ColorSpace, width: nat, height: nat, px: seq<Color>, vflip: bool, rle: bool): seq<Byte>
  {
    HeaderBytes(MakeHeader(space, width, height, vflip, rle))
      + (if rle then RleEncode(px) else Flatten(px))
      + Trailer()
  }

  datatype TgaImage = TgaImage(header: Header, space: ColorSpace, pixels: seq<Color>)

  function SpaceOfDepth(depth: Byte): Option<ColorSpace>
  {
    if depth == 8 then Some(Grayscale)
    else if depth == 24 then Some(Rgb)
    else if depth == 32 then Some(Rgba)
    else None
  }

  /**
   * The reader's table of image types (Truevision TGA 2.0): 2 uncompressed true-colour,
   * 3 uncompressed black and white, 10 run-length true-colour, 11 run-length black and
   * white. Gives whether the payload is run-length encoded, or None for a type that
   * does not fit the pixel depth.
   */
  function TypeCompression(imageType: Byte, space: ColorSpace): Option<bool>
  {
    if space == Grayscale then
      (if imageType == 3 then Some(false) else if imageType == 11 then Some(true) else None)
    else
      (if imageType == 2 then Some(false) else if imageType == 10 then Some(true) else None)
  }

  /** The type byte the writer puts in the header is the one the reader's table lists for that space and mode. */
  lemma {:induction false} ImageTypeListed(space: ColorSpace, rle: bool)
    ensures TypeCompression(ImageType(space, rle), space) == Some(rle)
    ensures forall t: Byte :: TypeCompression(t, space) == Some(rle) ==> t == ImageType(space, rle)
  {
  }

  /** The number of pixels the header announces. */
  function PixelCount(h: Header): (n: nat)
    ensures h.width > 0 && h.height > 0 ==> n > 0
  {
    if h.width > 0 && h.height > 0 then MulPositive(h.width, h.height); h.width * h.height
    else h.width * h.height
  }

  /**
   * A reader for the files this encoder writes: header, then width*height pixels, raw
   * or run-length according to the image type, then exactly the trailer.
   */
  function DecodeTga(s: seq<Byte>): Option<TgaImage>
  {
    if |s| < 18 then None
    else
      var h := ParseHeader(s);
      match SpaceOfDepth(h.pixelDepth)
      case None => None
      case Some(space) =>
        var n := PixelCount(h);
        var body: Option<(seq<Color>, seq<Byte>)> :=
          match TypeCompression(h.imageType, space)
          case None => None
          case Some(rle) => if rle then RleDecode(space, s[18..], n) else ParsePixels(space, s[18..], n);
        match body
        case None => None
        case Some((ps, rest)) => if rest == Trailer() then Some(TgaImage(h, space, ps)) else None
  }

  /** Dimensions below 2^16 survive the u16 casts. */
  lemma {:induction false} MakeHeaderFits(space: ColorSpace, width: nat, height: nat, vflip: bool, rle: bool)
    requires width < 0x1_0000 && height < 0x1_0000
    ensures MakeHeader(space, width, height, vflip, rle).width == width
    ensures MakeHeader(space, width, height, vflip, rle).height == height
    ensures SpaceOfDepth(MakeHeader(space, width, height, vflip, rle).pixelDepth) == Some(space)
    ensures MakeHeader(space, width, height, vflip, rle).imageType == ImageType(space, rle)
  {
  }

  /** The reader accepts a stream whose header names a colour space and whose body decodes to exactly the trailer's worth of leftover. */
  lemma {:induction false} DecodeTgaAccepts(s: seq<Byte>, h: Header, space: ColorSpace, rle: bool, body: seq<Byte>, n: nat, ps: seq<Color>)
    requires |s| >= 18 && ParseHeader(s) == h && SpaceOfDepth(h.pixelDepth) == Some(space)
    requires h.imageType == ImageType(space, rle) && s[18..] == body && n == PixelCount(h)
    requires !rle ==> ParsePixels(space, body, n) == Some((ps, Trailer()))
    requires rle ==> RleDecode(space, body, n) == Some((ps, Trailer()))
    ensures DecodeTga(s) == Some(TgaImage(h, space, ps))
  {
    ImageTypeListed(space, rle);
  }

  /**
   * Reading back what `write` produces gives the header it built and the buffer's
   * pixels, in both modes, as long as the dimensions fit their u16 fields.
   */
  lemma {:induction false} TgaRoundTrip(space: ColorSpace, width: nat, height: nat, px: seq<Color>, vflip: bool, rle: bool)
    requires width < 0x1_0000 && height < 0x1_0000 && |px| == width * height
    requires forall k :: 0 <= k < |px| ==> px[k].Space() == space
    ensures DecodeTga(EncodeTga(space, width, height, px, vflip, rle))
      == Some(TgaImage(MakeHeader(space, width, height, vflip, rle), space, px))
  {
    var h := MakeHeader(space, width, height, vflip, rle);
    var payload := if rle then RleEncode(px) else Flatten(px);
    var s := EncodeTga(space, width, height, px, vflip, rle);
    ConcatAssoc(HeaderBytes(h), payload, Trailer());
    HeaderRoundTrip(h, payload + Trailer());
    assert s[18..] == payload + Trailer();
    MakeHeaderFits(space, width, height, vflip, rle);
    assert PixelCount(h) == |px|;
    if rle {
      RleEncodeDecodes(space, px, Trailer());
    } else {
      ParseFlatten(space, px, Trailer());
    }
    DecodeTgaAccepts(s, h, space, rle, payload + Trailer(), |px|, px);
  }

  /**
   * `write_cursor` with run-length encoding on writes the header and the trailer but no
   * pixel data (its call to `write_rle_data` is commented out); a reader rejects such a
   * file whenever the image has a pixel.
   */
  lemma {:induction false} CursorRleUnreadable(space: ColorSpace, width: nat, height: nat, vflip: bool)
    requires 0 < width < 0x1_0000 && 0 < height < 0x1_0000
    ensures DecodeTga(HeaderBytes(MakeHeader(space, width, height, vflip, true)) + Trailer()) == None
  {
    var h := MakeHeader(space, width, height, vflip, true);
    var s := HeaderBytes(h) + Trailer();
    HeaderRoundTrip(h, Trailer());
    MakeHeaderFits(space, width, height, vflip, true);
    assert s[18..] == Trailer();
    var n := PixelCount(h);
    if RleDecode(space, Trailer(), n).Some? {
      RleDecodeConsumes(space, Trailer(), n);
    }
    DecodeTgaRejectsRle(s, h, space, Trailer(), n);
  }

  /** The reader rejects a run-length stream that fails to decode or does not end in exactly the trailer. */
  lemma {:induction false} DecodeTgaRejectsRle(s: seq<Byte>, h: Header, space: ColorSpace, body: seq<Byte>, n: nat)
    requires |s| >= 18 && ParseHeader(s) == h && SpaceOfDepth(h.pixelDepth) == Some(space)
    requires h.imageType == ImageType(space, true) && s[18..] == body && n == PixelCount(h)
    requires RleDecode(space, body, n).None? || RleDecode(space, body, n).value.1 != Trailer()
    ensures DecodeTga(s) == None
  {
    ImageTypeListed(space, true);
  }

  /** Uncompressed, the file is exactly 18 + width*height*bpp + 26 bytes, header first and trailer last. */
  lemma {:induction false} RawFileLength(space: ColorSpace, width: nat, height: nat, px: seq<Color>, vflip: bool)
    requires |px| == width * height
    requires forall k :: 0 <= k < |px| ==> px[k].Space() == space
    ensures var s := EncodeTga(space, width, height, px, vflip, false);
      && |s| == 18 + width * height * space.BytesPerPixel() + 26
      && s[..18] == HeaderBytes(MakeHeader(space, width, height, vflip, false))
      && s[|s| - 26..] == Trailer()
  {
    FlattenLength(px, space);
  }
}
