# rust-tiny-renderer in Dafny

A model of the core of the rust-tiny-renderer software renderer, with proofs. The core is:

- the generic pixel buffer `Image<T>` and its colour spaces (`Grayscale`, `RGB`, `RGBA`);
- the TGA writer, raw or run-length encoded;
- the `Rasterizer`, which provides Bresenham's `line` and the scanline `triangle`;
- the vector helpers both of them use;
- the Wavefront OBJ loader `Model::from`.

Modules:

- `Wrappers`: `Option`, `Result` and `Outcome` (a result with no value).
- `Math` (src/math.rs): `Vec2`/`Vec3` on integers. It has the constructors, `from_slice`, `default`, `+`, `-`, and the dot product (`*`). It has `cross_product` twice, once as written and once corrected (see Findings). It has vector division truncating toward zero, and the truncating `Vec2<isize> * f64` the triangle uses.
- `Colors` (src/tga.rs): the colour spaces, the colours and their bytes in field-declaration order, taken as their memory layout. It also has the `From` conversions between colour types and the colour constants.
- `TgaFormat` (src/tga.rs): the 18-byte packed header and the 26-byte trailer. It also holds:
  - a pure reference definition of the run-length packet stream (`ScanPacket`, `PacketAt`, `RleFrom`);
  - an independent packet decoder and file reader, so that round trips can be stated;
  - the stream exactly as the source writes it, with its `u8` overflow.
- `Images` (src/tga.rs): the class `Image`, with `new`, `set`, `set_unchecked`, `clear`, `write_rle_data`, `write` and `write_cursor`. Each is a method on the pixel `array`, and each is proved against the reference functions. The writers return the bytes they would write.
- `Raster` (src/rasterizer.rs): the class `Rasterizer`, with `new`, `clear`, `line` and `triangle`. Each pixel that `line` or `triangle` visits is given, in order, by a reference definition (`LinePath`, `TriangleCells`). Each method is proved to leave the image as exactly those points painted in order. An off-image point is dropped the way `set(..).ok()` drops it, after the `as usize` cast.
- `ObjModel` (src/model.rs): the loader `Model::from`, over the lines of the file.
  - `get_vertices` (`GetVertices`) and `get_face_indicies` (`FaceIndices`) describe how one line is read.
  - `Classify` describes the prefix dispatch.
  - The loop is a method proved against the lists of accepted lines.
  - It also has the accessors.

The three things proved most often:

- Round trips:
  - with the corrected encoder (see Findings), reading a written TGA file gives back its header and pixels, raw or run-length (`TgaFormat.TgaRoundTrip`);
  - packet decoding inverts the packet encoder (`TgaFormat.RleEncodeDecodes`);
  - the header fields, pixel bytes and colour conversions can each be recovered.
- Packet shape: a raw packet holds no equal neighbours and stops just before a repeated pair, and a run packet holds one colour.
- Geometry:
  - a line has max(|dx|, |dy|) + 1 pixels, joined end to end, between its endpoints, with no pixel twice;
  - a line is the same in either direction;
  - a triangle's cells lie on the scanlines from its lowest vertex's up to, but not including, its highest, and each scanline's cells form one span;
  - the filled cells do not depend on the order in which the vertices are given.

Two facts about the files the code writes, both as the Truevision TGA 2.0 layout has them:

- The packed header puts the width at bytes 12-13 and the height at bytes 14-15 (`TgaFormat.HeaderLayout`). Bytes 8-11 hold the x and y origin, which are zero.
- A uniform 100 by 100 image is one full run packet per 128 pixels, so 78 packets of 128 and one of 16 (`TgaFormat.UniformRle`). The run cannot be a single packet, because a packet holds at most 128 pixels.

## Model

| member | source | states |
|---|---|---|
| Math.Vec2FromSlice | src/math.rs:118-123 | the vector holds the first two elements of the slice; a shorter slice is refused, as the source's indexing panics |
| Math.Vec3FromSlice | src/math.rs:81-87 | the vector holds the first three elements of the slice; a shorter slice is refused |
| Math.FromSliceTakesPrefix | src/math.rs:76-87 | `from_slice` equals `new` of the leading elements and ignores everything after them |
| Math.AddSubCancel2 | src/math.rs:134-166 | subtracting the vector just added gives back the original (`+` and `-` of `Vec2` are inverse) |
| Math.AddSubCancel3 | src/math.rs:145-178 | subtracting the vector just added gives back the original (`Vec3`) |
| Math.DotProperties2 | src/math.rs:180-186 | the dot product of `Vec2` is symmetric; the `default` vector gives dot product 0 and is neutral for `+` |
| Math.DotProperties3 | src/math.rs:188-194 | the dot product of `Vec3` is symmetric; the `default` vector gives dot product 0 and is neutral for `+` |
| Math.CrossAsWrittenSelfNotZero | src/math.rs:89-95 | as written, the cross product of (0,0,1) with itself is (0,1,0) and not the zero vector |
| Math.CrossAsWrittenDiffersOnlyInY | src/math.rs:89-95 | the written cross product agrees with the textbook one in x and z; its y is off by a.z*(b.z-b.x) |
| Math.CrossProperties | src/math.rs:89-95 | the corrected cross product is anti-commutative, zero for a vector with itself, and orthogonal to both operands |
| Math.TruncDiv | src/math.rs:242-252 | integer `/` rounds toward zero: the sizes obey abs(q)*abs(d) <= abs(n) < abs(q)*abs(d) + abs(d), and the sign is the sign rule of division |
| Math.Div3 | src/math.rs:242-252 | each component of `v / m` rounds toward zero: its magnitude times abs(m) is at most the component's, its sign is that of component*m when non-zero, and the remainder is smaller than abs(m) |
| Math.TruncSign | src/math.rs:242-252 | a non-zero quotient of Rust's `/` has the sign of n*d |
| Math.ScaleFraction | src/math.rs:196-205 | `v * (num/den)` cast to `isize`: each component has the magnitude of v*num/den rounded toward zero and the sign of v*num |
| Colors.ColorSpace.BytesPerPixel | src/tga.rs:36-61 | `BYTE_PER_PIXEL` is 1, 3 or 4, with 1 exactly for `Grayscale` |
| Colors.ColorSpace.Zero | src/tga.rs:36-61 | `T::new()` is a colour of that space whose bytes are all zero |
| Colors.PixelBytes | src/tga.rs:14-34 | a colour occupies `BYTE_PER_PIXEL` bytes, b, g, r(, a) in field-declaration order (the assumed layout) |
| Colors.ParsePixelBytes | src/tga.rs:14-34 | reading a colour back from the front of its bytes gives the colour, whatever follows |
| Colors.PixelBytesParse | src/tga.rs:14-34 | any `BYTE_PER_PIXEL` bytes read as a colour are that colour's bytes |
| Colors.PixelBytesInjective | src/tga.rs:156-157 | two colours of one space have equal byte slices exactly when they are equal, so the slice comparison of the encoder compares pixels |
| Colors.FlattenLength | src/tga.rs:78-81 | the byte view of n pixels has n*`BYTE_PER_PIXEL` bytes |
| Colors.RgbFromRgba | src/tga.rs:319-327 | `RGB::from(RGBA)` keeps the first three bytes and drops alpha |
| Colors.RgbaFromRgb | src/tga.rs:346-355 | `RGBA::from(RGB)` appends an opaque alpha of 255 |
| Colors.RgbaFromGray | src/tga.rs:357-366 | `RGBA::from(Grayscale)` repeats the intensity in b, g and r, with alpha 255 |
| Colors.RgbFromGray | src/tga.rs:368-376 | `RGB::from(Grayscale)` repeats the intensity in b, g and r |
| Colors.RgbaToChannels | src/tga.rs:329-333 | the conversion to `image::Rgba<u8>` gives four channels in r, g, b, a order: the colour's stored bytes 2, 1, 0, 3 |
| Colors.RgbaFromChannels | src/tga.rs:335-344 | the conversion from `image::Rgba<u8>` gives an RGBA colour whose stored bytes (b, g, r, a) are channels 2, 1, 0, 3 |
| Colors.ConversionsAgree | src/tga.rs:319-376 | the two `image::Rgba` conversions invert each other in both directions; RGB to RGBA to RGB is the identity; going from grey through RGBA or through RGB gives the same colour |
| Colors.ConstantsLayout | src/tga.rs:394-427 | the bytes of WHITE, BLACK, RED, GREEN and BLUE in field-declaration order, all opaque |
| TgaFormat.LittleEndian16 | src/tga.rs:83-98 | on the assumed little-endian host, a `u16` field is two bytes, low byte first, whose value is the field |
| TgaFormat.HeaderBytes | src/tga.rs:83-98 | the packed header is exactly 18 bytes |
| TgaFormat.HeaderRoundTrip | src/tga.rs:83-98 | reading the 18 header bytes back gives the header, whatever follows |
| TgaFormat.ImageType | src/tga.rs:196-206 | the image type is one of 2, 3, 10, 11; it is 3 or 11 exactly for black and white pixels, and 10 or above exactly when run-length encoded |
| TgaFormat.ImageTypeListed | src/tga.rs:196-206 | the type byte the writer chooses is the one the reader's table of TGA types lists for that colour space and mode, and no other byte is |
| TgaFormat.HeaderLayout | src/tga.rs:192-209 | byte 2 is the image type; bytes 12-13 and 14-15 are width and height mod 2^16 (the `as u16` casts); byte 16 is 8*`BYTE_PER_PIXEL`; byte 17 is 0x00 when flipped and 0x20 when not; every other byte is 0 |
| TgaFormat.MakeHeaderFits | src/tga.rs:192-195 | below 2^16 the `u16` casts keep the dimensions, and the pixel depth names the colour space |
| TgaFormat.Trailer | src/tga.rs:69-71 | the trailer is 26 bytes: the two four-byte zero area references, then the footer |
| TgaFormat.FooterIsSignature | src/tga.rs:71 | the footer is the ASCII of `TRUEVISION-XFILE.` followed by a NUL, 18 bytes |
| TgaFormat.ScanPacket | src/tga.rs:151-170 | a scanned packet holds 1 to 128 pixels inside the buffer, and a run packet at least 2 |
| TgaFormat.ScanPacketShape | src/tga.rs:151-170 | a raw packet has no two equal neighbours and, if it ends early, is followed by an equal pair; a run packet has one colour throughout and, if it ends early, is followed by a different pixel |
| TgaFormat.PacketAt | src/tga.rs:149-170 | a packet starting at the cursor holds 1 to 128 pixels inside the buffer, and a run packet at least 2 |
| TgaFormat.PacketHeader | src/tga.rs:172-176 | a raw packet's header byte is count-1 (below 128); a run packet's is count+127 (129 or more) |
| TgaFormat.PacketEnd | src/tga.rs:171 | the pixel cursor moves strictly forward and never past the end |
| TgaFormat.RawStopsBeforeRun | src/tga.rs:162-165 | a raw packet that ends early, before 128 pixels, is followed by a run packet that starts at the first of the equal pair |
| TgaFormat.ParsePixels | src/tga.rs:177-185 | reading n raw pixels yields n colours and leaves the rest of the input |
| TgaFormat.DecodePacket | src/tga.rs:172-185 | reading one packet yields 1 to 128 pixels and consumes its header byte at least |
| TgaFormat.RleDecode | src/tga.rs:148-186 | reading packets until n pixels are decoded yields exactly n pixels |
| TgaFormat.RleRoundTrip | src/tga.rs:148-186 | decoding the packet stream from any pixel cursor gives back the remaining pixels and leaves what follows the stream untouched |
| TgaFormat.RleEncodeDecodes | src/tga.rs:143-188 | decoding the whole packet stream gives back every pixel |
| TgaFormat.RleDecodeConsumes | src/tga.rs:172-185 | reading pixels from a packet stream always consumes input |
| TgaFormat.UniformRle | src/tga.rs:148-186 | a one-colour image is n/128 full run packets, then a run packet of n mod 128 pixels (or a one-pixel raw packet when that is 1) |
| TgaFormat.UniformPacket | src/tga.rs:151-176 | on a one-colour image every packet is a run of min(remaining, 128) pixels (raw when only one pixel is left) |
| TgaFormat.AsWrittenExactForGrayscale | src/tga.rs:177-185 | for one byte per pixel the `u8` product of tga.rs:181 cannot wrap; the stream as written equals the reference stream |
| TgaFormat.RleOverflowCounterexample | src/tga.rs:177-185 | 64 distinct RGBA pixels form one raw packet of 64; as written the payload length 64*4 wraps to 0, so only the header byte 63 is written; no reader can decode it, while the corrected stream round-trips |
| TgaFormat.DecodeTgaAccepts | src/tga.rs:191-233 | a file whose header names a colour space and the type byte `write` chooses, followed by width*height pixels (the `n_pixels` of tga.rs:146), raw or run-length, then exactly the trailer, is read as that header, space and pixels |
| TgaFormat.TgaRoundTrip | src/tga.rs:191-233 | with width and height below 2^16, reading a file that the corrected encoder (see Findings) produced gives back its header, colour space and pixels, raw or run-length |
| TgaFormat.CursorRleUnreadable | src/tga.rs:267-271 | `write_cursor` in run-length mode writes a header that announces pixels but no pixel data; a reader rejects the file |
| TgaFormat.DecodeTgaRejectsRle | src/tga.rs:196-206 | a run-length file whose packets do not decode to the announced pixels followed by exactly the trailer is rejected |
| TgaFormat.RawFileLength | src/tga.rs:210-230 | a raw file is 18 + width*height*`BYTE_PER_PIXEL` + 26 bytes, starting with the header and ending with the trailer |
| Images.IdxBound | src/tga.rs:126 | pixel (x, y) with x < width and y < height lies at position x + y*width inside the buffer |
| Images.IdxCover | src/tga.rs:129-135 | every buffer position is the position of some (x, y) of the image, so `clear`'s two loops reach every pixel |
| Images.Image.constructor | src/tga.rs:101-107 | `new` allocates width*height pixels, all `T::new()` |
| Images.Image.Set | src/tga.rs:109-123 | `set` refuses x >= width first and then y >= height, with the offending coordinate and bound; it succeeds exactly when both are inside and then changes only pixel (x, y) |
| Images.Image.SetUnchecked | src/tga.rs:125-127 | `set_unchecked` writes position x + y*width, which must be inside the buffer, and changes nothing else |
| Images.Image.Clear | src/tga.rs:129-135 | after `clear` every pixel is the given colour |
| Images.Image.WriteRleData | src/tga.rs:143-188 | the nested packet loops emit exactly the reference packet stream of the pixel buffer |
| Images.Image.WritePacket | src/tga.rs:149-185 | one round of the outer loop advances the cursor by the packet's length and appends the packet's header byte and payload |
| Images.Image.ScanRun | src/tga.rs:149-170 | the inner loop ends with the kind and length of the packet that starts at the cursor |
| Images.Image.SameNeighbours | src/tga.rs:155-157 | comparing the byte slices of pixel k and pixel k+1 is comparing the two pixels |
| Images.Image.Chunk | src/tga.rs:177-185 | the payload slice holds the packet's pixels (raw packet) or its single pixel (run packet) |
| Images.Image.Write | src/tga.rs:191-233 | `write` emits the header, the raw bytes or the packet stream, and the trailer |
| Images.Image.WriteCursor | src/tga.rs:236-283 | `write_cursor` emits the same as `write`, except that in run-length mode no pixel bytes are written at all |
| Raster.AsUsize | src/rasterizer.rs:66-69 | `as usize` keeps a non-negative value and maps a negative `isize` to value + 2^64 |
| Raster.CastOnImage | src/rasterizer.rs:66-69 | after the casts, `set` accepts exactly the points inside the image, since every negative coordinate becomes 2^63 or more |
| Raster.PaintCovers | src/rasterizer.rs:61-77 | painting points in order gives the colour to exactly the positions some on-image point covers; every other pixel keeps its value |
| Raster.PaintAppend | src/rasterizer.rs:107-133 | painting a concatenation of points is painting the first part and then the second |
| Raster.Setup | src/rasterizer.rs:37-47 | after the transpose and the swap the line runs left to right with slope at most 1, its endpoints are the two points given, and it is steep exactly when abs(dx) < abs(dy) |
| Raster.RiseBounds | src/rasterizer.rs:56-75 | the error term 2*abs(dy)*i - 2*dx*rise lies in (-dx, dx] |
| Raster.RiseUnique | src/rasterizer.rs:56-75 | only one offset keeps the error term in that interval |
| Raster.RiseStep | src/rasterizer.rs:71-75 | one round of the error update: add 2*abs(dy); when the sum exceeds dx, take one minor step and subtract 2*dx |
| Raster.RiseEnds | src/rasterizer.rs:57-61 | the error starts at 0, the first pixel is at minor offset 0 and the last at abs(dy) |
| Raster.RiseAtMost | src/rasterizer.rs:61-77 | no pixel's minor offset passes the far endpoint's |
| Raster.LineOfOnePoint | src/rasterizer.rs:28-78 | a line from p to p draws exactly p |
| Raster.LineLength | src/rasterizer.rs:61 | a line has max(abs(dx), abs(dy)) + 1 pixels |
| Raster.LineEndpoints | src/rasterizer.rs:28-78 | the first and the last pixel drawn are the two endpoints |
| Raster.LineSteps | src/rasterizer.rs:61-77 | consecutive pixels advance the major axis by one and the minor axis by at most one, so the line is 8-connected |
| Raster.LineDistinct | src/rasterizer.rs:61-77 | no pixel is drawn twice |
| Raster.LineSymmetric | src/rasterizer.rs:37-47 | drawing from p1 to p0 visits the same pixels, in the same order, as drawing from p0 to p1 |
| Raster.LineInBox | src/rasterizer.rs:28-78 | every pixel lies in the bounding box of the endpoints |
| Raster.LineIsize | src/rasterizer.rs:28-78 | with endpoints inside the coordinate bound every pixel has `isize` coordinates |
| Raster.LineEffect | src/rasterizer.rs:28-78 | `line` paints exactly the on-image pixels of its path; every other pixel keeps its value |
| Raster.Sort3 | src/rasterizer.rs:95-103 | the three compare-and-swaps sort the vertices by y |
| Raster.Sort3Permutes | src/rasterizer.rs:95-103 | the sorted vertices are a permutation of the given ones, from the lowest y to the highest |
| Raster.SegmentHeight | src/rasterizer.rs:108-116 | the divisor `segment_height` is positive on every row the loop visits, so the division of line 116 is safe |
| Raster.RowEndsAre | src/rasterizer.rs:105-124 | on row i, point a lies on side t0-t2 at fraction i/total_height, and b lies on the side of the half that row i belongs to, at the fraction of that half |
| Raster.CellsAre | src/rasterizer.rs:105-107 | the cells of the triangle are the rows 0 to total_height-1 |
| Raster.RowPainted | src/rasterizer.rs:107-133 | painting row i after rows 0 to i-1 paints rows 0 to i |
| Raster.RowsStep | src/rasterizer.rs:107-133 | rows 0 to n are rows 0 to n-1 followed by row n |
| Raster.RowIsSpan | src/rasterizer.rs:126-132 | row i is every x between the x of a and the x of b, inclusive, on scanline t0.y + i |
| Raster.RowsY | src/rasterizer.rs:107-133 | the cells of rows 0 to n-1 lie on scanlines t0.y to t0.y + n - 1 |
| Raster.TriangleRows | src/rasterizer.rs:91-134 | a triangle fills only scanlines from the lowest vertex's up to but not including the highest vertex's |
| Raster.FlatTriangle | src/rasterizer.rs:105-107 | a triangle draws nothing exactly when its three vertices share one scanline |
| Raster.TieSwapRow | src/rasterizer.rs:108-128 | exchanging two vertices of one scanline exchanges a and b on every row, so the span is unchanged |
| Raster.TieLowEnds | src/rasterizer.rs:108-124 | with t0.y == t1.y, swapping t0 and t1 swaps the two row ends |
| Raster.TieHighEnds | src/rasterizer.rs:108-124 | with t1.y == t2.y, swapping t1 and t2 swaps the two row ends |
| Raster.TieSwapRows | src/rasterizer.rs:107-133 | exchanging two vertices of one scanline leaves every row unchanged |
| Raster.SameCells | src/rasterizer.rs:95-133 | two sortings of the same vertices fill the same cells |
| Raster.SortPermuted | src/rasterizer.rs:95-103 | sorting any reordering of three vertices gives the same triple, up to exchanging vertices of one scanline (or all on one scanline) |
| Raster.TriangleOrderFree | src/rasterizer.rs:80-134 | the cells `triangle` fills are the same for all six orders of its vertices (the symmetry goal of rasterizer.rs:82) |
| Raster.ScaleWithin | src/math.rs:196-205 | a truncated fraction between 0 and 1 of a vector is no longer than the vector, in x and in y |
| Raster.RowEndsBound | src/rasterizer.rs:114-124 | with vertices inside the coordinate bound the row ends stay within three times that bound |
| Raster.RowsIsize | src/rasterizer.rs:107-133 | with vertices inside the coordinate bound every cell of the rows has `isize` coordinates |
| Raster.TriangleIsize | src/rasterizer.rs:91-134 | with vertices inside the coordinate bound every cell has `isize` coordinates |
| Raster.TriangleEffect | src/rasterizer.rs:91-134 | `triangle` paints exactly the on-image pixels among its cells; every other pixel keeps its value |
| Raster.Rasterizer.constructor | src/rasterizer.rs:11-15 | `Rasterizer::new` owns a fresh image of width*height zero pixels |
| Raster.Rasterizer.Clear | src/rasterizer.rs:17-19 | after `clear` every pixel is the colour given |
| Raster.Rasterizer.SetOk | src/rasterizer.rs:66-69 | `set(x as usize, y as usize, c).ok()` plots the point when it is on the image and otherwise drops it |
| Raster.Rasterizer.Line | src/rasterizer.rs:28-78 | after `line` the image is the old image with the points of `LinePath` painted in order |
| Raster.Rasterizer.Sweep | src/rasterizer.rs:48-77 | the error-accumulator loop plots exactly the points of the set-up's path, in order |
| Raster.Rasterizer.Triangle | src/rasterizer.rs:91-134 | after `triangle` the image is the old image with the cells of `TriangleCells` painted in order |
| Raster.Rasterizer.Fill | src/rasterizer.rs:105-133 | the row loop paints rows 0 to total_height-1 in order |
| Raster.Rasterizer.FillRow | src/rasterizer.rs:108-132 | one round of the row loop paints that row's span |
| Raster.Rasterizer.FillSpan | src/rasterizer.rs:130-132 | the inner loop paints x = lo to hi inclusive on one scanline |
| ObjModel.WordLength | src/model.rs:14-16 | a word runs up to the first ASCII whitespace or the end of the line |
| ObjModel.Tokens | src/model.rs:14-16 | `split_ascii_whitespace` yields only non-empty pieces with no whitespace |
| ObjModel.TokensOfSpaced | src/model.rs:14-16 | joining tokens with single spaces and splitting the result again gives the tokens back |
| ObjModel.TokensJoin | src/model.rs:14-16 | the tokens written one after another are the line with its ASCII whitespace removed, whatever whitespace surrounds them |
| ObjModel.SqueezedSplit | src/model.rs:14-16 | removing whitespace from two pieces of a line is removing it from the whole |
| ObjModel.Take | src/model.rs:16 | `take(3)` keeps the first min(3, n) items |
| ObjModel.ParseUsize | src/model.rs:36 | a parsed `usize` is below 2^64 and comes from a non-empty string |
| ObjModel.Decimal | src/model.rs:36 | a number has a non-empty all-digit decimal spelling |
| ObjModel.ParseUsizeDecimal | src/model.rs:36 | `parse::<usize>` reads back any number below 2^64 from its decimal spelling, with or without a leading '+' |
| ObjModel.FirstField | src/model.rs:35 | `split('/').next()` is the prefix of the token up to its first '/', or the whole token |
| ObjModel.FaceFieldsOk | src/model.rs:34-45 | the face is read when every field parses to a number of 1 or more; each index is that number minus 1 |
| ObjModel.FaceFieldsUnderflow | src/model.rs:36-38 | the face read hits the `x - 1` underflow exactly when the first field that is not usable is 0 |
| ObjModel.FaceIndicesMeaning | src/model.rs:31-46 | `get_face_indicies` reads the first field of each of the first three tokens; it succeeds exactly when each is a number of 1 or more and then gives those numbers minus 1; it underflows exactly when the first unusable field is 0 |
| ObjModel.FaceIndicesExample | src/model.rs:28-38 | the token `5/2/1` gives the face [4] |
| ObjModel.ParseAll | src/model.rs:17-18 | `collect` into a `Result` succeeds exactly when every item parses, keeping the parsed values in order |
| ObjModel.GetVertices | src/model.rs:13-23 | a vertex is read when the line has at least three tokens whose first three parse, and holds those three values; fewer than three tokens that all parse hits the panic of `from_slice` |
| ObjModel.OtherLinesSkipped | src/model.rs:59-73 | a line without a `v `, `vn ` or `f ` prefix contributes nothing |
| ObjModel.NormalNotVertex | src/model.rs:60-64 | a `vn ` line matches neither the `v ` prefix nor the `f ` prefix, so it reaches the normal branch |
| ObjModel.EntriesStep | src/model.rs:59-73 | one more line adds its vertex, normal or face, if it yields one, to the end of its list |
| ObjModel.Load | src/model.rs:49-75 | the loader succeeds exactly when no line panics, and then holds every accepted vertex, normal and face in file order; otherwise it stops at the first line that panics |
| ObjModel.Positions | src/model.rs:59-73 | the positions of the lines of one kind are positions in the file |
| ObjModel.PositionsMeaning | src/model.rs:59-73 | those positions are exactly the lines of that kind, each once, in increasing order |
| ObjModel.VerticesAt | src/model.rs:60-63 | the j-th vertex is what the j-th accepted `v ` line holds |
| ObjModel.NormalsAt | src/model.rs:64-67 | the j-th normal is what the j-th accepted `vn ` line holds |
| ObjModel.FacesAt | src/model.rs:68-71 | the j-th face is what the j-th accepted `f ` line holds |
| ObjModel.VerticesAppend | src/model.rs:59-63 | the vertices of two pieces of a file are those of the first piece followed by those of the second |
| ObjModel.NormalsAppend | src/model.rs:64-67 | the normals of two pieces of a file are those of the first piece followed by those of the second |
| ObjModel.FacesAppend | src/model.rs:68-71 | the faces of two pieces of a file are those of the first piece followed by those of the second |
| ObjModel.EntriesConcat | src/model.rs:59 | lines are read independently of each other |
| ObjModel.SkippedEntryIgnored | src/model.rs:59-73 | a skipped entry changes no list and does not cause a panic |
| ObjModel.SkippedLineIgnored | src/model.rs:59-73 | inserting a line that is skipped anywhere in a file changes no list and does not change whether the load panics |
| ObjModel.LoadedAccessors | src/model.rs:77-95 | after a load, `num_vertices` and `num_faces` count the accepted `v ` and `f ` lines, and `vertex(i)`, `normal(i)` and `face(i)` return what the i-th such line holds |

## Left out

- Files, streams and the console are left out. `write_to_file` (src/tga.rs:285-288, src/rasterizer.rs:21-23) and the `File::open`, `BufReader` and `lines` of src/model.rs:50-59 are not modelled, and neither are the `println!` calls. The writers return their bytes, and the loader takes the file's lines.
- `Model::from`'s "couldn't open" error and the lines `lines().flatten()` drops because they are not valid UTF-8: the model starts from the sequence of lines that were read.
- I/O errors from `write_all` and the `expect` and `?` on them are left out. The model writes to a sequence, which cannot fail.
- `random_color` (src/tga.rs:291-317) uses a random number generator.
- The conversions to `Grayscale` (src/tga.rs:378-392) are left out because they use `f32` weights.
- `normalize` (src/math.rs:254-259) is left out because it takes an `f32` square root.
- `Mul<f32>` (src/math.rs:219-240) is left out because it uses `f32` arithmetic.
- The `Vec3<isize> * f64` impl (src/math.rs:207-217) is left out: nothing in the core uses it.
- The `triangle_test_*` rasterizers from src/rasterizer.rs:137 on are experiments outside the core.
- The `BaseNum`/`BaseInt`/`BaseFloat` traits are left out. The vectors carry integers (Math, Raster) or an abstract number type (ObjModel).
- Math.ScaleFraction: `(v as f64 * (num as f64 / den as f64)) as isize` is taken as the exact rational product truncated toward zero. `f64` rounding of the quotient and the product is not modelled. It could move a cell by one pixel where the exact product is an integer and the rounded one falls just below it.
- Raster.Rasterizer.Line and Raster.Rasterizer.Triangle require every coordinate to be below 2^60 in magnitude. This keeps all `isize` sums, differences and doublings in range, so overflow panics are not modelled.
- ObjModel.Load: the `f32` parser `str::parse::<f32>` is not modelled. It is a parameter (`parse`), and every property is stated for any parser.
- ObjModel.ParseUsize: models the 64-bit `usize` (values below 2^64), an optional leading '+', and one or more decimal digits.
- ObjModel.FaceFieldsUnderflow: a face field of 0 makes `x - 1` underflow. The model treats this as a panic that ends the load (a debug build). A release build would wrap it to `usize::MAX` instead.
- The `Err("Missing face vertex number")` branch of src/model.rs:41-43 is not modelled: `split('/').next()` always yields a piece.
- The `unsafe` pointer casts `struct_to_u8_slice` and `slice_to_u8_slice` (src/tga.rs:73-81) are modelled by their result: `HeaderBytes` and `Colors.Flatten`. A panic of `&s[0]` on an empty buffer becomes a precondition of the writers (`data.Length > 0`).
- Images.Image.WriteRleData and Images.Image.Write: these model the corrected payload length (see Findings). The stream as the source writes it is `TgaFormat.RleFromAsWritten`.
- TgaFormat.TgaRoundTrip: is proved for the corrected encoder only. A run-length file the source writes with a raw packet of 256 payload bytes or more is not read back (`TgaFormat.RleOverflowCounterexample`); for black and white pixels the two encoders write the same bytes (`TgaFormat.AsWrittenExactForGrayscale`).
- Images.Image.constructor: requires each dimension below 2^64 and width*height*bytes-per-pixel at most `isize::MAX`. The `usize` overflow of `width * height` and the allocation panic of `vec!` at src/tga.rs:105 are not modelled.
- Colors.PixelBytes: `RGB` and `RGBA` (src/tga.rs:19-34) have no `#[repr]`, and `slice_to_u8_slice` (src/tga.rs:78-81) exposes their `repr(Rust)` layout. The model assumes the fields are laid out in declaration order (b, g, r, a), which Rust does not promise. `Colors.Flatten`, `ConstantsLayout` and the TGA writers rest on the same assumption.
- TgaFormat.LittleEndian16: `struct_to_u8_slice` (src/tga.rs:73-76) writes each `u16` of the packed header in the host's byte order. The model assumes a little-endian host; a big-endian one would write the high byte first.
- Rust's generic typing over `T: ColorSpace` is modelled by a colour-space field of the image, and every colour argument is required to belong to that space.
- Several loops of one source function are split into helper methods (`Sweep`, `Fill`, `FillRow`, `FillSpan`, `WritePacket`, `ScanRun`, `SameNeighbours`, `Chunk`). The statements are the source's, and each helper's contract names the lines it covers.

## Findings

| source | as written | input that shows it | evidently intended | confidence | as-written member | corrected member |
|---|---|---|---|---|---|---|
| src/tga.rs:181 | the raw payload length `run_length * T::BYTE_PER_PIXEL` is computed in `u8` and wraps when count*bytes-per-pixel reaches 256 | 64 distinct RGBA pixels: one raw packet of 64, 64*4 = 256 wraps to 0, so only the header byte 63 is written and the file cannot be decoded (a debug build panics instead) | compute the length in `usize`, so that the packet carries all count*bytes-per-pixel bytes | high (not executed) | TgaFormat.RleOverflowCounterexample | TgaFormat.RleEncodeDecodes |
| src/math.rs:92 | the y component of `cross_product` is `self.z * rhs.z - self.x * rhs.z` | (0,0,1) crossed with (0,0,1) gives (0,1,0) instead of the zero vector | `self.z * rhs.x - self.x * rhs.z` | high (not executed) | Math.CrossAsWrittenSelfNotZero | Math.CrossProperties |
