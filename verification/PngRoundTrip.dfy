/** The written file decodes to the image, exactly when it is one that fits. */
module PngRoundTrip {
  import opened Arithmetic
  import opened Bytes
  import opened Checksums
  import opened PngFormat

  lemma Le16Inverts(u: nat, f: seq<byte>, o: nat)
    requires u < 0x1_0000 && At(f, o, Le16(u))
    ensures o + 2 <= |f| && FromLe16(f, o) == u
  {
    AtIndex(f, o, Le16(u), 0);
    AtIndex(f, o, Le16(u), 1);
  }

  lemma AtSlice(f: seq<byte>, o: nat, r: seq<byte>, end: nat)
    requires At(f, o, r) && end == o + |r|
    ensures end <= |f| && f[o..end] == r
  {
  }

  lemma ChunkRoundTrip(kind: seq<byte>, data: seq<byte>, f: seq<byte>, o: nat)
    requires |kind| == 4 && |data| < 0x1_0000_0000 && At(f, o, Chunk(kind, |data|, data))
    ensures ReadChunk(f, o, kind) == Some((data, o + 12 + |data|))
  {
    hide At;
    hide Crc;
    hide Be32;
    hide FromBe32;
    var crc := CrcNumber(kind + data);
    AtSplit(f, o, Be32(|data|) + kind + data, Be32(crc));
    AtSplit3(f, o, Be32(|data|), kind, data);
    Be32Inverts(|data|, f, o);
    AtSlice(f, o + 4, kind, o + 8);
    AtSlice(f, o + 8, data, o + 8 + |data|);
    Be32Inverts(crc, f, o + 8 + |data|);
  }

  // ----- Blocks -----

  lemma LineRead(last: bool, pitch: nat, row: seq<byte>, d: seq<byte>, o: nat)
    requires pitch == |row| + 1 <= 0xFFFF && At(d, o, Line(last, pitch, row))
    ensures o + 5 + pitch <= |d| && d[o] == (if last then 1 else 0)
    ensures FromLe16(d, o + 1) == pitch && FromLe16(d, o + 3) == 0xFFFF - pitch
    ensures d[o + 5..o + 5 + pitch] == [0] + row
  {
    hide At;
    hide Le16;
    hide FromLe16;
    var first: seq<byte>, a, b := [if last then 1 else 0], Le16(pitch), Le16(0xFFFF - pitch);
    assert Line(last, pitch, row) == (first + a + b) + ([0] + row);
    AtSplit(d, o, first + a + b, [0] + row);
    AtSplit3(d, o, first, a, b);
    AtIndex(d, o, first, 0);
    Le16Inverts(pitch, d, o + 1);
    Le16Inverts(0xFFFF - pitch, d, o + 3);
    AtSlice(d, o + 5, [0] + row, o + 5 + pitch);
  }

  lemma LastBlock(d: seq<byte>, o: nat, n: nat)
    requires o + 5 + n <= |d| && n <= 0xFFFF && d[o] == 1
    requires FromLe16(d, o + 1) == n && FromLe16(d, o + 3) == 0xFFFF - n
    ensures Inflate(d, o) == Some((d[o + 5..o + 5 + n], o + 5 + n))
  {
  }

  lemma MoreBlocks(d: seq<byte>, o: nat, n: nat, rest: seq<byte>, end: nat)
    requires o + 5 + n <= |d| && n <= 0xFFFF && d[o] == 0
    requires FromLe16(d, o + 1) == n && FromLe16(d, o + 3) == 0xFFFF - n
    requires Inflate(d, o + 5 + n) == Some((rest, end))
    ensures Inflate(d, o) == Some((d[o + 5..o + 5 + n] + rest, end))
  {
  }

  // The blocks inflate to the filtered scan lines, whatever follows them.
  lemma {:induction false} LinesInflate(pixels: seq<byte>, n: nat, h: nat, d: seq<byte>, o: nat)
    requires |pixels| == h * n && h > 0 && n + 1 <= 0xFFFF && At(d, o, Lines(pixels, n, h))
    ensures Inflate(d, o) == Some((Filtered(pixels, n, h), o + |Lines(pixels, n, h)|))
    decreases h
  {
    hide At;
    hide Inflate;
    hide FromLe16;
    hide Line;
    hide Lines;
    hide Filtered;
    LinesStep(pixels, n, h);
    var line, rest := Line(h == 1, n + 1, pixels[..n]), Lines(pixels[n..], n, h - 1);
    LineLength(h == 1, n + 1, pixels[..n]);
    AtSplit(d, o, line, rest);
    LineRead(h == 1, n + 1, pixels[..n], d, o);
    if h == 1 {
      NoLines(pixels[n..], n);
      LastBlock(d, o, n + 1);
      assert [0] + pixels[..n] + [] == [0] + pixels[..n];
    } else {
      LinesInflate(pixels[n..], n, h - 1, d, o + |line|);
      MoreBlocks(d, o, n + 1, Filtered(pixels[n..], n, h - 1), o + |line| + |rest|);
    }
  }

  lemma LineLength(last: bool, pitch: nat, row: seq<byte>)
    ensures |Line(last, pitch, row)| == 6 + |row|
  {
  }

  lemma Distribute(h: int, a: int, b: int)
    ensures h * (a + b) == h * a + h * b
  {
  }

  // The length that the chunk announces is the number of bytes written.
  lemma {:induction false} LinesLength(pixels: seq<byte>, n: nat, h: nat)
    requires |pixels| == h * n
    ensures |Lines(pixels, n, h)| == h * (5 + (n + 1))
    ensures |Filtered(pixels, n, h)| == h * (n + 1)
    decreases h
  {
    hide Line;
    hide Lines;
    hide Filtered;
    if h == 0 {
      NoLines(pixels, n);
    } else {
      LinesStep(pixels, n, h);
      LinesLength(pixels[n..], n, h - 1);
      LineLength(h == 1, n + 1, pixels[..n]);
      Distribute(5 + (n + 1), h - 1, 1);
      Distribute(n + 1, h - 1, 1);
    }
  }

  lemma {:induction false} FilteredRoundTrip(pixels: seq<byte>, n: nat, h: nat)
    requires |pixels| == h * n
    ensures Unfilter(Filtered(pixels, n, h), n + 1) == Some(pixels)
    decreases h
  {
    hide Line;
    hide Lines;
    hide Filtered;
    hide Unfilter;
    if h == 0 {
      NoLines(pixels, n);
      NothingFiltered(n + 1);
    } else {
      LinesStep(pixels, n, h);
      FilteredRoundTrip(pixels[n..], n, h - 1);
      UnfilterLine(pixels[..n], Filtered(pixels[n..], n, h - 1), pixels[n..]);
      assert pixels[..n] + pixels[n..] == pixels;
    }
  }

  lemma NothingFiltered(pitch: nat)
    requires pitch > 0
    ensures Unfilter([], pitch) == Some([])
  {
  }

  lemma UnfilterLine(row: seq<byte>, rest: seq<byte>, pixels: seq<byte>)
    requires Unfilter(rest, |row| + 1) == Some(pixels)
    ensures Unfilter([0] + row + rest, |row| + 1) == Some(row + pixels)
  {
    var raw := [0] + row + rest;
    assert raw[|row| + 1..] == rest && raw[1..|row| + 1] == row;
  }

  // ----- The zlib stream -----

  lemma ZippedRoundTrip(pixels: seq<byte>, n: nat, h: nat)
    requires |pixels| == h * n && h > 0 && n + 1 <= 0xFFFF
    ensures Unzip(Zipped(pixels, n, h)) == Some(Filtered(pixels, n, h))
  {
    hide Inflate;
    hide Lines;
    hide Filtered;
    hide Adler;
    hide Be32;
    hide FromBe32;
    hide At;
    var d, lines, adler := Zipped(pixels, n, h), Lines(pixels, n, h), Adler(Filtered(pixels, n, h));
    AtWhole(d);
    AtSplit3(d, 0, [0x78, 1], lines, Be32(adler));
    LinesInflate(pixels, n, h, d, 2);
    Be32Inverts(adler, d, 2 + |lines|);
    AtIndex(d, 0, [0x78, 1], 0);
    AtIndex(d, 0, [0x78, 1], 1);
    assert (0x78 * 256 + 1) % 31 == 0;
  }

  // Every stored block takes five bytes besides its data, which are at most
  // 65535.
  lemma {:induction false} InflateSize(d: seq<byte>, o: nat) returns (blocks: nat)
    requires Inflate(d, o).Some?
    ensures var (bytes, end) := Inflate(d, o).value; end - o == |bytes| + 5 * blocks && |bytes| <= 0xFFFF * blocks
    decreases |d| - o
  {
    var n := FromLe16(d, o + 1);
    if d[o] % 2 == 1 {
      blocks := 1;
    } else {
      blocks := InflateSize(d, o + 5 + n);
      blocks := blocks + 1;
    }
  }

  // Scan lines longer than a block can never be decoded.
  lemma TooWide(pixels: seq<byte>, n: nat, h: nat)
    requires |pixels| == h * n && h > 0 && n + 1 > 0xFFFF
    ensures var raw := Unzip(Zipped(pixels, n, h)); raw.None? || |raw.value| != h * (n + 1)
  {
    hide Lines;
    hide Inflate;
    hide Adler;
    hide Be32;
    hide FromBe32;
    var d := Zipped(pixels, n, h);
    ZippedLength(pixels, n, h);
    if Unzip(d).Some? {
      var blocks := InflateSize(d, 2);
      BlocksTooShort(h, n + 1, |Unzip(d).value|, blocks);
    }
  }

  // As many bytes as lines and blocks of at most 65535 bytes account for.
  lemma BlocksTooShort(h: nat, p: nat, size: nat, blocks: nat)
    requires h > 0 && p > 0xFFFF && h * (5 + p) == size + 5 * blocks && size <= 0xFFFF * blocks
    ensures size != h * p
  {
    Distribute(h, 5, p);
    MulMonotone(h, 0x10000, p);
  }

  // ----- The file -----

  lemma HeaderRoundTrip(w: nat, h: nat, alpha: bool)
    requires w < 0x1_0000_0000 && h < 0x1_0000_0000
    ensures |Header(w, h, alpha)| == 13
    ensures DecodeHeader(Header(w, h, alpha)) == if w == 0 || h == 0 then None else Some((w, h, Color(alpha)))
  {
    hide Be32;
    hide FromBe32;
    hide At;
    var d, kind := Header(w, h, alpha), [8, Color(alpha)] + [0, 0, 0];
    assert d == Be32(w) + Be32(h) + kind;
    AtWhole(d);
    AtSplit3(d, 0, Be32(w), Be32(h), kind);
    Be32Inverts(w, d, 0);
    Be32Inverts(h, d, 4);
    AtIndex(d, 8, kind, 0);
    AtIndex(d, 8, kind, 1);
    AtIndex(d, 8, kind, 2);
    AtIndex(d, 8, kind, 3);
    AtIndex(d, 8, kind, 4);
  }

  lemma ChunkLength(kind: seq<byte>, length: nat, data: seq<byte>)
    requires |kind| == 4 && length < WORD
    ensures |Chunk(kind, length, data)| == 12 + |data|
  {
  }

  lemma ZippedLength(pixels: seq<byte>, n: nat, h: nat)
    requires |pixels| == h * n
    ensures |Zipped(pixels, n, h)| == ZippedSize(n, h)
  {
    LinesLength(pixels, n, h);
  }

  // Where the parts of a file stand: the header in front, the rest behind.
  lemma FileParts(img: Image, header: seq<byte>, data: seq<byte>)
    requires Sized(img) && header == Header(img.width, img.height, img.alpha)
    requires data == Zipped(Rows(img), RowBytes(img), img.height)
    ensures var f := File(img);
      && |data| == ZippedSize(RowBytes(img), img.height) && |f| == 57 + |data| && f[..8] == MAGIC
      && ReadChunk(f, 8, IHDR) == Some((header, 33))
      && At(f, 33, Chunk(IDAT, |data| % WORD, data)) && At(f, 45 + |data|, Chunk(IEND, 0, []))
  {
    hide Zipped;
    hide Chunk;
    hide ReadChunk;
    hide Header;
    hide At;
    var f := File(img);
    HeaderRoundTrip(img.width, img.height, img.alpha);
    ZippedLength(Rows(img), RowBytes(img), img.height);
    var a, b, c := Chunk(IHDR, 13, header), Chunk(IDAT, |data| % WORD, data), Chunk(IEND, 0, []);
    ChunkLength(IHDR, 13, header);
    ChunkLength(IDAT, |data| % WORD, data);
    ChunkLength(IEND, 0, []);
    assert f == MAGIC + a + b + c;
    AtWhole(f);
    AtSplit(f, 0, MAGIC + a + b, c);
    AtSplit3(f, 0, MAGIC, a, b);
    AtSlice(f, 0, MAGIC, 8);
    ChunkRoundTrip(IHDR, header, f, 8);
  }

  // With a true length field the decoder reads the compressed scan lines.
  lemma FileChunks(img: Image)
    requires Sized(img) && ZippedSize(RowBytes(img), img.height) < WORD
    ensures DecodePng(File(img)) ==
      if img.width == 0 || img.height == 0 then None
      else DecodeImage((img.width, img.height, Color(img.alpha)), Zipped(Rows(img), RowBytes(img), img.height))
  {
    hide Zipped;
    hide Chunk;
    hide ReadChunk;
    hide DecodeHeader;
    hide DecodeImage;
    hide Header;
    hide File;
    hide At;
    var f, header := File(img), Header(img.width, img.height, img.alpha);
    var data := Zipped(Rows(img), RowBytes(img), img.height);
    HeaderRoundTrip(img.width, img.height, img.alpha);
    FileParts(img, header, data);
    ChunkRoundTrip(IDAT, data, f, 33);
    ChunkRoundTrip(IEND, [], f, 45 + |data|);
  }

  // With a wrapped one it does not find the end where the file ends.
  lemma WrappedLength(img: Image)
    requires Sized(img) && ZippedSize(RowBytes(img), img.height) >= WORD
    ensures DecodePng(File(img)).None?
  {
    hide Zipped;
    hide Chunk;
    hide ReadChunk;
    hide DecodeHeader;
    hide DecodeImage;
    hide Header;
    hide File;
    hide At;
    var f, header := File(img), Header(img.width, img.height, img.alpha);
    var data := Zipped(Rows(img), RowBytes(img), img.height);
    FileParts(img, header, data);
    LengthField(IDAT, |data| % WORD, data, f, 33);
    var chunk := ReadChunk(f, 33, IDAT);
    if chunk.Some? {
      ReadSize(f, 33, IDAT);
      if ReadChunk(f, chunk.value.1, IEND).Some? {
        ReadSize(f, chunk.value.1, IEND);
      }
    }
  }

  lemma LengthField(kind: seq<byte>, length: nat, data: seq<byte>, f: seq<byte>, o: nat)
    requires |kind| == 4 && length < WORD && At(f, o, Chunk(kind, length, data))
    ensures o + 4 <= |f| && FromBe32(f, o) == length
  {
    hide At;
    hide Crc;
    hide CrcField;
    hide Be32;
    hide FromBe32;
    var field := CrcField(Crc(0xffff_ffff, kind + data));
    AtSplit(f, o, Be32(length) + kind + data, field);
    AtSplit3(f, o, Be32(length), kind, data);
    Be32Inverts(length, f, o);
  }

  lemma ReadSize(f: seq<byte>, o: nat, kind: seq<byte>)
    requires |kind| == 4 && ReadChunk(f, o, kind).Some?
    ensures o + 4 <= |f| && |ReadChunk(f, o, kind).value.0| == FromBe32(f, o)
    ensures ReadChunk(f, o, kind).value.1 == o + 12 + FromBe32(f, o)
  {
    hide Crc;
    hide CrcField;
    hide FromBe32;
  }

  // Lines that wrapped are too few bytes for the image.
  lemma WrappedLines(img: Image)
    requires Sized(img) && img.height > 0 && img.width * PixelSize(img.alpha) >= WORD
    requires ZippedSize(RowBytes(img), img.height) < WORD
    ensures DecodeImage((img.width, img.height, Color(img.alpha)), Zipped(Rows(img), RowBytes(img), img.height)).None?
  {
    hide Zipped;
    hide Unzip;
    hide Unfilter;
    hide ZippedSize;
    hide RowBytes;
    var d := Zipped(Rows(img), RowBytes(img), img.height);
    ZippedLength(Rows(img), RowBytes(img), img.height);
    UnzipSize(d);
    AtLeastOneLine(img.height, Pitch(img.width, img.alpha));
  }

  lemma AtLeastOneLine(h: nat, p: nat)
    requires h > 0
    ensures h * p >= p
  {
  }

  lemma UnzipSize(d: seq<byte>)
    ensures Unzip(d).Some? ==> |Unzip(d).value| <= |d|
  {
    hide Inflate;
    hide FromBe32;
    hide Adler;
    if Unzip(d).Some? {
      var _ := InflateSize(d, 2);
    }
  }

  // For every image with 32-bit sides: the file decodes to the image exactly
  // when it has pixels, its scan lines fit a stored block, and the length of
  // the compressed data fits its field.
  lemma PngRoundTrip(img: Image)
    requires Sized(img)
    ensures var n := img.width * if img.alpha then 4 else 3;
      DecodePng(File(img)) ==
        if img.width > 0 && img.height > 0 && n < 65535 && 6 + img.height * (n + 6) < 0x1_0000_0000
        then Some(img) else None
  {
    hide DecodePng;
    hide DecodeImage;
    hide File;
    hide Zipped;
    var n, h := img.width * PixelSize(img.alpha), img.height;
    if ZippedSize(RowBytes(img), h) >= WORD {
      WrappedLength(img);
    } else {
      FileChunks(img);
      if img.width > 0 && h > 0 {
        if n >= WORD {
          WrappedLines(img);
        } else {
          assert Rows(img) == img.pixels;
          ImageRoundTrip(img);
        }
      }
    }
  }

  lemma ImageRoundTrip(img: Image)
    requires Sized(img) && img.height > 0
    ensures DecodeImage((img.width, img.height, Color(img.alpha)),
                        Zipped(img.pixels, img.width * PixelSize(img.alpha), img.height))
         == if Pitch(img.width, img.alpha) <= 0xFFFF then Some(img) else None
  {
    hide Unzip;
    hide Zipped;
    hide Unfilter;
    var n, h := img.width * PixelSize(img.alpha), img.height;
    if n + 1 <= 0xFFFF {
      ZippedRoundTrip(img.pixels, n, h);
      LinesLength(img.pixels, n, h);
      FilteredRoundTrip(img.pixels, n, h);
    } else {
      TooWide(img.pixels, n, h);
    }
  }

  // Every file ends with the same twelve bytes.
  lemma EndOfFile(img: Image)
    requires Sized(img)
    ensures var f := File(img);
      |f| >= 12 && f[|f| - 12..] == [0, 0, 0, 0, 73, 69, 78, 68, 0xAE, 0x42, 0x60, 0x82]
  {
    hide Header, Zipped, Chunk;
    EndChunk();
    var f, end := File(img), Chunk(IEND, 0, []);
    var n := RowBytes(img);
    var front := MAGIC + Chunk(IHDR, 13, Header(img.width, img.height, img.alpha))
      + Chunk(IDAT, ZippedSize(n, img.height) % WORD, Zipped(Rows(img), n, img.height));
    assert f == front + end && |end| == 12;
  }

  lemma EndChunk()
    ensures Chunk(IEND, 0, []) == [0, 0, 0, 0, 73, 69, 78, 68, 0xAE, 0x42, 0x60, 0x82]
  {
    hide Crc, CrcField;
    EndCrc();
    assert IEND + [] == [73, 69, 78, 68];
    assert CrcField(Crc(0xffff_ffff, IEND + [])) == [0xAE, 0x42, 0x60, 0x82];
  }

  lemma EndCrc()
    ensures CrcField(Crc(0xffff_ffff, [73, 69, 78, 68])) == [0xAE, 0x42, 0x60, 0x82]
  {
    hide CrcByte, Crc;
    EndStep0();
    EndStep1();
    EndStep2();
    EndStep3();
    var d: seq<byte>, n: seq<byte>, e: seq<byte> := [68], [78, 68], [69, 78, 68];
    CrcStep(0x639f4775, 68, []);
    assert d == [68] + [];
    CrcStep(0x992bac53, 78, d);
    assert n == [78] + d;
    CrcStep(0x22fde946, 69, n);
    assert e == [69] + n;
    CrcStep(0xffff_ffff, 73, e);
    var all: seq<byte> := [73, 69, 78, 68];
    assert all == [73] + e;
    assert Crc(0xffff_ffff, all) == 0x51bd9f7d;
    FieldOf();
  }

  lemma FieldOf()
    ensures CrcField(0x51bd9f7d) == [0xAE, 0x42, 0x60, 0x82]
  {
    var c: bv32 := 0x51bd9f7d;
    assert !c == 0xae426082;
    assert (!c) as nat == 0xae426082;
  }

  lemma EndStep0()
    ensures CrcByte(0xffff_ffff, 73) == 0x22fde946
  {
    hide Nibble;
    var u: byte := 73;
    assert u as bv32 == 73;
    Nibbles0();
  }

  lemma Nibbles0()
    ensures Nibble(Nibble(0xffff_ffff ^ 73)) == 0x22fde946
  {
  }

  lemma EndStep1()
    ensures CrcByte(0x22fde946, 69) == 0x992bac53
  {
    hide Nibble;
    var u: byte := 69;
    assert u as bv32 == 69;
    Nibbles1();
  }

  lemma Nibbles1()
    ensures Nibble(Nibble(0x22fde946 ^ 69)) == 0x992bac53
  {
  }

  lemma EndStep2()
    ensures CrcByte(0x992bac53, 78) == 0x639f4775
  {
    hide Nibble;
    var u: byte := 78;
    assert u as bv32 == 78;
    Nibbles2();
  }

  lemma Nibbles2()
    ensures Nibble(Nibble(0x992bac53 ^ 78)) == 0x639f4775
  {
  }

  lemma EndStep3()
    ensures CrcByte(0x639f4775, 68) == 0x51bd9f7d
  {
    hide Nibble;
    var u: byte := 68;
    assert u as bv32 == 68;
    Nibbles3();
  }

  lemma Nibbles3()
    ensures Nibble(Nibble(0x639f4775 ^ 68)) == 0x51bd9f7d
  {
  }

  lemma CrcStep(c: bv32, u: byte, rest: seq<byte>)
    ensures Crc(c, [u] + rest) == Crc(CrcByte(c, u), rest) && Crc(CrcByte(c, u), []) == CrcByte(c, u)
  {
    assert ([u] + rest)[1..] == rest;
  }
}
