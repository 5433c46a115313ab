/** svpng: the file is put out byte by byte, with running checksums. */
module PngWriter {
  import opened Arithmetic
  import opened Bytes
  import opened Checksums
  import opened PngFormat

  class Writer {
    var out: seq<byte>
    var c: bv32
    var a: nat
    var b: nat

    constructor ()
      ensures out == [] && a == 1 && b == 0
    {
      out, c, a, b := [], 0, 1, 0;
    }

    // a and b are the Adler sums of `raw`.
    ghost predicate Sums(raw: seq<byte>)
      reads this
    {
      a == S1(raw) % BASE && b == S2(raw) % BASE
    }

    method PutU32(u: nat)
      requires u < 0x1_0000_0000
      modifies this`out
      ensures out == old(out) + Be32(u)
    {
      out := out + [u / 0x100_0000];
      out := out + [u / 0x1_0000 % 0x100];
      out := out + [u / 0x100 % 0x100];
      out := out + [u % 0x100];
    }

    // A byte that the CRC covers: two lookups in the table.
    method PutC(u: byte)
      modifies this`out, this`c
      ensures out == old(out) + [u] && c == Crc(old(c), [u])
    {
      hide TableCrc;
      hide CrcByte;
      hide Crc;
      out := out + [u];
      TableByte(c, u);
      CrcOfOne(c, u);
      c := TableCrc(c, u);
    }

    method PutAllC(bytes: seq<byte>)
      modifies this`out, this`c
      ensures out == old(out) + bytes && c == Crc(old(c), bytes)
    {
      hide Crc;
      CrcOfNone(c);
      for i := 0 to |bytes|
        invariant out == old(out) + bytes[..i] && c == Crc(old(c), bytes[..i])
      {
        PutC(bytes[i]);
        CrcAppend(old(c), bytes[..i], [bytes[i]]);
        assert bytes[..i + 1] == bytes[..i] + [bytes[i]];
      }
      assert bytes[..|bytes|] == bytes;
    }

    // The low 16 bits, low byte first.
    method PutU16C(u: nat)
      modifies this`out, this`c
      ensures out == old(out) + Le16(u % 0x1_0000) && c == Crc(old(c), Le16(u % 0x1_0000))
    {
      hide Crc, Le16;
      var low: byte, high: byte := u % 0x100, u / 0x100 % 0x100;
      LowBytes(u, low, high);
      PutC(low);
      PutC(high);
      CrcAppend(old(c), [low], [high]);
    }

    method PutU32C(u: nat)
      requires u < 0x1_0000_0000
      modifies this`out, this`c
      ensures out == old(out) + Be32(u) && c == Crc(old(c), Be32(u))
    {
      PutAllC([u / 0x100_0000, u / 0x1_0000 % 0x100, u / 0x100 % 0x100, u % 0x100]);
    }

    method PutAdler(u: byte, ghost raw: seq<byte>)
      requires Sums(raw)
      modifies this
      ensures out == old(out) + [u] && c == Crc(old(c), [u]) && Sums(raw + [u])
    {
      hide Crc;
      hide S1;
      hide S2;
      PutC(u);
      AdlerStep(raw, u);
      a := (a + u) % 65521;
      b := (b + a) % 65521;
    }

    method PutAllAdler(bytes: seq<byte>, ghost raw: seq<byte>)
      requires Sums(raw)
      modifies this
      ensures out == old(out) + bytes && c == Crc(old(c), bytes) && Sums(raw + bytes)
    {
      hide Crc;
      hide S1;
      hide S2;
      CrcOfNone(c);
      assert raw + [] == raw;
      for i := 0 to |bytes|
        invariant out == old(out) + bytes[..i] && c == Crc(old(c), bytes[..i]) && Sums(raw + bytes[..i])
      {
        PutAdler(bytes[i], raw + bytes[..i]);
        CrcAppend(old(c), bytes[..i], [bytes[i]]);
        Assoc(raw, bytes[..i], [bytes[i]]);
        assert bytes[..i + 1] == bytes[..i] + [bytes[i]];
      }
      assert bytes[..|bytes|] == bytes;
    }

    method Begin(kind: seq<byte>, length: nat)
      requires length < 0x1_0000_0000
      modifies this`out, this`c
      ensures out == old(out) + Be32(length) + kind && c == Crc(0xffff_ffff, kind)
    {
      PutU32(length);
      c := 0xffff_ffff;
      PutAllC(kind);
    }

    method End()
      modifies this`out
      ensures out == old(out) + CrcField(c)
    {
      out := out + CrcField(c);
    }

    // What comes in front of a stored block.
    method PutBlockHead(last: bool, p: nat)
      modifies this`out, this`c
      ensures var head := [if last then 1 else 0] + Le16(p % 0x1_0000) + Le16(0xFFFF - p % 0x1_0000);
        out == old(out) + head && c == Crc(old(c), head)
    {
      hide Crc;
      hide Le16;
      var first: byte := if last then 1 else 0;
      ghost var l, m := Le16(p % 0x1_0000), Le16(0xFFFF - p % 0x1_0000);
      PutC(first);
      PutU16C(p);
      CrcAppend(old(c), [first], l);
      Complement(p);
      PutU16C(0xffff_ffff - p % WORD);
      CrcAppend(old(c), [first] + l, m);
      assert old(out) + [first] + l + m == old(out) + ([first] + l + m);
    }

    // A filter byte and the pixels.
    method PutRow(row: seq<byte>, ghost raw: seq<byte>)
      requires Sums(raw)
      modifies this
      ensures out == old(out) + ([0] + row) && c == Crc(old(c), [0] + row) && Sums(raw + ([0] + row))
    {
      hide Crc;
      hide S1;
      hide S2;
      PutAdler(0, raw);
      PutAllAdler(row, raw + [0]);
      CrcAppend(old(c), [0], row);
      Assoc(raw, [0], row);
      Assoc(old(out), [0], row);
    }

    // One scan line as a stored block.
    method PutLine(last: bool, p: nat, row: seq<byte>, ghost raw: seq<byte>)
      requires Sums(raw)
      modifies this
      ensures out == old(out) + Line(last, p, row) && c == Crc(old(c), Line(last, p, row))
      ensures Sums(raw + ([0] + row))
    {
      hide Crc;
      hide S1;
      hide S2;
      hide Le16;
      ghost var head := [if last then 1 else 0] + Le16(p % 0x1_0000) + Le16(0xFFFF - p % 0x1_0000);
      PutBlockHead(last, p);
      PutRow(row, raw);
      CrcAppend(old(c), head, [0] + row);
      Assoc(old(out), head, [0] + row);
      assert Line(last, p, row) == head + ([0] + row);
    }

    // All scan lines.
    method PutLines(pixels: seq<byte>, n: nat, h: nat)
      requires |pixels| == h * n && a == 1 && b == 0
      modifies this
      ensures out == old(out) + Lines(pixels, n, h) && c == Crc(old(c), Lines(pixels, n, h))
      ensures Sums(Filtered(pixels, n, h))
    {
      hide Crc;
      hide Line;
      hide Lines;
      hide Filtered;
      hide S1;
      hide S2;
      ghost var raw: seq<byte>, done: seq<byte> := [], [];
      var img, y := pixels, 0;
      CrcOfNone(c);
      NoSums();
      assert [] + Lines(pixels, n, h) == Lines(pixels, n, h) && [] + Filtered(pixels, n, h) == Filtered(pixels, n, h);
      while y < h
        invariant 0 <= y <= h && |img| == (h - y) * n && Sums(raw)
        invariant out == old(out) + done && c == Crc(old(c), done)
        invariant done + Lines(img, n, h - y) == Lines(pixels, n, h)
        invariant raw + Filtered(img, n, h - y) == Filtered(pixels, n, h)
      {
        LinesStep(img, n, h - y);
        ghost var line := Line(y == h - 1, n + 1, img[..n]);
        PutLine(y == h - 1, n + 1, img[..n], raw);
        CrcAppend(old(c), done, line);
        Assoc(done, line, Lines(img[n..], n, h - (y + 1)));
        Assoc(raw, [0] + img[..n], Filtered(img[n..], n, h - (y + 1)));
        Assoc(old(out), done, line);
        raw, done := raw + ([0] + img[..n]), done + line;
        img := img[n..];
        y := y + 1;
      }
      NoLines(img, n);
      assert done + [] == done && raw + [] == raw;
    }

    // Depth, color type, and three zeros.
    method PutKind(alpha: bool)
      modifies this`out, this`c
      ensures var kind := [8, Color(alpha)] + [0, 0, 0];
        out == old(out) + kind && c == Crc(old(c), kind)
    {
      hide Crc;
      var color: byte := if alpha then 6 else 2;
      PutC(8);
      PutC(color);
      CrcAppend(old(c), [8], [color]);
      PutAllC([0, 0, 0]);
      assert [8] + [color] == [8, color];
      CrcAppend(old(c), [8, color], [0, 0, 0]);
      assert old(out) + [8] + [color] + [0, 0, 0] == old(out) + ([8, color] + [0, 0, 0]);
    }

    method PutHeader(img: Image)
      requires img.width < WORD && img.height < WORD
      modifies this`out, this`c
      ensures out == old(out) + Chunk(IHDR, 13, Header(img.width, img.height, img.alpha))
    {
      hide Crc;
      hide Be32;
      hide CrcField;
      Begin(IHDR, 13);
      ghost var w, h, kind := Be32(img.width), Be32(img.height), [8, Color(img.alpha)] + [0, 0, 0];
      PutU32C(img.width);
      CrcAppend(0xffff_ffff, IHDR, w);
      PutU32C(img.height);
      CrcAppend(0xffff_ffff, IHDR + w, h);
      PutKind(img.alpha);
      CrcAppend(0xffff_ffff, IHDR + w + h, kind);
      End();
      HeaderParts(img.width, img.height, img.alpha, w, h, kind);
      Regroup(old(out) + Be32(13) + IHDR, w, h, kind);
      Regroup(IHDR, w, h, kind);
    }

    method PutData(img: Image)
      requires Sized(img) && a == 1 && b == 0
      modifies this
      ensures var n := RowBytes(img);
        out == old(out) + Chunk(IDAT, ZippedSize(n, img.height) % WORD, Zipped(Rows(img), n, img.height))
    {
      hide Crc;
      hide Be32;
      hide CrcField;
      hide Lines;
      hide Filtered;
      hide Rows;
      hide ZippedSize;
      hide Zipped;
      var p := (img.width * PixelSize(img.alpha) + 1) % WORD;
      var length := (2 + img.height * (5 + p) + 4) % WORD;
      var n := (p + (WORD - 1)) % WORD;
      WrappedSizes(img.width * PixelSize(img.alpha), img.height, WORD);
      assert n == RowBytes(img);
      ghost var data := Zipped(Rows(img), n, img.height);
      Begin(IDAT, length);
      PutZipped(Rows(img), n, img.height);
      CrcAppend(0xffff_ffff, IDAT, data);
      End();
    }

    // The scan lines as a zlib stream.
    method PutZipped(pixels: seq<byte>, n: nat, h: nat)
      requires |pixels| == h * n && a == 1 && b == 0
      modifies this
      ensures out == old(out) + Zipped(pixels, n, h) && c == Crc(old(c), Zipped(pixels, n, h))
    {
      hide Crc;
      hide Be32;
      hide Lines;
      hide Filtered;
      hide S1;
      hide S2;
      ghost var lines, adler := Lines(pixels, n, h), Be32(Adler(Filtered(pixels, n, h)));
      PutAllC([0x78, 1]);
      PutLines(pixels, n, h);
      CrcAppend(old(c), [0x78, 1], lines);
      PutU32C(b * 0x10000 + a);
      CrcAppend(old(c), [0x78, 1] + lines, adler);
      assert old(out) + [0x78, 1] + lines + adler == old(out) + ([0x78, 1] + lines + adler);
    }
  }

  lemma LowBytes(u: nat, low: byte, high: byte)
    requires low == u % 0x100 && high == u / 0x100 % 0x100
    ensures Le16(u % 0x1_0000) == [low] + [high]
  {
    assert u % 0x1_0000 == 0x100 * high + low;
  }

  lemma Complement(p: nat)
    ensures (0xffff_ffff - p % WORD) % 0x1_0000 == 0xFFFF - p % 0x1_0000
  {
  }

  lemma Regroup(r: seq<byte>, a: seq<byte>, b: seq<byte>, d: seq<byte>)
    ensures r + a + b + d == r + (a + b + d)
  {
  }

  lemma HeaderParts(width: nat, height: nat, alpha: bool, w: seq<byte>, h: seq<byte>, kind: seq<byte>)
    requires width < WORD && height < WORD && w == Be32(width) && h == Be32(height)
    requires kind == [8, Color(alpha)] + [0, 0, 0]
    ensures Header(width, height, alpha) == w + h + kind
  {
    hide Be32;
  }

  // Pitch, length and bytes a line, as the bits of a word hold them.
  lemma WrappedSizes(x: nat, h: nat, word: nat)
    requires word > 0
    ensures var p := (x + 1) % word;
      (p + (word - 1)) % word == x % word && (2 + h * (5 + p) + 4) % word == ZippedSize(x % word, h) % word
  {
    var p := (x + 1) % word;
    WrappedPitch(x, word);
    ModAdd(x % word + 1, 5, word);
    SameMultiple(h, 5 + p, 5 + (x % word + 1), word);
    SameSum(h * (5 + p), h * (5 + (x % word + 1)), 6, word);
  }

  lemma SameSum(a: nat, b: nat, c: nat, word: nat)
    requires word > 0 && a % word == b % word
    ensures (a + c) % word == (b + c) % word
  {
    ModAdd(a, c, word);
    ModAdd(b, c, word);
  }

  lemma WrappedPitch(x: nat, word: nat)
    requires word > 0
    ensures ((x + 1) % word + (word - 1)) % word == x % word && (x % word + 1) % word == (x + 1) % word
  {
    ModAdd(x + 1, word - 1, word);
    ModShift(x, 1, word);
    ModAdd(x, 1, word);
  }

  lemma SameMultiple(h: nat, x: nat, y: nat, word: nat)
    requires word > 0 && x % word == y % word
    ensures h * x % word == h * y % word
  {
    ModMul(h, x, word);
    ModMul(h, y, word);
  }

  lemma CrcOfOne(c: bv32, u: byte)
    ensures Crc(c, [u]) == CrcByte(c, u)
  {
    hide CrcByte;
  }

  lemma CrcOfNone(c: bv32)
    ensures Crc(c, []) == c
  {
  }

  lemma NoSums()
    ensures S1([]) % BASE == 1 && S2([]) % BASE == 0
  {
  }

  // svpng, for every image with 32-bit sides.
  method Svpng(img: Image) returns (file: seq<byte>)
    requires Sized(img)
    ensures file == File(img)
  {
    hide Chunk;
    hide Zipped;
    hide Crc;
    var w := new Writer();
    w.out := MAGIC;
    w.PutHeader(img);
    w.PutData(img);
    PutEnd(w);
    file := w.out;
  }

  method PutEnd(w: Writer)
    modifies w`out, w`c
    ensures w.out == old(w.out) + Chunk(IEND, 0, [])
  {
    hide Crc;
    w.Begin(IEND, 0);
    w.End();
    assert IEND + [] == IEND;
  }
}
