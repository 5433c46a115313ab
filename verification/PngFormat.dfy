/**
 PNG files. The decoder is written from the standards (RFC 2083, RFC 1950 and
 section 3.2.4 of RFC 1951) for images of the kinds the writer makes; the file
 is what the writer puts out.
 */
module PngFormat {
  import opened Arithmetic
  import opened Bytes
  import opened Checksums

  const WORD := 0x1_0000_0000

  datatype Image = Image(width: nat, height: nat, alpha: bool, pixels: seq<byte>)

  function PixelSize(alpha: bool): nat {
    if alpha then 4 else 3
  }

  // A scan line with its filter byte.
  function Pitch(width: nat, alpha: bool): nat {
    width * PixelSize(alpha) + 1
  }

  // ----- Numbers in the file -----

  function Le16(u: nat): (r: seq<byte>)
    requires u < 0x1_0000
    ensures |r| == 2
  {
    [u % 0x100, u / 0x100]
  }

  function FromLe16(f: seq<byte>, o: nat): nat
    requires o + 2 <= |f|
  {
    f[o] + f[o + 1] as int * 0x100
  }

  // ----- The decoder -----

  // The signature of section 3.1 and the chunk types of section 4.1 of RFC 2083.
  const SIGNATURE: seq<byte> := [137, 80, 78, 71, 13, 10, 26, 10]
  const HEADER_TYPE: seq<byte> := [73, 72, 68, 82]
  const DATA_TYPE: seq<byte> := [73, 68, 65, 84]
  const END_TYPE: seq<byte> := [73, 69, 78, 68]

  // The CRC of section 3.4: all bits one at first, and complemented at the end.
  function CrcNumber(data: seq<byte>): nat {
    (!Crc(0xffff_ffff, data)) as nat
  }

  // The data of a chunk of the given type at `o`, and the position behind it.
  function ReadChunk(f: seq<byte>, o: nat, kind: seq<byte>): (r: Option<(seq<byte>, nat)>)
    requires |kind| == 4
  {
    if o + 8 > |f| || f[o + 4..o + 8] != kind then None
    else
      var n := FromBe32(f, o);
      if o + 12 + n > |f| then None
      else
        var data := f[o + 8..o + 8 + n];
        if FromBe32(f, o + 8 + n) != CrcNumber(kind + data) then None
        else Some((data, o + 12 + n))
  }

  // Stored deflate blocks from `o` on: the bytes they hold and the position
  // behind the last one. Other block types are not decoded.
  function Inflate(d: seq<byte>, o: nat): (r: Option<(seq<byte>, nat)>)
    ensures r.Some? ==> o < r.value.1 <= |d|
    decreases |d| - o
  {
    if o + 5 > |d| || d[o] / 2 % 4 != 0 then None
    else
      var n := FromLe16(d, o + 1);
      if FromLe16(d, o + 3) != 0xFFFF - n || o + 5 + n > |d| then None
      else
        var block := d[o + 5..o + 5 + n];
        if d[o] % 2 == 1 then Some((block, o + 5 + n))
        else
          var rest := Inflate(d, o + 5 + n);
          if rest.None? then None else Some((block + rest.value.0, rest.value.1))
  }

  // A zlib stream that is exactly `d`.
  function Unzip(d: seq<byte>): Option<seq<byte>> {
    if |d| < 2 || d[0] % 16 != 8 || (d[0] as int * 256 + d[1]) % 31 != 0 || d[1] / 32 % 2 != 0 then None
    else
      var r := Inflate(d, 2);
      if r.None? || r.value.1 + 4 != |d| then None
      else if FromBe32(d, r.value.1) != Adler(r.value.0) then None
      else Some(r.value.0)
  }

  // Scan lines that all have filter type 0.
  function Unfilter(raw: seq<byte>, pitch: nat): Option<seq<byte>>
    requires pitch > 0
  {
    if raw == [] then Some([])
    else if |raw| < pitch || raw[0] != 0 then None
    else
      var rest := Unfilter(raw[pitch..], pitch);
      if rest.None? then None else Some(raw[1..pitch] + rest.value)
  }

  // Width, height and color type: 2 for three samples a pixel, 6 for four (the
  // table of section 4.1.1).
  function DecodeHeader(d: seq<byte>): Option<(nat, nat, byte)> {
    if |d| != 13 || d[8] != 8 || (d[9] != 2 && d[9] != 6) || d[10] != 0 || d[11] != 0 || d[12] != 0 then None
    else if FromBe32(d, 0) == 0 || FromBe32(d, 4) == 0 then None
    else Some((FromBe32(d, 0), FromBe32(d, 4), d[9]))
  }

  function LineSize(width: nat, color: byte): nat {
    1 + (if color == 6 then 4 else 3) * width
  }

  function DecodeImage(header: (nat, nat, byte), data: seq<byte>): Option<Image> {
    var (w, h, color) := header;
    var raw := Unzip(data);
    if raw.None? || |raw.value| != h * LineSize(w, color) then None
    else
      var pixels := Unfilter(raw.value, LineSize(w, color));
      if pixels.None? then None else Some(Image(w, h, color == 6, pixels.value))
  }

  function DecodePng(f: seq<byte>): Option<Image> {
    if |f| < 8 || f[..8] != SIGNATURE then None
    else
      var header := ReadChunk(f, 8, HEADER_TYPE);
      if header.None? || DecodeHeader(header.value.0).None? then None
      else
        var data := ReadChunk(f, header.value.1, DATA_TYPE);
        if data.None? then None
        else
          var end := ReadChunk(f, data.value.1, END_TYPE);
          if end != Some(([], |f|)) then None
          else DecodeImage(DecodeHeader(header.value.0).value, data.value.0)
  }

  // ----- The file that is written -----

  const MAGIC: seq<byte> := [0x89, 0x50, 0x4E, 0x47, 0x0D, 0x0A, 0x1A, 0x0A]
  const IHDR: seq<byte> := [0x49, 0x48, 0x44, 0x52]
  const IDAT: seq<byte> := [0x49, 0x44, 0x41, 0x54]
  const IEND: seq<byte> := [0x49, 0x45, 0x4E, 0x44]

  // Color type 2 or 6 of a header.
  function Color(alpha: bool): byte {
    if alpha then 6 else 2
  }

  // The four bytes of the complement of the running CRC.
  function CrcField(c: bv32): (r: seq<byte>)
    ensures |r| == 4
  {
    Be32((!c) as nat)
  }

  function Chunk(kind: seq<byte>, length: nat, data: seq<byte>): seq<byte>
    requires length < 0x1_0000_0000
  {
    Be32(length) + kind + data + CrcField(Crc(0xffff_ffff, kind + data))
  }

  function Header(width: nat, height: nat, alpha: bool): seq<byte>
    requires width < 0x1_0000_0000 && height < 0x1_0000_0000
  {
    Be32(width) + Be32(height) + [8, Color(alpha)] + [0, 0, 0]
  }

  // One scan line as a block: the low 16 bits of the pitch and of its
  // complement, whatever the pitch is.
  function Line(last: bool, pitch: nat, row: seq<byte>): seq<byte> {
    [if last then 1 else 0] + Le16(pitch % 0x1_0000) + Le16(0xFFFF - pitch % 0x1_0000) + [0] + row
  }

  // The blocks of the last `h` scan lines.
  function Lines(pixels: seq<byte>, n: nat, h: nat): seq<byte>
    requires |pixels| == h * n
    decreases h
  {
    if h == 0 then []
    else
      assert h * n == (h - 1) * n + n;
      Line(h == 1, n + 1, pixels[..n]) + Lines(pixels[n..], n, h - 1)
  }

  // The scan lines with their filter bytes.
  function Filtered(pixels: seq<byte>, n: nat, h: nat): seq<byte>
    requires |pixels| == h * n
    decreases h
  {
    if h == 0 then []
    else
      assert h * n == (h - 1) * n + n;
      [0] + pixels[..n] + Filtered(pixels[n..], n, h - 1)
  }

  lemma NoLines(img: seq<byte>, n: nat)
    requires |img| == 0
    ensures Lines(img, n, 0) == [] && Filtered(img, n, 0) == []
  {
  }

  // One more scan line.
  lemma LinesStep(img: seq<byte>, n: nat, k: nat)
    requires k > 0 && |img| == k * n
    ensures |img| >= n && |img[n..]| == (k - 1) * n
    ensures Lines(img, n, k) == Line(k == 1, n + 1, img[..n]) + Lines(img[n..], n, k - 1)
    ensures Filtered(img, n, k) == ([0] + img[..n]) + Filtered(img[n..], n, k - 1)
  {
    hide Line;
    assert k * n == (k - 1) * n + n;
  }

  function Zipped(pixels: seq<byte>, n: nat, h: nat): seq<byte>
    requires |pixels| == h * n
  {
    [0x78, 1] + Lines(pixels, n, h) + Be32(Adler(Filtered(pixels, n, h)))
  }

  // Any image whose sides are 32-bit numbers.
  predicate Sized(img: Image) {
    && img.width < WORD && img.height < WORD
    && |img.pixels| == img.height * (img.width * if img.alpha then 4 else 3)
  }

  // The bytes of a scan line as the writer's 32-bit arithmetic has them. It
  // reads on from line to line, so wrapped lines leave pixels out at the end.
  function RowBytes(img: Image): nat {
    img.width * PixelSize(img.alpha) % WORD
  }

  function Rows(img: Image): (r: seq<byte>)
    requires Sized(img)
    ensures |r| == img.height * RowBytes(img)
  {
    MulMonotone(img.height, RowBytes(img), img.width * PixelSize(img.alpha));
    img.pixels[..img.height * RowBytes(img)]
  }

  // How many bytes the scan lines take, compressed.
  function ZippedSize(n: nat, h: nat): nat {
    2 + h * (5 + (n + 1)) + 4
  }

  function File(img: Image): seq<byte>
    requires Sized(img)
  {
    var n := RowBytes(img);
    MAGIC
    + Chunk(IHDR, 13, Header(img.width, img.height, img.alpha))
    + Chunk(IDAT, ZippedSize(n, img.height) % WORD, Zipped(Rows(img), n, img.height))
    + Chunk(IEND, 0, [])
  }
}
