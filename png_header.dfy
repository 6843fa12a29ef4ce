/** Reading the fixed-offset header fields of a PNG file (class `Png` of make_icon_from_pngs.py). */
module PngHeader {
  import opened Bytes
  import opened Wrappers

  /** The eight signature bytes of section 5.2 of the PNG specification (W3C / ISO/IEC 15948). */
  const Signature: seq<byte> := [0x89, 0x50, 0x4E, 0x47, 0x0D, 0x0A, 0x1A, 0x0A]

  /** The chunk type "IHDR" in ASCII (section 11.2.2 of the PNG specification), which must be the first chunk. */
  const IhdrType: seq<byte> := [0x49, 0x48, 0x44, 0x52]

  /** The IHDR colour type of an indexed-colour (palette) image. */
  const PaletteColorType := 3

  /** What the program keeps about one PNG file. */
  datatype Png = Png(
    width: nat,
    height: nat,
    bitDepth: nat,
    hasPalette: bool,
    fileData: seq<byte>,
    fileSize: nat)

  /** The two ways a file can be refused: wrong signature, or a first chunk that is not IHDR. */
  datatype PngError = BadSignature | BadChunkType

  function Min(a: nat, b: nat): nat { if a <= b then a else b }

  /** The bytes of data[from..from + n] that exist: fewer than n near or past the end. This is
      what `f.read(n)` returns with the file position at from. */
  function Clip(data: seq<byte>, from: nat, n: nat): (chunk: seq<byte>)
    ensures from + n <= |data| ==> chunk == data[from..from + n]
    ensures |data| <= from ==> chunk == []
    ensures from <= |data| <= from + n ==> chunk == data[from..]
  {
    data[Min(from, |data|)..Min(from + n, |data|)]
  }

  /** After `f.read(n)` at position from, the position has moved by the number of bytes returned,
      so a following `f.read(m)` returns the bytes at from + n, if any: a short read leaves the
      position at the end of the file, and every later read returns nothing. Reading the header
      fields one after another is therefore reading them at fixed offsets. */
  lemma {:induction false} ReadsFollowOffsets(data: seq<byte>, from: nat, n: nat, m: nat)
    ensures Clip(data, from + |Clip(data, from, n)|, m) == Clip(data, from + n, m)
  {
  }

  predicate HasSignature(data: seq<byte>)
  {
    |data| >= 8 && data[..8] == Signature
  }

  predicate HasIhdrFirst(data: seq<byte>)
  {
    |data| >= 16 && data[12..16] == IhdrType
  }

  /** `Png.__init__`: check the 8-byte signature, skip the first chunk's 4-byte length, check that
      its type is IHDR, then read width and height (big-endian, four bytes each), the bit depth and
      the colour type (one byte each), and keep the whole file, whose length `f.tell()` reports
      after `f.seek(0)` and `f.read()`. Reads near the end return what is there, and an empty read
      decodes as 0, as `int.from_bytes` does. */
  function Parse(data: seq<byte>): (r: Result<Png, PngError>)
    ensures r == Err(BadSignature) <==> !HasSignature(data)
    ensures r == Err(BadChunkType) <==> HasSignature(data) && !HasIhdrFirst(data)
    ensures r.Ok? <==> HasSignature(data) && HasIhdrFirst(data)
    ensures r.Ok? ==> r.value.fileData == data && r.value.fileSize == |data|
    ensures r.Ok? ==> r.value.width < 0x1_0000_0000 && r.value.height < 0x1_0000_0000
    ensures r.Ok? ==> r.value.width == BigEndian(if |data| >= 20 then data[16..20] else data[16..])
    ensures r.Ok? && |data| >= 24 ==> r.value.height == BigEndian(data[20..24])
    ensures r.Ok? && 20 <= |data| < 24 ==> r.value.height == BigEndian(data[20..])
    ensures r.Ok? && |data| < 20 ==> r.value.height == 0
    ensures r.Ok? ==> r.value.bitDepth == (if |data| > 24 then data[24] else 0)
    ensures r.Ok? ==> (r.value.hasPalette <==> |data| > 25 && data[25] == PaletteColorType)
  {
    Pow256Values();
    if Clip(data, 0, 8) != Signature then Err(BadSignature)
    else if Clip(data, 12, 4) != IhdrType then Err(BadChunkType)
    else
      Ok(Png(
        BigEndian(Clip(data, 16, 4)),
        BigEndian(Clip(data, 20, 4)),
        BigEndian(Clip(data, 24, 1)),
        BigEndian(Clip(data, 25, 1)) == PaletteColorType,
        Clip(data, 0, |data|),
        |data|))
  }

  /** When the whole IHDR prefix is present, the fields sit at fixed offsets 16, 20, 24 and 25. */
  lemma {:induction false} ParseFullHeader(data: seq<byte>)
    requires |data| >= 26 && Parse(data).Ok?
    ensures Parse(data).value.width ==
      (data[16] as int) * 0x100_0000 + (data[17] as int) * 0x1_0000 + (data[18] as int) * 0x100 + data[19]
    ensures Parse(data).value.height ==
      (data[20] as int) * 0x100_0000 + (data[21] as int) * 0x1_0000 + (data[22] as int) * 0x100 + data[23]
    ensures Parse(data).value.bitDepth == data[24]
    ensures Parse(data).value.hasPalette <==> data[25] == 3
  {
    BigEndianFour(data[16..20]);
    BigEndianFour(data[20..24]);
  }

  /** The first chunk's length field (bytes 8 to 11) is never looked at: files that differ only
      there are accepted or refused alike and give the same header fields. */
  lemma {:induction false} ChunkLengthIgnored(data: seq<byte>, other: seq<byte>)
    requires |data| == |other| >= 12
    requires data[..8] == other[..8] && data[12..] == other[12..]
    ensures Parse(data).Ok? <==> Parse(other).Ok?
    ensures Parse(data).Err? ==> Parse(data) == Parse(other)
    ensures Parse(data).Ok? ==>
      var p, q := Parse(data).value, Parse(other).value;
      p.width == q.width && p.height == q.height && p.bitDepth == q.bitDepth
      && p.hasPalette == q.hasPalette && p.fileSize == q.fileSize && q.fileData == other
  {
    if |data| >= 16 {
      assert data[12..16] == data[12..][..4];
      assert other[12..16] == other[12..][..4];
    }
    if |data| >= 20 {
      assert data[16..20] == data[12..][4..8];
      assert other[16..20] == other[12..][4..8];
    } else if |data| >= 16 {
      assert data[16..] == data[12..][4..];
      assert other[16..] == other[12..][4..];
    }
    if |data| >= 24 {
      assert data[20..24] == data[12..][8..12];
      assert other[20..24] == other[12..][8..12];
    } else if |data| >= 20 {
      assert data[20..] == data[12..][8..];
      assert other[20..] == other[12..][8..];
    }
    if |data| > 25 {
      assert data[24] == data[12..][12] && other[24] == other[12..][12];
      assert data[25] == data[12..][13] && other[25] == other[12..][13];
    } else if |data| > 24 {
      assert data[24] == data[12..][12] && other[24] == other[12..][12];
    }
  }
}
