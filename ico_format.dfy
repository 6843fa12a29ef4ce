/** The ICO container the program writes (ICONDIR header, ICONDIRENTRY directory, PNG payloads),
    and the fields a reader of the container decodes from it. The header is 6 bytes long and is
    followed by one 16-byte directory slot per image; those sizes are written as literals so that
    slot arithmetic stays linear. */
module IcoFormat {
  import opened Bytes
  import opened PngHeader
  import opened OutputFiles

  /** Image type 1 marks an icon (2 would be a cursor). */
  const IconType: byte := 1

  /** The header: two reserved zero bytes, the type 1 and the image count, little-endian. */
  function Header(count: nat): (h: seq<byte>)
    ensures |h| == 6
    ensures h[..4] == [0, 0, IconType, 0]
    ensures count < 0x1_0000 ==> FromLittleEndian(h[4..]) == count
  {
    Pow256Values();
    var h := [0, 0] + [IconType, 0] + ToLittleEndian(count, 2);
    assert h[4..] == ToLittleEndian(count, 2);
    h
  }

  /** An ICONDIRENTRY: the image's width and height (0 standing for 256), the palette size, a
      reserved byte, the colour planes, the bits per pixel, and the size and offset of the image's
      bytes. */
  datatype IconDirEntry = IconDirEntry(width: nat, height: nat, colorCount: nat, reserved: nat,
                                       planes: nat, bitCount: nat, bytesInRes: nat,
                                       imageOffset: nat)

  /** Whether every field fits its width: one byte for the first four, two for planes and bits
      per pixel, four for the size and the offset. */
  predicate EntryFits(e: IconDirEntry)
  {
    e.width < 0x100 && e.height < 0x100 && e.colorCount < 0x100 && e.reserved < 0x100
    && e.planes < 0x1_0000 && e.bitCount < 0x1_0000
    && e.bytesInRes < 0x1_0000_0000 && e.imageOffset < 0x1_0000_0000
  }

  /** The 16 bytes of an entry: its fields one after another, each little-endian. */
  function EncodeEntry(e: IconDirEntry): (s: seq<byte>)
    ensures |s| == 16
  {
    ToLittleEndian(e.width, 1) + ToLittleEndian(e.height, 1)
    + ToLittleEndian(e.colorCount, 1) + ToLittleEndian(e.reserved, 1)
    + ToLittleEndian(e.planes, 2) + ToLittleEndian(e.bitCount, 2)
    + ToLittleEndian(e.bytesInRes, 4) + ToLittleEndian(e.imageOffset, 4)
  }

  /** The entry a reader finds in 16 bytes. */
  function DecodeEntry(s: seq<byte>): (e: IconDirEntry)
    requires |s| == 16
    ensures EntryFits(e)
  {
    Pow256Values();
    IconDirEntry(FromLittleEndian(s[0..1]), FromLittleEndian(s[1..2]),
                 FromLittleEndian(s[2..3]), FromLittleEndian(s[3..4]),
                 FromLittleEndian(s[4..6]), FromLittleEndian(s[6..8]),
                 FromLittleEndian(s[8..12]), FromLittleEndian(s[12..16]))
  }

  /** An entry whose fields fit reads back as written. */
  lemma {:induction false} EntryRoundTrip(e: IconDirEntry)
    requires EntryFits(e)
    ensures DecodeEntry(EncodeEntry(e)) == e
  {
    Pow256Values();
    var s := EncodeEntry(e);
    assert s[0..1] == ToLittleEndian(e.width, 1);
    assert s[1..2] == ToLittleEndian(e.height, 1);
    assert s[2..3] == ToLittleEndian(e.colorCount, 1);
    assert s[3..4] == ToLittleEndian(e.reserved, 1);
    assert s[4..6] == ToLittleEndian(e.planes, 2);
    assert s[6..8] == ToLittleEndian(e.bitCount, 2);
    assert s[8..12] == ToLittleEndian(e.bytesInRes, 4);
    assert s[12..16] == ToLittleEndian(e.imageOffset, 4);
  }

  /** Every 16 bytes are the encoding of the entry they decode to. */
  lemma {:induction false} EntryDecodeRoundTrip(s: seq<byte>)
    requires |s| == 16
    ensures EncodeEntry(DecodeEntry(s)) == s
  {
    LittleEndianRoundTrip(s[0..1]);
    LittleEndianRoundTrip(s[1..2]);
    LittleEndianRoundTrip(s[2..3]);
    LittleEndianRoundTrip(s[3..4]);
    LittleEndianRoundTrip(s[4..6]);
    LittleEndianRoundTrip(s[6..8]);
    LittleEndianRoundTrip(s[8..12]);
    LittleEndianRoundTrip(s[12..16]);
    assert s == s[0..1] + s[1..2] + s[2..3] + s[3..4] + s[4..6] + s[6..8] + s[8..12] + s[12..16];
  }

  /** The entry the program writes for image p whose bytes start at offset: width and height
      modulo 256 (so 256 is written as 0), and zero palette size, reserved byte, colour planes
      and bits per pixel. */
  function ImageEntry(p: Png, offset: nat): (e: IconDirEntry)
    ensures p.fileSize < 0x1_0000_0000 && offset < 0x1_0000_0000 ==> EntryFits(e)
  {
    IconDirEntry(p.width % 256, p.height % 256, 0, 0, 0, 0, p.fileSize, offset)
  }

  /** The sum of the recorded file sizes. */
  function TotalSize(pngs: seq<Png>): nat
  {
    if pngs == [] then 0 else pngs[0].fileSize + TotalSize(pngs[1..])
  }

  /** Every record's size is the length of its bytes, as `Png.__init__` sets them. */
  predicate SizesRecorded(pngs: seq<Png>)
  {
    forall j | 0 <= j < |pngs| :: pngs[j].fileSize == |pngs[j].fileData|
  }

  /** Whether the images fit a container of count slots: the count in 16 bits, every offset and
      size in 32. */
  predicate Fits(pngs: seq<Png>, count: nat)
  {
    |pngs| <= count < 0x1_0000 && 6 + 16 * count + TotalSize(pngs) < 0x1_0000_0000
  }

  lemma {:induction false} SliceLeft(a: seq<byte>, b: seq<byte>, lo: nat, hi: nat)
    requires lo <= hi <= |a|
    ensures (a + b)[lo..hi] == a[lo..hi]
  {
  }

  lemma {:induction false} SliceRight(a: seq<byte>, b: seq<byte>, lo: nat, hi: nat)
    requires |a| <= lo <= hi <= |a| + |b|
    ensures (a + b)[lo..hi] == b[lo - |a|..hi - |a|]
  {
  }

  /** Adding an image at the end adds its size. */
  lemma {:induction false} TotalSizeSnoc(pngs: seq<Png>, p: Png)
    ensures TotalSize(pngs + [p]) == TotalSize(pngs) + p.fileSize
    decreases |pngs|
  {
    if pngs == [] {
      assert ([] + [p])[1..] == [];
    } else {
      assert (pngs + [p])[1..] == pngs[1..] + [p];
      TotalSizeSnoc(pngs[1..], p);
    }
  }

  /** The size of the first i images is that of the first one plus that of the i - 1 after it. */
  lemma {:induction false} TotalSizeFront(pngs: seq<Png>, i: nat)
    requires 0 < i <= |pngs|
    ensures TotalSize(pngs[..i]) == pngs[0].fileSize + TotalSize(pngs[1..][..i - 1])
  {
    assert pngs[..i][1..] == pngs[1..][..i - 1];
  }

  /** The images up to and including image i take its size more than those before it. */
  lemma {:induction false} TotalSizeNext(pngs: seq<Png>, i: nat)
    requires i < |pngs|
    ensures TotalSize(pngs[..i + 1]) == TotalSize(pngs[..i]) + pngs[i].fileSize
  {
    assert pngs[..i + 1] == pngs[..i] + [pngs[i]];
    TotalSizeSnoc(pngs[..i], pngs[i]);
  }

  /** The images before image i and image i itself are no larger than all of them together. */
  lemma {:induction false} TotalSizeBefore(pngs: seq<Png>, i: nat)
    requires i < |pngs|
    ensures TotalSize(pngs[..i]) + pngs[i].fileSize <= TotalSize(pngs)
    decreases |pngs|
  {
    if i == 0 {
      assert pngs[..0] == [];
    } else {
      TotalSizeBefore(pngs[1..], i - 1);
      TotalSizeFront(pngs, i);
    }
  }

  /** The directory: one entry per image, each recording where the image's bytes start when the
      first image starts at offset start and the others follow it in order. */
  function Entries(pngs: seq<Png>, start: nat): (es: seq<IconDirEntry>)
    ensures |es| == |pngs|
  {
    if pngs == [] then []
    else [ImageEntry(pngs[0], start)] + Entries(pngs[1..], start + pngs[0].fileSize)
  }

  /** Entry i is that of image i, pointing past the images before it. */
  lemma {:induction false} EntriesAt(pngs: seq<Png>, start: nat, i: nat)
    requires i < |pngs|
    ensures Entries(pngs, start)[i] == ImageEntry(pngs[i], start + TotalSize(pngs[..i]))
    decreases |pngs|
  {
    if i == 0 {
      assert pngs[..0] == [];
    } else {
      var next := start + pngs[0].fileSize;
      EntriesAt(pngs[1..], next, i - 1);
      TotalSizeFront(pngs, i);
      assert pngs[1..][i - 1] == pngs[i];
    }
  }

  /** Adding an image adds its entry at the end of the directory, pointing past all the others. */
  lemma {:induction false} EntriesSnoc(pngs: seq<Png>, p: Png, start: nat)
    ensures Entries(pngs + [p], start)
      == Entries(pngs, start) + [ImageEntry(p, start + TotalSize(pngs))]
    decreases |pngs|
  {
    if pngs == [] {
      assert ([] + [p])[1..] == [];
    } else {
      var next := start + pngs[0].fileSize;
      assert (pngs + [p])[1..] == pngs[1..] + [p];
      EntriesSnoc(pngs[1..], p, next);
    }
  }

  /** The bytes of a directory: its entries' encodings one after another. */
  function Serialize(es: seq<IconDirEntry>): (s: seq<byte>)
    ensures |s| == 16 * |es|
  {
    if es == [] then [] else EncodeEntry(es[0]) + Serialize(es[1..])
  }

  /** Block i of a directory's bytes is the encoding of entry i. */
  lemma {:induction false} SerializeAt(es: seq<IconDirEntry>, i: nat)
    requires i < |es|
    ensures Serialize(es)[16 * i..16 * i + 16] == EncodeEntry(es[i])
    decreases |es|
  {
    if i != 0 {
      SerializeAt(es[1..], i - 1);
      assert es[1..][i - 1] == es[i];
    }
  }

  /** An entry added at the end adds its encoding at the end. */
  lemma {:induction false} SerializeSnoc(es: seq<IconDirEntry>, e: IconDirEntry)
    ensures Serialize(es + [e]) == Serialize(es) + EncodeEntry(e)
    decreases |es|
  {
    if es == [] {
      assert ([] + [e])[1..] == [];
    } else {
      assert (es + [e])[1..] == es[1..] + [e];
      SerializeSnoc(es[1..], e);
      var first := EncodeEntry(es[0]);
      assert first + (Serialize(es[1..]) + EncodeEntry(e))
        == (first + Serialize(es[1..])) + EncodeEntry(e);
    }
  }

  /** The files' bytes, one after another in order. */
  function Payloads(pngs: seq<Png>): (b: seq<byte>)
    ensures SizesRecorded(pngs) ==> |b| == TotalSize(pngs)
  {
    if pngs == [] then []
    else
      assert SizesRecorded(pngs) ==> SizesRecorded(pngs[1..]);
      pngs[0].fileData + Payloads(pngs[1..])
  }

  /** Whether ico holds data verbatim from offset on. */
  predicate HoldsAt(ico: seq<byte>, offset: nat, data: seq<byte>)
  {
    offset + |data| <= |ico| && ico[offset..offset + |data|] == data
  }

  /** A sequence holds its own prefix at offset 0. */
  lemma {:induction false} HoldsAtFront(a: seq<byte>, b: seq<byte>)
    ensures HoldsAt(a + b, 0, a)
  {
    assert (a + b)[..|a|] == a;
  }

  /** What b holds, a + b holds |a| bytes further on. */
  lemma {:induction false} HoldsAtShift(a: seq<byte>, b: seq<byte>, offset: nat, data: seq<byte>)
    requires HoldsAt(b, offset, data)
    ensures HoldsAt(a + b, |a| + offset, data)
  {
    SliceRight(a, b, |a| + offset, |a| + offset + |data|);
  }

  /** The bytes of image i start where those of the images before it end. */
  lemma {:induction false} PayloadsAt(pngs: seq<Png>, i: nat)
    requires SizesRecorded(pngs)
    requires i < |pngs|
    ensures HoldsAt(Payloads(pngs), TotalSize(pngs[..i]), pngs[i].fileData)
    decreases |pngs|
  {
    var first := pngs[0].fileData;
    var rest := Payloads(pngs[1..]);
    if i == 0 {
      assert pngs[..0] == [];
      HoldsAtFront(first, rest);
    } else {
      assert SizesRecorded(pngs[1..]);
      PayloadsAt(pngs[1..], i - 1);
      assert pngs[1..][i - 1] == pngs[i];
      HoldsAtShift(first, rest, TotalSize(pngs[1..][..i - 1]), pngs[i].fileData);
      TotalSizeFront(pngs, i);
    }
  }

  /** Adding an image appends its bytes. */
  lemma {:induction false} PayloadsSnoc(pngs: seq<Png>, p: Png)
    ensures Payloads(pngs + [p]) == Payloads(pngs) + p.fileData
    decreases |pngs|
  {
    if pngs == [] {
      assert ([] + [p])[1..] == [];
    } else {
      assert (pngs + [p])[1..] == pngs[1..] + [p];
      PayloadsSnoc(pngs[1..], p);
      var first := pngs[0].fileData;
      assert first + (Payloads(pngs[1..]) + p.fileData) == (first + Payloads(pngs[1..])) + p.fileData;
    }
  }

  /** The container after the images pngs have been added to one that has count slots: header,
      their directory entries, the slots still zero, and their bytes. */
  function IconImage(pngs: seq<Png>, count: nat): (ico: seq<byte>)
    requires |pngs| <= count
  {
    Header(count) + Serialize(Entries(pngs, 6 + 16 * count)) + Zeros(16 * (count - |pngs|))
    + Payloads(pngs)
  }

  // What a reader of an ICO container decodes from it.

  /** The image count in the header. */
  function ImageCount(ico: seq<byte>): nat
    requires |ico| >= 6
  {
    FromLittleEndian(ico[4..6])
  }

  /** The 16 bytes of directory slot i. */
  function EntryAt(ico: seq<byte>, i: nat): seq<byte>
    requires 6 + 16 * (i + 1) <= |ico|
  {
    ico[6 + 16 * i..6 + 16 * i + 16]
  }

  /** The entry in directory slot i. */
  function DecodedEntry(ico: seq<byte>, i: nat): IconDirEntry
    requires 6 + 16 * (i + 1) <= |ico|
  {
    DecodeEntry(EntryAt(ico, i))
  }

  // Layout of the container.

  /** Slot i of a container whose header is hd is block i of the directory dir that follows. */
  lemma {:induction false} EntryInDirectory(ico: seq<byte>, hd: seq<byte>, dir: seq<byte>, z: seq<byte>,
                                            pl: seq<byte>, i: nat, e: seq<byte>)
    requires ico == hd + dir + z + pl
    requires |hd| == 6 && 16 * i + 16 <= |dir|
    requires dir[16 * i..16 * i + 16] == e
    ensures 6 + 16 * (i + 1) <= |ico|
    ensures EntryAt(ico, i) == e
  {
    var lo := 6 + 16 * i;
    SliceLeft(hd + dir + z, pl, lo, lo + 16);
    SliceLeft(hd + dir, z, lo, lo + 16);
    SliceRight(hd, dir, lo, lo + 16);
  }

  /** The header holds the reserved bytes, the icon type and the slot count; the file is as long
      as header, directory and payloads together. */
  lemma {:induction false} IconImageHeader(pngs: seq<Png>, count: nat)
    requires Fits(pngs, count)
    ensures |IconImage(pngs, count)| >= 6 + 16 * count
    ensures IconImage(pngs, count)[..4] == [0, 0, 1, 0]
    ensures ImageCount(IconImage(pngs, count)) == count
    ensures SizesRecorded(pngs) ==>
      |IconImage(pngs, count)| == 6 + 16 * count + TotalSize(pngs)
  {
    var hd := Header(count);
    var rest := Serialize(Entries(pngs, 6 + 16 * count)) + Zeros(16 * (count - |pngs|))
      + Payloads(pngs);
    assert IconImage(pngs, count) == hd + rest;
    SliceLeft(hd, rest, 0, 4);
    SliceLeft(hd, rest, 4, 6);
    assert hd[4..6] == hd[4..];
  }

  /** Slot i of an added image holds its entry, pointing just past the header, the whole directory
      and the images before it. */
  lemma {:induction false} IconImageEntry(pngs: seq<Png>, count: nat, i: nat)
    requires |pngs| <= count && i < |pngs|
    ensures 6 + 16 * (i + 1) <= |IconImage(pngs, count)|
    ensures EntryAt(IconImage(pngs, count), i)
      == EncodeEntry(ImageEntry(pngs[i], 6 + 16 * count + TotalSize(pngs[..i])))
  {
    var es := Entries(pngs, 6 + 16 * count);
    var e := ImageEntry(pngs[i], 6 + 16 * count + TotalSize(pngs[..i]));
    EntriesAt(pngs, 6 + 16 * count, i);
    assert es[i] == e;
    SerializeAt(es, i);
    EntryInDirectory(IconImage(pngs, count), Header(count), Serialize(es), Zeros(16 * (count - |pngs|)),
      Payloads(pngs), i, EncodeEntry(e));
  }

  /** What a reader decodes from slot i of an added image: width and height modulo 256, zero
      palette size, reserved byte, planes and bits per pixel, the image's size, and the offset
      just past the header, the whole directory and the images before it. */
  lemma {:induction false} IconImageDecoded(pngs: seq<Png>, count: nat, i: nat)
    requires Fits(pngs, count) && i < |pngs|
    ensures 6 + 16 * (i + 1) <= |IconImage(pngs, count)|
    ensures DecodedEntry(IconImage(pngs, count), i)
      == IconDirEntry(pngs[i].width % 256, pngs[i].height % 256, 0, 0, 0, 0, pngs[i].fileSize,
                      6 + 16 * count + TotalSize(pngs[..i]))
  {
    IconImageEntry(pngs, count, i);
    TotalSizeBefore(pngs, i);
    EntryRoundTrip(ImageEntry(pngs[i], 6 + 16 * count + TotalSize(pngs[..i])));
  }

  /** Image i's bytes sit right after the directory and the images before it, verbatim. */
  lemma {:induction false} IconImagePayloadAt(pngs: seq<Png>, count: nat, i: nat)
    requires |pngs| <= count && SizesRecorded(pngs) && i < |pngs|
    ensures HoldsAt(IconImage(pngs, count), 6 + 16 * count + TotalSize(pngs[..i]), pngs[i].fileData)
  {
    PayloadsAt(pngs, i);
    var prefix := Header(count) + Serialize(Entries(pngs, 6 + 16 * count))
      + Zeros(16 * (count - |pngs|));
    assert |prefix| == 6 + 16 * count;
    assert IconImage(pngs, count) == prefix + Payloads(pngs);
    HoldsAtShift(prefix, Payloads(pngs), TotalSize(pngs[..i]), pngs[i].fileData);
  }

  /** The bytes a reader finds at the offset and length declared in slot i are file i, verbatim. */
  lemma {:induction false} IconImagePayload(pngs: seq<Png>, count: nat, i: nat)
    requires Fits(pngs, count) && SizesRecorded(pngs) && i < |pngs|
    ensures 6 + 16 * (i + 1) <= |IconImage(pngs, count)|
    ensures DecodedEntry(IconImage(pngs, count), i).imageOffset
      + DecodedEntry(IconImage(pngs, count), i).bytesInRes <= |IconImage(pngs, count)|
    ensures IconImage(pngs, count)[DecodedEntry(IconImage(pngs, count), i).imageOffset..
      DecodedEntry(IconImage(pngs, count), i).imageOffset
      + DecodedEntry(IconImage(pngs, count), i).bytesInRes]
      == pngs[i].fileData
  {
    IconImageDecoded(pngs, count, i);
    IconImagePayloadAt(pngs, count, i);
  }

  /** The first image's bytes start right after the directory. */
  lemma {:induction false} IconImageFirstOffset(pngs: seq<Png>, count: nat)
    requires Fits(pngs, count) && 0 < |pngs|
    ensures 6 + 16 <= |IconImage(pngs, count)|
    ensures DecodedEntry(IconImage(pngs, count), 0).imageOffset == 6 + 16 * count
  {
    IconImageDecoded(pngs, count, 0);
    assert pngs[..0] == [];
  }

  /** Payloads are contiguous and in input order: each next one starts where the previous one
      ends. */
  lemma {:induction false} IconImageContiguous(pngs: seq<Png>, count: nat, i: nat)
    requires Fits(pngs, count) && i + 1 < |pngs|
    ensures 6 + 16 * (i + 2) <= |IconImage(pngs, count)|
    ensures DecodedEntry(IconImage(pngs, count), i + 1).imageOffset
      == DecodedEntry(IconImage(pngs, count), i).imageOffset
         + DecodedEntry(IconImage(pngs, count), i).bytesInRes
  {
    IconImageDecoded(pngs, count, i);
    IconImageDecoded(pngs, count, i + 1);
    TotalSizeNext(pngs, i);
    var start := 6 + 16 * count;
    assert DecodedEntry(IconImage(pngs, count), i + 1).imageOffset == start + TotalSize(pngs[..i + 1]);
    assert DecodedEntry(IconImage(pngs, count), i).imageOffset == start + TotalSize(pngs[..i]);
    assert DecodedEntry(IconImage(pngs, count), i).bytesInRes == pngs[i].fileSize;
  }

  /** Slots past the added images are still all zero. */
  lemma {:induction false} IconImageEmptySlot(pngs: seq<Png>, count: nat, i: nat)
    requires |pngs| <= i < count
    ensures 6 + 16 * (i + 1) <= |IconImage(pngs, count)|
    ensures EntryAt(IconImage(pngs, count), i) == Zeros(16)
  {
    var front := Header(count) + Serialize(Entries(pngs, 6 + 16 * count));
    var z := Zeros(16 * (count - |pngs|));
    var lo := 6 + 16 * i;
    SliceLeft(front + z, Payloads(pngs), lo, lo + 16);
    SliceRight(front, z, lo, lo + 16);
  }

  lemma {:induction false} Assoc<T>(a: seq<T>, b: seq<T>, c: seq<T>)
    ensures (a + b) + c == a + (b + c)
  {
  }

  /** Dropping k of n zero bytes leaves n - k of them. */
  lemma {:induction false} ZerosDrop(n: nat, k: nat)
    requires k <= n
    ensures Zeros(n)[k..] == Zeros(n - k)
  {
  }

  lemma {:induction false} PrefixOfFront(front: seq<byte>, z: seq<byte>, pl: seq<byte>)
    ensures (front + z + pl)[..|front|] == front
  {
    SliceLeft(front + z, pl, 0, |front|);
    SliceLeft(front, z, 0, |front|);
  }

  lemma {:induction false} SuffixAfterSlot(front: seq<byte>, z: seq<byte>, pl: seq<byte>, k: nat)
    requires k <= |z|
    ensures (front + z + pl)[|front| + k..] == z[k..] + pl
  {
  }

  /** Writing entry e over the start of the zero slots z that follow header hd and directory dir,
      then appending data, extends the directory by e, uses up |e| zero bytes and extends the
      payloads by data. */
  lemma {:induction false} FillSlot(x: seq<byte>, at: nat, hd: seq<byte>, dir: seq<byte>, z: seq<byte>,
                                    pl: seq<byte>, e: seq<byte>, data: seq<byte>, dir': seq<byte>,
                                    z': seq<byte>, pl': seq<byte>)
    requires x == hd + dir + z + pl && at == |hd| + |dir|
    requires |e| <= |z|
    requires dir' == dir + e
    requires z' == z[|e|..]
    requires pl' == pl + data
    ensures Overwrite(x, at, e) + data == hd + dir' + z' + pl'
  {
    var front := hd + dir;
    OverwriteInside(x, at, e);
    PrefixOfFront(front, z, pl);
    SuffixAfterSlot(front, z, pl, |e|);
    calc {
      Overwrite(x, at, e) + data;
      front + e + (z' + pl) + data;
      { Assoc(front + e, z' + pl, data); }
      front + e + ((z' + pl) + data);
      { Assoc(z', pl, data); }
      front + e + (z' + pl');
      { Assoc(front + e, z', pl'); }
      front + e + z' + pl';
      { Assoc(hd, dir, e); }
      hd + dir' + z' + pl';
    }
  }

  /** Writing entry e over the first of the zero slots that follow directory es and appending
      data gives the container whose directory has e added, with one zero slot fewer. */
  lemma {:induction false} AddEntry(before: seq<byte>, at: nat, hd: seq<byte>, es: seq<IconDirEntry>, n: nat,
                                    pl: seq<byte>, e: IconDirEntry, data: seq<byte>)
    requires 16 <= n && before == hd + Serialize(es) + Zeros(n) + pl && at == |hd| + 16 * |es|
    ensures Overwrite(before, at, EncodeEntry(e)) + data
      == hd + Serialize(es + [e]) + Zeros(n - 16) + (pl + data)
  {
    SerializeSnoc(es, e);
    ZerosDrop(n, 16);
    FillSlot(before, at, hd, Serialize(es), Zeros(n), pl, EncodeEntry(e), data, Serialize(es + [e]),
      Zeros(n - 16), pl + data);
  }

  /** The container with image p added, spelt out in terms of the one without it. */
  lemma {:induction false} IconImageSnoc(pngs: seq<Png>, count: nat, p: Png)
    requires |pngs| < count
    ensures IconImage(pngs + [p], count)
      == Header(count) + Serialize(Entries(pngs, 6 + 16 * count)
           + [ImageEntry(p, 6 + 16 * count + TotalSize(pngs))])
         + Zeros(16 * (count - |pngs|) - 16) + (Payloads(pngs) + p.fileData)
  {
    EntriesSnoc(pngs, p, 6 + 16 * count);
    PayloadsSnoc(pngs, p);
    assert 16 * (count - |pngs + [p]|) == 16 * (count - |pngs|) - 16;
  }
}
