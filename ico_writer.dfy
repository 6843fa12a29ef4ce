/** The program's main block: it writes the ICO header and an all-zero directory, then, for each
    input file in argument order, fills in the file's directory slot and appends its bytes. A
    file that is not a PNG, or whose width or height exceeds 256, stops the run with an error;
    what was written until then stays in the output file. */
module IcoWriter {
  import opened Bytes
  import opened Wrappers
  import opened PngHeader
  import opened OutputFiles
  import opened IcoFormat

  /** The largest width and height an ICO directory entry can describe. */
  const MaxDimension := 256

  /** Why a run stopped: file index was not a PNG, or is too big for an icon. */
  datatype WriteError = InvalidPng(index: nat, cause: PngError) | TooBig(index: nat)

  /** What `Png(png_filename)` gives for each input file, in argument order. */
  function ParseAll(files: seq<seq<byte>>): (results: seq<Result<Png, PngError>>)
    ensures |results| == |files|
  {
    if files == [] then [] else [Parse(files[0])] + ParseAll(files[1..])
  }

  /** Result j is what file j parses to. */
  lemma {:induction false} ParseAllAt(files: seq<seq<byte>>, j: nat)
    requires j < |files|
    ensures ParseAll(files)[j] == Parse(files[j])
    decreases |files|
  {
    if j > 0 {
      ParseAllAt(files[1..], j - 1);
    }
  }

  /** Whether the program adds a file that parsed to result rather than stopping at it. */
  predicate Accepted(result: Result<Png, PngError>)
  {
    result.Ok? && result.value.width <= MaxDimension && result.value.height <= MaxDimension
  }

  /** The index of the first result the program stops at, or the number of results if there is
      none. */
  function FirstRejected(results: seq<Result<Png, PngError>>): (k: nat)
    ensures k <= |results|
  {
    if results == [] || !Accepted(results[0]) then 0 else 1 + FirstRejected(results[1..])
  }

  /** Every result before the first rejected one is accepted. */
  lemma {:induction false} FirstRejectedIsFirst(results: seq<Result<Png, PngError>>)
    ensures forall j | 0 <= j < FirstRejected(results) :: Accepted(results[j])
    decreases |results|
  {
    if results != [] && Accepted(results[0]) {
      FirstRejectedIsFirst(results[1..]);
      forall j | 1 <= j < FirstRejected(results) ensures Accepted(results[j]) {
        assert results[j] == results[1..][j - 1];
      }
    }
  }

  /** The first rejected result is not accepted. */
  lemma {:induction false} FirstRejectedIsRejected(results: seq<Result<Png, PngError>>)
    requires FirstRejected(results) < |results|
    ensures !Accepted(results[FirstRejected(results)])
    decreases |results|
  {
    if Accepted(results[0]) {
      FirstRejectedIsRejected(results[1..]);
    }
  }

  /** The error the program stops with at a rejected result. */
  function Rejection(result: Result<Png, PngError>, index: nat): (err: WriteError)
    requires !Accepted(result)
    ensures err.index == index
    ensures err.InvalidPng? <==> result.Err?
    ensures err.InvalidPng? ==> err.cause == result.error
    ensures err.TooBig? ==> result.value.width > MaxDimension || result.value.height > MaxDimension
  {
    if result.Err? then InvalidPng(index, result.error) else TooBig(index)
  }

  /** The records of the results before the first rejected one, in order. */
  function AcceptedImages(results: seq<Result<Png, PngError>>): (pngs: seq<Png>)
    ensures |pngs| == FirstRejected(results)
  {
    if results == [] || !Accepted(results[0]) then []
    else [results[0].value] + AcceptedImages(results[1..])
  }

  /** The total length of the files. */
  function TotalLength(files: seq<seq<byte>>): nat
  {
    if files == [] then 0 else |files[0]| + TotalLength(files[1..])
  }

  /** What the program reports: success, or the error at the first rejected file. */
  function ExpectedOutcome(files: seq<seq<byte>>): Outcome<WriteError>
  {
    var results := ParseAll(files);
    var k := FirstRejected(results);
    if k == |files| then Pass
    else
      FirstRejectedIsRejected(results);
      Fail(Rejection(results[k], k))
  }

  /** What the output file holds when the program ends: a container with one slot per input file,
      in which the files before the first rejected one have been added. */
  function ExpectedIcon(files: seq<seq<byte>>): seq<byte>
  {
    IconImage(AcceptedImages(ParseAll(files)), |files|)
  }

  /** Record j of the accepted images is what result j holds. */
  lemma {:induction false} AcceptedImagesAt(results: seq<Result<Png, PngError>>, j: nat)
    requires j < FirstRejected(results)
    ensures Accepted(results[j])
    ensures AcceptedImages(results)[j] == results[j].value
    decreases |results|
  {
    if j > 0 {
      AcceptedImagesAt(results[1..], j - 1);
    }
  }

  /** Results that record their files' lengths, as parsing gives them. */
  predicate SizesOf(results: seq<Result<Png, PngError>>, files: seq<seq<byte>>)
  {
    |results| == |files|
    && forall j | 0 <= j < |results| :: results[j].Ok? ==>
         results[j].value.fileSize == |results[j].value.fileData| == |files[j]|
  }

  /** Dropping the first result and file keeps the sizes recorded. */
  lemma {:induction false} SizesOfTail(results: seq<Result<Png, PngError>>, files: seq<seq<byte>>)
    requires SizesOf(results, files) && results != []
    ensures SizesOf(results[1..], files[1..])
  {
    forall j | 0 <= j < |results| - 1 && results[1..][j].Ok?
      ensures results[1..][j].value.fileSize == |results[1..][j].value.fileData| == |files[1..][j]|
    {
      assert results[1..][j] == results[j + 1] && files[1..][j] == files[j + 1];
    }
  }

  /** The first j accepted images take as many bytes as their files. */
  lemma {:induction false} AcceptedPrefixSize(results: seq<Result<Png, PngError>>,
                                              files: seq<seq<byte>>, j: nat)
    requires SizesOf(results, files) && j <= FirstRejected(results)
    ensures TotalSize(AcceptedImages(results)[..j]) == TotalLength(files[..j])
    decreases j
  {
    if j > 0 {
      SizesOfTail(results, files);
      AcceptedPrefixSize(results[1..], files[1..], j - 1);
      var pngs := AcceptedImages(results);
      assert pngs[..j][1..] == AcceptedImages(results[1..])[..j - 1];
      assert files[..j][1..] == files[1..][..j - 1];
    } else {
      assert files[..0] == [];
    }
  }

  /** The accepted images record their sizes. */
  lemma {:induction false} AcceptedImagesSizes(results: seq<Result<Png, PngError>>,
                                               files: seq<seq<byte>>)
    requires SizesOf(results, files)
    ensures SizesRecorded(AcceptedImages(results))
  {
    var pngs := AcceptedImages(results);
    forall j | 0 <= j < |pngs| ensures pngs[j].fileSize == |pngs[j].fileData| {
      AcceptedImagesAt(results, j);
    }
  }

  /** Parsing records every file's length. */
  lemma {:induction false} ParseAllSizes(files: seq<seq<byte>>)
    ensures SizesOf(ParseAll(files), files)
  {
    var results := ParseAll(files);
    forall j | 0 <= j < |results| && results[j].Ok?
      ensures results[j].value.fileSize == |results[j].value.fileData| == |files[j]|
    {
      ParseAllAt(files, j);
    }
  }

  /** The first files are no longer than all of them. */
  lemma {:induction false} TotalLengthPrefix(files: seq<seq<byte>>, i: nat)
    requires i <= |files|
    ensures TotalLength(files[..i]) <= TotalLength(files)
    decreases |files|
  {
    if i > 0 {
      TotalLengthPrefix(files[1..], i - 1);
      assert files[..i][1..] == files[1..][..i - 1];
    }
  }

  /** The program's run succeeds exactly when every file is a PNG of at most 256 by 256 pixels. */
  lemma {:induction false} SucceedsIffAllAccepted(files: seq<seq<byte>>)
    ensures ExpectedOutcome(files) == Pass <==> forall j | 0 <= j < |files| :: Accepted(Parse(files[j]))
  {
    var results := ParseAll(files);
    FirstRejectedIsFirst(results);
    if FirstRejected(results) < |files| {
      FirstRejectedIsRejected(results);
      ParseAllAt(files, FirstRejected(results));
    }
    forall j | 0 <= j < |files| ensures results[j] == Parse(files[j]) {
      ParseAllAt(files, j);
    }
  }

  /** A failed run names the first file that is not accepted, and why. */
  lemma {:induction false} FailsAtFirstRejected(files: seq<seq<byte>>)
    requires ExpectedOutcome(files).Fail?
    ensures var k := ExpectedOutcome(files).error.index;
      k < |files| && !Accepted(Parse(files[k]))
      && (forall j | 0 <= j < k :: Accepted(Parse(files[j])))
      && (ExpectedOutcome(files).error.InvalidPng? <==> Parse(files[k]).Err?)
  {
    var results := ParseAll(files);
    FirstRejectedIsFirst(results);
    var k := FirstRejected(results);
    FirstRejectedIsRejected(results);
    ParseAllAt(files, k);
    forall j | 0 <= j < k ensures Accepted(Parse(files[j])) {
      ParseAllAt(files, j);
    }
  }

  /** One more write right after the bytes done written from position at over before: the two
      writes together are one write of both. */
  method WriteNext(iconFile: OutputFile, field: seq<byte>, ghost before: seq<byte>, ghost at: nat,
                   ghost done: seq<byte>)
    requires iconFile.Valid()
    requires iconFile.pos == at + |done|
    requires iconFile.Contents() == Overwrite(before, at, done)
    modifies iconFile, iconFile.buf
    ensures iconFile.Valid()
    ensures iconFile.buf == old(iconFile.buf) || fresh(iconFile.buf)
    ensures iconFile.pos == at + |done + field|
    ensures iconFile.Contents() == Overwrite(before, at, done + field)
  {
    iconFile.Write(field);
    OverwriteTwice(before, at, done, field);
  }

  /** Writes a directory entry as the program does, one field at a time: width and height modulo
      256 in one byte each, palette size 0 in one byte, a reserved zero byte, colour planes and
      bits per pixel 0 in two bytes each, then the file size and the offset of its bytes in four
      bytes each, all little-endian. */
  method WriteDirectoryEntry(iconFile: OutputFile, png: Png, offset: nat)
    requires iconFile.Valid()
    modifies iconFile, iconFile.buf
    ensures iconFile.Valid()
    ensures iconFile.buf == old(iconFile.buf) || fresh(iconFile.buf)
    ensures iconFile.pos == old(iconFile.pos) + 16
    ensures iconFile.Contents()
      == Overwrite(old(iconFile.Contents()), old(iconFile.pos), EncodeEntry(ImageEntry(png, offset)))
  {
    ghost var before, at := iconFile.Contents(), iconFile.pos;
    var field := ToLittleEndian(png.width % 256, 1);
    iconFile.Write(field);
    ghost var done := field;
    field := ToLittleEndian(png.height % 256, 1);
    WriteNext(iconFile, field, before, at, done);
    done := done + field;
    var colorsInPalette := 0;
    field := ToLittleEndian(colorsInPalette, 1);
    WriteNext(iconFile, field, before, at, done);
    done := done + field;
    field := [0];
    WriteNext(iconFile, field, before, at, done);
    done := done + field;
    var colorPlanes := 0;
    field := ToLittleEndian(colorPlanes, 2);
    WriteNext(iconFile, field, before, at, done);
    done := done + field;
    var bitsPerPixel := 0;
    field := ToLittleEndian(bitsPerPixel, 2);
    WriteNext(iconFile, field, before, at, done);
    done := done + field;
    field := ToLittleEndian(png.fileSize, 4);
    WriteNext(iconFile, field, before, at, done);
    done := done + field;
    field := ToLittleEndian(offset, 4);
    WriteNext(iconFile, field, before, at, done);
    done := done + field;
    assert ToLittleEndian(0, 1) == [0];
  }

  /** Writes the header and the all-zero directory of count slots to an empty file. */
  method WriteHeader(iconFile: OutputFile, imageCount: nat)
    requires iconFile.Valid() && iconFile.Contents() == [] && iconFile.pos == 0
    modifies iconFile, iconFile.buf
    ensures iconFile.Valid()
    ensures iconFile.buf == old(iconFile.buf) || fresh(iconFile.buf)
    ensures iconFile.Contents() == Header(imageCount) + Zeros(16 * imageCount)
    ensures iconFile.pos == |iconFile.Contents()|
  {
    iconFile.Write([0, 0]);
    OverwriteAtEnd([], [0, 0]);
    assert iconFile.Contents() == [0, 0];
    iconFile.Write([IconType, 0]);
    OverwriteAtEnd([0, 0], [IconType, 0]);
    ghost var typed := [0, 0] + [IconType, 0];
    assert iconFile.Contents() == typed && iconFile.pos == 4;
    iconFile.Write(ToLittleEndian(imageCount, 2));
    OverwriteAtEnd(typed, ToLittleEndian(imageCount, 2));
    assert iconFile.Contents() == Header(imageCount) && iconFile.pos == 6;
    var imageDirectorySize := 16 * imageCount;
    iconFile.Write(Zeros(imageDirectorySize));
    OverwriteAtEnd(Header(imageCount), Zeros(imageDirectorySize));
  }

  /** One step of the loop for an accepted image: writes its entry into the first free slot,
      which starts at imageDirectoryOffset, and appends its bytes at pngDataOffset, the end of the
      file. The file is a container in the making: header hd, entries es, n free slot bytes and
      payloads pl. */
  method AddPng(iconFile: OutputFile, png: Png, imageDirectoryOffset: nat, pngDataOffset: nat,
                ghost hd: seq<byte>, ghost es: seq<IconDirEntry>, ghost n: nat, ghost pl: seq<byte>)
    requires iconFile.Valid() && iconFile.pos == imageDirectoryOffset
    requires iconFile.Contents() == hd + Serialize(es) + Zeros(n) + pl
    requires imageDirectoryOffset == |hd| + 16 * |es| && 16 <= n
    requires pngDataOffset == |iconFile.Contents()|
    modifies iconFile, iconFile.buf
    ensures iconFile.Valid()
    ensures iconFile.buf == old(iconFile.buf) || fresh(iconFile.buf)
    ensures iconFile.Contents()
      == hd + Serialize(es + [ImageEntry(png, pngDataOffset)]) + Zeros(n - 16) + (pl + png.fileData)
    ensures |iconFile.Contents()| == pngDataOffset + |png.fileData| == iconFile.pos
  {
    ghost var before := iconFile.Contents();
    WriteDirectoryEntry(iconFile, png, pngDataOffset);
    ghost var entry := EncodeEntry(ImageEntry(png, pngDataOffset));
    iconFile.Seek(pngDataOffset);
    ghost var withEntry := Overwrite(before, imageDirectoryOffset, entry);
    assert |withEntry| == pngDataOffset;
    iconFile.Write(png.fileData);
    OverwriteAtEnd(withEntry, png.fileData);
    assert iconFile.Contents() == withEntry + png.fileData;
    AddEntry(before, imageDirectoryOffset, hd, es, n, pl, ImageEntry(png, pngDataOffset), png.fileData);
  }

  /** The loop body for an accepted image: the file holds the container for written with
      count slots, and afterwards holds it for written and png. */
  method AddImage(iconFile: OutputFile, png: Png, imageDirectoryOffset: nat, pngDataOffset: nat,
                  imageCount: nat, ghost written: seq<Png>)
    requires iconFile.Valid() && |written| < imageCount && png.fileSize == |png.fileData|
    requires iconFile.pos == imageDirectoryOffset
    requires iconFile.Contents() == IconImage(written, imageCount)
    requires imageDirectoryOffset == 6 + 16 * |written|
    requires pngDataOffset == 6 + 16 * imageCount + TotalSize(written) == |iconFile.Contents()|
    modifies iconFile, iconFile.buf
    ensures iconFile.Valid()
    ensures iconFile.buf == old(iconFile.buf) || fresh(iconFile.buf)
    ensures iconFile.Contents() == IconImage(written + [png], imageCount)
    ensures |iconFile.Contents()| == pngDataOffset + png.fileSize == 6 + 16 * imageCount + TotalSize(written + [png])
    ensures iconFile.pos == |iconFile.Contents()|
  {
    ghost var es := Entries(written, 6 + 16 * imageCount);
    ghost var n := 16 * (imageCount - |written|);
    assert iconFile.Contents() == Header(imageCount) + Serialize(es) + Zeros(n) + Payloads(written);
    AddPng(iconFile, png, imageDirectoryOffset, pngDataOffset, Header(imageCount), es, n, Payloads(written));
    IconImageSnoc(written, imageCount, png);
    assert iconFile.Contents() == IconImage(written + [png], imageCount);
    TotalSizeSnoc(written, png);
  }

  /** Under the bounds the program's 16- and 32-bit fields impose, the accepted images fit the
      container and record their sizes. */
  lemma {:induction false} AcceptedImagesFit(files: seq<seq<byte>>)
    requires |files| < 0x1_0000
    requires 6 + 16 * |files| + TotalLength(files) < 0x1_0000_0000
    ensures Fits(AcceptedImages(ParseAll(files)), |files|)
    ensures SizesRecorded(AcceptedImages(ParseAll(files)))
    ensures TotalSize(AcceptedImages(ParseAll(files)))
      == TotalLength(files[..FirstRejected(ParseAll(files))])
  {
    var results := ParseAll(files);
    var pngs := AcceptedImages(results);
    ParseAllSizes(files);
    AcceptedImagesSizes(results, files);
    AcceptedPrefixSize(results, files, |pngs|);
    assert pngs[..|pngs|] == pngs;
    TotalLengthPrefix(files, |pngs|);
  }

  /** The output starts with the icon header counting every input file, one slot each, and ends
      right after the bytes of the files before the first rejected one. */
  lemma {:induction false} OutputLayout(files: seq<seq<byte>>)
    requires |files| < 0x1_0000
    requires 6 + 16 * |files| + TotalLength(files) < 0x1_0000_0000
    ensures |ExpectedIcon(files)| >= 6 + 16 * |files|
    ensures ExpectedIcon(files)[..4] == [0, 0, 1, 0]
    ensures ImageCount(ExpectedIcon(files)) == |files|
    ensures |ExpectedIcon(files)|
      == 6 + 16 * |files| + TotalLength(files[..FirstRejected(ParseAll(files))])
  {
    AcceptedImagesFit(files);
    IconImageHeader(AcceptedImages(ParseAll(files)), |files|);
  }

  /** Where the bytes of file j go: right after the directory and the files before it. */
  function ImageOffset(files: seq<seq<byte>>, j: nat): nat
    requires j <= |files|
  {
    6 + 16 * |files| + TotalLength(files[..j])
  }

  /** Record j of the output is what file j parses to, with the file's bytes and length. */
  lemma {:induction false} AcceptedImageOf(files: seq<seq<byte>>, j: nat)
    requires j < FirstRejected(ParseAll(files))
    ensures Parse(files[j]) == Ok(AcceptedImages(ParseAll(files))[j])
    ensures AcceptedImages(ParseAll(files))[j].fileData == files[j]
    ensures AcceptedImages(ParseAll(files))[j].fileSize == |files[j]|
  {
    AcceptedImagesAt(ParseAll(files), j);
    ParseAllAt(files, j);
  }

  /** Record j of the output holds file j's bytes and length. */
  lemma {:induction false} AcceptedImageData(files: seq<seq<byte>>, j: nat)
    requires j < FirstRejected(ParseAll(files))
    ensures AcceptedImages(ParseAll(files))[j].fileData == files[j]
    ensures AcceptedImages(ParseAll(files))[j].fileSize == |files[j]|
  {
    AcceptedImageOf(files, j);
  }

  /** The records before record j take as many bytes as the files before file j. */
  lemma {:induction false} AcceptedOffset(files: seq<seq<byte>>, j: nat)
    requires j <= FirstRejected(ParseAll(files))
    ensures SizesRecorded(AcceptedImages(ParseAll(files)))
    ensures TotalSize(AcceptedImages(ParseAll(files))[..j]) == TotalLength(files[..j])
  {
    ParseAllSizes(files);
    AcceptedImagesSizes(ParseAll(files), files);
    AcceptedPrefixSize(ParseAll(files), files, j);
  }

  /** Slot j of an accepted file records its dimensions modulo 256, zeros, its length and its
      offset. */
  lemma {:induction false} OutputEntry(files: seq<seq<byte>>, j: nat)
    requires |files| < 0x1_0000
    requires 6 + 16 * |files| + TotalLength(files) < 0x1_0000_0000
    requires j < FirstRejected(ParseAll(files))
    ensures 6 + 16 * (j + 1) <= |ExpectedIcon(files)|
    ensures Parse(files[j]).Ok?
      && DecodedEntry(ExpectedIcon(files), j)
      == IconDirEntry(Parse(files[j]).value.width % 256, Parse(files[j]).value.height % 256,
                      0, 0, 0, 0, |files[j]|, ImageOffset(files, j))
  {
    AcceptedImagesFit(files);
    AcceptedImageOf(files, j);
    AcceptedOffset(files, j);
    IconImageDecoded(AcceptedImages(ParseAll(files)), |files|, j);
  }

  /** The output holds an accepted file's bytes unchanged at its offset. */
  lemma {:induction false} OutputPayload(files: seq<seq<byte>>, j: nat)
    requires j < FirstRejected(ParseAll(files))
    ensures HoldsAt(ExpectedIcon(files), ImageOffset(files, j), files[j])
  {
    var pngs := AcceptedImages(ParseAll(files));
    AcceptedImageData(files, j);
    AcceptedOffset(files, j);
    assert ImageOffset(files, j) == 6 + 16 * |files| + TotalSize(pngs[..j]);
    IconImagePayloadAt(pngs, |files|, j);
  }

  /** The first image's bytes follow the directory, and each further image's bytes follow the
      previous one's. */
  lemma {:induction false} OutputContiguous(files: seq<seq<byte>>, j: nat)
    requires |files| < 0x1_0000
    requires 6 + 16 * |files| + TotalLength(files) < 0x1_0000_0000
    requires j + 1 < FirstRejected(ParseAll(files))
    ensures 6 + 16 * (j + 2) <= |ExpectedIcon(files)|
    ensures DecodedEntry(ExpectedIcon(files), 0).imageOffset == 6 + 16 * |files|
    ensures DecodedEntry(ExpectedIcon(files), j + 1).imageOffset
      == DecodedEntry(ExpectedIcon(files), j).imageOffset
         + DecodedEntry(ExpectedIcon(files), j).bytesInRes
  {
    var pngs := AcceptedImages(ParseAll(files));
    AcceptedImagesFit(files);
    IconImageFirstOffset(pngs, |files|);
    IconImageContiguous(pngs, |files|, j);
  }

  /** The slots from the first rejected file on stay all zero. */
  lemma {:induction false} OutputFreeSlot(files: seq<seq<byte>>, j: nat)
    requires FirstRejected(ParseAll(files)) <= j < |files|
    ensures 6 + 16 * (j + 1) <= |ExpectedIcon(files)|
    ensures EntryAt(ExpectedIcon(files), j) == Zeros(16)
  {
    IconImageEmptySlot(AcceptedImages(ParseAll(files)), |files|, j);
  }

  /** Looking at the results from i on, result i is either accepted, and the rest follows it, or
      it is the first rejected one. */
  lemma {:induction false} RunAt(results: seq<Result<Png, PngError>>, i: nat)
    requires i < |results|
    ensures AcceptedImages(results[i..])
      == if Accepted(results[i]) then [results[i].value] + AcceptedImages(results[i + 1..]) else []
  {
    assert results[i..][0] == results[i];
    assert results[i..][1..] == results[i + 1..];
  }

  /** The run has looked at the first i results and kept the records written: one step further,
      it either keeps the record of result i or stops there at the first rejected one. */
  lemma {:induction false} Advance(results: seq<Result<Png, PngError>>, i: nat, written: seq<Png>)
    requires i < |results| && |written| == i
    requires written + AcceptedImages(results[i..]) == AcceptedImages(results)
    ensures Accepted(results[i]) ==>
      (written + [results[i].value]) + AcceptedImages(results[i + 1..]) == AcceptedImages(results)
    ensures !Accepted(results[i]) ==> FirstRejected(results) == i && written == AcceptedImages(results)
  {
    RunAt(results, i);
    if Accepted(results[i]) {
      Assoc(written, [results[i].value], AcceptedImages(results[i + 1..]));
    } else {
      assert written + [] == written;
    }
  }

  /** One pass of the loop for file index, whose contents are file: seeks to its slot, parses it,
      stops with an error if it is not a PNG or too big, and otherwise adds it. It returns the
      step's outcome and the file's size. */
  method AddFile(iconFile: OutputFile, file: seq<byte>, index: nat, imageDirectoryOffset: nat,
                 pngDataOffset: nat, imageCount: nat, ghost written: seq<Png>)
    returns (step: Outcome<WriteError>, fileSize: nat)
    requires iconFile.Valid() && |written| == index < imageCount
    requires iconFile.Contents() == IconImage(written, imageCount)
    requires imageDirectoryOffset == 6 + 16 * |written|
    requires pngDataOffset == 6 + 16 * imageCount + TotalSize(written) == |iconFile.Contents()|
    modifies iconFile, iconFile.buf
    ensures iconFile.Valid()
    ensures iconFile.buf == old(iconFile.buf) || fresh(iconFile.buf)
    ensures step == if Accepted(Parse(file)) then Pass else Fail(Rejection(Parse(file), index))
    ensures !Accepted(Parse(file)) ==>
      iconFile.Contents() == old(iconFile.Contents()) && iconFile.pos == imageDirectoryOffset
    ensures Accepted(Parse(file)) ==> iconFile.pos == |iconFile.Contents()|
    ensures Accepted(Parse(file)) ==>
      fileSize == Parse(file).value.fileSize
      && iconFile.Contents() == IconImage(written + [Parse(file).value], imageCount)
      && |iconFile.Contents()| == pngDataOffset + fileSize
         == 6 + 16 * imageCount + TotalSize(written + [Parse(file).value])
  {
    iconFile.Seek(imageDirectoryOffset);
    var png := Parse(file);
    if png.Err? {
      return Fail(InvalidPng(index, png.error)), 0;
    }
    if png.value.width > MaxDimension || png.value.height > MaxDimension {
      return Fail(TooBig(index)), 0;
    }
    AddImage(iconFile, png.value, imageDirectoryOffset, pngDataOffset, imageCount, written);
    return Pass, png.value.fileSize;
  }

  /** The program's main block on input files whose contents are files, in argument order. It
      returns the output file and whether the run succeeded or stopped with an error. */
  method MakeIcon(files: seq<seq<byte>>) returns (iconFile: OutputFile, outcome: Outcome<WriteError>)
    requires |files| < 0x1_0000
    requires 6 + 16 * |files| + TotalLength(files) < 0x1_0000_0000
    ensures fresh(iconFile) && iconFile.Valid()
    ensures outcome == ExpectedOutcome(files)
    ensures iconFile.Contents() == ExpectedIcon(files)
  {
    iconFile := new OutputFile();
    var imageCount := |files|;
    WriteHeader(iconFile, imageCount);
    var imageDirectoryOffset := 6;
    var pngDataOffset := imageDirectoryOffset + 16 * imageCount;
    ghost var start := pngDataOffset;
    ghost var results := ParseAll(files);
    ghost var written: seq<Png> := [];
    assert results[0..] == results;
    var i := 0;
    while i < |files|
      invariant i <= |files| && |written| == i
      invariant written + AcceptedImages(results[i..]) == AcceptedImages(results)
      invariant imageDirectoryOffset == 6 + 16 * i
      invariant pngDataOffset == start + TotalSize(written)
      invariant fresh(iconFile) && fresh(iconFile.buf) && iconFile.Valid()
      invariant |iconFile.Contents()| == pngDataOffset
      invariant iconFile.Contents() == IconImage(written, imageCount)
    {
      var step, fileSize := AddFile(iconFile, files[i], i, imageDirectoryOffset, pngDataOffset,
        imageCount, written);
      ParseAllAt(files, i);
      Advance(results, i, written);
      if step.Fail? {
        outcome := step;
        return;
      }
      written := written + [results[i].value];
      pngDataOffset := pngDataOffset + fileSize;
      imageDirectoryOffset := imageDirectoryOffset + 16;
      i := i + 1;
    }
    outcome := Pass;
    assert results[i..] == [];
    assert written + [] == written;
  }
}
