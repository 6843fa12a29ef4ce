# make_icon_from_pngs, modelled in Dafny

`make_icon_from_pngs.py` builds a Windows `.ico` file out of one or more PNG files. For each input,
class `Png` checks the PNG signature and reads the IHDR fields (width, height, bit depth, colour
type). It keeps the whole file. The main block then writes an ICO container to the output file:

- the ICONDIR header: two reserved zero bytes, type 1 and the image count;
- a directory of one zero-filled 16-byte ICONDIRENTRY slot per input;
- then, for each input in argument order, the slot filled in with the image's fields, and the
  PNG's bytes appended at the end of the file.

A file that is not a PNG, or whose width or height exceeds 256, stops the run. What was written
until then stays in the output file.

The model is split into modules:

- `Wrappers` (`wrappers.dfy`): `Result` and `Outcome`.
- `Bytes` (`bytes.dfy`): bytes, big- and little-endian integers, zero runs.
- `PngHeader` (`png_header.dfy`): `Parse`, the reading done by `Png.__init__`, as a function
  over the file's bytes. It returns the record or the error.
- `OutputFiles` (`output_file.dfy`): the output file. `Overwrite` says what a positioned write
  does to a file's content. Class `OutputFile` holds an `array` buffer, a size and a position,
  with `Seek` and `Write` proved against `Overwrite`.
- `IcoFormat` (`ico_format.dfy`), the container:
  - `Header`, the entry encoding `EncodeEntry` and its decoder `DecodeEntry`;
  - `IconImage(pngs, count)`, the container holding the first images in count slots;
  - lemmas on what a reader decodes from it.
- `IcoWriter` (`ico_writer.dfy`), the main block:
  - `MakeIcon`, a `while` loop over the inputs with the program's two cursors, `imageDirectoryOffset`
    and `pngDataOffset`, writing through an `OutputFile`;
  - `WriteHeader`, `WriteDirectoryEntry`, `AddPng`, `AddImage` and `AddFile`, the loop's parts;
  - `ExpectedOutcome` and `ExpectedIcon`, which specify the loop: the run stops at the first
    rejected input, and the file then holds the container with the inputs before it;
  - `Output*` lemmas, which state the layout of that file as a reader sees it.

The code parses each PNG inside the writing loop, after the header and the zero directory are
written. So a signature or IHDR error at file k leaves the header, the directory and files 0..k-1
in the output. `MakeIcon`'s `Contents() == ExpectedIcon(files)` states that for every kind of
error.

## Model

| member | source | states |
|---|---|---|
| PngHeader.Clip | make_icon_from_pngs.py:37-47 | `f.read(n)` at a position returns the n bytes there, or the part of them before the end of the file, or nothing past it |
| PngHeader.ReadsFollowOffsets | make_icon_from_pngs.py:37-47 | after a short read every later read is empty, so successive reads are reads at the fixed offsets 0, 12, 16, 20, 24 and 25 |
| PngHeader.Parse | make_icon_from_pngs.py:35-51 | fails with BadSignature exactly when the file does not start with the 8 signature bytes, including files shorter than 8 bytes; fails with BadChunkType exactly when the signature is there but bytes 12..16 are not `IHDR`; succeeds exactly when both are there. On success it keeps the whole file and its length; width is bytes 16..20 read big-endian, or what of them exists; height is bytes 20..24 read big-endian, what of them exists, or 0; both are below 2^32; bitDepth is byte 24 (0 if absent), and hasPalette holds iff byte 25 exists and is 3 |
| PngHeader.ParseFullHeader | make_icon_from_pngs.py:44-48 | with the 26-byte IHDR prefix present, width and height are bytes 16..20 and 20..24 read big-endian, bitDepth is byte 24, and hasPalette holds iff byte 25 == 3 |
| Bytes.BigEndian | make_icon_from_pngs.py:44-47 | `int.from_bytes(b, "big")`: the value of b read most significant byte first, below 256 to the power of its length, with the empty string reading as 0 |
| PngHeader.ChunkLengthIgnored | make_icon_from_pngs.py:40-43 | two files differing only in bytes 8..12, the chunk length, are accepted or refused alike, with the same error or the same header fields |
| Bytes.BigEndianFour | make_icon_from_pngs.py:44-45 | `int.from_bytes(b, "big")` of four bytes is b0·2^24 + b1·2^16 + b2·2^8 + b3 |
| Bytes.Zeros | make_icon_from_pngs.py:64 | `bytes(n)`: n bytes, each of them zero |
| Bytes.ToLittleEndian | make_icon_from_pngs.py:59 | `to_bytes(len, "little")` gives len bytes, which decode back to the value when it fits |
| Bytes.LittleEndianRoundTrip | make_icon_from_pngs.py:59 | encoding the decoded value of any byte string gives the string back, so the encoding is one-to-one on values that fit |
| OutputFiles.Overwrite | make_icon_from_pngs.py:68-90 | a write at a position leaves the file as long as the longer of the old content and the write's end; covered bytes come from the data, the rest from the old content, and a gap past the old end reads as zero. Its partners OverwriteAtEnd, OverwriteInside and OverwriteTwice prove appending, in-place replacement and consecutive writes |
| OutputFiles.OverwriteAtEnd | make_icon_from_pngs.py:89-90 | writing at the end of the file appends |
| OutputFiles.OverwriteInside | make_icon_from_pngs.py:68-86 | writing inside the file replaces exactly the bytes covered |
| OutputFiles.OverwriteTwice | make_icon_from_pngs.py:76-86 | two writes back to back are one write of both |
| OutputFiles.OutputFile.constructor | make_icon_from_pngs.py:54 | a newly opened file is empty and positioned at 0 |
| OutputFiles.OutputFile.Seek | make_icon_from_pngs.py:68 | moves the position, content unchanged |
| OutputFiles.OutputFile.Write | make_icon_from_pngs.py:90 | the new content is `Overwrite` of the old content at the old position, and the position moves past the data |
| IcoFormat.Header | make_icon_from_pngs.py:56-59 | the header is 6 bytes, starts `00 00 01 00`, and its last two bytes decode to the count when the count is below 2^16 |
| IcoFormat.EncodeEntry | make_icon_from_pngs.py:76-86 | the 16 bytes written for a directory entry: its eight fields one after another, little-endian, in 1, 1, 1, 1, 2, 2, 4 and 4 bytes; DecodeEntry, EntryRoundTrip and EntryDecodeRoundTrip are its partners |
| IcoFormat.DecodeEntry | make_icon_from_pngs.py:76-86 | the fields a reader decodes from 16 bytes fit their widths |
| IcoFormat.EntryRoundTrip | make_icon_from_pngs.py:76-86 | an entry whose fields fit decodes back from its 16 bytes |
| IcoFormat.EntryDecodeRoundTrip | make_icon_from_pngs.py:76-86 | any 16 bytes are the encoding of the entry they decode to |
| IcoFormat.ImageEntry | make_icon_from_pngs.py:76-86 | the program's entry (dimensions mod 256, four zero fields, size, offset) fits its fields when size and offset are below 2^32 |
| IcoFormat.EntriesAt | make_icon_from_pngs.py:86-93 | entry i records image i at the first offset plus the sizes of the images before it |
| IcoFormat.SerializeAt | make_icon_from_pngs.py:68-94 | the directory holds entry i's 16 bytes at 16·i |
| IcoFormat.PayloadsAt | make_icon_from_pngs.py:89-93 | image i's bytes lie in the payload area at the sum of the earlier sizes |
| IcoFormat.IconImage | make_icon_from_pngs.py:56-94 | the content the loop builds after adding the first images: header, their entries, zero slots for the rest, then their bytes in order; the IconImage lemmas below state what a reader decodes from it |
| IcoFormat.IconImageHeader | make_icon_from_pngs.py:56-65 | the container is at least 6+16·count bytes, starts `00 00 01 00`, decodes its count as count, and is 6+16·count+Σsize bytes long |
| IcoFormat.IconImageEntry | make_icon_from_pngs.py:68-94 | slot i at 6+16·i holds the encoding of image i's entry |
| IcoFormat.IconImageDecoded | make_icon_from_pngs.py:76-86 | slot i decodes to width mod 256, height mod 256, four zeros, image i's size and its offset 6+16·count+Σ earlier sizes |
| IcoFormat.IconImagePayloadAt | make_icon_from_pngs.py:89-93 | image i's bytes sit verbatim at 6+16·count+Σ earlier sizes |
| IcoFormat.IconImagePayload | make_icon_from_pngs.py:85-90 | the bytes at the offset and length a reader decodes from slot i are image i's bytes |
| IcoFormat.IconImageFirstOffset | make_icon_from_pngs.py:65-86 | slot 0 decodes the offset 6+16·count |
| IcoFormat.IconImageContiguous | make_icon_from_pngs.py:86-93 | slot i+1's decoded offset is slot i's offset plus its size |
| IcoFormat.IconImageEmptySlot | make_icon_from_pngs.py:64 | slots past the added images are 16 zero bytes |
| IcoFormat.AddEntry | make_icon_from_pngs.py:68-90 | writing an entry over the first free slot and appending data gives the container with one more entry, one free slot fewer and the data appended |
| IcoFormat.IconImageSnoc | make_icon_from_pngs.py:68-93 | the container with one more image is the old one with its entry in the next slot and its bytes appended |
| IcoWriter.ParseAllAt | make_icon_from_pngs.py:67-69 | the j-th parse result is the parse of input j |
| IcoWriter.Accepted | make_icon_from_pngs.py:69-73 | the program goes on with a file exactly when it parses and neither width nor height exceeds 256, the negation of the test at line 71 |
| IcoWriter.FirstRejectedIsFirst | make_icon_from_pngs.py:67-73 | every input before the first rejected one is a PNG of at most 256 by 256 |
| IcoWriter.FirstRejectedIsRejected | make_icon_from_pngs.py:69-73 | the first rejected input is not a PNG or exceeds 256 in width or height |
| IcoWriter.Rejection | make_icon_from_pngs.py:69-73 | names the input's index; it is InvalidPng with the parse error exactly when parsing failed, and TooBig only for a width or height above 256 |
| IcoWriter.AcceptedImagesAt | make_icon_from_pngs.py:67-73 | record j of the written images is input j's parse result, which is accepted |
| IcoWriter.SucceedsIffAllAccepted | make_icon_from_pngs.py:67-73 | the run succeeds iff every input parses and is at most 256 by 256 |
| IcoWriter.FailsAtFirstRejected | make_icon_from_pngs.py:67-73 | a failed run names an input that is rejected, with every earlier one accepted; the error is InvalidPng iff that input does not parse |
| IcoWriter.ExpectedOutcome | make_icon_from_pngs.py:67-73 | Pass when every input parses and is at most 256 by 256, otherwise the Rejection of the first input that is not, as raised at lines 39, 43 or 72 |
| IcoWriter.ExpectedIcon | make_icon_from_pngs.py:54-94 | what the output file holds when the `with` block exits: the container with one slot per input, filled in for the inputs before the first rejected one |
| IcoWriter.WriteNext | make_icon_from_pngs.py:76-86 | a field written right after earlier fields extends one write of all of them |
| IcoWriter.WriteDirectoryEntry | make_icon_from_pngs.py:75-86 | the eight field writes put the 16-byte encoding of the image's entry at the position and move it by 16 |
| IcoWriter.WriteHeader | make_icon_from_pngs.py:55-64 | an empty file then holds the header and 16·count zero bytes |
| IcoWriter.AddPng | make_icon_from_pngs.py:68-90 | the entry lands in the first free slot and the PNG's bytes at the end of the file |
| IcoWriter.AddImage | make_icon_from_pngs.py:68-94 | the file holding the container for the written images then holds it with one image more, and its length is that image's end |
| IcoWriter.AddFile | make_icon_from_pngs.py:67-94 | a rejected input gives its error and leaves the content unchanged; an accepted one gives Pass and its size, and adds it |
| IcoWriter.RunAt | make_icon_from_pngs.py:67-73 | from input i on, the written images are input i's followed by the rest, or none if input i is rejected |
| IcoWriter.Advance | make_icon_from_pngs.py:67-94 | one pass of the loop either extends the written images by input i or stops at the first rejected input, with all accepted images written |
| IcoWriter.MakeIcon | make_icon_from_pngs.py:54-94 | returns a new file holding `ExpectedIcon(files)`, with outcome `ExpectedOutcome(files)` |
| IcoWriter.AcceptedImagesFit | make_icon_from_pngs.py:85-86 | under the 16- and 32-bit bounds the written images fit the container and record their sizes, which add up to the length of the inputs before the first rejected one |
| IcoWriter.OutputLayout | make_icon_from_pngs.py:56-93 | the output starts `00 00 01 00`, counts every input, and is 6+16N plus the lengths of the inputs before the first rejected one |
| IcoWriter.AcceptedImageOf | make_icon_from_pngs.py:49-51 | the j-th written record is input j's parse, holding input j's bytes and length |
| IcoWriter.AcceptedImageData | make_icon_from_pngs.py:49-51 | the j-th written record holds input j's bytes and its length |
| IcoWriter.AcceptedOffset | make_icon_from_pngs.py:93 | the records before record j take as many bytes as inputs 0..j-1 |
| IcoWriter.OutputEntry | make_icon_from_pngs.py:68-94 | slot j of a written input, at 6+16·j, decodes to its width mod 256, height mod 256, four zeros, its length and its offset 6+16N+Σ earlier lengths |
| IcoWriter.OutputPayload | make_icon_from_pngs.py:89-93 | a written input's bytes sit verbatim at that offset |
| IcoWriter.OutputContiguous | make_icon_from_pngs.py:62-93 | slot 0 decodes the offset 6+16N, and slot j+1's offset is slot j's offset plus its size |
| IcoWriter.OutputFreeSlot | make_icon_from_pngs.py:64-73 | the slots of the first rejected input and every later one stay 16 zero bytes |

## Left out

- Argument parsing with `argparse`: `MakeIcon` takes the inputs' contents as a sequence of byte strings.
- Opening, reading and closing files: each input is its bytes. The output file is an in-memory buffer that grows as written. The inputs are byte strings independent of the output. The program opens the output with "wb" and writes the header before it reads any input, so an input path that names the output file reads the partly written icon, fails the signature check, and its original content is lost; the model does not capture that aliasing.
- The progress line `print`ed per input is left out.
- The texts and tuple payloads of the `RuntimeError`s. An error is a `WriteError` value: the index of the input, and for a parse failure which check failed.
- The exceptions themselves: a raised error is `AddFile`'s and `MakeIcon`'s `Fail` outcome, and the loop returns at once.
- MakeIcon: requires fewer than 2^16 inputs and 6+16N+Σ|input| < 2^32, where Python raises `OverflowError` in `to_bytes`. The second bound is stronger than Python's: Python only fails when it writes a size or an offset of 2^32 or more, and never for input bytes after the first rejected file.
- Bytes.ToLittleEndian: is total and keeps the low bytes of a value that does not fit. The writer only passes values that fit, by the bounds above.
- `bit_depth` and `has_palette` are parsed but not used by the writer, as in the program.
- OutputFiles.OutputFile.Write: the buffer is a growable `array` holding the file's bytes. Disk I/O errors, buffering and the file's closing are not modelled.
