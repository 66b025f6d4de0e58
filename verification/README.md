# Deep Thought disk image extraction, modelled in Dafny

This project models `extract.py`, which recovers the files stored in a `.dti`
disk image of the Deep Thought floppy interface for the Jupiter Ace. The
image is one immutable byte string (`seq<byte>`), and every stage is a pure
function over it:

1. **Image header** (`Extract.ReadImageHeader`): 8 bytes. These are the
   signature `H2G2`, the cylinder count, the head count and a little-endian
   16-bit track stride `tblock`.
2. **Track reader** (`Track.ReadTrack`): the record of cylinder `cyl` starts
   at `8 + cyl * tblock`. It has a flags byte, a 16-bit length and the
   payload. The reader strips everything up to the first `0xFF`-run followed
   by `0x2A`. It then checks that the last byte is the mod-256 sum of the
   others and drops it. The failures are `CorruptTrack`, `BlankTrack`,
   `MissingTrackHeader` and `BadTrackChecksum`, checked in that order.
3. **Catalogue loader** (`Catalogue.LoadCatalogue`): uses cylinder 0, or
   cylinder 1 (the backup) when cylinder 0 fails. It is fatal when both fail.
4. **Directory parser** (`Catalogue.ParseDirectory`): reads the track count,
   the block size and a file allocation table (FAT) of `tracks - 2` bytes.
   Then come length-prefixed entries (name, 16-bit size, 16-bit type), ended
   by a zero length byte.
5. **File reconstruction** (`Reconstruction.Reconstruct`): a fold over the
   FAT in ascending order. Slot `idx` is cylinder `idx + 2`, and a nonzero
   byte there is the 1-based file number that owns it. A good track's data
   is appended to its file. A failed track appends
   `max(0, min(block, size - len(data)))` bytes of `0xEE` and sets the
   file's error flag.
6. **Output naming** (`Naming.OutputName`): the name gets `-DAMAGED` if a
   track failed, otherwise `-BADSIZE` if the length differs from the
   declared size. It then gets `.dict` when the type is 0.

`Extract.ExtractFiles` chains the stages. It returns either the finished
files or the `Fatal` error that stops the program. A decode error
(`DecodeError`) on a data track never stops it. Decode errors on both
catalogue copies stop it with `NoCatalogue`.

Each operation is paired with a reference or an inverse:
- the image header reader with a header encoder (`EncodeImageHeader`), in
  both directions;
- the marker scan with a leftmost regular-expression match of `\xff+\x2a`;
- checksum removal with sealing (`Seal`);
- the directory parser with a directory encoder, in both directions;
- the FAT fold with a single-file fold (`FileFold`) and a plain
  concatenation of owned tracks (`OwnedData`);
- output naming with a suffix reader (`ReadSuffix`).

Some behaviour of `extract.py` is easy to miss, and the model keeps it:
- The status test is `flags and 1`. It is true for any nonzero flags byte,
  so a track with only bit 1 set is rejected as corrupt.
- A track header cut off by the end of the image raises `struct.error`,
  which is not a decode error. Nothing catches it, so extraction stops
  (`TrackHeaderCut`), and a cut-off cylinder 0 never falls back to
  cylinder 1.
- A payload read returns fewer bytes than the declared length when the
  image ends first (`Bytes.ReadAt`).
- A file number beyond the entry list raises an index error
  (`NoSuchFile`). This is checked before the track is read.
- A catalogue that ends inside its header, inside an entry or before the
  terminator raises an unpack error. This is `TruncatedCatalogue`. With a
  track count below 2, the FAT read asks for a negative length. That reads
  the rest of the payload, so the entry list finds no bytes and the
  catalogue is truncated.

Decoding is deterministic because every stage is a function of the image
bytes alone.

## Model

| member | source | states |
|---|---|---|
| `Bytes.Le16` | extract.py:25-28 | a little-endian 16-bit field is below 65536 and its low and high bytes are the two bytes read |
| `Bytes.Le16Bytes` | extract.py:25-28 | writing a 16-bit value as two bytes and reading them back gives the value |
| `Bytes.ReadAt` | extract.py:84-88 | a stream read returns the requested bytes, fewer when the stream ends first, nothing past the end, and the rest of the stream for a negative count |
| `Track.ScanMarker` | extract.py:47-50 | the scan returns one past the first 0x2A that directly follows 0xFF, and none exactly when no such pair exists |
| `Track.ScanIsPatternSearch` | extract.py:47-50 | the scan agrees with a leftmost search for `\xff+\x2a`: it finds that match's end, and finds none exactly when the pattern occurs nowhere |
| `Track.Seal` | extract.py:52-56 | data followed by its mod-256 sum passes the checksum test |
| `Track.UnsealInvertsSeal` | extract.py:52-59 | checksum removal yields `d` exactly for sealed `d` (or empty data for an empty remainder), otherwise a checksum error; it succeeds iff the last byte is the low 8 bits of the sum of the others |
| `Track.Unseal` | extract.py:52-59 | checksum removal succeeds exactly when the checksum holds, returning the input less its last byte (empty for empty input); its only failure is a checksum error |
| `Track.ReadTrack` | extract.py:36-59 | the header is cut off exactly when its 3 bytes do not fit in the image; a decoded track had zero flags and nonzero length, and nonempty data is the run of payload bytes right after a 0xFF,0x2A marker and just before a final byte that is their checksum |
| `Track.ReadTrackErrors` | extract.py:36-56 | the header is unpacked only if its 3 bytes exist at `8 + cyl*tblock`; corrupt iff flags nonzero, blank iff flags zero and length zero, missing marker iff both pass and the pattern is absent, bad checksum iff the marker is found and the sum fails |
| `Track.ReadTrackGood` | extract.py:36-59 | a track decodes to `d` iff flags are zero, the length is nonzero, and the bytes after the leftmost marker match are `d` plus its checksum (or nothing); no byte before the marker survives |
| `Track.ReadFramedTrack` | extract.py:37-50 | a record of zero flags, a length, a gap free of 0x2A and the marker leaves exactly the bytes after the marker for the checksum test |
| `Track.ReadSealedTrack` | extract.py:36-59 | round trip: a framed record around sealed data reads back as that data |
| `Track.ReadCorruptedChecksum` | extract.py:52-56 | a framed record whose last byte is not the checksum reads as a checksum error |
| `Catalogue.LoadCatalogue` | extract.py:71-81 | cylinder 0's payload, tagged primary, whenever it decodes; cylinder 1's payload, tagged backup, exactly when cylinder 0 fails with a decode error and cylinder 1 decodes; no catalogue iff both fail with decode errors; a cut-off track header is fatal and names the cylinder that was being read |
| `Catalogue.ParseEntries` | extract.py:90-102 | running out of bytes before the zero terminator is a truncated catalogue; every parsed entry has a 1 to 255 byte name, 16-bit size and type, empty data and no error |
| `Catalogue.ParseDirectory` | extract.py:83-102 | a parsed catalogue has the first byte as track count (at least 2), the next two as little-endian block size, the next `tracks-2` bytes as the FAT, and fresh entries; any failure is a truncated catalogue |
| `Catalogue.ParseEncodedEntries` | extract.py:90-102 | an encoded entry list parses back to itself, in order, wherever it lies in the payload and whatever surrounds it |
| `Catalogue.EncodedEntryReads` | extract.py:92-102 | one encoded entry, read where it lies, is a complete record that ends where its encoding ends and gives back the same name, size and type |
| `Catalogue.EntryIsEncoded` | extract.py:92-102 | a complete entry record is, byte for byte, the encoding of the entry the parser builds from it |
| `Catalogue.ParseEncodedDirectory` | extract.py:84-102 | round trip: an encoded well-formed directory followed by any bytes parses back to itself |
| `Catalogue.ParsedEntriesAreEncoded` | extract.py:90-102 | the parsed entries are exactly the encoding the bytes begin with |
| `Catalogue.ParsedDirectoryIsEncoded` | extract.py:84-102 | converse round trip: a payload that parses is well formed and begins with the encoding of the parse result; bytes after the terminator are ignored |
| `Reconstruction.AppendTrack` | extract.py:117-131 | a good track's data is appended as is; a failed track appends `max(0, min(block, size - len))` bytes of 0xEE and sets the error flag, so filler never takes a file past its declared size |
| `Reconstruction.ProcessSlot` | extract.py:113-131 | a slot fails only for a nonzero file number beyond the list or a cut-off track header; otherwise only the owning entry can change |
| `Reconstruction.Reconstruct` | extract.py:110-131 | the fold succeeds iff no slot names a missing file or a cut-off track, so failed tracks never stop it, and it keeps the number of entries |
| `Reconstruction.ReconstructFirstError` | extract.py:110-131 | a failed fold reports the first slot in ascending order that cannot be processed |
| `Reconstruction.FileFold` | extract.py:110-131 | folding one file's slots keeps its name, size and type |
| `Reconstruction.ReconstructIsPerFile` | extract.py:110-131 | after the fold, each entry equals its own single-file fold: zero slots and other files' slots, good or failed, leave it unchanged |
| `Reconstruction.FileFoldDamaged` | extract.py:120-128 | the error flag ends up set iff it was set before or at least one owned track failed |
| `Reconstruction.FileFoldClean` | extract.py:111-131 | with every owned track readable, the data is the concatenation of the owned tracks in ascending cylinder order and the flag is unchanged |
| `Reconstruction.FileFoldAllFailed` | extract.py:125-131 | with every owned track failed and the data not yet past its declared size, the old data is kept and followed by exactly `min(size - len, owned*block)` bytes, all 0xEE |
| `Reconstruction.ReconstructReadsOnlySlots` | extract.py:110-119 | the fold depends only on the tracks of its FAT slots |
| `Reconstruction.FileFoldSingleSlot` | extract.py:110-131 | a file owning one slot is that track's outcome added to it |
| `Reconstruction.ReconstructSingleFile` | extract.py:110-131 | with one entry owning slot 0 and every other slot free, the fold yields that one track's outcome |
| `Naming.ReadSuffixInvertsSuffix` | extract.py:136-144 | every suffix the naming can produce reads back as the marks it spells |
| `Naming.ReadSuffixOnlySuffixes` | extract.py:136-144 | only suffixes the naming produces are read back, so marks and suffix determine each other |
| `Naming.OutputName` | extract.py:136-144 | the output name is the entry name followed by a suffix that reads back as: damaged iff the error flag is set, bad size iff not damaged and the length differs from the declared size, dictionary iff the type is 0 |
| `Extract.ReadImageHeader` | extract.py:63-67 | fewer than 8 bytes cannot be unpacked; otherwise the header is accepted iff the signature is `H2G2`, and gives the cylinder count, head count and little-endian stride |
| `Extract.ExtractFiles` | extract.py:61-144 | every stage's fatal error ends extraction with that error: a header shorter than 8 bytes, a wrong signature, a catalogue that cannot be loaded (both copies failing, or a cut-off header), a truncated catalogue, and the fold's error (a missing file number or a cut-off data track); success implies a valid signature and gives one file per entry with the catalogue's source |
| `Extract.Finish` | extract.py:133-149 | the written record keeps the collected data, declared size, type and error flag, flags a size mismatch exactly when the length differs from the declared size, and is named by the entry name followed by a suffix that reads back as those marks |
| `Extract.FromCatalogue` | extract.py:83-131 | after loading, a catalogue that does not parse gives a truncated catalogue, a failed fold gives the fold's error, and a successful fold gives one finished file per entry, in order, with the header and source kept |
| `Extract.ExtractedFiles` | extract.py:110-144 | a successful extraction gives one file per catalogue entry, in order, each the single-file fold of that entry, named by the suffix policy |
| `Extract.ExtractFromStages` | extract.py:61-144 | once each stage's outcome is known, the extraction holds the header, the catalogue source and one finished file per entry |
| `Extract.BackupEquivalence` | extract.py:71-131 | an image with a failed primary and a good backup catalogue extracts the same files as one holding that catalogue on cylinder 0 with the same data tracks |
| `Extract.SameHeader` | extract.py:63-67 | the image header is decided by the first 8 bytes alone |
| `Extract.ReadEncodedHeader` | extract.py:63-67 | the `<4s2BH` layout read back: `H2G2`, the cylinder and head counts and the little-endian stride, followed by any bytes, is accepted as exactly that header |
| `Extract.AcceptedHeaderIsEncoded` | extract.py:63-67 | conversely, an accepted image's first 8 bytes are exactly the encoding of the header read from them, with a stride below 65536 |
| `Extract.BackupLoads` | extract.py:71-81 | with cylinder 0 failing a decode and cylinder 1 decoding, the image loads cylinder 1's payload tagged as the backup, and an image holding that payload on cylinder 0 loads it tagged as the primary |
| `Extract.SourceIrrelevant` | extract.py:83-131 | once the catalogue is loaded, the outcome depends only on its bytes and the data slots: which copy it came from changes the source tag and nothing else |
| `Extract.SingleFileExtraction` | extract.py:73-144 | a one-file image whose catalogue decodes from cylinder 0 extracts to that single track's outcome, finished |
| `Extract.SingleFileFromCatalogue` | extract.py:83-144 | after loading a one-file catalogue whose first data slot has a track header, the extraction is that slot's outcome added to the entry and finished |
| `Extract.SingleIntactFile` | extract.py:73-144 | for an entry of nonzero type, an intact track holding exactly the declared size gives the file under its own name, with that content, neither damaged nor mis-sized |
| `Extract.SingleDamagedFile` | extract.py:73-144 | for an entry of nonzero type, an unreadable single track gives a damaged file named with `-DAMAGED`, holding `min(block, size)` bytes of 0xEE |

## Left out

- Argument parsing (extract.py:15-19) is process glue. The input is the image bytes.
- The open file handle and its `seek`/`read` are modelled as indexing one
  immutable byte sequence. A read past the end returns fewer bytes, as the
  handle does.
- The output directory, `os.path.join` and the file writes
  (extract.py:104-106, 146-149) are filesystem I/O. Only the output name's
  suffix and the data handed to the writer are modelled.
- The `print` diagnostics are not modelled: the image summary, the
  backup-catalogue notice, per-track warnings and write reports. The
  catalogue source is returned instead. The exit statuses collapse into the
  `Fatal` error kinds.
- `Catalogue.ParseEntries`: names are kept as raw bytes. Decoding them as
  UTF-8 can raise an error in the source (extract.py:96), and the model
  accepts such names rather than failing.
- `Naming.OutputName`: the suffixes are appended to the raw name bytes as
  ASCII, since names are not decoded to text.
- The commented-out TAP export (extract.py:151-170) is unfinished and its
  header values are unknown.
- The `IOError` handler (extract.py:171-172) covers the whole run. It
  catches a failure to open the image, to create the output directory
  (extract.py:106) or to open and write an output file (extract.py:148-149).
  It prints the error and ends the run. An output I/O failure therefore stops
  extraction after a partial write, and the later files are never written.
  The model has no I/O, so it produces every file and none of these failures.
