/** The whole extraction: image header check, catalogue load, directory
    parse, FAT fold and output naming, from one immutable image byte string
    to the list of finished files, or the fatal error that stops it. */
module Extract {
  import opened Bytes
  import opened Results
  import opened Errors
  import opened Track
  import opened Catalogue
  import opened Reconstruction
  import opened Naming

  /** The disk image signature. */
  const Magic: ByteString := Ascii("H2G2")

  /** The image header: signature, then cylinder count, head count and the
      16-bit track stride `tblock`. */
  datatype ImageHeader = ImageHeader(cyls: byte, heads: byte, tblock: nat)

  /** Unpacks the 8-byte image header and rejects any other signature. */
  function ReadImageHeader(img: ByteString): (r: Result<ImageHeader, Fatal>)
    ensures |img| < ImageHeaderSize ==> r == Err(ShortImageHeader)
    ensures |img| >= ImageHeaderSize ==> (r.Ok? <==> img[..4] == Magic)
    ensures r.Err? ==> r.error == ShortImageHeader || r.error == NotDiskImage
    ensures r.Ok? ==> r.value == ImageHeader(img[4], img[5], Le16(img[6], img[7]))
  {
    if |img| < ImageHeaderSize then Err(ShortImageHeader)
    else if img[..4] != Magic then Err(NotDiskImage)
    else Ok(ImageHeader(img[4], img[5], Le16(img[6], img[7])))
  }

  /** The 8 bytes that describe `h`: the inverse of `ReadImageHeader`. */
  function EncodeImageHeader(h: ImageHeader): (b: ByteString)
    requires h.tblock < 0x1_0000
  {
    Magic + [h.cyls, h.heads] + Le16Bytes(h.tblock)
  }

  /** An encoded header, followed by anything, reads back as itself. */
  lemma ReadEncodedHeader(h: ImageHeader, rest: ByteString)
    requires h.tblock < 0x1_0000
    ensures ReadImageHeader(EncodeImageHeader(h) + rest) == Ok(h)
  {
  }

  /** An accepted image begins with the encoding of the header read from it. */
  lemma AcceptedHeaderIsEncoded(img: ByteString)
    requires ReadImageHeader(img).Ok?
    ensures var h := ReadImageHeader(img).value;
            h.tblock < 0x1_0000 && img[..ImageHeaderSize] == EncodeImageHeader(h)
  {
  }

  /** A finished file as handed to the writer. */
  datatype OutputFile = OutputFile(name: ByteString, data: ByteString, declared: nat, damaged: bool, sizeMismatch: bool, kind: nat)

  /** The record handed to the writer for a finished entry: its data as
      collected, under a name that carries its marks. */
  function Finish(e: Entry): (f: OutputFile)
    ensures f.data == e.data && f.declared == e.size && f.kind == e.kind
    ensures f.damaged == e.damaged && (f.sizeMismatch <==> e.size != |e.data|)
    ensures |e.name| <= |f.name| && f.name[..|e.name|] == e.name
    ensures ReadSuffix(f.name[|e.name|..]) == Some(Marks(f.damaged, !f.damaged && f.sizeMismatch, f.kind == 0))
  {
    OutputFile(OutputName(e), e.data, e.size, e.damaged, e.size != |e.data|, e.kind)
  }

  /** The result of a successful extraction. */
  datatype Extraction = Extraction(header: ImageHeader, source: Source, files: seq<OutputFile>)

  /** The track reader over one image. */
  function TrackReader(img: ByteString, tblock: nat): nat -> TrackRead {
    (cyl: nat) => ReadTrack(img, tblock, cyl)
  }

  /** Decodes a disk image into its files, stopping at the first fatal
      error; per-track failures only damage the files that own them. */
  function ExtractFiles(img: ByteString): (r: Result<Extraction, Fatal>)
    ensures |img| < ImageHeaderSize ==> r == Err(ShortImageHeader)
    ensures |img| >= ImageHeaderSize && img[..4] != Magic ==> r == Err(NotDiskImage)
    ensures r.Ok? ==> |img| >= ImageHeaderSize && img[..4] == Magic
    ensures ReadImageHeader(img).Ok? ==>
              var t := ReadImageHeader(img).value.tblock;
              ReadTrack(img, t, 0).Bad? && ReadTrack(img, t, 1).Bad? ==> r == Err(NoCatalogue)
    ensures ReadImageHeader(img).Ok? ==>
              var t := ReadImageHeader(img).value.tblock;
              var cat := LoadCatalogue(img, t);
              && (cat.Err? ==> r == Err(cat.error))
              && (cat.Ok? && ParseDirectory(cat.value.payload).Err? ==> r == Err(TruncatedCatalogue))
              && (cat.Ok? && ParseDirectory(cat.value.payload).Ok? ==>
                    var dir := ParseDirectory(cat.value.payload).value;
                    var fold := Reconstruct(TrackReader(img, t), dir.block, dir.fat, dir.entries);
                    && (fold.Err? ==> r == Err(fold.error))
                    && (fold.Ok? ==> r.Ok? && r.value.source == cat.value.source && |r.value.files| == |fold.value|))
  {
    var header :- ReadImageHeader(img);
    var cat :- LoadCatalogue(img, header.tblock);
    FromCatalogue(header, cat, TrackReader(img, header.tblock))
  }

  /** The stages after the catalogue is loaded: directory parse, FAT fold
      and naming, reading the data tracks through `read`. */
  function FromCatalogue(header: ImageHeader, cat: Loaded, read: nat -> TrackRead): (r: Result<Extraction, Fatal>)
    ensures ParseDirectory(cat.payload).Err? ==> r == Err(TruncatedCatalogue)
    ensures ParseDirectory(cat.payload).Ok? ==>
              var dir := ParseDirectory(cat.payload).value;
              var fold := Reconstruct(read, dir.block, dir.fat, dir.entries);
              && (fold.Err? ==> r == Err(fold.error))
              && (fold.Ok? ==> && r.Ok? && r.value.header == header && r.value.source == cat.source
                               && |r.value.files| == |fold.value|
                               && forall k :: 0 <= k < |fold.value| ==> r.value.files[k] == Finish(fold.value[k]))
  {
    var dir :- ParseDirectory(cat.payload);
    var files :- Reconstruct(read, dir.block, dir.fat, dir.entries);
    Ok(Extraction(header, cat.source, seq(|files|, k requires 0 <= k < |files| => Finish(files[k]))))
  }

  /** A successful extraction yields one file per catalogue entry, in
      catalogue order, each the single-file reconstruction of that entry
      from the slots holding its number. */
  lemma ExtractedFiles(img: ByteString)
    requires ExtractFiles(img).Ok?
    ensures var t := ReadImageHeader(img).value.tblock;
            var dir := ParseDirectory(LoadCatalogue(img, t).value.payload).value;
            var files := ExtractFiles(img).value.files;
            && |files| == |dir.entries|
            && forall k :: 0 <= k < |files| ==>
                 && OwnedReadable(TrackReader(img, t), dir.fat, k)
                 && files[k] == Finish(FileFold(TrackReader(img, t), dir.block, dir.fat, k, dir.entries[k]))
  {
    var t := ReadImageHeader(img).value.tblock;
    var dir := ParseDirectory(LoadCatalogue(img, t).value.payload).value;
    ReconstructIsPerFile(TrackReader(img, t), dir.block, dir.fat, dir.entries);
  }

  /** Backup equivalence: an image whose primary catalogue fails but whose
      backup decodes extracts exactly what an image holding that catalogue
      on cylinder 0, and the same data tracks, extracts. */
  lemma BackupEquivalence(a: ByteString, b: ByteString)
    requires |a| >= ImageHeaderSize && |b| >= ImageHeaderSize && a[..ImageHeaderSize] == b[..ImageHeaderSize]
    requires ReadImageHeader(a).Ok?
    requires var t := ReadImageHeader(a).value.tblock;
             && ReadTrack(a, t, 0).Bad? && ReadTrack(a, t, 1).Good?
             && ReadTrack(b, t, 0) == ReadTrack(a, t, 1)
             && forall cyl: nat :: cyl >= CatTracks ==> ReadTrack(a, t, cyl) == ReadTrack(b, t, cyl)
    ensures ExtractFiles(a).Ok? <==> ExtractFiles(b).Ok?
    ensures ExtractFiles(a).Ok? ==> && ExtractFiles(a).value.files == ExtractFiles(b).value.files
                                    && ExtractFiles(a).value.source == Backup
                                    && ExtractFiles(b).value.source == Primary
    ensures ExtractFiles(a).Err? ==> ExtractFiles(a).error == ExtractFiles(b).error
  {
    var header := ReadImageHeader(a).value;
    var t := header.tblock;
    var payload := ReadTrack(a, t, 1).data;
    BackupLoads(a, b);
    var readA := TrackReader(a, t);
    var readB := TrackReader(b, t);
    assert ExtractFiles(a) == FromCatalogue(header, Loaded(payload, Backup), readA);
    assert ExtractFiles(b) == FromCatalogue(header, Loaded(payload, Primary), readB);
    assert forall idx: nat :: SlotTrack(readA, idx) == SlotTrack(readB, idx);
    SourceIrrelevant(header, payload, readA, readB);
  }

  /** The two images of the backup equivalence share their header, and
      both load the same catalogue bytes, from cylinder 1 and cylinder 0. */
  lemma BackupLoads(a: ByteString, b: ByteString)
    requires |a| >= ImageHeaderSize && |b| >= ImageHeaderSize && a[..ImageHeaderSize] == b[..ImageHeaderSize]
    requires ReadImageHeader(a).Ok?
    requires var t := ReadImageHeader(a).value.tblock;
             && ReadTrack(a, t, 0).Bad? && ReadTrack(a, t, 1).Good?
             && ReadTrack(b, t, 0) == ReadTrack(a, t, 1)
    ensures ReadImageHeader(b) == ReadImageHeader(a)
    ensures var t := ReadImageHeader(a).value.tblock;
            var payload := ReadTrack(a, t, 1).data;
            && LoadCatalogue(a, t) == Ok(Loaded(payload, Backup))
            && LoadCatalogue(b, t) == Ok(Loaded(payload, Primary))
  {
    SameHeader(a, b);
  }

  /** The image header depends on the first 8 bytes alone. */
  lemma SameHeader(a: ByteString, b: ByteString)
    requires |a| >= ImageHeaderSize && |b| >= ImageHeaderSize && a[..ImageHeaderSize] == b[..ImageHeaderSize]
    ensures ReadImageHeader(b) == ReadImageHeader(a)
  {
    assert a[..4] == a[..ImageHeaderSize][..4] && b[..4] == b[..ImageHeaderSize][..4];
    assert a[4] == b[4] && a[5] == b[5] && a[6] == b[6] && a[7] == b[7];
  }

  /** Only the catalogue bytes and the data slots matter after loading:
      where the catalogue came from changes nothing but the source tag. */
  lemma SourceIrrelevant(header: ImageHeader, payload: ByteString, readA: nat -> TrackRead, readB: nat -> TrackRead)
    requires forall idx: nat :: SlotTrack(readA, idx) == SlotTrack(readB, idx)
    ensures var x := FromCatalogue(header, Loaded(payload, Backup), readA);
            var y := FromCatalogue(header, Loaded(payload, Primary), readB);
            && (x.Ok? <==> y.Ok?)
            && (x.Ok? ==> x.value.files == y.value.files && x.value.source == Backup && y.value.source == Primary)
            && (x.Err? ==> x.error == y.error)
  {
    match ParseDirectory(payload)
    case Err(_) =>
    case Ok(dir) =>
      ReconstructReadsOnlySlots(readA, readB, dir.block, dir.fat, dir.entries);
  }

  /** A catalogue listing one file that owns the first data cylinder and no
      other. */
  predicate SingleFileCatalogue(dir: Directory) {
    && WellFormed(dir)
    && |dir.entries| == 1
    && |dir.fat| > 0 && dir.fat[0] == 1
    && forall j :: 1 <= j < |dir.fat| ==> dir.fat[j] == 0
  }

  /** The pipeline's value once each stage's outcome is known. */
  lemma ExtractFromStages(img: ByteString, header: ImageHeader, loaded: Loaded, dir: Directory, files: seq<Entry>)
    requires ReadImageHeader(img) == Ok(header)
    requires LoadCatalogue(img, header.tblock) == Ok(loaded)
    requires ParseDirectory(loaded.payload) == Ok(dir)
    requires Reconstruct(TrackReader(img, header.tblock), dir.block, dir.fat, dir.entries) == Ok(files)
    ensures ExtractFiles(img).Ok?
    ensures ExtractFiles(img).value.header == header && ExtractFiles(img).value.source == loaded.source
    ensures |ExtractFiles(img).value.files| == |files|
    ensures forall k :: 0 <= k < |files| ==> ExtractFiles(img).value.files[k] == Finish(files[k])
  {
  }

  /** Extraction of a one-file image whose catalogue decodes from
      cylinder 0: the file is its track's outcome added to the entry. */
  lemma SingleFileExtraction(img: ByteString, dir: Directory)
    requires ReadImageHeader(img).Ok?
    requires SingleFileCatalogue(dir)
    requires var t := ReadImageHeader(img).value.tblock;
             && ReadTrack(img, t, 0) == Good(EncodeDirectory(dir))
             && !ReadTrack(img, t, CatTracks).HeaderCut?
    ensures var t := ReadImageHeader(img).value.tblock;
            ExtractFiles(img) == Ok(Extraction(ReadImageHeader(img).value, Primary,
              [Finish(AppendTrack(dir.entries[0], ReadTrack(img, t, CatTracks), dir.block))]))
  {
    var header := ReadImageHeader(img).value;
    var t := header.tblock;
    var read := TrackReader(img, t);
    var enc := EncodeDirectory(dir);
    assert LoadCatalogue(img, t) == Ok(Loaded(enc, Primary));
    assert ExtractFiles(img) == FromCatalogue(header, Loaded(enc, Primary), read);
    assert SlotTrack(read, 0) == ReadTrack(img, t, CatTracks);
    SingleFileFromCatalogue(header, dir, read);
  }

  /** The stages after loading, for a one-file catalogue read from
      cylinder 0. */
  lemma SingleFileFromCatalogue(header: ImageHeader, dir: Directory, read: nat -> TrackRead)
    requires SingleFileCatalogue(dir)
    requires !SlotTrack(read, 0).HeaderCut?
    ensures FromCatalogue(header, Loaded(EncodeDirectory(dir), Primary), read)
            == Ok(Extraction(header, Primary, [Finish(AppendTrack(dir.entries[0], SlotTrack(read, 0), dir.block))]))
  {
    var enc := EncodeDirectory(dir);
    ParseEncodedDirectory(dir, []);
    assert enc + [] == enc;
    assert dir.entries == [dir.entries[0]];
    ReconstructSingleFile(read, dir.block, dir.fat, dir.entries[0]);
    var done := AppendTrack(dir.entries[0], SlotTrack(read, 0), dir.block);
    var x := FromCatalogue(header, Loaded(enc, Primary), read).value;
    assert x.files == [Finish(done)];
  }

  /** An intact one-file image: a file of type other than 0 whose single
      track holds exactly its declared size comes out under its own name,
      with that content, neither damaged nor mis-sized. */
  lemma SingleIntactFile(img: ByteString, dir: Directory, content: ByteString)
    requires ReadImageHeader(img).Ok?
    requires SingleFileCatalogue(dir)
    requires var t := ReadImageHeader(img).value.tblock;
             && ReadTrack(img, t, 0) == Good(EncodeDirectory(dir))
             && ReadTrack(img, t, CatTracks) == Good(content)
    requires |content| == dir.entries[0].size && dir.entries[0].kind != 0
    ensures ExtractFiles(img).Ok?
    ensures var e := dir.entries[0];
            ExtractFiles(img).value.files == [OutputFile(e.name, content, e.size, false, false, e.kind)]
  {
    SingleFileExtraction(img, dir);
    var e := dir.entries[0];
    var done := e.(data := content);
    assert AppendTrack(e, Good(content), dir.block) == done;
    OutputNameSpelled(done);
    assert Suffix(Marks(false, false, false)) == [];
    assert OutputName(done) == e.name;
    assert Finish(done) == OutputFile(e.name, content, e.size, false, false, e.kind);
  }

  /** The same image with the single track unreadable (a flipped checksum
      byte, say): the file is flagged damaged and holds filler up to its
      declared size or one block, whichever is smaller. */
  lemma SingleDamagedFile(img: ByteString, dir: Directory)
    requires ReadImageHeader(img).Ok?
    requires SingleFileCatalogue(dir)
    requires var t := ReadImageHeader(img).value.tblock;
             && ReadTrack(img, t, 0) == Good(EncodeDirectory(dir))
             && ReadTrack(img, t, CatTracks).Bad?
    requires dir.entries[0].kind != 0
    ensures ExtractFiles(img).Ok?
    ensures var e := dir.entries[0];
            var n := Min(dir.block, e.size);
            ExtractFiles(img).value.files
              == [OutputFile(e.name + DamagedTag, Repeat(FillerByte, n), e.size, true, n != e.size, e.kind)]
  {
    SingleFileExtraction(img, dir);
    var t := ReadImageHeader(img).value.tblock;
    var e := dir.entries[0];
    var n := Min(dir.block, e.size);
    var done := AppendTrack(e, ReadTrack(img, t, CatTracks), dir.block);
    assert done.data == Repeat(FillerByte, n);
    assert done.damaged && done.kind != 0;
    OutputNameSpelled(done);
    assert Suffix(Marks(true, false, false)) == DamagedTag + [] == DamagedTag;
    assert OutputName(done) == e.name + DamagedTag;
    assert Finish(done) == OutputFile(e.name + DamagedTag, Repeat(FillerByte, n), e.size, true, n != e.size, e.kind);
  }
}
