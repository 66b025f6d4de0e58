/** The catalogue: loading its payload from cylinder 0 or, failing that, the
    backup on cylinder 1, and parsing the payload into the track count, the
    block size, the file allocation table (FAT) and the file entries. */
module Catalogue {
  import opened Bytes
  import opened Results
  import opened Errors
  import opened Track

  /** Cylinders 0 and 1 hold the catalogue and never carry file data. */
  const CatTracks := 2
  /** Catalogue header: track count (1 byte) and block size (16 bits). */
  const CatHeaderSize := 3
  /** Entry details after the name: declared size and type, 16 bits each. */
  const DetailsSize := 4

  datatype Source = Primary | Backup

  /** A catalogue payload and the copy it came from. */
  datatype Loaded = Loaded(payload: ByteString, source: Source)

  /** A file entry: its raw name bytes, declared size, type code (0 for a
      dictionary), the data reconstructed so far and whether any of its
      tracks failed. */
  datatype Entry = Entry(name: ByteString, size: nat, kind: nat, data: ByteString, damaged: bool)

  datatype Directory = Directory(tracks: byte, block: nat, fat: ByteString, entries: seq<Entry>)

  // ---------------------------------------------------------------------
  // Loading

  /** The catalogue payload: cylinder 0 whenever it decodes; cylinder 1 only
      after cylinder 0 fails with a decode error; fatal when both fail. A
      track header cut off by the end of the image is fatal at once. */
  function LoadCatalogue(img: ByteString, tblock: nat): (r: Result<Loaded, Fatal>)
    ensures ReadTrack(img, tblock, 0).Good? ==> r == Ok(Loaded(ReadTrack(img, tblock, 0).data, Primary))
    ensures r.Ok? && r.value.source == Backup ==>
              ReadTrack(img, tblock, 0).Bad? && ReadTrack(img, tblock, 1) == Good(r.value.payload)
    ensures r.Ok? <==> || ReadTrack(img, tblock, 0).Good?
                       || (ReadTrack(img, tblock, 0).Bad? && ReadTrack(img, tblock, 1).Good?)
    ensures r == Err(NoCatalogue) <==> ReadTrack(img, tblock, 0).Bad? && ReadTrack(img, tblock, 1).Bad?
    ensures ReadTrack(img, tblock, 0).Bad? && ReadTrack(img, tblock, 1).Good? ==>
              r == Ok(Loaded(ReadTrack(img, tblock, 1).data, Backup))
    ensures ReadTrack(img, tblock, 0).HeaderCut? ==> r == Err(TrackHeaderCut(0))
    ensures ReadTrack(img, tblock, 0).Bad? && ReadTrack(img, tblock, 1).HeaderCut? ==> r == Err(TrackHeaderCut(1))
    ensures r.Err? ==> r.error == NoCatalogue || r.error == TrackHeaderCut(0) || r.error == TrackHeaderCut(1)
  {
    match ReadTrack(img, tblock, 0)
    case Good(d) => Ok(Loaded(d, Primary))
    case HeaderCut => Err(TrackHeaderCut(0))
    case Bad(_) =>
      match ReadTrack(img, tblock, 1)
      case Good(d) => Ok(Loaded(d, Backup))
      case HeaderCut => Err(TrackHeaderCut(1))
      case Bad(_) => Err(NoCatalogue)
  }

  // ---------------------------------------------------------------------
  // Parsing

  /** An entry as the parser creates it: a name of 1 to 255 bytes, 16-bit
      size and type, no data yet and no error. */
  predicate Fresh(e: Entry) {
    && 0 < |e.name| < 256
    && e.size < 0x1_0000 && e.kind < 0x1_0000
    && e.data == [] && !e.damaged
  }

  /** A complete entry record starts at `pos`: a nonzero name length and
      the name and details all inside the payload. */
  predicate HasEntry(cat: ByteString, pos: nat) {
    pos < |cat| && cat[pos] != 0 && pos + 1 + cat[pos] + DetailsSize <= |cat|
  }

  /** One past the last byte of the entry record at `pos`. */
  function EntryEnd(cat: ByteString, pos: nat): nat
    requires pos < |cat|
  {
    pos + 1 + cat[pos] + DetailsSize
  }

  /** The entry the record at `pos` describes. */
  function EntryAt(cat: ByteString, pos: nat): (e: Entry)
    requires HasEntry(cat, pos)
    ensures Fresh(e) && |e.name| == cat[pos]
  {
    var p := pos + 1 + cat[pos];
    Entry(cat[pos + 1..p], Le16(cat[p], cat[p + 1]), Le16(cat[p + 2], cat[p + 3]), [], false)
  }

  /** The entry list starting at `pos`: length-prefixed name, size, type,
      repeated until a zero length byte. Running out of bytes anywhere before
      that zero is a truncated catalogue. */
  function ParseEntries(cat: ByteString, pos: nat): (r: Result<seq<Entry>, Fatal>)
    decreases |cat| - pos
    ensures pos >= |cat| ==> r == Err(TruncatedCatalogue)
    ensures r.Err? ==> r.error == TruncatedCatalogue
    ensures r.Ok? ==> forall k :: 0 <= k < |r.value| ==> Fresh(r.value[k])
  {
    if pos >= |cat| then Err(TruncatedCatalogue)
    else if cat[pos] == 0 then Ok([])
    else if !HasEntry(cat, pos) then Err(TruncatedCatalogue)
    else
      var rest :- ParseEntries(cat, EntryEnd(cat, pos));
      Ok([EntryAt(cat, pos)] + rest)
  }

  /** One step of the entry parser over a complete record. */
  lemma ParseEntriesStep(cat: ByteString, pos: nat, rest: seq<Entry>)
    requires HasEntry(cat, pos)
    requires ParseEntries(cat, EntryEnd(cat, pos)) == Ok(rest)
    ensures ParseEntries(cat, pos) == Ok([EntryAt(cat, pos)] + rest)
  {
  }

  /** Parses a catalogue payload. A track count below 2 asks for a negative
      FAT length, which reads the rest of the payload, so the entry list then
      finds no bytes and the catalogue is truncated. */
  function ParseDirectory(cat: ByteString): (r: Result<Directory, Fatal>)
    ensures r.Err? ==> r.error == TruncatedCatalogue
    ensures r.Ok? ==> |cat| >= CatHeaderSize && r.value.tracks == cat[0] && r.value.block == Le16(cat[1], cat[2])
    ensures r.Ok? ==> && r.value.tracks >= CatTracks
                      && CatHeaderSize + r.value.tracks - CatTracks <= |cat|
                      && r.value.fat == cat[CatHeaderSize..CatHeaderSize + r.value.tracks - CatTracks]
    ensures r.Ok? ==> forall k :: 0 <= k < |r.value.entries| ==> Fresh(r.value.entries[k])
  {
    if |cat| < CatHeaderSize then Err(TruncatedCatalogue)
    else
      var tracks := cat[0];
      var fat := ReadAt(cat, CatHeaderSize, tracks - CatTracks);
      var entries :- ParseEntries(cat, CatHeaderSize + |fat|);
      Ok(Directory(tracks, Le16(cat[1], cat[2]), fat, entries))
  }

  // ---------------------------------------------------------------------
  // Writing a catalogue

  /** A directory the parser can produce: FAT of `tracks - 2` bytes, a
      16-bit block size and fresh entries. */
  predicate WellFormed(d: Directory) {
    && d.tracks >= CatTracks
    && |d.fat| == d.tracks - CatTracks
    && d.block < 0x1_0000
    && forall k :: 0 <= k < |d.entries| ==> Fresh(d.entries[k])
  }

  function EncodeEntry(e: Entry): (b: ByteString)
    requires Fresh(e)
    ensures |b| == 1 + |e.name| + DetailsSize
  {
    [|e.name|] + e.name + Le16Bytes(e.size) + Le16Bytes(e.kind)
  }

  /** The entry list followed by its zero terminator. */
  function EncodeEntries(es: seq<Entry>): (b: ByteString)
    requires forall k :: 0 <= k < |es| ==> Fresh(es[k])
    ensures |b| > 0
  {
    if |es| == 0 then [0] else EncodeEntry(es[0]) + EncodeEntries(es[1..])
  }

  function EncodeDirectory(d: Directory): ByteString
    requires WellFormed(d)
  {
    [d.tracks] + Le16Bytes(d.block) + d.fat + EncodeEntries(d.entries)
  }

  /** Parsing an encoded entry list returns it, whatever precedes or
      follows it in the payload. */
  lemma {:induction false} ParseEncodedEntries(cat: ByteString, pos: nat, es: seq<Entry>)
    requires forall k :: 0 <= k < |es| ==> Fresh(es[k])
    requires pos + |EncodeEntries(es)| <= |cat| && cat[pos..pos + |EncodeEntries(es)|] == EncodeEntries(es)
    ensures ParseEntries(cat, pos) == Ok(es)
    decreases |es|
  {
    if |es| == 0 {
      assert cat[pos] == EncodeEntries(es)[0];
    } else {
      var e := es[0];
      var q := pos + |EncodeEntry(e)|;
      EncodedListParts(cat, pos, es);
      EncodedEntryReads(cat, pos, e);
      ParseEncodedEntries(cat, q, es[1..]);
      assert EntryEnd(cat, pos) == q;
      ParseEntriesStep(cat, pos, es[1..]);
      assert es == [e] + es[1..];
    }
  }

  /** Where a nonempty encoded list lies, its first entry's encoding lies,
      followed by the encoding of the others. */
  lemma EncodedListParts(cat: ByteString, pos: nat, es: seq<Entry>)
    requires |es| > 0 && forall k :: 0 <= k < |es| ==> Fresh(es[k])
    requires pos + |EncodeEntries(es)| <= |cat| && cat[pos..pos + |EncodeEntries(es)|] == EncodeEntries(es)
    ensures var q := pos + |EncodeEntry(es[0])|;
            && cat[pos..q] == EncodeEntry(es[0])
            && q + |EncodeEntries(es[1..])| <= |cat|
            && cat[q..q + |EncodeEntries(es[1..])|] == EncodeEntries(es[1..])
  {
    var enc := EncodeEntries(es);
    var x := EncodeEntry(es[0]);
    var y := EncodeEntries(es[1..]);
    var q := pos + |x|;
    assert enc == x + y;
    assert cat[pos..q] == enc[..|x|] == x;
    assert cat[q..q + |y|] == enc[|x|..] == y;
  }

  /** An encoded entry reads back as itself from where it was written. */
  lemma EncodedEntryReads(cat: ByteString, pos: nat, e: Entry)
    requires Fresh(e)
    requires pos + |EncodeEntry(e)| <= |cat| && cat[pos..pos + |EncodeEntry(e)|] == EncodeEntry(e)
    ensures HasEntry(cat, pos)
    ensures EntryEnd(cat, pos) == pos + |EncodeEntry(e)|
    ensures EntryAt(cat, pos) == e
  {
    var enc := EncodeEntry(e);
    var n := |e.name|;
    var sz := Le16Bytes(e.size);
    var kd := Le16Bytes(e.kind);
    assert enc == [n] + e.name + sz + kd;
    forall i | 0 <= i < |enc| ensures cat[pos + i] == enc[i] {
      assert cat[pos..pos + |enc|][i] == cat[pos + i];
    }
    assert cat[pos] == enc[0] == n;
    assert cat[pos + 1..pos + 1 + n] == e.name by {
      forall i | 0 <= i < n ensures cat[pos + 1..pos + 1 + n][i] == e.name[i] {
        assert cat[pos + 1 + i] == enc[1 + i];
      }
    }
    assert cat[pos + 1 + n] == enc[1 + n] == sz[0];
    assert cat[pos + 2 + n] == enc[2 + n] == sz[1];
    assert cat[pos + 3 + n] == enc[3 + n] == kd[0];
    assert cat[pos + 4 + n] == enc[4 + n] == kd[1];
  }

  /** Round trip: a well-formed directory, encoded and followed by any
      bytes, parses back to itself. */
  lemma ParseEncodedDirectory(d: Directory, tail: ByteString)
    requires WellFormed(d)
    ensures ParseDirectory(EncodeDirectory(d) + tail) == Ok(d)
  {
    var cat := EncodeDirectory(d) + tail;
    EncodedDirectoryParts(d, tail);
    ParseEncodedEntries(cat, CatHeaderSize + |d.fat|, d.entries);
    ParseDirectoryStep(cat, d.entries);
  }

  /** Where each part of an encoded directory lies in the payload. */
  lemma EncodedDirectoryParts(d: Directory, tail: ByteString)
    requires WellFormed(d)
    ensures var cat := EncodeDirectory(d) + tail;
            var pos := CatHeaderSize + |d.fat|;
            var enc := EncodeEntries(d.entries);
            && pos + |enc| <= |cat|
            && cat[0] == d.tracks && Le16(cat[1], cat[2]) == d.block
            && cat[CatHeaderSize..pos] == d.fat
            && cat[pos..pos + |enc|] == enc
  {
    var cat := EncodeDirectory(d) + tail;
    var b := Le16Bytes(d.block);
    var pos := CatHeaderSize + |d.fat|;
    var enc := EncodeEntries(d.entries);
    assert cat[1] == b[0] && cat[2] == b[1];
    assert cat[CatHeaderSize..pos] == d.fat;
    assert cat[pos..pos + |enc|] == enc;
  }

  /** One step of the directory parser over a complete header and FAT. */
  lemma ParseDirectoryStep(cat: ByteString, entries: seq<Entry>)
    requires CatHeaderSize <= |cat| && cat[0] >= CatTracks && CatHeaderSize + cat[0] - CatTracks <= |cat|
    requires ParseEntries(cat, CatHeaderSize + cat[0] - CatTracks) == Ok(entries)
    ensures ParseDirectory(cat)
            == Ok(Directory(cat[0], Le16(cat[1], cat[2]), cat[CatHeaderSize..CatHeaderSize + cat[0] - CatTracks], entries))
  {
    assert |ReadAt(cat, CatHeaderSize, cat[0] - CatTracks)| == cat[0] - CatTracks;
  }

  /** The parser consumes an encoded entry list: whatever it returns is
      exactly what the bytes from `pos` on begin with. */
  lemma {:induction false} ParsedEntriesAreEncoded(cat: ByteString, pos: nat)
    requires ParseEntries(cat, pos).Ok?
    decreases |cat| - pos
    ensures pos + |EncodeEntries(ParseEntries(cat, pos).value)| <= |cat|
    ensures cat[pos..pos + |EncodeEntries(ParseEntries(cat, pos).value)|]
            == EncodeEntries(ParseEntries(cat, pos).value)
  {
    var es := ParseEntries(cat, pos).value;
    if cat[pos] != 0 {
      var q := EntryEnd(cat, pos);
      var e := EntryAt(cat, pos);
      var tail := ParseEntries(cat, q).value;
      ParseEntriesStep(cat, pos, tail);
      assert es == [e] + tail;
      ParsedEntriesAreEncoded(cat, q);
      var rest := EncodeEntries(tail);
      assert es[0] == e && es[1..] == tail;
      assert EncodeEntries(es) == EncodeEntry(e) + rest;
      EntryIsEncoded(cat, pos);
      JoinSlices(cat, pos, q, EncodeEntry(e), rest);
    }
  }

  /** One complete entry record is the encoding of the entry read from it. */
  lemma EntryIsEncoded(cat: ByteString, pos: nat)
    requires HasEntry(cat, pos)
    ensures cat[pos..EntryEnd(cat, pos)] == EncodeEntry(EntryAt(cat, pos))
  {
    var p := pos + 1 + cat[pos];
    var q := p + DetailsSize;
    assert cat[pos..q] == [cat[pos]] + cat[pos + 1..p] + cat[p..p + 2] + cat[p + 2..q];
  }

  /** The converse round trip: a payload that parses begins with the
      encoding of what it parsed to, and anything after the terminator is
      ignored. */
  lemma ParsedDirectoryIsEncoded(cat: ByteString)
    requires ParseDirectory(cat).Ok?
    ensures WellFormed(ParseDirectory(cat).value)
    ensures |EncodeDirectory(ParseDirectory(cat).value)| <= |cat|
    ensures cat[..|EncodeDirectory(ParseDirectory(cat).value)|] == EncodeDirectory(ParseDirectory(cat).value)
  {
    var d := ParseDirectory(cat).value;
    var pos := CatHeaderSize + |d.fat|;
    ParsedEntriesAreEncoded(cat, pos);
    var enc := EncodeEntries(d.entries);
    assert d.entries == ParseEntries(cat, pos).value;
    HeaderIsEncoded(cat, |d.fat|);
    JoinSlices(cat, 0, pos, cat[..pos], enc);
    assert cat[0..pos + |enc|] == cat[..pos + |enc|];
  }

  /** The catalogue header and a FAT of `n` bytes are the encoding of the
      track count, block size and FAT read from them. */
  lemma HeaderIsEncoded(cat: ByteString, n: nat)
    requires CatHeaderSize + n <= |cat|
    ensures cat[..CatHeaderSize + n]
            == [cat[0]] + Le16Bytes(Le16(cat[1], cat[2])) + cat[CatHeaderSize..CatHeaderSize + n]
  {
    assert Le16Bytes(Le16(cat[1], cat[2])) == [cat[1], cat[2]];
    assert cat[..CatHeaderSize + n] == [cat[0], cat[1], cat[2]] + cat[CatHeaderSize..CatHeaderSize + n];
  }
}
