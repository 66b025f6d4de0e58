/** The track reader: locating a cylinder's record in the image, checking its
    status flags and length, stripping the low-level framing up to the first
    0xFF-run-then-0x2A marker, and verifying the trailing additive checksum. */
module Track {
  import opened Bytes
  import opened Results
  import opened Errors

  /** Size of the image header that precedes the first track record. */
  const ImageHeaderSize := 8
  /** Size of a track record header: status flags, then a 16-bit length. */
  const TrackHeaderSize := 3
  const Padding: byte := 0xFF
  const Marker: byte := 0x2A

  /** What reading one track yields. `HeaderCut` is the image ending before
      the three header bytes: the header unpack then fails with an error that
      is not a decode error, so no caller recovers from it. */
  datatype TrackRead = Good(data: ByteString) | Bad(error: DecodeError) | HeaderCut

  /** Byte offset of a cylinder's track record; records follow the image
      header at a stride of `tblock` bytes. */
  function TrackOffset(tblock: nat, cyl: nat): nat {
    ImageHeaderSize + cyl * tblock
  }

  predicate HasTrackHeader(img: ByteString, tblock: nat, cyl: nat) {
    TrackOffset(tblock, cyl) + TrackHeaderSize <= |img|
  }

  function Flags(img: ByteString, tblock: nat, cyl: nat): byte
    requires HasTrackHeader(img, tblock, cyl)
  {
    img[TrackOffset(tblock, cyl)]
  }

  function DataLength(img: ByteString, tblock: nat, cyl: nat): nat
    requires HasTrackHeader(img, tblock, cyl)
  {
    var off := TrackOffset(tblock, cyl);
    Le16(img[off + 1], img[off + 2])
  }

  /** The payload bytes that follow the record header: the declared length,
      or fewer when the image ends first. */
  function RawData(img: ByteString, tblock: nat, cyl: nat): ByteString
    requires HasTrackHeader(img, tblock, cyl)
  {
    ReadAt(img, TrackOffset(tblock, cyl) + TrackHeaderSize, DataLength(img, tblock, cyl))
  }

  // ---------------------------------------------------------------------
  // Framing marker

  /** A padding byte directly followed by the marker byte starts at `k`. */
  predicate MarkerAt(data: ByteString, k: nat)
    requires k + 1 < |data|
  {
    data[k] == Padding && data[k + 1] == Marker
  }

  /** The scan for the framing marker from position `from`: one past the
      first 0x2A that directly follows a 0xFF, if there is one. */
  function ScanMarker(data: ByteString, from: nat): (e: Option<nat>)
    decreases |data| - from
    ensures e.Some? ==> from + 2 <= e.value <= |data| && MarkerAt(data, e.value - 2)
    ensures e.Some? ==> forall k :: from <= k < e.value - 2 ==> !MarkerAt(data, k)
    ensures e.None? ==> forall k :: from <= k && k + 1 < |data| ==> !MarkerAt(data, k)
  {
    if from + 1 >= |data| then None
    else if MarkerAt(data, from) then Some(from + 2)
    else ScanMarker(data, from + 1)
  }

  /** `data[i..e]` matches the pattern `\xff+\x2a`: one or more 0xFF bytes,
      then 0x2A. */
  ghost predicate PatternAt(data: ByteString, i: nat, e: nat) {
    && i + 2 <= e <= |data|
    && data[e - 1] == Marker
    && forall k :: i <= k < e - 1 ==> data[k] == Padding
  }

  /** `data[i..e]` is the match a leftmost-first regular-expression search
      for `\xff+\x2a` reports: no match starts before `i`. */
  ghost predicate SearchMatch(data: ByteString, i: nat, e: nat) {
    && PatternAt(data, i, e)
    && forall i': nat, e': nat :: PatternAt(data, i', e') ==> i <= i'
  }

  /** The first index of the run of padding bytes that ends at `p`. */
  function RunStart(data: ByteString, p: nat): (i: nat)
    requires p < |data| && data[p] == Padding
    decreases p
    ensures i <= p
    ensures forall k :: i <= k <= p ==> data[k] == Padding
    ensures i == 0 || data[i - 1] != Padding
  {
    if p > 0 && data[p - 1] == Padding then RunStart(data, p - 1) else p
  }

  /** A pattern match ends one past a marker that follows a padding byte. */
  lemma PatternEndsAtMarker(data: ByteString, i: nat, e: nat)
    requires PatternAt(data, i, e)
    ensures MarkerAt(data, e - 2)
  {
  }

  /** Scanning for the first padding-then-marker pair finds exactly the match
      of a leftmost regular-expression search for `\xff+\x2a`, and reports
      none exactly when the pattern occurs nowhere. */
  lemma ScanIsPatternSearch(data: ByteString)
    ensures ScanMarker(data, 0).None? <==> forall i: nat, e: nat :: !PatternAt(data, i, e)
    ensures ScanMarker(data, 0).Some? ==> exists i :: SearchMatch(data, i, ScanMarker(data, 0).value)
    ensures forall i: nat, e: nat :: SearchMatch(data, i, e) ==> ScanMarker(data, 0) == Some(e)
  {
    var r := ScanMarker(data, 0);
    if r.None? {
      forall i: nat, e: nat | PatternAt(data, i, e) ensures false {
        PatternEndsAtMarker(data, i, e);
      }
    } else {
      var e := r.value;
      var i := RunStart(data, e - 2);
      assert PatternAt(data, i, e);
      forall i': nat, e': nat | PatternAt(data, i', e') ensures i <= i' {
        PatternEndsAtMarker(data, i', e');
      }
      assert SearchMatch(data, i, e);
      forall i': nat, e': nat | SearchMatch(data, i', e') ensures r == Some(e') {
        PatternEndsAtMarker(data, i', e');
      }
    }
  }

  // ---------------------------------------------------------------------
  // Checksum

  /** The last byte is the low 8 bits of the sum of the bytes before it; an
      empty string passes (both sides are zero). */
  predicate ChecksumHolds(s: ByteString) {
    |s| > 0 ==> s[|s| - 1] == Sum(s[..|s| - 1]) % 256
  }

  /** `d` followed by its checksum byte, as a writer frames track data. */
  function Seal(d: ByteString): (s: ByteString)
    ensures |s| == |d| + 1 && s[..|d|] == d
    ensures ChecksumHolds(s)
  {
    d + [Sum(d) % 256]
  }

  /** Verifies the trailing checksum and removes it: the result is the
      input less its last byte, and only a checksum error can occur. */
  function Unseal(s: ByteString): (r: TrackRead)
    ensures r.Good? <==> ChecksumHolds(s)
    ensures r.Good? || r == Bad(BadTrackChecksum)
    ensures r.Good? && |s| > 0 ==> s == r.data + [s[|s| - 1]]
    ensures r.Good? && |s| == 0 ==> r.data == []
  {
    if |s| == 0 then Good([])
    else if s[|s| - 1] == Sum(s[..|s| - 1]) % 256 then Good(s[..|s| - 1])
    else Bad(BadTrackChecksum)
  }

  /** Checksum removal inverts `Seal`: it yields `d` exactly for `d` sealed,
      and empty data for an empty string; every other input is a checksum
      error. */
  lemma UnsealInvertsSeal(s: ByteString, d: ByteString)
    ensures Unseal(s) == Good(d) <==> s == Seal(d) || (s == [] && d == [])
    ensures Unseal(s).Good? || Unseal(s) == Bad(BadTrackChecksum)
    ensures Unseal(s).Good? <==> ChecksumHolds(s)
  {
    if s == Seal(d) {
      assert s[..|s| - 1] == d;
    }
  }

  // ---------------------------------------------------------------------
  // Reading a track

  /** Reads the track of cylinder `cyl`: header at `8 + cyl * tblock`, then
      the flag, length, marker and checksum tests in that order. Any nonzero
      flags byte counts as corrupt, since extract.py tests `flags and 1` for
      truth rather than bit 0. */
  function ReadTrack(img: ByteString, tblock: nat, cyl: nat): (r: TrackRead)
    ensures r.HeaderCut? <==> !HasTrackHeader(img, tblock, cyl)
    ensures r.Good? ==> Flags(img, tblock, cyl) == 0 && DataLength(img, tblock, cyl) != 0
    ensures r.Good? && r.data != [] ==>
              var raw := RawData(img, tblock, cyl);
              var start := |raw| - 1 - |r.data|;
              && 2 <= start && MarkerAt(raw, start - 2)
              && raw[start..|raw| - 1] == r.data
              && ChecksumHolds(raw[start..])
  {
    if !HasTrackHeader(img, tblock, cyl) then HeaderCut
    else if Flags(img, tblock, cyl) != 0 then Bad(CorruptTrack)
    else if DataLength(img, tblock, cyl) == 0 then Bad(BlankTrack)
    else
      var raw := RawData(img, tblock, cyl);
      match ScanMarker(raw, 0)
      case None => Bad(MissingTrackHeader)
      case Some(e) => Unseal(raw[e..])
  }

  /** The header is unpacked only when its three bytes exist, and the
      decode checks run in the order flags, length, marker, checksum: each
      error is reported exactly when the earlier checks pass and its own
      fails. */
  lemma ReadTrackErrors(img: ByteString, tblock: nat, cyl: nat)
    ensures ReadTrack(img, tblock, cyl) == HeaderCut <==> !HasTrackHeader(img, tblock, cyl)
    ensures ReadTrack(img, tblock, cyl) == Bad(CorruptTrack) <==>
              HasTrackHeader(img, tblock, cyl) && Flags(img, tblock, cyl) != 0
    ensures ReadTrack(img, tblock, cyl) == Bad(BlankTrack) <==>
              && HasTrackHeader(img, tblock, cyl) && Flags(img, tblock, cyl) == 0
              && DataLength(img, tblock, cyl) == 0
    ensures ReadTrack(img, tblock, cyl) == Bad(MissingTrackHeader) <==>
              && HasTrackHeader(img, tblock, cyl) && Flags(img, tblock, cyl) == 0
              && DataLength(img, tblock, cyl) != 0
              && forall i: nat, e: nat :: !PatternAt(RawData(img, tblock, cyl), i, e)
    ensures ReadTrack(img, tblock, cyl) == Bad(BadTrackChecksum) <==>
              && HasTrackHeader(img, tblock, cyl) && Flags(img, tblock, cyl) == 0
              && DataLength(img, tblock, cyl) != 0
              && exists i: nat, e: nat :: SearchMatch(RawData(img, tblock, cyl), i, e)
                                && !ChecksumHolds(RawData(img, tblock, cyl)[e..])
  {
    if HasTrackHeader(img, tblock, cyl) && Flags(img, tblock, cyl) == 0 && DataLength(img, tblock, cyl) != 0 {
      var raw := RawData(img, tblock, cyl);
      ScanIsPatternSearch(raw);
      match ScanMarker(raw, 0)
      case None =>
      case Some(e) =>
        UnsealInvertsSeal(raw[e..], []);
        var i: nat :| SearchMatch(raw, i, e);
    }
  }

  /** A track decodes to `d` exactly when its header is present with zero
      flags and nonzero length, and `d` is what lies between the end of the
      leftmost `\xff+\x2a` match and a final checksum byte over `d`: nothing
      before the marker survives. A match at the very end yields no data. */
  lemma ReadTrackGood(img: ByteString, tblock: nat, cyl: nat, d: ByteString)
    ensures ReadTrack(img, tblock, cyl) == Good(d) <==>
              && HasTrackHeader(img, tblock, cyl) && Flags(img, tblock, cyl) == 0
              && DataLength(img, tblock, cyl) != 0
              && exists i: nat, e: nat :: && SearchMatch(RawData(img, tblock, cyl), i, e)
                                && (|| RawData(img, tblock, cyl)[e..] == Seal(d)
                                    || (e == |RawData(img, tblock, cyl)| && d == []))
  {
    if HasTrackHeader(img, tblock, cyl) && Flags(img, tblock, cyl) == 0 && DataLength(img, tblock, cyl) != 0 {
      var raw := RawData(img, tblock, cyl);
      ScanIsPatternSearch(raw);
      match ScanMarker(raw, 0)
      case None =>
      case Some(e) =>
        UnsealInvertsSeal(raw[e..], d);
        var i: nat :| SearchMatch(raw, i, e);
    }
  }

  // ---------------------------------------------------------------------
  // Writing a track

  /** A track record as a writer lays it down: zero flags, the payload
      length, a low-level framing gap free of 0x2A bytes, the 0xFF 0x2A
      marker, then `body` (data and checksum byte). */
  function FrameTrack(gap: ByteString, body: ByteString): (rec: ByteString)
    requires |gap| + 2 + |body| < 0x1_0000
    ensures |rec| == TrackHeaderSize + |gap| + 2 + |body|
  {
    [0] + Le16Bytes(|gap| + 2 + |body|) + gap + [Padding, Marker] + body
  }

  /** The image holds `rec` at the record position of cylinder `cyl`. */
  predicate RecordAt(img: ByteString, tblock: nat, cyl: nat, rec: ByteString) {
    && TrackOffset(tblock, cyl) + |rec| <= |img|
    && img[TrackOffset(tblock, cyl)..TrackOffset(tblock, cyl) + |rec|] == rec
  }

  /** Reading a framed record strips exactly the header, the gap and the
      marker, and then only the checksum test remains. */
  lemma {:induction false} ReadFramedTrack(img: ByteString, tblock: nat, cyl: nat, gap: ByteString, body: ByteString)
    requires |gap| + 2 + |body| < 0x1_0000
    requires forall k :: 0 <= k < |gap| ==> gap[k] != Marker
    requires RecordAt(img, tblock, cyl, FrameTrack(gap, body))
    ensures ReadTrack(img, tblock, cyl) == Unseal(body)
  {
    FramedRecordFields(img, tblock, cyl, gap, body);
    var raw := RawData(img, tblock, cyl);
    FramedMarker(gap, body);
    assert raw[|gap| + 2..] == body;
  }

  /** The header fields and payload of a framed record, read back. */
  lemma FramedRecordFields(img: ByteString, tblock: nat, cyl: nat, gap: ByteString, body: ByteString)
    requires |gap| + 2 + |body| < 0x1_0000
    requires RecordAt(img, tblock, cyl, FrameTrack(gap, body))
    ensures HasTrackHeader(img, tblock, cyl) && Flags(img, tblock, cyl) == 0
    ensures DataLength(img, tblock, cyl) == |gap| + 2 + |body|
    ensures RawData(img, tblock, cyl) == gap + [Padding, Marker] + body
  {
    var off := TrackOffset(tblock, cyl);
    var rec := FrameTrack(gap, body);
    assert img[off] == rec[0] && img[off + 1] == rec[1] && img[off + 2] == rec[2];
    var raw := RawData(img, tblock, cyl);
    assert raw == rec[TrackHeaderSize..];
  }

  /** The scan stops right after the marker that follows a gap free of
      marker bytes. */
  lemma FramedMarker(gap: ByteString, body: ByteString)
    requires forall k :: 0 <= k < |gap| ==> gap[k] != Marker
    ensures ScanMarker(gap + [Padding, Marker] + body, 0) == Some(|gap| + 2)
  {
    var raw := gap + [Padding, Marker] + body;
    assert MarkerAt(raw, |gap|);
    forall k | 0 <= k < |gap| ensures !MarkerAt(raw, k) {
      assert raw[k + 1] == if k + 1 < |gap| then gap[k + 1] else Padding;
    }
  }

  /** Round trip: a record framed around sealed data reads back as that data. */
  lemma ReadSealedTrack(img: ByteString, tblock: nat, cyl: nat, gap: ByteString, d: ByteString)
    requires |gap| + 3 + |d| < 0x1_0000
    requires forall k :: 0 <= k < |gap| ==> gap[k] != Marker
    requires RecordAt(img, tblock, cyl, FrameTrack(gap, Seal(d)))
    ensures ReadTrack(img, tblock, cyl) == Good(d)
  {
    ReadFramedTrack(img, tblock, cyl, gap, Seal(d));
    UnsealInvertsSeal(Seal(d), d);
  }

  /** A record whose final byte differs from the checksum of the data
      before it reads as a checksum error. */
  lemma ReadCorruptedChecksum(img: ByteString, tblock: nat, cyl: nat, gap: ByteString, d: ByteString, x: byte)
    requires |gap| + 3 + |d| < 0x1_0000
    requires forall k :: 0 <= k < |gap| ==> gap[k] != Marker
    requires x != Sum(d) % 256
    requires RecordAt(img, tblock, cyl, FrameTrack(gap, d + [x]))
    ensures ReadTrack(img, tblock, cyl) == Bad(BadTrackChecksum)
  {
    ReadFramedTrack(img, tblock, cyl, gap, d + [x]);
    assert (d + [x])[..|d|] == d;
  }
}
