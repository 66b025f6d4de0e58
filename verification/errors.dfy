/** The two kinds of failure of the extractor. A `DecodeError` is a track
    that could not be read; it is recoverable (backup catalogue, filler). A
    `Fatal` stops the whole extraction and no file is produced. */
module Errors {

  /** Why a single track failed to decode, checked in this order. */
  datatype DecodeError =
    | CorruptTrack        // nonzero status flags
    | BlankTrack          // declared payload length zero
    | MissingTrackHeader  // no 0xFF run followed by 0x2A in the payload
    | BadTrackChecksum    // last byte is not the mod-256 sum of the others

  datatype Fatal =
    | ShortImageHeader        // fewer than the 8 bytes of the image header
    | NotDiskImage            // the signature is not "H2G2"
    | NoCatalogue             // neither catalogue copy decodes
    | TrackHeaderCut(cyl: nat)  // a track's 3-byte header runs past the image end
    | TruncatedCatalogue      // the catalogue payload ends inside a field
    | NoSuchFile(cyl: nat, fileno: nat)  // the FAT names a file the list lacks
}
