/** File reconstruction: a fold over the file allocation table (FAT) in
    ascending slot order. Slot `idx` describes cylinder `idx + 2`; a nonzero
    byte there is the 1-based number of the file that owns the track. A
    readable track's data is appended to its file; an unreadable one is
    replaced by 0xEE filler and marks the file damaged, and the fold goes on. */
module Reconstruction {
  import opened Bytes
  import opened Results
  import opened Errors
  import opened Track
  import opened Catalogue

  const FillerByte: byte := 0xEE

  /** The track behind FAT slot `idx`, where `read` is the track reader
      applied to the image. */
  function SlotTrack(read: nat -> TrackRead, idx: nat): TrackRead {
    read(idx + CatTracks)
  }

  /** Filler for a failed track: a block, but no more than the file still
      lacks of its declared size, and never a negative amount. */
  function FillerLength(e: Entry, block: nat): nat {
    Max(0, Min(block, e.size - |e.data|))
  }

  /** One owned track's outcome added to its entry. */
  function AppendTrack(e: Entry, t: TrackRead, block: nat): (e': Entry)
    requires !t.HeaderCut?
    ensures e'.name == e.name && e'.size == e.size && e'.kind == e.kind
    ensures |e.data| <= |e'.data| && e'.data[..|e.data|] == e.data
    ensures t.Good? ==> e'.data[|e.data|..] == t.data && e'.damaged == e.damaged
    ensures t.Bad? ==> e'.damaged
    ensures t.Bad? ==> forall i :: |e.data| <= i < |e'.data| ==> e'.data[i] == FillerByte
    ensures t.Bad? ==> |e'.data| == Max(|e.data|, Min(|e.data| + block, e.size))
    ensures t.Bad? ==> |e'.data| - |e.data| <= block
    ensures t.Bad? && |e.data| <= e.size ==> |e'.data| <= e.size
  {
    match t
    case Good(d) => e.(data := e.data + d)
    case Bad(_) => e.(data := e.data + Repeat(FillerByte, FillerLength(e, block)), damaged := true)
  }

  /** Slot `idx` stops the whole extraction: its file number is beyond the
      entry list, or its track header runs past the end of the image. */
  predicate SlotFatal(read: nat -> TrackRead, fat: ByteString, count: nat, idx: nat)
    requires idx < |fat|
  {
    fat[idx] != 0 && (fat[idx] > count || SlotTrack(read, idx).HeaderCut?)
  }

  function SlotError(read: nat -> TrackRead, fat: ByteString, count: nat, idx: nat): Fatal
    requires idx < |fat|
  {
    if fat[idx] > count then NoSuchFile(idx + CatTracks, fat[idx]) else TrackHeaderCut(idx + CatTracks)
  }

  /** Processes FAT slot `idx` holding `fileno`. The entry is looked up
      before its track is read, so a bad file number wins over a cut-off
      track header. */
  function ProcessSlot(read: nat -> TrackRead, block: nat, files: seq<Entry>, idx: nat, fileno: byte)
    : (r: Result<seq<Entry>, Fatal>)
    ensures r.Ok? <==> fileno == 0 || (fileno <= |files| && !SlotTrack(read, idx).HeaderCut?)
    ensures r.Ok? ==> |r.value| == |files|
    ensures r.Ok? ==> forall k :: 0 <= k < |files| && k + 1 != fileno ==> r.value[k] == files[k]
  {
    if fileno == 0 then Ok(files)
    else if fileno > |files| then Err(NoSuchFile(idx + CatTracks, fileno))
    else
      var t := SlotTrack(read, idx);
      if t.HeaderCut? then Err(TrackHeaderCut(idx + CatTracks))
      else Ok(files[fileno - 1 := AppendTrack(files[fileno - 1], t, block)])
  }

  /** The FAT fold, slot 0 first: the entries after every slot is processed,
      or the error of the first slot that cannot be. */
  function Reconstruct(read: nat -> TrackRead, block: nat, fat: ByteString, files: seq<Entry>)
    : (r: Result<seq<Entry>, Fatal>)
    decreases |fat|
    ensures r.Ok? ==> |r.value| == |files|
    ensures r.Ok? <==> forall idx :: 0 <= idx < |fat| ==> !SlotFatal(read, fat, |files|, idx)
  {
    if |fat| == 0 then Ok(files)
    else
      var prefix := fat[..|fat| - 1];
      assert forall j :: 0 <= j < |prefix| ==>
               SlotFatal(read, prefix, |files|, j) == SlotFatal(read, fat, |files|, j);
      var prev :- Reconstruct(read, block, prefix, files);
      var last := |fat| - 1;
      assert ProcessSlot(read, block, prev, last, fat[last]).Ok? <==> !SlotFatal(read, fat, |files|, last);
      ProcessSlot(read, block, prev, last, fat[last])
  }

  /** A failed fold reports the first slot, in ascending order, that cannot
      be processed: failed tracks before it never stop the fold. */
  lemma {:induction false} ReconstructFirstError(read: nat -> TrackRead, block: nat, fat: ByteString, files: seq<Entry>)
    requires Reconstruct(read, block, fat, files).Err?
    decreases |fat|
    ensures exists idx :: && 0 <= idx < |fat| && SlotFatal(read, fat, |files|, idx)
                          && (forall j :: 0 <= j < idx ==> !SlotFatal(read, fat, |files|, j))
                          && Reconstruct(read, block, fat, files).error
                             == SlotError(read, fat, |files|, idx)
  {
    var prefix := fat[..|fat| - 1];
    assert forall j :: 0 <= j < |prefix| ==>
             && SlotFatal(read, prefix, |files|, j) == SlotFatal(read, fat, |files|, j)
             && SlotError(read, prefix, |files|, j) == SlotError(read, fat, |files|, j);
    var last := |fat| - 1;
    if Reconstruct(read, block, prefix, files).Err? {
      ReconstructFirstError(read, block, prefix, files);
      var idx :| && 0 <= idx < |prefix| && SlotFatal(read, prefix, |files|, idx)
                 && (forall j :: 0 <= j < idx ==> !SlotFatal(read, prefix, |files|, j))
                 && Reconstruct(read, block, prefix, files).error
                    == SlotError(read, prefix, |files|, idx);
      assert SlotFatal(read, fat, |files|, idx);
    } else {
      assert SlotFatal(read, fat, |files|, last);
    }
  }

  // ---------------------------------------------------------------------
  // One file at a time

  /** No slot owned by file number `k + 1` has a cut-off track header. */
  predicate OwnedReadable(read: nat -> TrackRead, fat: ByteString, k: nat) {
    forall idx :: 0 <= idx < |fat| && fat[idx] == k + 1 ==> !SlotTrack(read, idx).HeaderCut?
  }

  /** The reference reconstruction of a single entry `k`: only the slots
      holding `k + 1`, in ascending order. */
  function FileFold(read: nat -> TrackRead, block: nat, fat: ByteString, k: nat, e: Entry): (e': Entry)
    requires OwnedReadable(read, fat, k)
    decreases |fat|
    ensures e'.name == e.name && e'.size == e.size && e'.kind == e.kind
  {
    if |fat| == 0 then e
    else
      var prev := FileFold(read, block, fat[..|fat| - 1], k, e);
      if fat[|fat| - 1] == k + 1 then AppendTrack(prev, SlotTrack(read, |fat| - 1), block)
      else prev
  }

  /** Files do not interfere: after the FAT fold, each entry is exactly its
      own single-file reconstruction. Slots of other files, zero slots and
      failed tracks of other files leave it untouched. */
  lemma {:induction false} ReconstructIsPerFile(read: nat -> TrackRead, block: nat, fat: ByteString, files: seq<Entry>)
    requires Reconstruct(read, block, fat, files).Ok?
    decreases |fat|
    ensures forall k :: 0 <= k < |files| ==> OwnedReadable(read, fat, k)
    ensures forall k :: 0 <= k < |files| ==>
              Reconstruct(read, block, fat, files).value[k] == FileFold(read, block, fat, k, files[k])
  {
    if |fat| > 0 {
      var prefix := fat[..|fat| - 1];
      assert forall j :: 0 <= j < |prefix| ==> prefix[j] == fat[j];
      assert forall j :: 0 <= j < |prefix| ==>
               SlotFatal(read, prefix, |files|, j) == SlotFatal(read, fat, |files|, j);
      ReconstructIsPerFile(read, block, prefix, files);
      forall k | 0 <= k < |files| ensures OwnedReadable(read, fat, k) {
        forall idx | 0 <= idx < |fat| && fat[idx] == k + 1 ensures !SlotTrack(read, idx).HeaderCut? {
          assert !SlotFatal(read, fat, |files|, idx);
        }
      }
    }
  }

  /** How many FAT slots file number `k + 1` owns. */
  function OwnedCount(fat: ByteString, k: nat): nat {
    if |fat| == 0 then 0
    else OwnedCount(fat[..|fat| - 1], k) + (if fat[|fat| - 1] == k + 1 then 1 else 0)
  }

  /** The entry's error flag is set exactly when it was set before or at
      least one owned track failed to decode. */
  lemma {:induction false} FileFoldDamaged(read: nat -> TrackRead, block: nat, fat: ByteString, k: nat, e: Entry)
    requires OwnedReadable(read, fat, k)
    decreases |fat|
    ensures FileFold(read, block, fat, k, e).damaged <==>
              e.damaged || exists idx :: 0 <= idx < |fat| && fat[idx] == k + 1 && SlotTrack(read, idx).Bad?
  {
    if |fat| > 0 {
      var prefix := fat[..|fat| - 1];
      assert forall j :: 0 <= j < |prefix| ==> prefix[j] == fat[j];
      FileFoldDamaged(read, block, prefix, k, e);
    }
  }

  /** Every owned track decodes. */
  predicate OwnedGood(read: nat -> TrackRead, fat: ByteString, k: nat) {
    forall idx :: 0 <= idx < |fat| && fat[idx] == k + 1 ==> SlotTrack(read, idx).Good?
  }

  /** The data of the owned tracks, concatenated in ascending cylinder order. */
  function OwnedData(read: nat -> TrackRead, fat: ByteString, k: nat): ByteString
    requires OwnedGood(read, fat, k)
    decreases |fat|
  {
    if |fat| == 0 then []
    else OwnedData(read, fat[..|fat| - 1], k)
         + (if fat[|fat| - 1] == k + 1 then SlotTrack(read, |fat| - 1).data else [])
  }

  /** With every owned track readable, a file's data is what it held before
      followed by its tracks' data in ascending cylinder order, and its error
      flag is unchanged. */
  lemma {:induction false} FileFoldClean(read: nat -> TrackRead, block: nat, fat: ByteString, k: nat, e: Entry)
    requires OwnedGood(read, fat, k)
    decreases |fat|
    ensures OwnedReadable(read, fat, k)
    ensures FileFold(read, block, fat, k, e).data == e.data + OwnedData(read, fat, k)
    ensures FileFold(read, block, fat, k, e).damaged == e.damaged
  {
    if |fat| > 0 {
      var prefix := fat[..|fat| - 1];
      assert forall j :: 0 <= j < |prefix| ==> prefix[j] == fat[j];
      FileFoldClean(read, block, prefix, k, e);
    }
  }

  /** Every owned track fails. */
  predicate OwnedBad(read: nat -> TrackRead, fat: ByteString, k: nat) {
    forall idx :: 0 <= idx < |fat| && fat[idx] == k + 1 ==> SlotTrack(read, idx).Bad?
  }

  lemma MulSucc(n: nat, b: nat)
    ensures (n + 1) * b == n * b + b
  {
  }

  /** One more failed block adds filler up to the declared size. */
  lemma FillerStep(len: int, size: int, block: nat, nb: nat)
    requires 0 <= len <= size
    ensures Min(size - len, nb) + Max(0, Min(block, size - (len + Min(size - len, nb))))
            == Min(size - len, nb + block)
  {
  }

  /** `d` is `prefix` followed by `cap` filler bytes, capped by `size`. */
  predicate FilledTo(d: ByteString, prefix: ByteString, size: nat, cap: nat) {
    && |prefix| <= size
    && |d| == |prefix| + Min(size - |prefix|, cap)
    && d[..|prefix|] == prefix
    && forall i :: |prefix| <= i < |d| ==> d[i] == FillerByte
  }

  /** A failed track extends capped filler by one block. */
  lemma FailedTrackFills(prev: Entry, t: TrackRead, block: nat, prefix: ByteString, n: nat)
    requires t.Bad?
    requires FilledTo(prev.data, prefix, prev.size, n * block)
    ensures FilledTo(AppendTrack(prev, t, block).data, prefix, prev.size, (n + 1) * block)
  {
    var next := AppendTrack(prev, t, block);
    FillerStep(|prefix|, prev.size, block, n * block);
    MulSucc(n, block);
    assert next.data[..|prev.data|] == prev.data;
    assert forall i :: |prefix| <= i < |prev.data| ==> next.data[i] == prev.data[i];
  }

  /** With every owned track failed, a file that held no more than its
      declared size gains filler only: 0xEE bytes, one block per owned
      track, stopping at the declared size. */
  lemma {:induction false} FileFoldAllFailed(read: nat -> TrackRead, block: nat, fat: ByteString, k: nat, e: Entry)
    requires OwnedBad(read, fat, k)
    requires |e.data| <= e.size
    decreases |fat|
    ensures OwnedReadable(read, fat, k)
    ensures var d := FileFold(read, block, fat, k, e).data;
            && |d| == |e.data| + Min(e.size - |e.data|, OwnedCount(fat, k) * block)
            && d[..|e.data|] == e.data
            && forall i :: |e.data| <= i < |d| ==> d[i] == FillerByte
  {
    if |fat| > 0 {
      var last := |fat| - 1;
      var prefix := fat[..last];
      assert OwnedBad(read, prefix, k) by {
        assert forall j :: 0 <= j < |prefix| ==> prefix[j] == fat[j];
      }
      FileFoldAllFailed(read, block, prefix, k, e);
      var prev := FileFold(read, block, prefix, k, e);
      var n := OwnedCount(prefix, k);
      assert FilledTo(prev.data, e.data, e.size, n * block);
      if fat[last] == k + 1 {
        FailedTrackFills(prev, SlotTrack(read, last), block, e.data, n);
        assert FileFold(read, block, fat, k, e) == AppendTrack(prev, SlotTrack(read, last), block);
        assert OwnedCount(fat, k) == n + 1;
      } else {
        assert FileFold(read, block, fat, k, e) == prev;
        assert OwnedCount(fat, k) == n;
      }
    }
  }

  /** The fold reads only the tracks of the FAT's own slots: two track
      readers that agree on those give the same result. */
  lemma {:induction false} ReconstructReadsOnlySlots(read: nat -> TrackRead, read': nat -> TrackRead, block: nat, fat: ByteString, files: seq<Entry>)
    requires forall idx :: 0 <= idx < |fat| ==> SlotTrack(read, idx) == SlotTrack(read', idx)
    decreases |fat|
    ensures Reconstruct(read, block, fat, files) == Reconstruct(read', block, fat, files)
  {
    if |fat| > 0 {
      var prefix := fat[..|fat| - 1];
      ReconstructReadsOnlySlots(read, read', block, prefix, files);
      assert SlotTrack(read, |fat| - 1) == SlotTrack(read', |fat| - 1);
    }
  }

  /** File number `k + 1` owns FAT slot 0 and no other. */
  predicate OwnsOnlyFirst(fat: ByteString, k: nat) {
    |fat| > 0 && fat[0] == k + 1 && forall j :: 1 <= j < |fat| ==> fat[j] != k + 1
  }

  /** A file owning a single slot is that one track's outcome added to it. */
  lemma {:induction false} FileFoldSingleSlot(read: nat -> TrackRead, block: nat, fat: ByteString, k: nat, e: Entry)
    requires OwnsOnlyFirst(fat, k)
    requires !SlotTrack(read, 0).HeaderCut?
    decreases |fat|
    ensures OwnedReadable(read, fat, k)
    ensures FileFold(read, block, fat, k, e) == AppendTrack(e, SlotTrack(read, 0), block)
  {
    if |fat| > 1 {
      var prefix := fat[..|fat| - 1];
      assert OwnsOnlyFirst(prefix, k);
      FileFoldSingleSlot(read, block, prefix, k, e);
    } else {
      assert fat[..0] == [];
    }
  }

  /** With one entry owning slot 0 and every other slot free, the fold is
      that one track's outcome added to the entry. */
  lemma ReconstructSingleFile(read: nat -> TrackRead, block: nat, fat: ByteString, e: Entry)
    requires OwnsOnlyFirst(fat, 0) && forall j :: 1 <= j < |fat| ==> fat[j] == 0
    requires !SlotTrack(read, 0).HeaderCut?
    ensures Reconstruct(read, block, fat, [e]) == Ok([AppendTrack(e, SlotTrack(read, 0), block)])
  {
    assert forall idx :: 0 <= idx < |fat| ==> !SlotFatal(read, fat, 1, idx);
    FileFoldSingleSlot(read, block, fat, 0, e);
    ReconstructIsPerFile(read, block, fat, [e]);
    var r := Reconstruct(read, block, fat, [e]).value;
    assert r == [r[0]];
  }
}
