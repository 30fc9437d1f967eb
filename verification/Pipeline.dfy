/** An upload from the request body to the object store, and a download back. */
module Pipeline {
  import opened Wrappers
  import opened Bytes
  import opened IoErrors
  import opened ChunkFormat
  import opened Streams
  import opened Decryption
  import opened Multipart

  /** The sizes the storage service runs with: 2 MiB, 64 MiB and 512 bytes. The properties hold for
      all of them. */
  datatype Sizes = Sizes(chunk: nat, part: nat, sniff: nat) {
    predicate Valid() {
      1 <= chunk < TWO_TO_THE_32 && 1 <= part
    }
  }

  /** Encryption as configured: the cipher and the base IV drawn for this upload, or none. */
  datatype Encryption = Plain | Chunked(aead: Aead, baseIV: bytes) {
    predicate Valid() {
      Chunked? ==> |baseIV| == 12
    }

    /** The object that represents a file. */
    function ObjectOf(chunkSize: nat, file: bytes): bytes
      requires Valid() && 1 <= chunkSize < TWO_TO_THE_32
    {
      match this
      case Plain => file
      case Chunked(aead, baseIV) => EncryptedObject(aead, baseIV, chunkSize, file)
    }

    /** The IV column of the file record. */
    function Marker(): Option<bytes>
      requires Valid()
    {
      match this
      case Plain => None
      case Chunked(_, baseIV) => Some(MakeChunkedIV(baseIV))
    }
  }

  /** The error the file's stream ends with once the size limit has its say. */
  function StreamFate(fileSize: nat, limit: nat, ending: IoError): IoError {
    if limit > 0 && fileSize > limit then UploadTooLarge else ending
  }

  /** Reads the first bytes of a file. */
  method Sniff(src: Reader, sniffSize: nat) returns (sniffed: bytes)
    requires src.Valid() && src.State().exact
    modifies src.Footprint()
    ensures src.Valid() && src.State().fate == old(src.State().fate)
    ensures sniffed + src.State().pending == old(src.State().pending)
  {
    ghost var v := src.State();
    var sniffBuf := new byte[sniffSize];
    assert src.Valid() && src.State() == v;
    var sniffN, _ := ReadFull(src, sniffBuf);
    sniffed := sniffBuf[..sniffN];
    assert src.State().pending == v.pending[sniffN..];
    assert v.pending == sniffed + v.pending[sniffN..];
  }

  /** The first half of Upload: tracker, sniff, and the sniffed bytes put back in front. */
  method OpenSource(filePart: Body, limit: nat, sniffSize: nat) returns (tracker: UploadTracker, fullSrc: MultiReader)
    requires filePart.Valid()
    modifies filePart
    ensures fresh(tracker) && tracker.r == filePart && tracker.limit == limit
    ensures tracker.total == |old(filePart.data)|
    ensures fresh(fullSrc) && fullSrc.second == OfTracker(tracker) && fresh(fullSrc.Repr - {filePart})
    ensures fullSrc in fullSrc.Repr && fullSrc.Valid()
    ensures fullSrc.State().pending == old(filePart.data)
    ensures fullSrc.State().fate == StreamFate(|old(filePart.data)|, limit, filePart.ending)
  {
    tracker := new UploadTracker(filePart, limit);
    var sniffed := Sniff(OfTracker(tracker), sniffSize);
    fullSrc := Prepend(sniffed, OfTracker(tracker));
  }

  /** io.MultiReader(bytes.NewReader(prefix), rest). */
  method Prepend(prefix: bytes, rest: Reader) returns (fullSrc: MultiReader)
    requires rest.Valid()
    ensures fresh(fullSrc) && fullSrc.second == rest && fresh(fullSrc.Repr - rest.Footprint())
    ensures fullSrc in fullSrc.Repr && fullSrc.Valid() && rest.Valid()
    ensures fullSrc.State().pending == prefix + rest.State().pending && fullSrc.State().fate == rest.State().fate
  {
    var reader := new Body(prefix, [], EOF);
    fullSrc := new MultiReader(reader, rest);
  }

  /** A drained encryptor means a drained source. */
  lemma SourceOf(enc: StreamEncryptor, src: Reader)
    requires OfEncryptor(enc).Valid() && enc.src == src
    ensures src.Valid()
    ensures OfEncryptor(enc).State().pending == [] ==> src.State().pending == []
    ensures OfEncryptor(enc).State().tripped == src.State().tripped
  {
    assert OfEncryptor(enc).State() == enc.State();
  }

  /** Uploading the encryption of a stream. */
  method SendEncrypted(store: ObjectStore, key: Key, src: Reader, aead: Aead, baseIV: bytes, sizes: Sizes)
      returns (err: UploadError)
    requires src.Valid() && store !in src.Footprint() && |baseIV| == 12 && sizes.Valid()
    requires store.minPartSize <= sizes.part
    modifies store, src.Footprint()
    ensures src.Valid()
    ensures Delivered(EncryptedObject(aead, baseIV, sizes.chunk, old(src.State().pending)), old(src.State().fate),
                      sizes.part, key, store.maxParts, old(store.Reliable()),
                      old(store.objects), store.objects, src.State().pending, src.State().tripped, err)
  {
    ghost var v := src.State();
    var enc := new StreamEncryptor(src, aead, baseIV, sizes.chunk);
    EncryptIsFrames(aead, baseIV, sizes.chunk, 0, v.pending);
    var data := OfEncryptor(enc);
    assert data.Valid() && data.State() == enc.State();
    assert data.State().pending == EncryptedObject(aead, baseIV, sizes.chunk, v.pending);
    ghost var up;
    err, up := MultipartUpload(store, key, data, sizes.part);
    SourceOf(enc, src);
  }

  /** Uploading a stream, encrypted or not. */
  method Send(store: ObjectStore, key: Key, src: Reader, encryption: Encryption, sizes: Sizes)
      returns (err: UploadError)
    requires src.Valid() && store !in src.Footprint() && encryption.Valid() && sizes.Valid()
    requires store.minPartSize <= sizes.part
    modifies store, src.Footprint()
    ensures src.Valid()
    ensures Delivered(encryption.ObjectOf(sizes.chunk, old(src.State().pending)), old(src.State().fate),
                      sizes.part, key, store.maxParts, old(store.Reliable()),
                      old(store.objects), store.objects, src.State().pending, src.State().tripped, err)
  {
    match encryption
    case Plain =>
      ghost var up;
      err, up := MultipartUpload(store, key, src, sizes.part);
    case Chunked(aead, baseIV) =>
      err := SendEncrypted(store, key, src, aead, baseIV, sizes);
  }

  /** A drained multi-reader means the tracker has counted the whole file. */
  lemma TrackerOf(multi: MultiReader, tracker: UploadTracker)
    requires multi in multi.Repr && multi.Valid() && multi.second == OfTracker(tracker)
    ensures OfMulti(multi).Valid() && OfTracker(tracker).Valid() && tracker.Valid()
    ensures OfMulti(multi).State().pending == [] ==> tracker.n == tracker.total
    ensures OfMulti(multi).State().tripped ==> tracker.exceeded
  {
    assert OfMulti(multi).State() == multi.State();
    assert multi.second.State() == tracker.State();
  }

  /** Upload, from the request body to the object store. */
  method StreamUpload(store: ObjectStore, key: Key, filePart: Body, limit: nat, encryption: Encryption, sizes: Sizes)
      returns (err: UploadError, plaintextSize: nat, exceeded: bool)
    requires filePart.Valid() && encryption.Valid() && sizes.Valid()
    requires store.minPartSize <= sizes.part
    modifies store, filePart
    ensures
      var file := old(filePart.data);
      var stored := encryption.ObjectOf(sizes.chunk, file);
      var fate := StreamFate(|file|, limit, filePart.ending);
      var fits := |Chunks(stored, sizes.part)| <= store.maxParts;
      && AllOrNothing(old(store.objects), key, stored, err == Uploaded, store.objects)
      && (err == Uploaded ==> IsEnd(fate) && fits && plaintextSize == |file| && !exceeded)
      && (!IsEnd(fate) ==> store.objects == old(store.objects))
      && (exceeded ==> limit > 0 && |file| > limit)
      && (old(store.Reliable()) && fits ==>
            err == (if IsEnd(fate) then Uploaded else ReadFailed(fate)) && (exceeded <==> fate == UploadTooLarge))
  {
    var tracker, fullSrc := OpenSource(filePart, limit, sizes.sniff);
    var src := OfMulti(fullSrc);
    assert src.Valid() && src.State() == fullSrc.State();
    err := Send(store, key, src, encryption, sizes);
    TrackerOf(fullSrc, tracker);
    return err, tracker.n, tracker.exceeded;
  }

  /** A source that breaks off with io.ErrUnexpectedEOF, as a multipart part on a closed connection
      does: with a working store what has arrived is stored, and reported, as a complete upload. */
  method UploadTruncated(key: Key, arrived: bytes, schedule: seq<Grant>, sizes: Sizes)
      returns (store: ObjectStore, err: UploadError, plaintextSize: nat)
    requires sizes.Valid()
    ensures err == Uploaded && plaintextSize == |arrived|
    ensures key in store.objects && store.objects[key] == arrived
  {
    store := new ObjectStore(_ => Done, 0, |Chunks(arrived, sizes.part)|);
    var filePart := new Body(arrived, schedule, UnexpectedEOF);
    var exceeded;
    err, plaintextSize, exceeded := StreamUpload(store, key, filePart, 0, Plain, sizes);
  }

  // ---------- Download ----------

  datatype DownloadReply =
    | NoObject
    | LegacyFormat  // a single AES-GCM block, see decryptAESGCM; not modelled
    | Streamed(body: bytes, err: IoError)

  /** Reads a stream to its first error with buffers of arbitrary positive sizes. */
  method ReadAll(r: Reader, rooms: nat -> nat) returns (out: bytes, err: IoError)
    requires r.Valid()
    modifies r.Footprint()
    ensures out <= old(r.State().pending) && err == old(r.State().fate)
    ensures IsEnd(err) ==> out == old(r.State().pending)
  {
    ghost var v0 := r.State();
    out, err := [], NoError;
    var i := 0;
    while err == NoError
      invariant r.Valid() && Reading(v0, out, err, false, r.State())
      decreases err == NoError, r.State().rank
    {
      ghost var v := r.State();
      var chunk;
      chunk, err := r.Read(rooms(i) + 1);
      ReadingAny(v0, out, v, rooms(i) + 1, chunk, err, r.State());
      out := out + chunk;
      i := i + 1;
    }
  }

  lemma ReadingAny(v0: View, got: bytes, v: View, room: nat, chunk: bytes, err: IoError, v': View)
    requires Reading(v0, got, NoError, false, v) && ReadStep(v, room, chunk, err, v')
    ensures Reading(v0, got + chunk, err, false, v')
    ensures IsEnd(err) ==> got + chunk == v0.pending
  {
    assert v0.pending == got + v.pending;
  }

  /** Download: the part of the object that arrives, in pieces, with the error that ends it (EOF if
      all of it arrives, io.ErrUnexpectedEOF for a connection cut before that, or another failure),
      decrypted on the way if the file record carries the chunk marker. What the decryptor takes for
      the end is the end of the reply: a part of an object that ends in either of the two errors is
      read as if it were the whole. */
  method Download(store: ObjectStore, key: Key, marker: Option<bytes>, aead: Option<Aead>, arrived: nat,
                  schedule: seq<Grant>, ending: IoError, rooms: nat -> nat) returns (reply: DownloadReply)
    requires ending != NoError && ending != UploadTooLarge
    requires key in store.objects ==> arrived <= |store.objects[key]|
    ensures key !in store.objects <==> reply == NoObject
    ensures reply == LegacyFormat <==>
      && key in store.objects && marker.Some? && |marker.value| > 0 && aead.Some?
      && !(|marker.value| == 20 && marker.value[..8] == CHUNK_MAGIC)
    ensures key in store.objects && (marker.None? || marker.value == [] || aead.None?) ==>
      && reply.Streamed? && reply.err == ending && reply.body <= store.objects[key][..arrived]
      && (IsEnd(ending) ==> reply.body == store.objects[key][..arrived])
    ensures key in store.objects && marker.Some? && IsChunkedEncryption(marker.value) && aead.Some? ==>
      var d := Decode(aead.value, store.objects[key][..arrived]);
      && reply.Streamed? && reply.body <= d.plain
      && (if IsEnd(ending) then reply == Streamed(d.plain, d.err) else reply.err != EOF)
  {
    if key !in store.objects {
      return NoObject;
    }
    var rc := new Body(store.objects[key][..arrived], schedule, ending);
    var out, err;
    if marker.Some? && |marker.value| > 0 && aead.Some? {
      if !IsChunkedEncryption(marker.value) {
        return LegacyFormat;
      }
      var dec := new StreamDecryptor(OfBody(rc), aead.value);
      out, err := Drain(dec, rooms);
    } else {
      out, err := ReadAll(OfBody(rc), rooms);
    }
    return Streamed(out, err);
  }

  lemma ObjectSize(aead: Aead, baseIV: bytes, chunkSize: nat, file: bytes)
    requires aead.Sound() && |baseIV| == 12 && 1 <= chunkSize < TWO_TO_THE_32
    ensures
      var chunks := Chunks(file, chunkSize);
      |EncryptedObject(aead, baseIV, chunkSize, file)| == Offset(chunks, |chunks|)
  {
    var chunks := Chunks(file, chunkSize);
    ChunksCut(file, chunkSize);
    FramesLength(aead, baseIV, 0, chunks);
    assert chunks[..|chunks|] == chunks;
  }

  /** What the first cut bytes of an encrypted file decode to. */
  lemma CutDecodes(aead: Aead, baseIV: bytes, chunkSize: nat, file: bytes, cut: nat)
    requires aead.Sound() && |baseIV| == 12 && 1 <= chunkSize < TWO_TO_THE_32
    requires cut <= |EncryptedObject(aead, baseIV, chunkSize, file)|
    ensures
      var stored, chunks := EncryptedObject(aead, baseIV, chunkSize, file), Chunks(file, chunkSize);
      var d := Decode(aead, stored[..cut]);
      && DecodesToWholeChunks(d, chunks, cut)
      && (d.err == EOF <==> CutInHeader(chunks, cut))
      && (cut < |stored| ==> d.plain < file)
  {
    var stored, chunks := EncryptedObject(aead, baseIV, chunkSize, file), Chunks(file, chunkSize);
    var d := Decode(aead, stored[..cut]);
    ObjectPrefix(aead, baseIV, chunkSize, file, cut);
    EOFIffInHeader(d, chunks, cut);
    ChunksCut(file, chunkSize);
    ObjectSize(aead, baseIV, chunkSize, file);
    if cut < |stored| {
      CutLoses(d, chunks, cut);
    }
  }

  /** Which part of an encrypted file a connection delivers that is cut with io.ErrUnexpectedEOF, and
      when nobody can tell from the stream: it ends in EOF exactly if the cut is at a frame boundary
      or inside a length header, and any cut before the end loses bytes of the file. */
  method DownloadCut(store: ObjectStore, key: Key, aead: Aead, baseIV: bytes, chunkSize: nat, file: bytes,
                     arrived: nat, schedule: seq<Grant>, rooms: nat -> nat) returns (reply: DownloadReply)
    requires aead.Sound() && |baseIV| == 12 && 1 <= chunkSize < TWO_TO_THE_32
    requires key in store.objects && store.objects[key] == EncryptedObject(aead, baseIV, chunkSize, file)
    requires arrived <= |store.objects[key]|
    ensures reply.Streamed?
    ensures DecodesToWholeChunks(Decoding(reply.body, reply.err), Chunks(file, chunkSize), arrived)
    ensures reply.err == EOF <==> CutInHeader(Chunks(file, chunkSize), arrived)
    ensures arrived < |store.objects[key]| ==> reply.body < file
  {
    reply := Download(store, key, Some(MakeChunkedIV(baseIV)), Some(aead), arrived, schedule, UnexpectedEOF, rooms);
    CutDecodes(aead, baseIV, chunkSize, file, arrived);
  }

  /** A connection cut before the first byte, or inside the first length header, of a file that is
      not empty: the download is an empty file with a clean end. */
  method DownloadTruncated(store: ObjectStore, key: Key, aead: Aead, baseIV: bytes, chunkSize: nat, file: bytes,
                           arrived: nat, schedule: seq<Grant>, rooms: nat -> nat) returns (reply: DownloadReply)
    requires aead.Sound() && |baseIV| == 12 && 1 <= chunkSize < TWO_TO_THE_32 && file != []
    requires key in store.objects && store.objects[key] == EncryptedObject(aead, baseIV, chunkSize, file)
    requires arrived < 4 && arrived <= |store.objects[key]|
    ensures reply == Streamed([], EOF)
  {
    reply := Download(store, key, Some(MakeChunkedIV(baseIV)), Some(aead), arrived, schedule, UnexpectedEOF, rooms);
  }

  /** An encrypted object of which some frames are sound and the next one does not open, because it was
      changed or written under another key: whatever follows it, the decryptor delivers exactly the
      chunks before it and ends in the error of a chunk that cannot be decrypted. */
  method DecryptTampered(aead: Aead, ghost ivs: seq<bytes>, ghost chunks: seq<bytes>, frames: seq<bytes>, iv: bytes,
                         ct: bytes, tail: bytes, schedule: seq<Grant>, ending: IoError, rooms: nat -> nat)
      returns (out: bytes, err: IoError)
    requires aead.Sound() && AreFrames(aead, ivs, chunks, frames) && IsEnd(ending)
    requires |iv| == 12 && 16 <= |ct| < TWO_TO_THE_32 + 16 && aead.open(iv, ct).None?
    ensures out == Flatten(chunks) && err == DecryptChunk
  {
    out, err := DecryptAll(aead, Flatten(frames) + (RawFrame(iv, ct) + tail), schedule, ending, rooms);
    DecodeTampered(aead, ivs, chunks, frames, iv, ct, tail);
  }

  /** So does a download of such an object, if the part that arrives has that frame in it; and whatever
      error ends the connection, the reply is a prefix of the chunks before it, and never ends in EOF. */
  method DownloadTampered(store: ObjectStore, key: Key, marker: bytes, aead: Aead, ghost ivs: seq<bytes>,
                          ghost chunks: seq<bytes>, ghost frames: seq<bytes>, ghost iv: bytes, ghost ct: bytes,
                          ghost tail: bytes, arrived: nat, schedule: seq<Grant>, ending: IoError, rooms: nat -> nat)
      returns (reply: DownloadReply)
    requires ending != NoError && ending != UploadTooLarge && IsChunkedEncryption(marker)
    requires aead.Sound() && AreFrames(aead, ivs, chunks, frames)
    requires |iv| == 12 && 16 <= |ct| < TWO_TO_THE_32 + 16 && aead.open(iv, ct).None?
    requires key in store.objects && arrived <= |store.objects[key]|
    requires store.objects[key][..arrived] == Flatten(frames) + (RawFrame(iv, ct) + tail)
    ensures reply.Streamed? && reply.err != EOF && reply.body <= Flatten(chunks)
    ensures IsEnd(ending) ==> reply == Streamed(Flatten(chunks), DecryptChunk)
  {
    DecodeTampered(aead, ivs, chunks, frames, iv, ct, tail);
    reply := Download(store, key, Some(marker), Some(aead), arrived, schedule, ending, rooms);
  }

  // ---------- Whole runs of one stage ----------

  /** The encryptor, read to the end: whatever the short reads below and the buffers above, it
      delivers the object of the file and then EOF. */
  method EncryptFile(aead: Aead, baseIV: bytes, chunkSize: nat, file: bytes, schedule: seq<Grant>, rooms: nat -> nat)
      returns (out: bytes, err: IoError)
    requires |baseIV| == 12 && 1 <= chunkSize < TWO_TO_THE_32
    ensures out == EncryptedObject(aead, baseIV, chunkSize, file) && err == EOF
    ensures aead.Sound() && file != [] ==> |out| == ChunkedCiphertextSize(|file|, chunkSize)
  {
    var source := new Body(file, schedule, EOF);
    var encryptor := new StreamEncryptor(OfBody(source), aead, baseIV, chunkSize);
    EncryptIsFrames(aead, baseIV, chunkSize, 0, file);
    if aead.Sound() {
      SizePrediction(aead, baseIV, chunkSize, file);
    }
    var r := OfEncryptor(encryptor);
    assert r.Valid() && r.State() == encryptor.State();
    out, err := ReadAll(r, rooms);
  }

  /** The decryptor, read to the end on any bytes, with either of the two ends. */
  method DecryptAll(aead: Aead, stored: bytes, schedule: seq<Grant>, ending: IoError, rooms: nat -> nat)
      returns (out: bytes, err: IoError)
    requires IsEnd(ending)
    ensures Decoding(out, err) == Decode(aead, stored)
  {
    var source := new Body(stored, schedule, ending);
    var decryptor := new StreamDecryptor(OfBody(source), aead);
    out, err := Drain(decryptor, rooms);
  }

  /** The decryptor, read to the end on the first cut bytes of an object: it delivers the whole
      chunks before the cut, then EOF exactly if the cut is at a frame boundary or inside a length
      header, else an error. */
  method DecryptPrefix(aead: Aead, baseIV: bytes, chunkSize: nat, file: bytes, cut: nat, schedule: seq<Grant>,
                       ending: IoError, rooms: nat -> nat) returns (out: bytes, err: IoError)
    requires aead.Sound() && |baseIV| == 12 && 1 <= chunkSize < TWO_TO_THE_32 && IsEnd(ending)
    requires cut <= |EncryptedObject(aead, baseIV, chunkSize, file)|
    ensures DecodesToWholeChunks(Decoding(out, err), Chunks(file, chunkSize), cut)
  {
    var prefix := EncryptedObject(aead, baseIV, chunkSize, file)[..cut];
    out, err := DecryptAll(aead, prefix, schedule, ending, rooms);
    ObjectPrefix(aead, baseIV, chunkSize, file, cut);
  }

  // ---------- End to end ----------

  /** A download of which everything arrives. */
  method DownloadWhole(store: ObjectStore, key: Key, encryption: Encryption, chunkSize: nat, ghost file: bytes,
                       schedule: seq<Grant>, rooms: nat -> nat) returns (reply: DownloadReply)
    requires encryption.Valid() && 1 <= chunkSize < TWO_TO_THE_32
    requires encryption.Chunked? ==> encryption.aead.Sound()
    requires key in store.objects && store.objects[key] == encryption.ObjectOf(chunkSize, file)
    ensures reply == Streamed(file, EOF)
  {
    var size := |store.objects[key]|;
    assert store.objects[key][..size] == store.objects[key];
    match encryption
    case Plain =>
      reply := Download(store, key, None, None, size, schedule, EOF, rooms);
    case Chunked(aead, baseIV) =>
      ObjectRoundTrip(aead, baseIV, chunkSize, file);
      reply := Download(store, key, encryption.Marker(), Some(aead), size, schedule, EOF, rooms);
  }

  /** Whatever the short reads on the way in and out, a download after a successful upload returns
      the file, of the recorded size and within the limit. */
  method UploadThenDownload(store: ObjectStore, key: Key, filePart: Body, limit: nat, encryption: Encryption,
                            sizes: Sizes, schedule: seq<Grant>, rooms: nat -> nat)
      returns (err: UploadError, plaintextSize: nat, reply: DownloadReply)
    requires filePart.Valid() && encryption.Valid() && sizes.Valid()
    requires encryption.Chunked? ==> encryption.aead.Sound()
    requires store.minPartSize <= sizes.part
    modifies store, filePart
    ensures err == Uploaded ==>
      && reply == Streamed(old(filePart.data), EOF)
      && plaintextSize == |old(filePart.data)|
      && (limit > 0 ==> plaintextSize <= limit)
  {
    ghost var file := filePart.data;
    var exceeded;
    err, plaintextSize, exceeded := StreamUpload(store, key, filePart, limit, encryption, sizes);
    reply := NoObject;
    if err == Uploaded {
      reply := DownloadWhole(store, key, encryption, sizes.chunk, file, schedule, rooms);
    }
  }
}
