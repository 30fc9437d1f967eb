/** The object store's multipart API, and the streaming upload built on it. */
module Multipart {
  import opened Bytes
  import opened IoErrors
  import opened Streams

  type Key = string

  /** How a call ends: carried out and acknowledged, not carried out, or carried out with the
      acknowledgement lost on the way back. */
  datatype Outcome = Done | Failed | Lost

  /** One multipart upload: its parts by number, and how many calls were issued to end it. */
  class Session {
    const key: Key
    var parts: map<nat, bytes>
    var open: bool
    var completesIssued: nat
    var abortsIssued: nat

    constructor (key: Key)
      ensures this.key == key && parts == map[] && open && completesIssued == 0 && abortsIssued == 0
    {
      this.key, parts, open, completesIssued, abortsIssued := key, map[], true, 0, 0;
    }
  }

  /** The parts with the given numbers, one after another. */
  function Assemble(parts: map<nat, bytes>, numbers: seq<nat>): bytes
    requires forall n | n in numbers :: n in parts
  {
    if numbers == [] then [] else parts[numbers[0]] + Assemble(parts, numbers[1..])
  }

  /** Part numbers 1, 2, ..., k. */
  function Numbers(k: nat): (ns: seq<nat>) {
    seq(k, i requires 0 <= i < k => i + 1)
  }

  /** Bodies by part number, counted from 1. */
  function PartBody(bodies: seq<bytes>, n: nat): bytes
    requires 1 <= n <= |bodies|
  {
    bodies[n - 1]
  }

  /** The given bodies as parts 1, 2, ... */
  function Numbered(bodies: seq<bytes>): map<nat, bytes> {
    map n: nat | 1 <= n <= |bodies| :: PartBody(bodies, n)
  }

  lemma {:induction false} AssembleNumbered(bodies: seq<bytes>, k: nat)
    requires k <= |bodies|
    ensures Assemble(Numbered(bodies), Numbers(|bodies|)[k..]) == Flatten(bodies[k..])
    decreases |bodies| - k
  {
    if k < |bodies| {
      AssembleNumbered(bodies, k + 1);
      var ns := Numbers(|bodies|)[k..];
      assert ns[0] == k + 1 && ns[1..] == Numbers(|bodies|)[k + 1..];
      assert bodies[k..][1..] == bodies[k + 1..];
    }
  }

  /** MinIO as the backend sees it. The outcome of the i-th call is outcome(i). */
  class ObjectStore {
    var objects: map<Key, bytes>
    var calls: nat
    const outcome: nat -> Outcome
    const minPartSize: nat  // of every part but the last
    const maxParts: nat

    constructor (outcome: nat -> Outcome, minPartSize: nat, maxParts: nat)
      ensures objects == map[] && calls == 0
      ensures this.outcome == outcome && this.minPartSize == minPartSize && this.maxParts == maxParts
    {
      objects, calls := map[], 0;
      this.outcome, this.minPartSize, this.maxParts := outcome, minPartSize, maxParts;
    }

    /** No call from here on goes wrong. */
    ghost predicate Reliable()
      reads this
    {
      forall i :: i >= calls ==> outcome(i) == Done
    }

    method NextOutcome() returns (o: Outcome)
      modifies this`calls
      ensures o == outcome(old(calls)) && calls == old(calls) + 1
    {
      o := outcome(calls);
      calls := calls + 1;
    }

    /** Without an acknowledgement the caller does not learn the upload id. */
    method CreateMultipartUpload(key: Key) returns (up: Session?)
      modifies this`calls
      ensures calls == old(calls) + 1
      ensures up != null <==> outcome(old(calls)) == Done
      ensures up != null ==>
        fresh(up) && up.key == key && up.parts == map[] && up.open && up.completesIssued == 0 && up.abortsIssued == 0
    {
      var o := NextOutcome();
      up := null;
      if o == Done {
        up := new Session(key);
      }
    }

    method UploadPart(up: Session, number: nat, body: bytes) returns (ok: bool)
      requires up.open
      modifies this`calls, up`parts
      ensures calls == old(calls) + 1
      ensures ok <==> outcome(old(calls)) == Done && 1 <= number <= maxParts
      ensures ok ==> up.parts == old(up.parts)[number := body]
    {
      var o := NextOutcome();
      ok := o == Done && 1 <= number <= maxParts;
      if o != Failed && 1 <= number <= maxParts {
        up.parts := up.parts[number := body];
      }
    }

    /** A part list the store accepts: not empty, ascending, uploaded, only the last part small. */
    predicate Acceptable(parts: map<nat, bytes>, numbers: seq<nat>) {
      && numbers != []
      && (forall n | n in numbers :: n in parts)
      && (forall i, j | 0 <= i < j < |numbers| :: numbers[i] < numbers[j])
      && (forall i | 0 <= i < |numbers| - 1 :: |parts[numbers[i]]| >= minPartSize)
    }

    method CompleteMultipartUpload(up: Session, numbers: seq<nat>) returns (ok: bool)
      requires up.open
      modifies this`calls, this`objects, up`open, up`completesIssued
      ensures calls == old(calls) + 1
      ensures ok <==> outcome(old(calls)) == Done && Acceptable(up.parts, numbers)
      ensures up.completesIssued == old(up.completesIssued) + 1
      ensures up.open <==> !(outcome(old(calls)) != Failed && Acceptable(up.parts, numbers))
      ensures objects == if up.open then old(objects) else old(objects)[up.key := Assemble(up.parts, numbers)]
    {
      var o := NextOutcome();
      var committed := o != Failed && Acceptable(up.parts, numbers);
      ok := o == Done && committed;
      up.completesIssued := up.completesIssued + 1;
      if committed {
        up.open := false;
        objects := objects[up.key := Assemble(up.parts, numbers)];
      }
    }

    /** Best effort: the caller does not look at the outcome. */
    method AbortMultipartUpload(up: Session)
      modifies this`calls, up`open, up`abortsIssued
      ensures calls == old(calls) + 1
      ensures up.abortsIssued == old(up.abortsIssued) + 1
    {
      var o := NextOutcome();
      up.abortsIssued := up.abortsIssued + 1;
      up.open := up.open && o == Failed;
    }

    method PutObject(key: Key, body: bytes) returns (ok: bool)
      modifies this`calls, this`objects
      ensures calls == old(calls) + 1
      ensures ok <==> outcome(old(calls)) == Done
      ensures objects == if outcome(old(calls)) != Failed then old(objects)[key := body] else old(objects)
    {
      var o := NextOutcome();
      ok := o == Done;
      if o != Failed {
        objects := objects[key := body];
      }
    }

    /** Best effort: the callers do not look at the outcome. */
    method DeleteObject(key: Key)
      modifies this`calls, this`objects
      ensures calls == old(calls) + 1
      ensures objects == if outcome(old(calls)) != Failed then old(objects) - {key} else old(objects)
    {
      var o := NextOutcome();
      if o != Failed {
        objects := objects - {key};
      }
    }
  }

  datatype UploadError =
    | Uploaded
    | CreateFailed
    | ReadFailed(cause: IoError)
    | PartFailed
    | CompleteFailed
    | EmptyPutFailed

  /** Cutting the stream off after k full parts leaves the rest to come. */
  ghost predicate PartsSoFar(s: bytes, partSize: nat, bodies: seq<bytes>, pending: bytes) {
    && Flatten(bodies) + pending == s
    && (forall i | 0 <= i < |bodies| :: |bodies[i]| == partSize)
  }

  lemma FullPart(s: bytes, partSize: nat, bodies: seq<bytes>, pending: bytes)
    requires PartsSoFar(s, partSize, bodies, pending) && partSize <= |pending|
    ensures PartsSoFar(s, partSize, bodies + [pending[..partSize]], pending[partSize..])
  {
    var part := pending[..partSize];
    FlattenAppend(bodies, [part]);
    assert Flatten([part]) == part;
    assert pending == part + pending[partSize..];
  }

  /** The parts are the pieces of the stream once the last, possibly short, part is in. */
  lemma LastPart(s: bytes, partSize: nat, bodies: seq<bytes>, pending: bytes)
    requires PartsSoFar(s, partSize, bodies, pending) && |pending| <= partSize && partSize >= 1
    ensures (if pending == [] then bodies else bodies + [pending]) == Chunks(s, partSize)
  {
    var all := if pending == [] then bodies else bodies + [pending];
    FlattenAppend(bodies, [pending]);
    assert Flatten([pending]) == pending;
    assert Flatten(all) == s;
    ChunksUnique(all, partSize);
  }

  lemma NumberedAppend(bodies: seq<bytes>, body: bytes)
    ensures Numbered(bodies + [body]) == Numbered(bodies)[|bodies| + 1 := body]
    ensures Numbers(|bodies + [body]|) == Numbers(|bodies|) + [|bodies| + 1]
  {
  }

  /** What is still to come makes at least one more part. */
  lemma MoreChunks(s: bytes, partSize: nat, bodies: seq<bytes>, pending: bytes)
    requires partSize >= 1 && PartsSoFar(s, partSize, bodies, pending) && pending != []
    ensures |Chunks(s, partSize)| > |bodies|
  {
    ChunksCut(pending, partSize);
    var all := bodies + Chunks(pending, partSize);
    FlattenAppend(bodies, Chunks(pending, partSize));
    assert all[|all| - 1] == Chunks(pending, partSize)[|Chunks(pending, partSize)| - 1];
    ChunksUnique(all, partSize);
  }

  /** One more part, read from what was still to come. */
  lemma PartIn(s: bytes, partSize: nat, bodies: seq<bytes>, pending: bytes, n: nat)
    requires PartsSoFar(s, partSize, bodies, pending) && partSize >= 1
    requires n == Min(partSize, |pending|)
    ensures n == partSize ==> PartsSoFar(s, partSize, bodies + [pending[..n]], pending[n..])
    ensures n < partSize ==>
      Chunks(s, partSize) == if n == 0 then bodies else bodies + [pending[..n]]
    ensures n > 0 ==> |Chunks(s, partSize)| > |bodies|
  {
    if n < partSize {
      assert pending[..n] == pending;
      LastPart(s, partSize, bodies, pending);
    } else {
      FullPart(s, partSize, bodies, pending);
    }
    if n > 0 {
      MoreChunks(s, partSize, bodies, pending);
    }
  }

  /** Reads one part into the buffer and uploads it, if there is anything to upload. */
  method NextPart(store: ObjectStore, up: Session, data: Reader, buf: array<byte>, partNum: nat)
      returns (n: nat, readErr: IoError, ok: bool)
    requires data.Valid() && buf !in data.Footprint()
    requires store !in data.Footprint() && up !in data.Footprint() && up.open && partNum >= 1
    modifies store`calls, up`parts, data.Footprint(), buf
    ensures data.Valid() && data.State().fate == old(data.State().fate)
    ensures store.calls >= old(store.calls)
    ensures readErr != NoError && !IsEnd(readErr) ==>
      readErr == data.State().fate && (readErr == UploadTooLarge ==> data.State().tripped)
    ensures readErr == NoError || IsEnd(readErr) ==>
      var pending := old(data.State().pending);
      && n == Min(buf.Length, |pending|) && data.State().pending == pending[n..]
      && (IsEnd(readErr) ==> IsEnd(data.State().fate))
      && (IsEnd(readErr) <==> n < buf.Length)
      && (n == 0 ==> up.parts == old(up.parts))
      && (ok && n > 0 ==> partNum <= store.maxParts && up.parts == old(up.parts)[partNum := pending[..n]])
      && (!ok ==> n > 0 && (old(store.Reliable()) ==> partNum > store.maxParts))
  {
    ok := true;
    n, readErr := ReadFull(data, buf);
    if (readErr == NoError || IsEnd(readErr)) && n > 0 {
      var body := buf[..n];
      assert body == old(data.State().pending)[..n];
      ok := store.UploadPart(up, partNum, body);
    }
  }

  /** The part loop of multipartUpload: numbers the parts 1, 2, ... and reuses one buffer. */
  method UploadParts(store: ObjectStore, up: Session, data: Reader, buf: array<byte>)
      returns (parts: seq<nat>, err: UploadError)
    requires data.Valid() && buf.Length >= 1 && buf !in data.Footprint()
    requires store !in data.Footprint() && up !in data.Footprint() && up.open && up.parts == map[]
    modifies store`calls, up`parts, data.Footprint(), buf
    ensures data.Valid() && data.State().fate == old(data.State().fate)
    ensures store.calls >= old(store.calls)
    ensures err == Uploaded ==>
      var chunks := Chunks(old(data.State().pending), buf.Length);
      && IsEnd(data.State().fate) && |chunks| <= store.maxParts
      && up.parts == Numbered(chunks) && parts == Numbers(|chunks|)
      && data.State().pending == []
    ensures err == Uploaded || err.ReadFailed? || err == PartFailed
    ensures err.ReadFailed? ==> err.cause == data.State().fate && !IsEnd(err.cause)
    ensures err == ReadFailed(UploadTooLarge) ==> data.State().tripped
    ensures old(store.Reliable()) && err == PartFailed ==>
      |Chunks(old(data.State().pending), buf.Length)| > store.maxParts
  {
    ghost var partSize := buf.Length;
    ghost var s, bodies := data.State().pending, [];
    parts, err := [], Uploaded;
    var partNum := 1;
    while true
      invariant data.Valid() && data.State().fate == old(data.State().fate)
      invariant store.calls >= old(store.calls)
      invariant partNum == |bodies| + 1 && parts == Numbers(|bodies|) && |bodies| <= store.maxParts
      invariant up.parts == Numbered(bodies)
      invariant PartsSoFar(s, partSize, bodies, data.State().pending)
      decreases |data.State().pending|
    {
      ghost var pending := data.State().pending;
      var n, readErr, ok := NextPart(store, up, data, buf, partNum);
      if readErr != NoError && !IsEnd(readErr) {
        return parts, ReadFailed(readErr);
      }
      PartIn(s, partSize, bodies, pending, n);
      assert n < partSize ==> data.State().pending == [];
      if n == 0 {
        break;
      }
      if !ok {
        return parts, PartFailed;
      }
      NumberedAppend(bodies, pending[..n]);
      bodies := bodies + [pending[..n]];
      parts := parts + [partNum];
      partNum := partNum + 1;
      if readErr != NoError {
        break;
      }
    }
  }

  /** The objects after an upload of body under key: all of it or nothing, and all of it if
      acknowledged. */
  ghost predicate AllOrNothing(before: map<Key, bytes>, key: Key, body: bytes, acknowledged: bool,
                               after: map<Key, bytes>) {
    after == before[key := body] || (after == before && !acknowledged)
  }

  /** What multipartUpload did with the upload id it was given: completed it, or issued an abort;
      both only when completion went wrong. */
  ghost predicate Settled(up: Session, err: UploadError, chunks: seq<bytes>)
    reads up
  {
    && up.completesIssued <= 1 && up.abortsIssued <= 1
    && (up.abortsIssued == 0 <==> err == Uploaded && chunks != [])
    && (up.completesIssued == 1 && up.abortsIssued == 1 <==> err == CompleteFailed)
    && (err == Uploaded && chunks != [] ==>
          !up.open && up.completesIssued == 1 && up.parts == Numbered(chunks))
  }

  /** The end of multipartUpload: completes the upload, or replaces it by an empty object. */
  method Finish(store: ObjectStore, up: Session, parts: seq<nat>, ghost chunks: seq<bytes>,
                ghost partSize: nat) returns (err: UploadError)
    requires CutToSize(chunks, partSize) && partSize >= store.minPartSize
    requires up.open && up.parts == Numbered(chunks) && parts == Numbers(|chunks|)
    requires up.completesIssued == 0 && up.abortsIssued == 0
    modifies store, up
    ensures err == Uploaded || err == CompleteFailed || err == EmptyPutFailed
    ensures AllOrNothing(old(store.objects), up.key, Flatten(chunks), err == Uploaded, store.objects)
    ensures old(store.Reliable()) ==> err == Uploaded
    ensures Settled(up, err, chunks)
  {
    if |parts| == 0 {
      store.AbortMultipartUpload(up);
      var ok := store.PutObject(up.key, []);
      return if ok then Uploaded else EmptyPutFailed;
    }
    AssembleNumbered(chunks, 0);
    assert Numbers(|chunks|)[0..] == Numbers(|chunks|) && chunks[0..] == chunks;
    assert store.Acceptable(Numbered(chunks), parts);
    var ok := store.CompleteMultipartUpload(up, parts);
    if !ok {
      store.AbortMultipartUpload(up);
      return CompleteFailed;
    }
    return Uploaded;
  }

  /** What uploading a stream amounts to. stored and fate are the stream's bytes and final error
      before; rest and tripped are what is left of it after. */
  ghost predicate Delivered(stored: bytes, fate: IoError, partSize: nat, key: Key, maxParts: nat, reliable: bool,
                            before: map<Key, bytes>, after: map<Key, bytes>,
                            rest: bytes, tripped: bool, err: UploadError)
    requires partSize >= 1
  {
    var fits := |Chunks(stored, partSize)| <= maxParts;
    // exactly the stream is stored, or nothing; a stream that fails stores nothing
    && AllOrNothing(before, key, stored, err == Uploaded, after)
    && (!IsEnd(fate) ==> after == before && err != Uploaded)
    && (err == Uploaded ==> fits && rest == [])
    // with a working store the stream and its length decide
    && (reliable && fits ==> err == if IsEnd(fate) then Uploaded else ReadFailed(fate))
    && (err == ReadFailed(UploadTooLarge) ==> tripped)
  }

  /** The part loop, with the abort on each of its error exits. */
  method TransferParts(store: ObjectStore, up: Session, data: Reader, buf: array<byte>)
      returns (parts: seq<nat>, err: UploadError)
    requires data.Valid() && buf !in data.Footprint() && store !in data.Footprint() && up !in data.Footprint()
    requires buf.Length >= 1
    requires up.open && up.parts == map[] && up.completesIssued == 0 && up.abortsIssued == 0
    modifies store`calls, up, data.Footprint(), buf
    ensures data.Valid() && data.State().fate == old(data.State().fate)
    ensures store.calls >= old(store.calls)
    ensures err == Uploaded ==>
      var chunks := Chunks(old(data.State().pending), buf.Length);
      && IsEnd(data.State().fate) && |chunks| <= store.maxParts && data.State().pending == []
      && up.open && up.parts == Numbered(chunks) && parts == Numbers(|chunks|)
      && up.completesIssued == 0 && up.abortsIssued == 0
    ensures err == Uploaded || err.ReadFailed? || err == PartFailed
    ensures err != Uploaded ==> up.completesIssued == 0 && up.abortsIssued == 1
    ensures err.ReadFailed? ==> err.cause == data.State().fate && !IsEnd(err.cause)
    ensures err == ReadFailed(UploadTooLarge) ==> data.State().tripped
    ensures old(store.Reliable()) && err == PartFailed ==>
      |Chunks(old(data.State().pending), buf.Length)| > store.maxParts
  {
    parts, err := UploadParts(store, up, data, buf);
    if err != Uploaded {
      store.AbortMultipartUpload(up);
    }
  }

  /** multipartUpload once it has an upload id. */
  method UploadSession(store: ObjectStore, up: Session, data: Reader, buf: array<byte>) returns (err: UploadError)
    requires data.Valid() && buf !in data.Footprint() && store !in data.Footprint() && up !in data.Footprint()
    requires buf.Length >= 1 && buf.Length >= store.minPartSize
    requires up.open && up.parts == map[] && up.completesIssued == 0 && up.abortsIssued == 0
    modifies store, up, data.Footprint(), buf
    ensures data.Valid() && data.State().fate == old(data.State().fate)
    ensures Delivered(old(data.State().pending), data.State().fate, buf.Length, up.key, store.maxParts,
                      old(store.Reliable()), old(store.objects), store.objects,
                      data.State().pending, data.State().tripped, err)
    ensures err != CreateFailed
    ensures Settled(up, err, Chunks(old(data.State().pending), buf.Length))
  {
    ghost var chunks := Chunks(data.State().pending, buf.Length);
    ChunksCut(data.State().pending, buf.Length);
    var parts;
    parts, err := TransferParts(store, up, data, buf);
    if err == Uploaded {
      err := Finish(store, up, parts, chunks, buf.Length);
    }
  }

  /** multipartUpload. */
  method MultipartUpload(store: ObjectStore, key: Key, data: Reader, partSize: nat)
      returns (err: UploadError, ghost up: Session?)
    requires data.Valid() && store !in data.Footprint()
    requires partSize >= 1 && partSize >= store.minPartSize
    modifies store, data.Footprint()
    ensures data.Valid() && data.State().fate == old(data.State().fate)
    ensures Delivered(old(data.State().pending), data.State().fate, partSize, key, store.maxParts,
                      old(store.Reliable()), old(store.objects), store.objects,
                      data.State().pending, data.State().tripped, err)
    // an upload id the store handed out is never left dangling
    ensures err == CreateFailed <==> up == null
    ensures up != null ==>
      fresh(up) && up.key == key && Settled(up, err, Chunks(old(data.State().pending), partSize))
  {
    ghost var v, reliable, before := data.State(), store.Reliable(), store.objects;
    var session := store.CreateMultipartUpload(key);
    assert data.Valid() && data.State() == v && store.objects == before && (reliable ==> store.Reliable());
    up := session;
    if session == null {
      err := CreateFailed;
    } else {
      var buf := new byte[partSize];
      assert data.Valid() && data.State() == v;
      err := UploadSession(store, session, data, buf);
    }
  }
}
