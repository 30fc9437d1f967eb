/** The stored form of an encrypted object: length-prefixed AES-GCM frames. */
module ChunkFormat {
  import opened Wrappers
  import opened Bytes
  import opened IoErrors

  /** AES-GCM under one key, kept abstract. */
  datatype Aead = Aead(seal: (bytes, bytes) -> bytes, open: (bytes, bytes) -> Option<bytes>) {
    /** The two facts the format relies on: the tag adds 16 bytes, and opening undoes sealing. */
    ghost predicate Sound() {
      forall iv, plain {:trigger seal(iv, plain)} ::
        |seal(iv, plain)| == |plain| + 16 && open(iv, seal(iv, plain)) == Some(plain)
    }
  }

  /** The two facts are consistent: a (useless) cipher satisfies them. */
  lemma SoundCipherExists()
    ensures exists a: Aead :: a.Sound()
  {
    var a := Aead((iv, p) => p + seq(16, i => 0), (iv, c) => if |c| < 16 then None else Some(c[..|c| - 16]));
    assert a.Sound();
  }

  // ---------- Chunk IVs ----------

  /** The chunk index as a Go uint64: it wraps around. */
  function NextIndex(idx: uint64): uint64 {
    (idx + 1) % TWO_TO_THE_64
  }

  /** The IV of a chunk: the base IV with the index XORed into its last eight bytes. */
  function ChunkIV(baseIV: bytes, idx: uint64): (iv: bytes)
    requires |baseIV| == 12
    ensures |iv| == 12
  {
    seq(12, j requires 0 <= j < 12 => if j < 4 then baseIV[j] else Xor(baseIV[j], ByteOf(idx, 11 - j)))
  }

  /** deriveChunkIV: XORs the index into a copy of the base IV, one byte per round. */
  method DeriveChunkIV(baseIV: bytes, idx: uint64) returns (iv: array<byte>)
    requires |baseIV| == 12
    ensures fresh(iv) && iv[..] == ChunkIV(baseIV, idx)
  {
    iv := new byte[12](j requires 0 <= j < 12 => baseIV[j]);
    for i := 0 to 8
      invariant iv.Length == 12
      invariant forall j | 0 <= j < 12 ::
        iv[j] == if j <= 11 - i then baseIV[j] else ChunkIV(baseIV, idx)[j]
    {
      iv[11 - i] := Xor(iv[11 - i], ByteOf(idx, i));
    }
  }

  /** The fixed field of the IV survives, and distinct indices give distinct IVs. */
  lemma ChunkIVInjective(baseIV: bytes, i: uint64, j: uint64)
    requires |baseIV| == 12
    ensures ChunkIV(baseIV, i)[..4] == baseIV[..4]
    ensures ChunkIV(baseIV, i) == ChunkIV(baseIV, j) <==> i == j
  {
    var a, b := ChunkIV(baseIV, i), ChunkIV(baseIV, j);
    if a == b {
      forall k | 0 <= k < 8
        ensures ByteOf(i, k) == ByteOf(j, k)
      {
        assert a[11 - k] == b[11 - k];
        XorCancels(baseIV[11 - k], ByteOf(i, k), ByteOf(j, k));
      }
      Pow256Of8();
      BytesDetermine(i, j, 8);
    }
  }

  /** The index goes into the last eight bytes most significant byte first: each of their bits is
      flipped exactly if the index has the bit of this weight. */
  lemma ChunkIVBits(baseIV: bytes, idx: uint64, k: nat, i: nat)
    requires |baseIV| == 12 && k < 8 && i < 8
    ensures Bit(ChunkIV(baseIV, idx)[11 - k], i) <==> Bit(baseIV[11 - k], i) != Bit(idx, 8 * k + i)
  {
    XorAt(baseIV[11 - k], ByteOf(idx, k), i);
    ByteBits(idx, k, i);
  }

  // ---------- Frames ----------

  /** [4-byte length][12-byte IV][ciphertext and tag]. */
  function Frame(aead: Aead, iv: bytes, plain: bytes): bytes
    requires |plain| < TWO_TO_THE_32
  {
    PutUint32(|plain|) + iv + aead.seal(iv, plain)
  }

  predicate SmallChunks(chunks: seq<bytes>) {
    forall i :: 0 <= i < |chunks| ==> |chunks[i]| < TWO_TO_THE_32
  }

  /** One frame a chunk, the index stepping by one from idx. */
  function Frames(aead: Aead, baseIV: bytes, idx: uint64, chunks: seq<bytes>): seq<bytes>
    requires |baseIV| == 12 && SmallChunks(chunks)
    decreases chunks
  {
    if chunks == [] then []
    else
      [Frame(aead, ChunkIV(baseIV, idx), chunks[0])] + Frames(aead, baseIV, NextIndex(idx), chunks[1..])
  }

  /** The stored object of a plaintext cut into chunkSize-byte chunks. */
  function EncryptedObject(aead: Aead, baseIV: bytes, chunkSize: nat, plain: bytes): bytes
    requires |baseIV| == 12 && 1 <= chunkSize < TWO_TO_THE_32
  {
    ChunksCut(plain, chunkSize);
    Flatten(Frames(aead, baseIV, 0, Chunks(plain, chunkSize)))
  }

  /** The same bytes described chunk by chunk: the next frame, then the frames of the rest. */
  function Encrypt(aead: Aead, baseIV: bytes, chunkSize: nat, idx: uint64, plain: bytes): bytes
    requires |baseIV| == 12 && 1 <= chunkSize < TWO_TO_THE_32
    decreases |plain|
  {
    if plain == [] then []
    else
      var k := Min(chunkSize, |plain|);
      Frame(aead, ChunkIV(baseIV, idx), plain[..k])
      + Encrypt(aead, baseIV, chunkSize, NextIndex(idx), plain[k..])
  }

  lemma {:induction false} EncryptIsFrames(aead: Aead, baseIV: bytes, chunkSize: nat, idx: uint64, plain: bytes)
    requires |baseIV| == 12 && 1 <= chunkSize < TWO_TO_THE_32
    ensures SmallChunks(Chunks(plain, chunkSize))
    ensures Encrypt(aead, baseIV, chunkSize, idx, plain)
         == Flatten(Frames(aead, baseIV, idx, Chunks(plain, chunkSize)))
    decreases |plain|
  {
    ChunksCut(plain, chunkSize);
    if plain != [] {
      EncryptIsFrames(aead, baseIV, chunkSize, NextIndex(idx), plain[Min(chunkSize, |plain|)..]);
    }
  }

  lemma ModStep(idx: uint64, k: nat)
    requires k > 0
    ensures (NextIndex(idx) + (k - 1)) % TWO_TO_THE_64 == (idx + k) % TWO_TO_THE_64
  {
    if idx + 1 == TWO_TO_THE_64 {
      assert idx + k == TWO_TO_THE_64 + (k - 1);
    }
  }

  lemma {:induction false} FramesCount(aead: Aead, baseIV: bytes, idx: uint64, chunks: seq<bytes>)
    requires |baseIV| == 12 && SmallChunks(chunks)
    ensures |Frames(aead, baseIV, idx, chunks)| == |chunks|
    decreases chunks
  {
    if chunks != [] {
      FramesCount(aead, baseIV, NextIndex(idx), chunks[1..]);
    }
  }

  lemma {:induction false} FrameAt(aead: Aead, baseIV: bytes, idx: uint64, chunks: seq<bytes>, k: nat)
    requires |baseIV| == 12 && SmallChunks(chunks) && k < |chunks|
    ensures |Frames(aead, baseIV, idx, chunks)| == |chunks|
    ensures Frames(aead, baseIV, idx, chunks)[k]
         == Frame(aead, ChunkIV(baseIV, (idx + k) % TWO_TO_THE_64), chunks[k])
    decreases chunks
  {
    FramesCount(aead, baseIV, idx, chunks);
    var rest := Frames(aead, baseIV, NextIndex(idx), chunks[1..]);
    assert Frames(aead, baseIV, idx, chunks) == [Frame(aead, ChunkIV(baseIV, idx), chunks[0])] + rest;
    if k > 0 {
      FramesCount(aead, baseIV, NextIndex(idx), chunks[1..]);
      FrameAt(aead, baseIV, NextIndex(idx), chunks[1..], k - 1);
      ModStep(idx, k);
      assert chunks[1..][k - 1] == chunks[k];
    }
  }

  function FrameIV(frame: bytes): bytes
    requires |frame| >= 16
  {
    frame[4..16]
  }

  lemma FrameIVOf(aead: Aead, iv: bytes, plain: bytes)
    requires |iv| == 12 && |plain| < TWO_TO_THE_32
    ensures |Frame(aead, iv, plain)| >= 16 && FrameIV(Frame(aead, iv, plain)) == iv
  {
  }

  /** Two frames of one object share an IV exactly when their positions agree modulo 2^64, so an
      object of at most 2^64 chunks never repeats one (section 8 of NIST SP 800-38D). */
  lemma NonceUnique(aead: Aead, baseIV: bytes, chunks: seq<bytes>, j: nat, k: nat)
    requires |baseIV| == 12 && SmallChunks(chunks) && j < |chunks| && k < |chunks|
    ensures
      var frames := Frames(aead, baseIV, 0, chunks);
      && |frames| == |chunks| && |frames[j]| >= 16 && |frames[k]| >= 16
      && (FrameIV(frames[j]) == FrameIV(frames[k]) <==> j % TWO_TO_THE_64 == k % TWO_TO_THE_64)
  {
    var j', k' := j % TWO_TO_THE_64, k % TWO_TO_THE_64;
    FrameAt(aead, baseIV, 0, chunks, j);
    FrameAt(aead, baseIV, 0, chunks, k);
    FrameIVOf(aead, ChunkIV(baseIV, j'), chunks[j]);
    FrameIVOf(aead, ChunkIV(baseIV, k'), chunks[k]);
    assert ChunkIV(baseIV, j') == ChunkIV(baseIV, k') <==> j' == k' by {
      ChunkIVInjective(baseIV, j', k');
    }
  }

  /** A frame begins with the length of the plaintext, most significant byte first, and the IV. */
  lemma FrameLayout(aead: Aead, iv: bytes, plain: bytes)
    requires |iv| == 12 && |plain| < TWO_TO_THE_32
    ensures
      var f := Frame(aead, iv, plain);
      && |f| >= 16 && BigEndian(f[..4]) == |plain|
      && f[4..16] == iv && f[16..] == aead.seal(iv, plain)
  {
    PutUint32BigEndian(|plain|);
    assert Frame(aead, iv, plain)[..4] == PutUint32(|plain|);
  }

  /** The object of a file that is not empty begins with the frame of its first chunk, under the base
      IV itself. */
  lemma ObjectStart(aead: Aead, baseIV: bytes, chunkSize: nat, file: bytes)
    requires |baseIV| == 12 && 1 <= chunkSize < TWO_TO_THE_32 && file != []
    ensures Frame(aead, baseIV, file[..Min(chunkSize, |file|)]) <= EncryptedObject(aead, baseIV, chunkSize, file)
  {
    var n := Min(chunkSize, |file|);
    ZeroIV(baseIV);
    ChunksCut(file, chunkSize);
    var chunks := Chunks(file, chunkSize);
    assert chunks[0] == file[..n];
    assert Frames(aead, baseIV, 0, chunks)[0] == Frame(aead, baseIV, file[..n]);
  }

  lemma ZeroIV(baseIV: bytes)
    requires |baseIV| == 12
    ensures ChunkIV(baseIV, 0) == baseIV
  {
    forall j | 4 <= j < 12 ensures Xor(baseIV[j], ByteOf(0, 11 - j)) == baseIV[j] {
      ZeroByte(11 - j);
      XorZero(baseIV[j], 8);
    }
  }

  lemma {:induction false} ZeroByte(k: nat)
    ensures ByteOf(0, k) == 0
  {
    if k > 0 { ZeroByte(k - 1); }
  }

  lemma {:induction false} XorZero(a: nat, n: nat)
    requires a < Pow2(n)
    ensures XorBits(a, 0, n) == a
  {
    if n > 0 { XorZero(a / 2, n - 1); }
  }

  // ---------- Size ----------

  /** chunkedCiphertextSize. */
  function ChunkedCiphertextSize(plainSize: nat, chunkSize: nat): nat
    requires chunkSize >= 1
  {
    var numChunks := (plainSize + chunkSize - 1) / chunkSize;
    plainSize + (if numChunks == 0 then 1 else numChunks) * 32
  }

  lemma {:induction false} FramesLength(aead: Aead, baseIV: bytes, idx: uint64, chunks: seq<bytes>)
    requires aead.Sound() && |baseIV| == 12 && SmallChunks(chunks)
    ensures |Flatten(Frames(aead, baseIV, idx, chunks))| == |Flatten(chunks)| + |chunks| * 32
    decreases chunks
  {
    if chunks != [] {
      FramesLength(aead, baseIV, NextIndex(idx), chunks[1..]);
    }
  }

  lemma MulStep(x: int, y: int, d: nat)
    requires x < y
    ensures x * d + d <= y * d
  {
    var k := y - x - 1;
    assert k * d >= 0;
    assert y * d == x * d + d + k * d;
  }

  lemma DivUnique(a: nat, d: nat, q: nat)
    requires d >= 1 && q * d <= a < q * d + d
    ensures a / d == q
  {
    if a / d < q {
      MulStep(a / d, q, d);
    } else if q < a / d {
      MulStep(q, a / d, d);
    }
  }

  /** chunkedCiphertextSize predicts the size of the stored object exactly when there is something
      to store: for an empty file it says 32, but the encryptor emits nothing. */
  lemma SizePrediction(aead: Aead, baseIV: bytes, chunkSize: nat, plain: bytes)
    requires aead.Sound() && |baseIV| == 12 && 1 <= chunkSize < TWO_TO_THE_32
    ensures |EncryptedObject(aead, baseIV, chunkSize, plain)| == ChunkedCiphertextSize(|plain|, chunkSize)
       <==> plain != []
    ensures plain == [] ==>
      EncryptedObject(aead, baseIV, chunkSize, plain) == [] && ChunkedCiphertextSize(|plain|, chunkSize) == 32
  {
    ChunksCut(plain, chunkSize);
    ChunksCount(plain, chunkSize);
    var n := |Chunks(plain, chunkSize)|;
    FramesLength(aead, baseIV, 0, Chunks(plain, chunkSize));
    DivUnique(|plain| + chunkSize - 1, chunkSize, n);
  }

  // ---------- Reading frames back ----------

  /** What a run of the decryptor delivers before its first error, and that error. */
  datatype Decoding = Decoding(plain: bytes, err: IoError)

  /** Decoding of a complete source: the frames one after another until one is cut short or does
      not open. A cut inside the length header is not told apart from a clean end. */
  function Decode(aead: Aead, s: bytes): Decoding
    decreases |s|
  {
    if |s| < 4 then Decoding([], EOF)
    else if |s| < 16 then Decoding([], ReadChunkIV)
    else
      var n := Uint32(s[..4]);
      if |s| < 32 + n then Decoding([], ReadChunkCiphertext)
      else
        match aead.open(s[4..16], s[16..32 + n])
        case None => Decoding([], DecryptChunk)
        case Some(p) =>
          var rest := Decode(aead, s[32 + n..]);
          Decoding(p + rest.plain, rest.err)
  }

  lemma DecodeFrame(aead: Aead, iv: bytes, plain: bytes, tail: bytes)
    requires aead.Sound() && |iv| == 12 && |plain| < TWO_TO_THE_32
    ensures |Frame(aead, iv, plain)| == 32 + |plain|
    ensures Decode(aead, Frame(aead, iv, plain) + tail)
         == Decoding(plain + Decode(aead, tail).plain, Decode(aead, tail).err)
  {
    Uint32RoundTrip(|plain|);
    var f := Frame(aead, iv, plain);
    var s := f + tail;
    var n := |plain|;
    assert |f| == 32 + n;
    assert s[..4] == PutUint32(n);
    assert s[4..16] == iv;
    assert s[16..32 + n] == aead.seal(iv, plain);
    assert s[32 + n..] == tail;
  }

  /** Bytes of a stored object taken up by its first k chunks. */
  function Offset(chunks: seq<bytes>, k: nat): nat
    requires k <= |chunks|
  {
    |Flatten(chunks[..k])| + 32 * k
  }

  /** Number of whole frames among the first cut bytes of a stored object. */
  function WholeFrames(chunks: seq<bytes>, cut: nat): (k: nat)
    ensures k <= |chunks|
  {
    if chunks == [] || cut < |chunks[0]| + 32 then 0
    else 1 + WholeFrames(chunks[1..], cut - |chunks[0]| - 32)
  }

  lemma OffsetTail(chunks: seq<bytes>, k: nat)
    requires 0 < k <= |chunks|
    ensures Offset(chunks, k) == |chunks[0]| + 32 + Offset(chunks[1..], k - 1)
    ensures Flatten(chunks[..k]) == chunks[0] + Flatten(chunks[1..][..k - 1])
  {
    assert chunks[..k][1..] == chunks[1..][..k - 1];
  }

  /** WholeFrames is the last frame boundary at or before the cut. */
  lemma {:induction false} WholeFramesBracket(chunks: seq<bytes>, cut: nat)
    ensures
      var k := WholeFrames(chunks, cut);
      && Offset(chunks, k) <= cut
      && (k < |chunks| ==> cut < Offset(chunks, k + 1))
  {
    var k := WholeFrames(chunks, cut);
    if k == 0 {
      assert chunks[..0] == [];
      if chunks != [] {
        OffsetTail(chunks, 1);
        assert chunks[1..][..0] == [];
      }
    } else {
      WholeFramesBracket(chunks[1..], cut - |chunks[0]| - 32);
      OffsetTail(chunks, k);
      if k < |chunks| {
        OffsetTail(chunks, k + 1);
      }
    }
  }

  /** A frame cut short delivers nothing; where it was cut decides the error. */
  lemma DecodeCutFrame(aead: Aead, iv: bytes, plain: bytes, cut: nat)
    requires aead.Sound() && |iv| == 12 && |plain| < TWO_TO_THE_32
    requires cut < 32 + |plain| <= |Frame(aead, iv, plain)|
    ensures Decode(aead, Frame(aead, iv, plain)[..cut])
         == Decoding([], if cut < 4 then EOF else if cut < 16 then ReadChunkIV else ReadChunkCiphertext)
  {
    if cut >= 16 {
      Uint32RoundTrip(|plain|);
      assert Frame(aead, iv, plain)[..cut][..4] == PutUint32(|plain|);
    }
  }

  /** Decoding the first cut bytes of a frame and what follows it. */
  lemma DecodeHead(aead: Aead, iv: bytes, plain: bytes, rest: bytes, cut: nat)
    requires aead.Sound() && |iv| == 12 && |plain| < TWO_TO_THE_32
    requires cut <= |Frame(aead, iv, plain) + rest|
    ensures |Frame(aead, iv, plain)| == |plain| + 32
    ensures
      var d := Decode(aead, (Frame(aead, iv, plain) + rest)[..cut]);
      if cut < |plain| + 32 then
        d == Decoding([], if cut < 4 then EOF else if cut < 16 then ReadChunkIV else ReadChunkCiphertext)
      else
        var d' := Decode(aead, rest[..cut - |plain| - 32]);
        d == Decoding(plain + d'.plain, d'.err)
  {
    var first := Frame(aead, iv, plain);
    DecodeFrame(aead, iv, plain, []);
    if cut < |first| {
      assert (first + rest)[..cut] == first[..cut];
      DecodeCutFrame(aead, iv, plain, cut);
    } else {
      var tail := rest[..cut - |first|];
      assert (first + rest)[..cut] == first + tail;
      DecodeFrame(aead, iv, plain, tail);
    }
  }

  /** What the first cut bytes of a stored object should decode to: its whole chunks, then EOF
      exactly when the cut is at a frame boundary or inside a length header, else an error. */
  ghost predicate DecodesToWholeChunks(d: Decoding, chunks: seq<bytes>, cut: nat) {
    var k := WholeFrames(chunks, cut);
    var left := cut - Offset(chunks, k);
    && 0 <= left
    && d.plain == Flatten(chunks[..k])
    && d.err == if left < 4 then EOF else if left < 16 then ReadChunkIV else ReadChunkCiphertext
  }

  /** The cut is at a frame boundary, or inside the length header of the frame after it. */
  ghost predicate CutInHeader(chunks: seq<bytes>, cut: nat) {
    exists k :: 0 <= k <= |chunks| && Offset(chunks, k) <= cut < Offset(chunks, k) + 4
  }

  lemma {:induction false} OffsetGrows(chunks: seq<bytes>, j: nat, k: nat)
    requires j <= k <= |chunks|
    ensures Offset(chunks, j) + 32 * (k - j) <= Offset(chunks, k)
    decreases k
  {
    if j < k {
      OffsetGrows(chunks, j, k - 1);
      assert chunks[..k] == chunks[..k - 1] + [chunks[k - 1]];
      FlattenAppend(chunks[..k - 1], [chunks[k - 1]]);
    }
  }

  /** The end of the decoding is EOF exactly for such a cut. */
  lemma EOFIffInHeader(d: Decoding, chunks: seq<bytes>, cut: nat)
    requires DecodesToWholeChunks(d, chunks, cut)
    ensures d.err == EOF <==> CutInHeader(chunks, cut)
  {
    var whole := WholeFrames(chunks, cut);
    WholeFramesBracket(chunks, cut);
    if CutInHeader(chunks, cut) {
      var k :| 0 <= k <= |chunks| && Offset(chunks, k) <= cut < Offset(chunks, k) + 4;
      if k < whole {
        OffsetGrows(chunks, k, whole);
      } else if k > whole {
        OffsetGrows(chunks, whole + 1, k);
      }
    }
  }

  lemma FlattenSplit(chunks: seq<bytes>, k: nat)
    requires k <= |chunks|
    ensures Flatten(chunks) == Flatten(chunks[..k]) + Flatten(chunks[k..])
  {
    assert chunks == chunks[..k] + chunks[k..];
    FlattenAppend(chunks[..k], chunks[k..]);
  }

  lemma FlattenNotEmpty(chunks: seq<bytes>)
    requires chunks != [] && chunks[0] != []
    ensures Flatten(chunks) != []
  {
  }

  /** A cut before the end loses at least one chunk. */
  lemma CutLoses(d: Decoding, chunks: seq<bytes>, cut: nat)
    requires DecodesToWholeChunks(d, chunks, cut) && cut < Offset(chunks, |chunks|)
    requires forall i | 0 <= i < |chunks| :: chunks[i] != []
    ensures d.plain < Flatten(chunks)
  {
    var k := WholeFrames(chunks, cut);
    FlattenSplit(chunks, k);
    if k < |chunks| {
      FlattenNotEmpty(chunks[k..]);
    }
  }

  lemma WholeChunksCut(d: Decoding, chunks: seq<bytes>, cut: nat)
    requires chunks == [] ==> cut == 0
    requires chunks != [] ==> cut < |chunks[0]| + 32
    requires d == Decoding([], if cut < 4 then EOF else if cut < 16 then ReadChunkIV else ReadChunkCiphertext)
    ensures DecodesToWholeChunks(d, chunks, cut)
  {
    assert chunks[..0] == [];
  }

  lemma WholeChunksStep(d: Decoding, chunks: seq<bytes>, cut: nat)
    requires chunks != [] && cut >= |chunks[0]| + 32
    requires DecodesToWholeChunks(d, chunks[1..], cut - |chunks[0]| - 32)
    ensures DecodesToWholeChunks(Decoding(chunks[0] + d.plain, d.err), chunks, cut)
  {
    OffsetTail(chunks, WholeFrames(chunks, cut));
  }

  lemma WholeChunksHead(aead: Aead, iv: bytes, chunks: seq<bytes>, rest: bytes, cut: nat)
    requires aead.Sound() && |iv| == 12 && chunks != [] && |chunks[0]| < TWO_TO_THE_32
    requires cut <= |Frame(aead, iv, chunks[0]) + rest|
    requires cut >= |chunks[0]| + 32 ==>
      var cut' := cut - |chunks[0]| - 32;
      cut' <= |rest| && DecodesToWholeChunks(Decode(aead, rest[..cut']), chunks[1..], cut')
    ensures DecodesToWholeChunks(Decode(aead, (Frame(aead, iv, chunks[0]) + rest)[..cut]), chunks, cut)
  {
    DecodeHead(aead, iv, chunks[0], rest, cut);
    if cut < |chunks[0]| + 32 {
      WholeChunksCut(Decode(aead, (Frame(aead, iv, chunks[0]) + rest)[..cut]), chunks, cut);
    } else {
      WholeChunksStep(Decode(aead, rest[..cut - |chunks[0]| - 32]), chunks, cut);
    }
  }

  /** Every prefix of a stored object decodes to its whole chunks. */
  lemma {:induction false} DecodePrefix(aead: Aead, baseIV: bytes, idx: uint64, chunks: seq<bytes>, cut: nat)
    requires aead.Sound() && |baseIV| == 12 && SmallChunks(chunks)
    requires cut <= |Flatten(Frames(aead, baseIV, idx, chunks))|
    ensures DecodesToWholeChunks(Decode(aead, Flatten(Frames(aead, baseIV, idx, chunks))[..cut]), chunks, cut)
    decreases chunks
  {
    if chunks == [] {
      WholeChunksCut(Decoding([], EOF), [], 0);
    } else {
      var rest := Flatten(Frames(aead, baseIV, NextIndex(idx), chunks[1..]));
      assert |Frame(aead, ChunkIV(baseIV, idx), chunks[0])| == |chunks[0]| + 32;
      if cut >= |chunks[0]| + 32 {
        DecodePrefix(aead, baseIV, NextIndex(idx), chunks[1..], cut - |chunks[0]| - 32);
      }
      WholeChunksHead(aead, ChunkIV(baseIV, idx), chunks, rest, cut);
    }
  }

  /** The same for the object of a file. */
  lemma ObjectPrefix(aead: Aead, baseIV: bytes, chunkSize: nat, plain: bytes, cut: nat)
    requires aead.Sound() && |baseIV| == 12 && 1 <= chunkSize < TWO_TO_THE_32
    requires cut <= |EncryptedObject(aead, baseIV, chunkSize, plain)|
    ensures DecodesToWholeChunks(Decode(aead, EncryptedObject(aead, baseIV, chunkSize, plain)[..cut]),
                                 Chunks(plain, chunkSize), cut)
  {
    ChunksCut(plain, chunkSize);
    DecodePrefix(aead, baseIV, 0, Chunks(plain, chunkSize), cut);
  }

  /** Round trip: the stored object decodes to the plaintext, and to a clean end. */
  lemma ObjectRoundTrip(aead: Aead, baseIV: bytes, chunkSize: nat, plain: bytes)
    requires aead.Sound() && |baseIV| == 12 && 1 <= chunkSize < TWO_TO_THE_32
    ensures Decode(aead, EncryptedObject(aead, baseIV, chunkSize, plain)) == Decoding(plain, EOF)
  {
    ChunksCut(plain, chunkSize);
    FramesDecode(aead, baseIV, 0, Chunks(plain, chunkSize));
  }

  lemma {:induction false} FramesDecode(aead: Aead, baseIV: bytes, idx: uint64, chunks: seq<bytes>)
    requires aead.Sound() && |baseIV| == 12 && SmallChunks(chunks)
    ensures Decode(aead, Flatten(Frames(aead, baseIV, idx, chunks))) == Decoding(Flatten(chunks), EOF)
    decreases chunks
  {
    if chunks != [] {
      FramesDecode(aead, baseIV, NextIndex(idx), chunks[1..]);
      DecodeFrame(aead, ChunkIV(baseIV, idx), chunks[0],
        Flatten(Frames(aead, baseIV, NextIndex(idx), chunks[1..])));
    }
  }

  // ---------- Frames out of order ----------

  function Picked<T>(s: seq<T>, order: seq<nat>): seq<T>
    requires forall i | 0 <= i < |order| :: order[i] < |s|
  {
    if order == [] then [] else [s[order[0]]] + Picked(s, order[1..])
  }

  ghost predicate AreFrames(aead: Aead, ivs: seq<bytes>, chunks: seq<bytes>, frames: seq<bytes>) {
    && |ivs| == |chunks| == |frames| && SmallChunks(chunks)
    && (forall i | 0 <= i < |ivs| :: |ivs[i]| == 12)
    && forall i | 0 <= i < |frames| :: frames[i] == Frame(aead, ivs[i], chunks[i])
  }

  lemma {:induction false} PickedDecode(aead: Aead, ivs: seq<bytes>, chunks: seq<bytes>, frames: seq<bytes>,
                                        order: seq<nat>)
    requires aead.Sound() && AreFrames(aead, ivs, chunks, frames)
    requires forall i | 0 <= i < |order| :: order[i] < |chunks|
    ensures Decode(aead, Flatten(Picked(frames, order))) == Decoding(Flatten(Picked(chunks, order)), EOF)
    decreases |order|
  {
    if order != [] {
      var k := order[0];
      PickedDecode(aead, ivs, chunks, frames, order[1..]);
      DecodeFrame(aead, ivs[k], chunks[k], Flatten(Picked(frames, order[1..])));
    }
  }

  lemma FramesOf(aead: Aead, baseIV: bytes, chunks: seq<bytes>) returns (ivs: seq<bytes>)
    requires |baseIV| == 12 && SmallChunks(chunks)
    ensures AreFrames(aead, ivs, chunks, Frames(aead, baseIV, 0, chunks))
  {
    ivs := seq(|chunks|, i requires 0 <= i < |chunks| => ChunkIV(baseIV, i % TWO_TO_THE_64));
    var frames := Frames(aead, baseIV, 0, chunks);
    FramesCount(aead, baseIV, 0, chunks);
    forall i | 0 <= i < |frames| ensures frames[i] == Frame(aead, ivs[i], chunks[i]) {
      FrameAt(aead, baseIV, 0, chunks, i);
    }
  }

  /** A frame carries its IV, and the decryptor does not compare it with the one of the position it
      has come to. So the frames of one object, in any order, left out or repeated, decode to the
      chunks in that order, and to a clean end. */
  lemma FramesInAnyOrder(aead: Aead, baseIV: bytes, chunks: seq<bytes>, order: seq<nat>)
    requires aead.Sound() && |baseIV| == 12 && SmallChunks(chunks)
    requires forall i | 0 <= i < |order| :: order[i] < |chunks|
    ensures |Frames(aead, baseIV, 0, chunks)| == |chunks|
    ensures Decode(aead, Flatten(Picked(Frames(aead, baseIV, 0, chunks), order)))
         == Decoding(Flatten(Picked(chunks, order)), EOF)
  {
    var ivs := FramesOf(aead, baseIV, chunks);
    PickedDecode(aead, ivs, chunks, Frames(aead, baseIV, 0, chunks), order);
  }

  // ---------- Frames that do not open ----------

  /** A complete frame of a ciphertext with its tag. */
  function RawFrame(iv: bytes, ct: bytes): bytes
    requires |iv| == 12 && 16 <= |ct| < TWO_TO_THE_32 + 16
  {
    PutUint32(|ct| - 16) + iv + ct
  }

  lemma DecodeBadFrame(aead: Aead, iv: bytes, ct: bytes, tail: bytes)
    requires |iv| == 12 && 16 <= |ct| < TWO_TO_THE_32 + 16 && aead.open(iv, ct).None?
    ensures Decode(aead, RawFrame(iv, ct) + tail) == Decoding([], DecryptChunk)
  {
    Uint32RoundTrip(|ct| - 16);
    var s := RawFrame(iv, ct) + tail;
    assert s[..4] == PutUint32(|ct| - 16) && s[4..16] == iv && s[16..16 + |ct|] == ct;
  }

  /** The frames before one that does not open decode to their chunks, then the run ends in an error,
      whatever follows. */
  lemma {:induction false} DecodeTampered(aead: Aead, ivs: seq<bytes>, chunks: seq<bytes>, frames: seq<bytes>,
                                          iv: bytes, ct: bytes, tail: bytes)
    requires aead.Sound() && AreFrames(aead, ivs, chunks, frames)
    requires |iv| == 12 && 16 <= |ct| < TWO_TO_THE_32 + 16 && aead.open(iv, ct).None?
    ensures Decode(aead, Flatten(frames) + (RawFrame(iv, ct) + tail)) == Decoding(Flatten(chunks), DecryptChunk)
    decreases |chunks|
  {
    if chunks == [] {
      DecodeBadFrame(aead, iv, ct, tail);
      assert Flatten(frames) + (RawFrame(iv, ct) + tail) == RawFrame(iv, ct) + tail;
    } else {
      var rest := Flatten(frames[1..]) + (RawFrame(iv, ct) + tail);
      DecodeTampered(aead, ivs[1..], chunks[1..], frames[1..], iv, ct, tail);
      DecodeFrame(aead, ivs[0], chunks[0], rest);
      assert Flatten(frames) + (RawFrame(iv, ct) + tail) == Frame(aead, ivs[0], chunks[0]) + rest;
    }
  }

  // ---------- The marker kept in the database ----------

  const CHUNK_MAGIC: bytes := [0x54, 0x5A, 0x43, 0x48, 0x55, 0x4E, 0x4B, 0x01]

  /** isChunkedEncryption. */
  predicate IsChunkedEncryption(iv: bytes) {
    |iv| == 20 && iv[..8] == CHUNK_MAGIC
  }

  /** The magic is the text TZCHUNK and a version. */
  lemma MagicText(iv: bytes)
    requires IsChunkedEncryption(iv)
    ensures forall i | 0 <= i < 7 :: iv[i] as char == "TZCHUNK"[i]
    ensures iv[7] == 1
  {
    assert forall i | 0 <= i < 8 :: iv[i] == iv[..8][i];
  }

  /** makeChunkedIV. */
  function MakeChunkedIV(baseIV: bytes): (iv: bytes)
    requires |baseIV| == 12
    ensures IsChunkedEncryption(iv) && iv[8..] == baseIV
  {
    CHUNK_MAGIC + baseIV
  }
}
