/** The readers an upload flows through. Each is an object with its own position, error stickiness
    and buffer; Reader is the io.Reader interface value (a tag and a pointer to the object).
    Read(room) is Read(p) with room == len(p); it returns the bytes it would have written to p. */
module Streams {
  import opened Bytes
  import opened IoErrors
  import opened ChunkFormat

  /** What is left to say about a reader at one moment: the bytes to come, the error it will end
      with, whether a size limit below it was hit, a bound on the number of reads that report no
      error, and whether it keeps every byte it reads even when it fails. */
  datatype View = View(pending: bytes, fate: IoError, tripped: bool, rank: nat, exact: bool)

  /** The io.Reader contract. Reads may be short, may return (0, nil), and may report the final
      error with the last bytes or by itself; the error is the announced one, and an error that
      marks the end comes only when nothing is left. */
  ghost predicate ReadStep(v: View, room: nat, chunk: bytes, err: IoError, v': View) {
    var sound := chunk != [] || err == NoError || IsEnd(err) || v.exact;
    && |chunk| <= room
    && chunk <= v.pending
    && v'.fate == v.fate && v'.exact == v.exact
    && (sound ==> v'.pending == v.pending[|chunk|..] && v'.rank <= v.rank)
    && (err != NoError ==> err == v.fate)
    && (IsEnd(err) ==> v'.pending == [])
    && (v.tripped ==> v'.tripped)
    && (err == UploadTooLarge ==> v'.tripped)
    && (room > 0 && (chunk != [] || err == NoError) ==> v'.rank < v.rank)
  }

  ghost predicate SameButRank(v: View, v': View) {
    && v'.pending == v.pending && v'.fate == v.fate && v'.exact == v.exact
    && (v.tripped ==> v'.tripped) && v'.rank <= v.rank
  }

  /** One scheduled read of a Body: at most size bytes; early reports the final error together with
      the last bytes. */
  datatype Grant = Grant(size: nat, early: bool)

  /** A source outside the model: a multipart part on a live connection, an object body, or a
      bytes.Reader. It delivers its data in pieces cut by the schedule, then in pieces as large as
      the caller allows, and ends with a sticky error. */
  class Body {
    var data: bytes
    var schedule: seq<Grant>
    const ending: IoError

    ghost predicate Valid()
      reads this
    {
      ending != NoError && ending != UploadTooLarge
    }

    ghost function State(): View
      reads this
    {
      View(data, ending, false, |data| + |schedule|, true)
    }

    constructor (data: bytes, schedule: seq<Grant>, ending: IoError)
      requires ending != NoError && ending != UploadTooLarge
      ensures Valid() && this.data == data && this.schedule == schedule && this.ending == ending
    {
      this.data, this.schedule, this.ending := data, schedule, ending;
    }

    method Read(room: nat) returns (chunk: bytes, err: IoError)
      requires Valid()
      modifies this
      ensures Valid() && ReadStep(old(State()), room, chunk, err, State())
      ensures data == old(data)[|chunk|..]
      ensures err != NoError ==> data == []
    {
      if schedule == [] {
        if data == [] {
          return [], ending;
        }
        chunk := data[..Min(room, |data|)];
        data := data[|chunk|..];
        return chunk, NoError;
      }
      var grant := schedule[0];
      schedule := schedule[1..];
      chunk := data[..Min(grant.size, Min(room, |data|))];
      data := data[|chunk|..];
      err := if data == [] && grant.early then ending else NoError;
    }
  }

  /** uploadTracker: counts the bytes that pass and fails, for good, once there are too many. */
  class UploadTracker {
    const r: Body
    var n: nat
    const limit: nat  // 0 = no limit
    var exceeded: bool
    ghost const total: nat  // bytes seen and to come

    ghost predicate Valid()
      reads this, r
    {
      r.Valid() && n + |r.data| == total && (exceeded <==> limit > 0 && n > limit)
    }

    ghost function State(): View
      reads this, r
    {
      var fate := if limit > 0 && n + |r.data| > limit then UploadTooLarge else r.ending;
      View(r.data, fate, exceeded, r.State().rank, true)
    }

    constructor (r: Body, limit: nat)
      requires r.Valid()
      ensures Valid() && this.r == r && this.limit == limit && n == 0 && !exceeded && total == |r.data|
    {
      this.r, this.limit, n, exceeded := r, limit, 0, false;
      total := |r.data|;
    }

    method Read(room: nat) returns (chunk: bytes, err: IoError)
      requires Valid()
      modifies this, r
      ensures Valid() && ReadStep(old(State()), room, chunk, err, State())
    {
      if exceeded {
        return [], UploadTooLarge;
      }
      chunk, err := r.Read(room);
      n := n + |chunk|;
      if limit > 0 && n > limit {
        exceeded := true;
        return chunk, UploadTooLarge;
      }
    }
  }

  datatype Reader =
    | OfBody(body: Body)
    | OfTracker(tracker: UploadTracker)
    | OfMulti(multi: MultiReader)
    | OfEncryptor(encryptor: StreamEncryptor)
  {
    /** The objects behind the interface value. */
    ghost function Footprint(): set<object> {
      match this
      case OfBody(b) => {b}
      case OfTracker(t) => {t, t.r}
      case OfMulti(m) => m.Repr
      case OfEncryptor(e) => e.Repr
    }

    ghost function Height(): nat {
      match this
      case OfBody(_) => 0
      case OfTracker(_) => 0
      case OfMulti(m) => m.height
      case OfEncryptor(e) => e.height
    }

    ghost predicate Valid()
      reads Footprint()
      decreases Height(), 1
    {
      match this
      case OfBody(b) => b.Valid()
      case OfTracker(t) => t.Valid()
      case OfMulti(m) => m in m.Repr && m.Valid()
      case OfEncryptor(e) => e in e.Repr && e.Valid()
    }

    ghost function State(): View
      requires Valid()
      reads Footprint()
      decreases Height(), 3
    {
      match this
      case OfBody(b) => b.State()
      case OfTracker(t) => t.State()
      case OfMulti(m) => m.State()
      case OfEncryptor(e) => e.State()
    }

    method Read(room: nat) returns (chunk: bytes, err: IoError)
      requires Valid()
      modifies Footprint()
      ensures Valid() && ReadStep(old(State()), room, chunk, err, State())
      decreases Height(), 4
    {
      match this
      case OfBody(b) => chunk, err := b.Read(room);
      case OfTracker(t) => chunk, err := t.Read(room);
      case OfMulti(m) => chunk, err := m.Read(room);
      case OfEncryptor(e) => chunk, err := e.Read(room);
    }
  }

  /** Two readers one after the other, as one. */
  function Join(b: View, v: View): View {
    v.(pending := b.pending + v.pending, rank := b.rank + v.rank)
  }

  /** A read of the current one of two joined readers; more says whether another one follows. */
  ghost predicate JoinStep(v: View, room: nat, chunk: bytes, err: IoError, more: bool, v': View) {
    if chunk == [] && err == EOF then SameButRank(v, v')
    else ReadStep(v, room, chunk, if err == EOF && more then NoError else err, v')
  }

  lemma FirstStep(b: View, v: View, room: nat, chunk: bytes, err: IoError, b': View)
    requires ReadStep(b, room, chunk, err, b') && b.fate == EOF
    ensures JoinStep(Join(b, v), room, chunk, err, true, Join(b', v))
  {
    assert b.pending + v.pending == chunk + (b.pending[|chunk|..] + v.pending);
  }

  lemma SecondStep(b: View, v: View, room: nat, chunk: bytes, err: IoError, v': View)
    requires ReadStep(v, room, chunk, err, v') && b.pending == []
    ensures JoinStep(Join(b, v), room, chunk, err, false, Join(b, v'))
  {
    assert b.pending + v.pending == v.pending;
    assert b.pending + v'.pending == v'.pending;
  }

  /** io.MultiReader over an in-memory prefix and a live reader; left counts the readers still to
      be used. */
  class MultiReader {
    const first: Body
    const second: Reader
    var left: nat
    ghost const Repr: set<object>
    ghost const height: nat

    ghost predicate Valid()
      reads this, Repr
      decreases height, 0
    {
      && Repr == {this, first} + second.Footprint()
      && this !in second.Footprint() && first !in second.Footprint()
      && second.Height() < height
      && first.Valid() && first.ending == EOF
      && second.Valid()
      && left <= 2
      && (left < 2 ==> first.data == [])
      && (left == 0 ==> second.State().pending == [] && second.State().fate == EOF)
    }

    ghost function State(): View
      requires Valid()
      reads this, Repr
      decreases height, 2
    {
      Join(first.State(), second.State())
    }

    constructor (first: Body, second: Reader)
      requires first.Valid() && first.ending == EOF && second.Valid()
      requires first !in second.Footprint()
      ensures Valid() && left == 2 && this.first == first && this.second == second
      ensures fresh(this) && Repr == {this, first} + second.Footprint()
    {
      this.first, this.second, left := first, second, 2;
      Repr := {this, first} + second.Footprint();
      height := second.Height() + 1;
    }

    /** Reads from the prefix, and moves on when it reports EOF. */
    method ReadFirst(room: nat) returns (chunk: bytes, err: IoError)
      requires Valid() && this in Repr && left == 2
      modifies this`left, first
      ensures Valid()
      ensures left == if err == EOF then 1 else 2
      ensures JoinStep(old(State()), room, chunk, err, true, State())
      decreases height, 0
    {
      ghost var v, b := second.State(), first.State();
      chunk, err := first.Read(room);
      FirstStep(b, v, room, chunk, err, first.State());
      if err == EOF {
        left := 1;
      }
    }

    /** Reads from the rest, and moves on when it reports EOF. */
    method ReadSecond(room: nat) returns (chunk: bytes, err: IoError)
      requires Valid() && this in Repr && left == 1
      modifies this`left, second.Footprint()
      ensures Valid()
      ensures left == if err == EOF then 0 else 1
      ensures JoinStep(old(State()), room, chunk, err, false, State())
      decreases height, 0
    {
      ghost var v, b := second.State(), first.State();
      chunk, err := second.Read(room);
      SecondStep(b, v, room, chunk, err, second.State());
      if err == EOF {
        left := 0;
      }
    }

    method Read(room: nat) returns (chunk: bytes, err: IoError)
      requires Valid() && this in Repr
      modifies Repr
      ensures Valid() && ReadStep(old(State()), room, chunk, err, State())
      decreases height, 1
    {
      ghost var v0 := State();
      while left > 0
        invariant Valid() && SameButRank(v0, State())
        decreases left
      {
        if left == 2 {
          chunk, err := ReadFirst(room);
        } else {
          chunk, err := ReadSecond(room);
        }
        if chunk != [] || err != EOF {
          if err == EOF && left > 0 {
            err := NoError;
          }
          return;
        }
      }
      return [], EOF;
    }
  }

  /** Where ReadFull is after got bytes and error err. */
  ghost predicate Reading(v0: View, got: bytes, err: IoError, full: bool, v: View) {
    && v.fate == v0.fate && v.exact == v0.exact
    && got <= v0.pending
    && (err == NoError || IsEnd(err) || full || v.exact ==> v.pending == v0.pending[|got|..])
    && (IsEnd(err) ==> v.pending == [])
    && (err != NoError ==> err == v0.fate)
    && (v0.tripped || err == UploadTooLarge ==> v.tripped)
  }

  lemma ReadingStep(v0: View, got: bytes, v: View, room: nat, chunk: bytes, err: IoError, v': View)
    requires Reading(v0, got, NoError, false, v) && room > 0
    requires ReadStep(v, room, chunk, err, v')
    ensures Reading(v0, got + chunk, err, |chunk| == room, v')
  {
    assert v0.pending == got + v.pending;
  }

  /** The bytes a Read writes into its caller's slice buf[n:]. */
  method CopyInto(buf: array<byte>, n: nat, chunk: bytes)
    requires n + |chunk| <= buf.Length
    modifies buf
    ensures buf[..n + |chunk|] == old(buf[..n]) + chunk
  {
    forall i | 0 <= i < |chunk| {
      buf[n + i] := chunk[i];
    }
  }

  /** One read into the rest of the buffer. */
  method ReadMore(r: Reader, buf: array<byte>, n: nat, ghost v0: View, ghost got: bytes)
      returns (n': nat, err: IoError, ghost got': bytes)
    requires r.Valid() && buf !in r.Footprint()
    requires n == |got| < buf.Length && buf[..n] == got && Reading(v0, got, NoError, false, r.State())
    modifies r.Footprint(), buf
    ensures r.Valid() && n' == |got'| <= buf.Length && buf[..n'] == got'
    ensures Reading(v0, got', err, n' == buf.Length, r.State())
    ensures err == NoError ==> r.State().rank < old(r.State().rank)
    decreases r.Height(), 5
  {
    ghost var v := r.State();
    var chunk;
    chunk, err := r.Read(buf.Length - n);
    ghost var v' := r.State();
    ReadingStep(v0, got, v, buf.Length - n, chunk, err, v');
    CopyInto(buf, n, chunk);
    assert r.Valid() && r.State() == v';
    n', got' := n + |chunk|, got + chunk;
  }

  /** io.ReadFull: reads until buf is full. An error that arrives with the bytes that fill buf is
      dropped; io.EOF after some bytes becomes io.ErrUnexpectedEOF. */
  method ReadFull(r: Reader, buf: array<byte>) returns (n: nat, err: IoError)
    requires r.Valid() && buf !in r.Footprint()
    modifies r.Footprint(), buf
    ensures r.Valid() && r.State().fate == old(r.State().fate)
    ensures n <= buf.Length && buf[..n] <= old(r.State().pending)
    ensures err == NoError <==> n == buf.Length
    ensures err == NoError || IsEnd(err) || old(r.State().exact) ==>
      r.State().pending == old(r.State().pending)[n..]
    ensures IsEnd(err) ==> r.State().pending == [] && IsEnd(r.State().fate)
    ensures IsEnd(err) ==> err == if n == 0 then r.State().fate else UnexpectedEOF
    ensures err != NoError && !IsEnd(err) ==> err == r.State().fate
    ensures old(r.State().tripped) || err == UploadTooLarge ==> r.State().tripped
    decreases r.Height(), 6
  {
    n, err := 0, NoError;
    ghost var v0, got: bytes := r.State(), [];
    while n < buf.Length && err == NoError
      invariant r.Valid() && n == |got| <= buf.Length && buf[..n] == got
      invariant Reading(v0, got, err, n == buf.Length, r.State())
      decreases err == NoError, r.State().rank
    {
      n, err, got := ReadMore(r, buf, n, v0, got);
    }
    if n == buf.Length {
      err := NoError;
    } else if n > 0 && err == EOF {
      err := UnexpectedEOF;
    }
  }

  /** streamEncryptor: turns the plaintext of src into frames, a chunk at a time. */
  class StreamEncryptor {
    const src: Reader
    const aead: Aead
    const baseIV: bytes
    const chunkSize: nat  // uploadChunkSize
    var chunkIdx: uint64
    var buf: bytes
    var eof: bool
    ghost const Repr: set<object>
    ghost const height: nat

    ghost predicate Valid()
      reads this, Repr
      decreases height, 0
    {
      && Repr == {this} + src.Footprint()
      && this !in src.Footprint()
      && src.Height() < height
      && |baseIV| == 12 && 1 <= chunkSize < TWO_TO_THE_32
      && src.Valid()
      && (eof ==> src.State().pending == [] && IsEnd(src.State().fate))
    }

    ghost function State(): View
      requires Valid()
      reads this, Repr
      decreases height, 2
    {
      var v := src.State();
      var pending := buf + Encrypt(aead, baseIV, chunkSize, chunkIdx, v.pending);
      View(pending, if IsEnd(v.fate) then EOF else v.fate, v.tripped, |pending|, false)
    }

    constructor (src: Reader, aead: Aead, baseIV: bytes, chunkSize: nat)
      requires src.Valid() && |baseIV| == 12 && 1 <= chunkSize < TWO_TO_THE_32
      ensures Valid() && fresh(this) && this.src == src && Repr == {this} + src.Footprint()
      ensures State().pending == Encrypt(aead, baseIV, chunkSize, 0, src.State().pending)
      ensures State().fate == if IsEnd(src.State().fate) then EOF else src.State().fate
    {
      this.src, this.aead, this.baseIV, this.chunkSize := src, aead, baseIV, chunkSize;
      chunkIdx, buf, eof := 0, [], false;
      Repr := {this} + src.Footprint();
      height := src.Height() + 1;
    }

    /** The reading half of fill: the next chunk of plaintext, or the error that ends the stream. */
    method ReadChunk() returns (piece: bytes, err: IoError)
      requires Valid() && this in Repr && !eof
      modifies src.Footprint(), this`eof
      ensures Valid()
      ensures src.State().fate == old(src.State().fate)
      ensures err == NoError ==>
        var plain := old(src.State().pending);
        && piece == plain[..Min(chunkSize, |plain|)] && piece != []
        && src.State().pending == plain[|piece|..]
      ensures err == EOF ==> old(src.State().pending) == src.State().pending == [] && IsEnd(src.State().fate)
      ensures err != NoError && err != EOF ==> err == src.State().fate && !IsEnd(err)
      ensures old(src.State().tripped) || err == UploadTooLarge ==> src.State().tripped
      decreases height, 0
    {
      ghost var v := src.State();
      var plain := new byte[chunkSize];
      assert src.Valid() && src.State() == v;
      var n, rerr := ReadFull(src, plain);
      if n == 0 && IsEnd(rerr) {
        eof := true;
        return [], EOF;
      } else if rerr == UnexpectedEOF {
        eof := true;
      } else if rerr != NoError {
        return [], rerr;
      }
      return plain[..n], NoError;
    }

    /** One more frame into buf, or the error that ends the stream. */
    method Fill() returns (err: IoError)
      requires Valid() && this in Repr && buf == [] && !eof
      modifies Repr
      ensures Valid()
      ensures State().fate == old(State().fate)
      ensures err == NoError ==> buf != []
      ensures err == NoError || err == EOF ==> State().pending == old(State().pending)
      ensures err != NoError ==> buf == [] && err == State().fate
      ensures err == EOF ==> State().pending == []
      ensures old(State().tripped) || err == UploadTooLarge ==> State().tripped
      decreases height, 1
    {
      var piece;
      piece, err := ReadChunk();
      if err == NoError {
        Emit(piece);
      }
    }

    /** Seals one chunk under the next IV and puts its frame into buf. */
    method Emit(piece: bytes)
      requires |baseIV| == 12 && |piece| < TWO_TO_THE_32
      modifies this`chunkIdx, this`buf
      ensures buf == Frame(aead, ChunkIV(baseIV, old(chunkIdx)), piece)
      ensures chunkIdx == NextIndex(old(chunkIdx))
    {
      var iv := DeriveChunkIV(baseIV, chunkIdx);
      chunkIdx := NextIndex(chunkIdx);
      var ct := aead.seal(iv[..], piece);
      buf := PutUint32(|piece|) + iv[..] + ct;
    }

    method Read(room: nat) returns (chunk: bytes, err: IoError)
      requires Valid() && this in Repr
      modifies Repr
      ensures Valid() && ReadStep(old(State()), room, chunk, err, State())
      decreases height, 2
    {
      ghost var v0 := State();
      while buf == []
        invariant Valid()
        invariant State().pending == v0.pending && State().fate == v0.fate
        invariant v0.tripped ==> State().tripped
        decreases buf == []
      {
        if eof {
          return [], EOF;
        }
        err := Fill();
        if err != NoError {
          return [], err;
        }
      }
      chunk := Take(room);
      return chunk, NoError;
    }

    /** The copying half of Read. */
    method Take(room: nat) returns (chunk: bytes)
      requires Valid() && this in Repr && buf != []
      modifies this`buf
      ensures Valid() && ReadStep(old(State()), room, chunk, NoError, State())
    {
      chunk := buf[..Min(room, |buf|)];
      ghost var rest := Encrypt(aead, baseIV, chunkSize, chunkIdx, src.State().pending);
      assert buf + rest == chunk + (buf[|chunk|..] + rest);
      buf := buf[|chunk|..];
    }
  }
}
