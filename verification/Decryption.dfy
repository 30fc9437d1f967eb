/** The download side: streamDecryptor over an arbitrary source. */
module Decryption {
  import opened Bytes
  import opened IoErrors
  import opened ChunkFormat
  import opened Streams

  class StreamDecryptor {
    const src: Reader
    const aead: Aead
    var buf: bytes
    var eof: bool

    ghost predicate Valid()
      reads this, src.Footprint()
    {
      && this !in src.Footprint()
      && src.Valid()
      && (eof ==> src.State().pending == [] && IsEnd(src.State().fate))
    }

    /** The source will deliver what it has and then report one of the two errors that the decryptor
        takes for the end. That may be io.ErrUnexpectedEOF, of a connection cut half-way. */
    ghost predicate Clean()
      requires Valid()
      reads this, src.Footprint()
    {
      IsEnd(src.State().fate)
    }

    /** What is still to be delivered, and the error after it, should the source end in one of these. */
    ghost function Rest(): Decoding
      requires Valid()
      reads this, src.Footprint()
    {
      var d := Decode(aead, src.State().pending);
      Decoding(buf + d.plain, d.err)
    }

    constructor (src: Reader, aead: Aead)
      requires src.Valid()
      ensures Valid() && fresh(this) && this.src == src && this.aead == aead && buf == []
      ensures Rest() == Decode(aead, src.State().pending)
    {
      this.src, this.aead, buf, eof := src, aead, [], false;
    }

    /** Reads exactly size bytes of the source, or reports why not. */
    method Take(size: nat) returns (b: bytes, err: IoError)
      requires Valid()
      modifies src.Footprint()
      ensures Valid() && src.State().fate == old(src.State().fate)
      ensures err == NoError ==>
        |b| == size && b <= old(src.State().pending) && src.State().pending == old(src.State().pending)[size..]
      ensures err != NoError && Clean() ==>
        IsEnd(err) && |old(src.State().pending)| < size && src.State().pending == []
      ensures IsEnd(err) ==> Clean() && src.State().pending == []
    {
      var a := new byte[size];
      var n, e := ReadFull(src, a);
      return a[..n], e;
    }

    /** The reading half of fill: header, IV and ciphertext of the next frame. */
    method ReadFrame() returns (iv: bytes, ct: bytes, err: IoError)
      requires Valid() && buf == [] && !eof
      modifies this`eof, src.Footprint()
      ensures Valid() && src.State().fate == old(src.State().fate)
      ensures err == NoError ==>
        var s := old(src.State().pending);
        && |s| >= 4 && |s| >= 32 + Uint32(s[..4])
        && iv == s[4..16] && ct == s[16..32 + Uint32(s[..4])]
        && src.State().pending == s[32 + Uint32(s[..4])..]
      ensures err == EOF ==> Clean()
      ensures err != NoError && Clean() ==> Decode(aead, old(src.State().pending)) == Decoding([], err)
    {
      iv, ct := [], [];
      var hdr, e := Take(4);
      if e != NoError {
        if IsEnd(e) {
          eof := true;
          return iv, ct, EOF;
        }
        return iv, ct, ReadChunkHeader;
      }
      iv, e := Take(12);
      if e != NoError {
        return iv, ct, ReadChunkIV;
      }
      ct, e := Take(Uint32(hdr) + 16);
      if e != NoError {
        return iv, ct, ReadChunkCiphertext;
      }
      return iv, ct, NoError;
    }

    /** One more frame into buf, or the error that ends the run. */
    method Fill() returns (err: IoError)
      requires Valid() && buf == [] && !eof
      modifies this, src.Footprint()
      ensures Valid() && src.State().fate == old(src.State().fate)
      ensures err == NoError ==>
        Rest() == old(Rest()) && |src.State().pending| < |old(src.State().pending)|
      ensures err != NoError ==> buf == []
      ensures err == EOF ==> Clean() && old(Rest()) == Decoding([], EOF)
      ensures err != NoError && Clean() ==> old(Rest()) == Decoding([], err)
    {
      var iv, ct;
      iv, ct, err := ReadFrame();
      if err == NoError {
        match aead.open(iv, ct)
        case None => return DecryptChunk;
        case Some(plain) => buf := plain;
      }
    }

    method Read(room: nat) returns (chunk: bytes, err: IoError)
      requires Valid()
      modifies this, src.Footprint()
      ensures Valid() && src.State().fate == old(src.State().fate)
      ensures |chunk| <= room
      ensures err == NoError ==>
        && chunk <= old(Rest().plain)
        && Rest() == Decoding(old(Rest().plain)[|chunk|..], old(Rest().err))
        && (room > 0 ==> chunk != [])
      ensures err != NoError ==> chunk == []
      ensures err == EOF ==> Clean() && old(Rest()) == Decoding([], EOF)
      ensures err != NoError && Clean() ==> old(Rest()) == Decoding([], err)
    {
      while buf == []
        invariant Valid() && src.State().fate == old(src.State().fate)
        invariant Rest() == old(Rest())
        decreases if buf == [] then 1 + |src.State().pending| else 0
      {
        if eof {
          return [], EOF;
        }
        err := Fill();
        if err != NoError {
          return [], err;
        }
      }
      chunk := buf[..Min(room, |buf|)];
      ghost var tail := Decode(aead, src.State().pending).plain;
      assert buf + tail == chunk + (buf[|chunk|..] + tail);
      buf := buf[|chunk|..];
      return chunk, NoError;
    }
  }

  /** Reads to the first error with buffers of arbitrary positive sizes, as the HTTP server does. */
  method Drain(d: StreamDecryptor, sizes: nat -> nat) returns (out: bytes, err: IoError)
    requires d.Valid()
    modifies d, d.src.Footprint()
    ensures out <= old(d.Rest().plain)
    ensures err != NoError
    ensures old(d.Clean()) ==> Decoding(out, err) == old(d.Rest())
    ensures !old(d.Clean()) ==> err != EOF
  {
    out := [];
    var i := 0;
    while true
      invariant d.Valid() && d.src.State().fate == old(d.src.State().fate)
      invariant out <= old(d.Rest().plain)
      invariant d.Rest() == Decoding(old(d.Rest().plain)[|out|..], old(d.Rest().err))
      decreases |d.Rest().plain|
    {
      var chunk;
      chunk, err := d.Read(sizes(i) + 1);
      out := out + chunk;
      if err != NoError {
        return;
      }
      i := i + 1;
    }
  }
}
