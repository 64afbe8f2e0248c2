/**
 * One file over the encrypted stream: a header, the data in whatever pieces the reads returned, a
 * metadata trailer, and the end of the stream. Hashing and the trailer's text form are parameters.
 */
module FileTransfer {
  import opened Common
  import opened Authenticators
  import opened Stream

  const CHUNK_SIZE: nat := 65536
  const NAME_SIZE: nat := 2
  const FIXED_SIZE: nat := 10
  const MAX_NAME: nat := 65535
  const DIGEST_SIZE: nat := 32
  const MAX_INT64: nat := 0x7fff_ffff_ffff_ffff
  const META_PREFIX: string := "META:"
  const ALGORITHM: string := "blake3-256"

  datatype Metadata = Metadata(hash: Bytes, chunkSize: nat, size: nat, digest: Bytes)

  /** The file hash, and the text form of the trailer with its decoder. */
  datatype Codec = Codec(hash: Bytes -> Bytes, encode: Metadata -> Bytes, decode: Bytes -> Option<Metadata>)

  ghost predicate Sane(codec: Codec) {
    && (forall b :: |codec.hash(b)| == DIGEST_SIZE)
    && (forall m :: codec.decode(codec.encode(m)) == Some(m))
  }

  // ----- Header -----

  /** The `n` low bytes of a value, the least significant first. */
  function LittleEndian(v: nat, n: nat): (b: Bytes)
    ensures |b| == n
  {
    if n == 0 then [] else [LowByte(v)] + LittleEndian(v / 256, n - 1)
  }

  function FromLittleEndian(b: Bytes): nat {
    if |b| == 0 then 0 else b[0] + 256 * FromLittleEndian(b[1..])
  }

  lemma {:induction false} LittleEndianValue(v: nat, n: nat)
    requires v < Pow256(n)
    ensures FromLittleEndian(LittleEndian(v, n)) == v
  {
    if n > 0 {
      LittleEndianValue(v / 256, n - 1);
      assert LittleEndian(v, n)[1..] == LittleEndian(v / 256, n - 1);
    }
  }

  datatype Header = Header(name: Bytes, size: nat)

  function EncodeHeader(h: Header): (b: Bytes)
    ensures |b| == FIXED_SIZE + |h.name|
  {
    LittleEndian(|h.name|, NAME_SIZE) + LittleEndian(h.size, 8) + h.name
  }

  /** Bytes after the name are ignored. */
  function ParseHeader(b: Bytes): Option<Header> {
    if |b| < FIXED_SIZE || FIXED_SIZE + FromLittleEndian(b[..NAME_SIZE]) > |b| then None
    else
      var n := FromLittleEndian(b[..NAME_SIZE]);
      Some(Header(b[FIXED_SIZE..FIXED_SIZE + n], FromLittleEndian(b[NAME_SIZE..FIXED_SIZE])))
  }

  lemma HeaderRoundTrip(h: Header)
    requires |h.name| <= MAX_NAME && h.size < COUNTERS
    ensures ParseHeader(EncodeHeader(h)) == Some(h)
  {
    var b := EncodeHeader(h);
    assert Pow256(2) == 65536 && Pow256(8) == COUNTERS;
    LittleEndianValue(|h.name|, NAME_SIZE);
    LittleEndianValue(h.size, 8);
    assert b[..NAME_SIZE] == LittleEndian(|h.name|, NAME_SIZE);
    assert b[NAME_SIZE..FIXED_SIZE] == LittleEndian(h.size, 8);
    assert b[FIXED_SIZE..FIXED_SIZE + |h.name|] == h.name;
  }

  lemma {:induction false} LittleEndianBytes(b: Bytes)
    ensures FromLittleEndian(b) < Pow256(|b|) && LittleEndian(FromLittleEndian(b), |b|) == b
  {
    if |b| > 0 {
      LittleEndianBytes(b[1..]);
      assert FromLittleEndian(b) / 256 == FromLittleEndian(b[1..]) && FromLittleEndian(b) % 256 == b[0];
      assert b == [b[0]] + b[1..];
    }
  }

  /** A chunk is read as a header exactly when it begins with that header's encoding; what follows is ignored. */
  lemma HeaderIsExact(b: Bytes, h: Header)
    ensures ParseHeader(b) == Some(h) <==>
            |h.name| <= 65535 && h.size < COUNTERS && EncodeHeader(h) <= b
  {
    assert Pow256(2) == 65536 && Pow256(8) == COUNTERS;
    if ParseHeader(b) == Some(h) {
      LittleEndianBytes(b[..NAME_SIZE]);
      LittleEndianBytes(b[NAME_SIZE..FIXED_SIZE]);
      assert EncodeHeader(h) == b[..FIXED_SIZE + |h.name|];
    }
    if |h.name| <= 65535 && h.size < COUNTERS && EncodeHeader(h) <= b {
      var e := EncodeHeader(h);
      HeaderRoundTrip(h);
      assert b[..NAME_SIZE] == e[..NAME_SIZE] && b[NAME_SIZE..FIXED_SIZE] == e[NAME_SIZE..FIXED_SIZE];
      assert b[FIXED_SIZE..FIXED_SIZE + |h.name|] == e[FIXED_SIZE..FIXED_SIZE + |h.name|];
    }
  }

  /** The longest header is the longest plaintext that a chunk may hold. */
  lemma LongestHeaderFits(h: Header)
    requires |h.name| <= MAX_NAME
    ensures |EncodeHeader(h)| <= MAX_PLAINTEXT && (|h.name| == 65535 ==> |EncodeHeader(h)| == MAX_PLAINTEXT)
  {
  }

  // ----- Sending -----

  datatype ReadEnd = More | AtEof | IoError

  /** One file read: the bytes it returned and how it ended; both may come together. */
  datatype FileRead = FileRead(data: Bytes, end: ReadEnd)

  /** The non-empty pieces read up to the end of the file, and whether that end was reached. */
  function Pieces(script: seq<FileRead>): (r: (seq<Bytes>, bool)) {
    if |script| == 0 then ([], false)
    else
      match script[0].end
      case AtEof => (Piece(script[0]), true)
      case IoError => (Piece(script[0]), false)
      case More => (Piece(script[0]) + Pieces(script[1..]).0, Pieces(script[1..]).1)
  }

  function Piece(r: FileRead): seq<Bytes> {
    if |r.data| > 0 then [r.data] else []
  }

  /** With the pieces before position `i` collected, one more read extends them or ends them. */
  lemma PiecesStep(script: seq<FileRead>, i: nat, before: seq<Bytes>)
    requires i <= |script| && Pieces(script).0 == before + Pieces(script[i..]).0
    requires Pieces(script).1 == Pieces(script[i..]).1
    ensures i == |script| ==> !Pieces(script).1
    ensures i < |script| && script[i].end == AtEof ==> Pieces(script) == (before + Piece(script[i]), true)
    ensures i < |script| && script[i].end == IoError ==> !Pieces(script).1
    ensures i < |script| && script[i].end == More ==>
              && Pieces(script).0 == (before + Piece(script[i])) + Pieces(script[i + 1..]).0
              && Pieces(script).1 == Pieces(script[i + 1..]).1
  {
    if i < |script| {
      assert script[i..][1..] == script[i + 1..];
    }
  }

  function Concat(pieces: seq<Bytes>): Bytes {
    if |pieces| == 0 then [] else pieces[0] + Concat(pieces[1..])
  }

  function Trailer(codec: Codec, size: nat, content: Bytes): Bytes {
    Text(META_PREFIX) + codec.encode(Metadata(Text(ALGORITHM), CHUNK_SIZE, size, codec.hash(content)))
  }

  function FileChunks(codec: Codec, h: Header, pieces: seq<Bytes>): seq<Bytes> {
    [EncodeHeader(h)] + pieces + [Trailer(codec, h.size, Concat(pieces))]
  }

  lemma {:induction false} ConcatAppend(a: seq<Bytes>, b: seq<Bytes>)
    ensures Concat(a + b) == Concat(a) + Concat(b)
  {
    if |a| > 0 {
      assert (a + b)[1..] == a[1..] + b;
      ConcatAppend(a[1..], b);
    } else {
      assert a + b == b;
    }
  }

  lemma ConcatOne(a: seq<Bytes>, x: Bytes)
    ensures Concat(a + [x]) == Concat(a) + x
  {
    ConcatAppend(a, [x]);
    assert Concat([x]) == x + [];
  }

  /** One non-empty read is hashed and becomes one chunk; an empty one leaves no trace. */
  method SendPiece(writer: AeadWriter, r: FileRead, hashed: Bytes, ghost pieces: seq<Bytes>)
      returns (ok: bool, hashed': Bytes)
    requires writer.Valid() && !writer.failed && |r.data| <= CHUNK_SIZE && hashed == Concat(pieces)
    modifies writer
    ensures writer.Valid() && hashed' == Concat(pieces + Piece(r))
    ensures ok == !writer.failed && (ok <==> |old(writer.chunks) + Piece(r)| <= writer.frames || Piece(r) == [])
    ensures writer.chunks + writer.lost == old(writer.chunks) + Piece(r)
    ensures ok ==> writer.chunks == old(writer.chunks) + Piece(r)
  {
    ok, hashed' := true, hashed;
    assert pieces + [] == pieces && writer.chunks + [] == writer.chunks;
    if |r.data| > 0 {
      hashed' := hashed' + r.data;
      ConcatOne(pieces, r.data);
      ok := writer.WriteChunk(r.data);
    }
  }

  /** The read loop: it succeeds when the end of the file is reached and the network took every piece. */
  method SendData(writer: AeadWriter, script: seq<FileRead>) returns (done: bool, hashed: Bytes)
    requires writer.Valid() && !writer.failed
    requires forall r :: r in script ==> |r.data| <= CHUNK_SIZE
    modifies writer
    ensures writer.Valid() && (done ==> !writer.failed)
    ensures done <==> Pieces(script).1 && |old(writer.chunks) + Pieces(script).0| <= writer.frames
    ensures done ==> hashed == Concat(Pieces(script).0) && writer.chunks == old(writer.chunks) + Pieces(script).0
    ensures writer.chunks + writer.lost <= old(writer.chunks) + Pieces(script).0
  {
    hashed := [];
    var i, ok := 0, true;
    ghost var before, pieces: seq<Bytes> := writer.chunks, [];
    assert script[0..] == script && [] + Pieces(script).0 == Pieces(script).0 && before + [] == before;
    while i < |script|
      invariant 0 <= i <= |script| && writer.Valid() && !writer.failed && hashed == Concat(pieces)
      invariant writer.chunks == before + pieces
      invariant Pieces(script).0 == pieces + Pieces(script[i..]).0
      invariant Pieces(script).1 == Pieces(script[i..]).1
    {
      var r := script[i];
      PiecesStep(script, i, pieces);
      SealedIsPrefix(before, pieces, Piece(r), Pieces(script).0);
      ok, hashed := SendPiece(writer, r, hashed, pieces);
      pieces := pieces + Piece(r);
      assert writer.chunks + writer.lost == before + pieces;
      if !ok {
        return false, hashed;
      }
      if r.end != More {
        return r.end == AtEof, hashed;
      }
      i := i + 1;
    }
    PiecesStep(script, i, pieces);
    done := false;
  }

  lemma SealedIsPrefix(before: seq<Bytes>, pieces: seq<Bytes>, more: seq<Bytes>, all: seq<Bytes>)
    requires pieces + more <= all
    ensures (before + pieces) + more == before + (pieces + more) <= before + all
    ensures |before + pieces + more| <= |before + all|
  {
  }

  predicate Fits(codec: Codec, size: nat, content: Bytes) {
    |Trailer(codec, size, content)| <= MAX_PLAINTEXT
  }

  /**
   * Sends a file whose size was `size` when it was opened; `ready` tells whether the file and the stream
   * could be opened and the base nonce was written. The script of reads ends where the caller cancels.
   * The reported size is the one seen at opening, not the number of bytes read.
   * Whatever goes wrong, what has been sealed is a beginning of the whole stream.
   */
  method SendFile(writer: AeadWriter, codec: Codec, ready: bool, name: Bytes, size: nat, script: seq<FileRead>)
      returns (sent: Option<(Bytes, nat)>)
    requires writer.Valid() && writer.chunks == [] && !writer.failed
    requires forall r :: r in script ==> |r.data| <= CHUNK_SIZE
    modifies writer
    ensures writer.Valid()
    ensures sent.Some? <==>
              && ready && |name| <= MAX_NAME && Pieces(script).1 && Fits(codec, size, Concat(Pieces(script).0))
              && |Pieces(script).0| + 2 <= writer.frames
    ensures sent.Some? ==>
              && writer.chunks == FileChunks(codec, Header(name, size), Pieces(script).0)
              && sent.value == (codec.hash(Concat(Pieces(script).0)), size)
    ensures writer.chunks + writer.lost <= FileChunks(codec, Header(name, size), Pieces(script).0)
  {
    if |name| > MAX_NAME || !ready {
      return None;
    }
    var header := EncodeHeader(Header(name, size));
    WholeStream(codec, Header(name, size), Pieces(script).0);
    var ok := writer.WriteChunk(header);
    assert writer.chunks + writer.lost == [header];
    if !ok {
      return None;
    }
    assert writer.chunks == [header];
    var done, hashed := SendData(writer, script);
    if !done {
      return None;
    }
    ok := SendTrailer(writer, codec, size, hashed);
    if !ok {
      return None;
    }
    return Some((codec.hash(hashed), size));
  }

  /** The parts of a whole stream, in order. */
  lemma WholeStream(codec: Codec, h: Header, pieces: seq<Bytes>)
    ensures [EncodeHeader(h)] <= [EncodeHeader(h)] + pieces <= FileChunks(codec, h, pieces)
    ensures [EncodeHeader(h)] + pieces + [Trailer(codec, h.size, Concat(pieces))] == FileChunks(codec, h, pieces)
  {
  }

  method SendTrailer(writer: AeadWriter, codec: Codec, size: nat, content: Bytes) returns (ok: bool)
    requires writer.Valid() && !writer.failed
    modifies writer
    ensures writer.Valid() && (ok <==> Fits(codec, size, content) && |old(writer.chunks)| < writer.frames)
    ensures ok ==> writer.chunks == old(writer.chunks) + [Trailer(codec, size, content)] && writer.lost == []
    ensures writer.chunks + writer.lost <= old(writer.chunks) + [Trailer(codec, size, content)]
  {
    ok := writer.WriteChunk(Trailer(codec, size, content));
  }

  // ----- Receiving -----

  datatype Received = Received(name: Bytes, kept: Bytes, digest: Bytes, size: nat)

  datatype Problem =
    | ReadFailed | BadHeader | NoTarget | EmptyChunk | TooMuchData | TooLittleData
    | NoTrailer | BadTrailer | ExtraChunk | Cancelled | StoreFailed

  /**
   * The receiver's own side: whether it could create its target file, how many chunks it handles
   * before its caller cancels, how many it stores before a write fails, and whether the file closes.
   */
  datatype Local = Local(ready: bool, cancelAfter: nat, writes: nat, closes: bool)

  /** Nothing on the receiver's side stands in the way of this many chunks. */
  predicate Admits(local: Local, chunks: nat) {
    local.ready && chunks <= local.cancelAfter && chunks <= local.writes && local.closes
  }

  function Clamp(n: nat): nat {
    if n > MAX_INT64 then MAX_INT64 else n
  }

  /** Data chunks from position `k` until `size` bytes are written; the first is at position 1. */
  function TakeData(local: Local, feed: Feed, k: nat, size: nat, written: Bytes): (r: Result<(nat, Bytes), Problem>)
    requires 1 <= k <= |feed.chunks| && |written| <= size
    ensures r.Ok? ==> k <= r.value.0 <= |feed.chunks| && |r.value.1| == size
    decreases size - |written|
  {
    if |written| == size then Ok((k, written))
    else if k - 1 >= local.cancelAfter then Err(Cancelled)
    else if k == |feed.chunks| then Err(if feed.end == Eof then TooLittleData else ReadFailed)
    else
      var chunk := feed.chunks[k];
      if |chunk| == 0 then Err(EmptyChunk)
      else if |chunk| > size - |written| then Err(TooMuchData)
      else if k - 1 >= local.writes then Err(StoreFailed)
      else TakeData(local, feed, k + 1, size, written + chunk)
  }

  predicate CheckTrailer(codec: Codec, chunk: Bytes, size: nat, digest: Bytes) {
    && Text(META_PREFIX) <= chunk
    && var meta := codec.decode(chunk[|META_PREFIX|..]);
       && meta.Some? && meta.value.hash == Text(ALGORITHM)
       && meta.value.chunkSize == CHUNK_SIZE && meta.value.size == size
       && |digest| == DIGEST_SIZE && meta.value.digest == digest
  }

  /** What a receiver makes of a stream. */
  function Receive(codec: Codec, local: Local, feed: Feed): Result<Received, Problem> {
    if |feed.chunks| == 0 then Err(ReadFailed)
    else
      match ParseHeader(feed.chunks[0])
      case None => Err(BadHeader)
      case Some(h) =>
        if !local.ready then Err(NoTarget)
        else
          match TakeData(local, feed, 1, h.size, [])
          case Err(e) => Err(e)
          case Ok((k, kept)) =>
            if k == |feed.chunks| then Err(if feed.end == Eof then NoTrailer else ReadFailed)
            else if !CheckTrailer(codec, feed.chunks[k], h.size, codec.hash(kept)) then Err(BadTrailer)
            else if k + 1 < |feed.chunks| then Err(ExtraChunk)
            else if feed.end != Eof then Err(ReadFailed)
            else if !local.closes then Err(StoreFailed)
            else Ok(Received(h.name, kept, codec.hash(kept), Clamp(h.size)))
  }

  /** The reader stands at position `k` of everything it will read. */
  ghost predicate At(reader: AeadReader, log: seq<Sealed>, feed: Feed, k: nat)
    reads reader
  {
    && k <= |feed.chunks|
    && ReadAll(reader.aead, log, reader.base, reader.ctr, reader.rest) == Feed(feed.chunks[k..], feed.end)
  }

  method NextChunk(reader: AeadReader, log: seq<Sealed>, ghost feed: Feed, ghost k: nat) returns (r: Read)
    requires At(reader, log, feed, k)
    modifies reader
    ensures r.Chunk? <==> k < |feed.chunks|
    ensures r.Chunk? ==> r.plain == feed.chunks[k] && At(reader, log, feed, k + 1)
    ensures !r.Chunk? ==> r == feed.end
  {
    r := reader.ReadChunk(log);
    if r.Chunk? {
      assert feed.chunks[k..][1..] == feed.chunks[k + 1..];
    }
  }

  /** The receiving loop: it ends on the bytes missing, on a refusal, or when the caller cancels. */
  method ReceiveData(reader: AeadReader, log: seq<Sealed>, local: Local, size: nat, ghost feed: Feed)
      returns (result: Result<(nat, Bytes), Problem>)
    requires |feed.chunks| > 0 && At(reader, log, feed, 1)
    modifies reader
    ensures result == TakeData(local, feed, 1, size, [])
    ensures result.Ok? ==> At(reader, log, feed, result.value.0)
  {
    var written: Bytes, k := [], 1;
    while |written| < size
      invariant |written| <= size && k >= 1 && At(reader, log, feed, k)
      invariant TakeData(local, feed, 1, size, []) == TakeData(local, feed, k, size, written)
      decreases size - |written|
    {
      if k - 1 >= local.cancelAfter {
        return Err(Cancelled);
      }
      var r := NextChunk(reader, log, feed, k);
      if !r.Chunk? {
        return Err(if r == Eof then TooLittleData else ReadFailed);
      }
      if |r.plain| == 0 {
        return Err(EmptyChunk);
      }
      if |r.plain| > size - |written| {
        return Err(TooMuchData);
      }
      if k - 1 >= local.writes {
        return Err(StoreFailed);
      }
      written, k := written + r.plain, k + 1;
    }
    return Ok((k, written));
  }

  method ReceiveFile(reader: AeadReader, log: seq<Sealed>, codec: Codec, local: Local)
      returns (result: Result<Received, Problem>)
    modifies reader
    ensures result == Receive(codec, local, old(ReadAll(reader.aead, log, reader.base, reader.ctr, reader.rest)))
  {
    ghost var feed := ReadAll(reader.aead, log, reader.base, reader.ctr, reader.rest);
    assert feed.chunks[0..] == feed.chunks;
    var r := NextChunk(reader, log, feed, 0);
    if !r.Chunk? {
      return Err(ReadFailed);
    }
    var parsed := ParseHeader(r.plain);
    if parsed.None? {
      return Err(BadHeader);
    }
    if !local.ready {
      return Err(NoTarget);
    }
    var size := parsed.value.size;
    var data := ReceiveData(reader, log, local, size, feed);
    if data.Err? {
      return Err(data.error);
    }
    var (k, written) := data.value;
    r := NextChunk(reader, log, feed, k);
    if !r.Chunk? {
      return Err(if r == Eof then NoTrailer else ReadFailed);
    }
    if !CheckTrailer(codec, r.plain, size, codec.hash(written)) {
      return Err(BadTrailer);
    }
    r := NextChunk(reader, log, feed, k + 1);
    if r.Chunk? {
      return Err(ExtraChunk);
    }
    if r == Failed {
      return Err(ReadFailed);
    }
    if !local.closes {
      return Err(StoreFailed);
    }
    return Ok(Received(parsed.value.name, written, codec.hash(written), Clamp(size)));
  }

  // ----- Theorems -----

  /** A well-formed stream: header, non-empty data of the advertised size, a matching trailer, a clean end. */
  ghost predicate WellFormed(codec: Codec, feed: Feed, data: seq<Bytes>, h: Header) {
    && |feed.chunks| == |data| + 2 && feed.end == Eof
    && ParseHeader(feed.chunks[0]) == Some(h)
    && feed.chunks[1..|data| + 1] == data
    && (forall c :: c in data ==> |c| > 0)
    && |Concat(data)| == h.size
    && MetadataFor(codec, feed.chunks[|data| + 1], Concat(data))
  }

  /** "META:" and the text of exactly the metadata that belongs to this content. */
  ghost predicate MetadataFor(codec: Codec, chunk: Bytes, content: Bytes) {
    && |chunk| >= 5 && chunk[..5] == Text("META:")
    && codec.decode(chunk[5..]) == Some(Metadata(Text("blake3-256"), 65536, |content|, codec.hash(content)))
    && |codec.hash(content)| == 32
  }

  /** A trailer passes the receiver's comparisons exactly when it is the metadata of what was received. */
  lemma TrailerIsExact(codec: Codec, chunk: Bytes, content: Bytes)
    ensures CheckTrailer(codec, chunk, |content|, codec.hash(content)) <==> MetadataFor(codec, chunk, content)
  {
    assert |Text(META_PREFIX)| == 5 && |Text("META:")| == 5;
    if MetadataFor(codec, chunk, content) {
      assert chunk == chunk[..5] + chunk[5..];
    }
  }

  lemma {:induction false} TakeDataTakesAll(local: Local, feed: Feed, k: nat, data: seq<Bytes>,
                                            size: nat, written: Bytes)
    requires 1 <= k && k + |data| <= |feed.chunks| && feed.chunks[k..k + |data|] == data
    requires k + |data| - 1 <= local.cancelAfter && k + |data| - 1 <= local.writes
    requires (forall c :: c in data ==> |c| > 0) && |written| + |Concat(data)| == size
    ensures TakeData(local, feed, k, size, written) == Ok((k + |data|, written + Concat(data)))
    decreases |data|
  {
    if |data| == 0 {
      assert written + [] == written;
    } else {
      assert feed.chunks[k] == data[0] && feed.chunks[k + 1..k + |data|] == data[1..];
      TakeDataTakesAll(local, feed, k + 1, data[1..], size, written + data[0]);
      assert (written + data[0]) + Concat(data[1..]) == written + Concat(data);
    }
  }

  lemma {:induction false} TakenData(local: Local, feed: Feed, k: nat, size: nat, written: Bytes)
    requires 1 <= k <= |feed.chunks| && |written| <= size && TakeData(local, feed, k, size, written).Ok?
    ensures var (j, kept) := TakeData(local, feed, k, size, written).value;
            && (forall c :: c in feed.chunks[k..j] ==> |c| > 0)
            && kept == written + Concat(feed.chunks[k..j])
            && (j > k ==> j - 1 <= local.cancelAfter && j - 1 <= local.writes)
    decreases size - |written|
  {
    var (j, kept) := TakeData(local, feed, k, size, written).value;
    if |written| < size {
      TakenData(local, feed, k + 1, size, written + feed.chunks[k]);
      assert feed.chunks[k..j] == [feed.chunks[k]] + feed.chunks[k + 1..j];
    } else {
      assert written + [] == written;
    }
  }

  lemma AcceptedIsWellFormed(codec: Codec, local: Local, feed: Feed, rec: Received)
      returns (data: seq<Bytes>, h: Header)
    requires Receive(codec, local, feed) == Ok(rec)
    ensures WellFormed(codec, feed, data, h) && Admits(local, |data|)
    ensures rec == Received(h.name, Concat(data), codec.hash(Concat(data)), Clamp(h.size))
  {
    h := ParseHeader(feed.chunks[0]).value;
    var (k, kept) := TakeData(local, feed, 1, h.size, []).value;
    TakenData(local, feed, 1, h.size, []);
    data := feed.chunks[1..k];
    assert kept == Concat(data);
    TrailerIsExact(codec, feed.chunks[k], kept);
  }

  lemma WellFormedIsAccepted(codec: Codec, local: Local, feed: Feed, data: seq<Bytes>, h: Header)
    requires WellFormed(codec, feed, data, h) && Admits(local, |data|)
    ensures Receive(codec, local, feed)
            == Ok(Received(h.name, Concat(data), codec.hash(Concat(data)), Clamp(h.size)))
  {
    TakeDataTakesAll(local, feed, 1, data, h.size, []);
    assert [] + Concat(data) == Concat(data);
    TrailerIsExact(codec, feed.chunks[|data| + 1], Concat(data));
  }

  /**
   * On any stream at all: an accepted file ends in the metadata of what was kept, with the advertised
   * size and its digest, and any one of the comparisons that fails rejects it.
   */
  lemma AcceptedTrailer(codec: Codec, local: Local, feed: Feed, rec: Received)
    requires Receive(codec, local, feed) == Ok(rec)
    ensures |feed.chunks| >= 2
    ensures var last := feed.chunks[|feed.chunks| - 1];
            && |last| >= 5 && last[..5] == Text("META:")
            && var m := codec.decode(last[5..]);
               && m.Some? && m.value.hash == Text("blake3-256") && m.value.chunkSize == 65536
               && ParseHeader(feed.chunks[0]).Some?
               && m.value.size == ParseHeader(feed.chunks[0]).value.size == |rec.kept|
               && m.value.digest == rec.digest == codec.hash(rec.kept) && |rec.digest| == 32
               && rec.size == if m.value.size < 0x8000_0000_0000_0000 then m.value.size else 0x7fff_ffff_ffff_ffff
  {
    var data, h := AcceptedIsWellFormed(codec, local, feed, rec);
  }

  /**
   * Reception is sound and complete: it succeeds exactly on the well-formed streams that the
   * receiver's own side admits, with their data.
   */
  lemma ReceiveIsExact(codec: Codec, local: Local, feed: Feed, rec: Received)
    ensures Receive(codec, local, feed) == Ok(rec) <==>
            exists data, h :: WellFormed(codec, feed, data, h) && Admits(local, |data|)
                              && rec == Received(h.name, Concat(data), codec.hash(Concat(data)), Clamp(h.size))
  {
    if Receive(codec, local, feed) == Ok(rec) {
      var data, h := AcceptedIsWellFormed(codec, local, feed, rec);
    }
    if data, h :| WellFormed(codec, feed, data, h) && Admits(local, |data|)
                  && rec == Received(h.name, Concat(data), codec.hash(Concat(data)), Clamp(h.size)) {
      WellFormedIsAccepted(codec, local, feed, data, h);
    }
  }

  lemma {:induction false} TakeDataAdvances(local: Local, feed: Feed, k: nat, data: seq<Bytes>,
                                            size: nat, written: Bytes)
    requires 1 <= k && k + |data| <= |feed.chunks| && feed.chunks[k..k + |data|] == data
    requires k + |data| - 1 <= local.cancelAfter && k + |data| - 1 <= local.writes
    requires (forall c :: c in data ==> |c| > 0) && |written| + |Concat(data)| <= size
    ensures |written + Concat(data)| <= size
    ensures TakeData(local, feed, k, size, written) == TakeData(local, feed, k + |data|, size, written + Concat(data))
    decreases |data|
  {
    if |data| == 0 {
      assert written + [] == written;
    } else {
      assert feed.chunks[k] == data[0] && feed.chunks[k + 1..k + |data|] == data[1..];
      TakeDataAdvances(local, feed, k + 1, data[1..], size, written + data[0]);
      assert (written + data[0]) + Concat(data[1..]) == written + Concat(data);
    }
  }

  /**
   * Why a stream is refused, when the receiver's own side allows it to be taken: after a header and some
   * good data, what comes next decides.
   */
  lemma RefusalIsExplained(codec: Codec, local: Local, feed: Feed, data: seq<Bytes>, h: Header)
    requires 1 + |data| <= |feed.chunks| && ParseHeader(feed.chunks[0]) == Some(h)
    requires feed.chunks[1..|data| + 1] == data && (forall c :: c in data ==> |c| > 0) && |Concat(data)| <= h.size
    requires local.ready && |data| < local.cancelAfter && |data| < local.writes
    ensures var left, k := h.size - |Concat(data)|, |data| + 1;
            if k == |feed.chunks| then
              Receive(codec, local, feed) ==
              Err(if feed.end != Eof then ReadFailed else if left > 0 then TooLittleData else NoTrailer)
            else if left > 0 then
              && (feed.chunks[k] == [] ==> Receive(codec, local, feed) == Err(EmptyChunk))
              && (|feed.chunks[k]| > left ==> Receive(codec, local, feed) == Err(TooMuchData))
            else if !MetadataFor(codec, feed.chunks[k], Concat(data)) then
              Receive(codec, local, feed) == Err(BadTrailer)
            else if k + 1 < |feed.chunks| then Receive(codec, local, feed) == Err(ExtraChunk)
            else feed.end != Eof ==> Receive(codec, local, feed) == Err(ReadFailed)
  {
    TakeDataAdvances(local, feed, 1, data, h.size, []);
    assert [] + Concat(data) == Concat(data);
    if |data| + 1 < |feed.chunks| {
      TrailerIsExact(codec, feed.chunks[|data| + 1], Concat(data));
    }
  }

  /** Every piece is non-empty and nothing read up to the end is lost, however reads split the file. */
  lemma {:induction false} PiecesKeepContent(script: seq<FileRead>, content: Bytes)
    requires Delivers(script, content)
    ensures Pieces(script).1 && Concat(Pieces(script).0) == content
    ensures forall p :: p in Pieces(script).0 ==> |p| > 0
  {
    var r := script[0];
    PieceContent(r);
    if r.end == More {
      PiecesKeepContent(script[1..], content[|r.data|..]);
      ConcatAppend(Piece(r), Pieces(script[1..]).0);
    }
  }

  lemma PieceContent(r: FileRead)
    ensures Concat(Piece(r)) == r.data
  {
    ConcatOne([], r.data);
    assert [] + [r.data] == [r.data];
  }

  /** The reads return `content` from front to back and then report its end. */
  ghost predicate Delivers(script: seq<FileRead>, content: Bytes) {
    && |script| > 0 && script[0].data <= content
    && match script[0].end
       case IoError => false
       case AtEof => script[0].data == content
       case More => Delivers(script[1..], content[|script[0].data|..])
  }

  lemma TrailerChecks(codec: Codec, size: nat, content: Bytes)
    requires Sane(codec)
    ensures CheckTrailer(codec, Trailer(codec, size, content), size, codec.hash(content))
  {
    var m := Metadata(Text(ALGORITHM), CHUNK_SIZE, size, codec.hash(content));
    assert Trailer(codec, size, content)[|META_PREFIX|..] == codec.encode(m);
  }

  lemma {:induction false} ConcatTake(pieces: seq<Bytes>, m: nat)
    requires m <= |pieces|
    ensures Concat(pieces[..m]) <= Concat(pieces)
  {
    assert pieces == pieces[..m] + pieces[m..];
    ConcatAppend(pieces[..m], pieces[m..]);
  }

  /**
   * Whatever part of what a sender wrote arrives, an accepted file is the first `size` bytes of what
   * was read, under the advertised name and size.
   */
  lemma AcceptedIsPrefixOfSent(codec: Codec, local: Local, h: Header, pieces: seq<Bytes>, feed: Feed, rec: Received)
    requires Sane(codec) && |h.name| <= MAX_NAME && h.size <= MAX_INT64
    requires feed.chunks <= FileChunks(codec, h, pieces)
    requires Receive(codec, local, feed) == Ok(rec)
    ensures rec.name == h.name && rec.size == h.size == |rec.kept| && rec.digest == codec.hash(rec.kept)
    ensures rec.kept <= Concat(pieces)
  {
    var data, h' := AcceptedIsWellFormed(codec, local, feed, rec);
    HeaderRoundTrip(h);
    var all := FileChunks(codec, h, pieces);
    assert feed.chunks[0] == all[0] == EncodeHeader(h);
    assert data == pieces[..|data|] by {
      assert forall i :: 0 <= i < |data| ==> data[i] == feed.chunks[i + 1] == all[i + 1] == pieces[i];
    }
    ConcatTake(pieces, |data|);
  }

  /**
   * The undisturbed chunks of a file are accepted exactly when the reads returned as many bytes as its
   * size at opening and the receiver's own side admits them; then those bytes are what is kept.
   */
  lemma HonestTransfer(codec: Codec, local: Local, h: Header, pieces: seq<Bytes>)
    requires Sane(codec) && |h.name| <= MAX_NAME && h.size <= MAX_INT64
    requires forall p :: p in pieces ==> |p| > 0
    ensures var r := Receive(codec, local, Feed(FileChunks(codec, h, pieces), Eof));
            && (r.Ok? <==> |Concat(pieces)| == h.size && Admits(local, |pieces|))
            && (r.Ok? ==> r.value == Received(h.name, Concat(pieces), codec.hash(Concat(pieces)), h.size))
  {
    var feed := Feed(FileChunks(codec, h, pieces), Eof);
    HeaderRoundTrip(h);
    TrailerChecks(codec, h.size, Concat(pieces));
    var r := Receive(codec, local, feed);
    if r.Ok? {
      AllPiecesTaken(codec, local, h, pieces, feed, r.value);
    }
    if |Concat(pieces)| == h.size && Admits(local, |pieces|) {
      assert feed.chunks[1..|pieces| + 1] == pieces;
      assert feed.chunks[|pieces| + 1] == Trailer(codec, h.size, Concat(pieces));
      WellFormedIsAccepted(codec, local, feed, pieces, h);
    }
  }

  lemma AllPiecesTaken(codec: Codec, local: Local, h: Header, pieces: seq<Bytes>, feed: Feed, rec: Received)
    requires Sane(codec) && |h.name| <= MAX_NAME && h.size <= MAX_INT64
    requires feed.chunks == FileChunks(codec, h, pieces) && Receive(codec, local, feed) == Ok(rec)
    ensures |Concat(pieces)| == h.size && Admits(local, |pieces|)
  {
    var data, h' := AcceptedIsWellFormed(codec, local, feed, rec);
    HeaderRoundTrip(h);
    assert |data| == |pieces|;
    assert feed.chunks[1..|pieces| + 1] == pieces;
  }

  lemma {:induction false} PiecesBounded(pieces: seq<Bytes>)
    requires forall p :: p in pieces ==> |p| > 0
    ensures |pieces| <= |Concat(pieces)|
  {
    if |pieces| > 0 {
      PiecesBounded(pieces[1..]);
    }
  }

  lemma {:induction false} PiecesSmall(script: seq<FileRead>)
    requires forall r :: r in script ==> |r.data| <= CHUNK_SIZE
    ensures forall p :: p in Pieces(script).0 ==> |p| <= CHUNK_SIZE
  {
    if |script| > 0 {
      assert script[0] in script;
      PiecesSmall(script[1..]);
    }
  }

  /**
   * Send and receive are inverse, from the file to the file: however reads split an unchanged file,
   * also an empty one, what the sender writes to the network is accepted and kept as that file.
   */
  lemma UnchangedFileArrives(aead: Aead, base: Base, codec: Codec, local: Local,
                             name: Bytes, content: Bytes, script: seq<FileRead>)
    requires Ideal(aead) && Sane(codec) && |name| <= MAX_NAME && |content| <= MAX_INT64
    requires Delivers(script, content) && forall r :: r in script ==> |r.data| <= CHUNK_SIZE
    requires Fits(codec, |content|, content) && Admits(local, |Pieces(script).0|)
    ensures var chunks := FileChunks(codec, Header(name, |content|), Pieces(script).0);
            Receive(codec, local, ReadAll(aead, SealedChunks(base, chunks), base, 0, Wire(aead, base, chunks, 0)))
            == Ok(Received(name, content, codec.hash(content), |content|))
  {
    var pieces := Pieces(script).0;
    var chunks := FileChunks(codec, Header(name, |content|), pieces);
    PiecesKeepContent(script, content);
    PiecesBounded(pieces);
    PiecesSmall(script);
    assert Wire(aead, base, chunks, 0) + [] == Wire(aead, base, chunks, 0) && chunks[0..] == chunks;
    WrittenReadsBack(aead, base, chunks, 0, []);
    HonestTransfer(codec, local, Header(name, |content|), pieces);
  }

  /**
   * End to end over any network: `sent` is whatever the sender came to seal. Once the base nonce has
   * arrived, whatever bytes follow, an accepted file is a prefix of what the sender read, of exactly
   * the size it announced; if the file did not change while it was sent, it is the whole file.
   */
  lemma AnyNetwork(aead: Aead, base: Base, codec: Codec, local: Local, h: Header, pieces: seq<Bytes>,
                   sent: seq<Bytes>, bytes: Bytes)
    requires Ideal(aead) && Sane(codec) && |h.name| <= MAX_NAME && h.size <= MAX_INT64
    requires |sent| < COUNTERS && sent <= FileChunks(codec, h, pieces)
    ensures var r := Receive(codec, local, ReadAll(aead, SealedChunks(base, sent), base, 0, bytes));
            r.Ok? ==>
              && r.value.name == h.name && r.value.size == h.size == |r.value.kept|
              && r.value.digest == codec.hash(r.value.kept)
              && r.value.kept <= Concat(pieces)
              && (|Concat(pieces)| == h.size ==> r.value.kept == Concat(pieces))
  {
    var feed := ReadAll(aead, SealedChunks(base, sent), base, 0, bytes);
    ReaderYieldsPrefix(aead, base, sent, 0, bytes);
    assert sent[0..] == sent;
    if Receive(codec, local, feed).Ok? {
      AcceptedIsPrefixOfSent(codec, local, h, pieces, feed, Receive(codec, local, feed).value);
    }
  }

  // ----- The assumptions can be met -----

  /** Sealing by appending sixteen zeros loses nothing. */
  function PlainAead(): Aead {
    Aead((n, p) => p + seq(OVERHEAD, i => 0))
  }

  lemma PlainAeadIsIdeal()
    ensures Ideal(PlainAead())
  {
    forall n: Base, p: Bytes, q: Bytes | PlainAead().seal(n, p) == PlainAead().seal(n, q)
      ensures p == q
    {
      var a, b := PlainAead().seal(n, p), PlainAead().seal(n, q);
      assert a[..|a| - OVERHEAD] == p && b[..|b| - OVERHEAD] == q;
    }
  }

  predicate AllDigits(b: Bytes) {
    forall i :: 0 <= i < |b| ==> Digit(b[i])
  }

  function EncodeMetadata(m: Metadata): Bytes {
    Encode([m.hash, Decimal(m.chunkSize), Decimal(m.size), m.digest])
  }

  function DecodeMetadata(b: Bytes): Option<Metadata> {
    match Parse(b)
    case None => None
    case Some(f) =>
      if |f| != 4 || !AllDigits(f[1]) || !AllDigits(f[2]) then None
      else Some(Metadata(f[0], Value(f[1]), Value(f[2]), f[3]))
  }

  /** A hash that at least tells lengths apart, and length-prefixed metadata. */
  function PlainCodec(): Codec {
    Codec(b => LittleEndian(|b|, DIGEST_SIZE), m => EncodeMetadata(m), b => DecodeMetadata(b))
  }

  lemma MetadataRoundTrip(m: Metadata)
    ensures DecodeMetadata(EncodeMetadata(m)) == Some(m)
  {
    ParseUndoesEncode([m.hash, Decimal(m.chunkSize), Decimal(m.size), m.digest]);
    ValueOfDecimal(m.chunkSize);
    ValueOfDecimal(m.size);
  }

  lemma PlainCodecIsSane()
    ensures Sane(PlainCodec())
  {
    forall m: Metadata
      ensures PlainCodec().decode(PlainCodec().encode(m)) == Some(m)
    {
      MetadataRoundTrip(m);
    }
  }

  lemma {:induction false} Pow256Grows(m: nat, n: nat)
    requires m <= n
    ensures Pow256(m) <= Pow256(n)
  {
    if m < n {
      Pow256Grows(m, n - 1);
    }
  }

  /** The plain hash tells any two files apart whose sizes differ. */
  lemma PlainHashTellsLengths(a: Bytes, b: Bytes)
    requires |a| <= MAX_INT64 && |b| <= MAX_INT64
    ensures PlainCodec().hash(a) == PlainCodec().hash(b) <==> |a| == |b|
  {
    assert Pow256(8) == COUNTERS;
    Pow256Grows(8, DIGEST_SIZE);
    LittleEndianValue(|a|, DIGEST_SIZE);
    LittleEndianValue(|b|, DIGEST_SIZE);
  }

  function Pow10(n: nat): nat {
    if n == 0 then 1 else 10 * Pow10(n - 1)
  }

  lemma {:induction false} DecimalLength(n: nat, digits: nat)
    requires 0 < digits && n < Pow10(digits)
    ensures |Decimal(n)| <= digits
  {
    if n >= 10 {
      DecimalLength(n / 10, digits - 1);
    }
  }

  lemma PlainTrailerFits(content: Bytes)
    requires |content| <= MAX_INT64
    ensures Fits(PlainCodec(), |content|, content)
  {
    var m := Metadata(Text(ALGORITHM), CHUNK_SIZE, |content|, PlainCodec().hash(content));
    assert Pow10(5) == 100_000 && Pow10(10) == 10_000_000_000;
    assert Pow10(20) == 100_000_000_000_000_000_000;
    DecimalLength(CHUNK_SIZE, 5);
    DecimalLength(|content|, 20);
    EncodeLength([m.hash, Decimal(m.chunkSize), Decimal(m.size), m.digest]);
  }

  lemma {:induction false} EncodeLength(fields: seq<Bytes>)
    requires forall f :: f in fields ==> |f| < 100
    ensures |Encode(fields)| <= 102 * |fields|
  {
    if |fields| > 0 {
      assert fields[0] in fields && Pow10(2) == 100;
      DecimalLength(|fields[0]|, 2);
      EncodeLength(fields[1..]);
    }
  }

  /** Reading a file in full chunks. */
  function Reads(content: Bytes): (script: seq<FileRead>)
    ensures forall r :: r in script ==> |r.data| <= CHUNK_SIZE
  {
    if |content| <= CHUNK_SIZE then [FileRead(content, AtEof)]
    else [FileRead(content[..CHUNK_SIZE], More)] + Reads(content[CHUNK_SIZE..])
  }

  lemma {:induction false} ReadsDeliver(content: Bytes)
    ensures Delivers(Reads(content), content)
  {
    if |content| > CHUNK_SIZE {
      ReadsDeliver(content[CHUNK_SIZE..]);
      assert Reads(content)[1..] == Reads(content[CHUNK_SIZE..]);
    }
  }
}
