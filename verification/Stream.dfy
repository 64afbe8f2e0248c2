/**
 * The encrypted chunk stream: each chunk is sealed under its own nonce and framed by a 32-bit
 * length. The network may replace everything after the base nonce by any bytes at all.
 */
module Stream {
  import opened Common
  import opened Authenticators

  const NONCE_SIZE: nat := 24
  const OVERHEAD: nat := 16
  const MAX_PLAINTEXT: nat := 65545
  const COUNTERS: nat := 0x1_0000_0000_0000_0000

  /** The counter after one more chunk; it wraps like any 64-bit word. */
  function Succ(ctr: nat): nat {
    if ctr + 1 == COUNTERS then 0 else ctr + 1
  }

  // ----- Nonces -----

  /** Exclusive or of the low `bits` bits. */
  function Xor(a: nat, b: nat, bits: nat): (x: nat)
    ensures x < Pow2(bits)
  {
    if bits == 0 then 0 else 2 * Xor(a / 2, b / 2, bits - 1) + (if a % 2 == b % 2 then 0 else 1)
  }

  function Pow2(n: nat): (p: nat)
    ensures p > 0
  {
    if n == 0 then 1 else 2 * Pow2(n - 1)
  }

  function Bit(a: nat, k: nat): nat {
    if k == 0 then a % 2 else Bit(a / 2, k - 1)
  }

  /** Each bit of the result says whether the two bits differ. */
  lemma {:induction false} XorBits(a: nat, b: nat, bits: nat, k: nat)
    ensures Bit(Xor(a, b, bits), k) == if k < bits && Bit(a, k) != Bit(b, k) then 1 else 0
  {
    if bits == 0 {
      if k > 0 {
        XorBits(a / 2, b / 2, 0, k - 1);
      }
    } else if k > 0 {
      XorBits(a / 2, b / 2, bits - 1, k - 1);
    }
  }

  lemma {:induction false} XorCancels(a: nat, b: nat, c: nat, bits: nat)
    requires b < Pow2(bits) && c < Pow2(bits)
    ensures Xor(a, b, bits) == Xor(a, c, bits) <==> b == c
  {
    if bits > 0 && Xor(a, b, bits) == Xor(a, c, bits) {
      XorCancels(a / 2, b / 2, c / 2, bits - 1);
    }
  }

  function XorByte(a: byte, b: byte): byte {
    assert Pow2(8) == 256;
    Xor(a, b, 8)
  }

  lemma XorByteCancels(a: byte, b: byte, c: byte)
    ensures XorByte(a, b) == XorByte(a, c) <==> b == c
  {
    assert Pow2(8) == 256;
    XorCancels(a, b, c, 8);
  }

  /** Byte `i` of the counter, the least significant first. */
  function CounterByte(ctr: nat, i: nat): byte {
    if i == 0 then LowByte(ctr) else CounterByte(ctr / 256, i - 1)
  }

  function Pow256(n: nat): nat {
    if n == 0 then 1 else 256 * Pow256(n - 1)
  }

  lemma {:induction false} SameBytes(a: nat, b: nat, n: nat)
    requires a < Pow256(n) && b < Pow256(n)
    requires forall i :: 0 <= i < n ==> CounterByte(a, i) == CounterByte(b, i)
    ensures a == b
  {
    if n > 0 {
      forall i | 0 <= i < n - 1
        ensures CounterByte(a / 256, i) == CounterByte(b / 256, i)
      {
        assert CounterByte(a, i + 1) == CounterByte(b, i + 1);
      }
      SameBytes(a / 256, b / 256, n - 1);
      assert CounterByte(a, 0) == CounterByte(b, 0);
    }
  }

  type Base = b: Bytes | |b| == NONCE_SIZE witness seq(NONCE_SIZE, i => 0)

  /** The base with the counter folded into its last eight bytes. */
  function Nonce(base: Base, ctr: nat): (n: Base) {
    seq(NONCE_SIZE, i requires 0 <= i < NONCE_SIZE =>
      if i < 16 then base[i] else XorByte(base[i], CounterByte(ctr, 23 - i)))
  }

  /** The first sixteen bytes are the base's own; into the others the counter is mixed, its low byte last. */
  lemma NonceIsExact(base: Base, ctr: nat, i: nat, k: nat)
    requires i < NONCE_SIZE && k < 8
    ensures i < 16 ==> Nonce(base, ctr)[i] == base[i]
    ensures i >= 16 ==>
              Bit(Nonce(base, ctr)[i], k) == if Bit(base[i], k) != Bit(CounterByte(ctr, 23 - i), k) then 1 else 0
  {
    if i >= 16 {
      XorBits(base[i], CounterByte(ctr, 23 - i), 8, k);
    }
  }

  lemma NoncesDiffer(base: Base, a: nat, b: nat)
    requires a < COUNTERS && b < COUNTERS
    ensures Nonce(base, a) == Nonce(base, b) <==> a == b
  {
    if Nonce(base, a) == Nonce(base, b) {
      forall i | 0 <= i < 8
        ensures CounterByte(a, i) == CounterByte(b, i)
      {
        assert Nonce(base, a)[23 - i] == Nonce(base, b)[23 - i];
        XorByteCancels(base[23 - i], CounterByte(a, i), CounterByte(b, i));
      }
      assert Pow256(8) == COUNTERS;
      SameBytes(a, b, 8);
    }
  }

  method MakeNonce(base: Base, ctr: nat) returns (nonce: Base)
    ensures nonce == Nonce(base, ctr)
  {
    var b := new byte[NONCE_SIZE](i requires 0 <= i < NONCE_SIZE => base[i]);
    for i := 0 to 8
      invariant forall k :: 0 <= k < 24 - i ==> b[k] == base[k]
      invariant forall k :: 24 - i <= k < 24 ==> b[k] == XorByte(base[k], CounterByte(ctr, 23 - k))
    {
      b[23 - i] := XorByte(b[23 - i], CounterByte(ctr, i));
    }
    nonce := b[..];
  }

  // ----- Ideal authenticated encryption -----

  datatype Aead = Aead(seal: (Base, Bytes) -> Bytes)

  /** Sealing adds the tag's length and, under one nonce, loses nothing. */
  ghost predicate Ideal(aead: Aead) {
    && (forall n, p :: |aead.seal(n, p)| == |p| + OVERHEAD)
    && (forall n, p, q :: aead.seal(n, p) == aead.seal(n, q) ==> p == q)
  }

  /** What was sealed under the key, in order. */
  datatype Sealed = Sealed(nonce: Base, plain: Bytes)

  /** Opening succeeds only on what was sealed under the same nonce. */
  function Open(aead: Aead, log: seq<Sealed>, nonce: Base, ct: Bytes): (r: Option<Bytes>)
    ensures r.Some? ==> Sealed(nonce, r.value) in log && aead.seal(nonce, r.value) == ct
    ensures r.None? ==> forall s :: s in log && s.nonce == nonce ==> aead.seal(nonce, s.plain) != ct
  {
    if |log| == 0 then None
    else if log[0].nonce == nonce && aead.seal(nonce, log[0].plain) == ct then Some(log[0].plain)
    else Open(aead, log[1..], nonce, ct)
  }

  // ----- Framing -----

  function Frame(ct: Bytes): Bytes {
    Word(|ct|) + ct
  }

  /** Chunk `i` of a stream is sealed under counter `i`. */
  function SealedChunks(base: Base, chunks: seq<Bytes>): (log: seq<Sealed>)
    ensures |log| == |chunks|
    ensures forall i :: 0 <= i < |log| ==> log[i] == Sealed(Nonce(base, i), chunks[i])
  {
    seq(|chunks|, i requires 0 <= i < |chunks| => Sealed(Nonce(base, i), chunks[i]))
  }

  /** The bytes that follow the base nonce when nobody interferes, from chunk `from` on. */
  function Wire(aead: Aead, base: Base, chunks: seq<Bytes>, from: nat): Bytes
    requires from <= |chunks|
    decreases |chunks| - from
  {
    if from == |chunks| then []
    else Frame(aead.seal(Nonce(base, from), chunks[from])) + Wire(aead, base, chunks, from + 1)
  }

  /** What goes out of the frame of a write that fails after `n` bytes. */
  function Torn(aead: Aead, base: Base, ctr: nat, p: Bytes, n: nat): Bytes {
    var frame := Frame(aead.seal(Nonce(base, ctr), p));
    if n <= |frame| then frame[..n] else frame
  }

  /**
   * The network takes `frames` whole frames and then fails, after `torn` more bytes. A chunk whose
   * write failed has been sealed and is `lost`; its writer is of no further use.
   */
  class AeadWriter {
    const aead: Aead
    const base: Base
    const frames: nat
    const torn: nat
    var ctr: nat
    var wire: Bytes
    var room: nat
    var failed: bool
    ghost var chunks: seq<Bytes>
    ghost var lost: seq<Bytes>
    ghost var log: seq<Sealed>

    ghost predicate Valid()
      reads this
    {
      && |chunks| + room == frames && |lost| == (if failed then 1 else 0)
      && Sealing(aead, base, torn, chunks, lost, ctr, log, wire)
    }

    constructor (aead: Aead, base: Base, frames: nat, torn: nat)
      ensures Valid() && this.aead == aead && this.base == base && this.frames == frames && this.torn == torn
      ensures chunks == [] && !failed
    {
      this.aead, this.base, this.frames, this.torn := aead, base, frames, torn;
      ctr, wire, room, failed := 0, [], frames, false;
      chunks, lost, log := [], [], [];
    }

    method WriteChunk(p: Bytes) returns (ok: bool)
      requires Valid() && !failed
      modifies this
      ensures Valid()
      ensures ok <==> |p| <= MAX_PLAINTEXT && |old(chunks)| < frames
      ensures failed <==> |p| <= MAX_PLAINTEXT && !ok
      ensures chunks == (if ok then old(chunks) + [p] else old(chunks)) && lost == (if failed then [p] else [])
      ensures |p| > MAX_PLAINTEXT ==> wire == old(wire) && log == old(log)
    {
      if |p| > MAX_PLAINTEXT {
        return false;
      }
      var n := MakeNonce(base, ctr);
      var ct := aead.seal(n, p);
      log := log + [Sealed(n, p)];
      if room == 0 {
        SealTorn(aead, base, torn, chunks, ctr, old(log), wire, p);
        wire := wire + Torn(aead, base, ctr, p, torn);
        failed, lost := true, [p];
        return false;
      }
      SealWhole(aead, base, torn, chunks, ctr, old(log), wire, p);
      wire := wire + Frame(ct);
      ctr, room := Succ(ctr), room - 1;
      chunks := chunks + [p];
      return true;
    }
  }

  /** What a writer has sealed and sent: `chunks` whole, and of a lost one at most a part. */
  ghost predicate Sealing(aead: Aead, base: Base, torn: nat, chunks: seq<Bytes>, lost: seq<Bytes>,
                          ctr: nat, log: seq<Sealed>, wire: Bytes) {
    && ctr == |chunks| % COUNTERS
    && (|chunks + lost| <= COUNTERS ==> log == SealedChunks(base, chunks + lost))
    && (|chunks| <= COUNTERS ==>
          wire == Wire(aead, base, chunks, 0) + if |lost| == 1 then Torn(aead, base, ctr, lost[0], torn) else [])
  }

  lemma SealWhole(aead: Aead, base: Base, torn: nat, chunks: seq<Bytes>, ctr: nat,
                  log: seq<Sealed>, wire: Bytes, p: Bytes)
    requires Sealing(aead, base, torn, chunks, [], ctr, log, wire)
    ensures Sealing(aead, base, torn, chunks + [p], [], Succ(ctr), log + [Sealed(Nonce(base, ctr), p)],
                    wire + Frame(aead.seal(Nonce(base, ctr), p)))
  {
    var all := chunks + [p];
    assert chunks + [] == chunks && all + [] == all;
    Appended(aead, base, chunks, p, Nonce(base, ctr), aead.seal(Nonce(base, ctr), p));
    if |all| <= COUNTERS {
      assert wire == Wire(aead, base, chunks, 0);
      assert Wire(aead, base, all, 0) + [] == Wire(aead, base, all, 0);
    }
  }

  lemma SealTorn(aead: Aead, base: Base, torn: nat, chunks: seq<Bytes>, ctr: nat,
                  log: seq<Sealed>, wire: Bytes, p: Bytes)
    requires Sealing(aead, base, torn, chunks, [], ctr, log, wire)
    ensures Sealing(aead, base, torn, chunks, [p], ctr, log + [Sealed(Nonce(base, ctr), p)],
                    wire + Torn(aead, base, ctr, p, torn))
  {
    assert chunks + [] == chunks;
    Appended(aead, base, chunks, p, Nonce(base, ctr), aead.seal(Nonce(base, ctr), p));
    if |chunks| <= COUNTERS {
      assert wire == Wire(aead, base, chunks, 0);
    }
  }

  lemma NextCounter(n: nat)
    ensures Succ(n % COUNTERS) == (n + 1) % COUNTERS
    ensures n < COUNTERS ==> n % COUNTERS == n
  {
  }

  lemma Appended(aead: Aead, base: Base, chunks: seq<Bytes>, p: Bytes, n: Base, ct: Bytes)
    requires n == Nonce(base, |chunks| % COUNTERS) && ct == aead.seal(n, p)
    ensures Succ(|chunks| % COUNTERS) == |chunks + [p]| % COUNTERS
    ensures |chunks + [p]| <= COUNTERS ==>
              && SealedChunks(base, chunks + [p]) == SealedChunks(base, chunks) + [Sealed(n, p)]
              && Wire(aead, base, chunks + [p], 0) == Wire(aead, base, chunks, 0) + Frame(ct)
  {
    NextCounter(|chunks|);
    if |chunks| < COUNTERS {
      WireAppend(aead, base, chunks, p, 0);
    }
  }

  lemma {:induction false} WireAppend(aead: Aead, base: Base, chunks: seq<Bytes>, p: Bytes, from: nat)
    requires from <= |chunks|
    ensures Wire(aead, base, chunks + [p], from) ==
            Wire(aead, base, chunks, from) + Frame(aead.seal(Nonce(base, |chunks|), p))
    decreases |chunks| - from
  {
    var all := chunks + [p];
    if from < |chunks| {
      WireAppend(aead, base, chunks, p, from + 1);
      assert all[from] == chunks[from];
    } else {
      assert Wire(aead, base, all, from + 1) == [];
      assert all[from] == p;
    }
  }

  // ----- Reading -----

  datatype Read = Chunk(plain: Bytes) | Eof | Failed

  /** One read: what comes back, and the bytes left. */
  function ReadFrame(aead: Aead, log: seq<Sealed>, base: Base, ctr: nat, rest: Bytes): (r: (Read, Bytes))
    ensures r.0.Chunk? ==> |r.1| < |rest|
  {
    if |rest| == 0 then (Eof, [])
    else if |rest| < 4 then (Failed, [])
    else
      var ln, body := FromWord(rest[..4]), rest[4..];
      if ln < OVERHEAD || ln > MAX_PLAINTEXT + OVERHEAD then (Failed, body)
      // A full read of a missing body reports the same end of stream as a missing length.
      else if |body| == 0 then (Eof, [])
      else if |body| < ln then (Failed, [])
      else
        match Open(aead, log, Nonce(base, ctr), body[..ln])
        case None => (Failed, body[ln..])
        case Some(plain) => (Chunk(plain), body[ln..])
  }

  class AeadReader {
    const aead: Aead
    const base: Base
    var ctr: nat
    var rest: Bytes

    constructor (aead: Aead, base: Base, bytes: Bytes)
      ensures this.aead == aead && this.base == base && ctr == 0 && rest == bytes
    {
      this.aead, this.base, ctr, rest := aead, base, 0, bytes;
    }

    method ReadChunk(log: seq<Sealed>) returns (r: Read)
      modifies this
      ensures (r, rest) == ReadFrame(aead, log, base, old(ctr), old(rest))
      ensures ctr == if r.Chunk? then Succ(old(ctr)) else old(ctr)
    {
      if |rest| == 0 {
        return Eof;
      }
      if |rest| < 4 {
        rest := [];
        return Failed;
      }
      var ln := FromWord(rest[..4]);
      rest := rest[4..];
      if ln < OVERHEAD || ln > MAX_PLAINTEXT + OVERHEAD {
        return Failed;
      }
      if |rest| < ln {
        r := if |rest| == 0 then Eof else Failed;
        rest := [];
        return;
      }
      var ct := rest[..ln];
      rest := rest[ln..];
      var n := MakeNonce(base, ctr);
      match Open(aead, log, n, ct)
      case None => return Failed;
      case Some(plain) =>
        ctr := Succ(ctr);
        return Chunk(plain);
    }
  }

  /** Everything a reader gets before the stream ends, and how it ends. */
  datatype Feed = Feed(chunks: seq<Bytes>, end: Read)

  function ReadAll(aead: Aead, log: seq<Sealed>, base: Base, ctr: nat, rest: Bytes): (f: Feed)
    ensures !f.end.Chunk?
    decreases |rest|
  {
    var (r, left) := ReadFrame(aead, log, base, ctr, rest);
    if !r.Chunk? then Feed([], r)
    else
      var later := ReadAll(aead, log, base, Succ(ctr), left);
      Feed([r.plain] + later.chunks, later.end)
  }

  // ----- Theorems -----

  /** A chunk read at counter `k` is the chunk written at counter `k`, and its frame is consumed whole. */
  lemma ReadIsNextWritten(aead: Aead, base: Base, chunks: seq<Bytes>, k: nat, rest: Bytes)
    requires Ideal(aead) && |chunks| <= COUNTERS && k < COUNTERS
    ensures var (r, left) := ReadFrame(aead, SealedChunks(base, chunks), base, k, rest);
            r.Chunk? ==> && k < |chunks| && r.plain == chunks[k]
                         && rest == Frame(aead.seal(Nonce(base, k), chunks[k])) + left
  {
    var log := SealedChunks(base, chunks);
    var (r, left) := ReadFrame(aead, log, base, k, rest);
    if r.Chunk? {
      var j :| 0 <= j < |log| && log[j] == Sealed(Nonce(base, k), r.plain);
      NoncesDiffer(base, j, k);
      var ln := FromWord(rest[..4]);
      WordOfValue(rest[..4]);
      assert rest == rest[..4] + rest[4..][..ln] + left;
    }
  }

  lemma WordOfValue(w: Bytes)
    requires |w| == 4
    ensures Word(FromWord(w)) == w
  {
    var n := FromWord(w);
    assert n / 256 == (w[0] as int * 256 + w[1]) * 256 + w[2];
    assert n / 256 / 256 == w[0] as int * 256 + w[1];
    assert n / 256 / 256 / 256 == w[0];
  }

  lemma PrefixFrom(chunks: seq<Bytes>, k: nat, got: seq<Bytes>)
    requires k < |chunks|
    ensures got <= chunks[k + 1..] ==> [chunks[k]] + got <= chunks[k..]
    ensures got == chunks[k + 1..] <==> [chunks[k]] + got == chunks[k..]
  {
    assert chunks[k..] == [chunks[k]] + chunks[k + 1..];
    assert ([chunks[k]] + got)[1..] == got;
  }

  /** Whatever bytes arrive, the chunks read are the next chunks written, in order. */
  lemma {:induction false} ReaderYieldsPrefix(aead: Aead, base: Base, chunks: seq<Bytes>, k: nat, rest: Bytes)
    requires Ideal(aead) && k <= |chunks| < COUNTERS
    ensures var f := ReadAll(aead, SealedChunks(base, chunks), base, k, rest);
            f.chunks <= chunks[k..]
    decreases |rest|
  {
    var log := SealedChunks(base, chunks);
    var (r, left) := ReadFrame(aead, log, base, k, rest);
    if r.Chunk? {
      ReadIsNextWritten(aead, base, chunks, k, rest);
      ReaderYieldsPrefix(aead, base, chunks, k + 1, left);
      PrefixFrom(chunks, k, ReadAll(aead, log, base, k + 1, left).chunks);
    }
  }

  /** The four bytes that announce a frame of acceptable size. */
  predicate DanglingLength(b: Bytes) {
    |b| == 4 && OVERHEAD <= FromWord(b) <= MAX_PLAINTEXT + OVERHEAD
  }

  lemma OpenFinds(aead: Aead, base: Base, chunks: seq<Bytes>, k: nat)
    requires Ideal(aead) && k < |chunks|
    ensures Open(aead, SealedChunks(base, chunks), Nonce(base, k), aead.seal(Nonce(base, k), chunks[k]))
            == Some(chunks[k])
  {
    assert SealedChunks(base, chunks)[k] in SealedChunks(base, chunks);
  }

  /** How a frame and what follows it fall apart again. */
  lemma FrameParts(ct: Bytes, left: Bytes)
    requires |ct| < WORD
    ensures var rest := Frame(ct) + left;
            && |rest| == 4 + |ct| + |left| && FromWord(rest[..4]) == |ct|
            && rest[4..][..|ct|] == ct && rest[4..][|ct|..] == left
  {
    var rest := Frame(ct) + left;
    WordValue(|ct|);
    assert rest[..4] == Word(|ct|) && rest[4..] == ct + left;
  }

  lemma FrameReads(aead: Aead, base: Base, chunks: seq<Bytes>, k: nat, left: Bytes)
    requires Ideal(aead) && k < |chunks| <= COUNTERS && |chunks[k]| <= MAX_PLAINTEXT
    ensures ReadFrame(aead, SealedChunks(base, chunks), base, k, Frame(aead.seal(Nonce(base, k), chunks[k])) + left)
            == (Chunk(chunks[k]), left)
  {
    OpenFinds(aead, base, chunks, k);
    FrameParts(aead.seal(Nonce(base, k), chunks[k]), left);
  }

  lemma EndOfStream(aead: Aead, base: Base, chunks: seq<Bytes>, rest: Bytes)
    requires Ideal(aead) && |chunks| < COUNTERS
    ensures ReadAll(aead, SealedChunks(base, chunks), base, |chunks|, rest) == Feed([], Eof) <==>
            rest == [] || DanglingLength(rest)
  {
    ReadIsNextWritten(aead, base, chunks, |chunks|, rest);
    if |rest| == 4 {
      assert rest[..4] == rest;
    }
  }

  /** Reading on after a frame. */
  lemma ReadsOn(aead: Aead, log: seq<Sealed>, base: Base, k: nat, rest: Bytes, p: Bytes, left: Bytes, later: Feed)
    requires k + 1 < COUNTERS && ReadFrame(aead, log, base, k, rest) == (Chunk(p), left)
    requires ReadAll(aead, log, base, k + 1, left) == later
    ensures ReadAll(aead, log, base, k, rest) == Feed([p] + later.chunks, later.end)
  {
  }

  lemma {:induction false} WrittenReadsBack(aead: Aead, base: Base, chunks: seq<Bytes>, k: nat, tail: Bytes)
    requires Ideal(aead) && k <= |chunks| < COUNTERS && (tail == [] || DanglingLength(tail))
    requires forall c :: c in chunks ==> |c| <= MAX_PLAINTEXT
    ensures ReadAll(aead, SealedChunks(base, chunks), base, k, Wire(aead, base, chunks, k) + tail)
            == Feed(chunks[k..], Eof)
    decreases |chunks| - k
  {
    if k == |chunks| {
      assert Wire(aead, base, chunks, k) + tail == tail;
      EndOfStream(aead, base, chunks, tail);
    } else {
      var frame, after := Frame(aead.seal(Nonce(base, k), chunks[k])), Wire(aead, base, chunks, k + 1) + tail;
      assert Wire(aead, base, chunks, k) + tail == frame + after;
      FrameReads(aead, base, chunks, k, after);
      WrittenReadsBack(aead, base, chunks, k + 1, tail);
      ReadsOn(aead, SealedChunks(base, chunks), base, k, frame + after, chunks[k], after, Feed(chunks[k + 1..], Eof));
      PrefixFrom(chunks, k, chunks[k + 1..]);
    }
  }

  lemma {:induction false} CleanEndMeansWritten(aead: Aead, base: Base, chunks: seq<Bytes>, k: nat, rest: Bytes)
      returns (tail: Bytes)
    requires Ideal(aead) && k <= |chunks| < COUNTERS
    requires ReadAll(aead, SealedChunks(base, chunks), base, k, rest) == Feed(chunks[k..], Eof)
    ensures rest == Wire(aead, base, chunks, k) + tail && (tail == [] || DanglingLength(tail))
    decreases |chunks| - k
  {
    if k == |chunks| {
      EndOfStream(aead, base, chunks, rest);
      tail := rest;
    } else {
      var left := ReadFrame(aead, SealedChunks(base, chunks), base, k, rest).1;
      ReadIsNextWritten(aead, base, chunks, k, rest);
      PrefixFrom(chunks, k, ReadAll(aead, SealedChunks(base, chunks), base, k + 1, left).chunks);
      tail := CleanEndMeansWritten(aead, base, chunks, k + 1, left);
      assert rest == Wire(aead, base, chunks, k) + tail;
    }
  }

  /**
   * A reader gets every remaining chunk and then a clean end exactly when it is given the bytes
   * that were written, alone or followed by one dangling length.
   */
  lemma CleanEndExactly(aead: Aead, base: Base, chunks: seq<Bytes>, k: nat, rest: Bytes)
    requires Ideal(aead) && k <= |chunks| < COUNTERS
    requires forall c :: c in chunks ==> |c| <= MAX_PLAINTEXT
    ensures ReadAll(aead, SealedChunks(base, chunks), base, k, rest) == Feed(chunks[k..], Eof) <==>
            exists tail :: rest == Wire(aead, base, chunks, k) + tail && (tail == [] || DanglingLength(tail))
  {
    if ReadAll(aead, SealedChunks(base, chunks), base, k, rest) == Feed(chunks[k..], Eof) {
      var tail := CleanEndMeansWritten(aead, base, chunks, k, rest);
    }
    if tail :| rest == Wire(aead, base, chunks, k) + tail && (tail == [] || DanglingLength(tail)) {
      WrittenReadsBack(aead, base, chunks, k, tail);
    }
  }
}
