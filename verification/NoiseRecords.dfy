/**
 * The record layer of the control connection (`internal/controlproto/noise.go`): one direction of
 * it, the sending half of one `NoiseConn` and the receiving half of its peer.
 *
 * The AEAD is ideal: it opens exactly what was sealed under the same nonce. The network is not
 * trusted at all: a write may fail after any part of a frame, and a read may see any bytes.
 */
module NoiseRecords {
  import opened Bytes
  import opened Options

  const HEADER := 3
  const OVERHEAD := 16
  const MAX_MESSAGE := 4096
  const MAX_CIPHERTEXT := MAX_MESSAGE - HEADER
  const MAX_PLAINTEXT := MAX_CIPHERTEXT - OVERHEAD
  const RECORD_TYPE: Byte := 4
  const INVALID_NONCE: nat := 0xffff_ffff_ffff_ffff

  function Concat(chunks: seq<seq<Byte>>): seq<Byte> {
    if chunks == [] then [] else Concat(chunks[..|chunks| - 1]) + chunks[|chunks| - 1]
  }

  lemma {:induction false} ConcatSplit(a: seq<seq<Byte>>, b: seq<seq<Byte>>)
    ensures Concat(a + b) == Concat(a) + Concat(b)
  {
    if b == [] {
      assert a + b == a;
    } else {
      var front, last := b[..|b| - 1], b[|b| - 1];
      assert (a + b)[..|a + b| - 1] == a + front;
      ConcatSplit(a, front);
    }
  }

  lemma ConcatPrefix(chunks: seq<seq<Byte>>, n: nat)
    requires n <= |chunks|
    ensures Concat(chunks[..n]) <= Concat(chunks)
  {
    assert chunks == chunks[..n] + chunks[n..];
    ConcatSplit(chunks[..n], chunks[n..]);
  }

  /** The records a write of `src` is cut into. */
  function Chunks(src: seq<Byte>): seq<seq<Byte>> {
    if src == [] then []
    else if |src| <= MAX_PLAINTEXT then [src]
    else [src[..MAX_PLAINTEXT]] + Chunks(src[MAX_PLAINTEXT..])
  }

  predicate ChunkSized(chunk: seq<Byte>) {
    0 < |chunk| <= MAX_PLAINTEXT
  }

  /** Cutting loses nothing, sends no empty record, and fills every record but the last. */
  lemma {:induction false} ChunksWhole(src: seq<Byte>)
    ensures Concat(Chunks(src)) == src
    ensures forall i :: 0 <= i < |Chunks(src)| ==> ChunkSized(Chunks(src)[i])
    ensures forall i :: 0 <= i < |Chunks(src)| - 1 ==> |Chunks(src)[i]| == MAX_PLAINTEXT
  {
    if src == [] {
    } else if |src| <= MAX_PLAINTEXT {
      assert [src][..0] == [];
    } else {
      var rest := Chunks(src[MAX_PLAINTEXT..]);
      ChunksWhole(src[MAX_PLAINTEXT..]);
      ConcatSplit([src[..MAX_PLAINTEXT]], rest);
      assert [src[..MAX_PLAINTEXT]][..0] == [];
      assert Chunks(src) == [src[..MAX_PLAINTEXT]] + rest;
    }
  }

  lemma ChunksStep(rest: seq<Byte>)
    requires rest != []
    ensures var chunk := if |rest| > MAX_PLAINTEXT then rest[..MAX_PLAINTEXT] else rest;
            ChunkSized(chunk) && Chunks(rest) == [chunk] + Chunks(rest[|chunk|..])
  {
  }

  lemma ChunksEmpty(rest: seq<Byte>)
    requires rest == []
    ensures Chunks(rest) == []
  {
  }

  lemma ConcatEmpty()
    ensures Concat([]) == []
  {
  }

  lemma ConcatOne(done: seq<seq<Byte>>, chunk: seq<Byte>)
    ensures Concat(done + [chunk]) == Concat(done) + chunk
  {
    assert (done + [chunk])[..|done|] == done;
  }

  /** Records sent for a part of `src`, after everything before it, are a prefix of all that was submitted. */
  lemma SentSoFar(before: seq<Byte>, earlier: seq<seq<Byte>>, src: seq<Byte>, done: seq<seq<Byte>>,
                  left: seq<seq<Byte>>)
    requires Concat(earlier) == before && done + left == Chunks(src)
    ensures Concat(earlier + done) <= before + src
    ensures left == [] ==> Concat(earlier + done) == before + src
  {
    hide Concat, Chunks;
    ConcatSplit(earlier, done);
    ConcatSplit(done, left);
    ChunksWhole(src);
    ConcatEmpty();
  }

  function Frame(ciphertext: seq<Byte>): (frame: seq<Byte>)
    requires |ciphertext| < 0x1_0000
    ensures |frame| == HEADER + |ciphertext|
  {
    [RECORD_TYPE] + U16Bytes(|ciphertext|) + ciphertext
  }

  /** The sizes the protocol sets: frames of 4096 bytes, which leave 4077 for the plaintext. */
  lemma Sizes()
    ensures MAX_MESSAGE == 4096 && MAX_CIPHERTEXT == 4093 && MAX_PLAINTEXT == 4077
    ensures HEADER == 3 && OVERHEAD == 16 && INVALID_NONCE == 18_446_744_073_709_551_615
  {
  }

  /** On the wire: type 4, the length in network order, the ciphertext. */
  lemma FrameMeaning(ciphertext: seq<Byte>)
    requires |ciphertext| < 0x1_0000
    ensures Frame(ciphertext) == [4, |ciphertext| / 256, |ciphertext| % 256] + ciphertext
  {
  }

  /** Record `i` went out under nonce `i`, was never sealed as anything else, and fits a message. */
  ghost predicate InOrder(
    nonce: nat, chunks: seq<seq<Byte>>, ciphers: seq<seq<Byte>>, sealed: map<(nat, seq<Byte>), seq<Byte>>)
  {
    && nonce == |chunks| == |ciphers| <= INVALID_NONCE
    && (forall i :: 0 <= i < |chunks| ==>
          ChunkSized(chunks[i]) && |ciphers[i]| == |chunks[i]| + OVERHEAD && (i, ciphers[i]) in sealed)
    && (forall n, c :: (n, c) in sealed && n < INVALID_NONCE ==>
          n < |chunks| && c == ciphers[n] && sealed[(n, c)] == chunks[n])
  }

  lemma SealAndSend(
    nonce: nat, chunks: seq<seq<Byte>>, ciphers: seq<seq<Byte>>, sealed: map<(nat, seq<Byte>), seq<Byte>>,
    chunk: seq<Byte>, c: seq<Byte>)
    requires InOrder(nonce, chunks, ciphers, sealed) && ChunkSized(chunk) && |c| == |chunk| + OVERHEAD
    ensures nonce <= INVALID_NONCE
    ensures nonce == INVALID_NONCE ==> InOrder(nonce, chunks, ciphers, sealed[(nonce, c) := chunk])
    ensures nonce < INVALID_NONCE ==>
              InOrder(nonce + 1, chunks + [chunk], ciphers + [c], sealed[(nonce, c) := chunk])
  {
  }

  /** The first `accepted` records were given out, but for a last part still held in `plain`. */
  ghost predicate Received(chunks: seq<seq<Byte>>, accepted: nat, delivered: seq<Byte>, plain: seq<Byte>) {
    accepted <= |chunks| && delivered + plain == Concat(chunks[..accepted])
  }

  lemma ReceivedMore(chunks: seq<seq<Byte>>, accepted: nat, delivered: seq<Byte>, plain: seq<Byte>, chunk: seq<Byte>)
    requires Received(chunks, accepted, delivered, plain)
    ensures Received(chunks + [chunk], accepted, delivered, plain)
  {
    assert (chunks + [chunk])[..accepted] == chunks[..accepted];
  }

  lemma ReceivedNext(chunks: seq<seq<Byte>>, accepted: nat, delivered: seq<Byte>)
    requires accepted < |chunks| && Received(chunks, accepted, delivered, [])
    ensures Received(chunks, accepted + 1, delivered, chunks[accepted])
  {
    assert chunks[..accepted + 1] == chunks[..accepted] + [chunks[accepted]];
    ConcatOne(chunks[..accepted], chunks[accepted]);
  }

  /** `copy` into a buffer of `size` bytes. */
  function Take(bytes: seq<Byte>, size: nat): (r: seq<Byte>)
    ensures |r| == (if size < |bytes| then size else |bytes|) && r == bytes[..|r|]
  {
    if |bytes| <= size then bytes else bytes[..size]
  }

  lemma DeliverSome(chunks: seq<seq<Byte>>, accepted: nat, delivered: seq<Byte>, plain: seq<Byte>, n: nat)
    requires Received(chunks, accepted, delivered, plain) && n <= |plain|
    ensures Received(chunks, accepted, delivered + plain[..n], plain[n..])
  {
    assert delivered + plain[..n] + plain[n..] == delivered + plain;
  }

  datatype WriteOutcome = Wrote | WriteFailed | WriteClosed | WritePanicked

  datatype ReadOutcome = ReadOk | ReadFailed | BadType | BadLength | Unauthentic | ReadClosed | ReadPanicked

  datatype Parsed = Whole(ciphertext: seq<Byte>, rest: seq<Byte>) | Refused(outcome: ReadOutcome, rest: seq<Byte>)

  /** Reading one record from what the network delivers. */
  function ParseFrame(input: seq<Byte>): (parsed: Parsed)
    ensures parsed.Whole? ==> |parsed.rest| < |input|
    ensures parsed.Refused? ==> parsed.outcome in {ReadFailed, BadType, BadLength}
  {
    if |input| < HEADER then Refused(ReadFailed, [])
    else if input[0] != RECORD_TYPE then Refused(BadType, input[HEADER..])
    else
      var length := U16(input[1], input[2]);
      if length > MAX_CIPHERTEXT || length < OVERHEAD then Refused(BadLength, input[HEADER..])
      else if |input| < HEADER + length then Refused(ReadFailed, [])
      else Whole(input[HEADER..HEADER + length], input[HEADER + length..])
  }

  /** A record is read exactly if it is of type 4, of 16 to 4093 bytes, and there in full. */
  lemma ParseMeaning(input: seq<Byte>)
    ensures var header := |input| >= 3;
            var length := if header then U16(input[1], input[2]) else 0;
            && (ParseFrame(input).Whole? <==> header && input[0] == 4 && 16 <= length <= 4093 && |input| >= 3 + length)
            && (ParseFrame(input).Whole? ==> ParseFrame(input) == Whole(input[3..3 + length], input[3 + length..]))
            && (header && input[0] != 4 ==> ParseFrame(input).Refused? && ParseFrame(input).outcome == BadType)
            && (header && input[0] == 4 && !(16 <= length <= 4093) ==>
                  ParseFrame(input).Refused? && ParseFrame(input).outcome == BadLength)
  {
  }

  /** The whole frame of a record comes next from the network. */
  ghost predicate Arrives(ciphertext: seq<Byte>, input: seq<Byte>) {
    OVERHEAD <= |ciphertext| <= MAX_CIPHERTEXT && Frame(ciphertext) <= input
  }

  lemma FrameArrives(ciphertext: seq<Byte>, input: seq<Byte>)
    requires Arrives(ciphertext, input)
    ensures ParseFrame(input) == Whole(ciphertext, input[HEADER + |ciphertext|..])
  {
    var frame := Frame(ciphertext);
    assert input[0] == frame[0] && input[1] == frame[1] && input[2] == frame[2];
    assert input[HEADER..HEADER + |ciphertext|] == frame[HEADER..];
  }

  class Stream {
    // tx of the sending side; txOpen is a non-nil cipher, txFailed a recorded error
    var txNonce: nat
    var txOpen: bool
    var txFailed: bool
    // rx of the receiving side
    var rxNonce: nat
    var rxOpen: bool
    var plain: seq<Byte>
    // the ideal cipher: what each ciphertext stands for under the nonce it was sealed with
    var sealed: map<(nat, seq<Byte>), seq<Byte>>
    // history: bytes given to Write, records handed to the network in order with their
    // ciphertexts, records accepted, and bytes given out by Read
    ghost var submitted: seq<Byte>
    ghost var chunks: seq<seq<Byte>>
    ghost var ciphers: seq<seq<Byte>>
    ghost var accepted: nat
    ghost var delivered: seq<Byte>

    ghost predicate SentInOrder()
      reads this
    {
      InOrder(txNonce, chunks, ciphers, sealed)
    }

    /** Bytes are only ever missing after the sending half has stopped for good. */
    ghost predicate SentPrefix()
      reads this
    {
      && Concat(chunks) <= submitted
      && (Concat(chunks) != submitted ==> txFailed || !txOpen || txNonce == INVALID_NONCE)
    }

    ghost predicate ReceivedInOrder()
      reads this
    {
      accepted <= |chunks| && Received(chunks, accepted, delivered, plain) && (rxOpen ==> rxNonce == accepted)
    }

    ghost predicate Valid()
      reads this
    {
      SentInOrder() && SentPrefix() && ReceivedInOrder()
    }

    constructor ()
      ensures Valid() && txOpen && !txFailed && rxOpen
      ensures submitted == [] && delivered == [] && plain == []
    {
      txNonce, txOpen, txFailed := 0, true, false;
      rxNonce, rxOpen, plain := 0, true, [];
      sealed := map[];
      submitted, chunks, ciphers, accepted, delivered := [], [], [], 0, [];
    }

    /** In every reachable state: what was read is a prefix of what was written. */
    lemma DeliveredIsPrefix()
      requires Valid()
      ensures delivered <= submitted
    {
      ConcatPrefix(chunks, accepted);
    }

    /** Every frame sent: its size, and a nonce that is its index, sealed nothing else and is not the reserved one. */
    lemma FramesAreSound(i: nat)
      requires Valid() && i < |ciphers|
      ensures |Frame(ciphers[i])| <= 4096
      ensures i < 18_446_744_073_709_551_615 && (i, ciphers[i]) in sealed && sealed[(i, ciphers[i])] == chunks[i]
      ensures forall c :: (i, c) in sealed ==> c == ciphers[i]
    {
    }

    /** One turn of the loop of `Write`: seal, advance the nonce, hand the frame to the network. */
    method SendRecord(chunk: seq<Byte>) returns (outcome: WriteOutcome)
      requires SentInOrder() && ReceivedInOrder() && txOpen && !txFailed && ChunkSized(chunk)
      modifies this`txNonce, this`txOpen, this`txFailed, this`sealed, this`chunks, this`ciphers
      ensures SentInOrder() && ReceivedInOrder()
      ensures outcome == WritePanicked <==> old(txNonce) == INVALID_NONCE
      ensures outcome == WritePanicked ==> unchanged(`txNonce, `txOpen, `txFailed, `chunks)
      ensures outcome != WritePanicked ==> chunks == old(chunks) + [chunk]
      ensures outcome == Wrote ==> txOpen && !txFailed
      ensures outcome == WriteFailed ==> !txOpen && txFailed
      ensures outcome != WriteClosed
    {
      hide InOrder, Received;
      var ciphertext := Seal(chunk);
      SealAndSend(txNonce, chunks, ciphers, old(sealed), chunk, ciphertext);
      ReceivedMore(chunks, accepted, delivered, plain, chunk);
      if txNonce == INVALID_NONCE {
        return WritePanicked;
      }
      txNonce := txNonce + 1;
      chunks, ciphers := chunks + [chunk], ciphers + [ciphertext];
      var sent := *;
      if !sent {
        txFailed, txOpen := true, false;
        return WriteFailed;
      }
      return Wrote;
    }

    method Seal(chunk: seq<Byte>) returns (ciphertext: seq<Byte>)
      modifies this`sealed
      ensures |ciphertext| == |chunk| + OVERHEAD
      ensures sealed == old(sealed)[(txNonce, ciphertext) := chunk]
    {
      assert |seq(|chunk| + OVERHEAD, _ => 0)| == |chunk| + OVERHEAD;
      ciphertext :| |ciphertext| == |chunk| + OVERHEAD;
      sealed := sealed[(txNonce, ciphertext) := chunk];
    }

    /** The loop of `Write` on an open, healthy sending half. */
    method SendAll(src: seq<Byte>)
      returns (written: nat, outcome: WriteOutcome, ghost done: seq<seq<Byte>>, ghost left: seq<seq<Byte>>)
      requires SentInOrder() && ReceivedInOrder() && txOpen && !txFailed
      modifies this`txNonce, this`txOpen, this`txFailed, this`sealed, this`chunks, this`ciphers
      ensures SentInOrder() && ReceivedInOrder()
      ensures done + left == Chunks(src) && chunks == old(chunks) + done
      ensures old(txNonce) == INVALID_NONCE ==> done == [] && txNonce == INVALID_NONCE
      ensures match outcome
              case Wrote => left == [] && txOpen && !txFailed && written == |Concat(done)|
              case WriteFailed => done != [] && !txOpen && txFailed && written == |Concat(done[..|done| - 1])|
              case WritePanicked =>
                left != [] && txOpen && !txFailed && txNonce == INVALID_NONCE && written == |Concat(done)|
              case WriteClosed => false
    {
      hide InOrder, Chunks, Concat, Received;
      var rest := src;
      written, done, left := 0, [], Chunks(src);
      ConcatEmpty();
      while |rest| > 0
        invariant SentInOrder() && ReceivedInOrder() && txOpen && !txFailed
        invariant chunks == old(chunks) + done && left == Chunks(rest) && done + left == Chunks(src)
        invariant written == |Concat(done)|
        invariant old(txNonce) == INVALID_NONCE ==> done == [] && txNonce == INVALID_NONCE
      {
        var chunk := rest;
        if |chunk| > MAX_PLAINTEXT {
          chunk := chunk[..MAX_PLAINTEXT];
        }
        ChunksStep(rest);
        outcome := SendRecord(chunk);
        if outcome == WritePanicked {
          return;
        }
        ConcatOne(done, chunk);
        assert (done + [chunk])[..|done|] == done;
        done, left := done + [chunk], left[1..];
        if outcome == WriteFailed {
          return;
        }
        written := written + |chunk|;
        rest := rest[|chunk|..];
      }
      ChunksEmpty(rest);
      outcome := Wrote;
    }

    method Write(src: seq<Byte>) returns (written: nat, outcome: WriteOutcome)
      requires Valid()
      modifies this`txNonce, this`txOpen, this`txFailed, this`sealed, this`submitted, this`chunks, this`ciphers
      ensures Valid()
      ensures submitted == old(submitted) + src
      ensures outcome == Wrote ==> written == |src| && chunks == old(chunks) + Chunks(src)
      ensures outcome == Wrote && src != [] ==> Concat(chunks) == submitted
      ensures outcome == WritePanicked ==> txNonce == INVALID_NONCE
      ensures outcome == WriteFailed ==> txFailed
      ensures outcome == WriteClosed ==> !txOpen && chunks == old(chunks) && written == 0
      ensures old(chunks) <= chunks && written <= |Concat(chunks[|old(chunks)|..])|
    {
      hide InOrder, Chunks, Concat, Received;
      submitted := submitted + src;
      if txFailed {
        return 0, WriteFailed;
      }
      if !txOpen {
        return 0, WriteClosed;
      }
      ghost var done, left;
      written, outcome, done, left := SendAll(src);
      assert chunks[|old(chunks)|..] == done;
      ChunksWhole(src);
      if src != [] {
        ChunksStep(src);
      }
      assert left == [] ==> done == Chunks(src);
      assert done == [] ==> chunks == old(chunks);
      if Concat(old(chunks)) == old(submitted) {
        SentSoFar(old(submitted), old(chunks), src, done, left);
      }
      if outcome == WriteFailed {
        ConcatPrefix(done, |done| - 1);
      }
    }

    /**
     * One turn of the loop of `Read`, on any input. A record is accepted only as the next one that
     * was sent, and the next one sent is accepted whenever it arrives.
     */
    method ReceiveRecord(input: seq<Byte>) returns (outcome: ReadOutcome, rest: seq<Byte>)
      requires Valid() && rxOpen && plain == []
      modifies this`rxNonce, this`rxOpen, this`plain, this`accepted
      ensures Valid()
      ensures outcome == ReadOk ==>
                && rxOpen && old(accepted) < |chunks| && accepted == old(accepted) + 1
                && plain == chunks[old(accepted)] && plain != [] && |rest| < |input|
      ensures outcome != ReadOk ==> plain == []
      ensures outcome == Unauthentic <==> !rxOpen
      ensures outcome != ReadClosed
      ensures old(accepted) < |ciphers| && Arrives(ciphers[old(accepted)], input) ==>
                outcome == ReadOk && rest == input[HEADER + |ciphers[old(accepted)]|..]
    {
      hide Concat, Received, ParseFrame;
      if accepted < |ciphers| && Arrives(ciphers[accepted], input) {
        FrameArrives(ciphers[accepted], input);
      }
      var parsed := ParseFrame(input);
      if !parsed.Whole? {
        return parsed.outcome, parsed.rest;
      }
      rest := parsed.rest;
      var content := Open(parsed.ciphertext);
      if rxNonce == INVALID_NONCE {
        return ReadPanicked, rest;
      }
      rxNonce := rxNonce + 1;
      if content.None? {
        rxOpen := false;
        return Unauthentic, rest;
      }
      ReceivedNext(chunks, accepted, delivered);
      plain, accepted := content.value, accepted + 1;
      return ReadOk, rest;
    }

    function Open(ciphertext: seq<Byte>): Option<seq<Byte>>
      reads this
    {
      if (rxNonce, ciphertext) in sealed then Some(sealed[(rxNonce, ciphertext)]) else None
    }

    method Read(size: nat, input: seq<Byte>) returns (data: seq<Byte>, outcome: ReadOutcome, rest: seq<Byte>)
      requires Valid()
      modifies this`rxNonce, this`rxOpen, this`plain, this`accepted, this`delivered
      ensures Valid()
      ensures delivered == old(delivered) + data && |data| <= size
      ensures outcome != ReadOk ==> data == []
      ensures outcome == ReadClosed <==> !old(rxOpen)
      // bytes left over from a record are given out first
      ensures old(rxOpen) && old(plain) != [] ==>
                && outcome == ReadOk && rest == input && unchanged(`accepted)
                && data == Take(old(plain), size) && plain == old(plain)[|data|..]
      // the next record sent, when it arrives whole, is given out from its start
      ensures old(rxOpen) && old(plain) == [] && old(accepted) < |ciphers| && Arrives(ciphers[old(accepted)], input) ==>
                && outcome == ReadOk && rest == input[HEADER + |ciphers[old(accepted)]|..]
                && data == Take(chunks[old(accepted)], size) && plain == chunks[old(accepted)][|data|..]
                && accepted == old(accepted) + 1
      ensures outcome == ReadOk ==> rxOpen
    {
      hide Concat, InOrder, Received;
      rest := input;
      if !rxOpen {
        return [], ReadClosed, rest;
      }
      while |plain| == 0
        invariant Valid() && rxOpen
        invariant |plain| == 0 ==> unchanged(this) && rest == input
        invariant old(plain) != [] ==> unchanged(this) && rest == input
        invariant delivered == old(delivered)
        invariant old(plain) == [] && plain != [] ==>
          old(accepted) < |chunks| && plain == chunks[old(accepted)] && accepted == old(accepted) + 1
        invariant (old(plain) == [] && plain != []
                   && old(accepted) < |ciphers| && Arrives(ciphers[old(accepted)], input)) ==>
                    rest == input[HEADER + |ciphers[old(accepted)]|..]
        decreases |plain| == 0, |rest|
      {
        outcome, rest := ReceiveRecord(rest);
        if outcome != ReadOk {
          return [], outcome, rest;
        }
      }
      data := Take(plain, size);
      DeliverSome(chunks, accepted, delivered, plain, |data|);
      delivered, plain := delivered + data, plain[|data|..];
      outcome := ReadOk;
    }

    /** `Close` on the side that sends: what was sent can still be read. */
    method CloseSender()
      requires Valid()
      modifies this`txOpen
      ensures Valid() && !txOpen
    {
      txOpen := false;
    }

    /** `Close` on the side that receives: nothing more is read, whatever arrives or is left over. */
    method CloseReceiver()
      requires Valid()
      modifies this`rxOpen
      ensures Valid() && !rxOpen
    {
      rxOpen := false;
    }
  }

  ghost predicate FrameSized(ciphers: seq<seq<Byte>>) {
    forall i :: 0 <= i < |ciphers| ==> OVERHEAD <= |ciphers[i]| <= MAX_CIPHERTEXT
  }

  /** The bytes an honest network delivers for a list of records. */
  ghost function Wire(ciphers: seq<seq<Byte>>): seq<Byte>
    requires FrameSized(ciphers)
  {
    if ciphers == [] then [] else Frame(ciphers[0]) + Wire(ciphers[1..])
  }

  lemma WireArrives(ciphers: seq<seq<Byte>>, n: nat)
    requires FrameSized(ciphers) && n < |ciphers|
    ensures Wire(ciphers[n..]) != []
    ensures Arrives(ciphers[n], Wire(ciphers[n..]))
    ensures Wire(ciphers[n..])[HEADER + |ciphers[n]|..] == Wire(ciphers[n + 1..])
  {
    assert ciphers[n..][1..] == ciphers[n + 1..];
  }

  /** The records sent are sized for a message and none of them is empty. */
  lemma SentSizes(s: Stream)
    requires s.Valid()
    ensures |s.ciphers| == |s.chunks| && FrameSized(s.ciphers)
    ensures forall i :: 0 <= i < |s.chunks| ==> s.chunks[i] != []
  {
  }

  /**
   * Nothing is lost: over an honest network every read with room for a byte yields one until all
   * records sent have been given out, whatever the buffer sizes.
   */
  method ReadHonestly(s: Stream, sizes: seq<nat>, input: seq<Byte>) returns (rest: seq<Byte>)
    requires s.Valid() && s.rxOpen && FrameSized(s.ciphers) && s.accepted <= |s.ciphers|
    requires forall i :: 0 <= i < |sizes| ==> sizes[i] > 0
    requires input == Wire(s.ciphers[s.accepted..])
    modifies s`rxNonce, s`rxOpen, s`plain, s`accepted, s`delivered
    ensures s.Valid() && s.rxOpen
    ensures s.delivered == Concat(s.chunks) || |s.delivered| >= |old(s.delivered)| + |sizes|
  {
    hide Concat, InOrder, Wire;
    rest := input;
    SentSizes(s);
    for i := 0 to |sizes|
      invariant s.Valid() && s.rxOpen && rest == Wire(s.ciphers[s.accepted..])
      invariant |s.delivered| >= |old(s.delivered)| + i
    {
      if s.accepted < |s.ciphers| {
        WireArrives(s.ciphers, s.accepted);
      }
      if |s.plain| == 0 && |rest| == 0 {
        assert s.chunks[..s.accepted] == s.chunks;
        return;
      }
      if s.accepted == |s.ciphers| {
        WireEmpty();
        assert s.ciphers[s.accepted..] == [];
      }
      var data, outcome;
      data, outcome, rest := s.Read(sizes[i], rest);
    }
  }

  lemma WireEmpty()
    ensures Wire([]) == []
  {
  }
}
