/**
  The authenticated record stream carried by `aeadConn`: writes are cut into sealed records,
  reads rebuild a byte stream from them, and an empty record is an authenticated end of stream.

  The first part is the specification on values, the second the connection object with its
  reused buffers. The laws of whole runs are in a module of their own.
 */
module SecureStream {
  import opened Bytes

  const MAX_PLAINTEXT: nat := 1048576
  const RECORD_PLAINTEXT: nat := 262144
  const NONCE_SIZE: nat := 12
  const OVERHEAD: nat := 16
  const COUNTER_MAX: nat := 0xFFFF_FFFF

  /** The cipher under a fixed key. */
  datatype Aead = Aead(
    seal: (seq<byte>, seq<byte>) -> seq<byte>,
    open: (seq<byte>, seq<byte>) -> Option<seq<byte>>)
  {
    /** Sealing adds a fixed overhead, opening inverts it and never changes the length relation. */
    ghost predicate Correct() {
      && (forall nonce, p :: |seal(nonce, p)| == |p| + OVERHEAD)
      && (forall nonce, p :: open(nonce, seal(nonce, p)) == Some(p))
      && (forall nonce, c :: open(nonce, c).Some? ==> |c| == |open(nonce, c).value| + OVERHEAD)
    }
  }

  type Prefix = p: seq<byte> | |p| == 8 witness [0, 0, 0, 0, 0, 0, 0, 0]

  function Nonce(prefix: Prefix, counter: nat): (n: seq<byte>)
    ensures |n| == NONCE_SIZE
  {
    prefix + Be32(counter)
  }

  /** Length prefix, nonce and sealed body of one record. */
  function Record(a: Aead, prefix: Prefix, counter: nat, p: seq<byte>): seq<byte> {
    var body := a.seal(Nonce(prefix, counter), p);
    Be32(NONCE_SIZE + |body|) + Nonce(prefix, counter) + body
  }

  /**
    The layout of a record: the length of what follows, the prefix and the counter
    as its nonce, and what opens to `p`.
   */
  lemma RecordLayout(a: Aead, prefix: Prefix, counter: nat, p: seq<byte>)
    requires a.Correct()
    ensures var r := Record(a, prefix, counter, p);
            && |r| == 32 + |p| && r[..4] == Be32(28 + |p|) && r[4..12] == prefix && r[12..16] == Be32(counter)
            && a.open(r[4..16], r[16..]) == Some(p)
  {
    var r, nonce := Record(a, prefix, counter, p), Nonce(prefix, counter);
    assert r[4..16] == nonce && r[16..] == a.seal(nonce, p);
    assert nonce[..8] == prefix && nonce[8..] == Be32(counter);
    assert r[4..12] == r[4..16][..8] && r[12..16] == r[4..16][8..];
  }

  /** The records sealed for `recs` when the counter starts at `counter`. */
  function Frames(a: Aead, prefix: Prefix, counter: nat, recs: seq<seq<byte>>): seq<byte>
    decreases |recs|
  {
    if recs == [] then [] else Record(a, prefix, counter + 1, recs[0]) + Frames(a, prefix, counter + 1, recs[1..])
  }

  /** The plaintexts of the records that carry `p`. */
  function Chunks(p: seq<byte>): (recs: seq<seq<byte>>) {
    if p == [] then [] else [p[..FirstChunk(p)]] + Chunks(p[FirstChunk(p)..])
  }

  function FirstChunk(p: seq<byte>): (n: nat)
    ensures n <= |p| && (p != [] ==> n > 0)
  {
    if |p| < RECORD_PLAINTEXT then |p| else RECORD_PLAINTEXT
  }

  /** The chunks are the plaintext, cut into non-empty pieces of at most one record. */
  lemma {:induction false} ChunksContents(p: seq<byte>)
    ensures Flatten(Chunks(p)) == p
    ensures forall i :: 0 <= i < |Chunks(p)| ==> 0 < |Chunks(p)[i]| <= RECORD_PLAINTEXT
    decreases |p|
  {
    if p != [] {
      var n := FirstChunk(p);
      ChunksContents(p[n..]);
      assert Chunks(p)[1..] == Chunks(p[n..]);
      assert p[..n] + p[n..] == p;
    }
  }

  lemma {:induction false} ChunkCount(p: seq<byte>)
    ensures |Chunks(p)| == (|p| + RECORD_PLAINTEXT - 1) / RECORD_PLAINTEXT
    decreases |p|
  {
    if |p| > RECORD_PLAINTEXT {
      ChunkCount(p[RECORD_PLAINTEXT..]);
    } else if p != [] {
      assert Chunks(p[FirstChunk(p)..]) == [];
    }
  }

  function RecordSize(n: nat): nat {
    4 + NONCE_SIZE + n + OVERHEAD
  }

  lemma Extend(whole: seq<byte>, i: nat, k: nat, next: seq<byte>, piece: seq<byte>)
    requires i + k <= |whole| && whole[i..][..k] == piece && next == whole[..i] + piece
    ensures next == whole[..i + k] && whole[i + k..] == whole[i..][k..]
  {
  }

  lemma {:induction false} FramesAppend(a: Aead, prefix: Prefix, counter: nat, r: seq<seq<byte>>, s: seq<seq<byte>>)
    ensures Frames(a, prefix, counter, r + s) == Frames(a, prefix, counter, r) + Frames(a, prefix, counter + |r|, s)
    decreases |r|
  {
    if r == [] {
      assert r + s == s;
    } else {
      FramesAppend(a, prefix, counter + 1, r[1..], s);
      assert (r + s)[0] == r[0] && (r + s)[1..] == r[1..] + s;
      Associate(Record(a, prefix, counter + 1, r[0]), Frames(a, prefix, counter + 1, r[1..]),
          Frames(a, prefix, counter + |r|, s));
    }
  }

  lemma {:induction false} FramesLength(a: Aead, prefix: Prefix, counter: nat, recs: seq<seq<byte>>)
    requires a.Correct()
    ensures |Frames(a, prefix, counter, recs)| == |Flatten(recs)| + |recs| * (4 + NONCE_SIZE + OVERHEAD)
    decreases |recs|
  {
    if recs != [] {
      FramesLength(a, prefix, counter + 1, recs[1..]);
    }
  }

  /** The size computed before sealing is exactly the size of the sealed batch. */
  lemma BatchSizeExact(a: Aead, prefix: Prefix, counter: nat, p: seq<byte>)
    requires a.Correct()
    ensures |Frames(a, prefix, counter, Chunks(p))|
         == |p| + (|p| + RECORD_PLAINTEXT - 1) / RECORD_PLAINTEXT * (4 + NONCE_SIZE + OVERHEAD)
  {
    ChunkCount(p);
    ChunksContents(p);
    FramesLength(a, prefix, counter, Chunks(p));
  }

  /** No two counters in range ever share a nonce. */
  lemma NoncesDistinct(prefix: Prefix, m: nat, n: nat)
    requires m <= COUNTER_MAX && n <= COUNTER_MAX && m != n
    ensures Nonce(prefix, m) != Nonce(prefix, n)
  {
    Be32Small(m);
    Be32Small(n);
    NonceTail(prefix, m);
    NonceTail(prefix, n);
  }

  lemma NonceTail(prefix: Prefix, counter: nat)
    ensures Nonce(prefix, counter)[8..] == Be32(counter)
  {
  }

  // ----- The carrier below -----

  /** What one `Write` of the carrier reports: a byte count and whether it also failed. */
  datatype Reply = Reply(count: int, failed: bool)

  /** The replies of the carrier to its successive calls. */
  type Carrier = nat -> Reply

  /**
    How many of `length` bytes the carrier takes from its call number `call` on, until it has taken
    them all or reports a failure or a bad count, and whether the loop then reports success.
   */
  function Taken(carrier: Carrier, call: nat, length: nat): (r: (nat, bool))
    ensures r.0 <= length
    ensures r.1 ==> r.0 == length
    decreases length
  {
    if length == 0 then (0, true)
    else
      var reply := carrier(call);
      if reply.failed || reply.count <= 0 || reply.count > length then
        (if reply.count <= 0 then 0 else if reply.count <= length then reply.count else length, false)
      else
        var rest := Taken(carrier, call + 1, length - reply.count);
        (reply.count + rest.0, rest.1)
  }

  method WriteFull(carrier: Carrier, data: seq<byte>) returns (taken: seq<byte>, ok: bool)
    ensures taken == data[..Taken(carrier, 0, |data|).0]
    ensures ok == Taken(carrier, 0, |data|).1
  {
    var sent, call := 0, 0;
    while sent < |data|
      invariant sent <= |data|
      invariant sent + Taken(carrier, call, |data| - sent).0 == Taken(carrier, 0, |data|).0
      invariant Taken(carrier, call, |data| - sent).1 == Taken(carrier, 0, |data|).1
    {
      var reply := carrier(call);
      if reply.failed || reply.count <= 0 || reply.count > |data| - sent {
        var extra := if reply.count <= 0 then 0 else if reply.count <= |data| - sent then reply.count
            else |data| - sent;
        return data[..sent + extra], false;
      }
      sent := sent + reply.count;
      call := call + 1;
    }
    return data, true;
  }

  /** Go's `copy` into the middle of a buffer; everything else stays. */
  method Splice(buffer: array<byte>, at: nat, source: seq<byte>)
    requires at + |source| <= buffer.Length
    modifies buffer
    ensures forall i :: 0 <= i < buffer.Length ==>
              buffer[i] == if at <= i < at + |source| then source[i - at] else old(buffer[i])
  {
    forall i | at <= i < at + |source| { buffer[i] := source[i - at]; }
  }

  lemma SliceIs(buffer: array<byte>, from: nat, s: seq<byte>)
    requires from + |s| <= buffer.Length
    requires forall i :: 0 <= i < |s| ==> buffer[from + i] == s[i]
    ensures buffer[from..from + |s|] == s
  {
    forall i | 0 <= i < |s| ensures buffer[from..from + |s|][i] == s[i] {
      assert buffer[from + i] == s[i];
    }
  }

  lemma SliceOfSlice(s: seq<byte>, from: nat, mid: nat, to: nat)
    requires from <= mid <= to <= |s|
    ensures s[from..to][..mid - from] == s[from..mid] && s[from..to][mid - from..] == s[mid..to]
  {
  }

  function Zeros(n: nat): seq<byte> {
    seq(n, _ => 0)
  }

  // ----- Specification of the two halves -----

  datatype Sender = Sender(counter: nat, closed: bool)
  datatype SendResult = Sent(count: nat) | Closed | TooLarge | Exhausted | CarrierFailed

  /** New sender, outcome, plaintexts of the records sealed and bytes put on the wire. */
  datatype SendStep = SendStep(sender: Sender, result: SendResult, sealed: seq<seq<byte>>, wire: seq<byte>)

  function SealAndSend(a: Aead, prefix: Prefix, s: Sender, recs: seq<seq<byte>>, count: nat,
                       carrier: Carrier): SendStep {
    var frames := Frames(a, prefix, s.counter, recs);
    var (taken, ok) := Taken(carrier, 0, |frames|);
    SendStep(s.(counter := s.counter + |recs|), if ok then Sent(count) else CarrierFailed, recs, frames[..taken])
  }

  function WriteSpec(a: Aead, prefix: Prefix, s: Sender, p: seq<byte>, carrier: Carrier): SendStep {
    if s.closed then SendStep(s, Closed, [], [])
    else if p == [] then SendStep(s, Sent(0), [], [])
    else if |p| > MAX_PLAINTEXT then SendStep(s, TooLarge, [], [])
    else if s.counter >= COUNTER_MAX || |Chunks(p)| > COUNTER_MAX - s.counter then SendStep(s, Exhausted, [], [])
    else SealAndSend(a, prefix, s, Chunks(p), |p|, carrier)
  }

  function WriteEofSpec(a: Aead, prefix: Prefix, s: Sender, carrier: Carrier): SendStep {
    if s.closed then SendStep(s, Sent(0), [], [])
    else
      var t := s.(closed := true);
      if s.counter >= COUNTER_MAX then SendStep(t, Exhausted, [], [])
      else SealAndSend(a, prefix, t, [[]], 0, carrier)
  }

  datatype Reader = Reader(decoded: seq<byte>, eof: bool)
  /** `Starved` means the call still waits for the carrier. */
  datatype ReadResult =
    | Data(bytes: seq<byte>) | Eof | Starved | BadLength | AuthFailed
    | CarrierEof | CarrierError

  datatype ReadStep = ReadStep(reader: Reader, wire: seq<byte>, result: ReadResult)

  function ReadSpec(a: Aead, r: Reader, wire: seq<byte>, size: nat): ReadStep {
    if r.eof then ReadStep(r, wire, Eof)
    else if size == 0 then ReadStep(r, wire, Data([]))
    else if r.decoded != [] then
      var n := if size < |r.decoded| then size else |r.decoded|;
      ReadStep(r.(decoded := r.decoded[n..]), wire, Data(r.decoded[..n]))
    else if |wire| < 4 then ReadStep(r, wire, Starved)
    else
      var length := FromBe32(wire[..4]);
      if length < NONCE_SIZE + OVERHEAD || length > MAX_PLAINTEXT + NONCE_SIZE + OVERHEAD then
        ReadStep(r, wire[4..], BadLength)
      else if |wire| < 4 + length then ReadStep(r, wire, Starved)
      else
        var rest := wire[4 + length..];
        match a.open(wire[4..4 + NONCE_SIZE], wire[4 + NONCE_SIZE..4 + length])
        case None => ReadStep(r, rest, AuthFailed)
        case Some(p) =>
          if p == [] then ReadStep(r.(eof := true), rest, Eof)
          else if |p| <= size then ReadStep(r, rest, Data(p))
          else ReadStep(r.(decoded := p[size..]), rest, Data(p[..size]))
  }

  /** What comes after the bytes that the carrier holds: more some time, its own end of stream, or a failure. */
  datatype Outlook = Flowing | HungUp | Dropped

  /**
    A read that runs out of bytes under a carrier that has ended. What is left of the carrier is lost, and its
    own end is passed on as an end of the stream if it comes before the first byte of a length or of a body.
   */
  function ReadAtEnd(a: Aead, r: Reader, wire: seq<byte>, size: nat, outlook: Outlook): ReadStep {
    var step := ReadSpec(a, r, wire, size);
    if step.result != Starved || outlook == Flowing then step
    else ReadStep(r, [], if outlook == HungUp && (|wire| == 0 || |wire| == 4) then CarrierEof else CarrierError)
  }

  // ----- The connection object -----

  class AeadConn {
    const aead: Aead
    const noncePrefix: Prefix
    var sendCounter: nat
    var writeClosed: bool
    var writeFrame: array<byte>
    var readEof: bool
    var readFrame: array<byte>
    var decodedFrom: nat
    var decodedTo: nat

    ghost predicate Valid()
      reads this
    {
      && aead.Correct()
      && writeFrame != readFrame
      && decodedFrom <= decodedTo <= readFrame.Length
      && sendCounter <= COUNTER_MAX
    }

    ghost function SenderView(): Sender
      reads this
    {
      Sender(sendCounter, writeClosed)
    }

    /** The undelivered plaintext lives inside `readFrame` itself. */
    ghost function ReaderView(): Reader
      requires Valid()
      reads this, readFrame
    {
      Reader(readFrame[decodedFrom..decodedTo], readEof)
    }

    /** Plaintext that was handed over is gone from the buffer it was decrypted in. */
    ghost predicate Cleared()
      requires Valid()
      reads this, readFrame
    {
      forall i :: NONCE_SIZE <= i < decodedFrom ==> readFrame[i] == 0
    }

    constructor (aead: Aead, prefix: Prefix)
      requires aead.Correct()
      ensures Valid() && this.aead == aead && noncePrefix == prefix
      ensures SenderView() == Sender(0, false) && ReaderView() == Reader([], false) && Cleared()
      ensures fresh(writeFrame) && fresh(readFrame)
    {
      this.aead, noncePrefix := aead, prefix;
      sendCounter, writeClosed, readEof := 0, false, false;
      decodedFrom, decodedTo := 0, 0;
      var w, r := new byte[0], new byte[0];
      writeFrame, readFrame := w, r;
    }

    /** Appends one sealed record at `offset`; the caller has made room for it. */
    method SealRecord(offset: nat, plaintext: seq<byte>) returns (end: nat)
      requires Valid() && sendCounter < COUNTER_MAX
      requires offset + RecordSize(|plaintext|) <= writeFrame.Length
      modifies this`sendCounter, writeFrame
      ensures Valid() && sendCounter == old(sendCounter) + 1
      ensures end == offset + RecordSize(|plaintext|)
      ensures writeFrame[..end] == old(writeFrame[..offset]) + Record(aead, noncePrefix, sendCounter, plaintext)
    {
      sendCounter := sendCounter + 1;
      var nonce := Nonce(noncePrefix, sendCounter);
      var body := aead.seal(nonce, plaintext);
      end := offset + 4 + NONCE_SIZE + |body|;
      var size := Be32(end - offset - 4);
      Splice(writeFrame, offset + 4, nonce);
      Splice(writeFrame, offset + 4 + NONCE_SIZE, body);
      Splice(writeFrame, offset, size);
    }

    /** Seals the first of the chunks still to be written, at its place in the finished batch. */
    method SealNext(offset: nat, chunk: seq<byte>, ghost left: seq<seq<byte>>,
                    ghost whole: seq<byte>) returns (end: nat)
      requires Valid() && sendCounter < COUNTER_MAX
      requires left != [] && left[0] == chunk && |whole| <= writeFrame.Length
      requires offset <= |whole| && writeFrame[..offset] == whole[..offset]
      requires whole[offset..] == Frames(aead, noncePrefix, sendCounter, left)
      modifies this`sendCounter, writeFrame
      ensures Valid() && sendCounter == old(sendCounter) + 1
      ensures offset <= end <= |whole| && writeFrame[..end] == whole[..end]
      ensures whole[end..] == Frames(aead, noncePrefix, sendCounter, left[1..])
    {
      ghost var piece := Record(aead, noncePrefix, sendCounter + 1, chunk);
      ghost var rest := Frames(aead, noncePrefix, sendCounter + 1, left[1..]);
      assert |piece| == RecordSize(|chunk|);
      assert whole[offset..] == piece + rest;
      end := SealRecord(offset, chunk);
      assert whole[offset..][..|piece|] == piece && whole[offset..][|piece|..] == rest;
      Extend(whole, offset, |piece|, writeFrame[..end], piece);
    }

    /** Seals all records of `plaintext` into the buffer, which the caller has sized exactly. */
    method SealAll(plaintext: seq<byte>) returns (used: nat)
      requires Valid() && sendCounter + |Chunks(plaintext)| <= COUNTER_MAX
      requires |Frames(aead, noncePrefix, sendCounter, Chunks(plaintext))| <= writeFrame.Length
      modifies this`sendCounter, writeFrame
      ensures Valid() && sendCounter == old(sendCounter) + |Chunks(plaintext)|
      ensures used <= writeFrame.Length
      ensures writeFrame[..used] == Frames(aead, noncePrefix, old(sendCounter), Chunks(plaintext))
    {
      used := 0;
      var rest := plaintext;
      ghost var whole := Frames(aead, noncePrefix, sendCounter, Chunks(plaintext));
      while rest != []
        invariant Valid()
        invariant sendCounter + |Chunks(rest)| == old(sendCounter) + |Chunks(plaintext)|
        invariant used <= |whole| && writeFrame[..used] == whole[..used]
        invariant whole[used..] == Frames(aead, noncePrefix, sendCounter, Chunks(rest))
        decreases |rest|
      {
        var n := FirstChunk(rest);
        assert Chunks(rest)[1..] == Chunks(rest[n..]);
        used := SealNext(used, rest[..n], Chunks(rest), whole);
        rest := rest[n..];
      }
    }

    method Write(plaintext: seq<byte>, carrier: Carrier) returns (result: SendResult, taken: seq<byte>)
      requires Valid()
      modifies this`sendCounter, this`writeFrame, writeFrame
      ensures Valid() && (writeFrame == old(writeFrame) || fresh(writeFrame))
      ensures var step := WriteSpec(aead, noncePrefix, old(SenderView()), plaintext, carrier);
              SenderView() == step.sender && result == step.result && taken == step.wire
    {
      taken := [];
      if writeClosed { return Closed, taken; }
      if |plaintext| == 0 { return Sent(0), taken; }
      if |plaintext| > MAX_PLAINTEXT { return TooLarge, taken; }
      var records := (|plaintext| + RECORD_PLAINTEXT - 1) / RECORD_PLAINTEXT;
      ChunkCount(plaintext);
      if sendCounter >= COUNTER_MAX || records > COUNTER_MAX - sendCounter { return Exhausted, taken; }
      var size := |plaintext| + records * (4 + NONCE_SIZE + OVERHEAD);
      if writeFrame.Length < size {
        writeFrame := new byte[size];
      }
      assert size == |Frames(aead, noncePrefix, sendCounter, Chunks(plaintext))| && records == |Chunks(plaintext)| by {
        ChunkCount(plaintext);
        BatchSizeExact(aead, noncePrefix, sendCounter, plaintext);
      }
      var used := SealAll(plaintext);
      var ok;
      taken, ok := WriteFull(carrier, writeFrame[..used]);
      result := if ok then Sent(|plaintext|) else CarrierFailed;
    }

    method WriteEof(carrier: Carrier) returns (result: SendResult, taken: seq<byte>)
      requires Valid()
      modifies this`sendCounter, this`writeClosed, this`writeFrame, writeFrame
      ensures Valid() && (writeFrame == old(writeFrame) || fresh(writeFrame))
      ensures var step := WriteEofSpec(aead, noncePrefix, old(SenderView()), carrier);
              SenderView() == step.sender && result == step.result && taken == step.wire
    {
      taken := [];
      if writeClosed { return Sent(0), taken; }
      writeClosed := true;
      if sendCounter >= COUNTER_MAX { return Exhausted, taken; }
      var size := 4 + NONCE_SIZE + OVERHEAD;
      if writeFrame.Length < size {
        writeFrame := new byte[size];
      }
      ghost var whole := Frames(aead, noncePrefix, sendCounter, [[]]);
      assert |whole| == size;
      var used := SealNext(0, [], [[]], whole);
      assert writeFrame[..used] == whole;
      var ok;
      taken, ok := WriteFull(carrier, writeFrame[..used]);
      result := if ok then Sent(0) else CarrierFailed;
    }

    /** Reads into `destination`; `wire` is what the carrier holds and `rest` what it still holds after. */
    method Read(destination: array<byte>, wire: seq<byte>, outlook: Outlook)
      returns (result: ReadResult, rest: seq<byte>)
      requires Valid() && destination != readFrame && destination != writeFrame
      modifies this`readEof, this`readFrame, this`decodedFrom, this`decodedTo, readFrame, destination
      ensures Valid() && (readFrame == old(readFrame) || fresh(readFrame))
      ensures ReadAtEnd(aead, old(ReaderView()), wire, destination.Length, outlook)
           == ReadStep(ReaderView(), rest, result)
      ensures result.Data? ==> |result.bytes| <= destination.Length && destination[..|result.bytes|] == result.bytes
      ensures old(decodedFrom < decodedTo) ==> readFrame == old(readFrame)
      ensures old(Cleared()) ==> Cleared()
    {
      rest := wire;
      if readEof { return Eof, rest; }
      if destination.Length == 0 { return Data([]), rest; }
      if decodedFrom < decodedTo {
        var piece := Drain(destination);
        return Data(piece), rest;
      }
      if |wire| < 4 {
        if outlook == Flowing { return Starved, rest; }
        return if outlook == HungUp && |wire| == 0 then CarrierEof else CarrierError, [];
      }
      var length := FromBe32(wire[..4]);
      if length < NONCE_SIZE + OVERHEAD || length > MAX_PLAINTEXT + NONCE_SIZE + OVERHEAD {
        return BadLength, wire[4..];
      }
      if |wire| < 4 + length {
        if outlook == Flowing { return Starved, rest; }
        return if outlook == HungUp && |wire| == 4 then CarrierEof else CarrierError, [];
      }
      rest := wire[4 + length..];
      var frame := wire[4..4 + length];
      SliceOfSlice(wire, 4, 4 + NONCE_SIZE, 4 + length);
      result := OpenFrame(destination, frame);
    }

    /** Hands over what is left of the last record and clears it in place. */
    method Drain(destination: array<byte>) returns (piece: seq<byte>)
      requires Valid() && decodedFrom < decodedTo && destination != readFrame && 0 < destination.Length
      modifies this`decodedFrom, readFrame, destination
      ensures Valid() && |piece| <= destination.Length && destination[..|piece|] == piece
      ensures var before := old(ReaderView()).decoded;
              && |piece| == (if destination.Length < |before| then destination.Length else |before|)
              && piece == before[..|piece|] && ReaderView() == Reader(before[|piece|..], readEof)
      ensures old(Cleared()) ==> Cleared()
    {
      var count := if destination.Length < decodedTo - decodedFrom then destination.Length else decodedTo - decodedFrom;
      ghost var before := readFrame[decodedFrom..decodedTo];
      piece := readFrame[decodedFrom..decodedFrom + count];
      assert piece == before[..count];
      Splice(destination, 0, piece);
      Splice(readFrame, decodedFrom, Zeros(count));
      decodedFrom := decodedFrom + count;
      SliceIs(readFrame, decodedFrom, before[count..]);
    }

    /** Reads a whole frame into the idle `readFrame` and opens it, into the destination if it fits. */
    method OpenFrame(destination: array<byte>, frame: seq<byte>) returns (result: ReadResult)
      requires Valid() && !readEof && decodedFrom == decodedTo
      requires destination != readFrame && destination != writeFrame && 0 < destination.Length
      requires NONCE_SIZE + OVERHEAD <= |frame|
      modifies this`readEof, this`readFrame, this`decodedFrom, this`decodedTo, readFrame, destination
      ensures Valid() && (readFrame == old(readFrame) || fresh(readFrame))
      ensures result.Data? ==> |result.bytes| <= destination.Length && destination[..|result.bytes|] == result.bytes
      ensures match aead.open(frame[..NONCE_SIZE], frame[NONCE_SIZE..])
              case None => result == AuthFailed && ReaderView() == Reader([], false)
              case Some(p) =>
                if p == [] then result == Eof && ReaderView() == Reader([], true)
                else if |p| <= destination.Length then result == Data(p) && ReaderView() == Reader([], false)
                else result == Data(p[..destination.Length]) && ReaderView() == Reader(p[destination.Length..], false)
      ensures Cleared()
      ensures result == AuthFailed && |frame| - NONCE_SIZE - OVERHEAD <= destination.Length ==>
                destination[..|frame| - NONCE_SIZE - OVERHEAD] == Zeros(|frame| - NONCE_SIZE - OVERHEAD)
    {
      decodedFrom, decodedTo := 0, 0;
      if readFrame.Length < |frame| {
        readFrame := new byte[|frame|];
      }
      Splice(readFrame, 0, frame);
      assert readFrame[..|frame|] == frame;
      var plain := aead.open(readFrame[..NONCE_SIZE], readFrame[NONCE_SIZE..|frame|]);
      assert frame[..NONCE_SIZE] == readFrame[..NONCE_SIZE] && frame[NONCE_SIZE..] == readFrame[NONCE_SIZE..|frame|];
      var size := |frame| - NONCE_SIZE - OVERHEAD;
      if plain.None? {
        if size <= destination.Length {
          Splice(destination, 0, Zeros(size));
        }
        return AuthFailed;
      }
      if size <= destination.Length {
        Splice(destination, 0, plain.value);
        if plain.value == [] {
          readEof := true;
          return Eof;
        }
        return Data(plain.value);
      }
      result := Spill(destination, plain.value);
    }

    /** The plaintext replaces the ciphertext in place, is handed over in part and cleared there. */
    method Spill(destination: array<byte>, p: seq<byte>) returns (result: ReadResult)
      requires Valid() && destination != readFrame && destination.Length < |p|
      requires NONCE_SIZE + |p| <= readFrame.Length
      modifies this`decodedFrom, this`decodedTo, readFrame, destination
      ensures Valid() && destination[..] == p[..destination.Length]
      ensures result == Data(p[..destination.Length]) && ReaderView() == Reader(p[destination.Length..], readEof)
      ensures Cleared()
    {
      Splice(readFrame, NONCE_SIZE, p);
      var count := destination.Length;
      var piece := readFrame[NONCE_SIZE..NONCE_SIZE + count];
      assert piece == p[..count];
      Splice(destination, 0, piece);
      Splice(readFrame, NONCE_SIZE, Zeros(count));
      decodedFrom, decodedTo := NONCE_SIZE + count, NONCE_SIZE + |p|;
      SliceIs(readFrame, decodedFrom, p[count..]);
      result := Data(piece);
    }
  }
}
