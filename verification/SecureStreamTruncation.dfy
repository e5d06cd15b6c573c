/**
  What becomes of a stream after a failed write. The copy loops still send the end marker then, so it matters
  exactly when a reader can take the end of such a stream for the end of all its data, and exactly when
  data written later can reach a reader in place of what was lost.
 */
module SecureStreamTruncation {
  import opened Bytes
  import opened SecureStream
  import opened SecureStreamRuns

  /** Successive reads with these destination sizes. */
  function Reads(a: Aead, prefix: Prefix, y: Stream, sizes: seq<nat>): Stream
    decreases |sizes|
  {
    if sizes == [] then y else Reads(a, prefix, Step(a, prefix, y, DoRead(sizes[0])), sizes[1..])
  }

  /** A reported end comes after everything that was written. */
  predicate EndIsTrue(y: Stream) {
    y.reader.eof ==> y.delivered == y.log.written
  }

  /** The reader has kept away from torn records, or what it delivered is a prefix of what was written. */
  predicate PrefixUnlessAstray(y: Stream) {
    y.astray || y.delivered <= y.log.written
  }

  /** The first `k` bytes of the records are some of them, possibly none, but not all. */
  predicate CleanCut(recs: seq<seq<byte>>, k: nat) {
    var (n, cut) := Cut(recs, k); n < |recs| && !cut
  }

  // ----- Reading on from any state -----

  lemma {:induction false} ReadsKeep(a: Aead, prefix: Prefix, y: Stream, sizes: seq<nat>)
    requires a.Correct() && Invariant(a, prefix, y) && (y.misled ==> y.astray) && (y.astray ==> y.log.torn)
    ensures var z := Reads(a, prefix, y, sizes);
            && Invariant(a, prefix, z) && z.log == y.log && z.sender == y.sender
            && (z.misled ==> z.astray) && (z.astray ==> z.log.torn)
    decreases |sizes|
  {
    if sizes != [] {
      ReadStepKeeps(a, prefix, y, sizes[0]);
      ReadsKeep(a, prefix, Step(a, prefix, y, DoRead(sizes[0])), sizes[1..]);
    }
  }

  /** Some reads deliver all that got out whole, and then see the end if it is marked. */
  lemma {:induction false} ReadAll(a: Aead, prefix: Prefix, y: Stream, items: seq<Item>, tail: seq<byte>)
    returns (sizes: seq<nat>)
    requires a.Correct() && Holds(a, prefix, y, items, tail) && LogSound(y.log, y.sender.closed) && !y.astray
    ensures var z := Reads(a, prefix, y, sizes);
            z.delivered == y.log.whole && !z.astray && z.log == y.log && (y.log.marked ==> z.reader.eof)
    decreases |items|, y.reader.decoded != []
  {
    if y.reader.decoded != [] {
      var size, z := |y.reader.decoded|, Step(a, prefix, y, DoRead(|y.reader.decoded|));
      DecodedKeeps(a, prefix, y, size, items, tail);
      var rest := ReadAll(a, prefix, z, items, tail);
      sizes := [size] + rest;
    } else if items != [] {
      var z := Step(a, prefix, y, DoRead(RECORD_PLAINTEXT));
      RecordKeeps(a, prefix, y, RECORD_PLAINTEXT, items, tail);
      var rest := ReadAll(a, prefix, z, items[1..], tail);
      sizes := [RECORD_PLAINTEXT] + rest;
    } else {
      sizes := [];
      assert y.delivered + ([] + []) == y.delivered;
    }
  }

  lemma ReadOn(a: Aead, prefix: Prefix, y: Stream) returns (sizes: seq<nat>)
    requires a.Correct() && Invariant(a, prefix, y) && !y.astray && !y.misled
    ensures var z := Reads(a, prefix, y, sizes);
            z.delivered == y.log.whole && !z.astray && z.log == y.log && (y.log.marked ==> z.reader.eof)
  {
    var items, tail :| Holds(a, prefix, y, items, tail);
    sizes := ReadAll(a, prefix, y, items, tail);
  }

  // ----- Data sealed after a failure -----

  /**
    After any run, with any failures and late writes, every reader that goes on from there gets a prefix of what
    was written, until it meets a torn record, if and only if what got out whole is such a prefix.
   */
  lemma PrefixIffWhole(a: Aead, prefix: Prefix, ops: seq<Op>)
    requires a.Correct() && !Run(a, prefix, ops).astray
    ensures var y := Run(a, prefix, ops);
            (forall sizes :: PrefixUnlessAstray(Reads(a, prefix, y, sizes))) <==> y.log.whole <= y.log.written
  {
    var y := Run(a, prefix, ops);
    RunKeeps(a, prefix, ops);
    NotMisled(a, prefix, ops);
    var all := ReadOn(a, prefix, y);
    assert PrefixUnlessAstray(Reads(a, prefix, y, all)) <==> y.log.whole <= y.log.written;
    forall sizes ensures y.log.whole <= y.log.written ==> PrefixUnlessAstray(Reads(a, prefix, y, sizes)) {
      ReadsKeep(a, prefix, y, sizes);
      var z := Reads(a, prefix, y, sizes);
      if !z.astray {
        var items, tail :| Holds(a, prefix, z, items, tail);
        assert z.delivered <= z.log.whole;
      }
    }
  }

  /** The plaintext of the whole records among the first `k` bytes of a write of `p`. */
  function Out(p: seq<byte>, k: nat): seq<byte> {
    Flatten(Chunks(p)[..Cut(Chunks(p), k).0])
  }

  /** The plaintext of a write of `p` that did not get out whole with its first `k` bytes. */
  function Missing(p: seq<byte>, k: nat): seq<byte> {
    Flatten(Chunks(p)[Cut(Chunks(p), k).0..])
  }

  lemma OutAndMissing(p: seq<byte>, k: nat)
    ensures Out(p, k) + Missing(p, k) == p && Out(p, k) <= p
    ensures Cut(Chunks(p), k).0 == |Chunks(p)| ==> Out(p, k) == p
    ensures Cut(Chunks(p), k).0 < |Chunks(p)| ==> Missing(p, k) != []
  {
    var chunks, n := Chunks(p), Cut(Chunks(p), k).0;
    ChunksContents(p);
    assert chunks[..n] + chunks[n..] == chunks;
    FlattenAppend(chunks[..n], chunks[n..]);
    if n == |chunks| {
      assert chunks[..n] == chunks;
    } else {
      assert chunks[n..][0] == chunks[n];
    }
  }

  /**
    After a healthy run, let a write of `p` fail in the carrier and a write of `q` follow. Every reader gets a prefix
    of what was written, until it meets a torn record, if and only if the carrier did not stop cleanly, or what
    gets out of `q` happens to begin like the missing part of `p` and `q` itself.
   */
  lemma LateDataIffLikeMissing(a: Aead, prefix: Prefix, ops: seq<Op>, p: seq<byte>, bad: Carrier, q: seq<byte>,
                               next: Carrier)
    requires a.Correct() && !Run(a, prefix, ops).log.broken
    requires var y := Run(a, prefix, ops);
             var first := WriteSpec(a, prefix, y.sender, p, bad);
             first.result == CarrierFailed && WriteSpec(a, prefix, first.sender, q, next).sealed != []
    ensures var y := Run(a, prefix, ops);
            var first := WriteSpec(a, prefix, y.sender, p, bad);
            var second := WriteSpec(a, prefix, first.sender, q, next);
            var z := Run(a, prefix, ops + [DoWrite(p, bad), DoWrite(q, next)]);
            (forall sizes :: PrefixUnlessAstray(Reads(a, prefix, z, sizes)))
            <==> (CleanCut(Chunks(p), |first.wire|) ==> Out(q, |second.wire|) <= Missing(p, |first.wire|) + q)
  {
    RunTwo(a, prefix, ops, DoWrite(p, bad), DoWrite(q, next));
    RunKeeps(a, prefix, ops);
    DeliveredIsPrefix(a, prefix, ops);
    PrefixIffWhole(a, prefix, ops + [DoWrite(p, bad), DoWrite(q, next)]);
    TwoWrites(a, prefix, Run(a, prefix, ops), p, bad, q, next);
  }

  lemma TwoWrites(a: Aead, prefix: Prefix, y: Stream, p: seq<byte>, bad: Carrier, q: seq<byte>, next: Carrier)
    requires LogSound(y.log, y.sender.closed) && !y.log.broken && !y.astray
    requires var first := WriteSpec(a, prefix, y.sender, p, bad);
             first.result == CarrierFailed && WriteSpec(a, prefix, first.sender, q, next).sealed != []
    ensures var first := WriteSpec(a, prefix, y.sender, p, bad);
            var second := WriteSpec(a, prefix, first.sender, q, next);
            var z := Step(a, prefix, Step(a, prefix, y, DoWrite(p, bad)), DoWrite(q, next));
            && !z.astray
            && (z.log.whole <= z.log.written
                <==> (CleanCut(Chunks(p), |first.wire|) ==> Out(q, |second.wire|) <= Missing(p, |first.wire|) + q))
  {
    var first := WriteSpec(a, prefix, y.sender, p, bad);
    var second := WriteSpec(a, prefix, first.sender, q, next);
    WholeAfterTwo(prefix, y.sender.counter, y.log, p, first, q, second);
  }

  lemma RunTwo(a: Aead, prefix: Prefix, ops: seq<Op>, x: Op, z: Op)
    ensures Run(a, prefix, ops + [x, z]) == Step(a, prefix, Step(a, prefix, Run(a, prefix, ops), x), z)
  {
    assert (ops + [x, z])[..|ops| + 1] == ops + [x] && (ops + [x])[..|ops|] == ops;
  }

  lemma WholeAfterTwo(prefix: Prefix, c: nat, l: Log, p: seq<byte>, first: SendStep, q: seq<byte>, second: SendStep)
    requires LogSound(l, false) && !l.broken
    requires first.sealed == Chunks(p) != [] && second.sealed == Chunks(q) != [] && !first.sender.closed
    ensures var m := Logged(prefix, first.sender.counter, Logged(prefix, c, l, first, p), second, q);
            m.whole <= m.written
            <==> (CleanCut(Chunks(p), |first.wire|) ==> Out(q, |second.wire|) <= Missing(p, |first.wire|) + q)
  {
    TwoAccounts(l.written, p, |first.wire|, q, |second.wire|);
  }

  lemma TwoAccounts(w: seq<byte>, p: seq<byte>, k: nat, q: seq<byte>, l: nat)
    ensures w + Out(p, k) <= w + p + q
    ensures Cut(Chunks(p), k).0 == |Chunks(p)| ==> w + Out(p, k) + Out(q, l) <= w + p + q
    ensures w + Out(p, k) + Out(q, l) <= w + p + q <==> Out(q, l) <= Missing(p, k) + q
  {
    OutAndMissing(p, k);
    OutAndMissing(q, l);
    var out, rest := Out(p, k), Missing(p, k);
    Regroup(w, out, rest, q);
    SameStart(w + out, Out(q, l), rest + q);
  }

  lemma SameStart(w: seq<byte>, s: seq<byte>, t: seq<byte>)
    ensures w + s <= w + t <==> s <= t
  {
    if w + s <= w + t {
      forall i | 0 <= i < |s| ensures s[i] == t[i] {
        assert (w + s)[|w| + i] == (w + t)[|w| + i];
      }
    }
  }

  /** A carrier that takes nothing, and one that takes everything at once. */
  const REFUSING: Carrier := _ => Reply(0, true)

  function Taking(n: nat): Carrier {
    _ => Reply(n, false)
  }

  lemma OneByte(b: byte)
    ensures Chunks([b]) == [[b]] && Flatten([[b]]) == [b]
    ensures Cut([[b]], 0) == (0, false) && Cut([[b]], RecordSize(1)) == (1, false)
  {
    assert [b][1..] == [] && [b][..1] == [b];
    assert [[b]][1..] == [] && [b] + [] == [b];
  }

  /** A stream whose first byte was refused. */
  function Refused(prefix: Prefix): Stream {
    var log := FRESH.log.(written := [7], nonces := NoncesFor(prefix, 0, 1), broken := true);
    FRESH.(sender := Sender(1, false), log := log)
  }

  lemma RefusedByte(a: Aead, prefix: Prefix)
    requires a.Correct()
    ensures Run(a, prefix, [DoWrite([7], REFUSING)]) == Refused(prefix)
  {
    var ops := [DoWrite([7], REFUSING)];
    RefusedStep(a, prefix);
    OneByte(7);
    assert ops[..0] == [] && Run(a, prefix, ops) == Step(a, prefix, FRESH, ops[0]);
    assert [[7]][..0] == [] && NoncesFor(prefix, 0, 1) == [] + NoncesFor(prefix, 0, 1);
  }

  lemma RefusedStep(a: Aead, prefix: Prefix)
    requires a.Correct()
    ensures WriteSpec(a, prefix, Sender(0, false), [7], REFUSING)
         == SendStep(Sender(1, false), CarrierFailed, [[7]], [])
  {
    OneByte(7);
    OneRecord(a, prefix, 0, [7]);
    var frames := Frames(a, prefix, 0, [[7]]);
    assert Taken(REFUSING, 0, |frames|) == (0, false) && frames[..0] == [];
  }

  /** A carrier that takes the length of a record and then fails. */
  const CUTTING: Carrier := _ => Reply(4, true)

  lemma CutStep(a: Aead, prefix: Prefix)
    requires a.Correct()
    ensures WriteSpec(a, prefix, Sender(0, false), [7], CUTTING)
         == SendStep(Sender(1, false), CarrierFailed, [[7]], Record(a, prefix, 1, [7])[..4])
  {
    OneByte(7);
    OneRecord(a, prefix, 0, [7]);
    assert Taken(CUTTING, 0, RecordSize(1)) == (4, false);
  }

  /** A byte of which only the length of its record got out: if the carrier then ends, the reader is told an end. */
  lemma BareLengthThenEnd(a: Aead, prefix: Prefix)
    requires a.Correct()
    ensures var y := Run(a, prefix, [DoWrite([7], CUTTING)]);
            && y.log.written == [7] && y.log.torn && |y.wire| == 4 && y.delivered == [] && !y.astray
            && ReadAtEnd(a, y.reader, y.wire, 1, HungUp).result == CarrierEof
  {
    var ops := [DoWrite([7], CUTTING)];
    CutStep(a, prefix);
    RecordShape(a, prefix, 1, [7]);
    assert ops[..0] == [] && Run(a, prefix, ops) == Step(a, prefix, FRESH, ops[0]);
    assert Cut([[7]], 4) == (0, true);
    var wire := Record(a, prefix, 1, [7])[..4];
    assert [] + wire == wire && wire[..4] == wire;
  }

  lemma OneRecord(a: Aead, prefix: Prefix, c: nat, rec: seq<byte>)
    requires a.Correct()
    ensures Frames(a, prefix, c, [rec]) == Record(a, prefix, c + 1, rec) == Wire(a, prefix, [Item(c + 1, rec)])
    ensures |Record(a, prefix, c + 1, rec)| == RecordSize(|rec|) && Cut([rec], RecordSize(|rec|)) == (1, false)
    ensures [rec][..1] == [rec] && Flatten([rec]) == rec
  {
    assert [rec][1..] == [] && rec + [] == rec;
    assert [Item(c + 1, rec)][1..] == [];
    var r := Record(a, prefix, c + 1, rec);
    assert r + [] == r;
    assert Frames(a, prefix, c + 1, []) == [] && Wire(a, prefix, []) == [];
  }

  /** A record that the carrier takes whole, as a step of the sender and of the log. */
  lemma TakenWhole(a: Aead, prefix: Prefix, t: Sender, rec: seq<byte>, count: nat, carrier: Carrier, l: Log)
    requires a.Correct() && Taken(carrier, 0, RecordSize(|rec|)).1
    ensures var step := SealAndSend(a, prefix, t, [rec], count, carrier);
            && step == SendStep(t.(counter := t.counter + 1), Sent(count), [rec], Record(a, prefix, t.counter + 1, rec))
            && Logged(prefix, t.counter, l, step, rec)
               == l.(written := l.written + rec, nonces := l.nonces + NoncesFor(prefix, t.counter, 1),
                     whole := if l.torn then l.whole else l.whole + rec, marked := l.marked || (!l.torn && t.closed),
                     late := l.late || l.broken, lateData := l.lateData || (l.broken && !t.closed))
  {
    OneRecord(a, prefix, t.counter, rec);
  }

  /** After a refused byte, one whole record is on the wire and nothing was read. */
  ghost predicate OneUnread(a: Aead, prefix: Prefix, y: Stream, rec: seq<byte>, written: seq<byte>) {
    && y.wire == Record(a, prefix, 2, rec) && y.reader == Reader([], false) && y.delivered == []
    && y.log.written == written && !y.log.torn && !y.astray
  }

  lemma ReadNext(a: Aead, prefix: Prefix, y: Stream, rec: seq<byte>, written: seq<byte>)
    requires a.Correct() && |rec| <= 1 && OneUnread(a, prefix, y, rec, written)
    ensures var z := Step(a, prefix, y, DoRead(1));
            z.log.written == written && z.delivered == rec && !z.astray && (rec == [] ==> z.reader.eof)
  {
    OneRecord(a, prefix, 1, rec);
    assert y.wire + [] == y.wire;
    ReadRecord(a, prefix, y, 1, [Item(2, rec)], []);
  }

  lemma LateByte(a: Aead, prefix: Prefix)
    requires a.Correct()
    ensures OneUnread(a, prefix, Step(a, prefix, Refused(prefix), DoWrite([8], Taking(RecordSize(1)))), [8], [7, 8])
  {
    OneByte(8);
    TakenWhole(a, prefix, Sender(1, false), [8], 1, Taking(RecordSize(1)), Refused(prefix).log);
  }

  /** So a byte that was lost can be replaced by a later one without the reader noticing. */
  lemma LateByteReplacesLost(a: Aead, prefix: Prefix)
    requires a.Correct()
    ensures var y := Run(a, prefix, [DoWrite([7], REFUSING), DoWrite([8], Taking(RecordSize(1))), DoRead(1)]);
            y.log.written == [7, 8] && y.delivered == [8] && !y.astray
  {
    LateByte(a, prefix);
    RunRefused(a, prefix, DoWrite([8], Taking(RecordSize(1))), DoRead(1));
    ReadNext(a, prefix, Step(a, prefix, Refused(prefix), DoWrite([8], Taking(RecordSize(1)))), [8], [7, 8]);
  }

  lemma RunRefused(a: Aead, prefix: Prefix, x: Op, z: Op)
    requires a.Correct()
    ensures Run(a, prefix, [DoWrite([7], REFUSING), x, z]) == Step(a, prefix, Step(a, prefix, Refused(prefix), x), z)
  {
    RefusedByte(a, prefix);
    RunTwo(a, prefix, [DoWrite([7], REFUSING)], x, z);
    assert [DoWrite([7], REFUSING)] + [x, z] == [DoWrite([7], REFUSING), x, z];
  }

  // ----- The marker after a torn record -----

  /** Too little is left on the wire for any record, so no end can be read from it. */
  ghost predicate Drained(y: Stream) {
    !y.reader.eof && |y.wire| < RecordSize(0)
  }

  /** Whole data records, then a torn one, then the marker. */
  ghost predicate Shredded(a: Aead, prefix: Prefix, y: Stream, items: seq<Item>, torn: nat, p: seq<byte>,
                           tail: seq<byte>, m: nat) {
    && !y.reader.eof && GoodItems(items, false)
    && 0 < |p| <= RECORD_PLAINTEXT && Torn(a, prefix, torn, p, tail)
    && y.wire == Wire(a, prefix, items) + (tail + Record(a, prefix, m, []))
  }

  lemma ShreddedStays(a: Aead, prefix: Prefix, y: Stream, size: nat, items: seq<Item>,
                      torn: nat, p: seq<byte>, tail: seq<byte>, m: nat)
    returns (items': seq<Item>)
    requires a.Correct() && Shredded(a, prefix, y, items, torn, p, tail, m)
    ensures var z := Step(a, prefix, y, DoRead(size));
            Drained(z) || Shredded(a, prefix, z, items', torn, p, tail, m)
  {
    items' := items;
    if size > 0 && y.reader.decoded == [] {
      if items != [] {
        ReadRecord(a, prefix, y, size, items, tail + Record(a, prefix, m, []));
        items' := items[1..];
      } else {
        assert y.wire == tail + Record(a, prefix, m, []);
        MarkerAfterTorn(a, prefix, y, size, torn, p, tail, m);
      }
    }
  }

  /** A read that starts at the torn record waits, or leaves less than a record behind and no end. */
  lemma MarkerAfterTorn(a: Aead, prefix: Prefix, y: Stream, size: nat, torn: nat, p: seq<byte>, tail: seq<byte>, m: nat)
    requires a.Correct() && !y.reader.eof && y.reader.decoded == [] && 0 < size
    requires 0 < |p| <= RECORD_PLAINTEXT && Torn(a, prefix, torn, p, tail)
    requires y.wire == tail + Record(a, prefix, m, [])
    ensures var z := Step(a, prefix, y, DoRead(size)); (z.wire == y.wire && z.reader == y.reader) || Drained(z)
  {
    RecordShape(a, prefix, torn, p);
    RecordShape(a, prefix, m, []);
    var r, marker := Record(a, prefix, torn, p), Record(a, prefix, m, []);
    if |tail| >= 4 {
      assert y.wire[..4] == r[..4];
    } else {
      MixedLength(r, marker, tail, y.wire, |p|);
    }
  }

  /** A length made of the first bytes of a record and the zero bytes of the marker is no usable one. */
  lemma MixedLength(r: seq<byte>, marker: seq<byte>, tail: seq<byte>, wire: seq<byte>, n: nat)
    requires 4 <= |r| && r[..4] == Be32(NONCE_SIZE + n + OVERHEAD) && 0 < n <= RECORD_PLAINTEXT
    requires |marker| == RecordSize(0) && marker[..4] == Be32(NONCE_SIZE + OVERHEAD)
    requires 0 < |tail| < 4 && tail == r[..|tail|] && wire == tail + marker
    ensures FromBe32(wire[..4]) == 0 || FromBe32(wire[..4]) >= 256
  {
    assert Be32(NONCE_SIZE + OVERHEAD) == [0, 0, 0, 28];
    assert forall i :: 0 <= i < 4 ==> marker[i] == marker[..4][i];
    assert wire[3] == marker[3 - |tail|] == 0;
    ByteMultiple(wire[..4]);
  }

  lemma ByteMultiple(b: seq<byte>)
    requires |b| == 4 && b[3] == 0
    ensures FromBe32(b) == 0 || FromBe32(b) >= 256
  {
  }

  lemma {:induction false} NoEndAfterTear(a: Aead, prefix: Prefix, y: Stream, sizes: seq<nat>, items: seq<Item>,
                                          torn: nat, p: seq<byte>, tail: seq<byte>, m: nat)
    requires a.Correct() && (Drained(y) || Shredded(a, prefix, y, items, torn, p, tail, m))
    ensures !Reads(a, prefix, y, sizes).reader.eof
    decreases |sizes|
  {
    if sizes != [] {
      var z := Step(a, prefix, y, DoRead(sizes[0]));
      var items' := items;
      if !Drained(y) { items' := ShreddedStays(a, prefix, y, sizes[0], items, torn, p, tail, m); }
      NoEndAfterTear(a, prefix, z, sizes[1..], items', torn, p, tail, m);
    }
  }

  // ----- The exact condition -----

  /**
    After any healthy run, let a write fail in the carrier and the end marker then get through. Every
    reader can rely on the end it is told if and only if the carrier did not stop cleanly, after some of the
    records of that write, possibly none, but not all: there, and only there, the marker is taken for
    the end of a stream that lacks the rest of the data.
   */
  lemma MarkerIsTrueIffNoCleanCut(a: Aead, prefix: Prefix, ops: seq<Op>, p: seq<byte>, carrier: Carrier, ok: Carrier)
    requires a.Correct() && !Run(a, prefix, ops).log.broken
    requires var s := Run(a, prefix, ops).sender;
             && WriteSpec(a, prefix, s, p, carrier).result == CarrierFailed
             && s.counter + |Chunks(p)| < COUNTER_MAX
    requires Taken(ok, 0, RecordSize(0)).1
    ensures var y := Run(a, prefix, ops);
            var z := Run(a, prefix, ops + [DoWrite(p, carrier), DoEof(ok)]);
            (forall sizes :: EndIsTrue(Reads(a, prefix, z, sizes)))
            <==> !CleanCut(Chunks(p), |WriteSpec(a, prefix, y.sender, p, carrier).wire|)
  {
    RunTwo(a, prefix, ops, DoWrite(p, carrier), DoEof(ok));
    RunKeeps(a, prefix, ops);
    DeliveredIsPrefix(a, prefix, ops);
    MarkerAfterFailure(a, prefix, Run(a, prefix, ops), p, carrier, ok);
  }

  ghost predicate Healthy(a: Aead, prefix: Prefix, y: Stream) {
    Invariant(a, prefix, y) && !y.astray && !y.misled && !y.log.broken && !y.sender.closed
  }

  /** `z` is the healthy `y` after `k` bytes of a write of `p` and the marker number `m`. */
  ghost predicate Ended(a: Aead, prefix: Prefix, y: Stream, z: Stream, p: seq<byte>, k: nat, m: nat) {
    && Healthy(a, prefix, y) && Invariant(a, prefix, z)
    && Followed(a, prefix, y, z, p, k, Record(a, prefix, m, [])) && (!z.log.torn ==> z.log.marked)
  }

  /** The same for any healthy stream. */
  lemma MarkerAfterFailure(a: Aead, prefix: Prefix, y: Stream, p: seq<byte>, carrier: Carrier, ok: Carrier)
    requires a.Correct() && Healthy(a, prefix, y) && WriteSpec(a, prefix, y.sender, p, carrier).result == CarrierFailed
    requires y.sender.counter + |Chunks(p)| < COUNTER_MAX && Taken(ok, 0, RecordSize(0)).1
    ensures var z := Step(a, prefix, Step(a, prefix, y, DoWrite(p, carrier)), DoEof(ok));
            (forall sizes :: EndIsTrue(Reads(a, prefix, z, sizes)))
            <==> !CleanCut(Chunks(p), |WriteSpec(a, prefix, y.sender, p, carrier).wire|)
  {
    var x := Step(a, prefix, y, DoWrite(p, carrier));
    Failed(a, prefix, y, p, carrier);
    StepKeeps(a, prefix, y, DoWrite(p, carrier));
    EofDecides(a, prefix, y, x, p, |WriteSpec(a, prefix, y.sender, p, carrier).wire|, ok);
  }

  lemma EofDecides(a: Aead, prefix: Prefix, y: Stream, x: Stream, p: seq<byte>, k: nat, ok: Carrier)
    requires a.Correct() && Healthy(a, prefix, y) && Invariant(a, prefix, x) && Followed(a, prefix, y, x, p, k, [])
    requires !x.sender.closed && x.sender.counter < COUNTER_MAX && Taken(ok, 0, RecordSize(0)).1
    ensures (forall sizes :: EndIsTrue(Reads(a, prefix, Step(a, prefix, x, DoEof(ok)), sizes)))
            <==> !CleanCut(Chunks(p), k)
  {
    StepKeeps(a, prefix, x, DoEof(ok));
    EofTaken(a, prefix, x, ok);
    Marked(a, prefix, y, x, Step(a, prefix, x, DoEof(ok)), p, k);
    MarkerDecides(a, prefix, y, Step(a, prefix, x, DoEof(ok)), p, k, x.sender.counter + 1);
  }

  lemma MarkerDecides(a: Aead, prefix: Prefix, y: Stream, z: Stream, p: seq<byte>, k: nat, m: nat)
    requires a.Correct() && Ended(a, prefix, y, z, p, k, m)
    ensures (forall sizes :: EndIsTrue(Reads(a, prefix, z, sizes))) <==> !CleanCut(Chunks(p), k)
  {
    if Cut(Chunks(p), k).1 {
      forall sizes ensures EndIsTrue(Reads(a, prefix, z, sizes)) {
        TornThenMarker(a, prefix, y, z, p, k, m, sizes);
      }
    } else {
      WholeThenMarker(a, prefix, z, p, k, y.log.written);
    }
  }

  /** `y` with `k` bytes of a write of `p` on the wire, and then `more`. */
  ghost predicate Followed(a: Aead, prefix: Prefix, y: Stream, z: Stream, p: seq<byte>, k: nat, more: seq<byte>) {
    var c, chunks := y.sender.counter, Chunks(p);
    && k <= |Frames(a, prefix, c, chunks)|
    && z.wire == y.wire + Frames(a, prefix, c, chunks)[..k] + more
    && z.reader == y.reader && z.delivered == y.delivered && z.astray == y.astray && z.misled == y.misled
    && z.log.written == y.log.written + p && z.log.whole == y.log.whole + Out(p, k)
    && z.log.torn == Cut(chunks, k).1
  }

  lemma Failed(a: Aead, prefix: Prefix, y: Stream, p: seq<byte>, carrier: Carrier)
    requires WriteSpec(a, prefix, y.sender, p, carrier).result == CarrierFailed && !y.log.torn
    ensures var z := Step(a, prefix, y, DoWrite(p, carrier));
            && Followed(a, prefix, y, z, p, |WriteSpec(a, prefix, y.sender, p, carrier).wire|, [])
            && z.sender == Sender(y.sender.counter + |Chunks(p)|, false) && !y.sender.closed
  {
  }

  /** `z` is `x` after the marker was sent. */
  ghost predicate MarkerSent(a: Aead, prefix: Prefix, x: Stream, z: Stream) {
    && z.wire == x.wire + Record(a, prefix, x.sender.counter + 1, [])
    && z.reader == x.reader && z.delivered == x.delivered && z.astray == x.astray && z.misled == x.misled
    && z.log.written == x.log.written && z.log.whole == x.log.whole
    && z.log.torn == x.log.torn && (!z.log.torn ==> z.log.marked)
  }

  lemma EofTaken(a: Aead, prefix: Prefix, x: Stream, ok: Carrier)
    requires a.Correct() && !x.sender.closed && x.sender.counter < COUNTER_MAX && Taken(ok, 0, RecordSize(0)).1
    ensures MarkerSent(a, prefix, x, Step(a, prefix, x, DoEof(ok)))
  {
    TakenWhole(a, prefix, x.sender.(closed := true), [], 0, ok, x.log);
    assert x.log.written + [] == x.log.written && x.log.whole + [] == x.log.whole;
  }

  lemma Marked(a: Aead, prefix: Prefix, y: Stream, x: Stream, z: Stream, p: seq<byte>, k: nat)
    requires Followed(a, prefix, y, x, p, k, []) && MarkerSent(a, prefix, x, z)
    ensures Followed(a, prefix, y, z, p, k, Record(a, prefix, x.sender.counter + 1, []))
  {
  }

  /** A clean stop: the end is told after exactly what got out, which is all of it only if nothing is missing. */
  lemma WholeThenMarker(a: Aead, prefix: Prefix, z: Stream, p: seq<byte>, k: nat, w: seq<byte>)
    requires a.Correct() && Invariant(a, prefix, z) && !z.log.torn && z.log.marked && !z.astray && !z.misled
    requires z.log.whole == w + Out(p, k) && z.log.written == w + p && !Cut(Chunks(p), k).1
    ensures (forall sizes :: EndIsTrue(Reads(a, prefix, z, sizes))) <==> !CleanCut(Chunks(p), k)
  {
    OutAndMissing(p, k);
    var all := ReadOn(a, prefix, z);
    assert CleanCut(Chunks(p), k) ==> |Out(p, k)| < |p|;
    assert CleanCut(Chunks(p), k) ==> !EndIsTrue(Reads(a, prefix, z, all));
    forall sizes ensures !CleanCut(Chunks(p), k) ==> EndIsTrue(Reads(a, prefix, z, sizes)) {
      ReadsKeep(a, prefix, z, sizes);
      var x := Reads(a, prefix, z, sizes);
      var items, tail :| Holds(a, prefix, x, items, tail);
      assert x.reader.eof ==> x.delivered + ([] + []) == x.delivered;
    }
  }

  lemma TornThenMarker(a: Aead, prefix: Prefix, y: Stream, z: Stream, p: seq<byte>, k: nat, m: nat, sizes: seq<nat>)
    requires a.Correct() && Ended(a, prefix, y, z, p, k, m) && Cut(Chunks(p), k).1
    ensures !Reads(a, prefix, z, sizes).reader.eof
  {
    var items, none :| Holds(a, prefix, y, items, none);
    var items', torn, rec, tail := IsShredded(a, prefix, y, z, items, p, k, m);
    NoEndAfterTear(a, prefix, z, sizes, items', torn, rec, tail, m);
  }

  lemma IsShredded(a: Aead, prefix: Prefix, y: Stream, z: Stream, items: seq<Item>, p: seq<byte>, k: nat, m: nat)
    returns (items': seq<Item>, torn: nat, rec: seq<byte>, tail: seq<byte>)
    requires a.Correct() && Holds(a, prefix, y, items, []) && !y.log.torn && !y.reader.eof && !y.log.marked
    requires Followed(a, prefix, y, z, p, k, Record(a, prefix, m, [])) && Cut(Chunks(p), k).1 && !y.sender.closed
    ensures Shredded(a, prefix, z, items', torn, rec, tail, m)
  {
    var chunks, n := Chunks(p), Cut(Chunks(p), k).0;
    ChunksContents(p);
    items', tail := SealOnWire(a, prefix, y, items, y.sender, chunks, k);
    torn, rec := y.sender.counter + n + 1, chunks[n];
    assert z.wire == Wire(a, prefix, items') + (tail + Record(a, prefix, m, [])) by {
      Associate(Wire(a, prefix, items'), tail, Record(a, prefix, m, []));
    }
  }

  /** The failing side is reached already by one byte that the carrier refuses. */
  lemma RefusedByteThenEnd(a: Aead, prefix: Prefix)
    requires a.Correct()
    ensures var y := Run(a, prefix, [DoWrite([7], REFUSING), DoEof(Taking(RecordSize(0))), DoRead(1)]);
            y.reader.eof && y.delivered == [] && y.log.written == [7] && !y.astray
  {
    LateMarker(a, prefix);
    RunRefused(a, prefix, DoEof(Taking(RecordSize(0))), DoRead(1));
    ReadNext(a, prefix, Step(a, prefix, Refused(prefix), DoEof(Taking(RecordSize(0)))), [], [7]);
  }

  lemma LateMarker(a: Aead, prefix: Prefix)
    requires a.Correct()
    ensures OneUnread(a, prefix, Step(a, prefix, Refused(prefix), DoEof(Taking(RecordSize(0)))), [], [7])
  {
    TakenWhole(a, prefix, Sender(1, true), [], 0, Taking(RecordSize(0)), Refused(prefix).log);
  }
}
