/**
  Laws of whole runs of the secure stream: any mix of writes, end-of-stream markers and reads,
  over any carrier replies below.
 */
module SecureStreamRuns {
  import opened Bytes
  import opened SecureStream

  datatype Op = DoWrite(p: seq<byte>, carrier: Carrier) | DoEof(carrier: Carrier) | DoRead(size: nat)

  /**
    What the sender has done. `written` is the plaintext of every write that reached the carrier and
    `nonces` every nonce ever used. `whole` is the plaintext of the records that got onto the wire whole,
    up to the first one that was `torn`, and `marked` says that a whole end marker follows them.
    `broken` says that the carrier failed once, `late` that something was sealed after that and
    `lateData` that this was more than the end marker.
   */
  datatype Log = Log(
    written: seq<byte>, nonces: seq<seq<byte>>, whole: seq<byte>, torn: bool, marked: bool,
    broken: bool, late: bool, lateData: bool)

  /**
    One direction of a connection. The reader is `astray` once it has taken bytes that begin with a torn
    record, and `misled` once it has opened anything from there on, be it bytes that nobody has sealed as one
    record or, where data was sealed late, a later record that it has come upon by chance.
   */
  datatype Stream = Stream(
    sender: Sender, wire: seq<byte>, reader: Reader, delivered: seq<byte>, log: Log, astray: bool, misled: bool)

  const FRESH := Stream(Sender(0, false), [], Reader([], false), [],
                        Log([], [], [], false, false, false, false, false), false, false)

  function NoncesFor(prefix: Prefix, counter: nat, k: nat): seq<seq<byte>> {
    seq(k, i requires 0 <= i => Nonce(prefix, counter + 1 + i))
  }

  /** How many whole records the first `k` bytes of these hold, and whether they end inside the next one. */
  function Cut(recs: seq<seq<byte>>, k: nat): (r: (nat, bool))
    ensures r.0 <= |recs|
    decreases |recs|
  {
    if recs == [] then (0, false)
    else if k < RecordSize(|recs[0]|) then (0, k > 0)
    else
      var rest := Cut(recs[1..], k - RecordSize(|recs[0]|));
      (rest.0 + 1, rest.1)
  }

  function Logged(prefix: Prefix, counter: nat, l: Log, step: SendStep, p: seq<byte>): Log {
    var (n, cut) := Cut(step.sealed, |step.wire|);
    var sealed, marker := step.sealed != [], step.sender.closed;
    l.(written := if sealed then l.written + p else l.written,
       nonces := l.nonces + NoncesFor(prefix, counter, |step.sealed|),
       whole := if l.torn then l.whole else l.whole + Flatten(step.sealed[..n]),
       torn := l.torn || cut,
       marked := l.marked || (!l.torn && n > 0 && marker),
       late := l.late || (l.broken && sealed),
       lateData := l.lateData || (l.broken && sealed && !marker),
       broken := l.broken || step.result.CarrierFailed?)
  }

  function Apply(prefix: Prefix, y: Stream, step: SendStep, p: seq<byte>): Stream {
    y.(sender := step.sender, wire := y.wire + step.wire, log := Logged(prefix, y.sender.counter, y.log, step, p))
  }

  function Step(a: Aead, prefix: Prefix, y: Stream, op: Op): Stream {
    match op
    case DoWrite(p, carrier) => Apply(prefix, y, WriteSpec(a, prefix, y.sender, p, carrier), p)
    case DoEof(carrier) => Apply(prefix, y, WriteEofSpec(a, prefix, y.sender, carrier), [])
    case DoRead(size) =>
      var step := ReadSpec(a, y.reader, y.wire, size);
      var astray := y.astray || (y.log.torn && y.delivered == y.log.whole && step.wire != y.wire);
      y.(reader := step.reader, wire := step.wire,
         delivered := if step.result.Data? then y.delivered + step.result.bytes else y.delivered,
         astray := astray,
         misled := y.misled || (astray && (step.result.Eof? || (step.result.Data? && step.result.bytes != []))))
  }

  function Run(a: Aead, prefix: Prefix, ops: seq<Op>): Stream {
    if ops == [] then FRESH else Step(a, prefix, Run(a, prefix, ops[..|ops| - 1]), ops[|ops| - 1])
  }

  // ----- What is on the wire -----

  /** A sealed record: the counter of its nonce and its plaintext. */
  datatype Item = Item(counter: nat, p: seq<byte>)

  function Wire(a: Aead, prefix: Prefix, items: seq<Item>): seq<byte>
    decreases |items|
  {
    if items == [] then [] else Record(a, prefix, items[0].counter, items[0].p) + Wire(a, prefix, items[1..])
  }

  function Plain(items: seq<Item>): seq<byte>
    decreases |items|
  {
    if items == [] then [] else items[0].p + Plain(items[1..])
  }

  /** The records sealed for `recs` when the counter starts at `counter`. */
  function Items(counter: nat, recs: seq<seq<byte>>): (items: seq<Item>)
    ensures |items| == |recs| && forall i :: 0 <= i < |recs| ==> items[i].p == recs[i]
    decreases |recs|
  {
    if recs == [] then [] else [Item(counter + 1, recs[0])] + Items(counter + 1, recs[1..])
  }

  lemma {:induction false} ItemsAreFrames(a: Aead, prefix: Prefix, counter: nat, recs: seq<seq<byte>>)
    ensures Wire(a, prefix, Items(counter, recs)) == Frames(a, prefix, counter, recs)
    ensures Plain(Items(counter, recs)) == Flatten(recs)
    decreases |recs|
  {
    if recs != [] {
      assert Items(counter, recs)[1..] == Items(counter + 1, recs[1..]);
      ItemsAreFrames(a, prefix, counter + 1, recs[1..]);
    }
  }

  lemma {:induction false} WireAppend(a: Aead, prefix: Prefix, s: seq<Item>, t: seq<Item>)
    ensures Wire(a, prefix, s + t) == Wire(a, prefix, s) + Wire(a, prefix, t)
    ensures Plain(s + t) == Plain(s) + Plain(t)
    decreases |s|
  {
    if s == [] {
      assert s + t == t;
    } else {
      WireAppend(a, prefix, s[1..], t);
      assert (s + t)[0] == s[0] && (s + t)[1..] == s[1..] + t;
      Associate(Record(a, prefix, s[0].counter, s[0].p), Wire(a, prefix, s[1..]), Wire(a, prefix, t));
      Associate(s[0].p, Plain(s[1..]), Plain(t));
    }
  }

  lemma RecordShape(a: Aead, prefix: Prefix, counter: nat, p: seq<byte>)
    requires a.Correct() && |p| <= MAX_PLAINTEXT
    ensures var r := Record(a, prefix, counter, p);
            && |r| == RecordSize(|p|)
            && FromBe32(r[..4]) == NONCE_SIZE + |p| + OVERHEAD
            && r[4..4 + NONCE_SIZE] == Nonce(prefix, counter)
            && r[4 + NONCE_SIZE..] == a.seal(Nonce(prefix, counter), p)
  {
    var r := Record(a, prefix, counter, p);
    assert r[..4] == Be32(NONCE_SIZE + |p| + OVERHEAD);
    Be32Small(NONCE_SIZE + |p| + OVERHEAD);
  }

  /** `tail` is a proper, non-empty prefix of the record of `p`. */
  ghost predicate Torn(a: Aead, prefix: Prefix, counter: nat, p: seq<byte>, tail: seq<byte>) {
    var r := Record(a, prefix, counter, p);
    0 < |tail| < |r| && tail == r[..|tail|]
  }

  /** `tail` is the torn record number `i` of `recs`. */
  ghost predicate TornAt(a: Aead, prefix: Prefix, counter: nat, recs: seq<seq<byte>>, i: nat, tail: seq<byte>) {
    i < |recs| && Torn(a, prefix, counter + i + 1, recs[i], tail)
  }

  /** The first `k` bytes of some records are the whole ones among them and then `tail`. */
  ghost predicate CutAt(a: Aead, prefix: Prefix, counter: nat, recs: seq<seq<byte>>, k: nat, tail: seq<byte>)
    requires k <= |Frames(a, prefix, counter, recs)|
  {
    var (n, cut) := Cut(recs, k);
    && Frames(a, prefix, counter, recs)[..k] == Frames(a, prefix, counter, recs[..n]) + tail
    && (if cut then TornAt(a, prefix, counter, recs, n, tail) else tail == [])
  }

  lemma {:induction false} CutFrames(a: Aead, prefix: Prefix, counter: nat, recs: seq<seq<byte>>, k: nat)
    returns (tail: seq<byte>)
    requires a.Correct() && k <= |Frames(a, prefix, counter, recs)|
    ensures CutAt(a, prefix, counter, recs, k, tail)
    decreases |recs|
  {
    if recs == [] {
      return [];
    }
    var r := Record(a, prefix, counter + 1, recs[0]);
    if k < |r| {
      tail := r[..k];
      CutInFirst(a, prefix, counter, recs, k);
    } else {
      tail := CutFrames(a, prefix, counter + 1, recs[1..], k - |r|);
      CutOneMore(a, prefix, counter, recs, k, tail);
    }
  }

  lemma CutInFirst(a: Aead, prefix: Prefix, counter: nat, recs: seq<seq<byte>>, k: nat)
    requires a.Correct() && recs != [] && k < |Record(a, prefix, counter + 1, recs[0])|
    ensures CutAt(a, prefix, counter, recs, k, Record(a, prefix, counter + 1, recs[0])[..k])
  {
    var r, rest := Record(a, prefix, counter + 1, recs[0]), Frames(a, prefix, counter + 1, recs[1..]);
    assert (r + rest)[..k] == r[..k];
    assert recs[..0] == [] && [] + r[..k] == r[..k];
    assert |r| == RecordSize(|recs[0]|);
  }

  lemma CutOneMore(a: Aead, prefix: Prefix, counter: nat, recs: seq<seq<byte>>, k: nat, tail: seq<byte>)
    requires a.Correct() && recs != []
    requires |Record(a, prefix, counter + 1, recs[0])| <= k <= |Frames(a, prefix, counter, recs)|
    requires CutAt(a, prefix, counter + 1, recs[1..], k - |Record(a, prefix, counter + 1, recs[0])|, tail)
    ensures CutAt(a, prefix, counter, recs, k, tail)
  {
    var r, rest := Record(a, prefix, counter + 1, recs[0]), Frames(a, prefix, counter + 1, recs[1..]);
    assert |r| == RecordSize(|recs[0]|);
    var (n, cut) := Cut(recs[1..], k - |r|);
    assert recs[..n + 1][1..] == recs[1..][..n];
    assert (r + rest)[..k] == r + rest[..k - |r|];
    Associate(r, Frames(a, prefix, counter + 1, recs[1..][..n]), tail);
    if cut { TornShift(a, prefix, counter, recs, n, tail); }
  }

  lemma TornShift(a: Aead, prefix: Prefix, counter: nat, recs: seq<seq<byte>>, i: nat, tail: seq<byte>)
    requires recs != [] && TornAt(a, prefix, counter + 1, recs[1..], i, tail)
    ensures TornAt(a, prefix, counter, recs, i + 1, tail)
  {
    assert recs[1..][i] == recs[i + 1];
  }

  /** All the bytes are all the records. */
  lemma {:induction false} CutAll(a: Aead, prefix: Prefix, counter: nat, recs: seq<seq<byte>>)
    requires a.Correct()
    ensures Cut(recs, |Frames(a, prefix, counter, recs)|) == (|recs|, false)
    decreases |recs|
  {
    if recs != [] { CutAll(a, prefix, counter + 1, recs[1..]); }
  }

  // ----- The invariant -----

  /** Unread records are non-empty data, except that the last may be the end marker. */
  ghost predicate GoodItems(items: seq<Item>, marked: bool) {
    && (forall i :: 0 <= i < |items| ==> |items[i].p| <= RECORD_PLAINTEXT)
    && (forall i :: 0 <= i < |items| && items[i].p == [] ==> i == |items| - 1 && marked)
  }

  /** `tail` begins with a torn record; what follows that was sealed later. */
  ghost predicate TornTail(a: Aead, prefix: Prefix, tail: seq<byte>, l: Log, closed: bool) {
    exists k: nat, c: nat, p: seq<byte> :: TornFirst(a, prefix, tail, l, closed, k, c, p)
  }

  ghost predicate TornFirst(a: Aead, prefix: Prefix, tail: seq<byte>, l: Log, closed: bool, k: nat, c: nat,
                            p: seq<byte>) {
    && k <= |tail| && |p| <= RECORD_PLAINTEXT && Torn(a, prefix, c, p, tail[..k])
    && (!l.late || (!l.lateData && !closed) ==> k == |tail|)
    && (!l.lateData ==> |tail| - k <= RecordSize(0))
  }

  /** What the sender's own log says, whatever was read. */
  ghost predicate LogSound(l: Log, closed: bool) {
    && (!l.lateData ==> l.whole <= l.written)
    && (!l.broken ==> l.whole == l.written && !l.torn && !l.late && !l.lateData)
    && (l.marked ==> closed && !l.torn)
    && (l.lateData ==> l.late)
  }

  /** The wire holds the records `items` and then `tail`, which is empty unless a record was torn. */
  ghost predicate Holds(a: Aead, prefix: Prefix, y: Stream, items: seq<Item>, tail: seq<byte>) {
    && y.wire == Wire(a, prefix, items) + tail
    && y.log.whole == y.delivered + (y.reader.decoded + Plain(items))
    && GoodItems(items, y.log.marked)
    && (y.reader.eof ==> y.log.marked && items == [] && y.reader.decoded == [])
    && (y.log.marked ==> y.reader.eof || (items != [] && items[|items| - 1].p == []))
    && (if y.log.torn then TornTail(a, prefix, tail, y.log, y.sender.closed) else tail == [])
  }

  /** Past a torn record and the marker there is too little left for any record. */
  ghost predicate Spent(y: Stream) {
    && !y.reader.eof && y.reader.decoded == [] && |y.wire| < RecordSize(0)
    && y.sender.closed && y.log.torn && y.delivered == y.log.whole
  }

  ghost predicate Invariant(a: Aead, prefix: Prefix, y: Stream) {
    && LogSound(y.log, y.sender.closed)
    && (!y.misled ==>
          if y.astray then !y.log.lateData ==> Spent(y)
          else exists items, tail :: Holds(a, prefix, y, items, tail))
  }

  // ----- Sending keeps the invariant -----

  /** A batch of records as the two operations seal it: one empty marker, or non-empty data. */
  ghost predicate Batch(recs: seq<seq<byte>>, marker: bool) {
    && recs != []
    && (forall i :: 0 <= i < |recs| ==> |recs[i]| <= RECORD_PLAINTEXT)
    && (if marker then recs == [[]] else forall i :: 0 <= i < |recs| ==> recs[i] != [])
  }

  lemma LogKeeps(a: Aead, prefix: Prefix, s: Sender, l: Log, t: Sender, more: seq<seq<byte>>, count: nat,
                 carrier: Carrier, p: seq<byte>)
    requires a.Correct() && LogSound(l, false) && Batch(more, t.closed) && Flatten(more) == p
    ensures LogSound(Logged(prefix, s.counter, l, SealAndSend(a, prefix, t, more, count, carrier), p), t.closed)
  {
    CutAll(a, prefix, t.counter, more);
    WholePart(more, t.closed, Cut(more, |SealAndSend(a, prefix, t, more, count, carrier).wire|).0);
  }

  lemma WholePart(more: seq<seq<byte>>, marker: bool, n: nat)
    requires Batch(more, marker) && n <= |more|
    ensures Flatten(more[..n]) <= Flatten(more)
    ensures n == |more| ==> Flatten(more[..n]) == Flatten(more)
    ensures marker ==> Flatten(more) == Flatten(more[..n]) == []
  {
    assert more[..n] + more[n..] == more;
    FlattenAppend(more[..n], more[n..]);
    assert n == |more| ==> more[..n] == more;
    if marker {
      assert more[1..] == [] && (more[..n] == [] || more[..n] == more);
    }
  }

  /** Sealing a batch on an open stream, whatever the carrier does. */
  lemma SealKeeps(a: Aead, prefix: Prefix, y: Stream, items: seq<Item>, tail: seq<byte>,
                  t: Sender, more: seq<seq<byte>>, count: nat, carrier: Carrier, p: seq<byte>)
    returns (items': seq<Item>, tail': seq<byte>)
    requires a.Correct() && Holds(a, prefix, y, items, tail) && LogSound(y.log, false)
    requires !y.sender.closed && t.counter == y.sender.counter && Batch(more, t.closed)
    ensures Holds(a, prefix, Apply(prefix, y, SealAndSend(a, prefix, t, more, count, carrier), p), items', tail')
  {
    var step := SealAndSend(a, prefix, t, more, count, carrier);
    if y.log.torn {
      items', tail' := items, tail + step.wire;
      TornGrows(a, prefix, y, tail, t, more, count, carrier, p);
      Associate(Wire(a, prefix, items), tail, step.wire);
    } else {
      items', tail' := SealOnWire(a, prefix, y, items, t, more, |step.wire|);
      var (n, cut) := Cut(more, |step.wire|);
      assert y.log.whole + Flatten(more[..n]) == y.delivered + (y.reader.decoded + Plain(items')) by {
        Associate(y.delivered, y.reader.decoded + Plain(items), Flatten(more[..n]));
        Associate(y.reader.decoded, Plain(items), Flatten(more[..n]));
      }
      if cut { TornStart(a, prefix, tail', Logged(prefix, y.sender.counter, y.log, step, p), t, more, n); }
    }
  }

  lemma TornStart(a: Aead, prefix: Prefix, tail: seq<byte>, l: Log, t: Sender, more: seq<seq<byte>>, n: nat)
    requires TornAt(a, prefix, t.counter, more, n, tail) && Batch(more, t.closed)
    ensures TornTail(a, prefix, tail, l, t.closed)
  {
    assert tail[..|tail|] == tail;
    assert TornFirst(a, prefix, tail, l, t.closed, |tail|, t.counter + n + 1, more[n]);
  }

  /** The whole records join the unread ones, and the beginning of the next one follows. */
  lemma SealOnWire(a: Aead, prefix: Prefix, y: Stream, items: seq<Item>, t: Sender, more: seq<seq<byte>>, k: nat)
    returns (items': seq<Item>, tail: seq<byte>)
    requires a.Correct() && y.wire == Wire(a, prefix, items) + [] && k <= |Frames(a, prefix, t.counter, more)|
    requires GoodItems(items, false) && Batch(more, t.closed)
    ensures var (n, cut) := Cut(more, k);
            && y.wire + Frames(a, prefix, t.counter, more)[..k] == Wire(a, prefix, items') + tail
            && Plain(items') == Plain(items) + Flatten(more[..n])
            && GoodItems(items', n > 0 && t.closed)
            && (n > 0 && t.closed ==> items' != [] && items'[|items'| - 1].p == [])
            && (if cut then TornAt(a, prefix, t.counter, more, n, tail) else tail == [])
  {
    tail := CutFrames(a, prefix, t.counter, more, k);
    var n := Cut(more, k).0;
    var out := Items(t.counter, more[..n]);
    items' := items + out;
    ItemsAreFrames(a, prefix, t.counter, more[..n]);
    WireAppend(a, prefix, items, out);
    assert y.wire == Wire(a, prefix, items);
    Associate(Wire(a, prefix, items), Wire(a, prefix, out), tail);
  }

  lemma TornGrows(a: Aead, prefix: Prefix, y: Stream, tail: seq<byte>,
                  t: Sender, more: seq<seq<byte>>, count: nat, carrier: Carrier, p: seq<byte>)
    requires a.Correct() && y.log.torn && LogSound(y.log, false) && TornTail(a, prefix, tail, y.log, false)
    requires Batch(more, t.closed)
    ensures var step := SealAndSend(a, prefix, t, more, count, carrier);
            TornTail(a, prefix, tail + step.wire, Logged(prefix, y.sender.counter, y.log, step, p), t.closed)
  {
    var step := SealAndSend(a, prefix, t, more, count, carrier);
    var l := Logged(prefix, y.sender.counter, y.log, step, p);
    var k: nat, c: nat, q: seq<byte> :| TornFirst(a, prefix, tail, y.log, false, k, c, q);
    assert (tail + step.wire)[..k] == tail[..k];
    if t.closed {
      FramesLength(a, prefix, t.counter, more);
      assert more[1..] == [] && |Flatten(more)| == 0;
    }
    assert TornFirst(a, prefix, tail + step.wire, l, t.closed, k, c, q);
  }

  /** A refused send changes nothing but, at most, the closed flag. */
  lemma Unsealed(a: Aead, prefix: Prefix, y: Stream, step: SendStep, p: seq<byte>)
    requires Invariant(a, prefix, y)
    requires step.sealed == [] && step.wire == [] && !step.result.CarrierFailed?
    requires step.sender == y.sender || step.sender == y.sender.(closed := true)
    ensures Invariant(a, prefix, Apply(prefix, y, step, p))
  {
    var z := Apply(prefix, y, step, p);
    assert y.wire + [] == y.wire && y.log.whole + Flatten([]) == y.log.whole && y.log.nonces + [] == y.log.nonces;
    assert z.log == y.log;
    if !y.misled && !y.astray {
      var items, tail :| Holds(a, prefix, y, items, tail);
      if y.log.torn {
        var k: nat, c: nat, q: seq<byte> :| TornFirst(a, prefix, tail, y.log, y.sender.closed, k, c, q);
        assert TornFirst(a, prefix, tail, y.log, z.sender.closed, k, c, q);
      }
      assert Holds(a, prefix, z, items, tail);
    }
  }

  lemma SendKeeps(a: Aead, prefix: Prefix, y: Stream, t: Sender, more: seq<seq<byte>>, count: nat, carrier: Carrier,
                  p: seq<byte>)
    requires a.Correct() && Invariant(a, prefix, y) && !y.sender.closed
    requires t.counter == y.sender.counter && Batch(more, t.closed) && Flatten(more) == p
    ensures Invariant(a, prefix, Apply(prefix, y, SealAndSend(a, prefix, t, more, count, carrier), p))
  {
    LogKeeps(a, prefix, y.sender, y.log, t, more, count, carrier, p);
    if !y.misled && !y.astray {
      var items, tail :| Holds(a, prefix, y, items, tail);
      var items', tail' := SealKeeps(a, prefix, y, items, tail, t, more, count, carrier, p);
    }
  }

  // ----- Reading keeps the invariant -----

  lemma NextAccount(delivered: seq<byte>, p: seq<byte>, rest: seq<byte>, n: nat)
    requires n <= |p|
    ensures delivered + (p + rest) == delivered + p[..n] + (p[n..] + rest)
  {
    assert p[..n] + p[n..] == p;
    Regroup(delivered, p[..n], p[n..], rest);
  }

  /** With nothing decoded, a read consumes exactly the first record on the wire. */
  lemma ReadRecord(a: Aead, prefix: Prefix, y: Stream, size: nat, items: seq<Item>, tail: seq<byte>)
    requires a.Correct() && items != [] && |items[0].p| <= RECORD_PLAINTEXT
    requires y.wire == Wire(a, prefix, items) + tail
    requires !y.reader.eof && y.reader.decoded == [] && 0 < size
    ensures var step, p := ReadSpec(a, y.reader, y.wire, size), items[0].p;
            && step.wire == Wire(a, prefix, items[1..]) + tail && step.wire != y.wire
            && (if p == [] then step.result == Eof && step.reader == Reader([], true)
                else if |p| <= size then step.result == Data(p) && step.reader == Reader([], false)
                else step.result == Data(p[..size]) && step.reader == Reader(p[size..], false))
  {
    var r, p := Record(a, prefix, items[0].counter, items[0].p), items[0].p;
    RecordShape(a, prefix, items[0].counter, p);
    var rest := Wire(a, prefix, items[1..]) + tail;
    assert y.wire == r + rest;
    assert y.wire[..4] == r[..4];
    var length := NONCE_SIZE + |p| + OVERHEAD;
    assert y.wire[4..4 + NONCE_SIZE] == r[4..4 + NONCE_SIZE];
    assert y.wire[4 + NONCE_SIZE..4 + length] == r[4 + NONCE_SIZE..];
    assert y.wire[4 + length..] == rest;
  }

  lemma RecordKeeps(a: Aead, prefix: Prefix, y: Stream, size: nat, items: seq<Item>, tail: seq<byte>)
    requires a.Correct() && Holds(a, prefix, y, items, tail) && LogSound(y.log, y.sender.closed)
    requires items != [] && !y.reader.eof && y.reader.decoded == [] && 0 < size && !y.astray
    ensures var z := Step(a, prefix, y, DoRead(size)); Holds(a, prefix, z, items[1..], tail) && !z.astray
  {
    ReadRecord(a, prefix, y, size, items, tail);
    var z, p := Step(a, prefix, y, DoRead(size)), items[0].p;
    var n := if size < |p| then size else |p|;
    assert z.delivered == y.delivered + p[..n] by { assert p == [] ==> y.delivered + p[..n] == y.delivered; }
    assert z.reader.decoded == p[n..];
    assert y.reader.decoded + Plain(items) == p + Plain(items[1..]);
    NextAccount(y.delivered, p, Plain(items[1..]), n);
    if y.log.torn { assert p != [] && |y.log.whole| > |y.delivered|; }
    assert forall i :: 0 <= i < |items[1..]| ==> items[1..][i] == items[i + 1];
  }

  lemma DecodedKeeps(a: Aead, prefix: Prefix, y: Stream, size: nat, items: seq<Item>, tail: seq<byte>)
    requires Holds(a, prefix, y, items, tail) && !y.astray
    requires !y.reader.eof && y.reader.decoded != [] && 0 < size
    ensures var z := Step(a, prefix, y, DoRead(size)); Holds(a, prefix, z, items, tail) && !z.astray
  {
    var n := if size < |y.reader.decoded| then size else |y.reader.decoded|;
    NextAccount(y.delivered, y.reader.decoded, Plain(items), n);
  }

  /** A reader at a torn record waits, or what it leaves behind is less than a record, unless more data was sealed. */
  lemma TornRead(a: Aead, prefix: Prefix, y: Stream, size: nat, k: nat, c: nat, p: seq<byte>)
    requires a.Correct() && !y.reader.eof && y.reader.decoded == [] && 0 < size
    requires TornFirst(a, prefix, y.wire, y.log, y.sender.closed, k, c, p)
    ensures var step := ReadSpec(a, y.reader, y.wire, size);
            && (k == |y.wire| ==> step.result == Starved)
            && (step.wire == y.wire ==> step.result == Starved && step.reader == y.reader)
            && (step.wire != y.wire && !y.log.lateData ==> |step.wire| < RecordSize(0))
  {
    RecordShape(a, prefix, c, p);
    if k >= 4 {
      assert y.wire[..4] == y.wire[..k][..4] == Record(a, prefix, c, p)[..4];
    }
  }

  /** A read keeps every reader straight that stays away from torn records. */
  lemma ReadKeeps(a: Aead, prefix: Prefix, y: Stream, size: nat, items: seq<Item>, tail: seq<byte>)
    returns (items': seq<Item>)
    requires a.Correct() && Holds(a, prefix, y, items, tail) && LogSound(y.log, y.sender.closed)
    requires !y.astray && !y.misled
    ensures var z := Step(a, prefix, y, DoRead(size));
            && (z.astray ==> y.log.torn && (!z.misled && !z.log.lateData ==> Spent(z)))
            && (!z.astray ==> Holds(a, prefix, z, items', tail) && !z.misled)
    ensures ReadOutcome(y, size, ReadSpec(a, y.reader, y.wire, size).result)
  {
    items' := items;
    if y.reader.eof || size == 0 {
      assert y.delivered + [] == y.delivered;
      assert Step(a, prefix, y, DoRead(size)) == y;
    } else if y.reader.decoded != [] {
      DecodedKeeps(a, prefix, y, size, items, tail);
    } else if items != [] {
      items' := items[1..];
      RecordKeeps(a, prefix, y, size, items, tail);
      OutcomeAtRecord(a, prefix, y, size, items, tail);
    } else {
      EndKeeps(a, prefix, y, size, tail);
    }
  }

  /** At the end of the whole records a reader waits, or goes astray where one was torn. */
  lemma EndKeeps(a: Aead, prefix: Prefix, y: Stream, size: nat, tail: seq<byte>)
    requires a.Correct() && Holds(a, prefix, y, [], tail) && LogSound(y.log, y.sender.closed) && !y.astray && !y.misled
    requires !y.reader.eof && y.reader.decoded == [] && 0 < size
    ensures var z := Step(a, prefix, y, DoRead(size));
            && (z.astray ==> y.log.torn && (!z.misled && !z.log.lateData ==> Spent(z)))
            && (!z.astray ==> z == y)
    ensures ReadOutcome(y, size, ReadSpec(a, y.reader, y.wire, size).result)
  {
    assert y.wire == tail && y.delivered == y.log.whole by { assert y.delivered + ([] + []) == y.delivered; }
    if y.log.torn {
      var k: nat, c: nat, p: seq<byte> :| TornFirst(a, prefix, tail, y.log, y.sender.closed, k, c, p);
      TornRead(a, prefix, y, size, k, c, p);
    }
  }

  /**
    The result of a read in terms of what was sent whole: data while some of it is undelivered, then the
    end if it was marked and else a wait, except that bytes sealed after a torn record may follow.
   */
  ghost predicate ReadOutcome(y: Stream, size: nat, result: ReadResult) {
    if y.reader.eof then result == Eof
    else if size == 0 then result == Data([])
    else if y.delivered != y.log.whole then result.Data? && 0 < |result.bytes| <= size
    else if y.log.marked then result == Eof
    else if y.log.torn && y.log.late then true
    else result == Starved
  }

  lemma OutcomeAtRecord(a: Aead, prefix: Prefix, y: Stream, size: nat, items: seq<Item>, tail: seq<byte>)
    requires a.Correct() && Holds(a, prefix, y, items, tail)
    requires items != [] && !y.reader.eof && y.reader.decoded == [] && 0 < size
    ensures ReadOutcome(y, size, ReadSpec(a, y.reader, y.wire, size).result)
  {
    ReadRecord(a, prefix, y, size, items, tail);
    assert |y.log.whole| == |y.delivered| + |Plain(items)|;
    if items[0].p == [] {
      assert items[1..] == [] && y.log.whole == y.delivered;
    }
  }

  lemma StepKeeps(a: Aead, prefix: Prefix, y: Stream, op: Op)
    requires a.Correct() && Invariant(a, prefix, y)
    ensures Invariant(a, prefix, Step(a, prefix, y, op))
  {
    match op
    case DoRead(size) => ReadStepKeeps(a, prefix, y, size);
    case DoWrite(p, carrier) => WriteKeeps(a, prefix, y, p, carrier);
    case DoEof(carrier) => EofKeeps(a, prefix, y, carrier);
  }

  lemma ReadStepKeeps(a: Aead, prefix: Prefix, y: Stream, size: nat)
    requires a.Correct() && Invariant(a, prefix, y)
    ensures Invariant(a, prefix, Step(a, prefix, y, DoRead(size)))
  {
    if !y.misled && !y.astray {
      var items, tail :| Holds(a, prefix, y, items, tail);
      var items' := ReadKeeps(a, prefix, y, size, items, tail);
    }
  }

  lemma WriteKeeps(a: Aead, prefix: Prefix, y: Stream, p: seq<byte>, carrier: Carrier)
    requires a.Correct() && Invariant(a, prefix, y)
    ensures Invariant(a, prefix, Step(a, prefix, y, DoWrite(p, carrier)))
  {
    var step := WriteSpec(a, prefix, y.sender, p, carrier);
    if step.sealed != [] {
      ChunksContents(p);
      SendKeeps(a, prefix, y, y.sender, Chunks(p), |p|, carrier, p);
    } else {
      Unsealed(a, prefix, y, step, p);
    }
  }

  lemma EofKeeps(a: Aead, prefix: Prefix, y: Stream, carrier: Carrier)
    requires a.Correct() && Invariant(a, prefix, y)
    ensures Invariant(a, prefix, Step(a, prefix, y, DoEof(carrier)))
  {
    var step := WriteEofSpec(a, prefix, y.sender, carrier);
    if step.sealed != [] {
      var marker: seq<seq<byte>> := [[]];
      assert marker[1..] == [] && Flatten(marker) == [];
      SendKeeps(a, prefix, y, y.sender.(closed := true), marker, 0, carrier, []);
    } else {
      Unsealed(a, prefix, y, step, []);
    }
  }

  lemma {:induction false} RunKeeps(a: Aead, prefix: Prefix, ops: seq<Op>)
    requires a.Correct()
    ensures Invariant(a, prefix, Run(a, prefix, ops))
  {
    if ops == [] {
      assert Holds(a, prefix, FRESH, [], []);
    } else {
      RunKeeps(a, prefix, ops[..|ops| - 1]);
      StepKeeps(a, prefix, Run(a, prefix, ops[..|ops| - 1]), ops[|ops| - 1]);
    }
  }

  // ----- The laws -----

  /**
    Over every run, as long as the reader has opened no bytes around a torn record, and has kept away from
    them where data was sealed after a carrier failure: what was delivered is a prefix of what got onto the
    wire whole, and the end is only ever reported after all of that. If nothing but the end marker was sealed
    after a failure, as the copy loops do, that is a prefix of what was written, and without a failure all of it.
   */
  lemma DeliveredIsPrefix(a: Aead, prefix: Prefix, ops: seq<Op>)
    requires a.Correct()
    ensures var y := Run(a, prefix, ops);
            && (!y.misled && (y.astray ==> !y.log.lateData) ==>
                  y.delivered <= y.log.whole && (y.reader.eof ==> y.delivered == y.log.whole && y.sender.closed))
            && (!y.log.lateData ==> y.log.whole <= y.log.written)
            && (!y.log.broken ==> y.log.whole == y.log.written && !y.astray && !y.misled)
  {
    RunKeeps(a, prefix, ops);
    HealthyReader(a, prefix, ops);
    var y := Run(a, prefix, ops);
    if !y.misled && !y.astray {
      var items, tail :| Holds(a, prefix, y, items, tail);
      assert y.reader.eof ==> y.delivered + ([] + []) == y.delivered;
    }
  }

  lemma {:induction false} HealthyReader(a: Aead, prefix: Prefix, ops: seq<Op>)
    requires a.Correct()
    ensures var y := Run(a, prefix, ops); !y.log.torn ==> !y.astray && !y.misled
  {
    if ops != [] {
      HealthyReader(a, prefix, ops[..|ops| - 1]);
    }
  }

  /**
    After any run that has not gone astray, a read into a non-empty destination returns data exactly while
    some of what got out whole is undelivered. Then it reports the end exactly if a whole marker follows,
    also one sent after a failure, and else waits, unless bytes were sealed after a torn record.
   */
  lemma ReadsAreExact(a: Aead, prefix: Prefix, ops: seq<Op>, size: nat)
    requires a.Correct() && !Run(a, prefix, ops).astray && 0 < size
    ensures var y := Run(a, prefix, ops);
            var result := ReadSpec(a, y.reader, y.wire, size).result;
            if y.delivered != y.log.whole then result.Data? && 0 < |result.bytes| <= size
            else if y.log.marked then result == Eof
            else (y.log.torn && y.log.late) || result == Starved
  {
    RunKeeps(a, prefix, ops);
    NotMisled(a, prefix, ops);
    var y := Run(a, prefix, ops);
    var items, tail :| Holds(a, prefix, y, items, tail);
    var items' := ReadKeeps(a, prefix, y, size, items, tail);
    assert y.reader.eof ==> y.delivered + ([] + []) == y.delivered;
  }

  /**
    When the carrier ends by itself after everything that got out whole was read, without a marker, the reader is
    told an end exactly if no record was torn, or one right after its length. So only an end that the
    reader remembers comes from the sender.
   */
  lemma CarrierEndIsToldIffClean(a: Aead, prefix: Prefix, ops: seq<Op>, size: nat)
    requires a.Correct() && !Run(a, prefix, ops).astray && 0 < size
    requires var y := Run(a, prefix, ops); y.delivered == y.log.whole && !y.log.marked && !(y.log.torn && y.log.late)
    ensures var y := Run(a, prefix, ops);
            var step := ReadAtEnd(a, y.reader, y.wire, size, HungUp);
            && step.reader == y.reader && !y.reader.eof
            && (step.result == CarrierEof || step.result == CarrierError)
            && (step.result == CarrierEof <==> !y.log.torn || |y.wire| == 4)
  {
    RunKeeps(a, prefix, ops);
    NotMisled(a, prefix, ops);
    ReadsAreExact(a, prefix, ops, size);
    var y := Run(a, prefix, ops);
    var items: seq<Item>, tail: seq<byte> :| Holds(a, prefix, y, items, tail);
    assert |y.delivered| == |y.log.whole| == |y.delivered| + |y.reader.decoded| + |Plain(items)|;
    assert y.log.torn ==> TornTail(a, prefix, tail, y.log, y.sender.closed);
  }

  lemma {:induction false} NotMisled(a: Aead, prefix: Prefix, ops: seq<Op>)
    ensures Run(a, prefix, ops).misled ==> Run(a, prefix, ops).astray
  {
    if ops != [] { NotMisled(a, prefix, ops[..|ops| - 1]); }
  }

  // ----- What a write answers -----

  /** The sum of the counts that the carrier reports in `m` calls from call `c` on. */
  function Sum(carrier: Carrier, c: nat, m: nat): int
    decreases m
  {
    if m == 0 then 0 else carrier(c).count + Sum(carrier, c + 1, m - 1)
  }

  /** These calls report no failure, some bytes each, and `length` bytes together. */
  ghost predicate TakesIn(carrier: Carrier, c: nat, m: nat, length: nat) {
    && Sum(carrier, c, m) == length
    && forall i :: c <= i < c + m ==> !carrier(i).failed && carrier(i).count > 0
  }

  lemma {:induction false} SumGrows(carrier: Carrier, c: nat, m: nat)
    requires forall i :: c <= i < c + m ==> carrier(i).count > 0
    ensures Sum(carrier, c, m) >= 0
    decreases m
  {
    if m > 0 { SumGrows(carrier, c + 1, m - 1); }
  }

  /** A batch is taken exactly if some first calls take it among themselves. */
  lemma {:induction false} TakenIff(carrier: Carrier, c: nat, length: nat)
    ensures Taken(carrier, c, length).1 <==> exists m: nat :: TakesIn(carrier, c, m, length)
    decreases length
  {
    var reply := carrier(c);
    if length == 0 {
      assert TakesIn(carrier, c, 0, length);
    } else if reply.failed || reply.count <= 0 || reply.count > length {
      forall m: nat ensures !TakesIn(carrier, c, m, length) {
        if TakesIn(carrier, c, m, length) { SumGrows(carrier, c + 1, m - 1); }
      }
    } else {
      var d, left := c + 1, length - reply.count;
      TakenIff(carrier, d, left);
      if m: nat :| TakesIn(carrier, d, m, left) { assert TakesIn(carrier, c, m + 1, length); }
      if m: nat :| TakesIn(carrier, c, m, length) { assert TakesIn(carrier, d, m - 1, left); }
    }
  }

  /** The bytes that a write of `n` bytes puts on the wire if all of them get there. */
  function BatchSize(n: nat): nat {
    n + (n + 262143) / 262144 * 32
  }

  /**
    What a write answers: first of all that the stream is closed, nothing for nothing, then that the plaintext
    is above one mebibyte or that the counter would pass 32 bits. Otherwise it is the number of plaintext
    bytes, exactly if the carrier takes the whole batch without an error, and then all of it is on the wire.
   */
  lemma WriteAnswers(a: Aead, prefix: Prefix, s: Sender, p: seq<byte>, carrier: Carrier)
    requires a.Correct() && s.counter <= 0xFFFF_FFFF
    ensures var step := WriteSpec(a, prefix, s, p, carrier);
            if s.closed then step.result == Closed
            else if |p| == 0 then step.result == Sent(0)
            else if |p| > 1048576 then step.result == TooLarge
            else if s.counter + (|p| + 262143) / 262144 > 0xFFFF_FFFF then step.result == Exhausted
            else && (step.result == Sent(|p|) <==> exists m: nat :: TakesIn(carrier, 0, m, BatchSize(|p|)))
                 && (step.result == Sent(|p|) ==> |step.wire| == BatchSize(|p|))
                 && (step.result == Sent(|p|) || step.result == CarrierFailed)
  {
    if !s.closed && 0 < |p| <= 1048576 {
      ChunkCount(p);
      BatchSizeExact(a, prefix, s.counter, p);
      TakenIff(carrier, 0, BatchSize(|p|));
    }
  }

  /** The end marker answers nothing twice, fails on a used-up counter, and else is one record of 32 bytes. */
  lemma EofAnswers(a: Aead, prefix: Prefix, s: Sender, carrier: Carrier)
    requires a.Correct() && s.counter <= 0xFFFF_FFFF
    ensures var step := WriteEofSpec(a, prefix, s, carrier);
            && step.sender.closed
            && (if s.closed then step.result == Sent(0) && step.wire == [] && step.sender == s
                else if s.counter == 0xFFFF_FFFF then step.result == Exhausted && step.wire == []
                else && (step.result == Sent(0) <==> exists m: nat :: TakesIn(carrier, 0, m, 32))
                     && (step.result == Sent(0) ==> step.wire == Record(a, prefix, s.counter + 1, []))
                     && (step.result == Sent(0) || step.result == CarrierFailed))
  {
    var marker: seq<seq<byte>> := [[]];
    assert marker[1..] == [];
    var r := Record(a, prefix, s.counter + 1, []);
    assert Frames(a, prefix, s.counter, marker) == r + [] && |r| == 32 && r + [] == r;
    TakenIff(carrier, 0, 32);
  }

  /** The counts that the writes of a run have answered. */
  function Answered(a: Aead, prefix: Prefix, ops: seq<Op>): nat {
    if ops == [] then 0
    else
      var init, last := ops[..|ops| - 1], ops[|ops| - 1];
      var sender := Run(a, prefix, init).sender;
      Answered(a, prefix, init)
      + if last.DoWrite? then CountOf(WriteSpec(a, prefix, sender, last.p, last.carrier).result) else 0
  }

  function CountOf(r: SendResult): nat {
    if r.Sent? then r.count else 0
  }

  /** Over every run the answers add up to what was written, except for the writes that failed. */
  lemma {:induction false} AnswersAddUp(a: Aead, prefix: Prefix, ops: seq<Op>)
    requires a.Correct()
    ensures Answered(a, prefix, ops) <= |Run(a, prefix, ops).log.written|
    ensures !Run(a, prefix, ops).log.broken ==> Answered(a, prefix, ops) == |Run(a, prefix, ops).log.written|
    decreases |ops|
  {
    if ops != [] {
      AnswersAddUp(a, prefix, ops[..|ops| - 1]);
      var y, last := Run(a, prefix, ops[..|ops| - 1]), ops[|ops| - 1];
      if last.DoWrite? { OneAnswer(a, prefix, y, last.p, last.carrier); }
    }
  }

  lemma OneAnswer(a: Aead, prefix: Prefix, y: Stream, p: seq<byte>, carrier: Carrier)
    ensures var step := WriteSpec(a, prefix, y.sender, p, carrier);
            var grown := |Step(a, prefix, y, DoWrite(p, carrier)).log.written| - |y.log.written|;
            && CountOf(step.result) <= grown
            && (step.result != CarrierFailed ==> CountOf(step.result) == grown)
  {
  }

  /** The reported end of the stream is sticky, whatever happens afterwards. */
  lemma {:induction false} EofIsSticky(a: Aead, prefix: Prefix, ops: seq<Op>, more: seq<Op>)
    requires Run(a, prefix, ops).reader.eof
    ensures var y := Run(a, prefix, ops + more);
            y.reader == Run(a, prefix, ops).reader && y.delivered == Run(a, prefix, ops).delivered
    decreases |more|
  {
    if more == [] {
      assert ops + more == ops;
    } else {
      var init := more[..|more| - 1];
      EofIsSticky(a, prefix, ops, init);
      assert (ops + more)[..|ops + more| - 1] == ops + init && (ops + more)[|ops + more| - 1] == more[|more| - 1];
    }
  }

  /** No nonce is ever used twice, over every run and every carrier behaviour. */
  lemma NoncesNeverRepeat(a: Aead, prefix: Prefix, ops: seq<Op>, i: nat, j: nat)
    requires i < j < |Run(a, prefix, ops).log.nonces|
    ensures Run(a, prefix, ops).log.nonces[i] != Run(a, prefix, ops).log.nonces[j]
    ensures Run(a, prefix, ops).sender.counter <= COUNTER_MAX
  {
    NoncesAreCounters(a, prefix, ops);
    NoncesDistinct(prefix, i + 1, j + 1);
  }

  lemma {:induction false} NoncesAreCounters(a: Aead, prefix: Prefix, ops: seq<Op>)
    ensures var y := Run(a, prefix, ops);
            y.log.nonces == NoncesFor(prefix, 0, y.sender.counter) && y.sender.counter <= COUNTER_MAX
  {
    if ops != [] {
      NoncesAreCounters(a, prefix, ops[..|ops| - 1]);
      var y := Run(a, prefix, ops[..|ops| - 1]);
      match ops[|ops| - 1]
      case DoWrite(p, carrier) =>
        SealedCounts(a, prefix, y.sender, p, carrier);
        NoncesExtend(prefix, y.sender.counter, |WriteSpec(a, prefix, y.sender, p, carrier).sealed|);
      case DoEof(carrier) =>
        SealedCounts(a, prefix, y.sender, [], carrier);
        NoncesExtend(prefix, y.sender.counter, |WriteEofSpec(a, prefix, y.sender, carrier).sealed|);
      case DoRead(_) =>
    }
  }

  /** Each step advances the counter by exactly the records it seals and never past the limit. */
  lemma SealedCounts(a: Aead, prefix: Prefix, s: Sender, p: seq<byte>, carrier: Carrier)
    requires s.counter <= COUNTER_MAX
    ensures var step := WriteSpec(a, prefix, s, p, carrier);
            step.sender.counter == s.counter + |step.sealed| <= COUNTER_MAX
    ensures var step := WriteEofSpec(a, prefix, s, carrier);
            step.sender.counter == s.counter + |step.sealed| <= COUNTER_MAX
  {
  }

  lemma NoncesExtend(prefix: Prefix, counter: nat, k: nat)
    ensures NoncesFor(prefix, 0, counter) + NoncesFor(prefix, counter, k) == NoncesFor(prefix, 0, counter + k)
  {
  }

  /**
    With nothing left over from before, a read refuses exactly the lengths that no record has, then exactly the
    bodies that do not open, and in both cases delivers nothing; it waits exactly while the record is not there.
   */
  lemma RefusedIff(a: Aead, wire: seq<byte>, size: nat)
    requires size > 0
    ensures var step := ReadSpec(a, Reader([], false), wire, size);
            var n := if |wire| < 4 then 0 else FromBe32(wire[..4]);
            var possible := |wire| >= 4 && 28 <= n <= 28 + 1048576;
            && (step.result == BadLength <==> |wire| >= 4 && !possible)
            && (step.result == Starved <==> |wire| < 4 || (possible && |wire| < 4 + n))
            && (step.result == AuthFailed
                <==> possible && |wire| >= 4 + n && a.open(wire[4..16], wire[16..4 + n]) == None)
            && (!step.result.Data? && !step.result.Eof? ==> step.reader == Reader([], false))
  {
    var n := if |wire| < 4 then 0 else FromBe32(wire[..4]);
    if |wire| >= 4 + n && 28 <= n {
      var nonce, body := wire[4..16], wire[16..4 + n];
      assert wire[4..4 + NONCE_SIZE] == nonce && wire[4 + NONCE_SIZE..4 + n] == body;
    }
  }
}
