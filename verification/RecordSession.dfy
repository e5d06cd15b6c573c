/**
  The record mode of the connect tool: length-prefixed records on standard input go to the session one
  by one, and received records go to standard output, each direction waiting for the one before.
 */
module RecordSession {
  import opened Bytes

  // ----- The framing -----

  function Encode(data: seq<byte>): seq<byte> {
    Be32(|data|) + data
  }

  function EncodeAll(records: seq<seq<byte>>): seq<byte> {
    if records == [] then [] else EncodeAll(records[..|records| - 1]) + Encode(records[|records| - 1])
  }

  /** The complete records at the start of some input, and the incomplete rest. */
  datatype Parsed = Parsed(records: seq<seq<byte>>, rest: seq<byte>)

  function Parse(input: seq<byte>): Parsed
    decreases |input|
  {
    if |input| < 4 || |input| < 4 + FromBe32(input[..4]) then Parsed([], input)
    else
      var n := FromBe32(input[..4]);
      var p := Parse(input[4 + n..]);
      Parsed([input[4..4 + n]] + p.records, p.rest)
  }

  /** The input ends inside a record. */
  predicate Partial(input: seq<byte>) {
    |input| < 4 || |input| < 4 + FromBe32(input[..4])
  }

  lemma {:induction false} ParseEncoded(records: seq<seq<byte>>, rest: seq<byte>)
    requires Partial(rest) && forall i :: 0 <= i < |records| ==> |records[i]| < TWO_32
    ensures Parse(EncodeAll(records) + rest) == Parsed(records, rest)
    decreases |records|
  {
    if records == [] {
      assert EncodeAll(records) + rest == rest;
    } else {
      EncodeFirst(records);
      var first, others := records[0], records[1..];
      ParseEncoded(others, rest);
      Associate(Encode(first), EncodeAll(others), rest);
      ParseFirst(first, EncodeAll(others) + rest);
      assert [first] + others == records;
    }
  }

  lemma {:induction false} EncodeFirst(records: seq<seq<byte>>)
    requires records != []
    ensures EncodeAll(records) == Encode(records[0]) + EncodeAll(records[1..])
    decreases |records|
  {
    var init, last := records[..|records| - 1], records[|records| - 1];
    if init == [] {
      assert records[1..] == [] && EncodeAll(init) == [];
    } else {
      EncodeFirst(init);
      assert init[1..] == records[1..][..|records| - 2];
      Associate(Encode(records[0]), EncodeAll(init[1..]), Encode(last));
    }
  }

  lemma ParseFirst(first: seq<byte>, rest: seq<byte>)
    requires |first| < TWO_32
    ensures Parse(Encode(first) + rest) == Parsed([first] + Parse(rest).records, Parse(rest).rest)
  {
    Be32Small(|first|);
    ParseAfter(Be32(|first|), first, rest);
  }

  lemma ParseAfter(prefix: seq<byte>, first: seq<byte>, rest: seq<byte>)
    requires |prefix| == 4 && FromBe32(prefix) == |first|
    ensures Parse(prefix + first + rest) == Parsed([first] + Parse(rest).records, Parse(rest).rest)
  {
    var input := prefix + first + rest;
    assert input[..4] == prefix && input[4..4 + |first|] == first && input[4 + |first|..] == rest;
  }

  // ----- The loop -----

  datatype SendResult = Sent | WouldBlock | Raised
  datatype Input = NoInput | Bytes(data: seq<byte>)
  datatype Socket = NoRecord | Record(data: seq<byte>) | PeerEof
  datatype Output = NoRoom | Took(count: nat)

  /** What the system reports in one turn; input with no bytes is the end of the input. */
  datatype Tick = Tick(send: SendResult, input: Input, socket: Socket, output: Output, inputFirst: bool)

  datatype End = PeerClosed | Truncated | Oversized | SessionError | KeyError

  /**
    The input half of the loop: its buffer, the record waiting to be sent, whether the input has ended and
    whether it is watched; then the bytes read, the records sent and the sizes asked of `read`.
   */
  datatype Inward = Inward(incoming: seq<byte>, pending: Option<seq<byte>>, eof: bool, watched: bool,
                           consumed: seq<byte>, sent: seq<seq<byte>>, asked: seq<int>)

  /** The output half: what is left of the current record and what is watched; then what was received and written. */
  datatype Outward = Outward(outgoing: Option<seq<byte>>, onSocket: bool, onOutput: bool,
                             received: seq<seq<byte>>, written: seq<byte>)

  /** The two halves, whether the session is closed for writing, how often it sent an end mark, and how it ended. */
  datatype State = State(i: Inward, o: Outward, writeClosed: bool, marks: nat, end: Option<End>)

  const START := State(Inward([], None, false, true, [], [], []), Outward(None, true, false, [], []), false, 0, None)

  /** `maxRecord` bounds records; only sequenced sockets can mark the end of the stream. */
  datatype Session = Session(maxRecord: nat, sequenced: bool)

  function Listed(r: Option<seq<byte>>): seq<seq<byte>> {
    if r.Some? then [r.value] else []
  }

  function Unwritten(r: Option<seq<byte>>): seq<byte> {
    if r.Some? then r.value else []
  }

  /** The input read is the records sent, then the one pending, then an incomplete one. */
  ghost predicate Framed(max: nat, i: Inward) {
    && i.consumed == EncodeAll(i.sent + Listed(i.pending)) + i.incoming
    && Short(max, i.sent + Listed(i.pending))
    && Partial(i.incoming)
    && (i.pending.Some? || i.eof ==> i.incoming == [])
    && (forall k :: 0 <= k < |i.asked| ==> 0 < i.asked[k])
  }

  ghost predicate Short(max: nat, records: seq<seq<byte>>) {
    forall k :: 0 <= k < |records| ==> |records[k]| <= max
  }

  /** While the loop goes on, input is watched exactly while nothing is pending and more may come. */
  ghost predicate Watching(max: nat, i: Inward) {
    && (i.watched <==> i.pending == None && !i.eof)
    && (|i.incoming| >= 4 ==> FromBe32(i.incoming[..4]) <= max)
  }

  /** The output is the encoding of the records received, up to what is still to be written. */
  ghost predicate Ordered(o: Outward) {
    && o.written + Unwritten(o.outgoing) == EncodeAll(o.received)
    && (o.outgoing.Some? ==> o.outgoing.value != [])
  }

  ghost predicate Alternating(o: Outward) {
    (o.onOutput <==> o.outgoing.Some?) && (o.onSocket <==> o.outgoing == None)
  }

  ghost predicate Valid(x: Session, s: State) {
    && x.maxRecord <= 65536
    && Framed(x.maxRecord, s.i) && Ordered(s.o)
    && (s.end == None ==> Watching(x.maxRecord, s.i) && Alternating(s.o))
    && s.end != Some(KeyError)
    && Marking(x, s.i, s.writeClosed, s.marks)
  }

  /**
    An end mark is sent at most once, and only on a sequenced session: after everything else, or as an
    empty record, which is then the last one sent.
   */
  ghost predicate Marking(x: Session, i: Inward, closed: bool, marks: nat) {
    && marks <= 1 && (closed <==> marks > 0)
    && (i.pending.Some? ==> !i.eof)
    && (marks > 0 ==> x.sequenced && ((i.eof && i.pending == None) || (i.sent != [] && i.sent[|i.sent| - 1] == [])))
    && (x.sequenced ==> if marks == 0 then [] !in i.sent else i.sent == [] || [] !in i.sent[..|i.sent| - 1])
  }

  /** Tries to send the pending record; on success input is watched again. */
  function Flush(x: Session, s: State, t: Tick): State
    requires s.end == None
  {
    if s.i.pending == None then s
    else if s.writeClosed || t.send == Raised then s.(end := Some(SessionError))
    else if t.send == WouldBlock then s
    else
      var mark := x.sequenced && s.i.pending.value == [];
      var i := s.i.(sent := s.i.sent + [s.i.pending.value], pending := None);
      var r := s.(i := i, writeClosed := mark, marks := s.marks + if mark then 1 else 0);
      if i.eof then r
      else if i.watched then r.(end := Some(KeyError))
      else r.(i := i.(watched := true))
  }

  function Finish(x: Session, s: State): State
    requires s.end == None
  {
    if !s.i.eof || s.i.pending.Some? || s.writeClosed then s
    else if !x.sequenced then s.(end := Some(SessionError))
    else s.(marks := s.marks + 1, writeClosed := true)
  }

  /** How much of the current record, or of its length, is still missing. */
  function Missing(incoming: seq<byte>): int {
    (if |incoming| < 4 then 4 else 4 + FromBe32(incoming[..4])) - |incoming|
  }

  /** Reads what is available, at most what is missing; no bytes mean the end of the input. */
  function ReadInput(max: nat, i: Inward, data: seq<byte>): (Inward, Option<End>) {
    var size := Missing(i.incoming);
    var j := i.(asked := i.asked + [size]);
    if data == [] then
      if i.incoming != [] then (j, Some(Truncated)) else (j.(watched := false, eof := true), None)
    else Take(max, j, if size < 0 || |data| <= size then data else data[..size])
  }

  function Take(max: nat, i: Inward, got: seq<byte>): (Inward, Option<End>) {
    var r := i.incoming + got;
    var j := i.(incoming := r, consumed := i.consumed + got);
    if |r| < 4 then (j, None)
    else
      var n := FromBe32(r[..4]);
      if n > max then (j, Some(Oversized))
      else if |r| == n + 4 then (j.(pending := Some(r[4..]), incoming := [], watched := false), None)
      else (j, None)
  }

  function ReadSocket(max: nat, o: Outward, r: Socket): (Outward, Option<End>) {
    match r
    case NoRecord => (o, None)
    case PeerEof => (o, Some(PeerClosed))
    case Record(data) =>
      if |data| > max then (o, Some(SessionError))
      else if o.onOutput then (o, Some(KeyError))
      else
        (o.(outgoing := Some(Encode(data)), received := o.received + [data], onSocket := false, onOutput := true), None)
  }

  function WriteOutput(o: Outward, count: nat): (Outward, Option<End>)
    requires o.outgoing.Some?
  {
    var n := if count <= |o.outgoing.value| then count else |o.outgoing.value|;
    var p := o.(written := o.written + o.outgoing.value[..n], outgoing := Some(o.outgoing.value[n..]));
    if p.outgoing.value != [] then (p, None)
    else if p.onSocket then (p, Some(KeyError))
    else (p.(outgoing := None, onOutput := false, onSocket := true), None)
  }

  function OnInput(x: Session, s: State, t: Tick): State {
    if s.end == None && s.i.watched && t.input.Bytes? then
      var (i, end) := ReadInput(x.maxRecord, s.i, t.input.data);
      s.(i := i, end := end)
    else s
  }

  /** `socketTurn` tells which of the two was watched when the events were collected. */
  function OnOther(x: Session, s: State, t: Tick, socketTurn: bool): State {
    if s.end.Some? then s
    else if socketTurn then
      var (o, end) := ReadSocket(x.maxRecord, s.o, t.socket);
      s.(o := o, end := end)
    else if t.output.Took? && s.o.outgoing.Some? then
      var (o, end) := WriteOutput(s.o, t.output.count);
      s.(o := o, end := end)
    else s
  }

  /** One turn of the loop. */
  function Turn(x: Session, s: State, t: Tick): State
    requires s.end == None
  {
    var u := Flush(x, s, t);
    if u.end.Some? then u
    else
      var v := Finish(x, u);
      if v.end.Some? then v else Events(x, v, t)
  }

  /** The events of one turn, in the order the selector lists them. */
  function Events(x: Session, s: State, t: Tick): State {
    if t.inputFirst then OnOther(x, OnInput(x, s, t), t, s.o.onSocket)
    else OnInput(x, OnOther(x, s, t, s.o.onSocket), t)
  }

  /** Every turn keeps the framing of both directions, and never registers anything twice. */
  lemma TurnKeeps(x: Session, s: State, t: Tick)
    requires Valid(x, s) && s.end == None
    ensures Valid(x, Turn(x, s, t))
  {
    FlushKeeps(x, s, t);
    var u := Flush(x, s, t);
    if u.end == None && Finish(x, u).end == None { EventsKeep(x, Finish(x, u), t); }
  }

  lemma EventsKeep(x: Session, s: State, t: Tick)
    requires Valid(x, s) && s.end == None
    ensures Valid(x, Events(x, s, t))
  {
    if t.inputFirst {
      InputKeeps(x, s, t);
      OtherKeeps(x, OnInput(x, s, t), t, s.o.onSocket);
    } else {
      OtherKeeps(x, s, t, s.o.onSocket);
      InputKeeps(x, OnOther(x, s, t, s.o.onSocket), t);
    }
  }

  lemma FlushKeeps(x: Session, s: State, t: Tick)
    requires Valid(x, s) && s.end == None
    ensures Valid(x, Flush(x, s, t))
  {
    if s.i.pending.Some? {
      assert s.i.sent + [s.i.pending.value] + [] == s.i.sent + [s.i.pending.value];
      assert (s.i.sent + [s.i.pending.value])[..|s.i.sent|] == s.i.sent;
    }
  }

  lemma InputKeeps(x: Session, s: State, t: Tick)
    requires Valid(x, s)
    ensures Valid(x, OnInput(x, s, t)) && OnInput(x, s, t).o == s.o
  {
    if s.end == None && s.i.watched && t.input.Bytes? {
      ReadInputKeeps(x.maxRecord, s.i, t.input.data);
      InputSendsNothing(x.maxRecord, s.i, t.input.data);
    }
  }

  lemma InputSendsNothing(max: nat, i: Inward, data: seq<byte>)
    requires Partial(i.incoming) && i.pending == None && !i.eof
    ensures var (j, end) := ReadInput(max, i, data); j.sent == i.sent && (j.pending.Some? ==> !j.eof)
  {
  }

  lemma ReadInputKeeps(max: nat, i: Inward, data: seq<byte>)
    requires Framed(max, i) && Watching(max, i) && i.watched
    ensures var (j, end) := ReadInput(max, i, data);
            Framed(max, j) && (end == None ==> Watching(max, j)) && end != Some(KeyError)
  {
    var size := Missing(i.incoming);
    var j := i.(asked := i.asked + [size]);
    if data != [] {
      TakeKeeps(max, j, if |data| <= size then data else data[..size]);
    }
  }

  lemma TakeKeeps(max: nat, i: Inward, got: seq<byte>)
    requires Framed(max, i) && Watching(max, i) && i.watched && |got| <= Missing(i.incoming)
    ensures var (j, end) := Take(max, i, got);
            Framed(max, j) && (end == None ==> Watching(max, j)) && end != Some(KeyError)
  {
    Grown(i.incoming, got);
    assert i.sent + Listed(None) == i.sent;
    Associate(EncodeAll(i.sent), i.incoming, got);
    TakenFramed(max, i, i.incoming + got, i.consumed + got);
  }

  /** With `r` in the buffer, the records sent and, if it is complete, the one it holds are those of the input. */
  lemma TakenFramed(max: nat, i: Inward, r: seq<byte>, consumed: seq<byte>)
    requires consumed == EncodeAll(i.sent) + r && Short(max, i.sent)
    ensures EncodeAll(i.sent + []) + r == consumed
    ensures |r| >= 4 && |r| == FromBe32(r[..4]) + 4 ==> consumed == EncodeAll(i.sent + [r[4..]]) + []
    ensures |r| >= 4 && |r| == FromBe32(r[..4]) + 4 && FromBe32(r[..4]) <= max ==> Short(max, i.sent + [r[4..]])
  {
    assert i.sent + [] == i.sent;
    if |r| >= 4 && |r| == FromBe32(r[..4]) + 4 { CompleteRecord(i.sent, r); }
  }

  /** Reading no more than what is missing never goes past the end of the current record. */
  lemma Grown(incoming: seq<byte>, got: seq<byte>)
    requires Partial(incoming) && |got| <= Missing(incoming)
    ensures var r := incoming + got;
            |r| >= 4 ==> |r| <= 4 + FromBe32(r[..4]) && (|r| < 4 + FromBe32(r[..4]) ==> Partial(r))
    ensures |incoming + got| < 4 ==> Partial(incoming + got)
    ensures if |incoming| < 4 then |incoming + got| <= 4 else (incoming + got)[..4] == incoming[..4]
  {
    assert |incoming| >= 4 ==> (incoming + got)[..4] == incoming[..4];
  }

  lemma CompleteRecord(sent: seq<seq<byte>>, incoming: seq<byte>)
    requires |incoming| >= 4 && |incoming| == FromBe32(incoming[..4]) + 4
    ensures EncodeAll(sent) + incoming == EncodeAll(sent + [incoming[4..]]) + []
  {
    FromBe32RoundTrip(incoming[..4]);
    assert incoming == Encode(incoming[4..]) by { assert incoming == incoming[..4] + incoming[4..]; }
    assert (sent + [incoming[4..]])[..|sent|] == sent;
  }

  lemma OtherKeeps(x: Session, s: State, t: Tick, socketTurn: bool)
    requires Valid(x, s) && (s.end == None ==> socketTurn == s.o.onSocket)
    ensures Valid(x, OnOther(x, s, t, socketTurn)) && OnOther(x, s, t, socketTurn).i == s.i
  {
    if s.end == None {
      if socketTurn {
        if t.socket.Record? { RecordEncoded(s.o.written, s.o.received, t.socket.data); }
      } else {
        WriteKeeps(s.o, if t.output.Took? then t.output.count else 0);
      }
    }
  }

  lemma RecordEncoded(written: seq<byte>, received: seq<seq<byte>>, data: seq<byte>)
    requires written + [] == EncodeAll(received)
    ensures written + Encode(data) == EncodeAll(received + [data])
  {
    assert (received + [data])[..|received|] == received;
    assert written + [] == written;
  }

  lemma WriteKeeps(o: Outward, count: nat)
    requires Ordered(o) && Alternating(o) && o.outgoing.Some?
    ensures var (p, end) := WriteOutput(o, count); Ordered(p) && Alternating(p) && end == None
  {
    var out := o.outgoing.value;
    var n := if count <= |out| then count else |out|;
    assert o.written + out[..n] + out[n..] == o.written + out by {
      assert out == out[..n] + out[n..];
      Associate(o.written, out[..n], out[n..]);
    }
  }

  // ----- Whole runs -----

  function Run(x: Session, script: seq<Tick>): State {
    if script == [] then START
    else
      var s := Run(x, script[..|script| - 1]);
      if s.end.Some? then s else Turn(x, s, script[|script| - 1])
  }

  lemma {:induction false} RunValid(x: Session, script: seq<Tick>)
    requires x.maxRecord <= 65536
    ensures Valid(x, Run(x, script))
    decreases |script|
  {
    if script != [] {
      var init := script[..|script| - 1];
      RunValid(x, init);
      if Run(x, init).end == None { TurnKeeps(x, Run(x, init), script[|script| - 1]); }
    }
  }

  lemma {:induction false} Settled(x: Session, script: seq<Tick>, k: nat)
    requires k <= |script| && Run(x, script[..k]).end.Some?
    ensures Run(x, script) == Run(x, script[..k])
    decreases |script|
  {
    if k == |script| {
      assert script[..k] == script;
    } else {
      var init := script[..|script| - 1];
      assert init[..k] == script[..k];
      Settled(x, init, k);
    }
  }

  /**
    However the input arrives in pieces, the records sent and pending are exactly those of the input
    read so far, in order, and what is held back is exactly the incomplete record at its end.
    No read is ever asked for nothing, so an empty read does mean the end of the input.
   */
  lemma ChunkingDoesNotMatter(x: Session, script: seq<Tick>)
    requires x.maxRecord <= 65536
    ensures var i := Run(x, script).i;
            && Parse(i.consumed) == Parsed(i.sent + Listed(i.pending), i.incoming)
            && (forall k :: 0 <= k < |i.asked| ==> 0 < i.asked[k])
  {
    RunValid(x, script);
    var i := Run(x, script).i;
    ParseEncoded(i.sent + Listed(i.pending), i.incoming);
  }

  /** So two runs that read the same input have the same records, whatever the pieces were. */
  lemma SameInputSameRecords(x: Session, a: seq<Tick>, b: seq<Tick>)
    requires x.maxRecord <= 65536 && Run(x, a).i.consumed == Run(x, b).i.consumed
    ensures var i, j := Run(x, a).i, Run(x, b).i;
            i.sent + Listed(i.pending) == j.sent + Listed(j.pending) && i.incoming == j.incoming
  {
    ChunkingDoesNotMatter(x, a);
    ChunkingDoesNotMatter(x, b);
  }

  // ----- What one turn gets done -----

  /**
    In any state the loop can be in: a turn that can send sends the pending record, and nothing else is ever sent; a
    turn on which all input is read and sent marks the end, or fails where the session has no end mark.
   */
  lemma TurnSends(x: Session, s: State, t: Tick)
    requires Valid(x, s) && s.end == None
    ensures var r := Turn(x, s, t);
            && r.i.sent == s.i.sent + (if t.send == Sent && !s.writeClosed then Listed(s.i.pending) else [])
            && (s.i.eof && s.i.pending == None && !s.writeClosed ==>
                if x.sequenced then r.marks == 1 && r.writeClosed else r.end == Some(SessionError))
            && (s.i.pending.Some? && (s.writeClosed || t.send == Raised) ==> r.end == Some(SessionError))
  {
    FlushKeeps(x, s, t);
    var u := Flush(x, s, t);
    assert s.i.sent + [] == s.i.sent;
    if u.end == None && Finish(x, u).end == None { EventsSendNothing(x, Finish(x, u), t); }
  }

  lemma EventsSendNothing(x: Session, s: State, t: Tick)
    requires Valid(x, s) && s.end == None
    ensures var r := Events(x, s, t); r.i.sent == s.i.sent && r.marks == s.marks && r.writeClosed == s.writeClosed
  {
    if s.i.watched && t.input.Bytes? { InputSendsNothing(x.maxRecord, s.i, t.input.data); }
    OtherKeeps(x, s, t, s.o.onSocket);
  }

  /** At most `count` of the bytes. */
  function Offered(data: seq<byte>, count: int): seq<byte> {
    if count < 0 || |data| <= count then data else data[..count]
  }

  /** The input offered is read up to the end of the current record or of its length; no bytes are its end. */
  predicate InputRead(i: Inward, t: Tick, j: Inward) {
    i.pending == None && !i.eof && t.input.Bytes? ==>
      && j.consumed == i.consumed + Offered(t.input.data, Missing(i.incoming))
      && (j.eof <==> t.input.data == [])
  }

  /** A record is taken from the peer when none is being written; otherwise what the output takes is written. */
  predicate OutputMoved(o: Outward, t: Tick, p: Outward) {
    if o.outgoing == None then
      && p.written == o.written
      && p.received == o.received + if t.socket.Record? then [t.socket.data] else []
    else
      && p.received == o.received
      && p.written == o.written + if t.output.Took? then Offered(o.outgoing.value, t.output.count) else []
  }

  /** A turn that does not end the session does both. */
  lemma TurnMoves(x: Session, s: State, t: Tick)
    requires Valid(x, s) && s.end == None && Turn(x, s, t).end == None
    ensures InputRead(s.i, t, Turn(x, s, t).i) && OutputMoved(s.o, t, Turn(x, s, t).o)
  {
    AlertBefore(x, s, t);
    EventsMove(x, Finish(x, Flush(x, s, t)), t);
  }

  /** What the loop watches is what it can use. */
  predicate Alert(s: State) {
    && (s.i.watched <==> s.i.pending == None && !s.i.eof)
    && (s.o.onOutput <==> s.o.outgoing.Some?) && (s.o.onSocket <==> s.o.outgoing == None)
  }

  lemma EventsMove(x: Session, s: State, t: Tick)
    requires s.end == None && Alert(s) && Events(x, s, t).end == None
    ensures InputRead(s.i, t, Events(x, s, t).i) && OutputMoved(s.o, t, Events(x, s, t).o)
  {
    if t.inputFirst {
      InputReads(x, s, t);
      OtherMoves(x, OnInput(x, s, t), t, s.o.onSocket);
    } else {
      OtherMoves(x, s, t, s.o.onSocket);
      InputReads(x, OnOther(x, s, t, s.o.onSocket), t);
    }
  }

  lemma InputReads(x: Session, s: State, t: Tick)
    requires s.end == None && (s.i.watched <==> s.i.pending == None && !s.i.eof) && OnInput(x, s, t).end == None
    ensures InputRead(s.i, t, OnInput(x, s, t).i) && OnInput(x, s, t).o == s.o
  {
    assert s.i.consumed + [] == s.i.consumed;
  }

  lemma OtherMoves(x: Session, s: State, t: Tick, socketTurn: bool)
    requires s.end == None && Alternating(s.o) && socketTurn == s.o.onSocket
    requires OnOther(x, s, t, socketTurn).end == None
    ensures OutputMoved(s.o, t, OnOther(x, s, t, socketTurn).o) && OnOther(x, s, t, socketTurn).i == s.i
  {
    assert s.o.received + [] == s.o.received && s.o.written + [] == s.o.written;
  }

  /** What ends the session when it is met: the peer's end, input that stops inside a record, or a record too long. */
  predicate EventCause(x: Session, s: State, t: Tick, i: Inward, end: End) {
    match end
    case PeerClosed => t.socket == PeerEof
    case Truncated => t.input == Bytes([]) && s.i.incoming != []
    case Oversized => |i.incoming| >= 4 && FromBe32(i.incoming[..4]) > x.maxRecord
    case SessionError => t.socket.Record? && |t.socket.data| > x.maxRecord
    case KeyError => false
  }

  predicate Cause(x: Session, s: State, t: Tick, i: Inward, end: End) {
    || EventCause(x, s, t, i, end)
    || (end.SessionError? && s.i.pending.Some? && (s.writeClosed || t.send == Raised))
    || (end.SessionError? && s.i.pending == None && s.i.eof && !x.sequenced)
  }

  /** Nothing offered to the loop in a turn is a reason to end it. */
  predicate Harmless(x: Session, s: State, t: Tick) {
    && (s.o.outgoing == None ==> t.socket != PeerEof && (t.socket.Record? ==> |t.socket.data| <= x.maxRecord))
    && (s.i.pending == None && !s.i.eof && t.input == Bytes([]) ==> s.i.incoming == [])
  }

  /** A turn ends the session only for such a cause, and goes on only when what it met was none. */
  lemma WhyItEnds(x: Session, s: State, t: Tick)
    requires Valid(x, s) && s.end == None
    ensures var r := Turn(x, s, t); if r.end.Some? then Cause(x, s, t, r.i, r.end.value) else Harmless(x, s, t)
  {
    var u := Flush(x, s, t);
    if u.end == None && Finish(x, u).end == None {
      AlertBefore(x, s, t);
      EventsEnd(x, Finish(x, u), t);
    }
  }

  lemma AlertBefore(x: Session, s: State, t: Tick)
    requires Valid(x, s) && s.end == None && Flush(x, s, t).end == None
    ensures var v := Finish(x, Flush(x, s, t));
            Alert(v) && v.o == s.o && v.i.incoming == s.i.incoming && (s.i.pending == None ==> v.i == s.i)
  {
  }

  lemma EventsEnd(x: Session, s: State, t: Tick)
    requires s.end == None && Alert(s)
    ensures var r := Events(x, s, t);
            if r.end.Some? then EventCause(x, s, t, r.i, r.end.value) else Harmless(x, s, t)
  {
    if t.inputFirst {
      InputEnds(x, s, t);
      OtherEnds(x, OnInput(x, s, t), t, s.o.onSocket);
    } else {
      OtherEnds(x, s, t, s.o.onSocket);
      InputEnds(x, OnOther(x, s, t, s.o.onSocket), t);
    }
  }

  lemma InputEnds(x: Session, s: State, t: Tick)
    requires s.end == None ==> (s.i.watched <==> s.i.pending == None && !s.i.eof)
    ensures var r := OnInput(x, s, t);
            && r.o == s.o && (s.end.Some? ==> r == s)
            && (s.end == None && r.end.Some? ==> r.end.value.Truncated? || r.end.value.Oversized?)
            && (s.end == None && r.end.Some? ==> EventCause(x, s, t, r.i, r.end.value))
            && (r.end == None && s.i.pending == None && !s.i.eof && t.input == Bytes([]) ==> s.i.incoming == [])
  {
  }

  lemma OtherEnds(x: Session, s: State, t: Tick, socketTurn: bool)
    requires s.end == None ==> Alternating(s.o) && socketTurn == s.o.onSocket
    ensures var r := OnOther(x, s, t, socketTurn);
            && r.i == s.i && (s.end.Some? ==> r == s)
            && (s.end == None && r.end.Some? ==> r.end.value.PeerClosed? || r.end.value.SessionError?)
            && (s.end == None && r.end.Some? ==> EventCause(x, s, t, r.i, r.end.value))
            && (r.end == None && s.o.outgoing == None ==>
                t.socket != PeerEof && (t.socket.Record? ==> |t.socket.data| <= x.maxRecord))
  {
  }

  // ----- The end mark -----

  /** If the end was marked, all input was read and sent before. */
  predicate EndIsLast(s: State) {
    s.marks > 0 ==> s.i.eof && s.i.pending == None && Parse(s.i.consumed) == Parsed(s.i.sent, [])
  }

  /** The records of some input up to the first that is too long. */
  function Accepted(max: nat, records: seq<seq<byte>>): seq<seq<byte>> {
    if records == [] || |records[0]| > max then [] else [records[0]] + Accepted(max, records[1..])
  }

  /** Once the end is marked, no turn sends anything or marks it again, and a further record ends the session. */
  lemma NothingAfterTheMark(x: Session, script: seq<Tick>, t: Tick)
    requires x.maxRecord <= 65536 && Run(x, script).marks > 0
    ensures var s, r := Run(x, script), Run(x, script + [t]);
            && r.marks == s.marks && r.i.sent == s.i.sent && r.writeClosed
            && (s.end == None && s.i.pending.Some? ==> r.end == Some(SessionError))
  {
    RunValid(x, script);
    assert (script + [t])[..|script|] == script;
    var s := Run(x, script);
    if s.end == None { SendsNoMore(x, s, t); }
  }

  lemma SendsNoMore(x: Session, s: State, t: Tick)
    requires Valid(x, s) && s.end == None && s.marks > 0
    ensures var r := Turn(x, s, t); r.marks == s.marks && r.i.sent == s.i.sent && r.writeClosed
    ensures s.i.pending.Some? ==> Turn(x, s, t).end == Some(SessionError)
  {
    var u := Flush(x, s, t);
    assert u.i == s.i;
    if s.i.watched && t.input.Bytes? { InputSendsNothing(x.maxRecord, s.i, t.input.data); }
  }

  /**
    Over all runs that read some of this input, in whatever pieces: a mark always comes after all input was read
    and sent, if and only if the session is not sequenced, and so has no marks, or the acceptable records of
    the input are all non-empty. An empty record on a sequenced session is itself the mark.
   */
  lemma EndIsLastIffNoEmptyRecord(x: Session, input: seq<byte>)
    requires x.maxRecord <= 65536
    ensures (forall script :: Run(x, script).i.consumed <= input ==> EndIsLast(Run(x, script)))
        <==> !x.sequenced || [] !in Accepted(x.maxRecord, Parse(input).records)
  {
    var good := !x.sequenced || [] !in Accepted(x.maxRecord, Parse(input).records);
    if good {
      forall script | Run(x, script).i.consumed <= input ensures EndIsLast(Run(x, script)) {
        MarkedLast(x, script, input);
      }
    } else {
      var j := FirstEmpty(x.maxRecord, Parse(input).records);
      var s := FeedTo(x, input, j);
      s := FeedOne(x, s, input, Parse(input).records[j..]);
      var script :| Run(x, script) == s;
      assert !EndIsLast(Run(x, script));
    }
  }

  lemma MarkedLast(x: Session, script: seq<Tick>, input: seq<byte>)
    requires x.maxRecord <= 65536 && Run(x, script).i.consumed <= input
    requires !x.sequenced || [] !in Accepted(x.maxRecord, Parse(input).records)
    ensures EndIsLast(Run(x, script))
  {
    RunValid(x, script);
    var s := Run(x, script);
    ChunkingDoesNotMatter(x, script);
    var records := s.i.sent + Listed(s.i.pending);
    ParsePrefix(s.i.consumed, input);
    ShortAccepted(x.maxRecord, records, Parse(input).records);
    assert s.i.sent <= records;
    if s.marks > 0 {
      assert s.i.sent != [] ==> s.i.sent[|s.i.sent| - 1] == records[|s.i.sent| - 1];
      assert s.i.pending == None ==> records == s.i.sent;
    }
  }

  lemma {:induction false} ParsePrefix(a: seq<byte>, b: seq<byte>)
    requires a <= b
    ensures Parse(a).records <= Parse(b).records
    decreases |a|
  {
    if !Partial(a) {
      var n := FromBe32(a[..4]);
      SameFirst(a, b, n);
      ParsePrefix(a[4 + n..], b[4 + n..]);
    }
  }

  lemma SameFirst(a: seq<byte>, b: seq<byte>, n: nat)
    requires a <= b && 4 + n <= |a|
    ensures a[..4] == b[..4] && a[4..4 + n] == b[4..4 + n] && a[4 + n..] <= b[4 + n..]
  {
  }

  lemma {:induction false} ShortAccepted(max: nat, some: seq<seq<byte>>, records: seq<seq<byte>>)
    requires some <= records && Short(max, some)
    ensures some <= Accepted(max, records)
    decreases |some|
  {
    if some != [] {
      assert some[0] == records[0] && some[1..] <= records[1..];
      ShortAccepted(max, some[1..], records[1..]);
    }
  }

  lemma {:induction false} FirstEmpty(max: nat, records: seq<seq<byte>>) returns (j: nat)
    requires [] in Accepted(max, records)
    ensures j < |records| && records[j] == [] && forall i :: 0 <= i < j ==> 0 < |records[i]| <= max
    decreases |records|
  {
    if records[0] == [] {
      return 0;
    }
    j := FirstEmpty(max, records[1..]);
    assert records[1..][j] == records[j + 1];
    assert forall i :: 0 < i < j + 1 ==> records[i] == records[1..][i - 1];
    j := j + 1;
  }

  ghost predicate Reachable(x: Session, s: State) {
    Valid(x, s) && exists script :: Run(x, script) == s
  }

  lemma TurnReaches(x: Session, s: State, t: Tick)
    requires x.maxRecord <= 65536 && Reachable(x, s) && s.end == None
    ensures Reachable(x, Turn(x, s, t))
  {
    var script :| Run(x, script) == s;
    RunOn(x, script, s, t);
    TurnKeeps(x, s, t);
  }

  lemma RunOn(x: Session, script: seq<Tick>, s: State, t: Tick)
    requires Run(x, script) == s && s.end == None
    ensures Run(x, script + [t]) == Turn(x, s, t)
  {
    var longer := script + [t];
    assert longer[..|longer| - 1] == script && longer[|longer| - 1] == t;
  }

  /** Between two records, with the given records of the input still to come. */
  ghost predicate Between(s: State, input: seq<byte>, left: seq<seq<byte>>) {
    && s.end == None && s.i.pending == None && !s.i.eof && s.i.incoming == [] && !s.writeClosed
    && s.i.consumed <= input && Parse(input[|s.i.consumed|..]).records == left
  }

  /** A state in which the first `j` records of the input were sent, none of them empty. */
  lemma {:induction false} FeedTo(x: Session, input: seq<byte>, j: nat) returns (s: State)
    requires x.maxRecord <= 65536 && j <= |Parse(input).records|
    requires forall i :: 0 <= i < j ==> 0 < |Parse(input).records[i]| <= x.maxRecord
    ensures Reachable(x, s) && Between(s, input, Parse(input).records[j..])
  {
    if j == 0 {
      s := START;
      assert Run(x, []) == s && input[0..] == input;
    } else {
      s := FeedTo(x, input, j - 1);
      var left := Parse(input).records[j - 1..];
      s := FeedOne(x, s, input, left);
      assert left[1..] == Parse(input).records[j..];
    }
  }

  /** One more record is read and sent; an empty one marks the end on a sequenced session. */
  lemma FeedOne(x: Session, s: State, input: seq<byte>, left: seq<seq<byte>>) returns (r: State)
    requires x.maxRecord <= 65536 && Reachable(x, s) && Between(s, input, left) && left != []
            && |left[0]| <= x.maxRecord
    ensures Reachable(x, r) && r.i.consumed <= input
    ensures left[0] != [] ==> Between(r, input, left[1..])
    ensures left[0] == [] && x.sequenced ==> r.marks > 0 && !r.i.eof
  {
    var rest := input[|s.i.consumed|..];
    ParseTail(rest, left);
    Onward(input, s.i.consumed, FromBe32(rest[..4]));
    var u := ReadOne(x, s, rest[..4], left[0]);
    r := Turn(x, u, QUIET);
    TurnReaches(x, u, QUIET);
    QuietTurn(x, u);
  }

  lemma ParseTail(rest: seq<byte>, left: seq<seq<byte>>)
    requires left != [] && Parse(rest).records == left
    ensures !Partial(rest)
    ensures var n := FromBe32(rest[..4]); left[0] == rest[4..4 + n] && Parse(rest[4 + n..]).records == left[1..]
  {
  }

  lemma Onward(input: seq<byte>, consumed: seq<byte>, n: nat)
    requires consumed <= input && |consumed| + 4 + n <= |input|
    ensures var rest := input[|consumed|..];
            var more := consumed + rest[..4] + rest[4..4 + n];
            more <= input && |more| == |consumed| + 4 + n && input[|more|..] == rest[4 + n..]
  {
    var rest := input[|consumed|..];
    assert input == consumed + rest;
    assert rest == rest[..4] + rest[4..4 + n] + rest[4 + n..];
    assert rest[..4 + n] == rest[..4] + rest[4..4 + n];
    Associate(consumed, rest[..4], rest[4..4 + n]);
    Associate(consumed, rest[..4 + n], rest[4 + n..]);
  }

  lemma ReadOne(x: Session, s: State, header: seq<byte>, body: seq<byte>) returns (r: State)
    requires x.maxRecord <= 65536 && Reachable(x, s)
    requires s.end == None && s.i.pending == None && !s.i.eof && s.i.incoming == [] && !s.writeClosed
    requires |header| == 4 && FromBe32(header) == |body| <= x.maxRecord
    ensures Reachable(x, r) && r.end == None && !r.writeClosed
    ensures r.i.pending == Some(body) && !r.i.eof && r.i.consumed == s.i.consumed + header + body
  {
    var u := ReadHeader(x, s, header);
    if body == [] {
      r := u;
      assert s.i.consumed + header + [] == s.i.consumed + header;
    } else {
      assert u.i.incoming == header && u.i.pending == None && u.i.consumed == s.i.consumed + header;
      r := ReadBody(x, u, header, body);
    }
  }

  lemma ReadHeader(x: Session, s: State, header: seq<byte>) returns (r: State)
    requires x.maxRecord <= 65536 && Reachable(x, s)
    requires s.end == None && s.i.pending == None && !s.i.eof && s.i.incoming == [] && !s.writeClosed
    requires |header| == 4 && FromBe32(header) <= x.maxRecord
    ensures Reachable(x, r) && r.end == None && !r.writeClosed && !r.i.eof && r.i.consumed == s.i.consumed + header
    ensures if FromBe32(header) == 0 then r.i.pending == Some([]) else r.i.pending == None && r.i.incoming == header
  {
    r := Turn(x, s, Given(header));
    TurnReaches(x, s, Given(header));
    HeaderTurn(x, s, header);
  }

  lemma ReadBody(x: Session, s: State, header: seq<byte>, body: seq<byte>) returns (r: State)
    requires x.maxRecord <= 65536 && Reachable(x, s)
    requires s.end == None && s.i.pending == None && !s.i.eof && s.i.incoming == header && !s.writeClosed
    requires |header| == 4 && FromBe32(header) == |body| <= x.maxRecord && body != []
    ensures Reachable(x, r) && r.end == None && !r.writeClosed
    ensures r.i.pending == Some(body) && !r.i.eof && r.i.consumed == s.i.consumed + body
  {
    r := Turn(x, s, Given(body));
    TurnReaches(x, s, Given(body));
    BodyTurn(x, s, header, body);
  }

  /** The shortest such input: four zero bytes mark the end while more may come. */
  lemma EmptyRecordEndsEarly()
    ensures var s := Run(Session(1024, true), [Given([0, 0, 0, 0]), QUIET]);
            s.marks == 1 && !s.i.eof && s.end == None && s.i.sent == [[]]
  {
    var x, first := Session(1024, true), Given([0, 0, 0, 0]);
    var s := Turn(x, START, first);
    RunOn(x, [], START, first);
    TurnKeeps(x, START, first);
    HeaderTurn(x, START, [0, 0, 0, 0]);
    assert [] + [first] == [first] && [first] + [QUIET] == [first, QUIET];
    RunOn(x, [first], s, QUIET);
    QuietTurn(x, s);
    TurnKeeps(x, s, QUIET);
  }

  lemma QuietTurn(x: Session, s: State)
    requires Valid(x, s) && s.end == None && s.i.pending.Some? && !s.i.eof && !s.writeClosed
    ensures var r, mark := Turn(x, s, QUIET), x.sequenced && s.i.pending.value == [];
            && r.end == None && r.i.pending == None && !r.i.eof && r.i.incoming == s.i.incoming == []
            && r.i.consumed == s.i.consumed && r.i.sent == s.i.sent + [s.i.pending.value]
            && (r.writeClosed <==> mark) && (mark ==> r.marks > 0)
  {
    var u := Flush(x, s, QUIET);
    assert u.end == None && Finish(x, u) == u;
  }

  const QUIET := Tick(Sent, NoInput, NoRecord, NoRoom, true)

  function Given(data: seq<byte>): Tick {
    QUIET.(input := Bytes(data))
  }

  lemma HeaderTurn(x: Session, s: State, header: seq<byte>)
    requires Valid(x, s) && s.end == None && s.i.pending == None && !s.i.eof && s.i.incoming == [] && !s.writeClosed
    requires |header| == 4 && FromBe32(header) <= x.maxRecord
    ensures var i := s.i.(asked := s.i.asked + [4], consumed := s.i.consumed + header);
            Turn(x, s, Given(header))
            == if FromBe32(header) == 0 then s.(i := i.(pending := Some([]), watched := false))
               else s.(i := i.(incoming := header))
  {
    assert [] + header == header && header[..4] == header && header[4..] == [];
  }

  lemma BodyTurn(x: Session, s: State, header: seq<byte>, body: seq<byte>)
    requires Valid(x, s) && s.end == None && s.i.pending == None && !s.i.eof && !s.writeClosed
    requires |header| == 4 && s.i.incoming == header && FromBe32(header) == |body| > 0 && |body| <= x.maxRecord
    ensures Turn(x, s, Given(body))
         == s.(i := s.i.(asked := s.i.asked + [|body|], consumed := s.i.consumed + body, incoming := [],
                         pending := Some(body), watched := false))
  {
    var r := header + body;
    assert r[..4] == header && r[4..] == body && header[..4] == header;
  }

  /** Standard output is the encoding of the records received in order, cut off where writing has got to. */
  lemma OutputIsInOrder(x: Session, script: seq<Tick>)
    requires x.maxRecord <= 65536
    ensures var s := Run(x, script);
            && s.o.written <= EncodeAll(s.o.received)
            && (s.o.outgoing == None ==> s.o.written == EncodeAll(s.o.received))
            && s.end != Some(KeyError)
  {
    RunValid(x, script);
    var o := Run(x, script).o;
    assert o.outgoing == None ==> o.written + [] == o.written;
  }

  // ----- The loop itself -----

  /**
    The loop's variables, the registrations of its selector and the session's closed flag; the ghost fields
    record what passed through.
   */
  class RecordLoop {
    const session: Session
    var incoming: seq<byte>
    var pending: Option<seq<byte>>
    var outgoing: Option<seq<byte>>
    var inputEof: bool
    var onInput: bool
    var onSocket: bool
    var onOutput: bool
    var writeClosed: bool
    ghost var consumed: seq<byte>
    ghost var sent: seq<seq<byte>>
    ghost var asked: seq<int>
    ghost var received: seq<seq<byte>>
    ghost var written: seq<byte>
    ghost var marks: nat

    ghost function View(end: Option<End>): State
      reads this
    {
      State(Inward(incoming, pending, inputEof, onInput, consumed, sent, asked),
            Outward(outgoing, onSocket, onOutput, received, written), writeClosed, marks, end)
    }

    constructor (session: Session)
      ensures this.session == session && View(None) == START
    {
      this.session := session;
      incoming, pending, outgoing, inputEof := [], None, None, false;
      onSocket, onInput, onOutput, writeClosed := true, true, false, false;
      consumed, sent, asked, received, written, marks := [], [], [], [], [], 0;
    }

    /** The session's `finish`. */
    method MarkEnd() returns (end: Option<End>)
      modifies this`writeClosed, this`marks
      ensures end == if session.sequenced then None else Some(SessionError)
      ensures writeClosed == (old(writeClosed) || session.sequenced)
      ensures marks == old(marks) + if session.sequenced && !old(writeClosed) then 1 else 0
    {
      if !session.sequenced { return Some(SessionError); }
      if !writeClosed {
        marks := marks + 1;
        writeClosed := true;
      }
      end := None;
    }

    /** Sends the pending record through the session's `send_record`. */
    method SendPending(t: Tick) returns (end: Option<End>)
      modifies this
      ensures View(end) == Flush(session, old(View(None)), t)
    {
      end := None;
      if pending == None { return; }
      if writeClosed || t.send == Raised { return Some(SessionError); }
      if t.send == WouldBlock { return; }
      if session.sequenced && |pending.value| == 0 {
        end := MarkEnd();
      }
      sent := sent + [pending.value];
      pending := None;
      if !inputEof {
        if onInput { return Some(KeyError); }
        onInput := true;
      }
    }

    method FinishAtEnd() returns (end: Option<End>)
      modifies this
      ensures View(end) == Finish(session, old(View(None)))
    {
      end := None;
      if inputEof && pending == None && !writeClosed {
        end := MarkEnd();
      }
    }

    /** `offered` is what the input holds; no bytes are its end. */
    method ReadStdin(offered: seq<byte>) returns (end: Option<End>)
      requires Partial(incoming)
      modifies this
      ensures var (i, e) := ReadInput(session.maxRecord, old(View(None)).i, offered);
              end == e && View(None) == old(View(None)).(i := i)
    {
      end := None;
      var size := if |incoming| < 4 then 4 else 4 + FromBe32(incoming[..4]);
      asked := asked + [size - |incoming|];
      var data := if |offered| <= size - |incoming| then offered else offered[..size - |incoming|];
      if |offered| == 0 {
        if |incoming| != 0 { return Some(Truncated); }
        onInput, inputEof := false, true;
        return;
      }
      end := Accept(data);
    }

    method Accept(data: seq<byte>) returns (end: Option<End>)
      modifies this
      ensures var (i, e) := Take(session.maxRecord, old(View(None)).i, data);
              end == e && View(None) == old(View(None)).(i := i)
    {
      end := None;
      incoming := incoming + data;
      consumed := consumed + data;
      if |incoming| >= 4 {
        var size := FromBe32(incoming[..4]);
        if size > session.maxRecord { return Some(Oversized); }
        if |incoming| == size + 4 {
          pending := Some(incoming[4..]);
          incoming := [];
          onInput := false;
        }
      }
    }

    method ReadPeer(r: Socket) returns (end: Option<End>)
      modifies this
      ensures var (o, e) := ReadSocket(session.maxRecord, old(View(None)).o, r);
              end == e && View(None) == old(View(None)).(o := o)
    {
      end := None;
      match r
      case NoRecord =>
      case PeerEof => return Some(PeerClosed);
      case Record(data) =>
        if |data| > session.maxRecord { return Some(SessionError); }
        if onOutput { return Some(KeyError); }
        outgoing := Some(Encode(data));
        received := received + [data];
        onSocket := false;
        onOutput := true;
    }

    method WriteStdout(count: nat) returns (end: Option<End>)
      requires outgoing.Some?
      modifies this
      ensures var (o, e) := WriteOutput(old(View(None)).o, count);
              end == e && View(None) == old(View(None)).(o := o)
    {
      end := None;
      var n := if count <= |outgoing.value| then count else |outgoing.value|;
      written := written + outgoing.value[..n];
      outgoing := Some(outgoing.value[n..]);
      if |outgoing.value| == 0 {
        if onSocket { return Some(KeyError); }
        outgoing := None;
        onOutput := false;
        onSocket := true;
      }
    }

    /** The event on the input, if there is one. */
    method InputEvent(t: Tick) returns (end: Option<End>)
      requires Partial(incoming)
      modifies this
      ensures View(end) == OnInput(session, old(View(None)), t)
    {
      end := None;
      if onInput && t.input.Bytes? {
        end := ReadStdin(t.input.data);
      }
    }

    /** The event on the socket or on the output, whichever was watched. */
    method OtherEvent(t: Tick, socketTurn: bool) returns (end: Option<End>)
      modifies this
      ensures View(end) == OnOther(session, old(View(None)), t, socketTurn)
    {
      end := None;
      if socketTurn {
        end := ReadPeer(t.socket);
      } else if t.output.Took? && outgoing.Some? {
        end := WriteStdout(t.output.count);
      }
    }

    /** One pass of the loop body. */
    method Pass(t: Tick) returns (end: Option<End>)
      requires Valid(session, View(None))
      modifies this
      ensures View(end) == Turn(session, old(View(None)), t)
    {
      end := SendPending(t);
      if end.Some? { return; }
      end := FinishAtEnd();
      if end.Some? { return; }
      FlushKeeps(session, old(View(None)), t);
      end := HandleEvents(t);
    }

    method HandleEvents(t: Tick) returns (end: Option<End>)
      requires Valid(session, View(None))
      modifies this
      ensures View(end) == Events(session, old(View(None)), t)
    {
      ghost var s := View(None);
      var socketTurn := onSocket;
      if t.inputFirst {
        end := InputEvent(t);
        if end == None { end := OtherEvent(t, socketTurn); }
      } else {
        OtherKeeps(session, s, t, socketTurn);
        end := OtherEvent(t, socketTurn);
        if end == None { end := InputEvent(t); }
      }
    }
  }

  /** The loop; a script that runs out stands for the deadline. */
  method Serve(x: Session, script: seq<Tick>) returns (loop: RecordLoop, end: Option<End>)
    requires x.maxRecord <= 65536
    ensures fresh(loop) && loop.View(end) == Run(x, script)
  {
    loop := new RecordLoop(x);
    end := None;
    for k := 0 to |script|
      invariant fresh(loop) && loop.session == x && end == None && loop.View(None) == Run(x, script[..k])
    {
      RunValid(x, script[..k]);
      assert script[..k + 1][..k] == script[..k];
      end := loop.Pass(script[k]);
      if end.Some? {
        Settled(x, script, k + 1);
        return;
      }
    }
    assert script[..|script|] == script;
  }
}
