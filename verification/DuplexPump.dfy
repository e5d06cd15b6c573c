/** The two-way byte relay of the benchmark front end, with bounded buffers and half-close. */
module DuplexPump {
  import opened Bytes

  const LIMIT: nat := 262144

  /**
    One of the two connections: the bytes waiting to be written to it, whether it is still read from,
    and whether its write side is shut down. The other fields record what happened on it.
   */
  datatype Side = Side(pending: seq<byte>, reading: bool, finished: bool,
                       received: seq<byte>, forwarded: seq<byte>, shutdowns: nat)

  datatype Link = Link(incoming: Side, outgoing: Side)

  const OPEN := Side([], true, false, [], [], 0)

  datatype Sent = Took(count: nat) | WouldBlock | Broken

  /**
    What the system reports for one connection: whether a shutdown fails, what is ready, the bytes to read,
    none at the end, and the result of sending.
   */
  datatype Ready = Ready(shutFails: bool, read: bool, data: seq<byte>, readFails: bool, write: bool, sent: Sent)

  /** One `select`: each connection appears at most once, in either order. */
  datatype Round = Round(incomingFirst: bool, incoming: Ready, outgoing: Ready)

  datatype Events = Events(read: bool, write: bool)
  datatype End = Done | Failed

  /** Between `peer`, from which bytes come, and `me`, to which they go. */
  ghost predicate Flow(me: Side, peer: Side) {
    && peer.received == me.forwarded + me.pending
    && |me.pending| <= LIMIT
    && me.shutdowns == (if me.finished then 1 else 0)
    && (me.finished ==> !peer.reading && me.pending == [])
  }

  ghost predicate Valid(l: Link) {
    Flow(l.incoming, l.outgoing) && Flow(l.outgoing, l.incoming)
  }

  /** The write side is to be shut down once its source has ended and drained. */
  predicate Due(me: Side, peer: Side) {
    !peer.reading && me.pending == [] && !me.finished
  }

  /** Shuts the write side down if it is due. */
  function Prepared(me: Side, peer: Side, fails: bool): (r: Side)
    requires Flow(me, peer) && Flow(peer, me)
    ensures Flow(r, peer) && Flow(peer, r) && r == me.(finished := r.finished, shutdowns := r.shutdowns)
    ensures !(Due(me, peer) && fails) ==> !Due(r, peer)
  {
    if Due(me, peer) && !fails then me.(shutdowns := me.shutdowns + 1, finished := true) else me
  }

  /** What is waited for: input while there is room for it, and output while there is some. */
  function Wanted(me: Side, peer: Side): Events {
    Events(me.reading && |peer.pending| < LIMIT, me.pending != [])
  }

  datatype Served = Served(me: Side, peer: Side, ok: bool, asked: seq<nat>)

  /** The system returns at most what was asked for, and nothing only at the end of the stream. */
  function Chunk(ready: Ready, request: nat): seq<byte> {
    if |ready.data| <= request then ready.data else ready.data[..request]
  }

  /** Reads into the peer's buffer; `asked` records the size passed to `recv`. */
  function AfterRead(me: Side, peer: Side, ready: Ready): (s: Served)
    requires Flow(me, peer) && Flow(peer, me) && me.reading && |peer.pending| < LIMIT
    ensures Flow(s.me, s.peer) && Flow(s.peer, s.me) && s.me.pending == me.pending && |s.peer.pending| >= |peer.pending|
    ensures s.asked == [LIMIT - |peer.pending|] && s.peer.reading == peer.reading
  {
    var request := LIMIT - |peer.pending|;
    if ready.readFails then Served(me, peer, false, [request])
    else
      var data := Chunk(ready, request);
      if data == [] then Served(me.(reading := false), peer, true, [request])
      else
        Associate(peer.forwarded, peer.pending, data);
        Served(me.(received := me.received + data), peer.(pending := peer.pending + data), true, [request])
  }

  function AfterWrite(me: Side, ready: Ready): (r: (Side, bool))
    requires me.pending != []
    ensures r.0 == me.(pending := r.0.pending, forwarded := r.0.forwarded) && |r.0.pending| <= |me.pending|
    ensures r.0.forwarded + r.0.pending == me.forwarded + me.pending
  {
    match ready.sent
    case WouldBlock => (me, true)
    case Broken => (me, false)
    case Took(count) =>
      var sent := if count <= |me.pending| then count else |me.pending|;
      assert me.pending == me.pending[..sent] + me.pending[sent..];
      Associate(me.forwarded, me.pending[..sent], me.pending[sent..]);
      (me.(forwarded := me.forwarded + me.pending[..sent], pending := me.pending[sent..]), true)
  }

  /** Serves one ready connection: first its input, then its output. */
  function Serve(me: Side, peer: Side, ready: Ready, events: Events): (s: Served)
    requires Flow(me, peer) && Flow(peer, me)
    requires events.read ==> me.reading && |peer.pending| < LIMIT
    requires events.write ==> me.pending != []
    ensures Flow(s.me, s.peer) && Flow(s.peer, s.me)
    ensures s.peer.reading == peer.reading && |s.me.pending| <= |me.pending| && |s.peer.pending| >= |peer.pending|
    ensures forall i :: 0 <= i < |s.asked| ==> 0 < s.asked[i] <= LIMIT
  {
    var s := if ready.read && events.read then AfterRead(me, peer, ready) else Served(me, peer, true, []);
    if !s.ok || !(ready.write && events.write) then s
    else
      var (r, ok) := AfterWrite(s.me, ready);
      Served(r, s.peer, ok, s.asked)
  }

  /** One `select` result: the first connection, then the second, unless the first failed. */
  function ServeBoth(a: Side, b: Side, readyA: Ready, readyB: Ready): (s: Served)
    requires Flow(a, b) && Flow(b, a)
    ensures Flow(s.me, s.peer) && Flow(s.peer, s.me)
    ensures forall i :: 0 <= i < |s.asked| ==> 0 < s.asked[i] <= LIMIT
  {
    var onA, onB := Wanted(a, b), Wanted(b, a);
    var s := Serve(a, b, readyA, onA);
    if !s.ok then s
    else
      var t := Serve(s.peer, s.me, readyB, onB);
      Served(t.peer, t.me, t.ok, s.asked + t.asked)
  }

  // ----- Whole runs -----

  /** How far a run got: how it ended, if it did, and the sizes asked of `recv` so far. */
  datatype Progress = Progress(end: Option<End>, link: Link, asked: seq<nat>)

  ghost predicate Sound(p: Progress) {
    && Valid(p.link)
    && (forall i :: 0 <= i < |p.asked| ==> 0 < p.asked[i] <= LIMIT)
    && (p.end == Some(Done) ==> Complete(p.link))
  }

  /** Both directions have ended, everything received was forwarded, and both write sides are shut down. */
  ghost predicate Complete(l: Link) {
    && !l.incoming.reading && !l.outgoing.reading
    && l.incoming.finished && l.outgoing.finished && l.incoming.shutdowns == l.outgoing.shutdowns == 1
    && l.outgoing.forwarded == l.incoming.received && l.incoming.forwarded == l.outgoing.received
  }

  predicate Drained(a: Side, b: Side) {
    !a.reading && !b.reading && a.pending == [] && b.pending == []
  }

  function Turn(p: Progress, round: Round): (q: Progress)
    requires Sound(p) && p.end == None
    ensures Sound(q) && p.asked <= q.asked
  {
    var a := Prepared(p.link.incoming, p.link.outgoing, round.incoming.shutFails);
    if Due(a, p.link.outgoing) then Progress(Some(Failed), p.link, p.asked) else
    var b := Prepared(p.link.outgoing, a, round.outgoing.shutFails);
    if Due(b, a) then Progress(Some(Failed), Link(a, b), p.asked) else Selected(Link(a, b), p.asked, round)
  }

  /** Ends if nothing is left to do, and else serves what `select` reports. */
  function Selected(l: Link, asked: seq<nat>, round: Round): (q: Progress)
    requires Sound(Progress(None, l, asked)) && !Due(l.incoming, l.outgoing) && !Due(l.outgoing, l.incoming)
    ensures Sound(q) && asked <= q.asked
  {
    if Drained(l.incoming, l.outgoing) then Progress(Some(Done), l, asked)
    else if round.incomingFirst then
      var s := ServeBoth(l.incoming, l.outgoing, round.incoming, round.outgoing);
      Progress(if s.ok then None else Some(Failed), Link(s.me, s.peer), asked + s.asked)
    else
      var s := ServeBoth(l.outgoing, l.incoming, round.outgoing, round.incoming);
      Progress(if s.ok then None else Some(Failed), Link(s.peer, s.me), asked + s.asked)
  }

  /**
    Any run, over any sequence of readiness reports. In each direction what was received is what was
    forwarded followed by what is pending, buffers stay bounded, `recv` is never asked for nothing,
    each write side is shut down at most once and only when its direction has ended and drained, and
    a run that ends by itself has completed both directions.
   */
  function Run(script: seq<Round>): (p: Progress)
    ensures Sound(p)
  {
    if script == [] then Progress(None, Link(OPEN, OPEN), [])
    else
      var p := Run(script[..|script| - 1]);
      if p.end.Some? then p else Turn(p, script[|script| - 1])
  }

  /** Once ended, a run stays as it is. */
  lemma {:induction false} Settled(script: seq<Round>, k: nat)
    requires k <= |script| && Run(script[..k]).end.Some?
    ensures Run(script) == Run(script[..k])
    decreases |script|
  {
    if k == |script| {
      assert script[..k] == script;
    } else {
      var init := script[..|script| - 1];
      assert init[..k] == script[..k];
      Settled(init, k);
    }
  }

  // ----- What a turn gets done -----

  /** What was waited for on a connection and is ready happens, and nothing else does. */
  predicate Progressed(me: Side, ready: Ready, events: Events, after: Side) {
    && (if !(events.read && ready.read) then after.received == me.received && after.reading == me.reading
        else if ready.data == [] then after.received == me.received && !after.reading
        else me.received < after.received <= me.received + ready.data && after.reading == me.reading)
    && (if !(events.write && ready.write && ready.sent.Took?) then after.forwarded == me.forwarded
        else me.forwarded <= after.forwarded && Between(me, ready.sent.count, |after.forwarded|))
    && (me.finished ==> after.finished)
  }

  /** The bytes forwarded grow by what was taken, and at least by all that was pending if that is less. */
  predicate Between(me: Side, count: nat, forwarded: nat) {
    |me.forwarded| + (if count <= |me.pending| then count else |me.pending|) <= forwarded <= |me.forwarded| + count
  }

  lemma ServeProgresses(me: Side, peer: Side, ready: Ready, events: Events)
    requires Flow(me, peer) && Flow(peer, me)
    requires events.read ==> me.reading && |peer.pending| < LIMIT
    requires events.write ==> me.pending != []
    ensures var s := Serve(me, peer, ready, events);
            && (s.ok ==> Progressed(me, ready, events, s.me))
            && s.peer == peer.(pending := s.peer.pending) && peer.pending <= s.peer.pending
            && (!s.ok ==> (ready.read && ready.readFails) || (ready.write && ready.sent.Broken?))
  {
  }

  lemma BothProgress(a: Side, b: Side, readyA: Ready, readyB: Ready)
    requires Flow(a, b) && Flow(b, a)
    ensures var s := ServeBoth(a, b, readyA, readyB);
            if s.ok then Progressed(a, readyA, Wanted(a, b), s.me) && Progressed(b, readyB, Wanted(b, a), s.peer)
            else Fails(readyA) || Fails(readyB)
  {
    var onA, onB := Wanted(a, b), Wanted(b, a);
    ServeProgresses(a, b, readyA, onA);
    var s := Serve(a, b, readyA, onA);
    if s.ok {
      ServeProgresses(s.peer, s.me, readyB, onB);
      var t := Serve(s.peer, s.me, readyB, onB);
      if t.ok { LaterProgress(b, s.peer, readyB, onB, t.me); }
    }
  }

  /** More bytes to forward do not undo progress. */
  lemma LaterProgress(b: Side, c: Side, ready: Ready, events: Events, after: Side)
    requires c == b.(pending := c.pending) && b.pending <= c.pending && Progressed(c, ready, events, after)
    ensures Progressed(b, ready, events, after)
  {
  }

  predicate Fails(ready: Ready) {
    ready.shutFails || ready.readFails || ready.sent.Broken?
  }

  /**
    From connections `a` and `b` a turn led to `q`: it failed only if some call did, it ended the run exactly when
    nothing was left to do, and otherwise each connection that was ready for something useful made progress.
    Unless it failed, it shut down every direction that had ended and drained.
   */
  predicate Advanced(a: Side, b: Side, round: Round, q: Progress) {
    && (q.end == Some(Failed) ==> Fails(round.incoming) || Fails(round.outgoing))
    && (q.end == Some(Done) ==> Drained(a, b))
    && (Drained(a, b) && !round.incoming.shutFails && !round.outgoing.shutFails ==> q.end == Some(Done))
    && (q.end == None ==> Progressed(a, round.incoming, Useful(a, b), q.link.incoming))
    && (q.end == None ==> Progressed(b, round.outgoing, Useful(b, a), q.link.outgoing))
    && (q.end != Some(Failed) && !b.reading && a.pending == [] ==> q.link.incoming.finished)
    && (q.end != Some(Failed) && !a.reading && b.pending == [] ==> q.link.outgoing.finished)
  }

  /** Input is of use while it may still come and there is room for it, and output while something is pending. */
  function Useful(me: Side, peer: Side): Events {
    Events(me.reading && |peer.pending| < 262144, |me.pending| > 0)
  }

  /** Every turn from any state of a run does so. */
  lemma TurnProgresses(p: Progress, round: Round)
    requires Sound(p) && p.end == None
    ensures Advanced(p.link.incoming, p.link.outgoing, round, Turn(p, round))
  {
    var a := Prepared(p.link.incoming, p.link.outgoing, round.incoming.shutFails);
    if !Due(a, p.link.outgoing) {
      var b := Prepared(p.link.outgoing, a, round.outgoing.shutFails);
      if !Due(b, a) {
        SelectedProgresses(Link(a, b), p.asked, round);
        SameButShut(p.link.incoming, p.link.outgoing, a, b, round, Selected(Link(a, b), p.asked, round));
      }
    }
  }

  lemma SameButShut(a: Side, b: Side, c: Side, d: Side, round: Round, q: Progress)
    requires c == a.(finished := c.finished, shutdowns := c.shutdowns)
    requires d == b.(finished := d.finished, shutdowns := d.shutdowns)
    requires (a.finished ==> c.finished) && (b.finished ==> d.finished)
    requires Advanced(c, d, round, q)
    ensures Advanced(a, b, round, q)
  {
  }

  lemma SelectedProgresses(l: Link, asked: seq<nat>, round: Round)
    requires Sound(Progress(None, l, asked)) && !Due(l.incoming, l.outgoing) && !Due(l.outgoing, l.incoming)
    ensures Advanced(l.incoming, l.outgoing, round, Selected(l, asked, round))
  {
    if round.incomingFirst {
      BothProgress(l.incoming, l.outgoing, round.incoming, round.outgoing);
    } else {
      BothProgress(l.outgoing, l.incoming, round.outgoing, round.incoming);
    }
  }

  // ----- The loop itself -----

  datatype Conn = Incoming | Outgoing {
    function Peer(): Conn {
      if this == Incoming then Outgoing else Incoming
    }
  }

  function ReadyOf(round: Round, c: Conn): Ready {
    if c == Incoming then round.incoming else round.outgoing
  }

  /**
    The relay's buffers, its sets of connections and what its poller waits
    for; the ghost fields record the traffic.
   */
  class Pump {
    var pending: map<Conn, seq<byte>>
    var reading: set<Conn>
    var finished: set<Conn>
    var registered: map<Conn, Events>
    ghost var received: map<Conn, seq<byte>>
    ghost var forwarded: map<Conn, seq<byte>>
    ghost var shutdowns: map<Conn, nat>
    ghost var asked: seq<nat>

    ghost predicate Valid()
      reads this
    {
      forall c: Conn :: c in pending && c in received && c in forwarded && c in shutdowns
    }

    ghost function View(c: Conn): Side
      requires Valid()
      reads this
    {
      Side(pending[c], c in reading, c in finished, received[c], forwarded[c], shutdowns[c])
    }

    ghost function Whole(): Link
      requires Valid()
      reads this
    {
      Link(View(Incoming), View(Outgoing))
    }

    constructor ()
      ensures Valid() && Whole() == Link(OPEN, OPEN) && asked == []
    {
      pending, reading, finished := map[Incoming := [], Outgoing := []], {Incoming, Outgoing}, {};
      registered := map[];
      received, forwarded := map[Incoming := [], Outgoing := []], map[Incoming := [], Outgoing := []];
      shutdowns, asked := map[Incoming := 0, Outgoing := 0], [];
      new;
      forall c: Conn ensures c in pending && c in received && c in forwarded && c in shutdowns {
        match c case Incoming => case Outgoing =>
      }
    }

    /** Shuts the connection down if that is due, and registers what is to be waited for. */
    method Prepare(c: Conn, fails: bool) returns (ok: bool)
      requires Valid() && Flow(View(c), View(c.Peer())) && Flow(View(c.Peer()), View(c))
      modifies this`finished, this`shutdowns, this`registered
      ensures Valid() && View(c) == Prepared(old(View(c)), old(View(c.Peer())), fails)
      ensures View(c.Peer()) == old(View(c.Peer()))
      ensures ok <==> !Due(View(c), View(c.Peer()))
      ensures ok ==> forall d :: Waits(d) == if d == c then Wanted(View(c), View(c.Peer())) else old(Waits(d))
    {
      var peer := c.Peer();
      if peer !in reading && |pending[c]| == 0 && c !in finished {
        if fails { return false; }
        shutdowns := shutdowns[c := shutdowns[c] + 1];
        finished := finished + {c};
      }
      Register(c);
      ok := true;
    }

    /** Registers what is to be waited for on a connection, if anything. */
    method Register(c: Conn)
      requires Valid()
      modifies this`registered
      ensures forall d :: Waits(d) == if d == c then Wanted(View(c), View(c.Peer())) else old(Waits(d))
    {
      var events := Events(c in reading && |pending[c.Peer()]| < LIMIT, |pending[c]| != 0);
      registered := registered - {c};
      if events.read || events.write { registered := registered[c := events]; }
    }

    /** What the poller waits for on a connection. */
    ghost function Waits(c: Conn): Events
      reads this
    {
      if c in registered then registered[c] else Events(false, false)
    }

    method Read(c: Conn, ready: Ready) returns (ok: bool)
      requires Valid() && Flow(View(c), View(c.Peer())) && Flow(View(c.Peer()), View(c))
      requires c in reading && |pending[c.Peer()]| < LIMIT
      modifies this`pending, this`reading, this`received, this`asked
      ensures Valid()
      ensures var s := AfterRead(old(View(c)), old(View(c.Peer())), ready);
              s == Served(View(c), View(c.Peer()), ok, s.asked) && asked == old(asked) + s.asked
    {
      var peer := c.Peer();
      var request := LIMIT - |pending[peer]|;
      asked := asked + [request];
      if ready.readFails { return false; }
      TakeIn(c, peer, Chunk(ready, request));
      ok := true;
    }

    /** Passes bytes on to the peer's buffer; no bytes are the end of the stream. */
    method TakeIn(c: Conn, peer: Conn, data: seq<byte>)
      requires Valid() && peer == c.Peer()
      modifies this`pending, this`reading, this`received
      ensures Valid()
      ensures var me, you := old(View(c)), old(View(peer));
              if data == [] then View(c) == me.(reading := false) && View(peer) == you
              else View(c) == me.(received := me.received + data) && View(peer) == you.(pending := you.pending + data)
    {
      if |data| != 0 {
        received := received[c := received[c] + data];
        pending := pending[peer := pending[peer] + data];
      } else {
        reading := reading - {c};
      }
    }

    method Write(c: Conn, ready: Ready) returns (ok: bool)
      requires Valid() && pending[c] != []
      modifies this`pending, this`forwarded
      ensures Valid() && (View(c), ok) == AfterWrite(old(View(c)), ready) && View(c.Peer()) == old(View(c.Peer()))
    {
      match ready.sent
      case WouldBlock => ok := true;
      case Broken => ok := false;
      case Took(count) =>
        var sent := if count <= |pending[c]| then count else |pending[c]|;
        forwarded := forwarded[c := forwarded[c] + pending[c][..sent]];
        pending := pending[c := pending[c][sent..]];
        ok := true;
    }

    /** Handles the events of one connection that the poller reports. */
    method Handle(c: Conn, ready: Ready, events: Events) returns (ok: bool)
      requires Valid() && Flow(View(c), View(c.Peer())) && Flow(View(c.Peer()), View(c))
      requires events.read ==> c in reading && |pending[c.Peer()]| < LIMIT
      requires events.write ==> pending[c] != []
      modifies this`pending, this`reading, this`received, this`forwarded, this`asked
      ensures Valid()
      ensures var s := Serve(old(View(c)), old(View(c.Peer())), ready, events);
              s == Served(View(c), View(c.Peer()), ok, s.asked) && asked == old(asked) + s.asked
    {
      ok := true;
      if ready.read && events.read {
        ok := Read(c, ready);
        if !ok { return; }
      }
      if ready.write && events.write {
        ok := Write(c, ready);
      }
    }

    /** The poller reports only what it waits for. */
    method HandleReported(c: Conn, ready: Ready) returns (ok: bool)
      requires Valid() && Flow(View(c), View(c.Peer())) && Flow(View(c.Peer()), View(c))
      requires Waits(c).read ==> c in reading && |pending[c.Peer()]| < LIMIT
      requires Waits(c).write ==> pending[c] != []
      modifies this`pending, this`reading, this`received, this`forwarded, this`asked
      ensures Valid()
      ensures var s := Serve(old(View(c)), old(View(c.Peer())), ready, Waits(c));
              s == Served(View(c), View(c.Peer()), ok, s.asked) && asked == old(asked) + s.asked
    {
      ok := true;
      if c in registered {
        ok := Handle(c, ready, registered[c]);
      } else {
        assert asked + [] == asked;
      }
    }

    /** Handles what one `select` reports, for one connection and then for the other. */
    method HandleBoth(c: Conn, round: Round) returns (ok: bool)
      requires Valid() && Flow(View(c), View(c.Peer())) && Flow(View(c.Peer()), View(c))
      requires Waits(c) == Wanted(View(c), View(c.Peer())) && Waits(c.Peer()) == Wanted(View(c.Peer()), View(c))
      modifies this`pending, this`reading, this`received, this`forwarded, this`asked
      ensures Valid()
      ensures var s := ServeBoth(old(View(c)), old(View(c.Peer())), ReadyOf(round, c), ReadyOf(round, c.Peer()));
              s == Served(View(c), View(c.Peer()), ok, s.asked) && asked == old(asked) + s.asked
    {
      var peer := c.Peer();
      ghost var before := asked;
      ghost var s := Serve(View(c), View(peer), ReadyOf(round, c), Wanted(View(c), View(peer)));
      ghost var onPeer := Wanted(View(peer), View(c));
      assert peer.Peer() == c;
      ok := HandleReported(c, ReadyOf(round, c));
      if !ok { return; }
      ghost var t := Serve(s.peer, s.me, ReadyOf(round, peer), onPeer);
      ok := HandleReported(peer, ReadyOf(round, peer));
      Associate(before, s.asked, t.asked);
    }

    /** One pass of the loop body; `None` means that the loop goes on. */
    method Pass(round: Round) returns (end: Option<End>)
      requires Valid() && Sound(Progress(None, Whole(), asked))
      modifies this
      ensures Valid() && Progress(end, Whole(), asked) == Turn(old(Progress(None, Whole(), asked)), round)
    {
      var ok := Prepare(Incoming, round.incoming.shutFails);
      if !ok { return Some(Failed); }
      ok := Prepare(Outgoing, round.outgoing.shutFails);
      if !ok { return Some(Failed); }
      end := Select(round);
    }

    method Select(round: Round) returns (end: Option<End>)
      requires Valid() && Sound(Progress(None, Whole(), asked))
      requires !Due(View(Incoming), View(Outgoing)) && !Due(View(Outgoing), View(Incoming))
      requires Waits(Incoming) == Wanted(View(Incoming), View(Outgoing))
      requires Waits(Outgoing) == Wanted(View(Outgoing), View(Incoming))
      modifies this`pending, this`reading, this`received, this`forwarded, this`asked
      ensures Valid() && Progress(end, Whole(), asked) == Selected(old(Whole()), old(asked), round)
    {
      NoneReading(reading);
      if reading == {} && |pending[Incoming]| == 0 && |pending[Outgoing]| == 0 { return Some(Done); }
      var first := if round.incomingFirst then Incoming else Outgoing;
      assert first.Peer() == if round.incomingFirst then Outgoing else Incoming;
      var ok := HandleBoth(first, round);
      end := if ok then None else Some(Failed);
    }
  }

  lemma NoneReading(reading: set<Conn>)
    ensures reading == {} <==> Incoming !in reading && Outgoing !in reading
  {
    if reading != {} {
      var c :| c in reading;
      match c case Incoming => case Outgoing =>
    }
  }

  /** The relay loop; a script that runs out stands for the stop request or the deadline. */
  method Copy(script: seq<Round>) returns (pump: Pump, end: Option<End>)
    ensures fresh(pump) && pump.Valid() && Run(script) == Progress(end, pump.Whole(), pump.asked)
  {
    pump := new Pump();
    end := None;
    for k := 0 to |script|
      invariant fresh(pump) && pump.Valid() && end == None
      invariant Run(script[..k]) == Progress(None, pump.Whole(), pump.asked)
    {
      assert script[..k + 1][..k] == script[..k];
      end := pump.Pass(script[k]);
      if end.Some? {
        Settled(script, k + 1);
        return;
      }
    }
    assert script[..|script|] == script;
  }
}
