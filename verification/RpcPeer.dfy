/**
  The request correlator of a control connection, as a system of atomic steps.
  Callers, the reading loop and the closer run concurrently; the closer keeps the table lock while
  it hands out its results, so none of its sends may ever block.
 */
module RpcPeer {
  const TWO_64: nat := 0x1_0000_0000_0000_0000

  /** What is put into a result channel: a response with the id it carried, or the closing notice. */
  datatype Result = Response(id: nat) | Closed

  /** A call that returned may have taken the result out of its channel. */
  datatype Phase = Allocated | Registered | Waiting | Returned(got: bool)

  /** A table entry that was taken out and not sent to yet: the id it was under and the channel. */
  datatype Hand = Empty | Holds(id: nat, n: nat)
  datatype Closer = NotClosing | Closing | Sweeping(hand: Hand) | Finished

  /** Call number `n` owns channel `n`; `sends[n]` lists all results ever sent into it. */
  datatype State = State(
    calls: seq<Phase>,
    sends: seq<seq<Result>>,
    pending: map<nat, nat>,
    reader: Hand,
    closer: Closer,
    done: bool)
  {
    /** The table lock is free; the closer holds it through its sweep, everyone else for one step. */
    predicate Unlocked() {
      !closer.Sweeping?
    }

    predicate Known(n: int) {
      0 <= n < |calls| == |sends|
    }
  }

  const FRESH := State([], [], map[], Empty, NotClosing, false)

  /** The id of call `n`: the counter is incremented atomically and wraps at 64 bits. */
  function IdOf(n: nat): nat {
    (n + 1) % TWO_64
  }

  datatype Event =
    | Begin
    | Register(n: nat)
    | WriteOk(n: nat)
    | WriteFailed(n: nat)
    | TimedOut(n: nat)
    | SawDone(n: nat)
    | Received(n: nat)
    | ReaderTakes(id: nat)
    | ReaderSends
    | CloseBegins
    | CloserLocks
    | CloserTakes(id: nat)
    | CloserSends
    | CloserUnlocks

  predicate Enabled(s: State, e: Event) {
    match e
    case Begin => true
    case Register(n) => s.Known(n) && s.calls[n] == Allocated && s.Unlocked()
    case WriteOk(n) => s.Known(n) && s.calls[n] == Registered
    case WriteFailed(n) => s.Known(n) && s.calls[n] == Registered && s.Unlocked()
    case TimedOut(n) => s.Known(n) && s.calls[n] == Waiting && s.Unlocked()
    case SawDone(n) => s.Known(n) && s.calls[n] == Waiting && s.done
    case Received(n) => s.Known(n) && s.calls[n] == Waiting && s.sends[n] != []
    case ReaderTakes(_) => s.reader == Empty && s.Unlocked()
    case ReaderSends => s.reader.Holds? && s.Known(s.reader.n) && Room(s, s.reader.n)
    case CloseBegins => s.closer == NotClosing
    case CloserLocks => s.closer == Closing
    case CloserTakes(id) => s.closer == Sweeping(Empty) && id in s.pending
    case CloserSends =>
      s.closer.Sweeping? && s.closer.hand.Holds? && s.Known(s.closer.hand.n) && Room(s, s.closer.hand.n)
    case CloserUnlocks => s.closer == Sweeping(Empty) && s.pending == map[]
  }

  /** A channel holds one result; the caller takes it out at most once, when it returns. */
  predicate Room(s: State, n: int)
    requires s.Known(n)
  {
    |s.sends[n]| - (if s.calls[n] == Returned(true) then 1 else 0) < 1
  }

  function Send(s: State, n: nat, r: Result): State
    requires s.Known(n)
  {
    s.(sends := s.sends[n := s.sends[n] + [r]])
  }

  function Step(s: State, e: Event): State
    requires Enabled(s, e)
  {
    match e
    case Begin => s.(calls := s.calls + [Allocated], sends := s.sends + [[]])
    case Register(n) => s.(calls := s.calls[n := Registered], pending := s.pending[IdOf(n) := n])
    case WriteOk(n) => s.(calls := s.calls[n := Waiting])
    case WriteFailed(n) => s.(calls := s.calls[n := Returned(false)], pending := s.pending - {IdOf(n)})
    case TimedOut(n) => s.(calls := s.calls[n := Returned(false)], pending := s.pending - {IdOf(n)})
    case SawDone(n) => s.(calls := s.calls[n := Returned(false)])
    case Received(n) => s.(calls := s.calls[n := Returned(true)])
    case ReaderTakes(id) =>
      if id in s.pending then s.(reader := Holds(id, s.pending[id]), pending := s.pending - {id}) else s
    case ReaderSends => Send(s, s.reader.n, Response(s.reader.id)).(reader := Empty)
    case CloseBegins => s.(closer := Closing, done := true)
    case CloserLocks => s.(closer := Sweeping(Empty))
    case CloserTakes(id) => s.(closer := Sweeping(Holds(id, s.pending[id])), pending := s.pending - {id})
    case CloserSends => Send(s, s.closer.hand.n, Closed).(closer := Sweeping(Empty))
    case CloserUnlocks => s.(closer := Finished)
  }

  /** Every interleaving is some sequence of events; one that cannot happen is skipped. */
  function Run(events: seq<Event>): State {
    if events == [] then FRESH
    else
      var s, e := Run(events[..|events| - 1]), events[|events| - 1];
      if Enabled(s, e) then Step(s, e) else s
  }

  function Calls(events: seq<Event>): nat {
    if events == [] then 0 else Calls(events[..|events| - 1]) + if events[|events| - 1].Begin? then 1 else 0
  }

  // ----- Invariant -----

  predicate InTable(s: State, n: nat) {
    IdOf(n) in s.pending && s.pending[IdOf(n)] == n
  }

  predicate InHand(h: Hand, n: nat) {
    h.Holds? && h.n == n
  }

  function CloserHand(s: State): Hand {
    if s.closer.Sweeping? then s.closer.hand else Empty
  }

  /** The places from which a result may still go to channel `n`, and the results it already got. */
  function Chances(s: State, n: nat): nat
    requires n < |s.sends|
  {
    |s.sends[n]| + (if InTable(s, n) then 1 else 0)
    + (if InHand(s.reader, n) then 1 else 0) + (if InHand(CloserHand(s), n) then 1 else 0)
  }

  ghost predicate GoodHand(s: State, h: Hand) {
    h.Holds? ==> s.Known(h.n) && IdOf(h.n) == h.id && s.calls[h.n] != Allocated
  }

  ghost predicate GoodChannel(s: State, n: nat)
    requires s.Known(n)
  {
    && Chances(s, n) <= 1
    && (s.calls[n] == Allocated ==> Chances(s, n) == 0)
    && (s.calls[n] == Registered || s.calls[n] == Waiting ==> Chances(s, n) == 1)
    && (s.calls[n].Returned? && !s.done ==> !InTable(s, n))
    && (forall i :: 0 <= i < |s.sends[n]| ==> s.sends[n][i] == Closed || s.sends[n][i] == Response(IdOf(n)))
    && (s.calls[n] == Returned(true) ==> s.sends[n] != [])
  }

  ghost predicate Valid(s: State) {
    && |s.calls| == |s.sends| <= TWO_64
    && (forall id :: id in s.pending ==>
          s.Known(s.pending[id]) && IdOf(s.pending[id]) == id && s.calls[s.pending[id]] != Allocated)
    && GoodHand(s, s.reader) && GoodHand(s, CloserHand(s))
    && (forall n :: 0 <= n < |s.calls| ==> GoodChannel(s, n))
    && (s.closer != NotClosing ==> s.done)
  }

  lemma IdsDistinct(m: nat, n: nat)
    requires m < TWO_64 && n < TWO_64 && IdOf(m) == IdOf(n)
    ensures m == n
  {
  }

  lemma StepKeeps(s: State, e: Event)
    requires Valid(s) && Enabled(s, e) && (e.Begin? ==> |s.calls| < TWO_64)
    ensures Valid(Step(s, e))
  {
    var t := Step(s, e);
    forall m: nat, n: nat | m < |s.calls| && n < |s.calls| && IdOf(m) == IdOf(n) ensures m == n {
      IdsDistinct(m, n);
    }
    forall n | 0 <= n < |t.calls| ensures GoodChannel(t, n) {
      ChannelKept(s, e, n);
    }
  }

  lemma ChannelKept(s: State, e: Event, n: nat)
    requires Valid(s) && Enabled(s, e) && (e.Begin? ==> |s.calls| < TWO_64)
    requires Step(s, e).Known(n)
    ensures GoodChannel(Step(s, e), n)
  {
    forall m: nat | m < |s.calls| && IdOf(m) == IdOf(n) && n < |s.calls| ensures m == n {
      IdsDistinct(m, n);
    }
    if n < |s.calls| { assert GoodChannel(s, n); }
  }

  lemma {:induction false} RunValid(events: seq<Event>)
    requires Calls(events) <= TWO_64
    ensures Valid(Run(events)) && |Run(events).calls| == Calls(events)
  {
    if events != [] {
      var init, e := events[..|events| - 1], events[|events| - 1];
      RunValid(init);
      if Enabled(Run(init), e) { StepKeeps(Run(init), e); }
    }
  }

  // ----- Laws -----

  /** Over every interleaving, a channel receives at most one result, and it answers that very call. */
  lemma AtMostOneResult(events: seq<Event>, n: nat)
    requires Calls(events) <= TWO_64 && n < |Run(events).sends|
    ensures var s := Run(events);
            |s.sends[n]| <= 1 && (s.sends[n] == [] || s.sends[n] == [Closed] || s.sends[n] == [Response(IdOf(n))])
  {
    RunValid(events);
    assert GoodChannel(Run(events), n);
  }

  /**
    And no chance is ever lost: while a call is under way, its channel has got its result, or its entry is in the
    table, or exactly one of the reader and the closer has taken that out to send. A call that has
    returned leaves no entry behind, unless the connection is closing.
   */
  lemma ExactlyOneChance(events: seq<Event>, n: nat)
    requires Calls(events) <= TWO_64 && n < |Run(events).calls|
    ensures var s := Run(events);
            && n < |s.sends|
            && (s.calls[n] == Registered || s.calls[n] == Waiting ==> Chances(s, n) == 1)
            && (s.calls[n].Returned? && !s.done ==> !InTable(s, n))
  {
    RunValid(events);
    assert GoodChannel(Run(events), n);
  }

  lemma RunTwo(events: seq<Event>, d: Event, e: Event)
    requires Enabled(Run(events), d) && Enabled(Step(Run(events), d), e)
    ensures Run(events + [d, e]) == Step(Step(Run(events), d), e)
  {
    var all := events + [d, e];
    assert all[..|all| - 1] == events + [d] && (events + [d])[..|events|] == events;
  }

  /**
    A response that comes while a call waits in the table reaches that call, under
    its id, and the call can return it.
   */
  lemma ResponseIsDelivered(events: seq<Event>, n: nat)
    requires Calls(events) <= TWO_64 && n < |Run(events).calls|
    requires var s := Run(events); s.calls[n] == Waiting && InTable(s, n) && s.reader == Empty && s.Unlocked()
    ensures var t := Run(events + [ReaderTakes(IdOf(n)), ReaderSends]);
            && n < |t.sends| && t.sends[n] == [Response(IdOf(n))] && t.reader == Empty && IdOf(n) !in t.pending
            && Enabled(t, Received(n)) && Step(t, Received(n)).calls[n] == Returned(true)
  {
    RunValid(events);
    var s := Run(events);
    assert GoodChannel(s, n) && s.sends[n] == [];
    RunTwo(events, ReaderTakes(IdOf(n)), ReaderSends);
  }

  /** A call that waits in the table when the closer comes to it gets the closing notice. */
  lemma ClosingIsDelivered(events: seq<Event>, n: nat)
    requires Calls(events) <= TWO_64 && n < |Run(events).calls|
    requires var s := Run(events); s.calls[n] == Waiting && InTable(s, n) && s.closer == Sweeping(Empty)
    ensures var t := Run(events + [CloserTakes(IdOf(n)), CloserSends]);
            n < |t.sends| && t.sends[n] == [Closed] && t.closer == Sweeping(Empty) && IdOf(n) !in t.pending
  {
    RunValid(events);
    var s := Run(events);
    assert GoodChannel(s, n) && s.sends[n] == [];
    RunTwo(events, CloserTakes(IdOf(n)), CloserSends);
  }

  /** A response nobody waits for, and a call that times out or cannot be written, leave every other call alone. */
  lemma OthersAreLeftAlone(s: State, e: Event, m: nat)
    requires Valid(s) && Enabled(s, e) && m < |s.calls| && s.calls[m] == Waiting && InTable(s, m)
    requires match e
             case ReaderTakes(id) => id !in s.pending
             case TimedOut(n) => n != m
             case WriteFailed(n) => n != m
             case Received(n) => n != m
             case Register(n) => true
             case Begin => true
             case _ => false
    ensures var t := Step(s, e); t.calls[m] == Waiting && InTable(t, m) && t.sends[m] == s.sends[m]
  {
    forall n: nat | n < |s.calls| && IdOf(m) == IdOf(n) ensures m == n {
      IdsDistinct(m, n);
    }
  }

  /** So no send ever blocks: whoever has taken an entry out of the table can deliver to it at once. */
  lemma NoSendBlocks(events: seq<Event>)
    requires Calls(events) <= TWO_64
    ensures var s := Run(events);
            && (s.reader.Holds? ==> Enabled(s, ReaderSends))
            && (CloserHand(s).Holds? ==> Enabled(s, CloserSends))
  {
    RunValid(events);
    var s := Run(events);
    if s.reader.Holds? { assert GoodChannel(s, s.reader.n); }
    if CloserHand(s).Holds? { assert GoodChannel(s, CloserHand(s).n); }
  }

  /** What the closer has left to do while it holds the lock. */
  function SweepLeft(s: State): nat {
    2 * |s.pending| + (if CloserHand(s).Holds? then 1 else 0)
  }

  predicate ByCloser(e: Event) {
    e.CloserTakes? || e.CloserSends? || e.CloserUnlocks?
  }

  /**
    While the closer holds the lock it always has a step to take, each of its steps brings it closer to
    releasing the lock, and nobody else can give it more to do.
   */
  lemma SweepFinishes(events: seq<Event>, e: Event)
    requires Calls(events) <= TWO_64 && Run(events).closer.Sweeping?
    ensures var s := Run(events);
            && (exists step :: ByCloser(step) && Enabled(s, step))
            && (Enabled(s, e) ==>
                  var t := Step(s, e);
                  if ByCloser(e) then t.closer == Finished || (t.closer.Sweeping? && SweepLeft(t) < SweepLeft(s))
                  else t.closer == s.closer && SweepLeft(t) == SweepLeft(s))
  {
    SweepHasStep(events);
    if Enabled(Run(events), e) { SweepMoves(Run(events), e); }
  }

  lemma SweepHasStep(events: seq<Event>)
    requires Calls(events) <= TWO_64 && Run(events).closer.Sweeping?
    ensures exists step :: ByCloser(step) && Enabled(Run(events), step)
  {
    NoSendBlocks(events);
    var s := Run(events);
    if CloserHand(s).Holds? {
      assert ByCloser(CloserSends) && Enabled(s, CloserSends);
    } else if s.pending == map[] {
      assert ByCloser(CloserUnlocks) && Enabled(s, CloserUnlocks);
    } else {
      var id :| id in s.pending;
      assert ByCloser(CloserTakes(id)) && Enabled(s, CloserTakes(id));
    }
  }

  lemma SweepMoves(s: State, e: Event)
    requires s.closer.Sweeping? && Enabled(s, e)
    ensures var t := Step(s, e);
            if ByCloser(e) then t.closer == Finished || (t.closer.Sweeping? && SweepLeft(t) < SweepLeft(s))
            else t.closer == s.closer && SweepLeft(t) == SweepLeft(s)
  {
    if e.CloserTakes? {
      assert |(s.pending - {e.id}).Keys| == |s.pending.Keys - {e.id}|;
      assert |s.pending.Keys| == |s.pending| && |(s.pending - {e.id}).Keys| == |s.pending - {e.id}|;
    }
  }

  /** Once closing has begun, every waiting caller can return. */
  lemma CallersAreReleased(events: seq<Event>, n: nat)
    requires Calls(events) <= TWO_64 && n < |Run(events).calls|
    requires Run(events).closer != NotClosing && Run(events).calls[n] == Waiting
    ensures Enabled(Run(events), SawDone(n))
  {
    RunValid(events);
  }
}

/** Which connection of an agent the broker uses, as agents reconnect and old handlers finish late. */
module AgentRegistry {
  /** Handler steps: a connection registers for its agent, and later cleans up after itself. */
  datatype Event = Registers(agent: string, conn: nat) | CleansUp(agent: string, conn: nat)

  /** Each connection registers once and cleans up only after that, for the same agent. */
  ghost predicate Run(log: seq<Event>) {
    && (forall i, j :: 0 <= i < j < |log| && log[i].Registers? && log[j].Registers? ==> log[i].conn != log[j].conn)
    && (forall j :: 0 <= j < |log| && log[j].CleansUp? ==>
          exists i :: 0 <= i < j && log[i] == Registers(log[j].agent, log[j].conn))
  }

  class Broker {
    var agentClients: map<string, nat>
    var closed: set<nat>

    constructor ()
      ensures agentClients == map[] && closed == {}
    {
      agentClients, closed := map[], {};
    }

    method Register(agent: string, conn: nat)
      modifies this
      ensures agentClients == Table(old(agentClients), Registers(agent, conn))
      ensures closed == old(closed) + if agent in old(agentClients) then {old(agentClients)[agent]} else {}
    {
      if agent in agentClients {
        closed := closed + {agentClients[agent]};
      }
      agentClients := agentClients[agent := conn];
    }

    method CleanUp(agent: string, conn: nat)
      modifies this
      ensures agentClients == Table(old(agentClients), CleansUp(agent, conn)) && closed == old(closed)
    {
      if agent in agentClients && agentClients[agent] == conn {
        agentClients := agentClients - {agent};
      }
    }
  }

  function Table(t: map<string, nat>, e: Event): map<string, nat> {
    match e
    case Registers(agent, conn) => t[agent := conn]
    case CleansUp(agent, conn) => if agent in t && t[agent] == conn then t - {agent} else t
  }

  function TableAfter(log: seq<Event>): map<string, nat> {
    if log == [] then map[] else Table(TableAfter(log[..|log| - 1]), log[|log| - 1])
  }

  datatype Newest = NoConn | Conn(conn: nat)

  /** The connection with which `agent` registered last. */
  function NewestOf(log: seq<Event>, agent: string): Newest {
    if log == [] then NoConn
    else
      var e := log[|log| - 1];
      if e.Registers? && e.agent == agent then Conn(e.conn) else NewestOf(log[..|log| - 1], agent)
  }

  predicate CleanedUp(log: seq<Event>, agent: string, conn: nat) {
    exists i :: 0 <= i < |log| && log[i] == CleansUp(agent, conn)
  }

  lemma RunInit(log: seq<Event>)
    requires Run(log) && log != []
    ensures Run(log[..|log| - 1])
  {
    var init := log[..|log| - 1];
    forall j | 0 <= j < |init| && init[j].CleansUp?
      ensures exists i :: 0 <= i < j && init[i] == Registers(init[j].agent, init[j].conn)
    {
      var i :| 0 <= i < j && log[i] == Registers(log[j].agent, log[j].conn);
      assert init[i] == log[i];
    }
  }

  /** A connection that has only just registered has not cleaned up. */
  lemma JustRegistered(log: seq<Event>)
    requires Run(log) && log != [] && log[|log| - 1].Registers?
    ensures !CleanedUp(log, log[|log| - 1].agent, log[|log| - 1].conn)
  {
  }

  lemma CleanedUpStep(log: seq<Event>, agent: string, conn: nat)
    requires log != []
    ensures CleanedUp(log, agent, conn)
        <==> CleanedUp(log[..|log| - 1], agent, conn) || log[|log| - 1] == CleansUp(agent, conn)
  {
    var init := log[..|log| - 1];
    assert forall i :: 0 <= i < |init| ==> init[i] == log[i];
  }

  /** Over every run the table holds an agent's newest connection exactly until that one cleans up. */
  lemma {:induction false} NewestIsKept(log: seq<Event>, agent: string)
    requires Run(log)
    ensures var n := NewestOf(log, agent);
            && (agent in TableAfter(log) <==> n.Conn? && !CleanedUp(log, agent, n.conn))
            && (agent in TableAfter(log) ==> TableAfter(log)[agent] == n.conn)
  {
    if log != [] {
      RunInit(log);
      NewestIsKept(log[..|log| - 1], agent);
      var n := NewestOf(log, agent);
      if n.Conn? { CleanedUpStep(log, agent, n.conn); }
      if log[|log| - 1].Registers? { JustRegistered(log); }
    }
  }
}
