/**
  The relay's table of client mappings and its epoll registrations.
  A slot of the table is reused, so an event carries the generation of the mapping that registered it.
 */
module PeerTable {
  import opened Bytes

  type uint32 = n: nat | n < TWO_32
  const MAX_PEERS: nat := 4096
  /** Datagrams taken from the listener, and so mappings created, per batch of events. */
  const MAX_BATCH: nat := 256

  // ----- Addresses -----

  /** A socket address as received, with the length the kernel reported for it. */
  datatype Address =
    | Inet(ip: nat, port: nat, length: nat)
    | Inet6(ip6: nat, port6: nat, scope: nat, flow: nat, length: nat)
    | Other(family: nat, length: nat)

  predicate SockaddrEqual(a: Address, b: Address) {
    match (a, b)
    case (Inet(i, p, n), Inet(j, q, m)) => n >= 16 && m >= 16 && p == q && i == j
    case (Inet6(i, p, s, _, n), Inet6(j, q, t, _, m)) => n >= 28 && m >= 28 && p == q && s == t && i == j
    case _ => false
  }

  // ----- The table -----

  /** `serial` names the mapping itself; the relay does not store it. */
  datatype Peer = Peer(active: bool, fd: int, client: Address, lastSeen: nat, generation: uint32, serial: nat)

  const NO_CLIENT := Other(0, 0)
  const UNUSED := Peer(false, -1, NO_CLIENT, 0, 0, 0)

  /** The table, the epoll registrations by socket and the client for which each mapping was made. */
  datatype Table = Table(peers: seq<Peer>, epoll: map<int, nat>, owners: seq<Address>) {
    ghost predicate Valid() {
      && |peers| <= MAX_PEERS
      && (forall i :: 0 <= i < |peers| && peers[i].active ==> Registered(i))
      && (forall i, j :: 0 <= i < j < |peers| && peers[i].active && peers[j].active ==> Apart(peers[i], peers[j]))
      && (forall fd :: fd in epoll ==> exists i :: 0 <= i < |peers| && peers[i].active && peers[i].fd == fd)
    }

    ghost predicate Registered(i: int)
      requires 0 <= i < |peers|
    {
      var p := peers[i];
      && 0 < p.generation
      && p.fd in epoll && epoll[p.fd] == Token(p.generation, i)
      && p.serial < |owners| && owners[p.serial] == p.client
    }
  }

  /** Two active mappings share neither client nor socket nor identity. */
  predicate Apart(p: Peer, q: Peer) {
    !SockaddrEqual(p.client, q.client) && p.fd != q.fd && p.serial != q.serial
  }

  /** The event word: the generation above the slot number counted from one. */
  function Token(generation: nat, index: nat): nat {
    generation * TWO_32 + index + 1
  }

  lemma TokenUnpacks(generation: nat, index: nat)
    requires index + 1 < TWO_32
    ensures Token(generation, index) % TWO_32 == index + 1 && Token(generation, index) / TWO_32 == generation
  {
  }

  function NextGeneration(g: uint32): uint32 {
    if g as int + 1 == TWO_32 then 1 else g + 1
  }

  // ----- Operations on values -----

  function Close(t: Table, i: nat): Table
    requires i < |t.peers|
  {
    if !t.peers[i].active then t
    else t.(peers := t.peers[i := UNUSED.(generation := t.peers[i].generation)],
            epoll := t.epoll - {t.peers[i].fd})
  }

  /** Fills the free slot `i`; `fd` is the new socket. */
  function Create(t: Table, i: nat, client: Address, fd: int, now: nat): Table
    requires i < |t.peers|
  {
    var generation := NextGeneration(t.peers[i].generation);
    t.(peers := t.peers[i := Peer(true, fd, client, now, generation, |t.owners|)],
       epoll := t.epoll[fd := Token(generation, i)],
       owners := t.owners + [client])
  }

  /** The slot an event is delivered to, if it is not skipped. */
  predicate Delivers(t: Table, token: nat, i: nat) {
    && token % TWO_32 == i + 1
    && i < |t.peers|
    && t.peers[i].active
    && t.peers[i].generation == token / TWO_32 % TWO_32
  }

  lemma CloseKeeps(t: Table, i: nat)
    requires t.Valid() && i < |t.peers|
    ensures Close(t, i).Valid()
  {
    var u := Close(t, i);
    if t.peers[i].active {
      forall j | 0 <= j < |u.peers| && u.peers[j].active ensures u.Registered(j) {
        assert t.Registered(j);
        assert j != i && (if i < j then Apart(t.peers[i], t.peers[j]) else Apart(t.peers[j], t.peers[i]));
      }
      forall fd | fd in u.epoll ensures exists j :: 0 <= j < |u.peers| && u.peers[j].active && u.peers[j].fd == fd {
        var j :| 0 <= j < |t.peers| && t.peers[j].active && t.peers[j].fd == fd;
        assert u.peers[j] == t.peers[j];
      }
      forall j, k | 0 <= j < k < |u.peers| && u.peers[j].active && u.peers[k].active
        ensures Apart(u.peers[j], u.peers[k])
      {
        assert Apart(t.peers[j], t.peers[k]);
      }
    }
  }

  /** Creating a mapping for a client that no active mapping has, on a socket that is not open. */
  lemma CreateKeeps(t: Table, i: nat, client: Address, fd: int, now: nat)
    requires t.Valid() && i < |t.peers| && !t.peers[i].active
    requires fd !in t.epoll
    requires forall j :: 0 <= j < |t.peers| && t.peers[j].active ==> !SockaddrEqual(t.peers[j].client, client)
    ensures Create(t, i, client, fd, now).Valid()
  {
    var u := Create(t, i, client, fd, now);
    forall j | 0 <= j < |u.peers| && u.peers[j].active ensures u.Registered(j) {
      if j != i { assert t.Registered(j); }
    }
    forall f | f in u.epoll ensures exists j :: 0 <= j < |u.peers| && u.peers[j].active && u.peers[j].fd == f {
      if f == fd {
        assert u.peers[i].fd == fd;
      } else {
        var j :| 0 <= j < |t.peers| && t.peers[j].active && t.peers[j].fd == f;
        assert u.peers[j] == t.peers[j];
      }
    }
    forall j, k | 0 <= j < k < |u.peers| && u.peers[j].active && u.peers[k].active
      ensures Apart(u.peers[j], u.peers[k])
    {
      if j != i && k != i {
        assert Apart(t.peers[j], t.peers[k]);
      } else {
        var other := if j == i then k else j;
        assert t.Registered(other) && !SockaddrEqual(t.peers[other].client, client);
      }
    }
  }

  // ----- The table in memory -----

  /** The first slot from `i` on that holds a mapping for `client`, or the table size. */
  function Find(peers: seq<Peer>, client: Address, i: nat): (r: nat)
    requires i <= |peers|
    ensures i <= r <= |peers|
    ensures r < |peers| ==> peers[r].active && SockaddrEqual(peers[r].client, client)
    ensures forall j :: i <= j < r ==> !(peers[j].active && SockaddrEqual(peers[j].client, client))
    decreases |peers| - i
  {
    if i == |peers| || (peers[i].active && SockaddrEqual(peers[i].client, client)) then i
    else Find(peers, client, i + 1)
  }

  /** The first free slot from `i` on, or the table size. */
  function FreeSlot(peers: seq<Peer>, i: nat): (r: nat)
    requires i <= |peers|
    ensures i <= r <= |peers|
    ensures r < |peers| ==> !peers[r].active
    ensures forall j :: i <= j < r ==> peers[j].active
    decreases |peers| - i
  {
    if i == |peers| || !peers[i].active then i else FreeSlot(peers, i + 1)
  }

  predicate Idle(p: Peer, now: nat, timeout: nat) {
    p.active && now >= p.lastSeen && now - p.lastSeen >= timeout
  }

  class Relay {
    var peers: array<Peer>
    var epoll: map<int, nat>
    /** History only: the relay itself does not keep it. */
    var owners: seq<Address>

    ghost function View(): Table
      reads this, peers
    {
      Table(peers[..], epoll, owners)
    }

    constructor (maxPeers: nat)
      requires maxPeers <= MAX_PEERS
      ensures View() == Initial(maxPeers) && fresh(peers)
    {
      peers := new Peer[maxPeers](_ => UNUSED);
      epoll, owners := map[], [];
    }

    method FindPeer(client: Address) returns (index: int)
      ensures index == if Find(peers[..], client, 0) < peers.Length then Find(peers[..], client, 0) else -1
    {
      for i := 0 to peers.Length
        invariant Find(peers[..], client, 0) == Find(peers[..], client, i)
      {
        if peers[i].active && SockaddrEqual(peers[i].client, client) { return i; }
      }
      return -1;
    }

    /** `socket` is the connected socket the system returned, if any; `added` whether epoll took it. */
    method CreatePeer(client: Address, now: nat, socket: int, added: bool) returns (index: int)
      modifies this, peers
      ensures peers == old(peers)
      ensures index == if FreeSlot(old(peers[..]), 0) < peers.Length && socket >= 0 && added
                       then FreeSlot(old(peers[..]), 0) else -1
      ensures View() == if index < 0 then old(View()) else Create(old(View()), index, client, socket, now)
    {
      var slot := peers.Length;
      for candidate := 0 to peers.Length
        invariant slot == peers.Length && FreeSlot(peers[..], 0) == FreeSlot(peers[..], candidate)
      {
        if !peers[candidate].active {
          slot := candidate;
          break;
        }
      }
      if slot == peers.Length || socket < 0 { return -1; }
      var generation: uint32 := (peers[slot].generation as int + 1) % TWO_32;
      if generation == 0 { generation := 1; }
      if !added { return -1; }
      epoll := epoll[socket := Token(generation, slot)];
      peers[slot] := Peer(true, socket, client, now, generation, |owners|);
      owners := owners + [client];
      return slot;
    }

    method ClosePeer(i: nat)
      requires i < peers.Length
      modifies this, peers
      ensures peers == old(peers) && View() == Close(old(View()), i)
    {
      if !peers[i].active { return; }
      epoll := epoll - {peers[i].fd};
      var generation := peers[i].generation;
      peers[i] := UNUSED.(generation := generation);
    }

    /** Closes exactly the mappings that have been silent for `timeout`. */
    method CleanupIdlePeers(now: nat, timeout: nat)
      requires View().Valid()
      modifies this, peers
      ensures peers == old(peers) && View().Valid()
      ensures forall i :: 0 <= i < peers.Length ==>
                var p := old(peers[i]);
                peers[i] == if p.active && p.lastSeen + timeout <= now then UNUSED.(generation := p.generation) else p
      ensures owners == old(owners)
    {
      for i := 0 to peers.Length
        invariant peers == old(peers) && View().Valid() && owners == old(owners)
        invariant forall j :: i <= j < peers.Length ==> peers[j] == old(peers[j])
        invariant forall j :: 0 <= j < i ==>
                    peers[j] == if !Idle(old(peers[j]), now, timeout) then old(peers[j])
                                else UNUSED.(generation := old(peers[j].generation))
      {
        if Idle(peers[i], now, timeout) {
          CloseKeeps(View(), i);
          ClosePeer(i);
        }
      }
    }

    /** The listener path: find the client's mapping or create one, and note the activity. */
    method Arrive(client: Address, now: nat, socket: int, added: bool) returns (index: int)
      requires socket !in epoll
      modifies this, peers
      ensures peers == old(peers)
      ensures View() == Act(old(View()), DoArrive(client, now, socket, added))
      ensures index >= 0 ==> index < peers.Length && peers[index].active && peers[index].lastSeen == now
    {
      index := FindPeer(client);
      if index < 0 {
        index := CreatePeer(client, now, socket, added);
      }
      if index < 0 { return; }
      peers[index] := peers[index].(lastSeen := now);
    }
  }

  // ----- Reachable tables -----

  function Initial(n: nat): Table {
    Table(seq(n, _ => UNUSED), map[], [])
  }

  datatype Action =
    | DoArrive(client: Address, now: nat, socket: int, added: bool)
    | DoClose(index: nat)

  /** One change to the table; a socket the system returns is never one that is still open. */
  function Act(t: Table, a: Action): Table {
    match a
    case DoClose(i) => if i < |t.peers| then Close(t, i) else t
    case DoArrive(client, now, socket, added) =>
      var found, free := Find(t.peers, client, 0), FreeSlot(t.peers, 0);
      if found < |t.peers| then t.(peers := t.peers[found := t.peers[found].(lastSeen := now)])
      else if free < |t.peers| && socket >= 0 && socket !in t.epoll && added then Create(t, free, client, socket, now)
      else t
  }

  function Run(t: Table, actions: seq<Action>): Table {
    if actions == [] then t else Act(Run(t, actions[..|actions| - 1]), actions[|actions| - 1])
  }

  lemma ActKeeps(t: Table, a: Action)
    requires t.Valid()
    ensures Act(t, a).Valid()
  {
    match a
    case DoClose(i) => if i < |t.peers| { CloseKeeps(t, i); }
    case DoArrive(client, now, socket, added) =>
      var found, free := Find(t.peers, client, 0), FreeSlot(t.peers, 0);
      if found < |t.peers| {
        TouchKeeps(t, found, now);
      } else if free < |t.peers| && socket >= 0 && socket !in t.epoll && added {
        CreateKeeps(t, free, client, socket, now);
      }
  }

  lemma TouchKeeps(t: Table, i: nat, now: nat)
    requires t.Valid() && i < |t.peers|
    ensures t.(peers := t.peers[i := t.peers[i].(lastSeen := now)]).Valid()
  {
    var u := t.(peers := t.peers[i := t.peers[i].(lastSeen := now)]);
    assert forall j :: 0 <= j < |t.peers| ==> u.peers[j] == t.peers[j].(lastSeen := u.peers[j].lastSeen);
    forall j | 0 <= j < |u.peers| && u.peers[j].active ensures u.Registered(j) {
      assert t.Registered(j);
    }
    forall fd | fd in u.epoll ensures exists j :: 0 <= j < |u.peers| && u.peers[j].active && u.peers[j].fd == fd {
      var j :| 0 <= j < |t.peers| && t.peers[j].active && t.peers[j].fd == fd;
      assert u.peers[j].active && u.peers[j].fd == fd;
    }
    forall j, k | 0 <= j < k < |u.peers| && u.peers[j].active && u.peers[k].active
      ensures Apart(u.peers[j], u.peers[k])
    {
      assert Apart(t.peers[j], t.peers[k]);
    }
  }

  /** Addresses the relay can compare: of a known family and of the full length of that family. */
  predicate Comparable(a: Address) {
    (a.Inet? && a.length >= 16) || (a.Inet6? && a.length >= 28)
  }

  /** What identifies a client: family, address, port and, for the second family, the scope. */
  function Endpoint(a: Address): (bool, nat, nat, nat) {
    match a
    case Inet(ip, port, _) => (false, ip, port, 0)
    case Inet6(ip, port, scope, _, _) => (true, ip, port, scope)
    case Other(_, _) => (false, 0, 0, 0)
  }

  /** Two addresses are the same client exactly if both are comparable and have the same endpoint. */
  lemma SameClientIff(a: Address, b: Address)
    ensures SockaddrEqual(a, b) <==> Comparable(a) && Comparable(b) && Endpoint(a) == Endpoint(b)
  {
  }

  /**
    A datagram from a client that has a mapping only marks it as seen now; from another client, it gets the first free
    slot under a new registration if there is one and the system gives a socket; nothing else ever changes.
   */
  lemma ArrivalServes(t: Table, client: Address, now: nat, socket: int, added: bool, i: nat)
    requires t.Valid() && i < |t.peers|
    ensures var u := Act(t, DoArrive(client, now, socket, added));
            var known := exists j ::
                0 <= j < |t.peers| && t.peers[j].active && SockaddrEqual(t.peers[j].client, client);
            var created := !known && socket >= 0 && socket !in t.epoll && added;
            var first := !t.peers[i].active && forall j :: 0 <= j < i ==> t.peers[j].active;
            && |u.peers| == |t.peers|
            && u.peers[i].generation == (if created && first then NextGeneration(t.peers[i].generation)
                                         else t.peers[i].generation)
            && (if t.peers[i].active then
                  u.peers[i] == if !SockaddrEqual(t.peers[i].client, client) then t.peers[i]
                                else t.peers[i].(lastSeen := now)
                else if created && first then
                  && u.peers[i].active && u.peers[i].client == client && u.peers[i].fd == socket
                  && u.peers[i].lastSeen == now && socket in u.epoll
                else u.peers[i] == t.peers[i])
  {
    var found := Find(t.peers, client, 0);
    if found < |t.peers| && t.peers[i].active && SockaddrEqual(t.peers[i].client, client) {
      OneMapping(t, found, i, client);
    }
  }

  lemma OneMapping(t: Table, i: nat, j: nat, client: Address)
    requires t.Valid() && i < |t.peers| && j < |t.peers| && t.peers[i].active && t.peers[j].active
    requires SockaddrEqual(t.peers[i].client, client) && SockaddrEqual(t.peers[j].client, client)
    ensures i == j
  {
    SameClientIff(t.peers[i].client, client);
    SameClientIff(t.peers[j].client, client);
    SameClientIff(t.peers[i].client, t.peers[j].client);
    SameClientIff(t.peers[j].client, t.peers[i].client);
    ActiveApart(t, i, j);
  }

  lemma ActiveApart(t: Table, i: nat, j: nat)
    requires t.Valid() && i < |t.peers| && j < |t.peers| && t.peers[i].active && t.peers[j].active
    ensures i == j || Apart(t.peers[i], t.peers[j]) || Apart(t.peers[j], t.peers[i])
  {
    if i < j { assert Apart(t.peers[i], t.peers[j]); }
    if j < i { assert Apart(t.peers[j], t.peers[i]); }
  }

  /** In every reachable state active mappings have distinct clients and distinct registered sockets. */
  lemma {:induction false} ReachableIsValid(n: nat, actions: seq<Action>)
    requires n <= MAX_PEERS
    ensures Run(Initial(n), actions).Valid()
  {
    if actions != [] {
      ReachableIsValid(n, actions[..|actions| - 1]);
      ActKeeps(Run(Initial(n), actions[..|actions| - 1]), actions[|actions| - 1]);
    }
  }

  // ----- One batch of events -----

  function Arrivals(actions: seq<Action>): nat {
    if actions == [] then 0
    else Arrivals(actions[..|actions| - 1]) + if actions[|actions| - 1].DoArrive? then 1 else 0
  }

  /** The generation `k` creations after `g`. */
  function Skip(g: uint32, k: nat): uint32
    requires 0 < g
  {
    (g - 1 + k) % (TWO_32 - 1) + 1
  }

  lemma SkipNext(g: uint32, k: nat)
    requires 0 < g
    ensures NextGeneration(Skip(g, k)) == Skip(g, k + 1) && Skip(g, 0) == g
  {
  }

  lemma SkipNeverReturns(g: uint32, k: nat)
    requires 0 < g && 0 < k <= MAX_BATCH
    ensures Skip(g, k) != g
  {
  }

  /** Slot `i` still holds the mapping it had in `t`, or was closed, or was reused at most `n` times. */
  ghost predicate SlotSince(t: Table, u: Table, i: nat, n: nat)
    requires i < |t.peers| == |u.peers| && t.Valid() && t.peers[i].active
  {
    var p, q := t.peers[i], u.peers[i];
    || (q.generation == p.generation && (q.active ==> q.serial == p.serial && q.client == p.client))
    || ((q.active ==> |t.owners| <= q.serial) && exists k :: 1 <= k <= n && q.generation == Skip(p.generation, k))
  }

  lemma {:induction false} SlotsSince(t: Table, actions: seq<Action>, i: nat)
    requires t.Valid() && i < |t.peers| && t.peers[i].active
    ensures |Run(t, actions).peers| == |t.peers| && |t.owners| <= |Run(t, actions).owners|
    ensures SlotSince(t, Run(t, actions), i, Arrivals(actions))
  {
    if actions != [] {
      var init, a := actions[..|actions| - 1], actions[|actions| - 1];
      SlotsSince(t, init, i);
      var u, n := Run(t, init), Arrivals(init);
      var g := t.peers[i].generation;
      var v := Act(u, a);
      if v.peers[i].generation != u.peers[i].generation {
        assert v.peers[i].generation == NextGeneration(u.peers[i].generation) && a.DoArrive?;
        SkipNext(g, 0);
        var k: nat :| k <= n && u.peers[i].generation == Skip(g, k);
        SkipNext(g, k);
        assert 1 <= k + 1 <= n + 1 && v.peers[i].generation == Skip(g, k + 1);
      }
    }
  }

  /**
    Within a batch that begins in any valid state, an event taken at its start is delivered exactly to the slot that
    registered it, and only while that slot still holds the same mapping, however mappings are closed and created
    meanwhile.
   */
  lemma DeliveredIffStillThere(t: Table, actions: seq<Action>, fd: int, i: nat)
    requires t.Valid() && fd in t.epoll && Arrivals(actions) <= MAX_BATCH
    ensures Delivers(Run(t, actions), t.epoll[fd], i) <==>
              && i < |t.peers| && t.peers[i].active && t.peers[i].fd == fd
              && i < |Run(t, actions).peers| && Run(t, actions).peers[i].active
              && Run(t, actions).peers[i].serial == t.peers[i].serial
  {
    var j := RegisteredSlot(t, fd);
    var g := t.peers[j].generation;
    forall k | 1 <= k <= Arrivals(actions) ensures Skip(g, k) != g {
      SkipNeverReturns(g, k);
    }
    SlotsSince(t, actions, j);
    if i < |t.peers| && t.peers[i].active { ActiveApart(t, i, j); }
  }

  /** A reply read there therefore goes to the client for whom that mapping was made. */
  lemma EventsReachTheirMapping(t: Table, actions: seq<Action>, fd: int, i: nat)
    requires t.Valid() && fd in t.epoll && Arrivals(actions) <= MAX_BATCH
    requires Delivers(Run(t, actions), t.epoll[fd], i)
    ensures i < |t.peers| && t.peers[i].active && t.peers[i].fd == fd
    ensures var q := Run(t, actions).peers[i];
            q.serial == t.peers[i].serial < |t.owners| && q.client == t.owners[q.serial]
  {
    DeliveredIffStillThere(t, actions, fd, i);
    SlotsSince(t, actions, i);
    assert t.Registered(i);
  }

  /** Every registered socket belongs to an active slot whose number and generation its event word carries. */
  lemma RegisteredSlot(t: Table, fd: int) returns (j: nat)
    requires t.Valid() && fd in t.epoll
    ensures j < |t.peers| && t.peers[j].active && t.peers[j].fd == fd && t.Registered(j)
    ensures t.epoll[fd] % TWO_32 == j + 1 && t.epoll[fd] / TWO_32 % TWO_32 == t.peers[j].generation
  {
    j :| 0 <= j < |t.peers| && t.peers[j].active && t.peers[j].fd == fd;
    assert t.Registered(j);
    TokenUnpacks(t.peers[j].generation, j);
  }
}
