/** The partial-send loop of the relay's high-speed reply path. */
module ReplyBatch {
  import opened Bytes

  const MAX_DATAGRAM: nat := 65535
  const BATCH: nat := 256

  /** A received datagram; `length` is its true size, which may exceed what was stored. */
  datatype Datagram = Datagram(payload: seq<byte>, length: nat)
  datatype Metrics = Metrics(packetsOut: nat, bytesOut: nat, dropped: nat)

  /** What one `sendmmsg` call reports: a count, or a negative count with the reason for it. */
  datatype KernelReply = KernelReply(completed: int, interrupted: bool)
  type Kernel = nat -> KernelReply

  /** The messages that fit the client's datagram limit, in order. */
  function Sendable(batch: seq<Datagram>, limit: nat): seq<Datagram> {
    if batch == [] then []
    else
      var init, last := Sendable(batch[..|batch| - 1], limit), batch[|batch| - 1];
      if last.length > MAX_DATAGRAM || last.length > limit then init else init + [last]
  }

  /** A message is handed on if and only if it fits, and those handed on keep their order. */
  lemma {:induction false} SendableInOrder(a: seq<Datagram>, b: seq<Datagram>, d: Datagram, limit: nat)
    ensures Sendable([d], limit) == if d.length <= 65535 && d.length <= limit then [d] else []
    ensures Sendable(a + b, limit) == Sendable(a, limit) + Sendable(b, limit)
    decreases |b|
  {
    SendableLast([], d, limit);
    assert [] + [d] == [d];
    if b == [] {
      assert a + b == a;
    } else {
      var init, last := b[..|b| - 1], b[|b| - 1];
      SendableInOrder(a, init, d, limit);
      SendableLast(a + init, last, limit);
      SendableLast(init, last, limit);
      assert b == init + [last];
      Associate(a, init, [last]);
      var tail := if last.length <= 65535 && last.length <= limit then [last] else [];
      Associate(Sendable(a, limit), Sendable(init, limit), tail);
    }
  }

  lemma SendableLast(init: seq<Datagram>, last: Datagram, limit: nat)
    ensures Sendable(init + [last], limit)
         == Sendable(init, limit) + if last.length <= 65535 && last.length <= limit then [last] else []
  {
    assert (init + [last])[..|init|] == init;
    assert Sendable(init, limit) + [] == Sendable(init, limit);
  }

  /** How many of the first `k` messages were reported with their own length. */
  function Delivered(messages: seq<Datagram>, k: nat, reported: nat -> nat): nat
    requires k <= |messages|
  {
    if k == 0 then 0
    else Delivered(messages, k - 1, reported) + if reported(k - 1) == messages[k - 1].length then 1 else 0
  }

  /** The total length of those messages. */
  function DeliveredBytes(messages: seq<Datagram>, k: nat, reported: nat -> nat): nat
    requires k <= |messages|
  {
    if k == 0 then 0
    else DeliveredBytes(messages, k - 1, reported)
         + if reported(k - 1) == messages[k - 1].length then messages[k - 1].length else 0
  }

  /** When every message is reported with its own length, all count, each with its length. */
  lemma {:induction false} AllReported(messages: seq<Datagram>, k: nat, reported: nat -> nat)
    requires k < |messages| && forall i :: 0 <= i <= k ==> reported(i) == messages[i].length
    ensures Delivered(messages, k + 1, reported) == k + 1
    ensures DeliveredBytes(messages, k + 1, reported) == DeliveredBytes(messages, k, reported) + messages[k].length
  {
    if k > 0 { AllReported(messages, k - 1, reported); }
  }

  /**
    Sends the messages of `batch` that fit, resuming after partial sends.
    `wire` lists the messages the kernel completed, in order, and `calls` counts its invocations;
    `reported(k)` is the length it reports for message `k`.
   */
  method SendReplyBatch(batch: seq<Datagram>, limit: nat, kernel: Kernel, reported: nat -> nat, m: Metrics)
    returns (r: Metrics, wire: seq<Datagram>, refreshed: bool, calls: nat)
    ensures r.packetsOut + r.dropped == m.packetsOut + m.dropped + |batch|
    ensures wire <= Sendable(batch, limit)
    ensures r.packetsOut == m.packetsOut + Delivered(Sendable(batch, limit), |wire|, reported)
    ensures r.bytesOut == m.bytesOut + DeliveredBytes(Sendable(batch, limit), |wire|, reported)
    ensures refreshed <==> Sendable(batch, limit) != []
    ensures calls <= |Sendable(batch, limit)| + BATCH
    ensures |wire| < |Sendable(batch, limit)| ==> 0 < calls && kernel(calls - 1).completed <= 0
  {
    wire, refreshed, calls := [], false, 0;
    var valid;
    valid, r := Select(batch, limit, m);
    if |valid| == 0 { return; }
    refreshed := true;
    var sent, interrupted := 0, 0;
    while sent < |valid|
      invariant sent <= |valid| && interrupted < BATCH && wire == valid[..sent]
      invariant calls <= sent + interrupted
      invariant r.packetsOut + r.dropped + |valid| == m.packetsOut + m.dropped + |batch| + sent
      invariant r.packetsOut == m.packetsOut + Delivered(valid, sent, reported)
      invariant r.bytesOut == m.bytesOut + DeliveredBytes(valid, sent, reported)
      decreases |valid| - sent, BATCH - interrupted
    {
      var handed := valid[sent..];
      var reply := kernel(calls);
      calls := calls + 1;
      if reply.completed < 0 && reply.interrupted {
        interrupted := interrupted + 1;
        if interrupted < BATCH { continue; }
      }
      if reply.completed <= 0 {
        r := r.(dropped := r.dropped + (|valid| - sent));
        break;
      }
      // The kernel completes at most what it was handed.
      var completed := if reply.completed <= |handed| then reply.completed else |handed|;
      wire := wire + handed[..completed];
      r := Account(valid, sent, completed, reported, r);
      sent := sent + completed;
    }
  }

  /** Collects the messages that fit and counts the others as dropped. */
  method Select(batch: seq<Datagram>, limit: nat, m: Metrics) returns (valid: seq<Datagram>, r: Metrics)
    ensures valid == Sendable(batch, limit)
    ensures |valid| <= |batch| && r == m.(dropped := m.dropped + (|batch| - |valid|))
  {
    valid, r := [], m;
    for item := 0 to |batch|
      invariant valid == Sendable(batch[..item], limit)
      invariant |valid| <= item && r == m.(dropped := m.dropped + (item - |valid|))
    {
      assert batch[..item + 1][..item] == batch[..item];
      if batch[item].length > MAX_DATAGRAM || batch[item].length > limit {
        r := r.(dropped := r.dropped + 1);
        continue;
      }
      valid := valid + [batch[item]];
    }
    assert batch[..|batch|] == batch;
  }

  /** Counts each completed message as sent or, if its reported length is off, as dropped. */
  method Account(valid: seq<Datagram>, sent: nat, completed: nat, reported: nat -> nat, m: Metrics) returns (r: Metrics)
    requires sent + completed <= |valid|
    ensures r.packetsOut + r.dropped == m.packetsOut + m.dropped + completed
    ensures r.packetsOut - m.packetsOut
         == Delivered(valid, sent + completed, reported) - Delivered(valid, sent, reported)
    ensures r.bytesOut - m.bytesOut
         == DeliveredBytes(valid, sent + completed, reported) - DeliveredBytes(valid, sent, reported)
  {
    r := m;
    for item := 0 to completed
      invariant r.packetsOut + r.dropped == m.packetsOut + m.dropped + item
      invariant r.packetsOut - m.packetsOut
             == Delivered(valid, sent + item, reported) - Delivered(valid, sent, reported)
      invariant r.bytesOut - m.bytesOut
             == DeliveredBytes(valid, sent + item, reported) - DeliveredBytes(valid, sent, reported)
    {
      var index := sent + item;
      if reported(index) != valid[index].length {
        r := r.(dropped := r.dropped + 1);
      } else {
        r := r.(packetsOut := r.packetsOut + 1, bytesOut := r.bytesOut + reported(index));
      }
    }
  }
}
