/** The run-length framing of the relay's data-saving mode: round trip, size bound and optimality. */
module Rle {
  import opened Bytes

  const RAW: byte := 0
  const PACKED: byte := 1
  const MAX_RUN: nat := 255

  // ----- The format -----

  /** The bytes that a list of (count, value) pairs stands for; `None` if the list is malformed. */
  function Unpack(pairs: seq<byte>): Option<seq<byte>> {
    if pairs == [] then Some([])
    else if |pairs| == 1 || pairs[0] == 0 then None
    else
      match Unpack(pairs[2..])
      case None => None
      case Some(rest) => Some(Repeat(pairs[1], pairs[0]) + rest)
  }

  function Repeat(value: byte, count: nat): (s: seq<byte>)
    ensures |s| == count && forall i :: 0 <= i < count ==> s[i] == value
  {
    seq(count, _ => value)
  }

  /** What a frame means to the decoder, before its output limit is applied. */
  function Meaning(frame: seq<byte>): Option<seq<byte>> {
    if frame == [] then None
    else if frame[0] == RAW then Some(frame[1..])
    else if frame[0] != PACKED || Unpack(frame[1..]) == Some([]) then None
    else Unpack(frame[1..])
  }

  function Decode(frame: seq<byte>, capacity: nat): Option<seq<byte>> {
    match Meaning(frame)
    case Some(data) => if |data| <= capacity then Some(data) else None
    case None => None
  }

  /** Length of the run at the start of `data`, at most `MAX_RUN`. */
  function RunLength(data: seq<byte>): (n: nat)
    requires data != []
    ensures 1 <= n <= |data| && n <= MAX_RUN
  {
    RunFrom(data, 1)
  }

  function RunFrom(data: seq<byte>, n: nat): (r: nat)
    requires 1 <= n <= |data| && n <= MAX_RUN
    ensures n <= r <= |data| && r <= MAX_RUN
    decreases |data| - n
  {
    if n < |data| && n < MAX_RUN && data[n] == data[0] then RunFrom(data, n + 1) else n
  }

  /** The pairs of the greedy scan. */
  function Pack(data: seq<byte>): seq<byte> {
    if data == [] then [] else [RunLength(data) as byte, data[0]] + Pack(data[RunLength(data)..])
  }

  /** How many maximal runs of at most `MAX_RUN` bytes the data has. */
  function Runs(data: seq<byte>): nat {
    if data == [] then 0 else 1 + Runs(data[RunLength(data)..])
  }

  /** The frame of a datagram: packed exactly when that is no longer than the raw form. */
  function Encode(data: seq<byte>): (frame: seq<byte>) {
    if data == [] || 2 * Runs(data) > |data| then [RAW] + data else [PACKED] + Pack(data)
  }

  // ----- Laws -----

  /** A run holds one value throughout and ends at a different value, the limit or the end. */
  lemma {:induction false} RunIsMaximal(data: seq<byte>, n: nat)
    requires 1 <= n <= |data| && n <= MAX_RUN
    requires forall i :: 0 <= i < n ==> data[i] == data[0]
    ensures var r := RunFrom(data, n);
            && (forall i :: 0 <= i < r ==> data[i] == data[0])
            && (r < |data| && r < MAX_RUN ==> data[r] != data[0])
    decreases |data| - n
  {
    if n < |data| && n < MAX_RUN && data[n] == data[0] {
      RunIsMaximal(data, n + 1);
    }
  }

  lemma {:induction false} PackLength(data: seq<byte>)
    ensures |Pack(data)| == 2 * Runs(data)
    decreases |data|
  {
    if data != [] {
      PackLength(data[RunLength(data)..]);
    }
  }

  lemma {:induction false} UnpackPack(data: seq<byte>)
    ensures Unpack(Pack(data)) == Some(data)
    decreases |data|
  {
    if data != [] {
      var n := RunLength(data);
      UnpackPack(data[n..]);
      UnpackPair(n as byte, data[0], Pack(data[n..]));
      RunFirst(data);
    }
  }

  lemma RunFirst(data: seq<byte>)
    requires data != []
    ensures data == Repeat(data[0], RunLength(data)) + data[RunLength(data)..]
  {
    RunIsMaximal(data, 1);
  }

  lemma UnpackPair(count: byte, value: byte, rest: seq<byte>)
    requires count != 0 && Unpack(rest).Some?
    ensures Unpack([count, value] + rest) == Some(Repeat(value, count) + Unpack(rest).value)
  {
    assert ([count, value] + rest)[2..] == rest;
  }

  /** Every datagram within the decoder's limit comes back, and the frame is at most one byte longer. */
  lemma RoundTrip(data: seq<byte>, capacity: nat)
    ensures |Encode(data)| <= |data| + 1
    ensures Decode(Encode(data), capacity) == if |data| <= capacity then Some(data) else None
  {
    UnpackPack(data);
    PackLength(data);
    if data == [] || 2 * Runs(data) > |data| {
      assert Encode(data)[1..] == data;
    } else {
      assert Encode(data)[1..] == Pack(data);
    }
  }

  /** Dropping a leading byte never adds a run. */
  lemma {:induction false} RunsOfTail(data: seq<byte>)
    requires data != []
    ensures Runs(data[1..]) <= Runs(data)
    decreases |data|
  {
    var n := RunLength(data);
    RunIsMaximal(data, 1);
    if n > 1 {
      var tail := data[1..];
      var m := RunLength(tail);
      RunIsMaximal(tail, 1);
      assert tail[0] == data[0];
      if m < n {
        assert m < |tail| ==> tail[m] == data[m + 1];
        assert m == n - 1;
        assert tail[m..] == data[n..];
      } else {
        assert n < |data| ==> tail[n - 1] == data[n];
        assert m == n;
        assert tail[m..] == data[n..][1..];
        RunsOfTail(data[n..]);
      }
    }
  }

  lemma {:induction false} RunsOfSuffix(data: seq<byte>, k: nat)
    requires k <= |data|
    ensures Runs(data[k..]) <= Runs(data)
    decreases k
  {
    if k == 0 {
      assert data[k..] == data;
    } else {
      RunsOfTail(data);
      RunsOfSuffix(data[1..], k - 1);
      assert data[1..][k - 1..] == data[k..];
    }
  }

  /** No list of pairs for `data` has fewer pairs than the greedy scan. */
  lemma {:induction false} GreedyIsMinimal(pairs: seq<byte>, data: seq<byte>)
    requires Unpack(pairs) == Some(data)
    ensures 2 * Runs(data) <= |pairs|
    decreases |pairs|
  {
    if pairs != [] {
      var k: nat := pairs[0];
      var rest := Unpack(pairs[2..]).value;
      GreedyIsMinimal(pairs[2..], rest);
      HeadRun(k, pairs[1], rest, data);
      RunsOfSuffix(rest, RunLength(data) - k);
    }
  }

  /** A block of equal bytes at the front is never longer than the run the greedy scan takes. */
  lemma HeadRun(k: nat, value: byte, rest: seq<byte>, data: seq<byte>)
    requires 1 <= k <= MAX_RUN && data == Repeat(value, k) + rest
    ensures k <= RunLength(data) && rest[RunLength(data) - k..] == data[RunLength(data)..]
  {
    var n := RunLength(data);
    RunIsMaximal(data, 1);
    assert data[0] == value && forall i :: 0 <= i < k ==> data[i] == value;
    assert k <= n;
  }

  /** No frame that any decoder limit accepts for the same datagram is shorter than the encoder's. */
  lemma EncodeIsOptimal(data: seq<byte>, frame: seq<byte>, capacity: nat)
    requires Decode(frame, capacity) == Some(data)
    ensures |Encode(data)| <= |frame|
  {
    PackLength(data);
    if frame[0] == PACKED {
      GreedyIsMinimal(frame[1..], data);
    }
  }

  // ----- The buffer code -----

  /** The inner scan of the encoder. */
  method ScanRun(input: seq<byte>, start: nat) returns (count: nat)
    requires start < |input|
    ensures count == RunLength(input[start..]) && start + count <= |input|
    ensures input[start + count - 1] == input[start] && input[start..][count..] == input[start + count..]
  {
    var index := start;
    count := 1;
    ghost var left := input[start..];
    while index + 1 < |input| && input[index] == input[index + 1] && count < MAX_RUN
      invariant index == start + count - 1 && index < |input| && 1 <= count <= MAX_RUN
      invariant forall i :: 0 <= i < count ==> left[i] == left[0]
      invariant RunFrom(left, count) == RunLength(left)
    {
      assert left[count] == input[index + 1] && left[count - 1] == input[index];
      count := count + 1;
      index := index + 1;
    }
    assert index + 1 < |input| ==> left[count] == input[index + 1] && left[count - 1] == input[index];
  }

  method WritePair(output: array<byte>, cursor: nat, count: byte, value: byte)
    requires cursor + 2 <= output.Length
    modifies output
    ensures output[..cursor + 2] == old(output[..cursor]) + [count, value]
  {
    output[cursor] := count;
    output[cursor + 1] := value;
  }

  method WriteRaw(output: array<byte>, input: seq<byte>)
    requires |input| < output.Length
    modifies output
    ensures output[..|input| + 1] == [RAW] + input
  {
    output[0] := RAW;
    forall i | 1 <= i <= |input| { output[i] := input[i - 1]; }
  }

  /** Encodes into `output`; refuses only what cannot gain the marker byte within `capacity`. */
  method RleEncode(input: seq<byte>, output: array<byte>, capacity: nat) returns (ok: bool, length: nat)
    requires capacity <= output.Length
    modifies output
    ensures ok <==> |input| < capacity
    ensures ok ==> length <= capacity && output[..length] == Encode(input)
  {
    if |input| >= capacity { return false, 0; }
    if |input| == 0 {
      output[0] := RAW;
      return true, 1;
    }
    output[0] := PACKED;
    var cursor, index := 1, 0;
    EmitStart(output[..1], input);
    while index < |input|
      invariant index <= |input| && 1 <= cursor <= |input| + 1
      invariant Emitted(output[..cursor], input[index..], input)
    {
      var count := ScanRun(input, index);
      EmitStep(output[..cursor], input[index..], input);
      if cursor + 2 > |input| + 1 || cursor + 2 > capacity {
        WriteRaw(output, input);
        return true, |input| + 1;
      }
      WritePair(output, cursor, count as byte, input[index + count - 1]);
      cursor := cursor + 2;
      index := index + count;
    }
    EmitEnd(output[..cursor], input[index..], input);
    return true, cursor;
  }

  /** What is emitted so far, completed by the pairs of the rest, is the packed frame. */
  ghost predicate Emitted(done: seq<byte>, left: seq<byte>, input: seq<byte>) {
    && done + Pack(left) == [PACKED] + Pack(input)
    && |done| + 2 * Runs(left) == 1 + 2 * Runs(input)
  }

  lemma EmitStart(done: seq<byte>, input: seq<byte>)
    requires done == [PACKED]
    ensures Emitted(done, input[0..], input)
  {
    assert input[0..] == input;
  }

  lemma EmitStep(done: seq<byte>, left: seq<byte>, input: seq<byte>)
    requires left != [] && Emitted(done, left, input)
    ensures Emitted(done + [RunLength(left) as byte, left[0]], left[RunLength(left)..], input)
    ensures |done| + 1 <= 2 * Runs(input)
  {
    Associate(done, [RunLength(left) as byte, left[0]], Pack(left[RunLength(left)..]));
  }

  lemma EmitEnd(done: seq<byte>, left: seq<byte>, input: seq<byte>)
    requires left == [] && Emitted(done, left, input)
    ensures done == [PACKED] + Pack(input) && |done| == 1 + 2 * Runs(input)
  {
  }

  /** Decodes into `output`; whatever the input bytes, a success stays within `capacity`. */
  method RleDecode(input: seq<byte>, output: array<byte>, capacity: nat) returns (ok: bool, length: nat)
    requires capacity <= output.Length
    modifies output
    ensures ok <==> Decode(input, capacity).Some?
    ensures ok ==> length <= capacity && output[..length] == Decode(input, capacity).value
  {
    if |input| < 1 { return false, 0; }
    if input[0] == RAW {
      if |input| - 1 > capacity { return false, 0; }
      forall i | 0 <= i < |input| - 1 { output[i] := input[1 + i]; }
      assert output[..|input| - 1] == input[1..];
      return true, |input| - 1;
    }
    if input[0] != PACKED { return false, 0; }
    if (|input| - 1) % 2 != 0 {
      OddIsMalformed(input[1..]);
      return false, 0;
    }
    var cursor: nat, index := 0, 1;
    assert Unpack(input[1..]).Some? ==> [] + Unpack(input[1..]).value == Unpack(input[1..]).value;
    while index < |input|
      invariant 1 <= index <= |input| && (index - 1) % 2 == 0 && cursor <= capacity
      invariant Unpack(input[1..]) == Prepend(output[..cursor], Unpack(input[index..]))
    {
      var count: nat := input[index];
      ghost var left := input[index..];
      assert left[0] == input[index] && left[1] == input[index + 1] && left[2..] == input[index + 2..];
      if count == 0 || count > capacity - cursor { return false, 0; }
      ghost var done := output[..cursor];
      forall i | cursor <= i < cursor + count { output[i] := input[index + 1]; }
      assert output[..cursor + count] == done + Repeat(input[index + 1], count);
      PrependTwice(done, Repeat(input[index + 1], count), Unpack(left[2..]));
      cursor := cursor + count;
      index := index + 2;
    }
    assert input[index..] == [] && output[..cursor] + [] == output[..cursor];
    return cursor > 0, cursor;
  }

  function Prepend(done: seq<byte>, rest: Option<seq<byte>>): Option<seq<byte>> {
    match rest
    case None => None
    case Some(data) => Some(done + data)
  }

  lemma PrependTwice(a: seq<byte>, b: seq<byte>, rest: Option<seq<byte>>)
    ensures Prepend(a, Prepend(b, rest)) == Prepend(a + b, rest)
  {
    if rest.Some? { Associate(a, b, rest.value); }
  }

  lemma {:induction false} OddIsMalformed(pairs: seq<byte>)
    requires |pairs| % 2 == 1
    ensures Unpack(pairs) == None
    decreases |pairs|
  {
    if |pairs| > 1 { OddIsMalformed(pairs[2..]); }
  }

  // ----- The format, frame by frame -----

  /**
    What the format says: after a zero byte the datagram as it is, after a one byte pairs of a count and a value. Any
    other first byte, no pairs, half a pair or a count of zero is malformed.
   */
  lemma FrameMeans(data: seq<byte>, count: byte, value: byte, marker: byte)
    ensures Meaning([0] + data) == Some(data)
    ensures Meaning([1, count, value]) == if count == 0 then None else Some(Repeat(value, count))
    ensures Meaning([]) == None && Meaning([1]) == None && (marker > 1 ==> Meaning([marker] + data) == None)
    ensures |data| % 2 == 1 ==> Meaning([1] + data) == None
  {
    assert ([0] + data)[1..] == data && ([1] + data)[1..] == data;
    OnePair(count, value);
    assert [1, count, value][1..] == [count, value];
    if |data| % 2 == 1 { OddIsMalformed(data); }
  }

  lemma OnePair(count: byte, value: byte)
    ensures Unpack([count, value]) == if count == 0 then None else Some(Repeat(value, count))
  {
    if count != 0 {
      UnpackPair(count, value, []);
      assert [count, value] + [] == [count, value] && Repeat(value, count) + [] == Repeat(value, count);
    }
  }

  /** Pairs after one another mean their runs after one another, and are malformed if any of them is. */
  lemma {:induction false} PairsConcatenate(p: seq<byte>, q: seq<byte>)
    requires |p| % 2 == 0
    ensures Unpack(p + q) == match Unpack(p) case None => None case Some(x) => Prepend(x, Unpack(q))
    decreases |p|
  {
    if p == [] {
      assert p + q == q;
      assert Unpack(q).Some? ==> [] + Unpack(q).value == Unpack(q).value;
    } else {
      assert (p + q)[2..] == p[2..] + q;
      PairsConcatenate(p[2..], q);
      if Unpack(p[2..]).Some? { PrependTwice(Repeat(p[1], p[0]), Unpack(p[2..]).value, Unpack(q)); }
    }
  }

  /** A datagram of one repeated byte is three bytes, up to the longest run; one without repetitions stays as it is. */
  lemma UniformFrame(value: byte, count: byte)
    requires count >= 2
    ensures Encode(Repeat(value, count)) == [1, count, value]
  {
    var data := Repeat(value, count);
    RunIsMaximal(data, 1);
    assert RunLength(data) == |data|;
    assert data[|data|..] == [];
    assert Pack([]) == [] && Runs([]) == 0;
    assert Pack(data) == [count, value] + [];
  }

  lemma VariedFrame(data: seq<byte>)
    requires forall i :: 0 < i < |data| ==> data[i - 1] != data[i]
    ensures Encode(data) == [0] + data
  {
    VariedRuns(data);
  }

  lemma {:induction false} VariedRuns(data: seq<byte>)
    requires forall i :: 0 < i < |data| ==> data[i - 1] != data[i]
    ensures Runs(data) == |data|
    decreases |data|
  {
    if data != [] {
      RunIsMaximal(data, 1);
      assert RunLength(data) == 1;
      VariedRuns(data[1..]);
    }
  }

  // ----- A pair of relays -----

  datatype Mode = Normal | DataSaving | HighSpeed
  datatype Family = V4 | V6

  function DatagramLimit(family: Family): nat {
    if family.V6? then 65527 else 65507
  }

  /** A relay encodes on its way in from clients unless it is the back end, which decodes there. */
  method TransformPacket(mode: Mode, framingBack: bool, fromClient: bool, input: seq<byte>,
                         output: array<byte>, capacity: nat) returns (payload: Option<seq<byte>>)
    requires capacity <= output.Length
    modifies output
    ensures payload == Transformed(mode, framingBack, fromClient, input, capacity)
  {
    if !mode.DataSaving? { return if |input| <= capacity then Some(input) else None; }
    var ok, length;
    if fromClient != framingBack {
      ok, length := RleEncode(input, output, capacity);
    } else {
      ok, length := RleDecode(input, output, capacity);
    }
    return if ok then Some(output[..length]) else None;
  }

  function Transformed(mode: Mode, framingBack: bool, fromClient: bool, input: seq<byte>,
                       capacity: nat): Option<seq<byte>> {
    if !mode.DataSaving? then (if |input| <= capacity then Some(input) else None)
    else if fromClient != framingBack then (if |input| < capacity then Some(Encode(input)) else None)
    else Decode(input, capacity)
  }

  /**
    A front and a back relay in the same mode, in either direction: a datagram within both limits
    arrives unchanged, and what the second relay emits is always what the first one took in.
   */
  lemma RelayPair(mode: Mode, fromClient: bool, datagram: seq<byte>, near: Family, far: Family)
    ensures var middle := Transformed(mode, !fromClient, fromClient, datagram, DatagramLimit(near));
            && (|datagram| < DatagramLimit(near) ==>
                  middle.Some? && |middle.value| <= |datagram| + (if mode.DataSaving? then 1 else 0))
            && (middle.Some? ==>
                  Transformed(mode, fromClient, fromClient, middle.value, DatagramLimit(far))
                  == if |datagram| <= DatagramLimit(far) then Some(datagram) else None)
  {
    RoundTrip(datagram, DatagramLimit(far));
  }
}
