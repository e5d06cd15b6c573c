/** Bytes and the 32-bit big-endian integers used by every wire format of the system. */
module Bytes {
  type byte = x: int | 0 <= x < 256

  const TWO_32: nat := 0x1_0000_0000

  datatype Option<+T> = None | Some(value: T)

  /** The low 32 bits of `n`, most significant byte first. Larger values wrap as in `uint32(n)`. */
  function Be32(n: int): (b: seq<byte>)
    ensures |b| == 4
  {
    var q1 := n / 256;
    var q2 := q1 / 256;
    var q3 := q2 / 256;
    [q3 % 256, q2 % 256, q1 % 256, n % 256]
  }

  function FromBe32(b: seq<byte>): (n: nat)
    requires |b| == 4
    ensures n < TWO_32
  {
    var (b0: int, b1: int, b2: int, b3: int) := (b[0], b[1], b[2], b[3]);
    ((b0 * 256 + b1) * 256 + b2) * 256 + b3
  }

  lemma Be32RoundTrip(n: int)
    ensures FromBe32(Be32(n)) == n % TWO_32
  {
  }

  lemma Be32Small(n: nat)
    requires n < TWO_32
    ensures FromBe32(Be32(n)) == n
  {
    Be32RoundTrip(n);
    SmallModulus(n, TWO_32);
  }

  lemma SmallModulus(n: nat, m: nat)
    requires n < m
    ensures n % m == n
  {
  }

  lemma Be32Wraps(n: int)
    ensures Be32(n + TWO_32) == Be32(n)
  {
    assert (n + TWO_32) % TWO_32 == n % TWO_32;
    Be32Injective(n + TWO_32, n);
  }

  lemma FromBe32RoundTrip(b: seq<byte>)
    requires |b| == 4
    ensures Be32(FromBe32(b)) == b
  {
    var (b0: int, b1: int, b2: int, b3: int) := (b[0], b[1], b[2], b[3]);
    var n := FromBe32(b);
    DigitAt(b0, b1);
    DigitAt(b0 * 256 + b1, b2);
    DigitAt((b0 * 256 + b1) * 256 + b2, b3);
    assert n / 256 == (b0 * 256 + b1) * 256 + b2;
    assert n / 256 / 256 == b0 * 256 + b1;
  }

  lemma DigitAt(high: int, low: int)
    requires 0 <= low < 256
    ensures (high * 256 + low) / 256 == high && (high * 256 + low) % 256 == low
  {
  }

  /** The first byte counts most. */
  lemma BigEndian(a: byte, b: byte, c: byte, d: byte)
    ensures Be32(0x100_0000 * a + 0x1_0000 * b + 0x100 * c + d) == [a, b, c, d]
  {
    FromBe32RoundTrip([a, b, c, d]);
  }

  /** Equal encodings mean equal low 32 bits, and conversely. */
  lemma Be32Injective(m: int, n: int)
    ensures Be32(m) == Be32(n) <==> m % TWO_32 == n % TWO_32
  {
    Be32RoundTrip(m);
    Be32RoundTrip(n);
    if m % TWO_32 == n % TWO_32 {
      FromBe32RoundTrip(Be32(m));
      FromBe32RoundTrip(Be32(n));
    }
  }

  /** Concatenation of all members of `parts`, in order. */
  function Flatten<T>(parts: seq<seq<T>>): seq<T> {
    if parts == [] then [] else parts[0] + Flatten(parts[1..])
  }

  lemma {:induction false} FlattenAppend<T>(a: seq<seq<T>>, b: seq<seq<T>>)
    ensures Flatten(a + b) == Flatten(a) + Flatten(b)
  {
    if a == [] {
      assert a + b == b;
    } else {
      FlattenAppend(a[1..], b);
      assert (a + b)[0] == a[0] && (a + b)[1..] == a[1..] + b;
      Associate(a[0], Flatten(a[1..]), Flatten(b));
    }
  }

  lemma Associate<T>(a: seq<T>, b: seq<T>, c: seq<T>)
    ensures a + (b + c) == a + b + c
  {
  }

  lemma Regroup<T>(a: seq<T>, b: seq<T>, c: seq<T>, d: seq<T>)
    ensures (a + b) + (c + d) == a + (b + c) + d
  {
  }
}
