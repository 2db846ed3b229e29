/** The few types every part of the model shares. */
module Basics {

  datatype Option<+T> = None | Some(value: T)

  datatype Result<+T, +E> = Ok(value: T) | Err(error: E)

  /** The machine's 64-bit words and addresses. Arithmetic on them is ordinary integer
      arithmetic: where the source wraps or saturates, the model says so. */
  type u64 = n: int | 0 <= n < 0x1_0000_0000_0000_0000 witness 0

  const U64_MAX: nat := 0xFFFF_FFFF_FFFF_FFFF

  type byte = n: int | 0 <= n < 256 witness 0

  /** `u64::saturating_add`. */
  function SaturatingAdd(a: nat, b: nat): nat {
    if a + b <= U64_MAX then a + b else U64_MAX
  }

  /** `u64::saturating_mul`. */
  function SaturatingMul(a: nat, b: nat): nat {
    if a * b <= U64_MAX then a * b else U64_MAX
  }

  function Min(a: int, b: int): int {
    if a <= b then a else b
  }

  function Max(a: int, b: int): int {
    if a >= b then a else b
  }

  /** `256` to the power `n`. */
  function Base(n: nat): nat {
    if n == 0 then 1 else 256 * Base(n - 1)
  }

  /** The value of little-endian bytes. */
  function LeValue(b: seq<byte>): (v: nat)
    ensures v < Base(|b|)
  {
    if b == [] then 0 else b[0] + 256 * LeValue(b[1..])
  }

  /** The value of `n` little-endian bytes at `off`, if they are there. */
  function ReadLe(b: seq<byte>, off: nat, n: nat): Option<nat> {
    if off + n <= |b| then Some(LeValue(b[off..off + n])) else None
  }

  /** `n` bytes that hold `value`, lowest first. */
  function Le(value: nat, n: nat): (b: seq<byte>)
    ensures |b| == n
  {
    if n == 0 then [] else [value % 256] + Le(value / 256, n - 1)
  }

  lemma {:induction false} LeRoundTrip(value: nat, n: nat)
    requires value < Base(n)
    ensures LeValue(Le(value, n)) == value
  {
    if n > 0 {
      LeRoundTrip(value / 256, n - 1);
      assert Le(value, n)[1..] == Le(value / 256, n - 1);
    }
  }

  lemma {:induction false} LeOfValue(b: seq<byte>)
    ensures Le(LeValue(b), |b|) == b
  {
    if b != [] {
      LeOfValue(b[1..]);
      LowestByte(b[0], LeValue(b[1..]));
      assert b == [b[0]] + b[1..];
    }
  }

  lemma LowestByte(low: byte, rest: nat)
    ensures (low + 256 * rest) % 256 == low && (low + 256 * rest) / 256 == rest
  {
  }

  const ZEROS: seq<byte> := [0, 0, 0, 0, 0, 0, 0, 0]

  lemma LittleValues(a: byte, b: byte)
    ensures LeValue([a, b, 0, 0, 0, 0, 0, 0]) == a + 256 * b && LeValue([a, 0, 0, 0]) == a && LeValue([a, b]) == a + 256 * b
  {
    assert [b, 0, 0, 0, 0, 0, 0, 0][1..] == [0, 0, 0, 0, 0, 0, 0];
    LeZeros([]);
    assert [a, b][1..] == [b];
    LeZeros([0]);
    LeZeros([0, 0]);
    LeZeros([0, 0, 0]);
    LeZeros([0, 0, 0, 0]);
    LeZeros([0, 0, 0, 0, 0]);
    assert [a, 0, 0, 0][1..] == [0, 0, 0];
    assert [a, b, 0, 0, 0, 0, 0, 0][1..] == [b, 0, 0, 0, 0, 0, 0];
    assert [b, 0, 0, 0, 0, 0, 0][1..] == [0, 0, 0, 0, 0, 0];
    LeZeros([0, 0, 0, 0, 0, 0]);
  }

  lemma {:induction false} LeZeros(z: seq<byte>)
    requires forall i :: 0 <= i < |z| ==> z[i] == 0
    ensures LeValue(z) == 0
  {
    if z != [] {
      LeZeros(z[1..]);
    }
  }

  lemma WordBounds()
    ensures Base(2) == 0x1_0000 && Base(4) == 0x1_0000_0000 && Base(8) == 0x1_0000_0000_0000_0000
  {
  }

  lemma QuotientIs(x: int, d: int, q: int, r: int)
    requires 0 <= r < d && x == q * d + r
    ensures x / d == q
  {
    var gap := x / d - q;
    assert x == x / d * d + x % d;
    assert gap * d == x / d * d - q * d;
    if gap != 0 {
      NotZeroTimes(gap, d);
    }
  }

  lemma NotZeroTimes(k: int, d: int)
    requires k != 0 && d > 0
    ensures k * d >= d || k * d <= -d
  {
    if k > 0 {
      AtLeastOnce(k, d);
    } else {
      AtLeastOnce(-k, d);
      NegatedTimes(k, d);
    }
  }

  lemma NegatedTimes(k: int, d: int)
    ensures (-k) * d == -(k * d)
  {
  }

  lemma {:induction false} AtLeastOnce(k: int, d: int)
    requires k > 0 && d > 0
    ensures k * d >= d
  {
    if k > 1 {
      AtLeastOnce(k - 1, d);
      OnceMore(k, d);
    }
  }

  lemma OnceMore(k: int, d: int)
    ensures k * d == (k - 1) * d + d
  {
  }

  /** Less than twice the modulus, a remainder is at most one subtraction away. */
  lemma ModOnce(x: int, n: int)
    requires 0 <= x < 2 * n
    ensures x % n == if x < n then x else x - n
  {
    if x < n {
      QuotientIs(x, n, 0, x);
    } else {
      QuotientIs(x, n, 1, x - n);
    }
    assert x == x / n * n + x % n;
  }
}
