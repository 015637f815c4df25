/** Big-endian integers in a byte buffer, read and written at a cursor.  The program computes
    with powers of 256; a byte that is written is the quotient taken modulo 256. */
module BigEndian {
  import opened Bytes

  function Pow256(k: nat): (r: nat)
    ensures r > 0
  {
    if k == 0 then 1 else 256 * Pow256(k - 1)
  }

  /** The reference meaning of a byte string as a number. */
  function Value(b: bytes): (r: nat)
    ensures r < Pow256(|b|)
  {
    if b == [] then 0 else 256 * Value(b[..|b| - 1]) + b[|b| - 1]
  }

  /** Of two bytes the first counts 256 times. */
  lemma ValueOfTwo(hi: byte, lo: byte)
    ensures Value([hi, lo]) == 256 * hi + lo
  {
    assert [hi, lo][..1] == [hi] && [hi][..0] == [];
  }

  /** The low `n` bytes of a number, most significant first. */
  function Digits(val: nat, n: nat): (r: bytes)
    ensures |r| == n
  {
    seq(n, i requires 0 <= i < n => (val / Pow256(n - 1 - i)) % 256)
  }

  lemma DivTwice(a: nat, b: nat)
    requires b > 0
    ensures (a / 256) / b == a / (256 * b)
  {
    var x, r := a / 256, a % 256;
    var y, s := x / b, x % b;
    assert a == 256 * (b * y + s) + r;
    assert 256 * (b * y) == (256 * b) * y;
    QuotientIs(a, 256 * b, y, 256 * s + r);
  }

  lemma MulMonotone(d: nat, x: nat, y: nat)
    requires x <= y
    ensures d * x <= d * y
  {
  }

  lemma QuotientIs(a: nat, d: nat, q: nat, r: nat)
    requires d > 0 && a == d * q + r && r < d
    ensures a / d == q
  {
    var p := a / d;
    assert d * p <= a < d * p + d;
    assert d * (p + 1) == d * p + d && d * (q + 1) == d * q + d;
    if p < q {
      MulMonotone(d, p + 1, q);
    } else if q < p {
      MulMonotone(d, q + 1, p);
    }
  }

  lemma DigitsSnoc(val: nat, n: nat)
    requires n > 0
    ensures Digits(val, n) == Digits(val / 256, n - 1) + [val % 256]
  {
    forall i | 0 <= i < n - 1 ensures Digits(val, n)[i] == Digits(val / 256, n - 1)[i] {
      assert Pow256(n - 1 - i) == 256 * Pow256(n - 2 - i);
      DivTwice(val, Pow256(n - 2 - i));
    }
    assert Pow256(0) == 1;
  }

  /** Reading what was written gives the number back, if it fits. */
  lemma {:induction false} ValueOfDigits(val: nat, n: nat)
    requires val < Pow256(n)
    ensures Value(Digits(val, n)) == val
    decreases n
  {
    if n > 0 {
      DigitsSnoc(val, n);
      ValueOfDigits(val / 256, n - 1);
      var b := Digits(val / 256, n - 1);
      assert (b + [val % 256])[..n - 1] == b;
    }
  }

  lemma LastByte(v: nat, last: byte)
    ensures (256 * v + last) / 256 == v && (256 * v + last) % 256 == last
  {
  }

  /** ... and writing what was read gives the bytes back. */
  lemma {:induction false} DigitsOfValue(b: bytes)
    ensures Digits(Value(b), |b|) == b
  {
    hide Digits;
    if b != [] {
      var init, last := b[..|b| - 1], b[|b| - 1];
      DigitsOfValue(init);
      LastByte(Value(init), last);
      DigitsSnoc(Value(b), |b|);
      assert b == init + [last];
    }
  }

  lemma {:induction false} ValueFold(b: bytes, i: nat)
    requires i < |b|
    ensures Value(b[..i + 1]) == 256 * Value(b[..i]) + b[i]
  {
    assert b[..i + 1][..i] == b[..i];
  }

  /** The sum over the digits that `buff_read` accumulates. */
  function Weighted(b: bytes, upTo: nat): nat
    requires upTo <= |b|
  {
    if upTo == 0 then 0 else Weighted(b, upTo - 1) + b[upTo - 1] * Pow256(|b| - upTo)
  }

  lemma Distribute(v: nat, c: nat, w: nat)
    ensures v * (256 * w) + c * w == (256 * v + c) * w
  {
  }

  lemma {:induction false} WeightedIsValue(b: bytes, i: nat)
    requires i <= |b|
    ensures Weighted(b, i) == Value(b[..i]) * Pow256(|b| - i)
    decreases i
  {
    if i == 0 {
      assert b[..0] == [];
    } else {
      WeightedIsValue(b, i - 1);
      ValueFold(b, i - 1);
      var v, w := Value(b[..i - 1]), Pow256(|b| - i);
      assert Pow256(|b| - (i - 1)) == 256 * w;
      Distribute(v, b[i - 1], w);
    }
  }

  /** `buff_read<T>` for a type of `n` bytes. */
  method BuffRead(buf: array<byte>, at: nat, n: nat) returns (result: nat)
    requires at + n <= buf.Length
    ensures result == Value(buf[at..at + n])
  {
    ghost var b := buf[at..at + n];
    result := 0;
    for i := 0 to n
      invariant result == Weighted(b, i)
    {
      assert b[i] == buf[at + i];
      result := result + buf[at + i] * Pow256(n - i - 1);
    }
    WeightedIsValue(b, n);
    assert b[..n] == b;
  }

  /** `buff_write<T>` for a type of `n` bytes. */
  method BuffWrite(buf: array<byte>, at: nat, n: nat, val: nat)
    requires n > 0 && at + n <= buf.Length
    modifies buf
    ensures buf[..] == Patched(old(buf[..]), at, Digits(val, n))
  {
    for i := 0 to n - 1
      invariant forall k :: 0 <= k < i ==> buf[at + k] == Digits(val, n)[k]
      invariant forall k :: 0 <= k < buf.Length && !(at <= k < at + i) ==> buf[k] == old(buf[k])
    {
      buf[at + i] := (val / Pow256(n - i - 1)) % 256;
    }
    buf[at + n - 1] := val % 256;
    assert Digits(val, n)[n - 1] == val % 256 by {
      assert Pow256(0) == 1;
    }
  }
}
