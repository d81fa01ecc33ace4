/** Bytes, powers of two and the result type shared by the binary codecs. */
module Bytes {

  type byte = x: int | 0 <= x < 256

  /** Outcome of reading a value off the front of a byte sequence. */
  datatype Parsed<+T> = Fail | Ok(value: T, rest: seq<byte>)

  datatype Option<+T> = None | Some(value: T)

  const TWO32: nat := 0x1_0000_0000
  const TWO63: nat := 0x8000_0000_0000_0000
  const TWO64: nat := 0x1_0000_0000_0000_0000

  lemma Assoc(a: seq<byte>, b: seq<byte>, c: seq<byte>)
    ensures a + b + c == a + (b + c)
  {
  }

  lemma BackAndThere(b: bv8)
    ensures (b as int) as bv8 == b
  {
  }

  function Pow2(n: nat): (p: nat)
    ensures p >= 1
  {
    if n == 0 then 1 else 2 * Pow2(n - 1)
  }

  lemma {:induction false} Pow2Add(m: nat, n: nat)
    ensures Pow2(m + n) == Pow2(m) * Pow2(n)
  {
    if n > 0 {
      Pow2Add(m, n - 1);
      assert Pow2(m + n) == 2 * Pow2(m + (n - 1));
      assert Pow2(m) * (2 * Pow2(n - 1)) == 2 * (Pow2(m) * Pow2(n - 1));
    }
  }

  lemma {:induction false} Pow2Monotone(m: nat, n: nat)
    requires m <= n
    ensures Pow2(m) <= Pow2(n)
  {
    if m < n { Pow2Monotone(m, n - 1); }
  }

  lemma Pow2Below32()
    ensures Pow2(7) == 128 && Pow2(8) == 256 && Pow2(16) == 0x1_0000 && Pow2(28) == 0x1000_0000
    ensures Pow2(31) == 0x8000_0000 && Pow2(32) == 0x1_0000_0000
  {
    var two := Pow2(1);
    assert two == 2 * Pow2(0) == 2;
    Pow2Add(1, 1);
    Pow2Add(2, 2);
    assert Pow2(4) == 16;
    Pow2Add(2, 1);
    Pow2Add(4, 3);
    Pow2Add(4, 4);
    assert Pow2(3) == 8 && Pow2(8) == 256;
    Pow2Add(8, 8);
    assert Pow2(16) == 0x1_0000;
    Pow2Add(16, 8);
    Pow2Add(24, 4);
    assert Pow2(28) == 0x1000_0000;
    Pow2Add(28, 3);
    Pow2Add(16, 16);
  }

  lemma Pow2Constants()
    ensures Pow2(7) == 128 && Pow2(8) == 256 && Pow2(28) == 0x1000_0000
    ensures Pow2(31) == 0x8000_0000 && Pow2(32) == TWO32
    ensures Pow2(63) == TWO63 && Pow2(64) == TWO64
  {
    Pow2Below32();
    Pow2Add(32, 31);
    Pow2Add(32, 32);
  }

  lemma FarFromZero(k: int, d: int)
    requires 0 < d && k != 0
    ensures d * k >= d || d * k <= -d
  {
    if k > 0 { assert d * (k - 1) >= 0; } else { assert d * (-1 - k) >= 0; }
  }

  /** Quotient and remainder are the only ones. */
  lemma DivisionIs(a: int, q: int, r: int, d: nat)
    requires 0 <= r < d && a == d * q + r
    ensures a / d == q && a % d == r
  {
    var p := a / d;
    assert d * p + a % d == a;
    assert d * (q - p) == d * q - d * p;
    if q != p { FarFromZero(q - p, d); }
  }
}
