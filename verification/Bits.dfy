// Shifts, masks and the bitwise operators on unsigned integers, bit by bit, and what they come
// to in arithmetic where the crate uses them.

module Bits {
  const U32: nat := 32

  function Pow2(k: nat): (p: nat)
    ensures p >= 1
  {
    if k == 0 then 1 else 2 * Pow2(k - 1)
  }

  // n << k and n >> k
  function Shl(n: nat, k: nat): nat {
    if k == 0 then n else 2 * Shl(n, k - 1)
  }

  function Shr(n: nat, k: nat): nat {
    if k == 0 then n else Shr(n / 2, k - 1)
  }

  // The bitwise operators on the low k bits of a and b.
  function Xor(a: nat, b: nat, k: nat): (x: nat)
    ensures x < Pow2(k)
  {
    if k == 0 then 0 else 2 * Xor(a / 2, b / 2, k - 1) + (a + b) % 2
  }

  function Or(a: nat, b: nat, k: nat): (x: nat)
    ensures x < Pow2(k)
  {
    if k == 0 then 0 else 2 * Or(a / 2, b / 2, k - 1) + (if a % 2 == 1 || b % 2 == 1 then 1 else 0)
  }

  function And(a: nat, b: nat, k: nat): (x: nat)
    ensures x < Pow2(k)
  {
    if k == 0 then 0 else 2 * And(a / 2, b / 2, k - 1) + (if a % 2 == 1 && b % 2 == 1 then 1 else 0)
  }

  lemma Pow2Of8()
    ensures Pow2(8) == 256
  {
    assert Pow2(4) == 16;
  }

  // ---------------------------------------------------------------------------
  // Exclusive or
  // ---------------------------------------------------------------------------

  lemma Parity(q: nat, a: nat, b: nat)
    ensures var x := 2 * q + (a + b) % 2;
      x / 2 == q && (x + b) % 2 == a % 2
  {
    var r, h := (a + b) % 2, (a + b) / 2;
    assert 2 * q + r + b == 2 * (q + b - h) + a;
  }

  lemma {:induction false} XorCancels(a: nat, b: nat, k: nat)
    requires a < Pow2(k)
    ensures Xor(Xor(a, b, k), b, k) == a
  {
    if k > 0 {
      Parity(Xor(a / 2, b / 2, k - 1), a, b);
      XorCancels(a / 2, b / 2, k - 1);
    }
  }

  // ---------------------------------------------------------------------------
  // Joining fields
  // ---------------------------------------------------------------------------

  lemma {:induction false} OrZero(a: nat, k: nat)
    requires a < Pow2(k)
    ensures Or(a, 0, k) == a
  {
    if k > 0 {
      OrZero(a / 2, k - 1);
    }
  }

  // A field that fits below a shifted one is joined to it by an or.
  lemma {:induction false} OrJoins(x: nat, low: nat, shift: nat, k: nat)
    requires low < Pow2(shift) && Shl(x, shift) + low < Pow2(k)
    ensures Or(Shl(x, shift), low, k) == Shl(x, shift) + low
    decreases shift
  {
    if shift == 0 {
      OrZero(x, k);
    } else if k > 0 {
      OrJoins(x, low / 2, shift - 1, k - 1);
    }
  }

  lemma {:induction false} ShlTwice(n: nat, j: nat, k: nat)
    ensures Shl(Shl(n, j), k) == Shl(n, j + k)
  {
    if k > 0 {
      ShlTwice(n, j, k - 1);
    }
  }

  lemma {:induction false} ShrTwice(n: nat, j: nat, k: nat)
    ensures Shr(Shr(n, j), k) == Shr(n, j + k)
    decreases j
  {
    if j > 0 {
      ShrTwice(n / 2, j - 1, k);
    }
  }

  lemma ShlValues(n: nat)
    ensures Shl(n, 6) == n * 0x40 && Shl(n, 8) == n * 0x100
    ensures Shl(n, 12) == n * 0x1000 && Shl(n, 16) == n * 0x10000 && Shl(n, 18) == n * 0x40000
  {
    ShlTwice(n, 3, 3);
    ShlTwice(n, 4, 4);
    ShlTwice(n, 6, 6);
    ShlTwice(n, 8, 8);
    ShlTwice(n, 12, 6);
    ShlBy(n);
    ShlBy(Shl(n, 3));
    ShlBy(Shl(n, 4));
    ShlBy6And8(Shl(n, 6));
    ShlBy6And8(Shl(n, 8));
    ShlBy6And8(Shl(n, 12));
  }

  lemma ShlBy(n: nat)
    ensures Shl(n, 3) == n * 8 && Shl(n, 4) == n * 16
  {
    assert Shl(n, 1) == n * 2;
    assert Shl(n, 2) == n * 4;
  }

  lemma ShlBy6And8(n: nat)
    ensures Shl(n, 6) == n * 0x40 && Shl(n, 8) == n * 0x100
  {
    ShlTwice(n, 3, 3);
    ShlTwice(n, 4, 4);
    ShlBy(n);
    ShlBy(Shl(n, 3));
    ShlBy(Shl(n, 4));
  }

  // ---------------------------------------------------------------------------
  // Taking fields out
  // ---------------------------------------------------------------------------

  lemma ShrBy(n: nat)
    ensures Shr(n, 2) == n / 4 && Shr(n, 4) == n / 16 && Shr(n, 6) == n / 0x40 && Shr(n, 8) == n / 0x100
  {
    ShrTwice(n, 2, 2);
    ShrTwice(n, 4, 2);
    ShrTwice(n, 6, 2);
    ShrBy2(n);
    ShrBy2(n / 4);
    ShrBy2(n / 16);
    ShrBy2(n / 0x40);
  }

  lemma ShrBy2(n: nat)
    ensures Shr(n, 2) == n / 4
  {
    assert Shr(n, 2) == Shr(n / 2, 1) == Shr(n / 2 / 2, 0);
  }

  lemma ShrValues(n: nat)
    ensures Shr(n, 0) == n && Shr(n, 6) == n / 0x40 && Shr(n, 8) == n / 0x100
    ensures Shr(n, 12) == n / 0x1000 && Shr(n, 16) == n / 0x10000 && Shr(n, 18) == n / 0x40000
  {
    ShrTwice(n, 6, 6);
    ShrTwice(n, 8, 8);
    ShrTwice(n, 12, 6);
    ShrBy(n);
    ShrBy(n / 0x40);
    ShrBy(n / 0x100);
    ShrBy(n / 0x1000);
  }

  lemma ModUnique(n: nat, m: nat, q: nat, r: nat)
    requires r < m && n == m * q + r
    ensures n % m == r
  {
    var k := n / m - q;
    assert n == m * (n / m) + n % m;
    assert m * k == r - n % m;
  }

  function Remainder(n: nat, p: nat): nat
    requires p > 0
  {
    n % p
  }

  lemma RemainderDouble(n: nat, p: nat)
    requires p > 0
    ensures Remainder(n, 2 * p) == 2 * Remainder(n / 2, p) + n % 2
    ensures Remainder(n, 1) == 0
  {
    var h := n / 2;
    var q, s := h / p, h % p;
    assert h == p * q + s;
    assert 2 * (p * q) == 2 * p * q;
    ModUnique(n, 2 * p, q, 2 * s + n % 2);
  }

  // Masking the low bits is taking the remainder.
  lemma {:induction false} AndMask(n: nat, bits: nat, k: nat)
    requires bits <= k
    ensures And(n, Pow2(bits) - 1, k) == Remainder(n, Pow2(bits))
  {
    hide And, Pow2, Remainder;
    Pow2Steps(bits);
    if bits == 0 {
      AndZero(n, k);
      RemainderDouble(n, 1);
    } else {
      var p := Pow2(bits - 1);
      AndStep(n, p, k);
      AndMask(n / 2, bits - 1, k - 1);
      RemainderDouble(n, p);
    }
  }

  lemma Pow2Steps(k: nat)
    ensures Pow2(k) == if k == 0 then 1 else 2 * Pow2(k - 1)
  {
  }

  lemma AndStep(n: nat, p: nat, k: nat)
    requires p > 0 && k > 0
    ensures And(n, 2 * p - 1, k) == 2 * And(n / 2, p - 1, k - 1) + n % 2
  {
    assert (2 * p - 1) / 2 == p - 1 && (2 * p - 1) % 2 == 1;
  }

  lemma {:induction false} AndZero(n: nat, k: nat)
    ensures And(n, 0, k) == 0
  {
    if k > 0 {
      AndZero(n / 2, k - 1);
    }
  }

  lemma MaskValues(n: nat)
    ensures And(n, 0x3F, U32) == n % 0x40 && And(n, 0xFF, U32) == n % 0x100
  {
    Pow2Of8();
    assert Pow2(3) == 8 && Pow2(6) == 0x40;
    AndMask(n, 6, U32);
    AndMask(n, 8, U32);
  }
}
