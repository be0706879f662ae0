// The seeded generator of benchmarks/driver/parse.ts and the index its draws are scaled to.
module Mulberry {

  const TWO32: nat := 4294967296
  const INCREMENT: nat := 1831565813 // 0x6d2b79f5

  // One step of the state, on unsigned 32-bit words.
  function NextState(a: nat): nat {
    (a + INCREMENT) % TWO32
  }

  // The output mixing, with multiplication modulo 2^32.
  function Mix(a: bv32): bv32 {
    var t := (a ^ (a >> 15)) * (1 | a);
    var u := (t + (t ^ (t >> 7)) * (61 | t)) ^ t;
    u ^ (u >> 14)
  }

  // The numerator of the draw: the generator returns it divided by 2^32.
  function Output(a: nat): (u: nat)
    ensures u < TWO32
  {
    Mix((a % TWO32) as bv32) as nat
  }

  function StateAfter(seed: nat, n: nat): nat {
    if n == 0 then seed % TWO32 else NextState(StateAfter(seed, n - 1))
  }

  class Mulberry32 {
    var a: nat

    // The seed as an unsigned word.
    constructor (seed: int)
      ensures a == StateAfter(seed % TWO32, 0)
    {
      a := seed % TWO32;
    }

    method Next() returns (u: nat)
      modifies this
      ensures a == NextState(old(a)) && u == Output(a)
    {
      a := (a + INCREMENT) % TWO32;
      u := Output(a);
    }
  }

  lemma ModAdd(x: int, y: int)
    ensures (x % TWO32 + y) % TWO32 == (x + y) % TWO32
  {
    var q := x / TWO32;
    assert x == TWO32 * q + x % TWO32;
    ModShift(x % TWO32 + y, q);
  }

  lemma ModShift(x: int, q: int)
    ensures (x + TWO32 * q) % TWO32 == x % TWO32
  {
    var r := x % TWO32;
    assert x == TWO32 * (x / TWO32) + r;
    assert x + TWO32 * q == TWO32 * (x / TWO32 + q) + r;
  }

  // The state runs through an arithmetic progression.
  lemma {:induction false} StateIsLinear(seed: nat, n: nat)
    ensures StateAfter(seed, n) == (seed + n * INCREMENT) % TWO32
  {
    if n > 0 {
      StateIsLinear(seed, n - 1);
      ModAdd(seed + (n - 1) * INCREMENT, INCREMENT);
    }
  }

  // The increment is odd, so it has an inverse modulo 2^32.
  const INVERSE: nat := 3696798301

  lemma OddIncrement(k: int)
    ensures (k * INCREMENT) % TWO32 == 0 <==> k % TWO32 == 0
  {
    assert INCREMENT * INVERSE == 1 + TWO32 * 1576479847;
    if (k * INCREMENT) % TWO32 == 0 {
      var q := (k * INCREMENT) / TWO32;
      assert k * INCREMENT == TWO32 * q;
      assert k == TWO32 * (q * INVERSE - 1576479847 * k) by {
        assert (k * INCREMENT) * INVERSE == k * (INCREMENT * INVERSE);
        assert (TWO32 * q) * INVERSE == TWO32 * (q * INVERSE);
      }
      ModShift(0, q * INVERSE - 1576479847 * k);
    }
    if k % TWO32 == 0 {
      var q := k / TWO32;
      assert k * INCREMENT == TWO32 * (q * INCREMENT);
      ModShift(0, q * INCREMENT);
    }
  }

  lemma ModEqual(x: int, y: int)
    ensures x % TWO32 == y % TWO32 <==> (x - y) % TWO32 == 0
  {
    var p, q := x / TWO32, y / TWO32;
    assert x == TWO32 * p + x % TWO32 && y == TWO32 * q + y % TWO32;
    ModShift(x % TWO32 - y % TWO32, p - q);
  }

  // The state repeats after exactly 2^32 calls: two calls see the same state if and only if their
  // numbers agree modulo 2^32.
  lemma StateRepeatsIff(seed: nat, n: nat, m: nat)
    ensures StateAfter(seed, n) == StateAfter(seed, m) <==> n % TWO32 == m % TWO32
  {
    StateIsLinear(seed, n);
    StateIsLinear(seed, m);
    ModEqual(seed + n * INCREMENT, seed + m * INCREMENT);
    assert (seed + n * INCREMENT) - (seed + m * INCREMENT) == (n - m) * INCREMENT;
    OddIncrement(n - m);
    ModEqual(n, m);
  }

  // The index a draw u / 2^32 is scaled to: the draw times i + 1, rounded down.
  function Scaled(u: nat, i: nat): nat {
    u * (i + 1) / TWO32
  }

  // The least draw that is scaled to j or more: j * 2^32 / (i + 1), rounded up.
  function Least(j: nat, i: nat): nat {
    (j * TWO32 + i) / (i + 1)
  }

  lemma DivBounds(x: nat, d: nat, q: nat)
    requires d > 0
    ensures q <= x / d <==> q * d <= x
  {
    var e := x / d;
    assert x == d * e + x % d;
    if q <= e {
      assert q * d <= e * d;
    } else {
      assert q * d >= (e + 1) * d;
    }
  }

  // A draw is scaled to j or more exactly from Least(j, i) on.
  lemma ScaledFrom(u: nat, i: nat, j: nat)
    ensures Scaled(u, i) >= j <==> u >= Least(j, i)
  {
    DivBounds(u * (i + 1), TWO32, j);
    DivBounds(j * TWO32 + i, i + 1, u + 1);
    assert (u + 1) * (i + 1) == u * (i + 1) + (i + 1);
  }

  // Every index up to i is drawn by a run of raw values, whose length is 2^32 / (i + 1) rounded
  // down or up; no other index is drawn.
  lemma ScaledIsFair(i: nat, j: nat)
    requires j <= i
    ensures forall u: nat :: u < TWO32 ==>
      Scaled(u, i) <= i && (Scaled(u, i) == j <==> Least(j, i) <= u < Least(j + 1, i))
    ensures Least(j + 1, i) <= TWO32
    ensures TWO32 / (i + 1) <= Least(j + 1, i) - Least(j, i) <= (TWO32 + i) / (i + 1)
  {
    forall u: nat | u < TWO32
      ensures Scaled(u, i) <= i && (Scaled(u, i) == j <==> Least(j, i) <= u < Least(j + 1, i))
    {
      ScaledFrom(u, i, j);
      ScaledFrom(u, i, j + 1);
      DivBounds(u * (i + 1), TWO32, i + 1);
      assert u * (i + 1) < TWO32 * (i + 1);
    }
    LeastSpread(i, j);
  }

  lemma LeastSpread(i: nat, j: nat)
    requires j <= i
    ensures Least(j + 1, i) <= TWO32
    ensures TWO32 / (i + 1) <= Least(j + 1, i) - Least(j, i) <= (TWO32 + i) / (i + 1)
  {
    var d := i + 1;
    var x := j * TWO32 + i;
    assert (j + 1) * TWO32 + i == x + TWO32;
    SumOfQuotients(x, TWO32, d);
    assert (j + 1) * TWO32 <= d * TWO32;
    DivBounds((j + 1) * TWO32 + i, d, TWO32 + 1);
    assert (TWO32 + 1) * d == d * TWO32 + d;
    RoundUp(x, TWO32, i);
  }

  lemma SumOfQuotients(x: nat, y: nat, d: nat)
    requires d > 0
    ensures x / d + y / d <= (x + y) / d
  {
    var p, q := x / d, y / d;
    assert x == d * p + x % d && y == d * q + y % d;
    DivBounds(x + y, d, p + q);
    assert (p + q) * d == d * p + d * q;
  }

  lemma RoundUp(x: nat, y: nat, i: nat)
    ensures (x + y) / (i + 1) <= x / (i + 1) + (y + i) / (i + 1)
  {
    var d := i + 1;
    var p, q := x / d, (y + i) / d;
    assert x == d * p + x % d && y + i == d * q + (y + i) % d;
    DivBounds(x + y, d, p + q + 1);
    assert (p + q + 1) * d == d * p + d * q + d;
  }

  // The draw is the mix of the state, read as a number.
  lemma OutputIsMix(a: nat)
    requires a < TWO32
    ensures Output(a) == Mix(a as bv32) as nat
  {
  }

  // The first draws of the seeds 0, 1 and 42, as numerators over 2^32.
  lemma FirstDraws()
    ensures Mix(0x6d2b79f5) == 1144304738 && Mix(0xda56f3ea) == 1416247 && Mix(0x47826ddf) == 958946056
    ensures Mix(0x6d2b79f6) == 2693262067 && Mix(0xda56f3eb) == 11749833 && Mix(0x47826de0) == 2265367787
    ensures Mix(0x6d2b7a1f) == 2581720956 && Mix(0xda56f414) == 1925393290 && Mix(0x47826e09) == 3661312704
  {
  }
}
