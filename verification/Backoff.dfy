/** The wait after a failed Infer call: doubled with every failure, capped, and computed in 64-bit arithmetic. */
module Backoffs {

  const SECOND := 1_000_000_000
  const MAX_BACKOFF := 60_000_000_000

  const TWO63 := 0x8000_0000_0000_0000
  const TWO64 := 0x1_0000_0000_0000_0000

  function Pow2(k: nat): nat { if k == 0 then 1 else 2 * Pow2(k - 1) }

  /** What int64 arithmetic leaves of a number. */
  function Wrap64(x: int): (r: int)
    ensures -TWO63 <= r < TWO63
  {
    (x + TWO63) % TWO64 - TWO63
  }

  /** The wait in nanoseconds after this many failures in a row; a timer that is not positive fires at once. */
  function Backoff(fails: nat): int {
    var backoff := Wrap64(Wrap64(Pow2(fails)) * SECOND);
    if backoff > MAX_BACKOFF then MAX_BACKOFF else backoff
  }

  // ---- Powers of two ----

  lemma PowStep(k: nat)
    ensures Pow2(0) == 1 && Pow2(k + 1) == 2 * Pow2(k)
  {
  }

  lemma {:induction false} PowAdd(j: nat, k: nat)
    ensures Pow2(j + k) == Pow2(j) * Pow2(k)
  {
    hide Pow2;
    PowStep(j);
    if j > 0 {
      PowAdd(j - 1, k);
      PowStep(j - 1);
      PowStep(j - 1 + k);
      var a, b := Pow2(j - 1), Pow2(k);
      assert 2 * (a * b) == (2 * a) * b;
    }
  }

  lemma {:induction false} PowPositive(k: nat)
    ensures Pow2(k) >= 1
  {
    if k > 0 {
      PowPositive(k - 1);
    }
  }

  lemma PowMonotone(j: nat, k: nat)
    requires j <= k
    ensures Pow2(j) <= Pow2(k)
  {
    PowAdd(j, k - j);
    PowPositive(j);
    PowPositive(k - j);
    var a, b := Pow2(j), Pow2(k - j);
    assert a * b >= a * 1;
  }

  lemma PowValues()
    ensures Pow2(5) == 32 && Pow2(6) == 64 && Pow2(9) == 512 && Pow2(33) == 0x2_0000_0000
    ensures Pow2(43) == 0x800_0000_0000 && Pow2(63) == TWO63 && Pow2(64) == TWO64
  {
    assert Pow2(5) == 32;
    assert Pow2(10) == 1024;
    PowAdd(10, 10);
    PowAdd(20, 10);
    PowAdd(30, 3);
    PowAdd(33, 10);
    PowAdd(43, 20);
  }

  // ---- Wrapping ----

  lemma WrapIs(x: int, turns: int, y: int)
    requires x == turns * TWO64 + y && -TWO63 <= y < TWO63
    ensures Wrap64(x) == y
  {
    assert x + TWO63 == turns * TWO64 + (y + TWO63);
    Remainder(x + TWO63, turns, y + TWO63);
  }

  lemma Remainder(x: int, turns: int, rest: int)
    requires x == turns * TWO64 + rest && 0 <= rest < TWO64
    ensures x % TWO64 == rest
  {
  }

  /** Wrapping early changes nothing. */
  lemma WrapEarly(x: int, c: int)
    ensures Wrap64(Wrap64(x) * c) == Wrap64(x * c)
  {
    var turns := (x + TWO63) / TWO64;
    var y := Wrap64(x);
    assert x == turns * TWO64 + y;
    var z := Wrap64(y * c);
    var more := (y * c + TWO63) / TWO64;
    assert y * c == more * TWO64 + z;
    assert x * c == (turns * c + more) * TWO64 + z by {
      assert (turns * TWO64 + y) * c == (turns * c) * TWO64 + y * c;
    }
    WrapIs(x * c, turns * c + more, z);
  }

  /** 10^9 is 5^9 times 2^9. */
  lemma ProductIs(k: nat)
    ensures Pow2(k) * SECOND == Pow2(k + 9) * 1953125
  {
    PowAdd(k, 9);
    PowValues();
    var p := Pow2(k);
    assert p * 512 * 1953125 == p * SECOND;
  }

  lemma BackoffOf(k: nat)
    ensures var b := Wrap64(Pow2(k + 9) * 1953125);
            Backoff(k) == if b > MAX_BACKOFF then MAX_BACKOFF else b
  {
    hide Wrap64;
    WrapEarly(Pow2(k), SECOND);
    ProductIs(k);
  }

  // ---- The three ranges ----

  /** Up to 33 failures nothing overflows. */
  lemma SmallBackoff(k: nat)
    requires 1 <= k <= 33
    ensures Backoff(k) == if k <= 5 then Pow2(k) * SECOND else MAX_BACKOFF
  {
    PowValues();
    PowMonotone(k, 33);
    PowPositive(k);
    if k <= 5 {
      PowMonotone(k, 5);
    } else {
      PowMonotone(6, k);
    }
    hide Pow2;
    WrapIs(Pow2(k), 0, Pow2(k));
    WrapIs(Pow2(k) * SECOND, 0, Pow2(k) * SECOND);
  }

  /** Bit 54 - k of 5^9, the one that becomes the sign. */
  predicate SignSet(k: nat)
    requires k <= 54
  {
    PowPositive(54 - k);
    (1953125 / Pow2(54 - k)) % 2 == 1
  }

  lemma OddRemainder(r: nat)
    requires r >= 1
    ensures Pow2(r) > 0 && 1953125 % Pow2(r) >= 1
  {
    PowPositive(r);
    var p, h := Pow2(r), Pow2(r - 1);
    var q := 1953125 / p;
    assert p == 2 * h;
    hide Pow2;
    assert 1953125 == q * p + 1953125 % p;
    assert q * (2 * h) == 2 * (q * h);
    NotEven(q * h);
  }

  lemma NotEven(x: int)
    ensures 2 * x != 1953125
  {
  }

  /** From 34 to 54 failures the product keeps its low bits, and one bit of 5^9 becomes the sign. */
  lemma MiddleBackoff(k: nat)
    requires 34 <= k <= 54
    ensures Backoff(k) == MAX_BACKOFF <==> !SignSet(k)
    ensures SignSet(k) ==> Backoff(k) < 0
  {
    PowAdd(k + 9, 54 - k);
    PowValues();
    PowMonotone(43, k + 9);
    PowPositive(54 - k);
    if k < 54 {
      OddRemainder(54 - k);
    } else {
      assert Pow2(0) == 1;
    }
    BackoffOf(k);
    hide Pow2, Wrap64, Backoff;
    Capped(Pow2(k + 9), Pow2(54 - k));
  }

  lemma Capped(p: nat, t: nat)
    requires t > 0 && p * t == TWO63 && p >= 0x800_0000_0000 && (t == 1 || 1953125 % t >= 1)
    ensures var b := Wrap64(p * 1953125);
            if (1953125 / t) % 2 == 0 then b > MAX_BACKOFF else b < 0
  {
    hide Wrap64;
    Signed(p, t, 1953125);
    if (1953125 / t) % 2 == 0 {
      AtLeast(p, 1953125 % t);
    }
  }

  lemma AtLeast(p: nat, s: nat)
    requires s >= 1
    ensures p * s >= p
  {
  }

  /** p * a modulo 2^64, where p * t is 2^63: the quotient of a by t gives the sign, the remainder the rest. */
  lemma Signed(p: nat, t: nat, a: nat)
    requires t > 0 && p * t == TWO63
    ensures var b := Wrap64(p * a);
            && b == (if (a / t) % 2 == 0 then p * (a % t) else p * (a % t) - TWO63)
            && 0 <= p * (a % t) < TWO63
  {
    var q, s := a / t, a % t;
    assert a == q * t + s;
    var h, bit := q / 2, q % 2;
    assert q == 2 * h + bit;
    assert p * a == (p * t) * q + p * s by {
      assert p * (q * t + s) == (p * t) * q + p * s;
    }
    Below(p, s, t);
    if bit == 0 {
      assert p * a == h * TWO64 + p * s;
      WrapIs(p * a, h, p * s);
    } else {
      assert p * a == (h + 1) * TWO64 + (p * s - TWO63);
      WrapIs(p * a, h + 1, p * s - TWO63);
    }
  }

  lemma Below(p: nat, s: nat, t: nat)
    requires p * t == TWO63 && s < t
    ensures 0 <= p * s < TWO63
  {
    assert p * s + p * (t - s) == p * t;
    NotZero(p, t);
    Positive(p, t - s);
  }

  lemma NotZero(p: nat, t: nat)
    requires p * t == TWO63
    ensures p > 0
  {
  }

  lemma Positive(p: nat, n: nat)
    requires p > 0 && n > 0
    ensures p * n > 0
  {
  }

  /** From 55 failures on every bit is shifted out. */
  lemma LargeBackoff(k: nat)
    requires k >= 55
    ensures Backoff(k) == 0
  {
    PowAdd(64, k - 55);
    PowValues();
    BackoffOf(k);
    hide Pow2, Wrap64;
    var p := Pow2(k - 55);
    assert TWO64 * p * 1953125 == (p * 1953125) * TWO64 + 0;
    WrapIs(TWO64 * p * 1953125, p * 1953125, 0);
  }

  /**
   The wait is what it is meant to be, 2^k seconds but at most 60, exactly up to 33 failures in a row, and beyond for those k
   up to 54 whose bit of 5^9 is not set. In all other cases there is no wait.
   */
  lemma BackoffIsCapped(k: nat)
    requires k >= 1
    ensures Backoff(k) == (if k <= 5 then Pow2(k) * 1_000_000_000 else 60_000_000_000)
       <==> k <= 33 || (k <= 54 && !SignSet(k))
    ensures !(k <= 33 || (k <= 54 && !SignSet(k))) ==> Backoff(k) <= 0
  {
    hide Backoff, Pow2, SignSet;
    if k <= 33 {
      SmallBackoff(k);
    } else if k <= 54 {
      MiddleBackoff(k);
    } else {
      LargeBackoff(k);
    }
  }

  lemma SignSetAt34()
    ensures SignSet(34)
  {
    assert Pow2(10) == 1024;
    PowAdd(10, 10);
    assert Pow2(20) == 1048576;
  }

  /** The first failing input: after 34 failures in a row the next frame is tried at once. */
  lemma NoWaitAfter34()
    ensures Backoff(34) < 0 && forall k :: 1 <= k < 34 ==> Backoff(k) >= 2_000_000_000
  {
    hide Backoff, SignSet;
    SignSetAt34();
    MiddleBackoff(34);
    forall k | 1 <= k < 34
      ensures Backoff(k) >= 2_000_000_000
    {
      SmallBackoff(k);
      PowMonotone(1, k);
    }
  }
}
