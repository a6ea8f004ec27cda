/** 64-bit arithmetic on 32-bit words: a multiply-add built from 16-bit halves, and the
    division built on it. */
module WideArithmetic {
  import opened Arith
  import opened Bytes

  const M16: int := 0x1_0000
  const M31: int := 0x8000_0000

  type Word = x: int | 0 <= x < 0x1_0000_0000

  // ---------------------------------------------------------------- multiply-add

  /** FORMALIZE: moves bit 31 into the carry counter. */
  method Formalize(v: Word, cc: nat) returns (low: Word, carry: nat)
    ensures low < M31 && low + carry * M31 == v + cc * M31 && carry <= cc + 1
  {
    if v >= M31 {
      low, carry := v - M31, cc + 1;
    } else {
      low, carry := v, cc;
    }
  }

  /** Adds a word whose bit 31 is already counted, and counts the sum's. */
  method Accumulate(r0: Word, t: Word, cc: nat) returns (low: Word, carry: nat)
    requires r0 < M31
    ensures low < M31 && low + carry * M31 == r0 + t + cc * M31 && carry <= cc + 2
  {
    var t', cc' := Formalize(t, cc);
    low, carry := Formalize(r0 + t', cc');
  }

  /** Shifting left by 16 in 32 bits keeps the low half and drops what belongs in the high word. */
  function Shl16(p: Word): (t: Word)
    ensures p * M16 == (p / M16) * M32 + t
  {
    (p % M16) * M16
  }

  lemma Halves(a: Word)
    ensures a == (a / M16) * M16 + a % M16 && a / M16 < M16
  {
  }

  lemma HalfProduct(x: nat, y: nat)
    requires x < M16 && y < M16
    ensures 0 <= x * y <= (M16 - 1) * (M16 - 1) < M32
  {
    NonNegative(x, y);
    MulMono(x, M16 - 1, y);
    MulMono(y, M16 - 1, M16 - 1);
  }

  lemma Schoolbook(a1: int, a0: int, b1: int, b0: int)
    ensures (a1 * M16 + a0) * (b1 * M16 + b0) == (a1 * b1) * M32 + (a1 * b0) * M16 + (a0 * b1) * M16 + a0 * b0
  {
  }

  lemma ProductBound(a: Word, b: Word, c: Word)
    ensures a * b + c < M32 * M32
  {
    MulMono(a, M32 - 1, b);
    MulMono(b, M32 - 1, M32 - 1);
  }

  /** bcm_uint64_multiple_add: the pair is exactly a * b + c. */
  method MultipleAdd(a: Word, b: Word, c: Word) returns (rHigh: Word, rLow: Word)
    ensures rHigh * M32 + rLow == a * b + c
  {
    var a1, a0 := a / M16, a % M16;
    var b1, b0 := b / M16, b % M16;
    Halves(a);
    Halves(b);
    HalfProduct(a0, b0);
    HalfProduct(a1, b0);
    HalfProduct(a0, b1);
    HalfProduct(a1, b1);
    Schoolbook(a1, a0, b1, b0);
    ProductBound(a, b, c);
    var low, p, q, high := a0 * b0, a1 * b0, a0 * b1, a1 * b1;
    rHigh, rLow := Combine(low, p, q, high, c);
  }

  /** The sum of the four partial products and `c`, with every intermediate below 2^32. */
  method Combine(low: Word, p: Word, q: Word, high: Word, c: Word) returns (rHigh: Word, rLow: Word)
    requires high * M32 + p * M16 + q * M16 + low + c < M32 * M32
    ensures rHigh * M32 + rLow == high * M32 + p * M16 + q * M16 + low + c
  {
    var r0, cc := Formalize(low, 0);
    r0, cc := Accumulate(r0, Shl16(p), cc);
    r0, cc := Accumulate(r0, Shl16(q), cc);
    r0, cc := Accumulate(r0, c, cc);
    assert cc == 2 * (cc / 2) + cc % 2;
    rLow := r0 + if cc % 2 != 0 then M31 else 0;
    rHigh := high + p / M16 + q / M16 + cc / 2;
  }

  // ---------------------------------------------------------------- division

  function Add32(x: Word, y: Word): Word { (x + y) % M32 }

  function Mul32(x: Word, y: Word): Word { (x * y) % M32 }

  /** What is wrong with the quotient: a divisor of 2^32 makes 0xffffffff / b one too small,
      once for every unit of the high word. */
  function Shortfall(b: Word, high: Word): nat
    requires b >= 2
  {
    if M32 % b == 0 then high else 0
  }

  lemma StepFacts(b: Word)
    requires b >= 2
    ensures ((M32 - 1) % b + 1) % b == M32 % b
    ensures M32 == ((M32 - 1) / b) * b + M32 % b + (if M32 % b == 0 then b else 0)
  {
    var q, r := (M32 - 1) / b, (M32 - 1) % b;
    assert M32 - 1 == q * b + r;
    if r + 1 == b {
      assert M32 == (q + 1) * b;
      DivModIs(M32, b, q + 1, 0);
      DivModIs(b, b, 1, 0);
    } else {
      DivModIs(M32, b, q, r + 1);
      DivModIs(r + 1, b, 0, r + 1);
    }
  }

  lemma ModIs(r: Word, wraps: int, x: int)
    requires r + wraps * M32 == x
    ensures r == x % M32
  {
    DivModIs(x, M32, wraps, r);
  }

  lemma Regroup(a: int, m: int, q: int, b: int, r: int)
    requires m == q * b + r
    ensures a * m == (q * a) * b + r * a
  {
    assert a * (q * b + r) == (q * a) * b + r * a;
  }

  lemma DivRest(a1: int, a0: int, m: int, q: int, b: int, r: int)
    requires b > 0 && m == q * b + r
    ensures (a1 * m + a0) / b == q * a1 + (r * a1 + a0) / b
  {
    Regroup(a1, m, q, b, r);
    DivShift(r * a1 + a0, b, q * a1);
  }

  /** One round: the quotient of the old value is what was added plus the quotient of the
      new one, short by the high word when b divides 2^32. */
  lemma Round(b: Word, a1: Word, a0: Word, next: nat)
    requires b >= 2 && next == (M32 % b) * a1 + a0
    ensures (a1 * M32 + a0) / b == ((M32 - 1) / b) * a1 + next / b + Shortfall(b, a1)
  {
    StepFacts(b);
    var q := (M32 - 1) / b;
    if M32 % b == 0 {
      assert (q + 1) * b == q * b + b;
      DivRest(a1, a0, M32, q + 1, b, 0);
      assert (q + 1) * a1 == q * a1 + a1;
    } else {
      DivRest(a1, a0, M32, q, b, M32 % b);
    }
  }

  /** What 32-bit wrap-around drops, as a multiple of 2^32. */
  lemma Wraps(r0: Word, x: Word, y: Word) returns (w: int)
    ensures Add32(r0, Mul32(x, y)) + w * M32 == r0 + x * y
  {
    var full, sum := x * y, r0 + Mul32(x, y);
    w := full / M32 + sum / M32;
  }

  function Value(high: Word, low: Word): nat { high * M32 + low }

  /** What is still to come: the quotient of the rest, less its shortfall. */
  function Remaining(high: Word, low: Word, b: Word): int
    requires b >= 2
  {
    Value(high, low) / b - Shortfall(b, high)
  }

  lemma RemainingStep(b: Word, was1: Word, was0: Word, a1: Word, a0: Word)
    requires b >= 2 && was1 > 0 && Value(a1, a0) == (M32 % b) * was1 + was0
    ensures Remaining(was1, was0, b) == ((M32 - 1) / b) * was1 + Remaining(a1, a0, b)
    ensures Value(a1, a0) < Value(was1, was0)
  {
    Round(b, was1, was0, Value(a1, a0));
    Falls(b, was1, was0, a1, a0);
  }

  /** bcm_uint64_divide: nothing for b < 2; otherwise the quotient modulo 2^32, short by the
      high word exactly when b divides 2^32. The loop ends because the whole 64-bit value
      falls. */
  method Divide(aHigh: Word, aLow: Word, b: Word) returns (r: Option<Word>)
    ensures b < 2 ==> r == None
    ensures b >= 2 ==> r == Some(((aHigh * M32 + aLow) / b - Shortfall(b, aHigh)) % M32)
  {
    hide Remaining, Shortfall, Mul32, Add32;
    if b < 2 {
      return None;
    }
    var a1: Word, a0: Word, r0: Word := aHigh, aLow, 0;
    ghost var wraps, goal := 0, Remaining(aHigh, aLow, b);
    GoalIs(aHigh, aLow, b);
    var q, rem := (M32 - 1) / b, ((M32 - 1) % b + 1) % b;
    assert rem == M32 % b by { StepFacts(b); }
    while a1 != 0
      invariant r0 + wraps * M32 + Remaining(a1, a0, b) == goal
      decreases Value(a1, a0)
    {
      ghost var w := Wraps(r0, q, a1);
      wraps := wraps + w;
      r0 := Add32(r0, Mul32(q, a1));
      ghost var was1, was0 := a1, a0;
      a1, a0 := MultipleAdd(rem, a1, a0);
      RemainingStep(b, was1, was0, a1, a0);
    }
    r0 := LastPart(r0, a0, b, wraps, goal);
    r := Some(r0);
  }

  lemma GoalIs(aHigh: Word, aLow: Word, b: Word)
    requires b >= 2
    ensures Remaining(aHigh, aLow, b) == (aHigh * M32 + aLow) / b - Shortfall(b, aHigh)
  {
  }

  method LastPart(r0: Word, a0: Word, b: Word, ghost wraps: int, ghost goal: int) returns (r: Word)
    requires b >= 2 && r0 + wraps * M32 + Remaining(0, a0, b) == goal
    ensures r == goal % M32
  {
    var last := a0 / b;
    assert last <= a0;
    r := Add32(r0, last);
    ModIs(r, wraps + (r0 + last) / M32, goal);
  }

  /** The new value is smaller, and has no high word when b divides 2^32. */
  lemma Falls(b: Word, was1: Word, was0: Word, a1: Word, a0: Word)
    requires b >= 2 && was1 > 0 && a1 * M32 + a0 == (M32 % b) * was1 + was0
    ensures a1 * M32 + a0 < was1 * M32 + was0
    ensures M32 % b == 0 ==> a1 == 0
  {
    MulMono(M32 % b, M32 - 1, was1);
  }

  // ---------------------------------------------------------------- when the quotient is right

  /** The high word alone need not fall: here it stays 1 for a round. */
  lemma HighWordMayStay()
    ensures var b, a1, a0 := M32 - 1, 1, M32 - 1;
            (M32 % b) * a1 + a0 == 1 * M32 + 0
  {
    DivModIs(M32, M32 - 1, 1, 1);
  }

  function Pow2(k: nat): nat { if k == 0 then 1 else 2 * Pow2(k - 1) }

  lemma {:induction false} PowerDivides(k: nat, n: nat)
    requires k <= n
    ensures Pow2(k) > 0 && Pow2(n) == Pow2(n - k) * Pow2(k)
    decreases k
  {
    if k > 0 {
      PowerDivides(k - 1, n - 1);
      assert Pow2(n - k) * (2 * Pow2(k - 1)) == 2 * (Pow2(n - k) * Pow2(k - 1));
    }
  }

  /** A divisor of a power of two is a power of two. */
  lemma {:induction false} DivisorOfPower(b: nat, m: nat, n: nat) returns (k: nat)
    requires b * m == Pow2(n) && b > 0
    ensures k <= n && b == Pow2(k)
    decreases n
  {
    if n == 0 {
      Factors(b, m);
      k := 0;
    } else if b % 2 == 0 {
      assert b == 2 * (b / 2) && (2 * (b / 2)) * m == 2 * ((b / 2) * m);
      var h := DivisorOfPower(b / 2, m, n - 1);
      k := h + 1;
    } else {
      EvenFactor(b, m, Pow2(n - 1));
      assert m == 2 * (m / 2) && b * (2 * (m / 2)) == 2 * (b * (m / 2));
      k := DivisorOfPower(b, m / 2, n - 1);
    }
  }

  lemma Factors(b: nat, m: nat)
    requires b * m == 1
    ensures b == 1
  {
    if b > 1 { MulMono(2, b, m); }
  }

  lemma EvenFactor(b: nat, m: nat, half: nat)
    requires b % 2 == 1 && b * m == 2 * half
    ensures m % 2 == 0
  {
    var c := b / 2;
    assert b == 2 * c + 1 && (2 * c + 1) * m == 2 * (c * m) + m;
  }

  lemma TwoTo32()
    ensures Pow2(32) == M32
  {
    assert Pow2(4) == 16;
    PowerDivides(4, 8);
    PowerDivides(8, 16);
    PowerDivides(16, 32);
  }

  /** b divides 2^32 exactly when it is a power of two. */
  lemma DividesIffPower(b: Word)
    requires b >= 2
    ensures M32 % b == 0 <==> exists k: nat :: k <= 32 && b == Pow2(k)
  {
    TwoTo32();
    if M32 % b == 0 {
      var m := M32 / b;
      assert b * m == M32;
      var k := DivisorOfPower(b, m, 32);
    }
    if k: nat :| k <= 32 && b == Pow2(k) {
      PowerDivides(k, 32);
      DivModIs(M32, b, Pow2(32 - k), 0);
    }
  }

  /** The result is the quotient modulo 2^32 if and only if b is not a power of two or the
      dividend has no high word. */
  lemma DivideCorrectIff(aHigh: Word, aLow: Word, b: Word)
    requires b >= 2
    ensures ((aHigh * M32 + aLow) / b - Shortfall(b, aHigh)) % M32 == ((aHigh * M32 + aLow) / b) % M32
            <==> !(exists k: nat :: k <= 32 && b == Pow2(k)) || aHigh == 0
  {
    DividesIffPower(b);
    var v, s := (aHigh * M32 + aLow) / b, Shortfall(b, aHigh);
    ModDiffers(v, s);
  }

  lemma ModDiffers(v: int, s: nat)
    requires s < M32
    ensures (v - s) % M32 == v % M32 <==> s == 0
  {
    if (v - s) % M32 == v % M32 {
      assert v == M32 * (v / M32) + v % M32 && v - s == M32 * ((v - s) / M32) + (v - s) % M32;
      assert s == M32 * (v / M32 - (v - s) / M32);
    }
  }
}
