/** The calibration of the delay loop in `init_x86`, a search by successive approximation.  A delay of
    `n` loops spans a clock tick exactly when `n >= threshold`. */
module Calibration {
  const TWO32: nat := 0x1_0000_0000

  function Pow2(k: nat): (p: nat)
    ensures p >= 1
  {
    if k == 0 then 1 else 2 * Pow2(k - 1)
  }

  /** The first doubling from `2^k` on that spans a tick; 32 when no 32-bit one does. */
  function FirstDoubling(threshold: nat, k: nat): (r: nat)
    requires k <= 32
    ensures k <= r <= 32 && (r > k ==> Pow2(r - 1) < threshold) && (r < 32 ==> Pow2(r) >= threshold)
    decreases 32 - k
  {
    if k == 32 || Pow2(k) >= threshold then k else FirstDoubling(threshold, k + 1)
  }

  /** The largest multiple of `grain` below a number. */
  function Below(threshold: nat, grain: nat): nat
    requires threshold >= 1 && grain >= 1
  {
    (threshold - 1) / grain * grain
  }

  /** What the calibration finds. */
  function Calibrated(threshold: nat): nat {
    var k := FirstDoubling(threshold, 13);
    if k == 32 then 0
    else if threshold <= 4096 then 4096
    else Below(threshold, Pow2(k - 9))
  }

  lemma {:induction false} Powers(k: nat)
    ensures Pow2(12) == 4096 && Pow2(31) == 0x8000_0000 && Pow2(32) == TWO32
    ensures k < 32 ==> Pow2(k) < TWO32
    ensures k <= 31 ==> Pow2(k) <= 0x8000_0000
  {
    assert Pow2(6) == 64 && Pow2(12) == 4096;
    assert Pow2(18) == 0x4_0000 && Pow2(24) == 0x100_0000;
    assert Pow2(30) == 0x4000_0000;
    if k < 32 {
      PowersGrow(k, 31);
    }
  }

  lemma {:induction false} PowersGrow(a: nat, b: nat)
    requires a <= b
    ensures Pow2(a) <= Pow2(b)
    decreases b
  {
    if a < b {
      PowersGrow(a, b - 1);
    }
  }

  /** `n | bit` and `n & ~bit` for a single bit. */
  function SetBit(n: nat, bit: nat): nat
    requires bit >= 1
  {
    if n / bit % 2 == 1 then n else n + bit
  }

  function ClearBit(n: nat, bit: nat): nat
    requires bit >= 1
  {
    if n / bit % 2 == 1 && n >= bit then n - bit else n
  }

  lemma Products(a: nat, b: nat, m: nat)
    requires a < b
    ensures a * m + m <= b * m
  {
    var d := b - a - 1;
    assert b * m == a * m + m + d * m;
  }

  lemma UniqueQuotient(q: nat, d: nat, m: nat, e: nat, f: nat)
    requires q * m + e == d * m + f && e < m && f < m
    ensures q == d
  {
    if q < d {
      Products(q, d, m);
    } else if d < q {
      Products(d, q, m);
    }
  }

  lemma MultipleQuotient(q: nat, m: nat, extra: nat)
    requires m >= 1 && extra < m
    ensures (q * m + extra) / m == q
  {
    var n := q * m + extra;
    var d := n / m;
    assert n == d * m + n % m && n >= 0;
    UniqueQuotient(q, d, m, extra, n % m);
  }

  /** `n` is `q` times `bit`. */
  ghost predicate Multiple(n: nat, q: nat, bit: nat) {
    n == q * bit
  }

  /** On a multiple of twice the bit, setting adds the bit and clearing takes it back. */
  lemma BitSteps(n: nat, q: nat, bit: nat)
    requires bit >= 1 && Multiple(n, q, 2 * bit)
    ensures SetBit(n, bit) == n + bit && ClearBit(n + bit, bit) == n
    ensures Multiple(n, 2 * q, bit) && Multiple(n + bit, 2 * q + 1, bit)
  {
    assert q * (2 * bit) == (2 * q) * bit && q * (2 * bit) + bit == (2 * q + 1) * bit;
    MultipleQuotient(2 * q, bit, 0);
    MultipleQuotient(2 * q + 1, bit, 0);
  }

  /** The calibration loops, in 32-bit arithmetic. */
  method Calibrate(threshold: nat) returns (loopsPerJiffy: nat)
    ensures loopsPerJiffy == Calibrated(threshold)
  {
    hide FirstDoubling, Pow2, Below, SetBit, ClearBit;
    loopsPerJiffy := 4096;
    ghost var k := 12;
    Powers(12);
    loopsPerJiffy := loopsPerJiffy * 2 % TWO32;
    k := 13;
    DoublingNext(12);
    while loopsPerJiffy != 0
      invariant 13 <= k <= 32 && loopsPerJiffy == Pow2(k) % TWO32
      invariant FirstDoubling(threshold, 13) == FirstDoubling(threshold, k)
      decreases 32 - k
    {
      DoublingStep(threshold, k);
      if loopsPerJiffy >= threshold {
        break;
      }
      DoublingNext(k);
      loopsPerJiffy := loopsPerJiffy * 2 % TWO32;
      k := k + 1;
    }
    DoublingStep(threshold, k);
    assert k == FirstDoubling(threshold, 13);
    loopsPerJiffy := loopsPerJiffy / 2;
    loopsPerJiffy := Refine(threshold, k, loopsPerJiffy);
  }

  lemma DoublingStep(threshold: nat, k: nat)
    requires 13 <= k <= 32
    ensures k < 32 ==> Pow2(k) % TWO32 == Pow2(k) && Pow2(k) > 0
    ensures k == 32 ==> Pow2(k) % TWO32 == 0 && FirstDoubling(threshold, k) == k
    ensures k < 32 && Pow2(k) >= threshold ==> FirstDoubling(threshold, k) == k
    ensures k < 32 && Pow2(k) < threshold ==> FirstDoubling(threshold, k) == FirstDoubling(threshold, k + 1)
  {
    hide Pow2;
    Powers(k);
  }

  lemma DoublingNext(k: nat)
    requires k < 32
    ensures Pow2(k) % TWO32 * 2 % TWO32 == Pow2(k + 1) % TWO32 && Pow2(12) == 4096
  {
    Powers(k);
  }

  lemma Halves(k: nat)
    ensures Pow2(k + 1) / 2 == Pow2(k) && Pow2(k + 1) == 2 * Pow2(k)
  {
  }

  /** The eight steps that refine half of the doubling found. */
  method Refine(threshold: nat, ghost k: nat, half: nat) returns (loopsPerJiffy: nat)
    requires 13 <= k <= 32 && half == (if k < 32 then Pow2(k) / 2 else 0) && k == FirstDoubling(threshold, 13)
    ensures loopsPerJiffy == Calibrated(threshold)
  {
    hide FirstDoubling, Pow2, Below, SetBit, ClearBit, Multiple;
    loopsPerJiffy := half;
    var loopbit, precision := half, 8;
    ghost var q: nat := 1;
    Halves(k - 1);
    FoundDoubling(threshold, k);
    Once(half);
    while precision > 0 && loopbit / 2 != 0
      invariant 0 <= precision <= 8 && (k == 32 ==> loopsPerJiffy == 0 && loopbit == 0)
      invariant k < 32 ==> loopbit == Pow2(k - 9 + precision) && Multiple(loopsPerJiffy, q, loopbit)
      invariant k < 32 && threshold > 4096 ==> loopsPerJiffy < threshold <= loopsPerJiffy + loopbit
      invariant threshold <= 4096 ==> loopsPerJiffy == 4096
      decreases precision
    {
      precision := precision - 1;
      Halves(k - 9 + precision);
      loopbit := loopbit / 2;
      loopsPerJiffy, q := RefineBit(threshold, loopsPerJiffy, loopbit, q);
    }
    if k < 32 && threshold > 4096 {
      if precision > 0 {
        Halves(k - 10 + precision);
      }
      BelowUnique(threshold, loopsPerJiffy, Pow2(k - 9), q);
    }
  }

  /** One of these steps. */
  method RefineBit(threshold: nat, n: nat, bit: nat, ghost q: nat) returns (n': nat, ghost q': nat)
    requires bit >= 1 && Multiple(n, q, 2 * bit)
    ensures n' == (if n + bit < threshold then n + bit else n) && Multiple(n', q', bit)
  {
    hide SetBit, ClearBit, Multiple;
    BitSteps(n, q, bit);
    n' := SetBit(n, bit);
    q' := 2 * q + 1;
    if n' >= threshold {
      n' := ClearBit(n', bit);
      q' := 2 * q;
    }
  }

  lemma Once(n: nat)
    ensures Multiple(n, 1, n)
  {
  }

  lemma FoundDoubling(threshold: nat, k: nat)
    requires 13 <= k <= 32 && k == FirstDoubling(threshold, 13)
    ensures k == 32 <==> threshold > 0x8000_0000
    ensures k < 32 ==> threshold <= Pow2(k) && (threshold > 4096 ==> Pow2(k - 1) < threshold)
    ensures threshold <= 4096 ==> k == 13 && Pow2(12) == 4096
  {
    hide Pow2;
    Powers(k);
    Halves(12);
  }

  lemma BelowUnique(threshold: nat, n: nat, grain: nat, q: nat)
    requires grain >= 1 && Multiple(n, q, grain) && n < threshold <= n + grain
    ensures Below(threshold, grain) == n
  {
    MultipleQuotient(q, grain, threshold - 1 - n);
  }

  /** The calibration lies below the threshold by at most one part in 256 exactly for thresholds that
      some doubling from 8192 to 2^31 reaches and 4096 does not. */
  lemma CalibrationIff(threshold: nat)
    ensures Calibrated(threshold) < threshold && 256 * (threshold - Calibrated(threshold)) < threshold
            <==> 4096 < threshold <= 0x8000_0000
  {
    hide FirstDoubling, Pow2, Below;
    var k := FirstDoubling(threshold, 13);
    FoundDoubling(threshold, k);
    if k < 32 && threshold > 4096 {
      BelowClose(threshold, Pow2(k - 9));
      Times256(k - 9);
    }
  }

  /** For a threshold behind `2^(k-1)` and up to `2^k` the calibration is the multiple of `2^(k-9)` right below
      it: eight more binary digits than the doubling. */
  lemma CalibrationExact(threshold: nat, k: nat) returns (q: nat)
    requires 13 <= k <= 31 && Pow2(k - 1) < threshold <= Pow2(k)
    ensures Calibrated(threshold) == q * Pow2(k - 9)
    ensures Calibrated(threshold) < threshold <= Calibrated(threshold) + Pow2(k - 9)
  {
    hide FirstDoubling, Pow2, Below;
    var r := FirstDoubling(threshold, 13);
    if r < k {
      PowersGrow(r, k - 1);
    } else if r > k {
      PowersGrow(k, r - 1);
    }
    Powers(12);
    PowersGrow(12, k - 1);
    BelowClose(threshold, Pow2(k - 9));
    q := (threshold - 1) / Pow2(k - 9);
    BelowMultiple(threshold, Pow2(k - 9));
  }

  lemma BelowMultiple(threshold: nat, grain: nat)
    requires threshold >= 1 && grain >= 1
    ensures Below(threshold, grain) == (threshold - 1) / grain * grain
  {
  }

  /** Outside of these it is 4096 or 0, whatever the threshold. */
  lemma CalibrationOutside(threshold: nat)
    ensures threshold <= 4096 ==> Calibrated(threshold) == 4096
    ensures threshold > 0x8000_0000 ==> Calibrated(threshold) == 0
  {
    hide FirstDoubling, Pow2, Below;
    FoundDoubling(threshold, FirstDoubling(threshold, 13));
  }

  lemma Times256(k: nat)
    ensures 256 * Pow2(k) == Pow2(k + 8)
  {
    assert Pow2(k + 2) == 2 * Pow2(k + 1) == 4 * Pow2(k);
    assert Pow2(k + 4) == 2 * Pow2(k + 3) == 4 * Pow2(k + 2);
    assert Pow2(k + 6) == 2 * Pow2(k + 5) == 4 * Pow2(k + 4);
    assert Pow2(k + 8) == 2 * Pow2(k + 7) == 4 * Pow2(k + 6);
  }

  lemma BelowClose(threshold: nat, grain: nat)
    requires threshold >= 1 && grain >= 1
    ensures Below(threshold, grain) < threshold <= Below(threshold, grain) + grain
  {
    var n := threshold - 1;
    assert n == n / grain * grain + n % grain;
  }
}
