/**
 Wall-clock arithmetic over the time-stamp counter: the exact division used by the
 supervisor and the multiply-and-shift form the guest's vDSO uses instead
 (src/lucas/clock.c, src/vdso/vdso_time.c).
 */
module Clock {
  import opened Machine
  import opened Arithmetic

  const NS: nat := 1_000_000_000

  /** Nanoseconds in delta counter ticks, rounded down. */
  function ExactNs(delta: nat, tsc: nat): (ns: nat)
    requires tsc > 0
  {
    delta * NS / tsc
  }

  /** Cast of a 64-bit word to a signed one. */
  function ToI64(x: U64): (r: int)
    ensures -0x8000_0000_0000_0000 <= r < 0x8000_0000_0000_0000 && (r == x || r + TWO64 == x)
  {
    if x < 0x8000_0000_0000_0000 then x else x - TWO64
  }

  // ---- the exact form ---------------------------------------------------------------

  /** The largest remainder whose nanoseconds still fit a 64-bit product. */
  const MAX_REM: nat := 18446744073

  function Secs(delta: nat, tsc: nat): (q: nat)
    requires tsc > 0
  {
    delta / tsc
  }

  function Rem(delta: nat, tsc: nat): (r: nat)
    requires tsc > 0
    ensures r < tsc
  {
    delta % tsc
  }

  /** The fraction as the code computes it, with a 64-bit product. */
  function WordNs(rem: nat, tsc: nat): (ns: nat)
    requires tsc > 0
  {
    rem * NS % TWO64 / tsc
  }

  lemma SplitNs(delta: nat, tsc: nat)
    requires tsc > 0
    ensures ExactNs(delta, tsc) == Secs(delta, tsc) * NS + ExactNs(Rem(delta, tsc), tsc)
    ensures ExactNs(Rem(delta, tsc), tsc) < NS
  {
    var q, r := delta / tsc, delta % tsc;
    assert delta * NS == q * NS * tsc + r * NS by {
      assert delta == q * tsc + r;
      assert (q * tsc) * NS == q * NS * tsc;
    }
    DivAdd(q * NS, r * NS, tsc);
    MulMono(r, tsc - 1, NS);
    FloorBelow(NS, r * NS, tsc);
  }

  /** The 64-bit product of the fractional part is divided correctly exactly when it did not
      overflow; for a rate of at most 18446744074 ticks a second it never does. */
  lemma FractionExactIff(rem: nat, tsc: U64)
    requires rem < tsc
    ensures WordNs(rem, tsc) == ExactNs(rem, tsc) <==> rem <= MAX_REM
  {
    var x := rem * NS;
    var y := x % TWO64;
    if rem > MAX_REM {
      assert y + TWO64 <= x;
      DivAdd(1, y, tsc);
      DivMonotone(1 * tsc + y, x, tsc);
    }
  }

  lemma WordNsSmall(rem: nat, tsc: nat)
    requires rem < tsc
    ensures WordNs(rem, tsc) < TWO64 / 2
  {
    var y := rem * NS % TWO64;
    assert y < TWO64 / 2 * tsc by {
      if tsc == 1 {
        assert y == 0;
      }
    }
    FloorBelow(TWO64 / 2, y, tsc);
  }

  /** The seconds and nanoseconds the code comes to. */
  function Wall(boot: U64, tsc: U64, epoch: U64, now: U64): (t: (int, int)) {
    if tsc == 0 || now < boot then (ToI64(epoch), 0)
    else (ToI64((epoch + Secs(now - boot, tsc)) % TWO64), ToI64(WordNs(Rem(now - boot, tsc), tsc) % TWO64))
  }

  /** lucas_clock_walltime.  Seconds and nanoseconds together are the exact floor, and
      normalised, if and only if the fraction's 64-bit product does not overflow. */
  method Walltime(boot: U64, tsc: U64, epoch: U64, now: U64) returns (sec: int, nsec: int)
    ensures (sec, nsec) == Wall(boot, tsc, epoch, now)
    ensures tsc == 0 || now < boot ==> sec == ToI64(epoch) && nsec == 0
    ensures tsc > 0 && now >= boot ==>
              (nsec == ExactNs(Rem(now - boot, tsc), tsc) <==> Rem(now - boot, tsc) <= MAX_REM)
    ensures tsc > 0 && now >= boot && Rem(now - boot, tsc) <= MAX_REM ==>
              && 0 <= nsec < NS
              && (epoch + Secs(now - boot, tsc) < TWO64 / 2 ==>
                    sec * NS + nsec == epoch * NS + ExactNs(now - boot, tsc))
  {
    hide WordNs, Secs, Rem, ExactNs;
    if tsc == 0 || now < boot {
      return ToI64(epoch), 0;
    }
    var delta := now - boot;
    var secs := Secs(delta, tsc);
    var rem := Rem(delta, tsc);
    sec := ToI64((epoch + secs) % TWO64);
    WordNsSmall(rem, tsc);
    nsec := ToI64(WordNs(rem, tsc));
    assert WordNs(rem, tsc) % TWO64 == WordNs(rem, tsc);
    FractionExactIff(rem, tsc);
    SplitNs(delta, tsc);
  }

  lemma ExactMonotone(delta: nat, delta': nat, tsc: nat)
    requires tsc > 0 && delta <= delta'
    ensures ExactNs(delta, tsc) <= ExactNs(delta', tsc)
  {
    DivMonotone(delta * NS, delta' * NS, tsc);
  }

  /** Neither the fraction's product nor the signed seconds overflow at this counter value. */
  predicate InRange(boot: U64, tsc: U64, epoch: U64, now: U64) {
    if tsc == 0 || now < boot then epoch < TWO64 / 2
    else Rem(now - boot, tsc) <= MAX_REM && epoch + Secs(now - boot, tsc) < TWO64 / 2
  }

  lemma WallIs(boot: U64, tsc: U64, epoch: U64, now: U64)
    requires InRange(boot, tsc, epoch, now)
    ensures var (sec, nsec) := Wall(boot, tsc, epoch, now);
            && 0 <= nsec < NS
            && sec * NS + nsec == epoch * NS + if tsc == 0 || now < boot then 0 else ExactNs(now - boot, tsc)
  {
    hide WordNs, Secs, Rem, ExactNs;
    if tsc > 0 && now >= boot {
      var rem := Rem(now - boot, tsc);
      FractionExactIff(rem, tsc);
      SplitNs(now - boot, tsc);
    }
  }

  /** The pair is normalised, so its order is that of the clock: a later counter value never
      gives an earlier time, before the boot mark or after it. */
  lemma WalltimeMonotone(boot: U64, tsc: U64, epoch: U64, now: U64, now': U64)
    requires now <= now' && InRange(boot, tsc, epoch, now) && InRange(boot, tsc, epoch, now')
    ensures var (t, u) := (Wall(boot, tsc, epoch, now), Wall(boot, tsc, epoch, now'));
            t.0 < u.0 || (t.0 == u.0 && t.1 <= u.1)
  {
    hide Wall, InRange, ExactNs;
    WallIs(boot, tsc, epoch, now);
    WallIs(boot, tsc, epoch, now');
    if tsc > 0 && now >= boot {
      ExactMonotone(now - boot, now' - boot, tsc);
    }
  }

  // ---- multiplier and shift ---------------------------------------------------------

  function Pow2(k: nat): (r: nat)
    ensures r > 0
  {
    if k == 0 then 1 else 2 * Pow2(k - 1)
  }

  function Mult(tsc: nat, shift: nat): (m: nat)
    requires tsc > 0
  {
    NS * Pow2(shift) / tsc
  }

  lemma Pow2Values()
    ensures Pow2(31) == 0x8000_0000 && Pow2(32) == TWO32
  {
    assert Pow2(8) == 256;
    assert Pow2(16) == 0x1_0000;
    assert Pow2(24) == 0x100_0000;
    assert Pow2(31) == 0x8000_0000;
  }

  lemma {:induction false} MultMonotone(tsc: nat, s: nat, s': nat)
    requires tsc > 0 && s <= s'
    ensures Mult(tsc, s) <= Mult(tsc, s')
    decreases s'
  {
    if s < s' {
      MultMonotone(tsc, s, s' - 1);
      DivMonotone(NS * Pow2(s' - 1), NS * Pow2(s'), tsc);
    }
  }

  lemma MultAtZero(tsc: nat)
    requires tsc > 0
    ensures Mult(tsc, 0) <= NS
  {
    assert NS < (NS + 1) * tsc;
    FloorBelow(NS + 1, NS, tsc);
  }

  predicate MultFits(tsc: nat, s: nat)
    requires tsc > 0
  {
    Mult(tsc, s) < TWO32
  }

  /** lucas_clock_tsc_mult_shift: among the shifts 0..32 those whose multiplier fits 32 bits
      are exactly the ones up to the shift returned. */
  method MultShift(tsc: U64) returns (mult: U32, shift: nat)
    ensures tsc == 0 ==> mult == 0 && shift == 0
    ensures tsc > 0 ==>
              && shift <= 32 && mult == Mult(tsc, shift)
              && forall s :: 0 <= s <= 32 ==> (MultFits(tsc, s) <==> s <= shift)
  {
    if tsc == 0 {
      return 0, 0;
    }
    MultAtZero(tsc);
    mult, shift := 0, 0;
    var s := 0;
    while s <= 32
      invariant 0 <= s <= 33
      invariant s > 0 ==> shift == s - 1 && mult == Mult(tsc, shift)
      invariant s == 0 ==> mult == 0 && shift == 0
    {
      var m := NS * Pow2(s) / tsc;
      if m > 0xffff_ffff {
        break;
      }
      shift, mult := s, m;
      s := s + 1;
    }
    forall k | 0 <= k <= 32
      ensures MultFits(tsc, k) <==> k <= shift
    {
      if k <= shift {
        MultMonotone(tsc, k, shift);
      } else {
        MultMonotone(tsc, s, k);
      }
    }
  }

  /** What MultShift returns for a running clock. */
  predicate Calibrated(tsc: nat, mult: nat, shift: nat) {
    && tsc > 0 && shift <= 32 && mult == Mult(tsc, shift)
    && (shift < 32 ==> !MultFits(tsc, shift + 1))
  }

  // ---- the fast form against the exact one ------------------------------------------

  function Product(a: nat, b: nat): (x: nat) {
    a * b
  }

  function Floor(x: nat, m: nat): (q: nat)
    requires m > 0
  {
    x / m
  }

  /** The vDSO's nanoseconds: one multiplication and a shift. */
  function FastNs(cyc: nat, mult: nat, shift: nat): (ns: nat) {
    Floor(Product(cyc, mult), Pow2(shift))
  }

  lemma ScaledDown(f: nat, p: nat, c: nat, m: nat, t: nat, n: nat)
    requires p > 0 && f * p <= c * m && m * t <= n * p
    ensures f * t <= c * n
  {
    MulMono(f * p, c * m, t);
    MulMono(m * t, n * p, c);
    assert (f * t) * p <= (c * n) * p by {
      assert (f * t) * p == (f * p) * t && (c * m) * t == (m * t) * c && (n * p) * c == (c * n) * p;
    }
    MulCancel(f * t, c * n, p);
  }

  lemma ScaledUp(x: nat, p: nat, c: nat, m: nat, t: nat, n: nat)
    requires t > 0 && x * t <= c * n && n * p <= (m + 1) * t
    ensures x * p <= c * m + c
  {
    ScaledDown(x, t, c, n, p, m + 1);
    assert c * (m + 1) == c * m + c;
  }

  lemma Shortfall(x: nat, f: nat, p: nat, c: nat, m: nat, t: nat)
    requires t > 0 && x * t <= c * NS && NS * p < m * t + t && c * m < f * p + p
    ensures (x - f) * p < p + c
  {
    assert (m + 1) * t == m * t + t;
    ScaledUp(x, p, c, m, t, NS);
    assert (x - f) * p == x * p - f * p;
  }

  /** The fast form never runs ahead of the exact one. */
  lemma FastNeverAhead(tsc: nat, mult: nat, shift: nat, cyc: nat)
    requires Calibrated(tsc, mult, shift)
    ensures FastNs(cyc, mult, shift) <= ExactNs(cyc, tsc)
  {
    var p, f := Pow2(shift), FastNs(cyc, mult, shift);
    DivBounds(NS * p, tsc);
    DivBounds(cyc * mult, p);
    ScaledDown(f, p, cyc, mult, tsc, NS);
    FloorAtLeast(f, cyc * NS, tsc);
  }

  /** and falls behind by less than 1 + cyc / 2^shift nanoseconds. */
  lemma FastShortfall(tsc: nat, mult: nat, shift: nat, cyc: nat)
    requires Calibrated(tsc, mult, shift)
    ensures (ExactNs(cyc, tsc) - FastNs(cyc, mult, shift)) * Pow2(shift) < Pow2(shift) + cyc
  {
    DivBounds(NS * Pow2(shift), tsc);
    DivBounds(cyc * NS, tsc);
    DivBounds(cyc * mult, Pow2(shift));
    Shortfall(ExactNs(cyc, tsc), FastNs(cyc, mult, shift), Pow2(shift), cyc, mult, tsc);
  }

  /** Relative drift of the multiplier: below 2^-31 whenever the shift stopped short of 32. */
  lemma DriftShort(tsc: nat, mult: nat, shift: nat)
    requires Calibrated(tsc, mult, shift) && shift < 32
    ensures 0x8000_0000 * tsc <= NS * Pow2(shift)
    ensures (NS * Pow2(shift) - mult * tsc) * 0x8000_0000 < NS * Pow2(shift)
  {
    var p := Pow2(shift);
    DivBounds(NS * (2 * p), tsc);
    MulMono(TWO32, Mult(tsc, shift + 1), tsc);
    assert TWO32 * tsc <= NS * (2 * p);
    DivBounds(NS * p, tsc);
  }

  /** ... and below one part in a million at shift 32 for every rate below 1000 * 2^32. */
  lemma DriftFull(tsc: nat, mult: nat)
    requires Calibrated(tsc, mult, 32) && tsc < 1000 * TWO32
    ensures (NS * Pow2(32) - mult * tsc) * 1_000_000 < NS * Pow2(32)
  {
    Pow2Values();
    DivBounds(NS * Pow2(32), tsc);
  }

  lemma CoarseCase(e: nat, x: nat, p: nat, c: nat, t: nat)
    requires t > 0 && 2 * e * p < 3 * c && c * NS < (x + 1) * t && 0x8000_0000 * t <= NS * p
    ensures e * 1_000_000 <= x
  {
    MulMono(0x8000_0000 * t, NS * p, 2 * e);
    assert (2 * e * 0x8000_0000) * t == (0x8000_0000 * t) * (2 * e);
    assert (NS * p) * (2 * e) == NS * (2 * e * p);
    assert (2 * e * 0x8000_0000) * t <= (3 * (x + 1)) * t;
    MulCancel(2 * e * 0x8000_0000, 3 * (x + 1), t);
  }

  lemma FineCase(e: nat, x: nat, c: nat, t: nat)
    requires 2 * e * TWO32 < 3 * c && c * NS < (x + 1) * t && t <= 0x100_0000_0000
    ensures e * 1_000_000 <= x
  {
    MulMono(t, 0x100_0000_0000, x + 1);
    assert (x + 1) * t <= (x + 1) * 0x100_0000_0000;
  }

  /** The unit test's tolerance (one part in a million, or two nanoseconds) holds for every
      interval and every counter rate up to 2^40 ticks a second. */
  lemma FastWithinTolerance(tsc: nat, mult: nat, shift: nat, cyc: nat)
    requires Calibrated(tsc, mult, shift) && tsc <= 0x100_0000_0000
    ensures var x, err := ExactNs(cyc, tsc), ExactNs(cyc, tsc) - FastNs(cyc, mult, shift);
            0 <= err && (err <= 2 || err * 1_000_000 <= x)
  {
    hide ExactNs, FastNs, Pow2, Calibrated;
    CalibratedRate(tsc, mult, shift);
    var p, x := Pow2(shift), ExactNs(cyc, tsc);
    var err := x - FastNs(cyc, mult, shift);
    FastNeverAhead(tsc, mult, shift, cyc);
    FastShortfall(tsc, mult, shift, cyc);
    if err > 2 {
      HalfAgain(err, p, cyc);
      ExactBelow(cyc, tsc);
      if shift < 32 {
        DriftShort(tsc, mult, shift);
        CoarseCase(err, x, p, cyc, tsc);
      } else {
        Pow2Values();
        FineCase(err, x, cyc, tsc);
      }
    }
  }

  lemma CalibratedRate(tsc: nat, mult: nat, shift: nat)
    requires Calibrated(tsc, mult, shift)
    ensures tsc > 0 && shift <= 32
  {
  }

  lemma ExactBelow(cyc: nat, tsc: nat)
    requires tsc > 0
    ensures cyc * NS < (ExactNs(cyc, tsc) + 1) * tsc
  {
    DivBounds(cyc * NS, tsc);
  }

  lemma HalfAgain(e: nat, p: nat, c: nat)
    requires e > 2 && e * p < p + c
    ensures 2 * e * p < 3 * c
  {
    MulMono(3, e, p);
    assert 2 * e * p == 2 * (e * p);
  }

  method Normalised(s: int, ns: int) returns (sec: int, nsec: int)
    ensures sec * NS + nsec == s * NS + ns
    ensures ns >= 0 ==> 0 <= nsec < NS
  {
    sec, nsec := s, ns;
    if nsec >= NS {
      sec := sec + nsec / NS;
      nsec := nsec % NS;
    }
  }

  /** __vdso_clock_gettime past its seqlock read: the guest's clock is the base plus the fast
      nanoseconds, normalised. */
  method VdsoGettime(baseSec: int, baseNsec: int, cyc: U64, mult: U32, shift: nat) returns (sec: int, nsec: int)
    requires 0 <= baseNsec < NS
    ensures FastNs(cyc, mult, shift) < TWO64 / 2 - NS ==>
              0 <= nsec < NS && sec * NS + nsec == baseSec * NS + baseNsec + FastNs(cyc, mult, shift)
  {
    var ns := FastNs(cyc, mult, shift);
    sec, nsec := Normalised(baseSec, baseNsec + ToI64(ns % TWO64));
  }
}
