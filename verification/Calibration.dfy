/**
 Recalibration of the clock against the system clock, over the reals, with a constant true tick rate.
 */
module Calibration {

  /** What saveParam stores: the line through (baseTsc, baseNs), and the error against the system clock there. */
  datatype Params = Params(baseTsc: real, baseNs: real, nsPerTsc: real, baseNsErr: real)

  function Line(p: Params, tsc: real): real {
    p.baseNs + (tsc - p.baseTsc) * p.nsPerTsc
  }

  /** The error one interval on if it keeps growing as it did, from baseErr to err over `elapsed`. */
  function Extrapolated(err: real, baseErr: real, interval: real, elapsed: real): real
    requires elapsed > 0.0
  {
    err + (err - baseErr) * interval / elapsed
  }

  /** The rate that makes up for the expected error within one interval. */
  function Corrected(rate: real, expected: real, interval: real): real
    requires interval > 0.0
  {
    rate * (1.0 - expected / interval)
  }

  /** The error that is expected one interval after (tsc, ns). */
  function Expected(p: Params, tsc: real, ns: real, interval: real): real
    requires ns > p.baseNs - p.baseNsErr
  {
    Extrapolated(Line(p, tsc) - ns, p.baseNsErr, interval, ns - p.baseNs + p.baseNsErr)
  }

  lemma QuotientTimes(a: real, b: real)
    requires b != 0.0
    ensures b * (a / b) == a
  {
  }

  lemma LineThrough(p: Params, tsc: real, dt: real, dn: real)
    requires dt == tsc - p.baseTsc && dt != 0.0 && p.nsPerTsc == dn / dt
    ensures Line(p, tsc) == p.baseNs + dn && Line(p, p.baseTsc) == p.baseNs
  {
    QuotientTimes(dn, dt);
    assert dt * p.nsPerTsc == dn;
  }

  class Clock {
    var nsPerTsc: real
    var baseTsc: real
    var baseNs: real
    var interval: real
    var baseNsErr: real
    var nextCalibrateTsc: real

    function P(): Params
      reads this
    {
      Params(baseTsc, baseNs, nsPerTsc, baseNsErr)
    }

    method SaveParam(tsc: real, ns: real, sysNs: real, rate: real)
      requires rate != 0.0
      modifies this
      ensures P() == Params(tsc, ns, rate, ns - sysNs) && interval == old(interval)
      ensures nextCalibrateTsc == tsc + (interval - 1000.0) / rate
    {
      baseNsErr := ns - sysNs;
      nextCalibrateTsc := tsc + (interval - 1000.0) / rate;
      baseTsc := tsc;
      baseNs := ns;
      nsPerTsc := rate;
    }

    /** init: the line through two synchronised readings. */
    method Init(calibrateInterval: real, tsc0: real, ns0: real, tsc1: real, ns1: real)
      requires tsc0 < tsc1 && ns0 < ns1
      modifies this
      ensures interval == calibrateInterval
      ensures Line(P(), tsc0) == ns0 && Line(P(), tsc1) == ns1 && baseNsErr == 0.0
    {
      interval := calibrateInterval;
      var rate := (ns1 - ns0) / (tsc1 - tsc0);
      SaveParam(tsc0, ns0, ns0, rate);
      LineThrough(P(), tsc1, tsc1 - tsc0, ns1 - ns0);
    }

    function Tsc2Ns(tsc: real): (ns: real)
      reads this
      ensures ns == Line(P(), tsc)
    {
      baseNs + (tsc - baseTsc) * nsPerTsc
    }

    /** calibrate, with the reading of the cycle counter that decides whether it is due, and the synchronised pair. */
    method Calibrate(now: real, tsc: real, ns: real)
      requires interval > 0.0 && ns > baseNs - baseNsErr
      requires Corrected(nsPerTsc, Expected(P(), tsc, ns, interval), interval) != 0.0
      modifies this
      ensures interval == old(interval)
      ensures now < old(nextCalibrateTsc) ==> P() == old(P()) && nextCalibrateTsc == old(nextCalibrateTsc)
      ensures now >= old(nextCalibrateTsc) ==> P() == Calibrated(old(P()), tsc, ns, interval)
      ensures Tsc2Ns(tsc) == old(Tsc2Ns(tsc))
    {
      hide Extrapolated, Corrected;
      if now < nextCalibrateTsc { return; }
      var calculated := Tsc2Ns(tsc);
      var err := calculated - ns;
      var expected := Extrapolated(err, baseNsErr, interval, ns - baseNs + baseNsErr);
      var rate := Corrected(nsPerTsc, expected, interval);
      SaveParam(tsc, calculated, ns, rate);
    }
  }

  /** The parameters after a recalibration at (tsc, ns). */
  function Calibrated(p: Params, tsc: real, ns: real, interval: real): Params
    requires interval > 0.0 && ns > p.baseNs - p.baseNsErr
  {
    Params(tsc, Line(p, tsc), Corrected(p.nsPerTsc, Expected(p, tsc, ns, interval), interval), Line(p, tsc) - ns)
  }

  // ---- against a clock with a constant true rate

  /** The system clock: `rate` nanoseconds per cycle. */
  datatype Truth = Truth(rate: real, offset: real)

  function Sys(k: Truth, tsc: real): real {
    k.rate * tsc + k.offset
  }

  /** The parameters were taken against this clock. */
  predicate Against(p: Params, k: Truth) {
    k.rate > 0.0 && p.baseNs - p.baseNsErr == Sys(k, p.baseTsc)
  }

  /** Relative error of the rate in use. */
  function Drift(p: Params, k: Truth): real
    requires k.rate > 0.0
  {
    p.nsPerTsc / k.rate - 1.0
  }

  function Error(p: Params, k: Truth, tsc: real): real {
    Line(p, tsc) - Sys(k, tsc)
  }

  /** Products as a function, so that proofs need not look inside them. */
  function Mul(a: real, b: real): real {
    a * b
  }

  /** The drift that is left after recalibrating with drift d and error e. */
  function NewDrift(d: real, e: real, interval: real): real
    requires interval > 0.0
  {
    (1.0 + d) * (1.0 - (e + d * interval) / interval) - 1.0
  }

  lemma DriftRate(p: Params, k: Truth)
    requires k.rate > 0.0
    ensures p.nsPerTsc == k.rate * (1.0 + Drift(p, k))
  {
    QuotientTimes(p.nsPerTsc, k.rate);
  }

  lemma DriftFrom(p: Params, k: Truth, d: real)
    requires k.rate > 0.0 && p.nsPerTsc == k.rate * d
    ensures Drift(p, k) == d - 1.0
  {
    assert k.rate * d / k.rate == d;
  }

  lemma Distribute(r: real, a: real, b: real, t: real)
    ensures t * (r * (1.0 + a)) == r * t + a * (r * t)
    ensures r * (a - b) == r * a - r * b
  {
    calc {
      t * (r * (1.0 + a));
      (t * r) * (1.0 + a);
      (r * t) * (1.0 + a);
      r * t + (r * t) * a;
      r * t + a * (r * t);
    }
  }

  /** The error grows with the drift over the true time that passes. */
  lemma ErrorGrows(p: Params, k: Truth, tsc: real)
    requires Against(p, k)
    ensures Error(p, k, tsc) == p.baseNsErr + Mul(Drift(p, k), Sys(k, tsc) - Sys(k, p.baseTsc))
  {
    DriftRate(p, k);
    var t := tsc - p.baseTsc;
    Distribute(k.rate, Drift(p, k), 0.0, t);
    Distribute(k.rate, tsc, p.baseTsc, 0.0);
    hide Drift;
    assert Sys(k, tsc) - Sys(k, p.baseTsc) == k.rate * t;
    assert Line(p, tsc) == p.baseNs + t * p.nsPerTsc;
  }

  /** The expected error is the present one plus the drift over one interval. */
  lemma ExpectedIsDrift(p: Params, k: Truth, tsc: real, interval: real)
    requires Against(p, k) && Sys(k, tsc) > Sys(k, p.baseTsc)
    ensures Sys(k, tsc) > p.baseNs - p.baseNsErr
    ensures Expected(p, tsc, Sys(k, tsc), interval) == Error(p, k, tsc) + Mul(Drift(p, k), interval)
  {
    ErrorGrows(p, k, tsc);
    var d, t := Drift(p, k), Sys(k, tsc) - Sys(k, p.baseTsc);
    hide Drift, Sys;
    assert (d * t) * interval / t == d * interval by {
      assert (d * t) * interval == (d * interval) * t;
      assert (d * interval) * t / t == d * interval;
    }
  }

  /** Recalibrating keeps the parameters tied to the clock and does not move the converted time. */
  lemma CalibratedFacts(p: Params, k: Truth, tsc: real, interval: real)
    requires Against(p, k) && Sys(k, tsc) > Sys(k, p.baseTsc) && interval > 0.0
    ensures var p' := Calibrated(p, tsc, Sys(k, tsc), interval);
            var d, e := Drift(p, k), Error(p, k, tsc);
            && Against(p', k) && p'.baseTsc == tsc && p'.baseNsErr == e && Error(p', k, tsc) == e
            && Drift(p', k) == NewDrift(d, e, interval)
  {
    var p' := Calibrated(p, tsc, Sys(k, tsc), interval);
    var d, e := Drift(p, k), Error(p, k, tsc);
    ExpectedIsDrift(p, k, tsc, interval);
    DriftRate(p, k);
    var f := 1.0 - (e + d * interval) / interval;
    assert p'.nsPerTsc == k.rate * (1.0 + d) * f;
    assert k.rate * (1.0 + d) * f == k.rate * ((1.0 + d) * f);
    DriftFrom(p', k, (1.0 + d) * f);
    ErrorGrows(p', k, tsc);
  }

  lemma Conclude(d: real, e: real, interval: real, w: real, d': real, e': real)
    requires interval > 0.0 && w == e + Mul(d, interval) && e' == e + Mul(d', interval) && d' == NewDrift(d, e, interval)
    ensures e' == -d * w && (w != 0.0 ==> (Abs(e') < Abs(w) <==> Abs(d) < 1.0))
  {
    CorrectionAlgebra(d, e, interval);
    SmallerError(d, w);
  }

  lemma CorrectionAlgebra(d: real, e: real, interval: real)
    requires interval > 0.0
    ensures e + ((1.0 + d) * (1.0 - (e + d * interval) / interval) - 1.0) * interval == -d * (e + d * interval)
  {
    var w := e + d * interval;
    var q := w / interval;
    assert q * interval == w by { QuotientTimes(w, interval); }
    calc {
      ((1.0 + d) * (1.0 - q) - 1.0) * interval;
      (d - q - d * q) * interval;
      d * interval - q * interval - d * (q * interval);
      d * interval - w - d * w;
    }
  }

  /**
   What one recalibration achieves: with drift d and error e, the error one interval later is exactly -d * (e + d * I),
   where e + d * I is the error that was expected; it is smaller in magnitude if and only if |d| < 1 (unless both are 0).
   */
  lemma ErrorAfterInterval(p: Params, k: Truth, tsc: real, later: real, interval: real)
    requires Against(p, k) && Sys(k, tsc) > Sys(k, p.baseTsc) && interval > 0.0
    requires Sys(k, later) - Sys(k, tsc) == interval
    ensures Sys(k, tsc) > p.baseNs - p.baseNsErr
    ensures var p' := Calibrated(p, tsc, Sys(k, tsc), interval);
            var d, w := Drift(p, k), Expected(p, tsc, Sys(k, tsc), interval);
            && w == Error(p, k, tsc) + d * interval
            && Error(p', k, later) == -d * w
            && (w != 0.0 ==> (Abs(Error(p', k, later)) < Abs(w) <==> Abs(d) < 1.0))
  {
    ExpectedIsDrift(p, k, tsc, interval);
    CalibratedFacts(p, k, tsc, interval);
    var p' := Calibrated(p, tsc, Sys(k, tsc), interval);
    var d, e := Drift(p, k), Error(p, k, tsc);
    ErrorGrows(p', k, later);
    assert Mul(d, interval) == d * interval;
    hide *;
    var w := Expected(p, tsc, Sys(k, tsc), interval);
    Conclude(d, e, interval, w, Drift(p', k), Error(p', k, later));
  }

  function Abs(x: real): real {
    if x < 0.0 then -x else x
  }

  lemma AbsProduct(d: real, w: real)
    ensures Abs(-d * w) == Abs(d) * Abs(w)
  {
  }

  lemma SmallerError(d: real, w: real)
    ensures w != 0.0 ==> (Abs(-d * w) < Abs(w) <==> Abs(d) < 1.0)
  {
    AbsProduct(d, w);
    if w != 0.0 {
      var a, b, c := Abs(d), Abs(w), Abs(-d * w);
      assert b > 0.0 && c == a * b;
      hide Abs;
      SmallerProduct(a, b, c);
    }
  }

  lemma SmallerProduct(a: real, b: real, c: real)
    requires b > 0.0 && c == a * b
    ensures c < b <==> a < 1.0
  {
    if a < 1.0 { assert (1.0 - a) * b > 0.0; } else { assert (a - 1.0) * b >= 0.0; }
  }

  // ---- repeated recalibration

  /** Cycle count when the true clock has advanced by one interval since the parameters were stored. */
  function NextTsc(p: Params, k: Truth, interval: real): real
    requires k.rate > 0.0
  {
    p.baseTsc + interval / k.rate
  }

  lemma NextTscFacts(p: Params, k: Truth, interval: real)
    requires k.rate > 0.0
    ensures Sys(k, NextTsc(p, k, interval)) - Sys(k, p.baseTsc) == interval
  {
    QuotientTimes(interval, k.rate);
    var q := interval / k.rate;
    assert k.rate * (p.baseTsc + q) == k.rate * p.baseTsc + k.rate * q;
  }

  /** One recalibration after one interval. */
  function Again(p: Params, k: Truth, interval: real): (q: Params)
    requires Against(p, k) && interval > 0.0
    ensures Against(q, k)
  {
    NextTscFacts(p, k, interval);
    var tsc := NextTsc(p, k, interval);
    CalibratedFacts(p, k, tsc, interval);
    Calibrated(p, tsc, Sys(k, tsc), interval)
  }

  /** n recalibrations, one interval apart. */
  function After(p: Params, k: Truth, interval: real, n: nat): (q: Params)
    requires Against(p, k) && interval > 0.0
    ensures Against(q, k)
  {
    if n == 0 then p else Again(After(p, k, interval, n - 1), k, interval)
  }

  /** Error and drift after a recalibration, the error in units of the interval. */
  function NextX(x: real, d: real): real {
    x + d
  }

  function NextD(x: real, d: real): real {
    (1.0 + d) * (1.0 - (x + 2.0 * d)) - 1.0
  }

  lemma AgainFacts(p: Params, k: Truth, interval: real, x: real)
    requires Against(p, k) && interval > 0.0 && p.baseNsErr == Mul(x, interval)
    ensures var q := Again(p, k, interval);
            q.baseNsErr == Mul(NextX(x, Drift(p, k)), interval) && Drift(q, k) == NextD(x, Drift(p, k))
  {
    NextTscFacts(p, k, interval);
    var tsc := NextTsc(p, k, interval);
    CalibratedFacts(p, k, tsc, interval);
    ErrorGrows(p, k, tsc);
    hide Mul, NewDrift, NextX, NextD, Against, Drift, Error, Calibrated, Sys, NextTsc;
    InUnits(x, Drift(p, k), interval, Error(p, k, tsc));
  }

  lemma InUnits(x: real, d: real, interval: real, e: real)
    requires interval > 0.0 && e == Mul(x, interval) + Mul(d, interval)
    ensures e == Mul(NextX(x, d), interval) && NewDrift(d, e, interval) == NextD(x, d)
  {
    assert e + d * interval == (x + 2.0 * d) * interval;
    assert (x + 2.0 * d) * interval / interval == x + 2.0 * d;
  }

  lemma ProductBound(a: real, b: real, m: real, n: real)
    requires Abs(a) <= m && Abs(b) <= n
    ensures Abs(a * b) <= m * n
  {
    AbsTimes(a, b);
    var u, v, w := Abs(a), Abs(b), Abs(a * b);
    assert 0.0 <= u && 0.0 <= v && w == u * v;
    hide Abs;
    assert (m - u) * n >= 0.0 && u * (n - v) >= 0.0;
    assert (m - u) * n == m * n - u * n && u * (n - v) == u * n - u * v;
  }

  lemma AbsTimes(a: real, b: real)
    ensures Abs(a * b) == Abs(a) * Abs(b)
  {
  }

  lemma SumBound(a: real, b: real, m: real, n: real)
    requires Abs(a) <= m && Abs(b) <= n
    ensures Abs(a + b) <= m + n && Abs(a - b) <= m + n && Abs(-a - b) <= m + n
  {
  }

  lemma TwoStepAlgebra(x: real, d: real)
    ensures var x1, d1 := NextX(x, d), NextD(x, d);
            var x2, d2 := NextX(x1, d1), NextD(x1, d1);
            && x1 == x + d && x2 == Mul(-d, x + 2.0 * d) && d1 == x2 - x1
            && d2 == -x2 - Mul(d1, x2 + d1)
  {
    var x1, d1 := NextX(x, d), NextD(x, d);
    assert d1 == -x1 - d * (x + 2.0 * d);
    assert NextD(x1, d1) == -x1 - d1 - d1 * (x1 + 2.0 * d1);
  }

  lemma SquareOfSmall(m: real)
    requires 0.0 <= m <= 0.05
    ensures 0.0 <= Mul(m, m) <= 0.05 * m
  {
    MulNonNegative(m, 0.05 - m);
    MulNonNegative(m, m);
    assert m * (0.05 - m) == 0.05 * m - m * m;
  }

  lemma MulNonNegative(a: real, b: real)
    requires a >= 0.0 && b >= 0.0
    ensures a * b >= 0.0
  {
  }

  lemma ScaledProduct(a: real, b: real, m: real, u: real, v: real, mm: real)
    requires Abs(a) <= u * m && Abs(b) <= v * m && mm == Mul(m, m)
    ensures Abs(Mul(a, b)) <= u * v * mm
  {
    ProductBound(a, b, u * m, v * m);
    Rearranged(u, v, m);
  }

  lemma Rearranged(u: real, v: real, m: real)
    ensures (u * m) * (v * m) == u * v * (m * m)
  {
    assert (u * m) * (v * m) == u * (m * (v * m)) && m * (v * m) == v * (m * m);
  }

  lemma FirstBound(x: real, d: real, m: real, mm: real)
    requires Abs(x) <= m && Abs(d) <= m && mm == Mul(m, m)
    ensures Abs(Mul(-d, x + 2.0 * d)) <= 3.0 * mm
  {
    hide Mul;
    SumBound(x, 2.0 * d, m, 2.0 * m);
    ScaledProduct(-d, x + 2.0 * d, m, 1.0, 3.0, mm);
  }

  lemma SecondBound(a: real, b: real, m: real, mm: real)
    requires Abs(a) <= 2.15 * m && Abs(b) <= 2.3 * m && mm == Mul(m, m)
    ensures Abs(Mul(a, b)) <= 4.945 * mm
  {
    hide Mul;
    ScaledProduct(a, b, m, 2.15, 2.3, mm);
  }

  lemma LinearBounds(x: real, d: real, x1: real, d1: real, x2: real, m: real, mm: real)
    requires Abs(x) <= m && Abs(d) <= m && 0.0 <= mm <= 0.05 * m
    requires x1 == x + d && d1 == x2 - x1 && Abs(x2) <= 3.0 * mm
    ensures Abs(d1) <= 2.15 * m && Abs(x2 + d1) <= 2.3 * m
  {
  }

  /** Two recalibrations square the error: from at most m to at most 8 * m^2, if m is small to begin with. */
  lemma TwoSteps(x: real, d: real, m: real)
    requires Abs(x) <= m && Abs(d) <= m && m <= 0.05
    ensures var x1, d1 := NextX(x, d), NextD(x, d);
            Abs(NextX(x1, d1)) <= 8.0 * Mul(m, m) && Abs(NextD(x1, d1)) <= 8.0 * Mul(m, m)
  {
    TwoStepAlgebra(x, d);
    SquareOfSmall(m);
    assert m >= 0.0;
    var x1, d1, mm := NextX(x, d), NextD(x, d), Mul(m, m);
    hide Mul, Abs, NextD, NextX;
    var x2 := NextX(x1, d1);
    FirstBound(x, d, m, mm);
    LinearBounds(x, d, x1, d1, x2, m, mm);
    SecondBound(d1, x2 + d1, m, mm);
    SumBound(x2, Mul(d1, x2 + d1), 3.0 * mm, 4.945 * mm);
  }

  /** The bound after n pairs of recalibrations. */
  function Bound(m: real, n: nat): real {
    if n == 0 then m else 8.0 * Mul(Bound(m, n - 1), Bound(m, n - 1))
  }

  lemma {:induction false} BoundHalves(m: real, n: nat)
    requires 0.0 <= m <= 0.05
    ensures 0.0 <= Bound(m, n) <= m && (n > 0 ==> Bound(m, n) <= Bound(m, n - 1) / 2.0)
  {
    if n > 0 {
      BoundHalves(m, n - 1);
      SquareOfSmall(Bound(m, n - 1));
    }
  }

  lemma AfterTwo(p: Params, k: Truth, interval: real, n: nat)
    requires Against(p, k) && interval > 0.0 && n > 0
    ensures After(p, k, interval, 2 * n) == Again(Again(After(p, k, interval, 2 * n - 2), k, interval), k, interval)
  {
    hide Again, Against;
    assert After(p, k, interval, 2 * n - 1) == Again(After(p, k, interval, 2 * n - 2), k, interval);
  }

  /** Error (x intervals) and drift are both at most b. */
  predicate InBox(p: Params, k: Truth, interval: real, x: real, b: real)
    requires k.rate > 0.0
  {
    p.baseNsErr == Mul(x, interval) && Abs(x) <= b && Abs(Drift(p, k)) <= b
  }

  lemma TwoRecalibrations(p: Params, k: Truth, interval: real, x: real, b: real) returns (x': real)
    requires Against(p, k) && interval > 0.0 && InBox(p, k, interval, x, b) && b <= 0.05
    ensures InBox(Again(Again(p, k, interval), k, interval), k, interval, x', 8.0 * Mul(b, b))
  {
    var q := Again(p, k, interval);
    assert b >= 0.0;
    hide Mul, Again, Drift, NextX, NextD, Abs, Against;
    AgainFacts(p, k, interval, x);
    AgainFacts(q, k, interval, NextX(x, Drift(p, k)));
    TwoSteps(x, Drift(p, k), b);
    x' := NextX(NextX(x, Drift(p, k)), NextD(x, Drift(p, k)));
  }

  /**
   Convergence: starting with an error of at most a twentieth of the interval and a drift of at most 5%, the
   error and the drift after 2n recalibrations are below a bound that is squared (times 8) every two recalibrations.
   */
  lemma {:induction false} Converges(p: Params, k: Truth, interval: real, x: real, m: real, n: nat) returns (x': real)
    requires Against(p, k) && interval > 0.0 && 0.0 <= m <= 0.05 && InBox(p, k, interval, x, m)
    ensures InBox(After(p, k, interval, 2 * n), k, interval, x', Bound(m, n))
  {
    hide InBox, Again;
    if n == 0 {
      assert After(p, k, interval, 0) == p;
      x' := x;
    } else {
      var y := Converges(p, k, interval, x, m, n - 1);
      BoundHalves(m, n - 1);
      x' := TwoRecalibrations(After(p, k, interval, 2 * n - 2), k, interval, y, Bound(m, n - 1));
      AfterTwo(p, k, interval, n);
    }
  }
}
