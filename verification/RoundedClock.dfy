// The TypeScript receiver's two computations with the clock in doubles - the check of a 64-bit timestamp read
// through Number, and the cache's cutoff - and when, exactly, they are those on the numbers themselves.
module RoundedClock {
  import opened Basics

  // --- Number: a 64-bit integer rounded to a double, ties to even ---

  const TWO_53 := 0x20_0000_0000_0000

  // The distance between the doubles around x.
  function Ulp(x: nat): (u: nat)
    ensures u >= 1
  {
    if x < TWO_53 then 1 else 2 * Ulp(x / 2)
  }

  // The nearest multiple of u, and of two the one with the even factor.
  function Nearest(x: nat, u: nat): nat
    requires u >= 1
  {
    var q, r := x / u, x % u;
    if 2 * r < u || (2 * r == u && q % 2 == 0) then q * u else (q + 1) * u
  }

  function ToNumber(x: nat): nat {
    Nearest(x, Ulp(x))
  }

  predicate IsNumber(x: int) {
    0 <= x && ToNumber(x) == x
  }

  // a - b in doubles, for a and b that are doubles already.
  function Minus(a: int, b: int): int {
    var size: int := ToNumber(Abs(a - b));
    if a >= b then size else -size
  }

  predicate Stale(timestamp: nat, now: int, window: int) {
    Abs(Minus(ToNumber(timestamp), now)) > window
  }

  // --- rounding is monotone ---

  // A double has 53 bits.
  lemma {:induction false} MantissaBits(x: nat)
    ensures x < TWO_53 * Ulp(x)
    ensures x >= TWO_53 ==> TWO_53 / 2 * Ulp(x) <= x
  {
    if x < TWO_53 {
    } else {
      MantissaBits(x / 2);
    }
  }

  lemma {:induction false} UlpGrowsEvenly(x: nat, y: nat) returns (k: nat)
    requires x <= y
    ensures Ulp(y) == Ulp(x) || (k >= 1 && Ulp(y) == 2 * (k * Ulp(x)))
  {
    if y < TWO_53 {
      k := 0;
    } else if x < TWO_53 {
      k := Ulp(y / 2);
    } else {
      k := UlpGrowsEvenly(x / 2, y / 2);
      assert 2 * (k * Ulp(x / 2)) == k * Ulp(x);
    }
  }

  lemma TimesIsMonotone(a: nat, b: nat, u: nat)
    requires a <= b
    ensures a * u <= b * u
  {
    assert b * u == a * u + (b - a) * u;
  }

  // The quotient among other multiples of u.
  lemma Quotient(x: nat, u: nat, q: nat, r: nat, m: nat)
    requires u >= 1 && x == q * u + r && r < u
    ensures m * u <= x ==> m <= q
    ensures x <= m * u ==> q < m || (q == m && r == 0)
    ensures q < m ==> (q + 1) * u <= m * u
    ensures m <= q ==> m * u <= q * u
  {
    assert (q + 1) * u == q * u + u;
    if q < m {
      TimesIsMonotone(q + 1, m, u);
    } else if m < q {
      TimesIsMonotone(m + 1, q, u);
      assert (m + 1) * u == m * u + u;
    }
  }

  lemma NearestStaysBeside(x: nat, u: nat, m: nat)
    requires u >= 1
    ensures x <= m * u ==> Nearest(x, u) <= m * u
    ensures m * u <= x ==> m * u <= Nearest(x, u)
  {
    var q, r := x / u, x % u;
    Quotient(x, u, q, r, m);
    assert (q + 1) * u == q * u + u;
  }

  lemma NearestIsMonotone(x: nat, y: nat, u: nat)
    requires u >= 1 && x <= y
    ensures Nearest(x, u) <= Nearest(y, u)
  {
    var p, q := x / u, y / u;
    Quotient(x, u, p, x % u, q);
    Quotient(y, u, q, y % u, p);
    if p < q {
      NearestStaysBeside(x, u, q);
      NearestStaysBeside(y, u, q);
    } else {
      assert p == q && x % u <= y % u;
      TimesIsMonotone(q, q + 1, u);
    }
  }

  // Between two doubles of different distances lies a power of two that is a double of both.
  lemma NumberIsMonotone(x: nat, y: nat)
    requires x <= y
    ensures ToNumber(x) <= ToNumber(y)
  {
    var u, v := Ulp(x), Ulp(y);
    var k := UlpGrowsEvenly(x, y);
    if u == v {
      NearestIsMonotone(x, y, u);
    } else {
      MantissaBits(x);
      MantissaBits(y);
      NearestStaysBeside(x, u, TWO_53);
      NearestStaysBeside(y, v, TWO_53 / 2);
      TimesIsMonotone(1, k, u);
    }
  }

  lemma NumberIsExactBelow(x: nat)
    requires x <= TWO_53
    ensures ToNumber(x) == x
  {
    if x == TWO_53 {
      assert Ulp(x / 2) == 1;
    }
  }

  lemma MinusIsMonotone(a: nat, b: nat, now: nat)
    requires a <= b
    ensures Minus(a, now) <= Minus(b, now)
    ensures Minus(now, now) == 0
  {
    if now <= a {
      NumberIsMonotone(a - now, b - now);
    } else if b < now {
      NumberIsMonotone(now - b, now - a);
    }
    NumberIsExactBelow(0);
  }

  // What the check reads, for a clock that is a double.
  function Skew(timestamp: nat, now: nat): int {
    Minus(ToNumber(timestamp), now)
  }

  lemma SkewIsMonotone(a: nat, b: nat, now: nat)
    requires a <= b && IsNumber(now)
    ensures Skew(a, now) <= Skew(b, now)
    ensures Skew(now, now) == 0
  {
    NumberIsMonotone(a, b);
    MinusIsMonotone(ToNumber(a), ToNumber(b), now);
  }

  // --- the check is exact exactly if it is at the edges of the window ---

  predicate Exact(timestamp: nat, now: nat, window: int) {
    Stale(timestamp, now, window) <==> Abs(timestamp - now) > window
  }

  // The last timestamps inside the window and the first outside it, of those up to top.
  predicate ExactAtEdges(now: nat, window: int, top: nat) {
    && ExactWithin(Min(now + window, top), now, window, top)
    && ExactWithin(now + window + 1, now, window, top)
    && ExactWithin(now - window, now, window, top)
    && ExactWithin(Min(now - window - 1, top), now, window, top)
  }

  predicate ExactWithin(edge: int, now: nat, window: int, top: nat) {
    0 <= edge <= top ==> Exact(edge, now, window)
  }

  lemma AboveTheWindow(ts: nat, now: nat, window: nat, top: nat)
    requires IsNumber(now) && now + window < ts <= top && ExactWithin(now + window + 1, now, window, top)
    ensures Exact(ts, now, window)
  {
    SkewIsMonotone(now, now + window + 1, now);
    SkewIsMonotone(now + window + 1, ts, now);
  }

  lemma UpperHalf(ts: nat, now: nat, window: nat, top: nat)
    requires IsNumber(now) && now <= ts <= now + window && ts <= top
    requires ExactWithin(Min(now + window, top), now, window, top)
    ensures Exact(ts, now, window)
  {
    SkewIsMonotone(now, ts, now);
    SkewIsMonotone(ts, Min(now + window, top), now);
  }

  lemma LowerHalf(ts: nat, now: nat, window: nat, top: nat)
    requires IsNumber(now) && now - window <= ts <= now && ts <= top
    requires ExactWithin(now - window, now, window, top)
    ensures Exact(ts, now, window)
  {
    SkewIsMonotone(ts, now, now);
    if now >= window {
      SkewIsMonotone(now - window, ts, now);
    } else {
      SkewIsMonotone(0, ts, now);
      NumberIsExactBelow(0);
    }
  }

  lemma BelowTheWindow(ts: nat, now: nat, window: nat, top: nat)
    requires IsNumber(now) && ts < now - window && ts <= top
    requires ExactWithin(Min(now - window - 1, top), now, window, top)
    ensures Exact(ts, now, window)
  {
    SkewIsMonotone(ts, Min(now - window - 1, top), now);
    SkewIsMonotone(Min(now - window - 1, top), now, now);
  }

  lemma ExactFromTheEdges(ts: nat, now: nat, window: int, top: nat)
    requires IsNumber(now) && ts <= top && ExactAtEdges(now, window, top)
    ensures Exact(ts, now, window)
  {
    if window >= 0 {
      if ts > now + window {
        AboveTheWindow(ts, now, window, top);
      } else if ts >= now {
        UpperHalf(ts, now, window, top);
      } else if ts >= now - window {
        LowerHalf(ts, now, window, top);
      } else {
        BelowTheWindow(ts, now, window, top);
      }
    }
  }

  // Reading the timestamps up to top through Number changes no answer of the clock check if and only if
  // it changes none at the window's edges - for every window, and every clock that is a double.
  lemma RoundedClockCheckExactIff(now: nat, window: int, top: nat)
    requires IsNumber(now)
    ensures (forall ts: nat :: ts <= top ==> Exact(ts, now, window)) <==> ExactAtEdges(now, window, top)
  {
    if ExactAtEdges(now, window, top) {
      forall ts: nat | ts <= top ensures Exact(ts, now, window) {
        ExactFromTheEdges(ts, now, window, top);
      }
    }
  }

  // And with no bound on the timestamps.
  lemma RoundedClockCheckAlwaysExactIff(now: nat, window: nat)
    requires IsNumber(now)
    ensures (forall ts: nat :: Exact(ts, now, window)) <==> ExactAtEdges(now, window, now + window + 1)
  {
    var top := now + window + 1;
    if ExactAtEdges(now, window, top) {
      forall ts: nat ensures Exact(ts, now, window) {
        if ts <= top { ExactFromTheEdges(ts, now, window, top); } else { AboveTheWindow(ts, now, window, ts); }
      }
    }
  }

  // While now + window stays below 2^53 it changes none.
  lemma RoundedClockCheckAgrees(now: nat, window: nat, top: nat)
    requires now + window < TWO_53
    ensures IsNumber(now) && ExactAtEdges(now, window, top)
    ensures forall ts: nat :: ts <= top ==> Exact(ts, now, window)
  {
    NumberIsExactBelow(now);
    forall edge: nat | edge <= now + window + 1 ensures Exact(edge, now, window) {
      NumberIsExactBelow(edge);
      NumberIsExactBelow(Abs(edge - now));
    }
    RoundedClockCheckExactIff(now, window, top);
  }

  // At 2^53 it does: the first timestamp outside the window rounds into it.
  lemma RoundedClockCheckDiffersAt(now: nat, window: nat, top: nat)
    requires now + window == TWO_53 < top
    ensures !Stale(TWO_53 + 1, now, window) && Abs(TWO_53 + 1 - now) > window
    ensures IsNumber(now) && !ExactAtEdges(now, window, top)
  {
    assert Ulp((TWO_53 + 1) / 2) == 1;
    assert ToNumber(TWO_53 + 1) == TWO_53;
    NumberIsExactBelow(now);
    NumberIsExactBelow(window);
    assert !Exact(now + window + 1, now, window);
  }

  // Beyond it may or may not: with the clock at 2^53 a window of one second is exact for every timestamp,
  // one of three seconds is not.
  lemma RoundedClockCheckBeyond(top: nat)
    requires top >= TWO_53 + 3
    ensures IsNumber(TWO_53)
    ensures ExactAtEdges(TWO_53, 1, top) && !ExactAtEdges(TWO_53, 3, top)
  {
    assert Ulp(TWO_53 / 2) == 1 && Ulp(TWO_53) == 2;
    assert Ulp(TWO_53 + 1) == 2 && Ulp(TWO_53 + 2) == 2 && Ulp(TWO_53 + 3) == 2;
    assert ToNumber(TWO_53 + 1) == TWO_53 && ToNumber(TWO_53 + 2) == TWO_53 + 2;
    assert ToNumber(TWO_53 + 3) == TWO_53 + 4;
    assert !Exact(TWO_53 + 3, TWO_53, 3);
  }

  // --- the cache's cutoff is exact exactly if it is not rounded up ---

  // The doubles around x stay that far apart up to the next power of two, and there twice as far.
  lemma {:induction false} UlpBetween(x: nat, y: nat)
    requires TWO_53 <= x && TWO_53 / 2 * Ulp(x) <= y < TWO_53 * Ulp(x)
    ensures Ulp(y) == Ulp(x)
  {
    if x / 2 < TWO_53 {
      assert Ulp(y / 2) == 1;
    } else {
      UlpBetween(x / 2, y / 2);
    }
  }

  lemma {:induction false} UlpDoubles(x: nat)
    ensures Ulp(TWO_53 * Ulp(x)) == 2 * Ulp(x)
  {
    if x < TWO_53 {
      assert Ulp(TWO_53 / 2) == 1;
    } else {
      UlpDoubles(x / 2);
    }
  }

  lemma NearestIsMultiple(x: nat, u: nat) returns (m: nat)
    requires u >= 1
    ensures Nearest(x, u) == m * u
  {
    m := if 2 * (x % u) < u || (2 * (x % u) == u && x / u % 2 == 0) then x / u else x / u + 1;
  }

  lemma MultipleIsExact(m: nat, u: nat)
    requires u >= 1
    ensures Nearest(m * u, u) == m * u
  {
    NearestStaysBeside(m * u, u, m);
  }

  lemma MultipleIsNumber(y: nat, m: nat)
    requires y == m * Ulp(y)
    ensures IsNumber(y)
  {
    MultipleIsExact(m, Ulp(y));
  }

  lemma NextPowerIsNumber(x: nat)
    ensures IsNumber(TWO_53 * Ulp(x))
  {
    UlpDoubles(x);
    MultipleIsNumber(TWO_53 * Ulp(x), TWO_53 / 2);
  }

  // What Number gives, Number holds.
  lemma NumberIsNumber(x: nat)
    ensures IsNumber(ToNumber(x))
  {
    if x < TWO_53 {
      NumberIsExactBelow(x);
    } else {
      MantissaBits(x);
      NearestStaysBeside(x, Ulp(x), TWO_53 / 2);
      NearestStaysBeside(x, Ulp(x), TWO_53);
      var m := NearestIsMultiple(x, Ulp(x));
      if ToNumber(x) < TWO_53 * Ulp(x) {
        UlpBetween(x, ToNumber(x));
        MultipleIsNumber(ToNumber(x), m);
      } else {
        NextPowerIsNumber(x);
      }
    }
  }

  // now - window in doubles, for the two that are doubles already: what was seen no later has expired.
  function Cutoff(now: int, window: int): int {
    Minus(now, window)
  }

  predicate ExactCutoff(now: int, window: int) {
    Cutoff(now, window) < 0 || Cutoff(now, window) <= now - window
  }

  lemma CutoffFromTheRounding(at: int, now: int, window: int)
    requires IsNumber(at) && ExactCutoff(now, window)
    ensures at <= Cutoff(now, window) <==> at <= now - window
  {
    if at <= now - window {
      NumberIsMonotone(at, now - window);
    }
  }

  // The rounded cutoff expires the same entries, whenever they were seen, if and only if it is negative
  // or not rounded up: rounded up it is itself a time that has not expired.
  lemma RoundedCutoffExactIff(now: int, window: int)
    ensures (forall at :: IsNumber(at) ==> (at <= Cutoff(now, window) <==> at <= now - window))
            <==> ExactCutoff(now, window)
  {
    if ExactCutoff(now, window) {
      forall at | IsNumber(at) ensures at <= Cutoff(now, window) <==> at <= now - window {
        CutoffFromTheRounding(at, now, window);
      }
    } else {
      NumberIsNumber(Abs(now - window));
      assert IsNumber(Cutoff(now, window));
    }
  }

  lemma CutoffBeforeZero(now: int, window: int)
    ensures now < window ==> Cutoff(now, window) < 0
  {
    if now < window {
      NumberIsMonotone(1, window - now);
      NumberIsExactBelow(1);
    }
  }

  // Rounded up it lies in the window behind the clock, for the clock check as it is and as it is rounded.
  lemma CutoffIsInTheWindow(now: int, window: int)
    requires IsNumber(now) && IsNumber(window) && !ExactCutoff(now, window)
    ensures IsNumber(Cutoff(now, window)) && now - window < Cutoff(now, window) <= now
    ensures !Stale(now, Cutoff(now, window), window) && !Stale(now, now, window)
  {
    NumberIsNumber(Abs(now - window));
    CutoffBeforeZero(now, window);
    NumberIsMonotone(now - window, now);
    NumberIsMonotone(now - Cutoff(now, window), window);
    NumberIsExactBelow(0);
  }

  // With the clock at 2^53 or below it never is.
  lemma RoundedCutoffAgrees(now: int, window: nat)
    requires now <= TWO_53
    ensures ExactCutoff(now, window)
  {
    if now >= window {
      NumberIsExactBelow(now - window);
    } else {
      CutoffBeforeZero(now, window);
    }
  }

  // Beyond it can be where the clock check is exact: with the clock at 2^53 + 4 and a window of one second
  // everything seen by now has expired.
  lemma RoundedCutoffBeyond(top: nat)
    requires top >= TWO_53 + 6
    ensures IsNumber(TWO_53 + 4) && ExactAtEdges(TWO_53 + 4, 1, top)
    ensures Cutoff(TWO_53 + 4, 1) == TWO_53 + 4 && !ExactCutoff(TWO_53 + 4, 1)
  {
    assert Ulp(TWO_53 / 2 + 1) == 1 && Ulp(TWO_53 / 2 + 2) == 1 && Ulp(TWO_53 / 2 + 3) == 1;
    assert Ulp(TWO_53 + 2) == 2 && Ulp(TWO_53 + 3) == 2 && Ulp(TWO_53 + 4) == 2;
    assert Ulp(TWO_53 + 5) == 2 && Ulp(TWO_53 + 6) == 2;
    assert ToNumber(TWO_53 + 2) == TWO_53 + 2 && ToNumber(TWO_53 + 3) == TWO_53 + 4;
    assert ToNumber(TWO_53 + 4) == TWO_53 + 4 && ToNumber(TWO_53 + 5) == TWO_53 + 4;
    assert ToNumber(TWO_53 + 6) == TWO_53 + 6;
    NumberIsExactBelow(0);
    NumberIsExactBelow(1);
    NumberIsExactBelow(2);
  }
}
