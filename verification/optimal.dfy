/** The window of multipliers loses nothing (internal/heea8l/heea8l.go:139-228): for 0 < k < L no unit row of
    the Euclidean run, principal or at any intermediate multiplier, beats what the search returns. */
module Optimal {
  import opened Arith
  import opened Euclid
  import opened Selection
  import opened Semiconvergent
  import opened Unit

  // ---------------------------------------------------------------- what the list contains

  lemma AddKeeps(qs: seq<int>, q: int, a: int, t0: int, t1: int, p: int)
    ensures p in qs ==> p in AddMultiplier(qs, q, a, t0, t1)
    ensures 0 <= q <= a && (t0 - q * t1) % 2 == 1 ==> q in AddMultiplier(qs, q, a, t0, t1)
  {}

  lemma {:induction false} WindowHas(qs: seq<int>, d: int, e: int, center: int, a: int, t0: int, t1: int)
    requires d <= e <= 3 && 0 <= center + e <= a && (t0 - (center + e) * t1) % 2 == 1
    ensures center + e in Window(qs, d, center, a, t0, t1)
    decreases 4 - d
  {
    hide AddMultiplier;
    var next := AddMultiplier(qs, center + d, a, t0, t1);
    AddKeeps(qs, center + d, a, t0, t1, center + d);
    if d < e { WindowHas(next, d + 1, e, center, a, t0, t1); } else { WindowKeeps(next, d + 1, center, a, t0, t1, center + d); }
  }

  lemma {:induction false} WindowKeeps(qs: seq<int>, d: int, center: int, a: int, t0: int, t1: int, p: int)
    requires p in qs
    ensures p in Window(qs, d, center, a, t0, t1)
    decreases 4 - d
  {
    hide AddMultiplier;
    if d <= 3 {
      AddKeeps(qs, center + d, a, t0, t1, p);
      WindowKeeps(AddMultiplier(qs, center + d, a, t0, t1), d + 1, center, a, t0, t1, p);
    }
  }

  lemma InWindow(r0: int, r1: int, t0: int, t1: int, a: int, p: int)
    requires 0 <= p <= a && (t0 - p * t1) % 2 == 1 && Abs(p - Center(r0, r1, t0, t1, a)) <= 3
    ensures p in Multipliers(r0, r1, t0, t1, a)
  {
    hide Window, Ends, Center;
    var c := Center(r0, r1, t0, t1, a);
    WindowHas(Ends([], 0, a, t0, t1), -3, p - c, c, a, t0, t1);
  }

  // ---------------------------------------------------------------- the crossing

  function Mid(x: Row, y: Row, q: int): Candidate { Candidate(x.rho - q * y.rho, x.tau - q * y.tau) }

  /** Up to the center the remainder dominates, past it the coefficient. */
  lemma Crossing(r0: nat, r1: nat, t0: int, t1: int, a: int, p: int)
    requires r1 > 0 && t1 != 0 && 0 <= p <= a
    ensures p <= Center(r0, r1, t0, t1, a) && p > 0 ==> r0 - p * r1 >= Abs(t0) + p * Abs(t1)
    ensures p > Center(r0, r1, t0, t1, a) ==> r0 - p * r1 < Abs(t0) + p * Abs(t1)
    ensures 0 <= Center(r0, r1, t0, t1, a) && (a >= 0 ==> Center(r0, r1, t0, t1, a) <= a)
  {
    var n, s := r0 - Abs(t0), Abs(t1) + r1;
    assert p * s == p * Abs(t1) + p * r1;
    if n > 0 {
      DivMod(n, s);
      var c := n / s;
      if p <= c { MulMono(s, p, c); } else { MulMono(s, c + 1, p); }
      QuotientNonNeg(n, s);
    } else if p > 0 {
      MulMono(s, 1, p);
    }
  }

  /** Moving towards the crossing never loses. */
  lemma Closer(x: Row, y: Row, q: int, p: int, rho: int, tau: nat, rho': int, tau': nat)
    requires Mid(x, y, q).rho == rho >= 0 && Abs(Mid(x, y, q).tau) == tau
    requires Mid(x, y, p).rho == rho' >= 0 && Abs(Mid(x, y, p).tau) == tau'
    requires p == q || (rho' >= tau' && rho > rho') || (tau' > rho' && tau > tau')
    ensures !Better(Mid(x, y, q), Mid(x, y, p))
  {
    hide Mid, BitLen;
    var b, c := Mid(x, y, q), Mid(x, y, p);
    if p != q {
      assert MaxAbs(b) > MaxAbs(c);
      BitLenMono(MaxAbs(c), MaxAbs(b));
      BitLenMax(b);
      BitLenMax(c);
    }
  }

  lemma BitLenMax(c: Candidate)
    ensures Width(c) == BitLen(MaxAbs(c))
  {
    hide BitLen;
    if Abs(c.rho) >= Abs(c.tau) { BitLenMono(Abs(c.tau), Abs(c.rho)); } else { BitLenMono(Abs(c.rho), Abs(c.tau)); }
  }

  /** The visited multiplier a given one cannot beat: the nearest of its parity on its side of the center. */
  lemma Nearest(x: Row, y: Row, q: int, n: nat, k: int) returns (p: int)
    requires Linked(x, y, n, k) && y.rho > 0 && y.tau != 0 && 0 <= q <= x.rho / y.rho && (x.tau - q * y.tau) % 2 == 1
    ensures p in Multipliers(x.rho, y.rho, x.tau, y.tau, x.rho / y.rho) && (x.tau - p * y.tau) % 2 == 1
    ensures 0 <= p <= x.rho / y.rho && !Better(Mid(x, y, q), Mid(x, y, p))
  {
    hide Center, Multipliers, Better, Linked, Mid, Abs;
    var a := x.rho / y.rho;
    var c := Center(x.rho, y.rho, x.tau, y.tau, a);
    DivisorSign(x, y, n, k, a);
    Crossing(x.rho, y.rho, x.tau, y.tau, a, q);
    p := Snap(q, c);
    SameParity(x.tau, y.tau, q, p);
    InWindow(x.rho, y.rho, x.tau, y.tau, a, p);
    Crossing(x.rho, y.rho, x.tau, y.tau, a, p);
    Middle(x, y, q, n, k);
    Middle(x, y, p, n, k);
    if q != p { Apart(x, y, q, p, n, k); }
    Closer(x, y, q, p, Mid(x, y, q).rho, Abs(Mid(x, y, q).tau), Mid(x, y, p).rho, Abs(Mid(x, y, p).tau));
  }

  /** The multiplier of q's parity nearest to the center on q's side. */
  function Snap(q: int, c: int): (p: int)
    ensures (p - q) % 2 == 0 && Abs(p - c) <= 3 && (q <= c ==> q <= p <= c) && (q > c ==> c < p <= q)
  {
    if q <= c then c - (c - q) % 2 else c + 2 - (c - q) % 2
  }

  lemma DivisorSign(x: Row, y: Row, n: nat, k: int, a: int)
    requires Linked(x, y, n, k) && y.rho > 0 && a == x.rho / y.rho
    ensures a >= 0
  {
    QuotientNonNeg(x.rho, y.rho);
  }

  /** Between two multipliers the remainder falls and the coefficient grows. */
  lemma Apart(x: Row, y: Row, q: int, p: int, n: nat, k: int)
    requires Linked(x, y, n, k) && y.rho > 0 && y.tau != 0 && 0 <= q <= x.rho / y.rho && 0 <= p <= x.rho / y.rho && q != p
    ensures q < p ==> Mid(x, y, q).rho > Mid(x, y, p).rho
    ensures p < q ==> Abs(Mid(x, y, q).tau) > Abs(Mid(x, y, p).tau)
  {
    hide Linked;
    Middle(x, y, q, n, k);
    Middle(x, y, p, n, k);
    if q < p { Spread(y.rho, Abs(y.tau), q, p); } else { Spread(y.rho, Abs(y.tau), p, q); }
  }

  lemma Middle(x: Row, y: Row, q: int, n: nat, k: int)
    requires Linked(x, y, n, k) && y.rho > 0 && 0 <= q <= x.rho / y.rho
    ensures Mid(x, y, q).rho == x.rho - q * y.rho >= 0
    ensures Abs(Mid(x, y, q).tau) == Abs(x.tau) + q * Abs(y.tau) <= n
  {
    IntermediateBound(x, y, q, n, k);
  }

  lemma Spread(r: nat, t: nat, q: int, p: int)
    requires q < p
    ensures r > 0 ==> q * r < p * r
    ensures t > 0 ==> q * t < p * t
  {
    MulMono(r, q + 1, p);
    MulMono(t, q + 1, p);
    assert (q + 1) * r == q * r + r && (q + 1) * t == q * t + t;
  }

  lemma SameParity(t0: int, t1: int, q: int, p: int)
    requires (p - q) % 2 == 0 && (t0 - q * t1) % 2 == 1
    ensures (t0 - p * t1) % 2 == 1
  {
    var h := (p - q) / 2;
    assert p == q + 2 * h;
    assert (q + 2 * h) * t1 == q * t1 + 2 * (h * t1);
  }

  // ---------------------------------------------------------------- the result

  lemma CoversTrans(best: Best, b: Candidate, c: Candidate)
    requires Covers(best, b) && !Better(c, b)
    ensures Covers(best, c)
  {
    BetterOrder(c, best.value, b);
    BetterOrder(b, best.value, c);
    BetterOrder(best.value, b, c);
    BetterOrder(c, b, best.value);
  }

  /** A row whose coefficient fails the table although odd is worse than (k, 1). */
  lemma NonUnitLoses(c: Candidate, k: nat)
    requires k < L && c.tau % 2 == 1 && !PassesTable(Abs(c.tau)) && Abs(c.tau) <= N
    ensures !Better(c, Candidate(k, 1)) && MaxAbs(c) >= L
  {
    hide BitLen;
    assert Abs(c.tau) >= L && MaxAbs(Candidate(k, 1)) < L;
    BitLenMono(MaxAbs(Candidate(k, 1)), MaxAbs(c));
    BitLenMax(c);
    BitLenMax(Candidate(k, 1));
  }

  /** Along the run both rows stay linked, and the divisor's coefficient is nonzero. */
  lemma {:induction false} RunLinked(modulus: nat, k: nat, n: nat)
    requires 0 < k < modulus
    ensures var p := Advance(Row(modulus, 0), Row(k, 1), n);
      Linked(p.0, p.1, modulus, k) && p.1.rho < modulus && (p.1.rho > 0 ==> p.1.tau != 0)
  {
    hide Linked;
    var p := Advance(Row(modulus, 0), Row(k, 1), n);
    StartLinked(modulus, k);
    AdvanceLinked(Row(modulus, 0), Row(k, 1), n, modulus, k);
    DivisorBelow(modulus, k, n);
    if p.1.rho > 0 && p.1.tau == 0 { CoefficientNonZero(p.0, p.1, modulus, k); }
  }

  lemma {:induction false} DivisorBelow(modulus: nat, k: nat, n: nat)
    requires 0 < k < modulus
    ensures Advance(Row(modulus, 0), Row(k, 1), n).1.rho < modulus
  {
    if n > 0 {
      DivisorBelow(modulus, k, n - 1);
      var o := Advance(Row(modulus, 0), Row(k, 1), n - 1);
      if o.1.rho > 0 { DivMod(o.0.rho, o.1.rho); }
    }
  }

  lemma CoefficientNonZero(x: Row, y: Row, n: nat, k: int)
    requires Linked(x, y, n, k) && 0 < y.rho < n
    ensures y.tau != 0
  {
    hide Congruent;
    if y.tau == 0 { CongruentUnique(y.rho, 0, n); }
  }

  /** The search always finds a candidate: (k, 1) is a unit row. */
  lemma AlwaysFinds(test: UnitTest, k: nat)
    requires 0 < k < L
    ensures Covers(BestCandidate(test, k), Candidate(k, 1))
  {
    hide IsUnit, Better, BestFrom, Multipliers;
    UnitOne(test);
    assert Advance(Row(N, 0), Row(k, 1), 0) == (Row(N, 0), Row(k, 1));
    BestIsBest(test, None, Row(N, 0), Row(k, 1), 0, Row(N, 0), Row(k, 1));
  }

  /** For 0 < k < L nothing on the run beats the result: no unit principal row, and no unit intermediate row
      at any multiplier between zero and the quotient, visited or not. */
  lemma NothingBeats(k: nat, n: nat, q: int)
    requires 0 < k < L && Advance(Row(N, 0), Row(k, 1), n).1.rho > 0
    ensures var p := Advance(Row(N, 0), Row(k, 1), n);
            var result := BestCandidate(ByTable, k);
            && (IsUnit(ByTable, p.1.tau) ==> Covers(result, Candidate(p.1.rho, p.1.tau)))
            && (0 <= q <= p.0.rho / p.1.rho && IsUnit(ByTable, p.0.tau - q * p.1.tau) ==> Covers(result, Mid(p.0, p.1, q)))
  {
    hide Better, BestFrom, Multipliers, PassesTable, Linked;
    var p := Advance(Row(N, 0), Row(k, 1), n);
    var result := BestCandidate(ByTable, k);
    BestIsBest(ByTable, None, Row(N, 0), Row(k, 1), n, p.0, p.1);
    AlwaysFinds(ByTable, k);
    if 0 <= q <= p.0.rho / p.1.rho && IsUnit(ByTable, p.0.tau - q * p.1.tau) {
      RunLinked(N, k, n);
      var near := Nearest(p.0, p.1, q, N, k);
      Middle(p.0, p.1, near, N, k);
      if IsUnit(ByTable, p.0.tau - near * p.1.tau) {
        CoversTrans(result, Mid(p.0, p.1, near), Mid(p.0, p.1, q));
      } else {
        NonUnitLoses(Mid(p.0, p.1, near), k);
        Chained(Mid(p.0, p.1, q), Mid(p.0, p.1, near), Candidate(k, 1));
        CoversTrans(result, Candidate(k, 1), Mid(p.0, p.1, q));
      }
    }
  }

  lemma Chained(a: Candidate, b: Candidate, c: Candidate)
    requires !Better(a, b) && !Better(b, c)
    ensures !Better(a, c)
  {
    BetterOrder(a, c, b);
    BetterOrder(b, c, a);
    BetterOrder(c, b, a);
    BetterOrder(a, b, c);
  }

  /** The same for the gcd oracle, L being prime. */
  lemma NothingBeatsOracle(k: nat, n: nat, q: int)
    requires IsPrime(L) && 0 < k < L && Advance(Row(N, 0), Row(k, 1), n).1.rho > 0
    ensures var p := Advance(Row(N, 0), Row(k, 1), n);
      0 <= q <= p.0.rho / p.1.rho && IsUnit(ByGcd, p.0.tau - q * p.1.tau) ==> Covers(BestCandidate(ByGcd, k), Mid(p.0, p.1, q))
  {
    hide IsPrime, Better, BestFrom, Linked, IsUnit;
    StartsLinked(k);
    BestFromAgrees(None, Row(N, 0), Row(k, 1), N, k);
    NothingBeats(k, n, q);
    RunLinked(N, k, n);
    var p := Advance(Row(N, 0), Row(k, 1), n);
    if 0 <= q <= p.0.rho / p.1.rho {
      Middle(p.0, p.1, q, N, k);
      TestsAgree(p.0.tau - q * p.1.tau);
    }
  }

  lemma StartsLinked(k: nat)
    ensures Linked(Row(N, 0), Row(k, 1), N, k) && Row(N, 0).rho > 0
  {
    StartLinked(N, k);
  }
}
