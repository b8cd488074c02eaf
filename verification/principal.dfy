/** SelectEuclidPrincipal: plain Euclid down to the first admissible row, with its lookahead divider
    (internal/heea8l/euclid_principal.go, fixed.go:457-526). */
module Principal {
  import opened Arith
  import opened Words
  import opened Fixed256
  import opened Divide256
  import opened Euclid
  import opened Signed320
  import opened Selection

  /** principalEuclidIterationCap. */
  const ITERATION_CAP: nat := 384

  // ---------------------------------------------------------------- the choice itself

  /** Walk the Euclidean rows after (x,y) and take the first admissible one; a quotient wider than
      one word ends the walk. */
  function PrincipalRun(x: Row, y: Row, limit: nat): Choice
    decreases y.rho
  {
    if y.rho == 0 || x.rho / y.rho >= R64 then Rejected(WidthExceeded)
    else if Admissible(Next(x, y), limit) then Accepted(Next(x, y))
    else PrincipalRun(y, Next(x, y), limit)
  }

  /** The first admissible principal row of Euclid on (8L, k). */
  function PrincipalChoice(k: nat, limit: nat): Choice {
    if k == 0 then Accepted(Row(0, 1))
    else if Admissible(Row(k, 1), limit) then Accepted(Row(k, 1))
    else PrincipalRun(Row(N, 0), Row(k, 1), limit)
  }

  /** What the public entry points answer, argument checks included. */
  function PublicChoice(k: nat, limit: nat): Choice {
    if !SupportedWidth(limit) then Rejected(InvalidWidth)
    else if k >= L then Rejected(InvalidChallenge)
    else PrincipalChoice(k, limit)
  }

  // ---------------------------------------------------------------- meaning of a choice

  /** A used candidate is an exact relation rho = tau*k (mod 8L) within the width, tau passing the unit test. */
  ghost predicate Sound(c: Choice, k: int, limit: nat) {
    c.use ==> && Congruent(c.rho, c.tau * k, N)
              && BitLen(Abs(c.rho)) <= limit && BitLen(Abs(c.tau)) <= limit
              && PassesTable(Abs(c.tau)) && c.epsilon == 1 && c.fallback == NoFallback
  }

  lemma {:induction false} PrincipalRunSound(x: Row, y: Row, limit: nat, k: int)
    requires Linked(x, y, N, k)
    ensures Sound(PrincipalRun(x, y, limit), k, limit)
    decreases y.rho
  {
    if y.rho != 0 && x.rho / y.rho < R64 {
      NextLinked(x, y, N, k);
      if !Admissible(Next(x, y), limit) {
        PrincipalRunSound(y, Next(x, y), limit, k);
      }
    }
  }

  lemma PrincipalSound(k: nat, limit: nat)
    ensures Sound(PublicChoice(k, limit), k, limit)
  {
    StartLinked(N, k);
    if SupportedWidth(limit) && k < L && k > 0 && !Admissible(Row(k, 1), limit) {
      PrincipalRunSound(Row(N, 0), Row(k, 1), limit, k);
    }
    if k == 0 { CongruentBy(0, 1 * k, N, 0); }
  }

  // ---------------------------------------------------------------- the lookahead divider

  /** quotientLookahead: quotients proposed from the leading words, each checked before use. */
  class QuotientLookahead {
    var values: seq<u64>
    var nextAt: nat
    var count: nat

    ghost predicate Valid()
      reads this
    {
      |values| == 8 && nextAt <= count <= 8
    }

    constructor ()
      ensures Valid()
    {
      values, nextAt, count := Zeros(8), 0, 0;
    }

    /** next: the exact quotient and remainder, whatever the queue held. */
    method Next(r0: U256, r1: U256) returns (quotient: U256, remainder: U256)
      requires Valid() && Val(r1) > 0
      modifies this
      ensures Valid()
      ensures Val(quotient) == Val(r0) / Val(r1) && Val(remainder) == Val(r0) % Val(r1)
    {
      if nextAt == count {
        Fill(r0, r1);
      }
      if nextAt < count {
        var q := values[nextAt];
        WordVal(q);
        var product, overflow := Mul256(r1, [q, 0, 0, 0]);
        var c := 1;
        if !overflow {
          c := CmpLimbs(product, r0);
        }
        if c <= 0 {
          var borrow;
          remainder, borrow := SubLimbs(r0, product);
          var below := CmpLimbs(remainder, r1);
          if below < 0 {
            nextAt := nextAt + 1;
            DivUnique(Val(r0), Val(r1), q, Val(remainder));
            return [q, 0, 0, 0], remainder;
          }
        }
        nextAt, count := 0, 0;
      }
      quotient, remainder := DivMod256(r0, r1);
    }

    /** fill: Euclid on the two leading words, up to eight quotients. */
    method Fill(r0: U256, r1: U256)
      requires Valid()
      modifies this
      ensures Valid() && nextAt == 0
    {
      nextAt, count := 0, 0;
      var bits := BitLenLimbs(r0);
      var shift := if bits < 64 then 0 else bits - 64;
      var x: u64 := ShiftedLow64(r0, shift);
      var y: u64 := ShiftedLow64(r1, shift);
      if y == 0 || x < y {
        return;
      }
      while count < |values| && y != 0
        invariant |values| == 8 && nextAt == 0 && count <= 8
        decreases |values| - count
      {
        DivMod(x, y);
        QuotientNonNeg(x, y);
        MulMono(x / y, 1, y);
        var q: u64 := x / y;
        if q == 0 {
          break;
        }
        values := values[count := q];
        count := count + 1;
        x, y := y, x - q * y;
      }
    }
  }

  lemma WordVal(q: u64)
    ensures Val([q, 0, 0, 0]) == q
  {
    Val4([q, 0, 0, 0]);
  }

  /** shiftedLow64: 64 bits of x starting at bit shift. */
  function ShiftedLow64(x: U256, shift: nat): u64 {
    if shift >= 256 then 0
    else
      var word, offset := shift / 64, shift % 64;
      var result := Shr64(x[word], offset);
      if offset != 0 && word + 1 < 4 then
        ShiftParts(x[word + 1], 64 - offset);
        ShrBelow(x[word], offset);
        OrFields(Shl64(x[word + 1], 64 - offset), result, 64 - offset)
      else result
  }

  lemma ShrBelow(x: u64, s: nat)
    requires s <= 64
    ensures x / Pow2(s) < Pow2(64 - s)
  {
    Pow2Add(s, 64 - s);
    Pow2Wide();
    QuotientBelow(x, Pow2(s), Pow2(64 - s));
  }

  // ---------------------------------------------------------------- SelectEuclidPrincipal

  /** selectEuclidPrincipalMode: one row update from a quotient, with its two defensive tests. */
  method AdvanceRow(x: WideRow, y: WideRow, quotient: U256, remainder: U256, ghost n: nat, ghost k: int)
    returns (next: WideRow, ok: bool)
    requires Val(y.rho) > 0 && n <= N && Linked(x.Value(), y.Value(), n, k)
    requires Val(quotient) == Val(x.rho) / Val(y.rho) && Val(remainder) == Val(x.rho) % Val(y.rho)
    ensures ok <==> Val(x.rho) / Val(y.rho) < R64
    ensures ok ==> next.Value() == Euclid.Next(x.Value(), y.Value())
  {
    ghost var z := Euclid.Next(x.Value(), y.Value());
    NextLinked(x.Value(), y.Value(), n, k);
    TauBound(y.Value(), z, n, k);
    LowWord(quotient);
    ConstantValues();
    WeightWide();
    next, ok := y, false;
    hide Val, Weight, Linked;
    if !(quotient[1] == 0 && quotient[2] == 0 && quotient[3] == 0) {
      return;
    }
    QuotientProduct(x.Value(), y.Value(), n, k);
    var tau, fits := SubMul(x.tau, y.tau, quotient[0]);
    if !fits {
      return;
    }
    FourWords(tau.mag);
    AbsVal(tau);
    if tau.mag[4] != 0 {
      return;
    }
    next, ok := WideRow(remainder, tau), true;
  }

  /** The coefficient product of a Euclidean step is bounded by the modulus too. */
  lemma QuotientProduct(x: Row, y: Row, n: nat, k: int)
    requires Linked(x, y, n, k) && y.rho > 0
    ensures Abs(y.tau * (x.rho / y.rho)) <= n
    ensures Euclid.Next(x, y).tau == x.tau - y.tau * (x.rho / y.rho)
  {
    var q := x.rho / y.rho;
    QuotientNonNeg(x.rho, y.rho);
    NextLinked(x, y, n, k);
    TauBound(y, Euclid.Next(x, y), n, k);
    AbsOpposite(x.tau, y.tau, q);
    AbsProduct(y.tau, q);
  }

  lemma AbsProduct(t: int, q: nat)
    ensures Abs(t * q) == q * Abs(t)
  {
    if t >= 0 { MulNonNeg(t, q); } else { MulNonNeg(-t, q); assert t * q == -(-t * q); }
  }

  lemma LowWord(q: U256)
    ensures (q[1] == 0 && q[2] == 0 && q[3] == 0) <==> Val(q) < R64
    ensures Val(q) < R64 ==> q[0] == Val(q)
  {
    Val4(q);
  }

  /** The starting rows (8L,0) and (k,1). */
  method StartRows(k: U256) returns (x: WideRow, y: WideRow)
    ensures x.Value() == Row(N, 0) && y.Value() == Row(Val(k), 1)
  {
    ConstantValues();
    ZeroVal();
    x := WideRow(FIXED_MODULUS, ZERO);
    y := WideRow(k, S320([1, 0, 0, 0, 0], false));
    FourWords(y.tau.mag);
    Val4([1, 0, 0, 0]);
  }

  method SelectEuclidPrincipalMode(k: U256, limit: nat, batched: bool) returns (selection: FixedSelection)
    requires Val(k) < L
    ensures Meaning(selection) == PrincipalChoice(Val(k), limit)
  {
    IsZeroVal(k);
    if IsZero(k) {
      return TrivialSelection();
    }
    var x, y := StartRows(k);
    var candidate, found := PrincipalCandidate(y, limit);
    if found {
      return FixedSelection(candidate, true, NoFallback);
    }
    var iterations := 0;
    var lookahead := new QuotientLookahead();
    StartLinked(N, Val(k));
    ConstantValues();
    LengthBelowCap(N, Val(k));
    IsZeroVal(y.rho);
    while !IsZero(y.rho) && iterations < ITERATION_CAP
      invariant lookahead.Valid() && fresh(lookahead)
      invariant Linked(x.Value(), y.Value(), N, Val(k))
      invariant IsZero(y.rho) <==> Val(y.rho) == 0
      invariant iterations + Length(Val(x.rho), Val(y.rho)) < ITERATION_CAP
      invariant PrincipalChoice(Val(k), limit) == PrincipalRun(x.Value(), y.Value(), limit)
      decreases Val(y.rho)
    {
      var quotient, remainder;
      if batched {
        quotient, remainder := lookahead.Next(x.rho, y.rho);
      } else {
        quotient, remainder := DivMod256(x.rho, y.rho);
      }
      iterations := iterations + 1;
      var next, ok := AdvanceRow(x, y, quotient, remainder, N, Val(k));
      if !ok {
        return Reject(WidthExceeded);
      }
      NextLinked(x.Value(), y.Value(), N, Val(k));
      x, y := y, next;
      candidate, found := PrincipalCandidate(y, limit);
      if found {
        return FixedSelection(candidate, true, NoFallback);
      }
      IsZeroVal(y.rho);
    }
    return Reject(WidthExceeded);
  }
}
