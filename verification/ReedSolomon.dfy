/**
 Reed-Solomon error correction of the QR Code generator: the generator
 polynomial, the remainder loop, and what the two together guarantee.

 The main theorem is an if-and-only-if: the bytes the remainder loop leaves
 behind are the one and only block of `degree` bytes that turns the data into a
 codeword, a polynomial that vanishes at 2^0, ..., 2^(degree - 1).
 */
module ReedSolomon {
  import opened GaloisField
  import opened Polynomial

  const MAX_DEGREE: nat := 30

  /** (a - 2^0)(a - 2^1)...(a - 2^(n - 1)). */
  function RootProduct(n: nat, a: bv8): bv8 {
    if n == 0 then 1 else Mul(RootProduct(n - 1, a), Add(a, Pow(2, n - 1)))
  }

  /** The value at a of g with its implicit leading term x^|g|. */
  function MonicEval(g: Poly, a: bv8): bv8 {
    Add(Pow(a, |g|), Eval(g, a))
  }

  ghost predicate IsCodeword(p: Poly, degree: nat) {
    forall k: nat :: k < degree ==> Eval(p, Pow(2, k)) == 0
  }

  // ---------- The generator polynomial ----------

  /** p * (x - r) without its term of degree |p|. */
  function TimesRoot(p: Poly, r: bv8): Poly
    requires p != []
  {
    Sum(Scale(p, r), Shift(p))
  }

  /** The array of the divisor loop after i factors. */
  function DivisorAfter(degree: nat, i: nat): (p: Poly)
    requires 1 <= degree
    ensures |p| == degree
  {
    if i == 0 then Zeros(degree - 1) + [1] else TimesRoot(DivisorAfter(degree, i - 1), Pow(2, i - 1))
  }

  function Divisor(degree: nat): (p: Poly)
    requires 1 <= degree
    ensures |p| == degree
  {
    DivisorAfter(degree, degree)
  }

  lemma EvalTimesRoot(p: Poly, r: bv8, a: bv8)
    requires p != []
    ensures Add(Mul(p[0], Pow(a, |p|)), Eval(TimesRoot(p, r), a)) == Mul(Eval(p, a), Add(a, r))
  {
    hide Add, Mul, Eval, Pow, Scale, Shift, Sum;
    EvalSum(Scale(p, r), Shift(p), a);
    EvalScale(p, r, a);
    EvalShift(p, a);
    MulRight(Eval(p, a), a, r);
    var top, s, t := Mul(p[0], Pow(a, |p|)), Eval(Scale(p, r), a), Eval(Shift(p), a);
    AddLaws(s, t, 0);
    AddLaws(top, t, s);
  }

  /** Before the last factor the array holds the whole product, leading 1 included. */
  lemma {:induction false} DivisorGrows(degree: nat, i: nat, a: bv8)
    requires i < degree
    ensures var p := DivisorAfter(degree, i);
      && (forall k :: 0 <= k < degree - 1 - i ==> p[k] == 0)
      && p[degree - 1 - i] == 1
      && Eval(p, a) == RootProduct(i, a)
  {
    hide Add, Mul, Eval, Pow;
    var p := DivisorAfter(degree, i);
    if i == 0 {
      EvalConcat(Zeros(degree - 1), [1], a);
      EvalZeros(degree - 1, a);
      EvalSingle(1, a);
      MulUnit(Pow(a, 1));
      AddLaws(1, 0, 0);
    } else {
      var q, r := DivisorAfter(degree, i - 1), Pow(2, i - 1);
      DivisorGrows(degree, i - 1, a);
      assert q[0] == 0;
      EvalTimesRoot(q, r, a);
      MulUnit(Pow(a, degree));
      AddLaws(Eval(p, a), 0, 0);
      MulUnit(r);
      AddLaws(0, 0, 0);
      AddLaws(1, 0, 0);
    }
  }

  /** After the last factor the leading 1 has fallen off; with it, the product is complete. */
  lemma DivisorIsProduct(degree: nat, a: bv8)
    requires 1 <= degree
    ensures MonicEval(Divisor(degree), a) == RootProduct(degree, a)
  {
    hide Add, Mul, Eval, Pow, TimesRoot;
    var q, r := DivisorAfter(degree, degree - 1), Pow(2, degree - 1);
    DivisorGrows(degree, degree - 1, a);
    EvalTimesRoot(q, r, a);
    MulUnit(Pow(a, degree));
  }

  lemma {:induction false} RootProductVanishes(n: nat, k: nat)
    requires k < n
    ensures RootProduct(n, Pow(2, k)) == 0
  {
    hide Add, Mul, Pow;
    var a := Pow(2, k);
    if k == n - 1 {
      AddLaws(a, 0, 0);
      MulRight(RootProduct(n - 1, a), 0, 0);
    } else {
      RootProductVanishes(n - 1, k);
      MulUnit(Add(a, Pow(2, n - 1)));
    }
  }

  // ---------- The remainder ----------

  /** One pass of the remainder loop over a data byte. */
  function RemainderStep(r: Poly, d: bv8, g: Poly): (s: Poly)
    requires |r| == |g| > 0
    ensures |s| == |g|
  {
    Sum(Shift(r), Scale(g, Add(d, r[0])))
  }

  function Remainder(data: Poly, g: Poly): (r: Poly)
    requires g != []
    ensures |r| == |g|
  {
    if data == [] then Zeros(|g|)
    else var n := |data| - 1; RemainderStep(Remainder(data[..n], g), data[n], g)
  }

  /** The factors of the remainder loop, which are the coefficients of the quotient. */
  function Quotient(data: Poly, g: Poly): Poly
    requires g != []
  {
    if data == [] then []
    else var n := |data| - 1; Quotient(data[..n], g) + [Add(data[n], Remainder(data[..n], g)[0])]
  }

  lemma EvalRemainderStep(r: Poly, d: bv8, g: Poly, a: bv8)
    requires |r| == |g| > 0
    ensures var f := Add(d, r[0]);
      Add(Mul(d, Pow(a, |g|)), Eval(RemainderStep(r, d, g), a))
      == Add(Mul(Eval(r, a), a), Mul(f, MonicEval(g, a)))
  {
    hide Add, Mul, Eval, Pow, Scale, Shift, Sum;
    var f, x := Add(d, r[0]), Pow(a, |g|);
    var s, e := Eval(Shift(r), a), Eval(g, a);
    EvalSum(Shift(r), Scale(g, f), a);
    EvalScale(g, f, a);
    MulCommutes(e, f);
    EvalShift(r, a);
    MulRight(f, x, e);
    MulLeft(d, r[0], x);
    RingShuffle(Mul(d, x), Mul(r[0], x), s, Mul(f, e));
  }

  lemma RingShuffle(u: bv8, v: bv8, s: bv8, w: bv8)
    ensures Add(u, Add(s, w)) == Add(Add(v, s), Add(Add(u, v), w))
  {
    hide Add;
    AddLaws(u, s, w);
    AddLaws(Add(u, v), w, 0);
    AddLaws(v, s, Add(Add(u, v), w));
    AddLaws(s, Add(u, v), w);
    AddLaws(v, Add(s, Add(u, v)), w);
    AddLaws(s, u, v);
    AddLaws(v, Add(s, u), v);
    AddLaws(Add(s, u), v, 0);
    AddLaws(v, v, Add(s, u));
    AddLaws(Add(s, u), 0, 0);
    assert Add(v, Add(s, Add(u, v))) == Add(s, u);
    assert Add(v, Add(Add(s, Add(u, v)), w)) == Add(Add(s, u), w);
  }

  /** data * x^|g| + remainder = quotient * g, at every point of the field. */
  lemma {:induction false} Division(data: Poly, g: Poly, a: bv8)
    requires g != []
    ensures Add(Mul(Eval(data, a), Pow(a, |g|)), Eval(Remainder(data, g), a))
         == Mul(Eval(Quotient(data, g), a), MonicEval(g, a))
  {
    hide Add, Mul, Pow, RemainderStep, MonicEval;
    var x, m := Pow(a, |g|), MonicEval(g, a);
    if data == [] {
      EvalZeros(|g|, a);
      MulUnit(x);
      MulUnit(m);
      AddLaws(0, 0, 0);
    } else {
      var n := |data| - 1;
      var init, d := data[..n], data[n];
      var r := Remainder(init, g);
      var f := Add(d, r[0]);
      var q, qf := Quotient(init, g), Quotient(data, g);
      Division(init, g, a);
      assert qf[..n] == q by { QuotientLength(init, g); }
      var D, R, Q := Eval(init, a), Eval(r, a), Eval(q, a);
      // The left-hand side at data, in terms of init
      MulLeft(Mul(D, a), d, x);
      MulAssociates(D, a, x);
      MulCommutes(a, x);
      MulAssociates(D, x, a);
      EvalRemainderStep(r, d, g, a);
      var R' := Eval(RemainderStep(r, d, g), a);
      AddLaws(Mul(Mul(D, x), a), Mul(d, x), R');
      AddLaws(Mul(Mul(D, x), a), Mul(R, a), Mul(f, m));
      MulLeft(Mul(D, x), R, a);
      // The right-hand side
      QuotientLength(data, g);
      MulLeft(Mul(Q, a), f, m);
      MulAssociates(Q, a, m);
      MulCommutes(a, m);
      MulAssociates(Q, m, a);
    }
  }

  lemma QuotientLength(data: Poly, g: Poly)
    requires g != []
    ensures |Quotient(data, g)| == |data|
  {}

  /** Data followed by its remainder is a codeword. */
  lemma RemainderMakesCodeword(data: Poly, degree: nat)
    requires 1 <= degree
    ensures IsCodeword(data + Remainder(data, Divisor(degree)), degree)
  {
    hide Add, Mul, Eval, Pow, Remainder, Divisor;
    var g := Divisor(degree);
    forall k: nat | k < degree
      ensures Eval(data + Remainder(data, g), Pow(2, k)) == 0
    {
      var a := Pow(2, k);
      EvalConcat(data, Remainder(data, g), a);
      Division(data, g, a);
      DivisorIsProduct(degree, a);
      RootProductVanishes(degree, k);
      MulRight(Eval(Quotient(data, g), a), 0, 0);
    }
  }

  // ---------- Uniqueness: no other block of that length makes a codeword ----------

  /** Synthetic division by (x - r): the coefficients of the quotient. */
  function SyntheticQuotient(p: Poly, r: bv8): (q: Poly)
    requires p != []
    ensures |q| == |p| - 1
  {
    seq(|p| - 1, k requires 0 <= k < |p| - 1 => Eval(p[..k + 1], r))
  }

  lemma {:induction false} SyntheticDivision(p: Poly, r: bv8, a: bv8)
    requires p != []
    ensures Eval(p, a) == Add(Mul(Add(a, r), Eval(SyntheticQuotient(p, r), a)), Eval(p, r))
  {
    hide Add, Mul;
    var n := |p| - 1;
    var init, c, s := p[..n], p[n], Add(a, r);
    if n == 0 {
      EvalSingle(c, a);
      EvalSingle(c, r);
      assert p == [c];
      MulRight(s, 0, 0);
      AddLaws(c, 0, 0);
    } else {
      SyntheticDivision(init, r, a);
      var q, e := SyntheticQuotient(init, r), Eval(init, r);
      var full := SyntheticQuotient(p, r);
      assert full == q + [e] by {
        forall k | 0 <= k < n ensures full[k] == (q + [e])[k] {
          assert p[..k + 1] == if k < n - 1 then init[..k + 1] else init;
        }
      }
      assert full[..n - 1] == q && full[n - 1] == e;
      var Q := Eval(q, a);
      MulLeft(Mul(s, Q), e, a);
      MulAssociates(s, Q, a);
      MulRight(s, Mul(Q, a), e);
      MulLeft(a, r, e);
      MulCommutes(e, a);
      MulCommutes(e, r);
      SyntheticShuffle(Mul(s, Mul(Q, a)), Mul(e, a), Mul(e, r), c);
    }
  }

  lemma SyntheticShuffle(u: bv8, v: bv8, w: bv8, c: bv8)
    ensures Add(Add(u, v), c) == Add(Add(u, Add(v, w)), Add(w, c))
  {
    hide Add;
    AddLaws(u, v, w);
    AddLaws(Add(u, v), w, Add(w, c));
    AddLaws(w, w, c);
    AddLaws(c, 0, 0);
  }

  /** The first 30 powers of 2, five at a time. */
  lemma SomePowers()
    ensures Pow(2, 5) == 0x20 && Pow(2, 10) == 0x74 && Pow(2, 15) == 0x26 && Pow(2, 20) == 0xB4 && Pow(2, 25) == 0x03
  {
    hide Pow;
    PowZero(2);
    FiveMore(0);
    FiveMore(5);
    FiveMore(10);
    FiveMore(15);
    FiveMore(20);
  }

  lemma PowZero(a: bv8)
    ensures Pow(a, 0) == 1
  {}

  lemma NextPower(k: nat)
    ensures Pow(2, k + 1) == Double(Pow(2, k))
  {
    hide Double, Mul;
    MulRight(Pow(2, k), 0, 0);
  }

  lemma FiveMore(k: nat)
    ensures var z := Pow(2, k);
      Pow(2, k + 1) == Double(z) && Pow(2, k + 2) == Double(Double(z)) && Pow(2, k + 3) == Double(Double(Double(z)))
      && Pow(2, k + 4) == Double(Double(Double(Double(z))))
      && Pow(2, k + 5) == Double(Double(Double(Double(Double(z)))))
  {
    hide Double, Pow;
    NextPower(k);
    NextPower(k + 1);
    NextPower(k + 2);
    NextPower(k + 3);
    NextPower(k + 4);
  }

  /** None of the next 29 powers of 2 is 1. */
  lemma NoShortCycle(k: nat)
    requires 1 <= k < MAX_DEGREE
    ensures Pow(2, k) != 1
  {
    hide Pow;
    PowZero(2);
    SomePowers();
    FiveMore(k / 5 * 5);
  }

  lemma {:induction false} PowAdd(a: bv8, m: nat, n: nat)
    ensures Pow(a, m + n) == Mul(Pow(a, m), Pow(a, n))
  {
    hide Mul;
    if n == 0 {
      MulRight(Pow(a, m), 0, 0);
    } else {
      PowAdd(a, m, n - 1);
      MulAssociates(Pow(a, m), Pow(a, n - 1), a);
    }
  }

  lemma {:induction false} PowNotZero(a: bv8, n: nat)
    requires a != 0
    ensures Pow(a, n) != 0
  {
    hide Mul;
    if n > 0 {
      PowNotZero(a, n - 1);
      MulZero(Pow(a, n - 1), a);
    }
  }

  /** The roots 2^0, ..., 2^29 are distinct. */
  lemma RootsAreDistinct(i: nat, j: nat)
    requires i < j < MAX_DEGREE
    ensures Pow(2, i) != Pow(2, j)
  {
    hide Add, Mul, Pow;
    if Pow(2, i) == Pow(2, j) {
      PowAdd(2, i, j - i);
      PowNotZero(2, i);
      MulRight(Pow(2, i), Pow(2, j - i), 1);
      AddZero(Pow(2, j), Pow(2, i));
      MulZero(Pow(2, i), Add(Pow(2, j - i), 1));
      AddZero(Pow(2, j - i), 1);
      NoShortCycle(j - i);
    }
  }

  /** A polynomial with as many of the roots 2^0, 2^1, ... as coefficients is zero. */
  lemma {:induction false} RootsLeaveNothing(p: Poly)
    requires |p| <= MAX_DEGREE
    requires IsCodeword(p, |p|)
    ensures p == Zeros(|p|)
    decreases |p|
  {
    hide Add, Mul, Pow;
    if p != [] {
      var n := |p| - 1;
      var r := Pow(2, n);
      var q := SyntheticQuotient(p, r);
      assert Eval(p, r) == 0;
      forall k: nat | k < n
        ensures Eval(q, Pow(2, k)) == 0
      {
        var a := Pow(2, k);
        assert Eval(p, a) == 0;
        SyntheticDivision(p, r, a);
        AddLaws(Mul(Add(a, r), Eval(q, a)), 0, 0);
        RootsAreDistinct(k, n);
        AddZero(a, r);
        MulZero(Add(a, r), Eval(q, a));
      }
      RootsLeaveNothing(q);
      forall k | 0 <= k < |p|
        ensures p[k] == 0
      {
        assert p[..|p|] == p;
        assert Eval(p[..k + 1], r) == if k < n then q[k] else Eval(p, r);
        assert p[..k + 1][..k] == p[..k];
        assert Eval(p[..k], r) == if k == 0 then 0 else q[k - 1];
        MulUnit(r);
        AddLaws(p[k], 0, 0);
      }
    }
  }

  /** The remainder is the only block of its length that completes a codeword. */
  lemma RemainderIsTheCode(data: Poly, ecc: Poly)
    requires 1 <= |ecc| <= MAX_DEGREE
    ensures IsCodeword(data + ecc, |ecc|) <==> ecc == Remainder(data, Divisor(|ecc|))
  {
    var degree := |ecc|;
    var r := Remainder(data, Divisor(degree));
    RemainderMakesCodeword(data, degree);
    if IsCodeword(data + ecc, degree) {
      hide Add, Mul, Pow, Eval, Remainder, Divisor;
      var d := Sum(ecc, r);
      forall k: nat | k < degree
        ensures Eval(d, Pow(2, k)) == 0
      {
        var a := Pow(2, k);
        assert Eval(data + ecc, a) == 0 && Eval(data + r, a) == 0;
        EvalConcat(data, ecc, a);
        EvalConcat(data, r, a);
        EvalSum(ecc, r, a);
        var D := Mul(Eval(data, a), Pow(a, degree));
        AddZero(D, Eval(ecc, a));
        AddZero(D, Eval(r, a));
        AddZero(Eval(ecc, a), Eval(r, a));
      }
      RootsLeaveNothing(d);
      forall k | 0 <= k < degree
        ensures ecc[k] == r[k]
      {
        assert d[k] == 0;
        AddZero(ecc[k], r[k]);
      }
    }
  }

  // ---------- The loops ----------

  method ClearRange(result: array<bv8>, at: nat, n: nat)
    requires at + n <= result.Length
    modifies result
    ensures result[at..at + n] == Zeros(n)
    ensures forall k :: 0 <= k < result.Length && !(at <= k < at + n) ==> result[k] == old(result[k])
  {
    for k := at to at + n
      invariant forall j :: at <= j < k ==> result[j] == 0
      invariant forall j :: 0 <= j < result.Length && !(at <= j < k) ==> result[j] == old(result[j])
    {
      result[k] := 0;
    }
  }

  /** The inner loop of the divisor: multiplies the product so far by (x - root). */
  method MultiplyByRoot(result: array<bv8>, degree: nat, root: bv8)
    requires 1 <= degree <= result.Length
    modifies result
    ensures result[..degree] == TimesRoot(old(result[..degree]), root)
    ensures forall k :: degree <= k < result.Length ==> result[k] == old(result[k])
  {
    hide Add, Mul;
    ghost var p := result[..degree];
    ghost var next := TimesRoot(p, root);
    for j := 0 to degree
      invariant forall k :: 0 <= k < j ==> result[k] == next[k]
      invariant forall k :: j <= k < result.Length ==> result[k] == old(result[k])
    {
      var product := ReedSolomonMultiply(result[j], root);
      if j + 1 < degree {
        product := Add(product, result[j + 1]);
      } else {
        AddLaws(product, 0, 0);
      }
      assert next[j] == product;
      result[j] := product;
    }
  }

  /** Stores the generator polynomial of the given degree in result[..degree]. */
  method ReedSolomonComputeDivisor(degree: nat, result: array<bv8>)
    requires 1 <= degree <= MAX_DEGREE && degree <= result.Length
    modifies result
    ensures result[..degree] == Divisor(degree)
    ensures forall k :: degree <= k < result.Length ==> result[k] == old(result[k])
  {
    hide Add, Mul, TimesRoot;
    ClearRange(result, 0, degree);
    result[degree - 1] := 1;
    assert result[..degree] == DivisorAfter(degree, 0) by {
      assert result[..degree - 1] == Zeros(degree - 1);
    }
    var root: bv8 := 1;
    for i := 0 to degree
      invariant root == Pow(2, i)
      invariant result[..degree] == DivisorAfter(degree, i)
      invariant forall k :: degree <= k < result.Length ==> result[k] == old(result[k])
    {
      MultiplyByRoot(result, degree, root);
      root := ReedSolomonMultiply(root, 2);
    }
  }

  /** The memmove of the remainder loop and the zero stored behind it. */
  method MoveDown(result: array<bv8>, at: nat, degree: nat)
    requires 1 <= degree && at + degree <= result.Length
    modifies result
    ensures result[at..at + degree] == Shift(old(result[at..at + degree]))
    ensures forall k :: 0 <= k < result.Length && !(at <= k < at + degree) ==> result[k] == old(result[k])
  {
    ghost var r := result[at..at + degree];
    var last := at + degree - 1;
    for k := at to last
      invariant forall m :: at <= m < k ==> result[m] == r[m - at + 1]
      invariant forall m :: 0 <= m < result.Length && !(at <= m < k) ==> result[m] == old(result[m])
    {
      assert result[k + 1] == r[k + 1 - at];
      result[k] := result[k + 1];
    }
    assert result[at..last] == r[1..];
    result[last] := 0;
    assert result[at..last + 1] == result[at..last] + [0];
  }

  /** The inner loop of the remainder: adds a multiple of the generator. */
  method AddMultiple(generator: array<bv8>, degree: nat, result: array<bv8>, at: nat, factor: bv8)
    requires degree <= generator.Length && at + degree <= result.Length
    requires generator != result
    modifies result
    ensures result[at..at + degree] == Sum(old(result[at..at + degree]), Scale(generator[..degree], factor))
    ensures forall k :: 0 <= k < result.Length && !(at <= k < at + degree) ==> result[k] == old(result[k])
  {
    hide Add, Mul;
    ghost var r, g := result[at..at + degree], generator[..degree];
    ghost var next := Sum(r, Scale(g, factor));
    for k := at to at + degree
      invariant forall m :: at <= m < k ==> result[m] == next[m - at]
      invariant forall m :: 0 <= m < result.Length && !(at <= m < k) ==> result[m] == old(result[m])
    {
      var product := ReedSolomonMultiply(generator[k - at], factor);
      assert r[k - at] == result[k] && g[k - at] == generator[k - at];
      assert next[k - at] == Add(r[k - at], Scale(g, factor)[k - at]);
      result[k] := Add(result[k], product);
    }
  }

  /**
   Divides data[from..from + dataLen] by the generator and stores the remainder
   in result[at..at + degree], which may lie in the data array itself as long as
   the two ranges do not meet.
   */
  method ReedSolomonComputeRemainder(data: array<bv8>, from: nat, dataLen: nat,
                                     generator: array<bv8>, degree: nat,
                                     result: array<bv8>, at: nat)
    requires 1 <= degree <= MAX_DEGREE && degree <= generator.Length
    requires from + dataLen <= data.Length && at + degree <= result.Length
    requires generator != result
    requires data != result || from + dataLen <= at || at + degree <= from
    modifies result
    ensures result[at..at + degree] == Remainder(old(data[from..from + dataLen]), old(generator[..degree]))
    ensures forall k :: 0 <= k < result.Length && !(at <= k < at + degree) ==> result[k] == old(result[k])
  {
    hide Add, Mul, Sum, Shift, Scale;
    ghost var g, d := generator[..degree], data[from..from + dataLen];
    ClearRange(result, at, degree);
    for i := 0 to dataLen
      invariant result[at..at + degree] == Remainder(d[..i], g)
      invariant forall k :: 0 <= k < result.Length && !(at <= k < at + degree) ==> result[k] == old(result[k])
    {
      ghost var r := result[at..at + degree];
      assert data[from + i] == d[i] && result[at] == r[0];
      assert generator[..degree] == g;
      var factor := Add(data[from + i], result[at]);
      MoveDown(result, at, degree);
      AddMultiple(generator, degree, result, at, factor);
      assert d[..i + 1][..i] == d[..i];
    }
    assert d[..dataLen] == d;
  }
}
