/**
 Polynomials over GF(2^8) as the QR Code generator stores them: a sequence of
 coefficients from the highest power to the lowest.
 */
module Polynomial {
  import opened GaloisField

  type Poly = seq<bv8>

  function Pow(a: bv8, n: nat): bv8 {
    if n == 0 then 1 else Mul(Pow(a, n - 1), a)
  }

  /** The value of p at a, by Horner's rule. */
  function Eval(p: Poly, a: bv8): bv8 {
    if p == [] then 0 else Add(Mul(Eval(p[..|p| - 1], a), a), p[|p| - 1])
  }

  function Sum(p: Poly, q: Poly): (s: Poly)
    requires |p| == |q|
    ensures |s| == |p|
  {
    seq(|p|, i requires 0 <= i < |p| => Add(p[i], q[i]))
  }

  function Scale(p: Poly, c: bv8): (s: Poly)
    ensures |s| == |p|
  {
    seq(|p|, i requires 0 <= i < |p| => Mul(p[i], c))
  }

  /** x * p without its term of degree |p|. */
  function Shift(p: Poly): (s: Poly)
    requires p != []
    ensures |s| == |p|
  {
    p[1..] + [0]
  }

  function Zeros(n: nat): (s: Poly)
    ensures |s| == n
  {
    seq(n, _ => 0)
  }

  lemma {:induction false} EvalConcat(p: Poly, q: Poly, a: bv8)
    ensures Eval(p + q, a) == Add(Mul(Eval(p, a), Pow(a, |q|)), Eval(q, a))
  {
    hide Add, Mul;
    if q == [] {
      assert p + q == p;
      MulRight(Eval(p, a), 0, 0);
      AddLaws(Eval(p, a), 0, 0);
    } else {
      var n := |q| - 1;
      var init := q[..n];
      assert (p + q)[..|p + q| - 1] == p + init;
      EvalConcat(p, init, a);
      var high, low := Mul(Eval(p, a), Pow(a, n)), Eval(init, a);
      MulLeft(high, low, a);
      MulAssociates(Eval(p, a), Pow(a, n), a);
      AddLaws(Mul(high, a), Mul(low, a), q[n]);
    }
  }

  lemma {:induction false} EvalSum(p: Poly, q: Poly, a: bv8)
    requires |p| == |q|
    ensures Eval(Sum(p, q), a) == Add(Eval(p, a), Eval(q, a))
  {
    hide Add, Mul;
    if p == [] {
      AddLaws(0, 0, 0);
    } else {
      var n := |p| - 1;
      var s := Sum(p, q);
      assert s[..n] == Sum(p[..n], q[..n]);
      EvalSum(p[..n], q[..n], a);
      var e, f := Eval(p[..n], a), Eval(q[..n], a);
      MulLeft(e, f, a);
      AddShuffle(Mul(e, a), Mul(f, a), p[n], q[n]);
    }
  }

  lemma {:induction false} EvalScale(p: Poly, c: bv8, a: bv8)
    ensures Eval(Scale(p, c), a) == Mul(Eval(p, a), c)
  {
    hide Add, Mul;
    if p == [] {
      MulUnit(c);
    } else {
      var n := |p| - 1;
      assert Scale(p, c)[..n] == Scale(p[..n], c);
      EvalScale(p[..n], c, a);
      var e := Eval(p[..n], a);
      MulLeft(Mul(e, a), p[n], c);
      MulAssociates(e, c, a);
      MulAssociates(e, a, c);
      MulCommutes(a, c);
    }
  }

  lemma EvalZeros(n: nat, a: bv8)
    ensures Eval(Zeros(n), a) == 0
  {
    hide Add, Mul;
    if n > 0 {
      assert Zeros(n)[..n - 1] == Zeros(n - 1);
      EvalZeros(n - 1, a);
      MulUnit(a);
      AddLaws(0, 0, 0);
    }
  }

  lemma EvalSingle(c: bv8, a: bv8)
    ensures Eval([c], a) == c
  {
    hide Add, Mul;
    assert [c][..0] == [];
    MulUnit(a);
    AddLaws(c, 0, 0);
  }

  /** Multiplying by x: the shifted polynomial plus the term that fell off. */
  lemma EvalShift(p: Poly, a: bv8)
    requires p != []
    ensures Mul(Eval(p, a), a) == Add(Mul(p[0], Pow(a, |p|)), Eval(Shift(p), a))
  {
    hide Add, Mul;
    var n, rest := |p| - 1, p[1..];
    assert p == [p[0]] + rest;
    EvalConcat([p[0]], rest, a);
    EvalSingle(p[0], a);
    EvalConcat(rest, [0], a);
    EvalSingle(0, a);
    MulLeft(Mul(p[0], Pow(a, n)), Eval(rest, a), a);
    MulAssociates(p[0], Pow(a, n), a);
    MulUnit(a);
    assert Pow(a, 1) == Mul(Pow(a, 0), a);
    AddLaws(Mul(Eval(rest, a), a), 0, 0);
  }
}
