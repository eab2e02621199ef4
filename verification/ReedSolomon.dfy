/** The two Reed-Solomon codes of the R-W subchannel, (24,20) and (4,2) over GF(2^6), as one
    decoder parameterised by block length and parity count. */
module ReedSolomon {
  import opened Gf64

  // ---- the code --------------------------------------------------------------------------

  /** Entry of the parity-check matrix: row r, k symbols before the end of the block. */
  function Check(r: nat, k: nat): Sym {
    Exp(r * k)
  }

  /** Syndrome r of a block: the block read as a polynomial, first symbol highest, evaluated
      at the primitive element to the r. */
  function Syn(v: seq<Sym>, r: nat): Sym {
    if |v| == 0 then 0
    else Add(Mul(v[0], Check(r, |v| - 1)), Syn(v[1..], r))
  }

  ghost predicate IsCodeword(v: seq<Sym>, nsyn: nat) {
    forall r: nat {:trigger Syn(v, r)} :: r < nsyn ==> Syn(v, r) == 0
  }

  /** Hamming distance. */
  ghost function Distance(u: seq<Sym>, v: seq<Sym>): nat
    requires |u| == |v|
  {
    if |u| == 0 then 0 else (if u[0] == v[0] then 0 else 1) + Distance(u[1..], v[1..])
  }

  ghost function Weight(v: seq<Sym>): nat {
    if |v| == 0 then 0 else (if v[0] == 0 then 0 else 1) + Weight(v[1..])
  }

  ghost function Sum(u: seq<Sym>, v: seq<Sym>): (s: seq<Sym>)
    requires |u| == |v|
    ensures |s| == |u|
  {
    if |u| == 0 then [] else [Add(u[0], v[0])] + Sum(u[1..], v[1..])
  }

  // ---- algebra of two error values at two locations ------------------------------------

  lemma XorCancelsMiddle(a: Sym, b: Sym, c: Sym, d: Sym)
    ensures Add(Add(Add(a, b), Add(c, d)), Add(c, b)) == Add(a, d)
    ensures Add(Add(a, b), Add(c, b)) == Add(a, c)
    ensures Add(Add(a, b), Add(b, c)) == Add(a, c)
  {}

  lemma MulSum(a: Sym, b: Sym, x: Sym, y: Sym)
    ensures Mul(Add(a, b), Add(x, y)) == Add(Add(Mul(a, x), Mul(a, y)), Add(Mul(b, x), Mul(b, y)))
  {
    hide Add, Mul;
    MulComm(Add(a, b), Add(x, y));
    MulDistributes(Add(x, y), a, b);
    MulComm(Add(x, y), a);
    MulComm(Add(x, y), b);
    MulDistributes(a, x, y);
    MulDistributes(b, x, y);
  }

  /** Adding Y times a sum to the sum of the located terms leaves only X's part. */
  lemma Fold(p: Sym, q: Sym, x: Sym, y: Sym)
    ensures Add(Add(Mul(p, x), Mul(q, y)), Mul(y, Add(p, q))) == Mul(p, Add(x, y))
  {
    hide Add, Mul;
    MulDistributes(y, p, q);
    MulComm(y, p);
    MulComm(y, q);
    MulDistributes(p, x, y);
    XorCancelsMiddle(Mul(p, x), Mul(q, y), Mul(p, y), 0);
  }

  /** Located sums obey the recurrence of the locator polynomial. */
  lemma Recurrence(p: Sym, q: Sym, x: Sym, y: Sym)
    ensures
      var s0 := Add(p, q);
      var s1 := Add(Mul(p, x), Mul(q, y));
      var s2 := Add(Mul(Mul(p, x), x), Mul(Mul(q, y), y));
      s2 == Add(Mul(Add(x, y), s1), Mul(Mul(x, y), s0))
  {
    hide Add, Mul;
    var px, qy := Mul(p, x), Mul(q, y);
    MulSum(x, y, px, qy);
    MulComm(x, px);
    MulComm(y, qy);
    MulDistributes(Mul(x, y), p, q);
    assert Mul(x, qy) == Mul(Mul(x, y), q) by {
      MulComm(q, y);
      MulAssoc(x, y, q);
    }
    assert Mul(y, px) == Mul(Mul(x, y), p) by {
      MulComm(p, x);
      MulAssoc(y, x, p);
      MulComm(y, x);
    }
    XorCancelsMiddle(Mul(px, x), Mul(x, qy), Mul(y, px), Mul(qy, y));
  }

  /** The determinant of the locator system is e f (X + Y)^2. */
  lemma Determinant(e: Sym, f: Sym, x: Sym, y: Sym)
    requires e != 0 && f != 0 && x != y
    ensures
      var s0 := Add(e, f);
      var s1 := Add(Mul(e, x), Mul(f, y));
      var s2 := Add(Mul(Mul(e, x), x), Mul(Mul(f, y), y));
      Add(Mul(s1, s1), Mul(s0, s2)) != 0
  {
    hide Add, Mul;
    var s0 := Add(e, f);
    var s1 := Add(Mul(e, x), Mul(f, y));
    var s2 := Add(Mul(Mul(e, x), x), Mul(Mul(f, y), y));
    var d := Add(x, y);
    Fold(e, f, x, y);
    Fold(Mul(e, x), Mul(f, y), x, y);
    var t0, t1 := Mul(e, d), Mul(Mul(e, x), d);
    assert s1 == Add(t0, Mul(y, s0)) by { AddLaws(s1, Mul(y, s0), 0); }
    assert s2 == Add(t1, Mul(y, s1)) by { AddLaws(s2, Mul(y, s1), 0); }
    assert Add(Mul(s1, s1), Mul(s0, s2)) == Add(Mul(s1, t0), Mul(s0, t1)) by {
      MulDistributes(s1, t0, Mul(y, s0));
      MulDistributes(s0, t1, Mul(y, s1));
      assert Mul(s1, Mul(y, s0)) == Mul(s0, Mul(y, s1)) by {
        MulComm(y, s0);
        MulComm(s1, Mul(s0, y));
        MulAssoc(s0, y, s1);
      }
      XorCancelsMiddle(Mul(s1, t0), Mul(s1, Mul(y, s0)), Mul(s0, t1), 0);
    }
    assert t1 == Mul(x, t0) by {
      MulComm(e, x);
      MulAssoc(x, e, d);
    }
    assert Add(Mul(s1, t0), Mul(s0, t1)) == Mul(t0, Add(s1, Mul(x, s0))) by {
      MulComm(s1, t0);
      MulAssoc(s0, x, t0);
      MulComm(s0, x);
      MulComm(Mul(x, s0), t0);
      MulDistributes(t0, s1, Mul(x, s0));
    }
    assert Add(s1, Mul(x, s0)) == Mul(f, d) by {
      Fold(f, e, y, x);
      AddLaws(Mul(e, x), Mul(f, y), 0);
      AddLaws(e, f, 0);
      AddLaws(x, y, 0);
    }
    AddZeroIffEqual(x, y);
    MulNonzero(e, d);
    MulNonzero(f, d);
    MulNonzero(t0, Mul(f, d));
  }

  /** Cramer's rule for the locator system. */
  lemma Cramer(s0: Sym, s1: Sym, s2: Sym, s3: Sym, l1: Sym, l2: Sym)
    requires s2 == Add(Mul(l1, s1), Mul(l2, s0))
    requires s3 == Add(Mul(l1, s2), Mul(l2, s1))
    ensures
      var det := Add(Mul(s1, s1), Mul(s0, s2));
      && Mul(det, l1) == Add(Mul(s2, s1), Mul(s0, s3))
      && Mul(det, l2) == Add(Mul(s1, s3), Mul(s2, s2))
  {
    hide Add, Mul;
    var det := Add(Mul(s1, s1), Mul(s0, s2));
    MulComm(det, l1);
    MulComm(det, l2);
    MulDistributes(l1, Mul(s1, s1), Mul(s0, s2));
    MulDistributes(l2, Mul(s1, s1), Mul(s0, s2));
    assert Mul(s2, s1) == Add(Mul(l1, Mul(s1, s1)), Mul(l2, Mul(s0, s1))) by {
      MulComm(s2, s1);
      MulDistributes(s1, Mul(l1, s1), Mul(l2, s0));
      Rotate(s1, l1, s1);
      Rotate(s1, l2, s0);
      MulComm(s0, s1);
    }
    assert Mul(s0, s3) == Add(Mul(l1, Mul(s0, s2)), Mul(l2, Mul(s0, s1))) by {
      MulDistributes(s0, Mul(l1, s2), Mul(l2, s1));
      Rotate(s0, l1, s2);
      Rotate(s0, l2, s1);
    }
    assert Mul(s1, s3) == Add(Mul(l1, Mul(s1, s2)), Mul(l2, Mul(s1, s1))) by {
      MulDistributes(s1, Mul(l1, s2), Mul(l2, s1));
      Rotate(s1, l1, s2);
      Rotate(s1, l2, s1);
    }
    assert Mul(s2, s2) == Add(Mul(l1, Mul(s1, s2)), Mul(l2, Mul(s0, s2))) by {
      MulDistributes(s2, Mul(l1, s1), Mul(l2, s0));
      Rotate(s2, l1, s1);
      Rotate(s2, l2, s0);
      MulComm(s2, s1);
      MulComm(s2, s0);
    }
    XorCancelsMiddle(Mul(l1, Mul(s1, s1)), Mul(l2, Mul(s0, s1)), Mul(l1, Mul(s0, s2)), 0);
    XorCancelsOuter(Mul(l1, Mul(s1, s2)), Mul(l2, Mul(s1, s1)), Mul(l2, Mul(s0, s2)));
  }

  lemma XorCancelsOuter(a: Sym, b: Sym, c: Sym)
    ensures Add(Add(a, b), Add(a, c)) == Add(b, c)
  {}

  lemma Rotate(s: Sym, l: Sym, t: Sym)
    ensures Mul(s, Mul(l, t)) == Mul(l, Mul(s, t))
  {
    hide Mul;
    MulAssoc(s, l, t);
    MulComm(s, l);
    MulAssoc(l, s, t);
  }

  /** Two located errors: the locator system is solvable, its solution is the elementary
      symmetric functions of the locations, and a location's magnitude is recovered. */
  lemma LocatorOfTwoErrors(e: Sym, f: Sym, x: Sym, y: Sym, s0: Sym, s1: Sym, s2: Sym, s3: Sym)
    requires e != 0 && f != 0 && x != y
    requires s0 == Add(e, f)
    requires s1 == Add(Mul(e, x), Mul(f, y))
    requires s2 == Add(Mul(Mul(e, x), x), Mul(Mul(f, y), y))
    requires s3 == Add(Mul(Mul(Mul(e, x), x), x), Mul(Mul(Mul(f, y), y), y))
    ensures
      var det := Add(Mul(s1, s1), Mul(s0, s2));
      && det != 0
      && Div(Add(Mul(s2, s1), Mul(s0, s3)), det) == Add(x, y)
      && Div(Add(Mul(s1, s3), Mul(s2, s2)), det) == Mul(x, y)
  {
    hide Add, Mul, Div;
    Determinant(e, f, x, y);
    Recurrence(e, f, x, y);
    Recurrence(Mul(e, x), Mul(f, y), x, y);
    Cramer(s0, s1, s2, s3, Add(x, y), Mul(x, y));
    var det := Add(Mul(s1, s1), Mul(s0, s2));
    DivIsTheQuotient(Add(Mul(s2, s1), Mul(s0, s3)), det, Add(x, y));
    DivIsTheQuotient(Add(Mul(s1, s3), Mul(s2, s2)), det, Mul(x, y));
  }

  lemma MagnitudesOfTwoErrors(e: Sym, f: Sym, x: Sym, y: Sym)
    requires x != y
    ensures
      var s0 := Add(e, f);
      var s1 := Add(Mul(e, x), Mul(f, y));
      Div(Add(s1, Mul(s0, y)), Add(x, y)) == e && Add(s0, e) == f
  {
    hide Add, Mul, Div;
    var s0 := Add(e, f);
    var s1 := Add(Mul(e, x), Mul(f, y));
    Fold(e, f, x, y);
    MulComm(s0, y);
    MulComm(e, Add(x, y));
    AddZeroIffEqual(x, y);
    DivIsTheQuotient(Add(s1, Mul(s0, y)), Add(x, y), e);
    AddLaws(f, e, 0);
    AddLaws(e, f, 0);
  }

  /** The locator vanishes at the inverse of X or Y and nowhere else. */
  lemma LocatorRoots(x: Sym, y: Sym, z: Sym, inv: Sym)
    requires Mul(z, inv) == 1
    ensures Add(Add(1, Mul(Add(x, y), inv)), Mul(Mul(x, y), Mul(inv, inv))) == 0 <==> z == x || z == y
  {
    hide Add, Mul;
    var xi, yi := Mul(x, inv), Mul(y, inv);
    MulSum(1, xi, 1, yi);
    MulOne(1);
    MulOne(xi);
    MulOne(yi);
    assert Mul(Add(x, y), inv) == Add(xi, yi) by {
      MulComm(Add(x, y), inv);
      MulDistributes(inv, x, y);
      MulComm(inv, x);
      MulComm(inv, y);
    }
    assert Mul(xi, yi) == Mul(Mul(x, y), Mul(inv, inv)) by {
      MulAssoc(x, inv, yi);
      Rotate(inv, y, inv);
      MulAssoc(x, y, Mul(inv, inv));
    }
    XorRegroup(1, xi, yi, Mul(xi, yi));
    MulNonzero(Add(1, xi), Add(1, yi));
    InverseIsUnique(x, z, inv);
    InverseIsUnique(y, z, inv);
    AddZeroIffEqual(1, xi);
    AddZeroIffEqual(1, yi);
  }

  lemma XorRegroup(a: Sym, b: Sym, c: Sym, d: Sym)
    ensures Add(Add(a, c), Add(b, d)) == Add(Add(a, Add(b, c)), d)
  {
    hide Add;
    AddLaws(Add(a, c), b, d);
    AddLaws(a, c, b);
    AddLaws(b, c, 0);
  }

  lemma InverseIsUnique(x: Sym, z: Sym, inv: Sym)
    requires Mul(z, inv) == 1
    ensures Mul(x, inv) == 1 <==> x == z
  {
    hide Add, Mul;
    MulNonzero(z, inv);
    MulComm(z, inv);
    MulComm(x, inv);
    if Mul(x, inv) == 1 {
      MulCancel(inv, x, z);
    }
  }

  // ---- syndromes under change --------------------------------------------------------------

  /** Changing one symbol by e adds e times its location to the r. */
  lemma {:induction false} SynUpdate(v: seq<Sym>, j: nat, e: Sym, r: nat)
    requires j < |v|
    ensures Syn(v[j := Add(v[j], e)], r) == Add(Syn(v, r), Mul(e, Check(r, |v| - 1 - j)))
  {
    hide Add, Mul, Exp, Check;
    var w := v[j := Add(v[j], e)];
    var x := Check(r, |v| - 1);
    if j == 0 {
      assert w[1..] == v[1..];
      MulComm(Add(v[0], e), x);
      MulDistributes(x, v[0], e);
      MulComm(x, v[0]);
      MulComm(x, e);
      XorSwap(Mul(v[0], x), Mul(e, x), Syn(v[1..], r));
    } else {
      assert w[1..] == v[1..][j - 1 := Add(v[1..][j - 1], e)];
      SynUpdate(v[1..], j - 1, e, r);
      AddLaws(Mul(v[0], x), Syn(v[1..], r), Mul(e, Check(r, |v| - 1 - j)));
    }
  }

  lemma XorSwap(a: Sym, b: Sym, c: Sym)
    ensures Add(Add(a, b), c) == Add(Add(a, c), b)
  {}

  lemma CheckNextRow(r: nat, k: nat)
    ensures Check(r + 1, k) == Mul(Check(r, k), Exp(k))
  {
    hide Exp, Mul;
    MulExp(r * k, k);
    assert (r + 1) * k == r * k + k;
  }

  // ---- minimum distance ----------------------------------------------------------------------

  /** Multiplies the symbol at every location X by X + x, which wipes out location x. */
  ghost function Twist(v: seq<Sym>, x: Sym): (w: seq<Sym>)
    ensures |w| == |v|
  {
    if |v| == 0 then [] else [Mul(v[0], Add(Exp(|v| - 1), x))] + Twist(v[1..], x)
  }

  lemma {:induction false} SynTwist(v: seq<Sym>, x: Sym, r: nat)
    ensures Syn(Twist(v, x), r) == Add(Syn(v, r + 1), Mul(x, Syn(v, r)))
  {
    hide Add, Mul, Exp, Check;
    if |v| == 0 {
      MulNonzero(x, 0);
      AddLaws(0, 0, 0);
    } else {
      var k := |v| - 1;
      SynTwist(v[1..], x, r);
      CheckNextRow(r, k);
      var a, p, q := v[0], Check(r, k), Exp(k);
      assert Mul(Mul(a, Add(q, x)), p) == Add(Mul(a, Mul(p, q)), Mul(x, Mul(a, p))) by {
        MulAssoc(a, Add(q, x), p);
        MulComm(Add(q, x), p);
        MulDistributes(p, q, x);
        MulDistributes(a, Mul(p, q), Mul(p, x));
        Rotate(a, p, x);
        Rotate(x, a, p);
        MulComm(x, p);
        Rotate(p, a, x);
      }
      MulDistributes(x, Mul(a, p), Syn(v[1..], r));
      XorInterchange(Mul(a, Mul(p, q)), Mul(x, Mul(a, p)), Syn(v[1..], r + 1), Mul(x, Syn(v[1..], r)));
    }
  }

  lemma XorInterchange(a: Sym, b: Sym, c: Sym, d: Sym)
    ensures Add(Add(a, b), Add(c, d)) == Add(Add(a, c), Add(b, d))
  {
    hide Add;
    AddLaws(Add(a, b), c, d);
    AddLaws(Add(a, c), b, d);
    XorSwap(a, b, c);
  }

  lemma {:induction false} WeightPositive(v: seq<Sym>) returns (j: nat)
    requires Weight(v) > 0
    ensures j < |v| && v[j] != 0
  {
    if v[0] != 0 {
      j := 0;
    } else {
      j := WeightPositive(v[1..]);
      j := j + 1;
    }
  }

  /** Twisting at an occupied location takes exactly one off the weight. */
  lemma {:induction false} WeightTwist(v: seq<Sym>, k: nat)
    requires |v| <= ORDER && k < ORDER
    ensures Weight(Twist(v, Exp(k))) == Weight(v) - (if k < |v| && v[|v| - 1 - k] != 0 then 1 else 0)
  {
    hide Add, Mul, Exp, Check;
    if |v| > 0 {
      WeightTwist(v[1..], k);
      MulNonzero(v[0], Add(Exp(|v| - 1), Exp(k)));
      AddZeroIffEqual(Exp(|v| - 1), Exp(k));
      if Exp(|v| - 1) == Exp(k) {
        ExpInjective(|v| - 1, k);
      }
    }
  }

  lemma {:induction false} SynOfWeightOne(v: seq<Sym>)
    requires Weight(v) <= 1 && Syn(v, 0) == 0
    ensures Weight(v) == 0
  {
    hide Add, Mul, Exp;
    if |v| > 0 {
      AddLaws(Syn(v[1..], 0), 0, 0);
      AddLaws(0, Syn(v[1..], 0), 0);
      ExpAtZero();
      MulOne(v[0]);
      MulNonzero(0, Check(0, |v| - 1));
      if v[0] == 0 {
        SynOfWeightOne(v[1..]);
      } else {
        SynOfWeightZero(v[1..]);
        AddLaws(v[0], 0, 0);
      }
    }
  }

  lemma {:induction false} SynOfWeightZero(v: seq<Sym>)
    requires Weight(v) == 0
    ensures Syn(v, 0) == 0
  {
    hide Add, Mul, Exp, Check;
    if |v| > 0 {
      SynOfWeightZero(v[1..]);
      MulNonzero(0, Check(0, |v| - 1));
      AddLaws(0, 0, 0);
    }
  }

  /** The Vandermonde bound: m vanishing syndromes and at most m nonzero symbols force zero. */
  lemma {:induction false} MinimumWeight(v: seq<Sym>, m: nat)
    requires |v| <= ORDER && IsCodeword(v, m) && Weight(v) <= m
    ensures Weight(v) == 0
    decreases m
  {
    hide Add, Mul, Exp, Check;
    if Weight(v) > 0 {
      assert Syn(v, 0) == 0;
      if Weight(v) == 1 {
        SynOfWeightOne(v);
      } else {
        var j := WeightPositive(v);
        var k := |v| - 1 - j;
        var w := Twist(v, Exp(k));
        WeightTwist(v, k);
        forall r: nat | r < m - 1
          ensures Syn(w, r) == 0
        {
          SynTwist(v, Exp(k), r);
          assert Syn(v, r) == 0 && Syn(v, r + 1) == 0;
          MulNonzero(Exp(k), 0);
          AddLaws(0, 0, 0);
        }
        MinimumWeight(w, m - 1);
      }
    }
  }

  lemma {:induction false} SynSum(u: seq<Sym>, v: seq<Sym>, r: nat)
    requires |u| == |v|
    ensures Syn(Sum(u, v), r) == Add(Syn(u, r), Syn(v, r))
  {
    hide Add, Mul, Exp, Check;
    if |u| == 0 {
      AddLaws(0, 0, 0);
    } else {
      var x := Check(r, |u| - 1);
      SynSum(u[1..], v[1..], r);
      MulComm(Add(u[0], v[0]), x);
      MulDistributes(x, u[0], v[0]);
      MulComm(x, u[0]);
      MulComm(x, v[0]);
      XorInterchange(Mul(u[0], x), Mul(v[0], x), Syn(u[1..], r), Syn(v[1..], r));
    }
  }

  lemma {:induction false} DistanceIsWeightOfSum(u: seq<Sym>, v: seq<Sym>)
    requires |u| == |v|
    ensures Distance(u, v) == Weight(Sum(u, v))
  {
    hide Add;
    if |u| > 0 {
      AddZeroIffEqual(u[0], v[0]);
      DistanceIsWeightOfSum(u[1..], v[1..]);
    }
  }

  lemma {:induction false} DistanceZero(u: seq<Sym>, v: seq<Sym>)
    requires |u| == |v|
    ensures Distance(u, v) == 0 <==> u == v
  {
    if |u| > 0 {
      DistanceZero(u[1..], v[1..]);
      assert u == [u[0]] + u[1..] && v == [v[0]] + v[1..];
    }
  }

  lemma {:induction false} Triangle(u: seq<Sym>, v: seq<Sym>, w: seq<Sym>)
    requires |u| == |v| == |w|
    ensures Distance(u, w) <= Distance(u, v) + Distance(v, w)
    ensures Distance(u, v) == Distance(v, u)
  {
    if |u| > 0 {
      Triangle(u[1..], v[1..], w[1..]);
    }
  }

  /** Two distinct codewords differ in more places than there are parity symbols. */
  lemma MinimumDistance(c: seq<Sym>, d: seq<Sym>, nsyn: nat)
    requires |c| == |d| <= ORDER && IsCodeword(c, nsyn) && IsCodeword(d, nsyn)
    requires Distance(c, d) <= nsyn
    ensures c == d
  {
    hide Add, Mul, Exp, Check;
    var s := Sum(c, d);
    forall r: nat | r < nsyn
      ensures Syn(s, r) == 0
    {
      SynSum(c, d, r);
      assert Syn(c, r) == 0 && Syn(d, r) == 0;
      AddLaws(0, 0, 0);
    }
    DistanceIsWeightOfSum(c, d);
    MinimumWeight(s, nsyn);
    DistanceZero(c, d);
  }

  // ---- what an error pattern of weight one or two does to the syndromes -----------------------

  ghost predicate AreSyndromes(v: seq<Sym>, nsyn: nat, s: seq<Sym>) {
    |s| == nsyn && forall r: nat {:trigger Syn(v, r)} :: r < nsyn ==> s[r] == Syn(v, r)
  }

  /** No codeword lies within distance d of v. */
  ghost predicate NoneWithin(v: seq<Sym>, nsyn: nat, d: nat) {
    forall c: seq<Sym> {:trigger IsCodeword(c, nsyn)} ::
      |c| == |v| && IsCodeword(c, nsyn) ==> Distance(c, v) > d
  }

  lemma {:induction false} DistanceOfUpdate(u: seq<Sym>, w: seq<Sym>, j: nat, x: Sym)
    requires |u| == |w| && j < |u| && w[j] == u[j]
    ensures Distance(u, w[j := x]) == Distance(u, w) + (if x == u[j] then 0 else 1)
  {
    var w' := w[j := x];
    if j == 0 {
      assert w'[1..] == w[1..];
    } else {
      assert w'[1..] == w[1..][j - 1 := x];
      DistanceOfUpdate(u[1..], w[1..], j - 1, x);
    }
  }

  lemma {:induction false} FirstError(c: seq<Sym>, v: seq<Sym>) returns (j: nat, e: Sym, u: seq<Sym>)
    requires |c| == |v| && Distance(c, v) > 0
    ensures j < |c| && e != 0 && |u| == |v| && u[..j + 1] == c[..j + 1]
    ensures v == u[j := Add(c[j], e)]
    ensures Distance(c, u) == Distance(c, v) - 1
  {
    if c[0] != v[0] {
      j, e, u := 0, Add(c[0], v[0]), [c[0]] + v[1..];
      AddLaws(v[0], c[0], 0);
      AddLaws(c[0], v[0], 0);
      AddZeroIffEqual(c[0], v[0]);
    } else {
      var u';
      j, e, u' := FirstError(c[1..], v[1..]);
      u := [c[0]] + u';
      j := j + 1;
      assert u[1..] == u';
      assert v == [c[0]] + v[1..];
      assert u[..j + 1] == [c[0]] + u'[..j];
      assert c[..j + 1] == [c[0]] + c[1..][..j];
    }
  }

  lemma DistanceOne(c: seq<Sym>, v: seq<Sym>) returns (j: nat, e: Sym)
    requires |c| == |v| && Distance(c, v) == 1
    ensures j < |c| && e != 0 && v == c[j := Add(c[j], e)]
  {
    hide Add;
    var u;
    j, e, u := FirstError(c, v);
    DistanceZero(c, u);
  }

  lemma DistanceTwo(c: seq<Sym>, v: seq<Sym>) returns (i: nat, e: Sym, j: nat, f: Sym)
    requires |c| == |v| && Distance(c, v) == 2
    ensures i < j < |c| && e != 0 && f != 0
    ensures v == c[j := Add(c[j], f)][i := Add(c[i], e)]
  {
    hide Add;
    var u;
    i, e, u := FirstError(c, v);
    j, f := DistanceOne(c, u);
    assert u[i] == u[..i + 1][i] == c[..i + 1][i] == c[i];
    if j <= i {
      assert u[j] == u[..i + 1][j] == c[..i + 1][j] == c[j];
      AddCancel(c[j], f);
    }
  }

  lemma AddCancel(c: Sym, f: Sym)
    requires Add(c, f) == c
    ensures f == 0
  {}

  lemma SynOfOneError(c: seq<Sym>, v: seq<Sym>, nsyn: nat, j: nat, e: Sym, r: nat)
    requires |c| == |v| && IsCodeword(c, nsyn) && r < nsyn
    requires j < |c| && v == c[j := Add(c[j], e)]
    ensures Syn(v, r) == Mul(e, Check(r, |v| - 1 - j))
  {
    hide Add, Mul, Check;
    SynUpdate(c, j, e, r);
    assert Syn(c, r) == 0;
    AddLaws(Mul(e, Check(r, |v| - 1 - j)), 0, 0);
    AddLaws(0, Mul(e, Check(r, |v| - 1 - j)), 0);
  }

  lemma SynOfTwoErrors(c: seq<Sym>, v: seq<Sym>, nsyn: nat, i: nat, e: Sym, j: nat, f: Sym, r: nat)
    requires |c| == |v| && IsCodeword(c, nsyn) && r < nsyn
    requires i < j < |c| && v == c[j := Add(c[j], f)][i := Add(c[i], e)]
    ensures Syn(v, r) == Add(Mul(e, Check(r, |v| - 1 - i)), Mul(f, Check(r, |v| - 1 - j)))
  {
    hide Add, Mul, Check;
    var u := c[j := Add(c[j], f)];
    SynOfOneError(c, u, nsyn, j, f, r);
    SynUpdate(u, i, e, r);
    AddLaws(Mul(f, Check(r, |v| - 1 - j)), Mul(e, Check(r, |v| - 1 - i)), 0);
  }

  lemma CheckRows(k: nat)
    ensures Check(0, k) == 1
    ensures Check(1, k) == Exp(k)
  {
    hide Exp;
    ExpAtZero();
    assert 0 * k == 0 && 1 * k == k;
  }

  lemma LocatedTerm(e: Sym, r: nat, k: nat)
    ensures Mul(e, Check(r + 1, k)) == Mul(Mul(e, Check(r, k)), Exp(k))
    ensures Mul(e, Check(0, k)) == e
  {
    hide Mul, Check, Exp;
    CheckNextRow(r, k);
    MulAssoc(e, Check(r, k), Exp(k));
    CheckRows(k);
    MulOne(e);
  }

  /** Locations repeat with the order of the field. */
  lemma {:induction false} ExpTurns(i: nat, m: nat)
    ensures Exp(i + ORDER * m) == Exp(i)
  {
    hide Exp;
    if m > 0 {
      ExpTurns(i, m - 1);
      ExpPeriod(i + ORDER * (m - 1));
    }
  }

  lemma CheckPeriod(r: nat, k: nat)
    ensures Check(r, k) == Check(r, k % ORDER)
  {
    hide Exp;
    var q := k / ORDER;
    ExpTurns(r * (k % ORDER), r * q);
    CalculateTurns(r, k);
  }

  lemma CalculateTurns(r: nat, k: nat)
    ensures r * k == r * (k % ORDER) + ORDER * (r * (k / ORDER))
  {
    assert k == k % ORDER + ORDER * (k / ORDER);
    assert r * (k % ORDER + ORDER * (k / ORDER)) == r * (k % ORDER) + r * (ORDER * (k / ORDER));
    assert r * (ORDER * (k / ORDER)) == ORDER * (r * (k / ORDER));
  }

  /** A term added twice at equivalent locations cancels. */
  lemma TermCancels(e: Sym, r: nat, k: nat)
    ensures Add(Mul(e, Check(r, k)), Mul(e, Check(r, k % ORDER))) == 0
  {
    hide Add, Mul, Check;
    CheckPeriod(r, k);
    AddLaws(Mul(e, Check(r, k)), 0, 0);
  }

  /** Whenever a codeword lies one symbol away, the single-error attempt patches the block to a
      codeword: to that one, if the block is no longer than the order. */
  lemma SingleErrorIsFound(c: seq<Sym>, v: seq<Sym>, nsyn: nat, s: seq<Sym>)
    requires |c| == |v| && 2 <= nsyn && IsCodeword(c, nsyn) && Distance(c, v) == 1
    requires AreSyndromes(v, nsyn, s)
    ensures s[0] != 0 && s[1] != 0
    ensures
      var k := Log(Div(s[1], s[0]));
      && k < |v|
      && IsCodeword(v[|v| - 1 - k := Add(v[|v| - 1 - k], s[0])], nsyn)
      && (|v| <= ORDER ==> v[|v| - 1 - k := Add(v[|v| - 1 - k], s[0])] == c)
  {
    hide Add, Mul, Div, Exp, Check, Log;
    var j, e := DistanceOne(c, v);
    var k := |v| - 1 - j;
    SynOfOneError(c, v, nsyn, j, e, 0);
    SynOfOneError(c, v, nsyn, j, e, 1);
    LocatedTerm(e, 0, k);
    assert s[0] == e && s[1] == Mul(e, Exp(k));
    ExpNonzero(k);
    MulNonzero(e, Exp(k));
    DivIsTheQuotient(s[1], s[0], Exp(k));
    LogExp(k);
    AddLaws(c[j], e, 0);
    var at := |v| - 1 - k % ORDER;
    var w := v[at := Add(v[at], e)];
    forall r: nat | r < nsyn
      ensures Syn(w, r) == 0
    {
      SynOfOneError(c, v, nsyn, j, e, r);
      SynUpdate(v, at, e, r);
      TermCancels(e, r, k);
    }
  }

  // ---- the decoder -----------------------------------------------------------------------------

  /** The syndromes of the first n symbols. */
  method RsSyndromes(v: array<Sym>, n: nat, nsyn: nat) returns (s: seq<Sym>)
    requires n <= v.Length
    ensures AreSyndromes(v[..n], nsyn, s)
  {
    hide Add, Mul, Exp, Pow;
    s := [];
    for r := 0 to nsyn
      invariant |s| == r && forall q: nat {:trigger Syn(v[..n], q)} :: q < r ==> s[q] == Syn(v[..n], q)
    {
      var acc: Sym := 0;
      AddLaws(0, Syn(v[..n], r), 0);
      AddLaws(Syn(v[..n], r), 0, 0);
      assert v[0..n] == v[..n];
      for j := 0 to n
        invariant Add(acc, Syn(v[j..n], r)) == Syn(v[..n], r)
      {
        assert v[j..n][1..] == v[j + 1..n];
        SynStep(acc, v[j], r, n - 1 - j, Syn(v[j + 1..n], r));
        if v[j] == 0 {
          continue;
        }
        acc := Add(acc, if r != 0 then Mul(v[j], Pow(r * (n - 1 - j))) else v[j]);
      }
      assert v[n..n] == [];
      AddLaws(acc, 0, 0);
      s := s + [acc];
    }
  }

  lemma SynStep(acc: Sym, x: Sym, r: nat, k: nat, rest: Sym)
    ensures x == 0 ==> Add(Mul(x, Check(r, k)), rest) == rest
    ensures
      var term := if r != 0 then Mul(x, Pow(r * k)) else x;
      Add(acc, Add(Mul(x, Check(r, k)), rest)) == Add(Add(acc, term), rest)
  {
    hide Add, Mul, Exp;
    MulNonzero(x, Check(r, k));
    AddLaws(0, rest, 0);
    AddLaws(rest, 0, 0);
    ExpMod(r * k);
    CheckRows(k);
    MulOne(x);
    AddLaws(acc, Mul(x, Check(r, k)), rest);
  }

  method RsVerify(v: array<Sym>, n: nat, nsyn: nat) returns (clean: bool)
    requires n <= v.Length
    ensures clean <==> IsCodeword(v[..n], nsyn)
  {
    hide Add, Mul, Exp, Check;
    var s := RsSyndromes(v, n, nsyn);
    for r := 0 to nsyn
      invariant forall q: nat {:trigger Syn(v[..n], q)} :: q < r ==> Syn(v[..n], q) == 0
    {
      if s[r] != 0 {
        assert Syn(v[..n], r) != 0;
        return false;
      }
    }
    return true;
  }

  /** First attempt: patch the one place a single error would be. */
  method TrySingle(v: array<Sym>, n: nat, nsyn: nat, s: seq<Sym>) returns (fixed: bool)
    requires n <= v.Length && 2 <= nsyn
    requires AreSyndromes(v[..n], nsyn, s)
    modifies v
    ensures v[n..] == old(v[n..])
    ensures fixed ==> IsCodeword(v[..n], nsyn) && Distance(old(v[..n]), v[..n]) == 1
    ensures !fixed ==> v[..] == old(v[..])
    ensures !fixed ==> forall c: seq<Sym> {:trigger IsCodeword(c, nsyn)} ::
      |c| == n && IsCodeword(c, nsyn) ==> Distance(c, v[..n]) != 1
  {
    hide Add, Mul, Div, Exp, Check, Log, IsCodeword;
    ghost var was := v[..n];
    ghost var patched := was;
    if s[0] != 0 {
      var e := s[0];
      var k := Log(Div(s[1], s[0]));
      if s[1] != 0 && k < n {
        var j := n - 1 - k;
        var save := v[j];
        v[j] := Add(v[j], e);
        patched := v[..n];
        assert patched == was[j := Add(was[j], e)];
        PatchDistance(was, j, e);
        fixed := RsVerify(v, n, nsyn);
        if fixed {
          return;
        }
        v[j] := save;
        assert v[..n] == was;
      }
    }
    fixed := false;
    forall c: seq<Sym> | |c| == n && IsCodeword(c, nsyn)
      ensures Distance(c, was) != 1
    {
      if Distance(c, was) == 1 {
        SingleErrorIsFound(c, was, nsyn, s);
      }
    }
  }

  lemma PatchDistance(u: seq<Sym>, j: nat, e: Sym)
    requires j < |u| && e != 0
    ensures Distance(u, u[j := Add(u[j], e)]) == 1
  {
    hide Add;
    DistanceZero(u, u);
    DistanceOfUpdate(u, u, j, Add(u[j], e));
    if Add(u[j], e) == u[j] {
      AddCancel(u[j], e);
    }
  }

  function LocatorAt(l1: Sym, l2: Sym, k: nat): Sym {
    var x := Pow(ORDER - k % ORDER);
    Add(Add(1, Mul(l1, x)), Mul(l2, Mul(x, x)))
  }

  /** Exhaustive root search, stopping at the second root. */
  method ChienSearch(l1: Sym, l2: Sym, n: nat) returns (found: nat, pos0: nat, pos1: nat)
    ensures found <= 2
    ensures found >= 1 ==> pos0 < n && LocatorAt(l1, l2, pos0) == 0
    ensures found == 2 ==> pos0 < pos1 < n && LocatorAt(l1, l2, pos1) == 0
    ensures forall k: nat {:trigger LocatorAt(l1, l2, k)} ::
      k < (if found == 2 then pos1 else n) && LocatorAt(l1, l2, k) == 0 ==> found >= 1 && k == pos0
  {
    hide LocatorAt;
    found, pos0, pos1 := 0, 0, 0;
    var k := 0;
    while k < n && found < 2
      invariant k <= n && found <= 2
      invariant found >= 1 ==> pos0 < k && LocatorAt(l1, l2, pos0) == 0
      invariant found == 2 ==> pos0 < pos1 < k && LocatorAt(l1, l2, pos1) == 0
      invariant forall i: nat {:trigger LocatorAt(l1, l2, i)} ::
        i < (if found == 2 then pos1 else k) && LocatorAt(l1, l2, i) == 0 ==> found >= 1 && i == pos0
    {
      if LocatorAt(l1, l2, k) == 0 {
        if found == 0 {
          pos0 := k;
        } else {
          pos1 := k;
        }
        found := found + 1;
      }
      k := k + 1;
    }
  }

  lemma InverseLocation(k: nat)
    requires k < ORDER
    ensures Mul(Exp(k), Pow(ORDER - k % ORDER)) == 1
  {
    hide Mul, Exp;
    ExpMod(ORDER - k);
    MulExp(k, ORDER - k);
    FullTurn();
  }

  /** The roots among all positions are the places equivalent to the two locations. */
  lemma LocatorVanishesExactlyAt(p: nat, q: nat, k: nat)
    requires p < ORDER && q < ORDER
    ensures LocatorAt(Add(Exp(p), Exp(q)), Mul(Exp(p), Exp(q)), k) == 0 <==> k % ORDER == p || k % ORDER == q
  {
    hide Add, Mul, Exp, Pow;
    var m := k % ORDER;
    InverseLocation(m);
    LocatorRoots(Exp(p), Exp(q), Exp(m), Pow(ORDER - m));
    if Exp(m) == Exp(p) {
      ExpInjective(m, p);
    }
    if Exp(m) == Exp(q) {
      ExpInjective(m, q);
    }
  }

  /** The syndromes of a block are those of two terms. */
  ghost predicate HasTerms(v: seq<Sym>, nsyn: nat, p: nat, x: Sym, q: nat, y: Sym) {
    forall r: nat {:trigger Syn(v, r)} :: r < nsyn ==> Syn(v, r) == Add(Mul(x, Check(r, p)), Mul(y, Check(r, q)))
  }

  /** Adding both terms at their places clears every syndrome. */
  lemma PatchClears(v: seq<Sym>, nsyn: nat, p: nat, x: Sym, q: nat, y: Sym)
    requires p < q < |v| && HasTerms(v, nsyn, p, x, q, y)
    ensures IsCodeword(v[|v| - 1 - p := Add(v[|v| - 1 - p], x)][|v| - 1 - q := Add(v[|v| - 1 - q], y)], nsyn)
  {
    hide Add, Mul, Check;
    var u := v[|v| - 1 - p := Add(v[|v| - 1 - p], x)];
    var w := u[|v| - 1 - q := Add(u[|v| - 1 - q], y)];
    forall r: nat | r < nsyn
      ensures Syn(w, r) == 0
    {
      var s, t := Mul(x, Check(r, p)), Mul(y, Check(r, q));
      SynUpdate(v, |v| - 1 - p, x, r);
      SynUpdate(u, |v| - 1 - q, y, r);
      TwiceIsNothing(s, t);
    }
  }

  lemma TwiceIsNothing(s: Sym, t: Sym)
    ensures Add(Add(Add(s, t), s), t) == 0
  {}

  /** Errors at equivalent places act as one error, so a codeword lies within one symbol. */
  lemma EquivalentPlacesMerge(c: seq<Sym>, v: seq<Sym>, nsyn: nat, i: nat, e: Sym, j: nat, f: Sym)
    requires |c| == |v| && IsCodeword(c, nsyn)
    requires i < j < |c| && v == c[j := Add(c[j], f)][i := Add(c[i], e)]
    requires Exp(|v| - 1 - i) == Exp(|v| - 1 - j)
    ensures !NoneWithin(v, nsyn, 1)
  {
    hide Add, Mul, Check, Exp, Log;
    var a, b := |v| - 1 - i, |v| - 1 - j;
    LogExp(a);
    LogExp(b);
    var w := v[i := Add(v[i], Add(e, f))];
    forall r: nat | r < nsyn
      ensures Syn(w, r) == 0
    {
      SynOfTwoErrors(c, v, nsyn, i, e, j, f, r);
      SynUpdate(v, i, Add(e, f), r);
      CheckPeriod(r, a);
      CheckPeriod(r, b);
      SumOfTerms(e, f, Check(r, a));
    }
    DistanceZero(v, v);
    DistanceOfUpdate(v, v, i, Add(v[i], Add(e, f)));
    Triangle(v, w, v);
    assert IsCodeword(w, nsyn);
  }

  lemma SumOfTerms(e: Sym, f: Sym, x: Sym)
    ensures Add(Add(Mul(e, x), Mul(f, x)), Mul(Add(e, f), x)) == 0
  {
    hide Add, Mul;
    MulComm(Add(e, f), x);
    MulDistributes(x, e, f);
    MulComm(x, e);
    MulComm(x, f);
    AddLaws(Add(Mul(e, x), Mul(f, x)), 0, 0);
  }

  /** When a codeword is two symbols away and none is nearer, the syndromes are those of two terms at
      distinct places below the order, both inside the block. */
  lemma TwoErrorsAreTwoTerms(c: seq<Sym>, v: seq<Sym>, nsyn: nat) returns (p: nat, x: Sym, q: nat, y: Sym)
    requires |c| == |v| && IsCodeword(c, nsyn) && Distance(c, v) == 2 && NoneWithin(v, nsyn, 1)
    ensures p < q < |v| && q < ORDER && x != 0 && y != 0 && HasTerms(v, nsyn, p, x, q, y)
  {
    hide Add, Mul, Exp, Check, Log, NoneWithin;
    var i, e, j, f := DistanceTwo(c, v);
    var a, b := |v| - 1 - i, |v| - 1 - j;
    ExpMod(a);
    ExpMod(b);
    if a % ORDER == b % ORDER {
      EquivalentPlacesMerge(c, v, nsyn, i, e, j, f);
    }
    if a % ORDER < b % ORDER {
      p, x, q, y := a % ORDER, e, b % ORDER, f;
    } else {
      p, x, q, y := b % ORDER, f, a % ORDER, e;
    }
    forall r: nat | r < nsyn
      ensures Syn(v, r) == Add(Mul(x, Check(r, p)), Mul(y, Check(r, q)))
    {
      SynOfTwoErrors(c, v, nsyn, i, e, j, f, r);
      CheckPeriod(r, a);
      CheckPeriod(r, b);
      AddLaws(Mul(e, Check(r, a)), Mul(f, Check(r, b)), 0);
    }
  }

  /** What the two-error attempt computes from such syndromes: a nonzero determinant, the locator
      whose roots are the two places, and the first magnitude. */
  lemma TwoTermsAreLocated(v: seq<Sym>, nsyn: nat, s: seq<Sym>, p: nat, x: Sym, q: nat, y: Sym)
    requires 4 <= nsyn && AreSyndromes(v, nsyn, s) && HasTerms(v, nsyn, p, x, q, y)
    requires p < q < ORDER && x != 0 && y != 0
    ensures
      var det := Add(Mul(s[1], s[1]), Mul(s[0], s[2]));
      && det != 0
      && Div(Add(Mul(s[2], s[1]), Mul(s[0], s[3])), det) == Add(Exp(p), Exp(q))
      && Div(Add(Mul(s[1], s[3]), Mul(s[2], s[2])), det) == Mul(Exp(p), Exp(q))
      && Div(Add(s[1], Mul(s[0], Exp(q))), Add(Exp(p), Exp(q))) == x
      && Add(s[0], x) == y
  {
    hide Add, Mul, Div, Exp, Check, Log;
    assert forall r: nat :: r < 4 ==> s[r] == Syn(v, r);
    LocatedTerm(x, 0, p);
    LocatedTerm(x, 1, p);
    LocatedTerm(x, 2, p);
    LocatedTerm(y, 0, q);
    LocatedTerm(y, 1, q);
    LocatedTerm(y, 2, q);
    if Exp(p) == Exp(q) {
      ExpInjective(p, q);
    }
    LocatorOfTwoErrors(x, y, Exp(p), Exp(q), s[0], s[1], s[2], s[3]);
    MagnitudesOfTwoErrors(x, y, Exp(p), Exp(q));
  }

  /** The block the two-error attempt tries. */
  ghost function TwoErrorPatch(v: seq<Sym>, s: seq<Sym>, pos0: nat, pos1: nat): (w: seq<Sym>)
    requires |s| >= 2 && pos0 < pos1 < |v|
    ensures |w| == |v|
  {
    var j0, j1 := |v| - 1 - pos0, |v| - 1 - pos1;
    var e0 := Div(Add(s[1], Mul(s[0], Pow(pos1))), Add(Pow(pos0), Pow(pos1)));
    v[j0 := Add(v[j0], e0)][j1 := Add(v[j1], Add(s[0], e0))]
  }

  /** The search stops at the two places themselves: the first roots of all. */
  lemma ChienFindsBoth(l1: Sym, l2: Sym, n: nat, p: nat, q: nat, found: nat, pos0: nat, pos1: nat)
    requires p < q < n && q < ORDER && l1 == Add(Exp(p), Exp(q)) && l2 == Mul(Exp(p), Exp(q))
    requires found <= 2
    requires found >= 1 ==> pos0 < n && LocatorAt(l1, l2, pos0) == 0
    requires found == 2 ==> pos0 < pos1 < n && LocatorAt(l1, l2, pos1) == 0
    requires forall k: nat {:trigger LocatorAt(l1, l2, k)} ::
      k < (if found == 2 then pos1 else n) && LocatorAt(l1, l2, k) == 0 ==> found >= 1 && k == pos0
    ensures found == 2 && pos0 == p && pos1 == q
  {
    hide LocatorAt, Add, Mul, Exp;
    LocatorVanishesExactlyAt(p, q, p);
    LocatorVanishesExactlyAt(p, q, q);
    assert LocatorAt(l1, l2, p) == 0 && LocatorAt(l1, l2, q) == 0;
    LocatorVanishesExactlyAt(p, q, pos0);
    LocatorVanishesExactlyAt(p, q, pos1);
  }

  lemma TwoErrorsAreFound(c: seq<Sym>, v: seq<Sym>, nsyn: nat, s: seq<Sym>,
                          l1: Sym, l2: Sym, found: nat, pos0: nat, pos1: nat)
    requires |c| == |v| && 4 <= nsyn && IsCodeword(c, nsyn) && Distance(c, v) == 2 && NoneWithin(v, nsyn, 1)
    requires |s| == nsyn && AreSyndromes(v, nsyn, s)
    requires
      var det := Add(Mul(s[1], s[1]), Mul(s[0], s[2]));
      det != 0 ==>
        && l1 == Div(Add(Mul(s[2], s[1]), Mul(s[0], s[3])), det)
        && l2 == Div(Add(Mul(s[1], s[3]), Mul(s[2], s[2])), det)
        && found <= 2
        && (found >= 1 ==> pos0 < |v| && LocatorAt(l1, l2, pos0) == 0)
        && (found == 2 ==> pos0 < pos1 < |v| && LocatorAt(l1, l2, pos1) == 0)
        && (forall k: nat {:trigger LocatorAt(l1, l2, k)} ::
              k < (if found == 2 then pos1 else |v|) && LocatorAt(l1, l2, k) == 0 ==>
              found >= 1 && k == pos0)
    ensures Add(Mul(s[1], s[1]), Mul(s[0], s[2])) != 0
    ensures found == 2 && pos0 < pos1 < |v| && IsCodeword(TwoErrorPatch(v, s, pos0, pos1), nsyn)
  {
    hide LocatorAt, Add, Mul, Div, Exp, IsCodeword, HasTerms, NoneWithin, AreSyndromes, Distance, TwoErrorPatch;
    var p, x, q, y := TwoErrorsAreTwoTerms(c, v, nsyn);
    TwoTermsAreLocated(v, nsyn, s, p, x, q, y);
    ChienFindsBoth(l1, l2, |v|, p, q, found, pos0, pos1);
    PatchIs(v, s, p, x, q, y);
    PatchClears(v, nsyn, p, x, q, y);
  }

  lemma PatchIs(v: seq<Sym>, s: seq<Sym>, p: nat, x: Sym, q: nat, y: Sym)
    requires |s| >= 2 && p < q < |v| && q < ORDER
    requires Div(Add(s[1], Mul(s[0], Exp(q))), Add(Exp(p), Exp(q))) == x && Add(s[0], x) == y
    ensures TwoErrorPatch(v, s, p, q) == v[|v| - 1 - p := Add(v[|v| - 1 - p], x)][|v| - 1 - q := Add(v[|v| - 1 - q], y)]
  {
    hide Add, Mul, Div, Exp;
  }

  /** Both patches applied, and taken back unless every syndrome clears. */
  method PatchTwo(v: array<Sym>, n: nat, nsyn: nat, s: seq<Sym>, pos0: nat, pos1: nat) returns (fixed: bool)
    requires |s| >= 2 && pos0 < pos1 < n <= v.Length
    modifies v
    ensures v[n..] == old(v[n..])
    ensures fixed <==> IsCodeword(TwoErrorPatch(old(v[..n]), s, pos0, pos1), nsyn)
    ensures v[..n] == if fixed then TwoErrorPatch(old(v[..n]), s, pos0, pos1) else old(v[..n])
  {
    hide Add, Mul, Div, Pow, IsCodeword;
    ghost var was := v[..n];
    var x1, x2 := Pow(pos0), Pow(pos1);
    var e1 := Div(Add(s[1], Mul(s[0], x2)), Add(x1, x2));
    var e2 := Add(s[0], e1);
    var j1, j2 := n - 1 - pos0, n - 1 - pos1;
    var save1, save2 := v[j1], v[j2];
    v[j1] := Add(v[j1], e1);
    v[j2] := Add(v[j2], e2);
    assert v[..n] == TwoErrorPatch(was, s, pos0, pos1);
    fixed := RsVerify(v, n, nsyn);
    if !fixed {
      v[j1] := save1;
      v[j2] := save2;
      assert v[..n] == was;
    }
  }

  /** Second attempt: solve for two locations and magnitudes. */
  method TryDouble(v: array<Sym>, n: nat, nsyn: nat, s: seq<Sym>) returns (fixed: bool)
    requires n <= v.Length && 4 <= nsyn
    requires AreSyndromes(v[..n], nsyn, s)
    requires NoneWithin(v[..n], nsyn, 1)
    modifies v
    ensures v[n..] == old(v[n..])
    ensures fixed ==> IsCodeword(v[..n], nsyn) && Distance(old(v[..n]), v[..n]) == 2
    ensures !fixed ==> v[..] == old(v[..]) && NoneWithin(v[..n], nsyn, 2)
  {
    hide LocatorAt, Add, Mul, Div, Exp, Log, Pow, IsCodeword, TwoErrorPatch, Distance;
    ghost var was := v[..n];
    var det := Add(Mul(s[1], s[1]), Mul(s[0], s[2]));
    var l1, l2, found, pos0, pos1 := 0, 0, 0, 0, 0;
    if det != 0 {
      l1 := Div(Add(Mul(s[2], s[1]), Mul(s[0], s[3])), det);
      l2 := Div(Add(Mul(s[1], s[3]), Mul(s[2], s[2])), det);
      found, pos0, pos1 := ChienSearch(l1, l2, n);
      if found == 2 {
        fixed := PatchTwo(v, n, nsyn, s, pos0, pos1);
        if fixed {
          PatchDistanceTwo(was, nsyn, s, pos0, pos1);
          return;
        }
      }
    }
    fixed := false;
    assert v[..] == v[..n] + v[n..];
    forall c: seq<Sym> | |c| == n && IsCodeword(c, nsyn)
      ensures Distance(c, was) > 2
    {
      if Distance(c, was) == 2 {
        TwoErrorsAreFound(c, was, nsyn, s, l1, l2, found, pos0, pos1);
      }
    }
  }

  lemma PatchDistanceTwo(u: seq<Sym>, nsyn: nat, s: seq<Sym>, pos0: nat, pos1: nat)
    requires |s| >= 2 && pos0 < pos1 < |u| && NoneWithin(u, nsyn, 1)
    requires IsCodeword(TwoErrorPatch(u, s, pos0, pos1), nsyn)
    ensures Distance(u, TwoErrorPatch(u, s, pos0, pos1)) == 2
  {
    hide Add, Mul, Div, Pow, IsCodeword, Distance, NoneWithin;
    var e0 := Div(Add(s[1], Mul(s[0], Pow(pos1))), Add(Pow(pos0), Pow(pos1)));
    TwoPatchDistance(u, nsyn, |u| - 1 - pos0, e0, |u| - 1 - pos1, Add(s[0], e0));
  }

  lemma TwoPatchDistance(u: seq<Sym>, nsyn: nat, i: nat, e: Sym, j: nat, f: Sym)
    requires i < |u| && j < |u| && i != j
    requires NoneWithin(u, nsyn, 1)
    requires IsCodeword(u[i := Add(u[i], e)][j := Add(u[j], f)], nsyn)
    ensures Distance(u, u[i := Add(u[i], e)][j := Add(u[j], f)]) == 2
  {
    hide Add, IsCodeword;
    var u' := u[i := Add(u[i], e)];
    var w := u'[j := Add(u[j], f)];
    DistanceZero(u, u);
    DistanceOfUpdate(u, u, i, Add(u[i], e));
    DistanceOfUpdate(u, u', j, Add(u[j], f));
    Triangle(u, w, u);
  }

  /** Everything one call promises about a block: success leaves a codeword at exactly the
      reported distance, failure leaves the block alone and means no codeword was in reach. */
  ghost predicate Decoded(v: seq<Sym>, w: seq<Sym>, nsyn: nat, r: int) {
    && |v| == |w|
    && -1 <= r <= nsyn / 2
    && (r >= 0 ==> IsCodeword(w, nsyn) && Distance(v, w) == r)
    && (r == -1 ==> w == v && NoneWithin(v, nsyn, nsyn / 2))
  }

  /** rs_correct: returns the number of symbols corrected, or -1. */
  method RsCorrect(v: array<Sym>, n: nat, nsyn: nat) returns (r: int)
    requires n <= v.Length && nsyn <= 4 && nsyn != 1
    modifies v
    ensures v[n..] == old(v[n..])
    ensures Decoded(old(v[..n]), v[..n], nsyn, r)
  {
    ghost var was := v[..n];
    var s := RsSyndromes(v, n, nsyn);
    var any := false;
    for i := 0 to nsyn
      invariant any <==> exists q: nat :: q < i && s[q] != 0
    {
      if s[i] != 0 {
        any := true;
      }
    }
    DistanceZero(was, was);
    if !any {
      CleanMeansCodeword(was, nsyn, s);
      return 0;
    }
    DirtyMeansNoneWithinZero(was, nsyn, s);
    var fixed := TrySingle(v, n, nsyn, s);
    if fixed {
      return 1;
    }
    if nsyn >= 4 {
      fixed := TryDouble(v, n, nsyn, s);
      if fixed {
        return 2;
      }
    }
    return -1;
  }

  lemma CleanMeansCodeword(v: seq<Sym>, nsyn: nat, s: seq<Sym>)
    requires AreSyndromes(v, nsyn, s) && forall q: nat :: q < nsyn ==> s[q] == 0
    ensures IsCodeword(v, nsyn)
  {
    hide Add, Mul, Check;
  }

  lemma DirtyMeansNoneWithinZero(v: seq<Sym>, nsyn: nat, s: seq<Sym>)
    requires AreSyndromes(v, nsyn, s) && exists q: nat :: q < nsyn && s[q] != 0
    ensures NoneWithin(v, nsyn, 0)
  {
    hide Add, Mul, Check;
    forall c: seq<Sym> | |c| == |v| && IsCodeword(c, nsyn)
      ensures Distance(c, v) > 0
    {
      DistanceZero(c, v);
      var q: nat :| q < nsyn && s[q] != 0;
      assert Syn(v, q) != 0;
    }
  }

  // ---- what the contract amounts to --------------------------------------------------------------

  /** Completeness: a codeword within half the parity count of the received block is restored,
      and the number reported is the number of symbols that were wrong. */
  lemma DecodingRestores(c: seq<Sym>, v: seq<Sym>, w: seq<Sym>, nsyn: nat, r: int)
    requires |c| == |v| <= ORDER && IsCodeword(c, nsyn) && Distance(c, v) <= nsyn / 2
    requires Decoded(v, w, nsyn, r)
    ensures w == c && r == Distance(c, v)
  {
    hide IsCodeword;
    if r >= 0 {
      Triangle(c, v, w);
      MinimumDistance(c, w, nsyn);
      Triangle(v, c, v);
    }
  }

  function Zeros(n: nat): (z: seq<Sym>)
    ensures |z| == n && forall i :: 0 <= i < n ==> z[i] == 0
  {
    seq(n, i => 0)
  }

  lemma {:induction false} ZerosAreACodeword(z: seq<Sym>, r: nat)
    requires forall i :: 0 <= i < |z| ==> z[i] == 0
    ensures Syn(z, r) == 0
  {
    hide Add, Mul, Exp, Check;
    if |z| > 0 {
      ZerosAreACodeword(z[1..], r);
      MulNonzero(0, Check(r, |z| - 1));
      AddLaws(0, 0, 0);
    }
  }

  /** Beyond the order the first and the last of 64 places are equivalent, and a block with the same
      symbol in both is a codeword next to the zero block. */
  lemma LongBlocksHaveNeighbours(n: nat, nsyn: nat) returns (c: seq<Sym>, d: seq<Sym>)
    requires n > ORDER
    ensures |c| == |d| == n && IsCodeword(c, nsyn) && IsCodeword(d, nsyn) && Distance(c, d) == 2
  {
    hide Add, Mul, Exp, Check, Distance;
    c := Zeros(n);
    var i, j := n - 1, n - 1 - ORDER;
    AddLaws(0, 1, 0);
    AddLaws(1, 0, 0);
    var u := c[i := Add(c[i], 1)];
    d := u[j := Add(u[j], 1)];
    forall r: nat | r < nsyn
      ensures Syn(c, r) == 0 && Syn(d, r) == 0
    {
      ZerosAreACodeword(c, r);
      SynUpdate(c, i, 1, r);
      SynUpdate(u, j, 1, r);
      TermCancels(1, r, ORDER);
      AddLaws(0, Mul(1, Check(r, 0)), Mul(1, Check(r, ORDER)));
      AddLaws(Mul(1, Check(r, 0)), Mul(1, Check(r, ORDER)), 0);
      AddLaws(Mul(1, Check(r, 0)), 0, 0);
    }
    DistanceZero(c, c);
    DistanceOfUpdate(c, c, i, 1);
    DistanceOfUpdate(c, u, j, 1);
  }

  /** What was recorded is settled by what comes out, for every block length up to the order and for
      none beyond. */
  lemma DecodingIsUniqueIff(n: nat, nsyn: nat)
    requires nsyn >= 2
    ensures
      n <= ORDER <==>
      forall c: seq<Sym>, d: seq<Sym> {:trigger Distance(c, d)} ::
        |c| == |d| == n && IsCodeword(c, nsyn) && IsCodeword(d, nsyn) && Distance(c, d) <= nsyn ==> c == d
  {
    hide IsCodeword, Distance;
    if n <= ORDER {
      forall c: seq<Sym>, d: seq<Sym> | |c| == |d| == n && IsCodeword(c, nsyn) && IsCodeword(d, nsyn) &&
        Distance(c, d) <= nsyn
        ensures c == d
      {
        MinimumDistance(c, d, nsyn);
      }
    } else {
      var c, d := LongBlocksHaveNeighbours(n, nsyn);
      DistanceZero(c, d);
    }
  }

  /** The contract determines the outcome. */
  lemma DecodingIsDeterministic(v: seq<Sym>, w: seq<Sym>, w': seq<Sym>, nsyn: nat, r: int, r': int)
    requires |v| <= ORDER && Decoded(v, w, nsyn, r) && Decoded(v, w', nsyn, r')
    ensures w == w' && r == r'
  {
    hide IsCodeword;
    if r >= 0 {
      Triangle(w, v, w);
      DecodingRestores(w, v, w', nsyn, r');
    } else if r' >= 0 {
      Triangle(w', v, w');
      DecodingRestores(w', v, w, nsyn, r);
    }
  }

  /** Success is exactly reachability: some codeword lies within half the parity count. */
  lemma DecodingSucceedsIff(v: seq<Sym>, w: seq<Sym>, nsyn: nat, r: int)
    requires Decoded(v, w, nsyn, r)
    ensures r >= 0 <==>
      exists c: seq<Sym> :: |c| == |v| && IsCodeword(c, nsyn) && Distance(c, v) <= nsyn / 2
  {
    hide IsCodeword;
    if r >= 0 {
      Triangle(w, v, w);
      assert IsCodeword(w, nsyn) && Distance(w, v) <= nsyn / 2;
    }
  }

  /** The outcome as a function of the received block: the codeword in reach, if there is one. */
  ghost function Decode(v: seq<Sym>, nsyn: nat): (out: (seq<Sym>, int))
    ensures Decoded(v, out.0, nsyn, out.1)
  {
    if exists c: seq<Sym> :: |c| == |v| && IsCodeword(c, nsyn) && Distance(c, v) <= nsyn / 2 then
      var c: seq<Sym> :| |c| == |v| && IsCodeword(c, nsyn) && Distance(c, v) <= nsyn / 2;
      Triangle(c, v, c);
      (c, Distance(c, v) as int)
    else
      (v, -1)
  }
}
