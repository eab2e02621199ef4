/** The field GF(2^6) with P(X) = X^6 + X + 1, as the R-W subchannel decoder computes in it:
    an exponent table, a logarithm table and three table-driven operations.
    Addition is bitwise exclusive or. */
module Gf64 {

  type Sym = bv6

  /** The multiplicative order of the primitive element. */
  const ORDER := 63

  function Add(x: Sym, y: Sym): Sym { x ^ y }

  /** Multiplication by the primitive element: one left shift, the bit that falls out
      coming back as X + 1. */
  function Xtime(x: Sym): Sym {
    (x << 1) ^ (x >> 5) ^ ((x >> 5) << 1)
  }

  /** x multiplied i times by the primitive element. */
  function Shift(i: nat, x: Sym): Sym {
    if i == 0 then x else Xtime(Shift(i - 1, x))
  }

  /** The primitive element raised to i. */
  function Exp(i: nat): Sym {
    Shift(i, 1)
  }

  // ---- addition is an elementary abelian group -----------------------------------------

  lemma AddLaws(x: Sym, y: Sym, z: Sym)
    ensures Add(x, y) == Add(y, x)
    ensures Add(Add(x, y), z) == Add(x, Add(y, z))
    ensures Add(x, 0) == x && Add(x, x) == 0
    ensures Add(Add(x, y), y) == x
  {}

  lemma AddZeroIffEqual(x: Sym, y: Sym)
    ensures Add(x, y) == 0 <==> x == y
  {}

  // ---- the orbit of the primitive element ----------------------------------------------

  lemma XtimeLinear(x: Sym, y: Sym)
    ensures Xtime(Add(x, y)) == Add(Xtime(x), Xtime(y))
  {}

  lemma XtimeInjective(x: Sym, y: Sym)
    requires Xtime(x) == Xtime(y)
    ensures x == y
  {}

  lemma {:induction false} ShiftLinear(i: nat, x: Sym, y: Sym)
    ensures Shift(i, Add(x, y)) == Add(Shift(i, x), Shift(i, y))
  {
    hide Xtime, Add;
    if i > 0 {
      ShiftLinear(i - 1, x, y);
      XtimeLinear(Shift(i - 1, x), Shift(i - 1, y));
    }
  }

  lemma {:induction false} ShiftInjective(i: nat, x: Sym, y: Sym)
    requires Shift(i, x) == Shift(i, y)
    ensures x == y
  {
    hide Xtime;
    if i > 0 {
      XtimeInjective(Shift(i - 1, x), Shift(i - 1, y));
      ShiftInjective(i - 1, x, y);
    }
  }

  lemma {:induction false} ShiftAdd(i: nat, j: nat, x: Sym)
    ensures Shift(i + j, x) == Shift(i, Shift(j, x))
  {
    hide Xtime;
    if i > 0 {
      ShiftAdd(i - 1, j, x);
    }
  }

  lemma {:induction false} ShiftZero(i: nat)
    ensures Shift(i, 0) == 0
  {
    if i > 0 {
      ShiftZero(i - 1);
    }
  }

  /** One full turn of the orbit, computed. */
  lemma ExpTable()
    ensures Exp(0) == 1 && Exp(1) == 2 && Exp(2) == 4 && Exp(3) == 8 && Exp(4) == 16 && Exp(5) == 32
    ensures Exp(6) == 3 && Exp(7) == 6 && Exp(8) == 12
    ensures Exp(9) == 24 && Exp(10) == 48 && Exp(11) == 35 && Exp(12) == 5 && Exp(13) == 10 && Exp(14) == 20
    ensures Exp(15) == 40 && Exp(16) == 19 && Exp(17) == 38
    ensures Exp(18) == 15 && Exp(19) == 30 && Exp(20) == 60 && Exp(21) == 59 && Exp(22) == 53 && Exp(23) == 41
    ensures Exp(24) == 17 && Exp(25) == 34 && Exp(26) == 7
    ensures Exp(27) == 14 && Exp(28) == 28 && Exp(29) == 56 && Exp(30) == 51 && Exp(31) == 37 && Exp(32) == 9
    ensures Exp(33) == 18 && Exp(34) == 36 && Exp(35) == 11
    ensures Exp(36) == 22 && Exp(37) == 44 && Exp(38) == 27 && Exp(39) == 54 && Exp(40) == 47 && Exp(41) == 29
    ensures Exp(42) == 58 && Exp(43) == 55 && Exp(44) == 45
    ensures Exp(45) == 25 && Exp(46) == 50 && Exp(47) == 39 && Exp(48) == 13 && Exp(49) == 26 && Exp(50) == 52
    ensures Exp(51) == 43 && Exp(52) == 21 && Exp(53) == 42
    ensures Exp(54) == 23 && Exp(55) == 46 && Exp(56) == 31 && Exp(57) == 62 && Exp(58) == 63 && Exp(59) == 61
    ensures Exp(60) == 57 && Exp(61) == 49 && Exp(62) == 33
  {
    ExpTableStart();
    ExpTableMiddle();
    ExpTableEnd();
  }

  lemma ExpTableStart()
    ensures Exp(0) == 1 && Exp(1) == 2 && Exp(2) == 4 && Exp(3) == 8 && Exp(4) == 16 && Exp(5) == 32
    ensures Exp(6) == 3 && Exp(7) == 6 && Exp(8) == 12
    ensures Exp(9) == 24 && Exp(10) == 48 && Exp(11) == 35 && Exp(12) == 5 && Exp(13) == 10 && Exp(14) == 20
    ensures Exp(15) == 40 && Exp(16) == 19 && Exp(17) == 38
    ensures Exp(18) == 15 && Exp(19) == 30 && Exp(20) == 60 && Exp(21) == 59 && Exp(22) == 53 && Exp(23) == 41
    ensures Exp(24) == 17 && Exp(25) == 34 && Exp(26) == 7
  {}

  lemma ExpTableMiddle()
    ensures Exp(27) == 14 && Exp(28) == 28 && Exp(29) == 56 && Exp(30) == 51 && Exp(31) == 37 && Exp(32) == 9
    ensures Exp(33) == 18 && Exp(34) == 36 && Exp(35) == 11
    ensures Exp(36) == 22 && Exp(37) == 44 && Exp(38) == 27 && Exp(39) == 54 && Exp(40) == 47 && Exp(41) == 29
    ensures Exp(42) == 58 && Exp(43) == 55 && Exp(44) == 45
  {
    ExpTableStart();
  }

  lemma ExpTableEnd()
    ensures Exp(45) == 25 && Exp(46) == 50 && Exp(47) == 39 && Exp(48) == 13 && Exp(49) == 26 && Exp(50) == 52
    ensures Exp(51) == 43 && Exp(52) == 21 && Exp(53) == 42
    ensures Exp(54) == 23 && Exp(55) == 46 && Exp(56) == 31 && Exp(57) == 62 && Exp(58) == 63 && Exp(59) == 61
    ensures Exp(60) == 57 && Exp(61) == 49 && Exp(62) == 33
  {
    ExpTableMiddle();
  }

  lemma FullTurn()
    ensures Exp(ORDER) == 1
  {
    ExpTable();
    assert Shift(63, 1) == Xtime(Shift(62, 1));
  }

  lemma ExpOnto(x: Sym)
    requires x != 0
    ensures exists i: nat :: i < ORDER && Exp(i) == x
  {
    ExpTable();
  }

  lemma OnlyFullTurnsReturn(k: nat)
    requires 0 < k < ORDER
    ensures Exp(k) != 1
  {
    ExpTable();
  }

  // ---- exponents and logarithms --------------------------------------------------------

  lemma ExpNonzero(i: nat)
    ensures Exp(i) != 0
  {
    hide Xtime;
    ShiftZero(i);
    if Exp(i) == 0 {
      ShiftInjective(i, 1, 0);
    }
  }

  // ---- logarithm and the table-driven operations -------------------------------------------

  /** The least i from `from` on with Exp(i) == x, below ORDER; 0 when there is none. */
  function LogFrom(x: Sym, from: nat): (i: nat)
    requires from <= ORDER
    ensures i < ORDER
    ensures (exists k: nat :: from <= k < ORDER && Exp(k) == x) ==> Exp(i) == x
    ensures i == 0 || Exp(i) == x
    decreases ORDER - from
  {
    if from == ORDER then 0 else if Exp(from) == x then from else LogFrom(x, from + 1)
  }

  /** Discrete logarithm; 0 at 0, which the tables hold as a guard value. */
  function Log(x: Sym): (i: nat)
    ensures i < ORDER
    ensures x != 0 ==> Exp(i) == x
    ensures x == 0 ==> i == 0
  {
    ExpNonzero(LogFrom(x, 0));
    assert x != 0 ==> exists k: nat :: k < ORDER && Exp(k) == x by {
      if x != 0 { ExpOnto(x); }
    }
    LogFrom(x, 0)
  }

  function Mul(a: Sym, b: Sym): Sym {
    if a == 0 || b == 0 then 0 else Exp(Log(a) + Log(b))
  }

  function Div(a: Sym, b: Sym): Sym {
    if a == 0 then 0 else Exp(Log(a) + ORDER - Log(b))
  }

  /** The primitive element to any nonnegative power, by table lookup modulo the order. */
  function Pow(e: nat): Sym {
    Exp(e % ORDER)
  }

  lemma ExpPeriod(i: nat)
    ensures Exp(i + ORDER) == Exp(i)
  {
    hide Xtime;
    FullTurn();
    ShiftAdd(i, ORDER, 1);
  }

  lemma {:induction false} ExpMod(i: nat)
    ensures Exp(i % ORDER) == Exp(i)
  {
    hide Xtime;
    if i >= ORDER {
      ExpMod(i - ORDER);
      ExpPeriod(i - ORDER);
    }
  }

  /** Distinct exponents below the order give distinct symbols. */
  lemma ExpInjective(i: nat, j: nat)
    requires i < ORDER && j < ORDER && Exp(i) == Exp(j)
    ensures i == j
  {
    hide Xtime;
    if i < j {
      ExpInjectiveOrdered(i, j);
    } else if j < i {
      ExpInjectiveOrdered(j, i);
    }
  }

  lemma ExpInjectiveOrdered(i: nat, j: nat)
    requires i < j < ORDER
    ensures Exp(i) != Exp(j)
  {
    hide Xtime;
    if Exp(i) == Exp(j) {
      ShiftAdd(i, j - i, 1);
      ShiftInjective(i, Exp(j - i), 1);
      OnlyFullTurnsReturn(j - i);
    }
  }

  lemma LogExp(i: nat)
    ensures Log(Exp(i)) == i % ORDER
  {
    hide Xtime;
    ExpNonzero(i);
    ExpMod(i);
    ExpInjective(Log(Exp(i)), i % ORDER);
  }

  // ---- the field laws --------------------------------------------------------------------

  lemma MulExp(i: nat, j: nat)
    ensures Mul(Exp(i), Exp(j)) == Exp(i + j)
  {
    hide Xtime, Shift, Log, Exp;
    LogExp(i);
    LogExp(j);
    ExpNonzero(i);
    ExpNonzero(j);
    ExpReduced(i, j);
  }

  lemma ExpReduced(i: nat, j: nat)
    ensures Exp(i % ORDER + j % ORDER) == Exp(i + j)
  {
    hide Xtime, Shift, Exp;
    ExpMod(i % ORDER + j % ORDER);
    ExpMod(i + j);
  }

  /** Multiplying by a nonzero symbol is a repeated shift, hence linear. */
  lemma MulIsShift(a: Sym, x: Sym)
    requires a != 0
    ensures Mul(a, x) == Shift(Log(a), x)
  {
    hide Xtime;
    if x == 0 {
      ShiftZero(Log(a));
    } else {
      ShiftAdd(Log(a), Log(x), 1);
    }
  }

  lemma MulComm(a: Sym, b: Sym)
    ensures Mul(a, b) == Mul(b, a)
  {
    hide Xtime, Log;
  }

  lemma MulDistributes(a: Sym, x: Sym, y: Sym)
    ensures Mul(a, Add(x, y)) == Add(Mul(a, x), Mul(a, y))
  {
    hide Xtime, Add;
    if a == 0 {
      AddLaws(0, 0, 0);
    } else {
      MulIsShift(a, x);
      MulIsShift(a, y);
      MulIsShift(a, Add(x, y));
      ShiftLinear(Log(a), x, y);
    }
  }

  lemma MulNonzero(a: Sym, b: Sym)
    ensures Mul(a, b) == 0 <==> a == 0 || b == 0
  {
    hide Xtime, Log;
    if a != 0 && b != 0 {
      ExpNonzero(Log(a) + Log(b));
    }
  }

  lemma MulAssoc(a: Sym, b: Sym, c: Sym)
    ensures Mul(Mul(a, b), c) == Mul(a, Mul(b, c))
  {
    hide Xtime, Shift, Log, Exp;
    if a != 0 && b != 0 && c != 0 {
      var i, j, k := Log(a), Log(b), Log(c);
      MulExp(i + j, k);
      MulExp(i, j + k);
    }
  }

  lemma MulOne(a: Sym)
    ensures Mul(a, 1) == a && Mul(1, a) == a
  {
    hide Xtime, Log;
    if a != 0 {
      MulExp(Log(a), 0);
      MulExp(0, Log(a));
    }
  }

  lemma MulCancel(a: Sym, x: Sym, y: Sym)
    requires a != 0 && Mul(a, x) == Mul(a, y)
    ensures x == y
  {
    hide Xtime, Mul;
    MulIsShift(a, x);
    MulIsShift(a, y);
    ShiftInjective(Log(a), x, y);
  }

  /** Division by a nonzero symbol inverts multiplication, and nothing else does. */
  lemma DivIsTheQuotient(a: Sym, b: Sym, q: Sym)
    requires b != 0
    ensures Mul(b, q) == a <==> q == Div(a, b)
  {
    hide Xtime, Log;
    if a == 0 {
      MulNonzero(b, q);
    } else {
      var d := Div(a, b);
      MulExp(Log(b), Log(a) + ORDER - Log(b));
      ExpPeriod(Log(a));
      assert Mul(b, d) == a;
      if Mul(b, q) == a {
        MulCancel(b, q, d);
      }
    }
  }

  // ---- the tables --------------------------------------------------------------------------

  lemma ExpAtZero()
    ensures Exp(0) == 1
  {}

  lemma ExpStep(i: nat)
    ensures Exp(i + 1) == Xtime(Exp(i))
  {}

  lemma XtimeByConditionalReduction(x: bv8)
    requires x < 64
    ensures
      var shifted := x << 1;
      var y := if shifted & 0x40 != 0 then shifted ^ 0x43 else shifted;
      y < 64 && y as Sym == Xtime(x as Sym)
  {}

  /** The module-level tables and the lookups through them. Whatever the decoder looks up is
      the field operation. */
  class Tables {
    const exp: array<Sym>
    const log: array<nat>
    var ready: bool

    ghost predicate Valid()
      reads this, exp, log
    {
      && exp.Length == 128 && log.Length == 64
      && (ready ==>
            && (forall i: nat {:trigger Exp(i)} :: i < 2 * ORDER ==> exp[i] == Exp(i))
            && (forall x: Sym {:trigger Log(x)} :: log[x as int] == Log(x)))
    }

    /** The entries for the first n powers are in place. */
    ghost predicate Filled(n: nat)
      requires exp.Length == 128 && log.Length == 64 && n <= ORDER
      reads this, exp, log
    {
      forall j: nat {:trigger Exp(j)} :: j < n ==>
        exp[j] == Exp(j) && exp[j + ORDER] == Exp(j) && log[Exp(j) as int] == j
    }

    lemma FilledIsComplete()
      requires exp.Length == 128 && log.Length == 64 && Filled(ORDER) && log[0] == 0
      ensures forall i: nat {:trigger Exp(i)} :: i < 2 * ORDER ==> exp[i] == Exp(i)
      ensures forall x: Sym {:trigger Log(x)} :: log[x as int] == Log(x)
    {
      hide Xtime, Shift, Exp;
      forall x: Sym
        ensures log[x as int] == Log(x)
      {
        assert x != 0 ==> Exp(Log(x)) == x;
      }
      forall i: nat | i < 2 * ORDER
        ensures exp[i] == Exp(i)
      {
        if i >= ORDER {
          ExpPeriod(i - ORDER);
        }
      }
    }

    constructor ()
      ensures Valid() && !ready && fresh(exp) && fresh(log)
    {
      exp := new Sym[128];
      log := new nat[64];
      ready := false;
    }

    method Put(i: nat, x: Sym)
      requires exp.Length == 128 && log.Length == 64 && i < ORDER && Filled(i) && x == Exp(i)
      modifies exp, log
      ensures Filled(i + 1)
    {
      hide Xtime, Shift, Exp;
      exp[i] := x;
      exp[i + ORDER] := x;
      log[x as int] := i;
      forall j: nat | j < i
        ensures Exp(j) != Exp(i)
      {
        ExpInjectiveOrdered(j, i);
      }
    }

    /** gf_init: walk the orbit once, filling both tables. */
    method Init()
      requires Valid()
      modifies this, exp, log
      ensures Valid() && ready
    {
      hide Xtime, Shift;
      if ready {
        return;
      }
      var x: bv8 := 1;
      ExpAtZero();
      for i := 0 to ORDER
        invariant x < 64 && x as Sym == Exp(i)
        invariant Filled(i)
      {
        Put(i, x as Sym);
        XtimeByConditionalReduction(x);
        x := x << 1;
        if x & 0x40 != 0 {
          x := x ^ 0x43;
        }
        ExpStep(i);
      }
      log[0] := 0;
      ready := true;
      forall j: nat | j < ORDER
        ensures Exp(j) != 0
      {
        ExpNonzero(j);
      }
      FilledIsComplete();
    }

    function MulByTable(a: Sym, b: Sym): Sym
      requires Valid() && ready
      reads this, exp, log
    {
      assert log[a as int] == Log(a) && log[b as int] == Log(b);
      if a == 0 || b == 0 then 0 else exp[log[a as int] + log[b as int]]
    }

    function DivByTable(a: Sym, b: Sym): Sym
      requires Valid() && ready
      reads this, exp, log
    {
      assert log[a as int] == Log(a) && log[b as int] == Log(b);
      if a == 0 then 0 else exp[log[a as int] + ORDER - log[b as int]]
    }

    function PowByTable(e: nat): Sym
      requires Valid() && ready
      reads this, exp, log
    {
      exp[e % ORDER]
    }

    lemma LogEntry(x: Sym)
      requires Valid() && ready
      ensures log.Length == 64 && log[x as int] == Log(x)
    {
      hide Xtime, Shift, Exp;
      var i := Log(x);
    }

    lemma ExpEntry(i: nat)
      requires Valid() && ready && i < 2 * ORDER
      ensures exp.Length == 128 && exp[i] == Exp(i)
    {
      hide Xtime, Shift, Exp, Log;
      var x := Exp(i);
    }

    /** gf_mul through the tables is the field product. */
    lemma MulByTableIsMul(a: Sym, b: Sym)
      requires Valid() && ready
      ensures MulByTable(a, b) == Mul(a, b)
    {
      hide Xtime, Shift, Exp, Log, Valid;
      LogEntry(a);
      LogEntry(b);
      ExpEntry(Log(a) + Log(b));
    }

    /** gf_div through the tables is the field quotient. */
    lemma DivByTableIsDiv(a: Sym, b: Sym)
      requires Valid() && ready
      ensures DivByTable(a, b) == Div(a, b)
    {
      hide Xtime, Shift, Exp, Log, Valid;
      LogEntry(a);
      LogEntry(b);
      ExpEntry(Log(a) + ORDER - Log(b));
    }

    /** gf_pow through the tables is the power of the primitive element. */
    lemma PowByTableIsPow(e: nat)
      requires Valid() && ready
      ensures PowByTable(e) == Pow(e)
    {
      hide Xtime, Shift, Exp, Log, Valid;
      ExpEntry(e % ORDER);
    }
  }
}
