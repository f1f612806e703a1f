/** Finite sums of reals, independent of the order of summation. */
module Sums {
  import opened Prelude

  ghost function SumOver(s: set<I64>, f: I64 -> real): real
    decreases |s|
  {
    if s == {} then 0.0
    else
      var x :| x in s;
      f(x) + SumOver(s - {x}, f)
  }

  /** Any element may be taken out first. */
  lemma {:induction false} SumTake(s: set<I64>, f: I64 -> real, x: I64)
    requires x in s
    ensures SumOver(s, f) == f(x) + SumOver(s - {x}, f)
    decreases |s|
  {
    var y: I64 :| y in s && SumOver(s, f) == f(y) + SumOver(s - {y}, f);
    if y != x {
      SumTake(s - {y}, f, x);
      SumTake(s - {x}, f, y);
      assert s - {y} - {x} == s - {x} - {y};
    }
  }

  lemma {:induction false} SumSame(s: set<I64>, f: I64 -> real, g: I64 -> real)
    requires forall x :: x in s ==> f(x) == g(x)
    ensures SumOver(s, f) == SumOver(s, g)
    decreases |s|
  {
    if s != {} {
      var x: I64 := Pick(s);
      SumTake(s, f, x);
      SumTake(s, g, x);
      SumSame(s - {x}, f, g);
    }
  }

  ghost function Pick(s: set<I64>): (x: I64)
    requires s != {}
    ensures x in s
  {
    var x :| x in s;
    x
  }

  lemma {:induction false} SumAdd(s: set<I64>, f: I64 -> real, g: I64 -> real, h: I64 -> real)
    requires forall x :: x in s ==> h(x) == f(x) + g(x)
    ensures SumOver(s, h) == SumOver(s, f) + SumOver(s, g)
    decreases |s|
  {
    if s != {} {
      var x := Pick(s);
      SumTake(s, f, x);
      SumTake(s, g, x);
      SumTake(s, h, x);
      SumAdd(s - {x}, f, g, h);
    }
  }

  /** Multiplication by name, so that proofs by congruence stay linear. */
  function Times(c: real, a: real): real {
    c * a
  }

  lemma Distribute(c: real, a: real, b: real)
    ensures Times(c, a + b) == Times(c, a) + Times(c, b)
  {
  }

  lemma {:induction false} SumScale(s: set<I64>, c: real, f: I64 -> real, g: I64 -> real)
    requires forall x :: x in s ==> g(x) == Times(c, f(x))
    ensures SumOver(s, g) == Times(c, SumOver(s, f))
    decreases |s|
  {
    if s == {} {
      assert Times(c, 0.0) == 0.0;
    } else {
      hide Times;
      var x := Pick(s);
      SumTake(s, f, x);
      SumTake(s, g, x);
      SumScale(s - {x}, c, f, g);
      Distribute(c, f(x), SumOver(s - {x}, f));
    }
  }

  lemma {:induction false} SumZero(s: set<I64>, f: I64 -> real)
    requires forall x :: x in s ==> f(x) == 0.0
    ensures SumOver(s, f) == 0.0
    decreases |s|
  {
    if s != {} {
      var x := Pick(s);
      SumTake(s, f, x);
      SumZero(s - {x}, f);
    }
  }

  /** Elements that contribute nothing may be added. */
  lemma {:induction false} SumWiden(s: set<I64>, t: set<I64>, f: I64 -> real)
    requires s <= t && forall x :: x in t && x !in s ==> f(x) == 0.0
    ensures SumOver(s, f) == SumOver(t, f)
    decreases |t|
  {
    if t - s != {} {
      var x := Pick(t - s);
      SumTake(t, f, x);
      SumWiden(s, t - {x}, f);
    } else {
      assert s == t;
    }
  }

  lemma {:induction false} SumNonNegative(s: set<I64>, f: I64 -> real)
    requires forall x :: x in s ==> f(x) >= 0.0
    ensures SumOver(s, f) >= 0.0
    decreases |s|
  {
    if s != {} {
      var x := Pick(s);
      SumTake(s, f, x);
      SumNonNegative(s - {x}, f);
    }
  }

  ghost function RowSum(p: (I64, I64) -> real, x: I64, t: set<I64>): real {
    SumOver(t, (y: I64) => p(x, y))
  }

  ghost function ColSum(p: (I64, I64) -> real, s: set<I64>, y: I64): real {
    SumOver(s, (x: I64) => p(x, y))
  }

  /** Rows first or columns first. */
  lemma {:induction false} SumSwap(p: (I64, I64) -> real, s: set<I64>, t: set<I64>)
    ensures SumOver(s, (x: I64) => RowSum(p, x, t)) == SumOver(t, (y: I64) => ColSum(p, s, y))
    decreases |s|
  {
    if s == {} {
      SumZero(t, (y: I64) => ColSum(p, s, y));
    } else {
      var x := Pick(s);
      SumTake(s, (x: I64) => RowSum(p, x, t), x);
      SumSwap(p, s - {x}, t);
      forall y | y in t
        ensures ColSum(p, s, y) == p(x, y) + ColSum(p, s - {x}, y)
      {
        SumTake(s, (x: I64) => p(x, y), x);
      }
      SumAdd(t, (y: I64) => p(x, y), (y: I64) => ColSum(p, s - {x}, y), (y: I64) => ColSum(p, s, y));
    }
  }
}
