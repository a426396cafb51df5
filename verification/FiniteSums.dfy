/** Sums of natural-number weights over finite sets, the arithmetic behind
    every `sum(... for f in candidates)` of the move detector. */
module FiniteSums {

  ghost function Sum<T(!new)>(s: set<T>, w: T -> nat): nat
  {
    if s == {} then 0
    else
      var x :| x in s;
      w(x) + Sum(s - {x}, w)
  }

  /** Any element may be taken out first: the sum does not depend on the order of visits. */
  lemma {:induction false} SumSplit<T(!new)>(s: set<T>, w: T -> nat, k: T)
    requires k in s
    ensures Sum(s, w) == w(k) + Sum(s - {k}, w)
    decreases s
  {
    var x :| x in s && Sum(s, w) == w(x) + Sum(s - {x}, w);
    if x != k {
      SumSplit(s - {x}, w, k);
      SumSplit(s - {k}, w, x);
      assert s - {x} - {k} == s - {k} - {x};
    }
  }

  lemma {:induction false} SumAdd<T(!new)>(s: set<T>, u: T -> nat, v: T -> nat, w: T -> nat)
    requires forall x :: x in s ==> w(x) == u(x) + v(x)
    ensures Sum(s, w) == Sum(s, u) + Sum(s, v)
    decreases s
  {
    if s != {} {
      var x :| x in s;
      SumSplit(s, u, x);
      SumSplit(s, v, x);
      SumSplit(s, w, x);
      SumAdd(s - {x}, u, v, w);
    }
  }

  lemma {:induction false} SumLeq<T(!new)>(s: set<T>, u: T -> nat, v: T -> nat)
    requires forall x :: x in s ==> u(x) <= v(x)
    ensures Sum(s, u) <= Sum(s, v)
    decreases s
  {
    if s != {} {
      var x :| x in s;
      SumSplit(s, u, x);
      SumSplit(s, v, x);
      SumLeq(s - {x}, u, v);
    }
  }

  lemma SumSame<T(!new)>(s: set<T>, u: T -> nat, v: T -> nat)
    requires forall x :: x in s ==> u(x) == v(x)
    ensures Sum(s, u) == Sum(s, v)
  {
    SumLeq(s, u, v);
    SumLeq(s, v, u);
  }

  /** Changing the weight of one element changes the sum by the same amount. */
  lemma SumChange<T(!new)>(s: set<T>, u: T -> nat, v: T -> nat, k: T)
    requires k in s
    requires forall x :: x in s && x != k ==> u(x) == v(x)
    ensures Sum(s, u) + v(k) == Sum(s, v) + u(k)
  {
    SumSplit(s, u, k);
    SumSplit(s, v, k);
    SumSame(s - {k}, u, v);
  }

  lemma {:induction false} SumZero<T(!new)>(s: set<T>, w: T -> nat)
    requires forall x :: x in s ==> w(x) == 0
    ensures Sum(s, w) == 0
    decreases s
  {
    if s != {} {
      var x :| x in s;
      SumSplit(s, w, x);
      SumZero(s - {x}, w);
    }
  }

  lemma SumPositive<T(!new)>(s: set<T>, w: T -> nat) returns (k: T)
    requires Sum(s, w) > 0
    ensures k in s && w(k) > 0
  {
    if forall x :: x in s ==> w(x) == 0 {
      SumZero(s, w);
    }
    k :| k in s && w(k) > 0;
  }

  lemma SumTerm<T(!new)>(s: set<T>, w: T -> nat, k: T)
    requires k in s
    ensures w(k) <= Sum(s, w)
  {
    SumSplit(s, w, k);
  }

  lemma SumTwoTerms<T(!new)>(s: set<T>, w: T -> nat, k: T, l: T)
    requires k in s && l in s && k != l
    ensures w(k) + w(l) <= Sum(s, w)
  {
    SumSplit(s, w, k);
    SumSplit(s - {k}, w, l);
  }

  lemma {:induction false} SumExtend<T(!new)>(s: set<T>, t: set<T>, w: T -> nat)
    requires s <= t
    requires forall x :: x in t - s ==> w(x) == 0
    ensures Sum(s, w) == Sum(t, w)
    decreases t
  {
    if forall x :: x in t ==> x in s {
      assert s == t;
    } else {
      var x :| x in t && x !in s;
      SumSplit(t, w, x);
      SumExtend(s, t - {x}, w);
    }
  }

  function Row<S, T>(cell: (S, T) -> nat, x: S): T -> nat {
    y => cell(x, y)
  }

  function Column<S, T>(cell: (S, T) -> nat, y: T): S -> nat {
    x => cell(x, y)
  }

  /** Summing a table by rows or by columns gives the same total: `rows(x)` is
      the row sum at x, `cols(y)` the column sum at y. */
  lemma {:induction false} SumSwap<S(!new), T(!new)>(
      s: set<S>, t: set<T>, cell: (S, T) -> nat, rows: S -> nat, cols: T -> nat)
    requires forall x :: x in s ==> rows(x) == Sum(t, Row(cell, x))
    requires forall y :: y in t ==> cols(y) == Sum(s, Column(cell, y))
    ensures Sum(s, rows) == Sum(t, cols)
    decreases s
  {
    if s == {} {
      SumZero(t, cols);
    } else {
      var a :| a in s;
      var rest := y => Sum(s - {a}, Column(cell, y));
      forall y | y in t ensures cols(y) == Row(cell, a)(y) + rest(y) {
        SumSplit(s, Column(cell, y), a);
      }
      SumAdd(t, Row(cell, a), rest, cols);
      SumSwap(s - {a}, t, cell, rows, rest);
      SumSplit(s, rows, a);
    }
  }
}
