/** Repeated application of a function, and what repetition inherits from one application. */
module Iteration {

  function Iterate<R>(g: R -> R, n: nat, x: R): R {
    if n == 0 then x else Iterate(g, n - 1, g(x))
  }

  ghost predicate Additive<R(!new)>(g: R -> R, add: (R, R) -> R) {
    forall x, y :: g(add(x, y)) == add(g(x), g(y))
  }

  ghost predicate Intertwines<R(!new), S(!new)>(h: R -> S, g: R -> R, g': S -> S) {
    forall x :: h(g(x)) == g'(h(x))
  }

  lemma {:induction false} IterateSum<R>(g: R -> R, m: nat, n: nat, x: R)
    ensures Iterate(g, m + n, x) == Iterate(g, n, Iterate(g, m, x))
  {
    if m == 0 {
    } else {
      IterateSum(g, m - 1, n, g(x));
    }
  }

  lemma {:induction false} IterateAdditive<R(!new)>(g: R -> R, add: (R, R) -> R, n: nat, x: R, y: R)
    requires Additive(g, add)
    ensures Iterate(g, n, add(x, y)) == add(Iterate(g, n, x), Iterate(g, n, y))
  {
    if n == 0 {
    } else {
      IterateAdditive(g, add, n - 1, g(x), g(y));
    }
  }

  lemma {:induction false} IterateIntertwines<R(!new), S(!new)>(h: R -> S, g: R -> R, g': S -> S, n: nat, x: R)
    requires Intertwines(h, g, g')
    ensures h(Iterate(g, n, x)) == Iterate(g', n, h(x))
  {
    if n == 0 {
    } else {
      IterateIntertwines(h, g, g', n - 1, g(x));
    }
  }

  lemma {:induction false} IteratePreserves<R(!new)>(g: R -> R, p: R -> bool, n: nat, x: R)
    requires (forall y :: p(y) ==> p(g(y))) && p(x)
    ensures p(Iterate(g, n, x))
  {
    if n == 0 {
    } else {
      IteratePreserves(g, p, n - 1, g(x));
    }
  }

  /** Where g sends only zero to zero inside p, so does every iterate of g. */
  lemma {:induction false} IterateKernel<R(!new)>(g: R -> R, p: R -> bool, zero: R, n: nat, x: R)
    requires forall y :: p(y) ==> p(g(y)) && (g(y) == zero ==> y == zero)
    requires p(x) && Iterate(g, n, x) == zero
    ensures x == zero
  {
    if n == 0 {
    } else {
      IterateKernel(g, p, zero, n - 1, g(x));
    }
  }
}
