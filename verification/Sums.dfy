/** Finite sums over sets of integers. */
module Sums {
  import opened Sets

  ghost function Sum(S: set<int>, f: int -> nat): nat {
    if S == {} then 0 else
      var x := Pick(S);
      f(x) + Sum(S - {x}, f)
  }

  /** The choice of element does not matter. */
  lemma {:induction false} SumPick(S: set<int>, f: int -> nat, y: int)
    requires y in S
    ensures Sum(S, f) == f(y) + Sum(S - {y}, f)
    decreases |S|
  {
    var x := Pick(S);
    if x != y {
      SumPick(S - {x}, f, y);
      SumPick(S - {y}, f, x);
      assert S - {x} - {y} == S - {y} - {x};
    }
  }

  lemma {:induction false} SumEqual(S: set<int>, f: int -> nat, g: int -> nat)
    requires forall x :: x in S ==> f(x) == g(x)
    ensures Sum(S, f) == Sum(S, g)
    decreases |S|
  {
    if S != {} {
      var x := Pick(S);
      SumPick(S, f, x);
      SumPick(S, g, x);
      SumEqual(S - {x}, f, g);
    }
  }

  lemma {:induction false} SumAdd(S: set<int>, f: int -> nat, g: int -> nat, h: int -> nat)
    requires forall x :: x in S ==> h(x) == f(x) + g(x)
    ensures Sum(S, h) == Sum(S, f) + Sum(S, g)
    decreases |S|
  {
    if S != {} {
      var x := Pick(S);
      SumPick(S, f, x);
      SumPick(S, g, x);
      SumPick(S, h, x);
      SumAdd(S - {x}, f, g, h);
    }
  }

}
