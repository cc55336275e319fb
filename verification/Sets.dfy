/** Facts about finite sets that the proofs need. */
module Sets {

  /** Some element of a set that has one. */
  ghost function Pick<T>(S: set<T>): (x: T)
    requires S != {}
    ensures x in S
  {
    var x :| x in S;
    x
  }

  ghost function Ids(n: nat): (ids: set<int>)
    ensures |ids| == n && forall i :: i in ids <==> 0 <= i < n
  {
    if n == 0 then {} else Ids(n - 1) + {n - 1}
  }

  /** Distinct ids below `n` number at most `n`: the fixed queue cannot overflow. */
  lemma Pigeonhole(s: seq<int>, n: nat)
    requires forall i :: 0 <= i < |s| ==> 0 <= s[i] < n
    requires forall i, j :: 0 <= i < j < |s| ==> s[i] != s[j]
    ensures |s| <= n
  {
    Spread(s, Ids(n));
  }

  lemma {:induction false} Spread(s: seq<int>, ids: set<int>)
    requires forall i :: 0 <= i < |s| ==> s[i] in ids
    requires forall i, j :: 0 <= i < j < |s| ==> s[i] != s[j]
    ensures |s| <= |ids|
  {
    if s != [] {
      Spread(s[..|s| - 1], ids - {s[|s| - 1]});
    }
  }

  lemma {:induction false} Subset<T>(a: set<T>, b: set<T>)
    requires a <= b
    ensures |a| <= |b|
  {
    if a != {} {
      var x := Pick(a);
      Subset(a - {x}, b - {x});
    }
  }
}
