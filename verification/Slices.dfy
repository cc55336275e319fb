/** Where a string stands within another. */
module Slices {

  /** `part` stands at `pos`. */
  predicate Holds(buf: string, pos: nat, part: string) {
    pos + |part| <= |buf| && buf[pos..pos + |part|] == part
  }

  lemma HoldsInTurn(a: string, b: string, rest: string)
    ensures var buf := a + b + rest; Holds(buf, 0, a) && Holds(buf, |a|, b) && |buf| == |a| + |b| + |rest|
    ensures (a + b + rest)[|a| + |b|..] == rest
  {
    var buf := a + b + rest;
    assert buf[0..|a|] == a && buf[|a|..|a| + |b|] == b;
  }

  lemma HoldsParts(buf: string, pos: nat, a: string, b: string)
    requires Holds(buf, pos, a + b)
    ensures Holds(buf, pos, a) && Holds(buf, pos + |a|, b)
  {
    var whole := buf[pos..pos + |a + b|];
    assert buf[pos..pos + |a|] == whole[..|a|] == a;
    assert buf[pos + |a|..pos + |a| + |b|] == whole[|a|..] == b;
  }
}
