/** Little-endian numbers, counted strings and lists in a file. A character stands for a byte. */
module Bytes {
  import opened Slices

  function Power(k: nat): nat {
    if k == 0 then 1 else 256 * Power(k - 1)
  }

  function ByteOf(c: char): nat {
    c as int % 256
  }

  /** The low `k` bytes of a number. */
  function Le(n: nat, k: nat): string {
    if k == 0 then "" else [(n % 256) as char] + Le(n / 256, k - 1)
  }

  function FromLe(s: string): nat {
    if s == "" then 0 else ByteOf(s[0]) + 256 * FromLe(s[1..])
  }

  lemma {:induction false} LeLength(n: nat, k: nat)
    ensures |Le(n, k)| == k
  {
    if k > 0 {
      LeLength(n / 256, k - 1);
    }
  }

  lemma LeFirst(n: nat, k: nat)
    requires k > 0
    ensures Le(n, k) != "" && Le(n, k)[1..] == Le(n / 256, k - 1) && ByteOf(Le(n, k)[0]) == n % 256
  {
  }

  lemma {:induction false} LeIsRead(n: nat, k: nat)
    requires n < Power(k)
    ensures FromLe(Le(n, k)) == n
  {
    if k > 0 {
      assert n / 256 < Power(k - 1);
      LeIsRead(n / 256, k - 1);
      hide Le, Power;
      LeFirst(n, k);
      assert FromLe(Le(n, k)) == n % 256 + 256 * (n / 256);
    }
  }

  lemma FromFirst(s: string)
    requires s != "" && s[0] as int < 256
    ensures FromLe(s) == 256 * FromLe(s[1..]) + s[0] as int
  {
  }

  lemma {:induction false} ReadIsWritten(s: string)
    requires forall i :: 0 <= i < |s| ==> s[i] as int < 256
    ensures Le(FromLe(s), |s|) == s
  {
    if s != "" {
      ReadIsWritten(s[1..]);
      FromFirst(s);
      LeOn(s[0] as int, FromLe(s[1..]), |s| - 1);
      hide Le, FromLe;
      assert s == [s[0]] + s[1..] && s[0] as int as char == s[0];
    }
  }

  lemma {:induction false} FromLeBound(s: string)
    ensures FromLe(s) < Power(|s|)
  {
    if s != "" {
      FromLeBound(s[1..]);
    }
  }

  /** A number whose last byte was never read stays below the next power. */
  lemma {:induction false} ZeroEnd(s: string, t: string)
    requires t != "" && forall i :: 0 <= i < |t| ==> t[i] == 0 as char
    ensures FromLe(s + t) == FromLe(s)
  {
    if s == "" {
      assert s + t == t;
      if |t| > 1 {
        ZeroEnd("", t[1..]);
        assert "" + t[1..] == t[1..];
      } else {
        assert t[1..] == "";
      }
    } else {
      ZeroEnd(s[1..], t);
      assert (s + t)[1..] == s[1..] + t;
    }
  }

  /** `fread` into a buffer: what there is of the file replaces the beginning of the buffer. */
  function Fill(content: string, pos: nat, buffer: string): (r: string)
    ensures |r| == |buffer|
  {
    if pos >= |content| then buffer
    else if pos + |buffer| <= |content| then content[pos..pos + |buffer|]
    else content[pos..] + buffer[|content| - pos..]
  }

  /** Byte by byte. */
  lemma FillAt(content: string, pos: nat, buffer: string, i: nat)
    requires i < |buffer|
    ensures Fill(content, pos, buffer)[i] == if pos + i < |content| then content[pos + i] else buffer[i]
  {
  }

  lemma LeOn(b: nat, n: nat, k: nat)
    requires b < 256
    ensures Le(256 * n + b, k + 1) == [b as char] + Le(n, k)
  {
    assert (256 * n + b) / 256 == n && (256 * n + b) % 256 == b;
  }

  /** A number below 256 is its byte and zeros. */
  lemma LeOfByte(n: nat, k: nat)
    requires n < 256 && k > 0
    ensures Le(n, k) == [n as char] + seq(k - 1, _ => 0 as char)
  {
    LeOfZero(k - 1);
  }

  lemma {:induction false} LeOfZero(k: nat)
    ensures Le(0, k) == seq(k, _ => 0 as char)
  {
    if k > 0 {
      LeOfZero(k - 1);
    }
  }

  /** Where the file stands after `n` bytes were asked for. */
  function After(content: string, pos: nat, n: nat): nat {
    if pos + n <= |content| then pos + n else |content|
  }

  datatype Took<T> = Took(value: T, pos: nat)

  type Reader<!T> = (string, nat) -> Took<T>

  /** What is read where `part` stands is `value`. */
  predicate Reads<T(==)>(r: Reader<T>, content: string, pos: nat, part: string, value: T) {
    Holds(content, pos, part) ==> r(content, pos) == Took(value, pos + |part|)
  }

  ghost predicate ReadsBack<T>(r: Reader<T>, part: string, value: T) {
    forall content, pos {:trigger Reads(r, content, pos, part, value)} :: Reads(r, content, pos, part, value)
  }

  /** Cutting the file at `n`: what is read before the cut is the same, and otherwise the file is at its end. */
  predicate CutAt<T(==)>(r: Reader<T>, content: string, n: nat, pos: nat) {
    n <= |content| && pos <= n ==>
      var cut := r(content[..n], pos);
      pos <= cut.pos && ((cut == r(content, pos) && cut.pos <= n) || cut.pos == n)
  }

  ghost predicate Cuts<T>(r: Reader<T>) {
    forall content, n, pos {:trigger CutAt(r, content, n, pos)} :: CutAt(r, content, n, pos)
  }

  // Raw bytes and numbers

  /** As many bytes as the buffer takes; `buffer` is what it held before. */
  function ReadRaw(buffer: string): Reader<string> {
    (content: string, pos: nat) => Took(Fill(content, pos, buffer), After(content, pos, |buffer|))
  }

  lemma RawReadsBack(buffer: string, part: string)
    requires |part| == |buffer|
    ensures ReadsBack(ReadRaw(buffer), part, part)
  {
    forall content, pos: nat
      ensures Reads(ReadRaw(buffer), content, pos, part, part)
    {
      if Holds(content, pos, part) && pos == |content| {
        assert part == buffer;
      }
    }
  }

  lemma FillCut(content: string, n: nat, pos: nat, buffer: string)
    requires n <= |content| && pos <= n
    ensures pos + |buffer| <= n ==> Fill(content[..n], pos, buffer) == Fill(content, pos, buffer)
    ensures pos + |buffer| <= n ==> After(content[..n], pos, |buffer|) == After(content, pos, |buffer|) == pos + |buffer|
    ensures pos + |buffer| > n ==> After(content[..n], pos, |buffer|) == n
  {
    if pos + |buffer| <= n {
      assert content[..n][pos..pos + |buffer|] == content[pos..pos + |buffer|];
    }
  }

  lemma RawCuts(buffer: string)
    ensures Cuts(ReadRaw(buffer))
  {
    forall content, n: nat, pos: nat
      ensures CutAt(ReadRaw(buffer), content, n, pos)
    {
      if n <= |content| && pos <= n {
        FillCut(content, n, pos, buffer);
      }
    }
  }

  function Map<A, B>(r: Reader<A>, f: A -> B): Reader<B> {
    (content: string, pos: nat) => var x := r(content, pos); Took(f(x.value), x.pos)
  }

  lemma MapReadsBack<A, B>(r: Reader<A>, f: A -> B, part: string, value: A)
    requires ReadsBack(r, part, value)
    ensures ReadsBack(Map(r, f), part, f(value))
  {
    forall content, pos: nat
      ensures Reads(Map(r, f), content, pos, part, f(value))
    {
      assert Reads(r, content, pos, part, value);
    }
  }

  lemma MapCuts<A, B>(r: Reader<A>, f: A -> B)
    requires Cuts(r)
    ensures Cuts(Map(r, f))
  {
    forall content, n: nat, pos: nat
      ensures CutAt(Map(r, f), content, n, pos)
    {
      assert CutAt(r, content, n, pos);
    }
  }

  /** One after the other. */
  function Then<A, B>(a: Reader<A>, b: Reader<B>): Reader<(A, B)> {
    (content: string, pos: nat) =>
      var x := a(content, pos);
      var y := b(content, x.pos);
      Took((x.value, y.value), y.pos)
  }

  lemma ThenReadsBack<A, B>(a: Reader<A>, b: Reader<B>, part: string, value: A, part': string, value': B)
    requires ReadsBack(a, part, value) && ReadsBack(b, part', value')
    ensures ReadsBack(Then(a, b), part + part', (value, value'))
  {
    forall content, pos: nat
      ensures Reads(Then(a, b), content, pos, part + part', (value, value'))
    {
      if Holds(content, pos, part + part') {
        HoldsParts(content, pos, part, part');
        assert Reads(a, content, pos, part, value) && Reads(b, content, pos + |part|, part', value');
      }
    }
  }

  lemma ThenCuts<A, B>(a: Reader<A>, b: Reader<B>)
    requires Cuts(a) && Cuts(b)
    ensures Cuts(Then(a, b))
  {
    forall content, n: nat, pos: nat
      ensures CutAt(Then(a, b), content, n, pos)
    {
      assert CutAt(a, content, n, pos);
      if n <= |content| && pos <= n {
        assert CutAt(b, content, n, a(content[..n], pos).pos);
      }
    }
  }

  function ReadNumber(k: nat): Reader<nat> {
    Map(ReadRaw(Le(0, k)), FromLe)
  }

  lemma NumberReadsBack(n: nat, k: nat)
    requires n < Power(k)
    ensures ReadsBack(ReadNumber(k), Le(n, k), n)
  {
    LeLength(n, k);
    LeLength(0, k);
    LeIsRead(n, k);
    RawReadsBack(Le(0, k), Le(n, k));
    MapReadsBack(ReadRaw(Le(0, k)), FromLe, Le(n, k), Le(n, k));
  }

  lemma NumberCuts(k: nat)
    ensures Cuts(ReadNumber(k))
  {
    RawCuts(Le(0, k));
    MapCuts(ReadRaw(Le(0, k)), FromLe);
  }

  // Counted strings

  function Zeros(n: nat): string {
    seq(n, _ => 0 as char)
  }

  /** `write_str`: the length, truncated to 32 bits, and the bytes. */
  function WriteString(s: string): (r: string)
    ensures |r| == |s| + 4
  {
    LeLength(|s|, 4);
    Le(|s|, 4) + s
  }

  /** `read_str`: if the length is cut short the string stays empty. */
  function ReadString(content: string, pos: nat): Took<string> {
    if pos + 4 > |content| then Took("", |content|)
    else
      var len := ReadNumber(4)(content, pos).value;
      Took(Fill(content, pos + 4, Zeros(len)), After(content, pos + 4, len))
  }

  /** A string whose length is cut short stays empty; one whose bytes are has zeros for the rest. */
  lemma CutString(before: string, s: string, k: nat)
    requires |s| < 0x1_0000_0000 && k < |WriteString(s)|
    ensures var content := before + WriteString(s)[..k];
      ReadString(content, |before|) ==
      Took(if k < 4 then "" else s[..k - 4] + seq(|s| - (k - 4), _ => 0 as char), |content|)
  {
    var content := before + WriteString(s)[..k];
    LeLength(|s|, 4);
    if k >= 4 {
      assert WriteString(s)[..k] == Le(|s|, 4) + s[..k - 4];
      assert content == before + Le(|s|, 4) + s[..k - 4];
      HoldsInTurn(before, Le(|s|, 4), s[..k - 4]);
      PowerFour();
      NumberReadsBack(|s|, 4);
      assert Reads(ReadNumber(4), content, |before|, Le(|s|, 4), |s|);
      hide Le, ReadNumber;
      forall i | 0 <= i < |s|
        ensures Fill(content, |before| + 4, Zeros(|s|))[i] == if i < k - 4 then s[i] else 0 as char
      {
        FillAt(content, |before| + 4, Zeros(|s|), i);
      }
      assert Fill(content, |before| + 4, Zeros(|s|)) == s[..k - 4] + seq(|s| - (k - 4), _ => 0 as char);
      assert ReadNumber(4)(content, |before|).value == |s|;
    }
  }

  lemma PowerFour()
    ensures Power(4) == 0x1_0000_0000
  {
    assert Power(1) == 256 && Power(2) == 0x1_0000 && Power(3) == 0x100_0000;
  }

  lemma PowerEight()
    ensures Power(8) == 0x1_0000_0000_0000_0000 && Power(7) == 0x100_0000_0000_0000
  {
    PowerFour();
    assert Power(5) == 0x100_0000_0000 && Power(6) == 0x1_0000_0000_0000;
  }

  lemma StringReadsBack(s: string)
    requires |s| < 0x1_0000_0000
    ensures ReadsBack(ReadString, WriteString(s), s)
  {
    forall content, pos: nat
      ensures Reads(ReadString, content, pos, WriteString(s), s)
    {
      if Holds(content, pos, WriteString(s)) {
        PowerFour();
        LeLength(|s|, 4);
        NumberReadsBack(|s|, 4);
        HoldsParts(content, pos, Le(|s|, 4), s);
        assert Reads(ReadNumber(4), content, pos, Le(|s|, 4), |s|);
        assert Fill(content, pos + 4, Zeros(|s|)) == s;
      }
    }
  }

  lemma StringCuts()
    ensures Cuts(ReadString)
  {
    forall content, n: nat, pos: nat
      ensures CutAt(ReadString, content, n, pos)
    {
      NumberCuts(4);
      assert CutAt(ReadNumber(4), content, n, pos);
      if n <= |content| && pos + 4 <= n {
        LeLength(0, 4);
        FillCut(content, n, pos, Le(0, 4));
        FillCut(content, n, pos + 4, Zeros(ReadNumber(4)(content, pos).value));
      }
    }
  }

  // Lists

  function WriteAll<T>(write: T -> string, vs: seq<T>): string {
    if vs == [] then "" else write(vs[0]) + WriteAll(write, vs[1..])
  }

  function ReadAll<T>(r: Reader<T>, content: string, pos: nat, count: nat): Took<seq<T>>
    decreases count
  {
    if count == 0 then Took([], pos) else
      var first := r(content, pos);
      var rest := ReadAll(r, content, first.pos, count - 1);
      Took([first.value] + rest.value, rest.pos)
  }

  lemma {:induction false} AllReadBack<T>(r: Reader<T>, write: T -> string, vs: seq<T>, content: string, pos: nat)
    requires forall i :: 0 <= i < |vs| ==> ReadsBack(r, write(vs[i]), vs[i])
    requires Holds(content, pos, WriteAll(write, vs))
    ensures ReadAll(r, content, pos, |vs|) == Took(vs, pos + |WriteAll(write, vs)|)
    decreases |vs|
  {
    if vs != [] {
      HoldsParts(content, pos, write(vs[0]), WriteAll(write, vs[1..]));
      assert ReadsBack(r, write(vs[0]), vs[0]);
      assert Reads(r, content, pos, write(vs[0]), vs[0]);
      AllReadBack(r, write, vs[1..], content, pos + |write(vs[0])|);
      assert vs == [vs[0]] + vs[1..];
    }
  }

  /** Once the file is at its end it stays there. */
  lemma {:induction false} StaysAtEnd<T>(r: Reader<T>, content: string, count: nat)
    requires Cuts(r)
    ensures r(content, |content|).pos == |content|
    ensures ReadAll(r, content, |content|, count).pos == |content|
    decreases count
  {
    assert CutAt(r, content, |content|, |content|);
    assert content[..|content|] == content;
    assert r(content, |content|).pos == |content|;
    if count > 0 {
      StaysAtEnd(r, content, count - 1);
      assert ReadAll(r, content, |content|, count).pos == ReadAll(r, content, |content|, count - 1).pos;
    }
  }

  lemma {:induction false} AllCut<T>(r: Reader<T>, content: string, n: nat, pos: nat, count: nat)
    requires Cuts(r) && n <= |content| && pos <= n
    ensures var cut := ReadAll(r, content[..n], pos, count);
      pos <= cut.pos && ((cut == ReadAll(r, content, pos, count) && cut.pos <= n) || cut.pos == n)
    decreases count
  {
    if count > 0 {
      assert CutAt(r, content, n, pos);
      var first := r(content[..n], pos);
      if first == r(content, pos) && first.pos <= n {
        AllCut(r, content, n, first.pos, count - 1);
      } else {
        StaysAtEnd(r, content[..n], count - 1);
      }
    }
  }

  /** A count of eight bytes, and as many values. */
  function ReadCounted<T>(r: Reader<T>): Reader<seq<T>> {
    (content: string, pos: nat) =>
      var n := ReadNumber(8)(content, pos);
      ReadAll(r, content, n.pos, n.value)
  }

  function WriteCounted<T>(write: T -> string, vs: seq<T>): string {
    Le(|vs|, 8) + WriteAll(write, vs)
  }

  lemma CountedReadsBack<T>(r: Reader<T>, write: T -> string, vs: seq<T>)
    requires |vs| < 0x1_0000_0000_0000_0000 && forall i :: 0 <= i < |vs| ==> ReadsBack(r, write(vs[i]), vs[i])
    ensures ReadsBack(ReadCounted(r), WriteCounted(write, vs), vs)
  {
    PowerEight();
    NumberReadsBack(|vs|, 8);
    forall content, pos: nat
      ensures Reads(ReadCounted(r), content, pos, WriteCounted(write, vs), vs)
    {
      if Holds(content, pos, WriteCounted(write, vs)) {
        HoldsParts(content, pos, Le(|vs|, 8), WriteAll(write, vs));
        assert Reads(ReadNumber(8), content, pos, Le(|vs|, 8), |vs|);
        AllReadBack(r, write, vs, content, pos + |Le(|vs|, 8)|);
      }
    }
  }

  lemma CountedCuts<T>(r: Reader<T>)
    requires Cuts(r)
    ensures Cuts(ReadCounted(r))
  {
    NumberCuts(8);
    forall content, n: nat, pos: nat
      ensures CutAt(ReadCounted(r), content, n, pos)
    {
      assert CutAt(ReadNumber(8), content, n, pos);
      if n <= |content| && pos <= n {
        var count := ReadNumber(8)(content[..n], pos);
        AllCut(r, content, n, count.pos, count.value);
        if count.pos == n {
          assert |content[..n]| == n;
          StaysAtEnd(r, content[..n], count.value);
        }
      }
    }
  }

  /** A number whose read was cut short has no byte of 255 at its end. */
  lemma ShortIsNotMarker(content: string, pos: nat)
    requires |content| < pos + 8
    ensures ReadNumber(8)(content, pos).value != 0xFFFF_FFFF_FFFF_FFFF
  {
    LeLength(0, 8);
    AllZero(8);
    var there := if pos >= |content| then "" else content[pos..];
    var zeros := Le(0, 8)[|there|..];
    assert Fill(content, pos, Le(0, 8)) == there + zeros;
    ZeroEnd(there, zeros);
    FromLeBound(there);
    PowerGrows(|there|, 7);
    PowerEight();
  }

  lemma {:induction false} AllZero(k: nat)
    ensures |Le(0, k)| == k && forall i :: 0 <= i < k ==> Le(0, k)[i] == 0 as char
  {
    if k > 0 {
      AllZero(k - 1);
    }
  }

  lemma {:induction false} PowerGrows(a: nat, b: nat)
    requires a <= b
    ensures Power(a) <= Power(b)
    decreases b
  {
    if a < b {
      PowerGrows(a, b - 1);
    }
  }
}
