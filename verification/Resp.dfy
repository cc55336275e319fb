/** Requests on the wire: what the encoder writes and what the parser makes of any buffer. */
module Resp {

  import opened Widths
  import opened Decimals
  import opened Slices

  // The encoder

  const CRLF := "\r\n"

  /** A mark, a number and a line end. */
  function Header(mark: char, n: nat): string {
    [mark] + ToString(n) + CRLF
  }

  function BulkString(s: string): string {
    Header('$', |s|) + s + CRLF
  }

  function BulkStrings(items: seq<string>): string {
    if items == [] then "" else BulkString(items[0]) + BulkStrings(items[1..])
  }

  function Array(items: seq<string>): string {
    Header('*', |items|) + BulkStrings(items)
  }

  function Error(msg: string): string {
    "-ERR " + msg + CRLF
  }

  /** An error reply begins with a minus sign and is one line. */
  lemma ErrorIsOneLine(msg: string)
    requires '\r' !in msg
    ensures Error(msg)[0] == '-' && FirstCrlf(Error(msg), 0) == |Error(msg)| - 2
    ensures |Error(msg)| == |msg| + 7 && Error(msg)[5..|msg| + 5] == msg
  {
    LineEnd("-ERR " + msg, "");
    assert Error(msg) == "-ERR " + msg + CRLF + "";
  }

  method EncodeArray(items: seq<string>) returns (out: string)
    ensures out == Array(items)
  {
    hide ToString;
    out := "*" + ToString(|items|) + CRLF;
    assert out == Header('*', |items|);
    for i := 0 to |items|
      invariant out + BulkStrings(items[i..]) == Array(items)
    {
      assert items[i..] == [items[i]] + items[i + 1..];
      out := out + BulkString(items[i]);
    }
  }

  // Line ends

  predicate CrlfAt(buf: string, i: nat) {
    i + 1 < |buf| && buf[i] == '\r' && buf[i + 1] == '\n'
  }

  /** The first line end at or after `start`, if any. */
  function FirstCrlf(buf: string, start: nat): (r: int)
    ensures r == -1 ==> forall i: nat :: start <= i ==> !CrlfAt(buf, i)
    ensures r != -1 ==> start <= r && CrlfAt(buf, r) && forall i: nat :: start <= i < r ==> !CrlfAt(buf, i)
    decreases |buf| - start
  {
    if start + 1 >= |buf| then -1
    else if buf[start] == '\r' && buf[start + 1] == '\n' then start
    else FirstCrlf(buf, start + 1)
  }

  lemma FirstCrlfIs(buf: string, start: nat, r: nat)
    requires start <= r && CrlfAt(buf, r) && forall i: nat :: start <= i < r ==> !CrlfAt(buf, i)
    ensures FirstCrlf(buf, start) == r
  {
    assert FirstCrlf(buf, start) != -1;
  }

  lemma CrlfInside(buf: string, start: nat)
    ensures FirstCrlf(buf, start) == -1 || start <= FirstCrlf(buf, start) < |buf| - 1
  {
    assert FirstCrlf(buf, start) != -1 ==> CrlfAt(buf, FirstCrlf(buf, start));
  }

  method FindCrlf(buf: string, start: nat) returns (r: int)
    ensures r == FirstCrlf(buf, start)
  {
    var i := start;
    while i + 1 < |buf|
      invariant start <= i && FirstCrlf(buf, i) == FirstCrlf(buf, start)
    {
      if buf[i] == '\r' && buf[i + 1] == '\n' {
        return i;
      }
      i := i + 1;
    }
    return -1;
  }

  // The parser

  datatype ParseResult = Complete | Incomplete | Failed

  /** The verdict, the buffer that is left, and the arguments. */
  datatype Outcome = Outcome(result: ParseResult, buf: string, out: seq<string>)

  datatype Reading = Got(args: seq<string>, pos: nat) | Short | Bad

  /** One bulk string at `pos`. A length that reads as negative makes the unsigned sum wrap: past the end of
      the buffer if it falls below zero, and otherwise everything that is left becomes the argument. */
  function ReadBulk(buf: string, pos: nat): Reading {
    if pos >= |buf| then Short
    else if buf[pos] != '$' then Bad
    else
      var crlf := FirstCrlf(buf, pos);
      if crlf < 0 then Short
      else
        var len, at := Atoi(buf[pos + 1..]), crlf + 2;
        if at + len + 2 < 0 || at + len + 2 > |buf| then Short
        else Got([if len < 0 then buf[at..] else buf[at..at + len]], at + len + 2)
  }

  function ReadBulks(buf: string, pos: nat, n: nat): Reading
    decreases n
  {
    if n == 0 then Got([], pos) else
      var first := ReadBulk(buf, pos);
      if !first.Got? then first else Prepend(first.args, ReadBulks(buf, first.pos, n - 1))
  }

  function Prepend(args: seq<string>, r: Reading): Reading {
    if r.Got? then r.(args := args + r.args) else r
  }

  function ArrayOutcome(buf: string, out: seq<string>): Outcome {
    if FirstCrlf(buf, 0) < 0 then Outcome(Incomplete, buf, out)
    else if buf == "" || Atoi(buf[1..]) <= 0 then Outcome(Failed, buf, out)
    else
      match ReadBulks(buf, FirstCrlf(buf, 0) + 2, Atoi(buf[1..]))
      case Short => Outcome(Incomplete, buf, out)
      case Bad => Outcome(Failed, buf, out)
      case Got(args, pos) => if pos <= |buf| then Outcome(Complete, buf[pos..], args) else Outcome(Failed, buf, out)
  }

  lemma ReadsOneMore(buf: string, pos: nat, n: nat)
    requires n > 0
    ensures var first := ReadBulk(buf, pos);
      ReadBulks(buf, pos, n) == if first.Got? then Prepend(first.args, ReadBulks(buf, first.pos, n - 1)) else first
  {
    hide ReadBulk;
  }

  lemma {:induction false} ReadsWithin(buf: string, pos: nat, n: nat)
    requires pos <= |buf|
    ensures ReadBulks(buf, pos, n).Got? ==> ReadBulks(buf, pos, n).pos <= |buf|
    decreases n
  {
    if n > 0 && ReadBulk(buf, pos).Got? {
      ReadsWithin(buf, ReadBulk(buf, pos).pos, n - 1);
    }
  }

  lemma PrependNone(r: Reading)
    ensures Prepend([], r) == r
  {
    if r.Got? {
      assert [] + r.args == r.args;
    }
  }

  lemma PrependTwice(a: seq<string>, b: seq<string>, r: Reading)
    ensures Prepend(a, Prepend(b, r)) == Prepend(a + b, r)
  {
    if r.Got? {
      assert a + (b + r.args) == a + b + r.args;
    }
  }

  lemma ReadOn(buf: string, pos: nat, n: nat, args: seq<string>)
    ensures n == 0 ==> Prepend(args, ReadBulks(buf, pos, n)) == Got(args, pos)
    ensures n > 0 && !ReadBulk(buf, pos).Got? ==> Prepend(args, ReadBulks(buf, pos, n)) == ReadBulk(buf, pos)
    ensures n > 0 && ReadBulk(buf, pos).Got? ==>
              var first := ReadBulk(buf, pos);
              Prepend(args, ReadBulks(buf, pos, n)) == Prepend(args + first.args, ReadBulks(buf, first.pos, n - 1))
  {
    hide ReadBulk;
    var first := ReadBulk(buf, pos);
    if n > 0 && first.Got? {
      PrependTwice(args, first.args, ReadBulks(buf, first.pos, n - 1));
    }
  }

  method ParseArray(buf: string, out: seq<string>) returns (result: ParseResult, buf': string, out': seq<string>)
    requires buf != ""
    ensures Outcome(result, buf', out') == ArrayOutcome(buf, out)
  {
    hide Atoi, FirstCrlf, ReadBulks, Prepend;
    result, buf', out' := Incomplete, buf, out;
    var crlf := FindCrlf(buf, 0);
    if crlf < 0 {
      return;
    }
    CrlfInside(buf, 0);
    var count := Atoi(buf[1..]);
    if count <= 0 {
      result := Failed;
      return;
    }
    var pos: nat := crlf + 2;
    var args := [];
    ReadsWithin(buf, pos, count);
    PrependNone(ReadBulks(buf, pos, count));
    ghost var whole := ReadBulks(buf, pos, count);
    var i := 0;
    while i < count
      invariant 0 <= i <= count && whole == Prepend(args, ReadBulks(buf, pos, count - i))
    {
      ReadOn(buf, pos, count - i, args);
      if pos >= |buf| {
        return;
      }
      if buf[pos] != '$' {
        result := Failed;
        return;
      }
      var lenCrlf := FindCrlf(buf, pos);
      if lenCrlf < 0 {
        return;
      }
      CrlfInside(buf, pos);
      var len := Atoi(buf[pos + 1..]);
      var at := lenCrlf + 2;
      if at + len + 2 < 0 || at + len + 2 > |buf| {
        return;
      }
      var arg := if len < 0 then buf[at..] else buf[at..at + len];
      args := args + [arg];
      pos := at + len + 2;
      i := i + 1;
    }
    ReadOn(buf, pos, 0, args);
    return Complete, buf[pos..], args;
  }

  function FirstSpace(s: string, start: nat): (r: nat)
    requires start <= |s|
    ensures start <= r <= |s| && (r < |s| ==> s[r] == ' ') && forall i :: start <= i < r ==> s[i] != ' '
    decreases |s| - start
  {
    if start == |s| || s[start] == ' ' then start else FirstSpace(s, start + 1)
  }

  /** The words between spaces, from `start` on. */
  function Words(line: string, start: nat): seq<string>
    decreases |line| - start
  {
    if start >= |line| then []
    else
      var end := FirstSpace(line, start);
      (if end > start then [line[start..end]] else []) + Words(line, end + 1)
  }

  lemma WordsOn(line: string, start: nat)
    ensures start >= |line| ==> Words(line, start) == []
    ensures start < |line| ==>
              var end := FirstSpace(line, start);
              Words(line, start) == (if end > start then [line[start..end]] else []) + Words(line, end + 1)
  {
    hide FirstSpace;
  }

  function InlineOutcome(buf: string, out: seq<string>): Outcome {
    var crlf := FirstCrlf(buf, 0);
    if crlf < 0 then Outcome(Incomplete, buf, out)
    else
      var args := Words(buf[..crlf], 0);
      if args == [] then Outcome(Failed, buf[crlf + 2..], out) else Outcome(Complete, buf[crlf + 2..], args)
  }

  method ParseInline(buf: string, out: seq<string>) returns (result: ParseResult, buf': string, out': seq<string>)
    ensures Outcome(result, buf', out') == InlineOutcome(buf, out)
  {
    hide FirstCrlf, FirstSpace, Words;
    result, buf', out' := Incomplete, buf, out;
    var crlf := FindCrlf(buf, 0);
    if crlf < 0 {
      return;
    }
    CrlfInside(buf, 0);
    var line := buf[..crlf];
    buf' := buf[crlf + 2..];
    var args, start := [], 0;
    while start < |line|
      invariant 0 <= start && args + Words(line, start) == Words(line, 0)
      decreases |line| - start
    {
      WordsOn(line, start);
      var end := FirstSpace(line, start);
      if end > start {
        args := args + [line[start..end]];
      }
      start := end + 1;
    }
    WordsOn(line, start);
    if args == [] {
      return Failed, buf', out;
    }
    return Complete, buf', args;
  }

  function Parsed(buf: string, out: seq<string>): Outcome {
    if buf == "" then Outcome(Incomplete, buf, out)
    else if buf[0] == '*' then ArrayOutcome(buf, out)
    else InlineOutcome(buf, out)
  }

  method Parse(buf: string, out: seq<string>) returns (result: ParseResult, buf': string, out': seq<string>)
    ensures Outcome(result, buf', out') == Parsed(buf, out)
  {
    if buf == "" {
      return Incomplete, buf, out;
    }
    if buf[0] == '*' {
      result, buf', out' := ParseArray(buf, out);
    } else {
      result, buf', out' := ParseInline(buf, out);
    }
  }

  /** Whatever is parsed, a request that is not complete costs nothing, and one that is takes a prefix. */
  lemma TakesAPrefix(buf: string, out: seq<string>)
    ensures Parsed(buf, out).result == Incomplete ==> Parsed(buf, out).buf == buf
    ensures Parsed(buf, out).result != Complete ==> Parsed(buf, out).out == out
    ensures |Parsed(buf, out).buf| <= |buf| && Parsed(buf, out).buf == buf[|buf| - |Parsed(buf, out).buf|..]
    ensures Parsed(buf, out).result == Complete ==> Parsed(buf, out).out != []
  {
    if buf != "" && buf[0] == '*' && FirstCrlf(buf, 0) >= 0 && Atoi(buf[1..]) > 0 {
      ReadsWithin(buf, FirstCrlf(buf, 0) + 2, Atoi(buf[1..]));
      ReadsAll(buf, FirstCrlf(buf, 0) + 2, Atoi(buf[1..]));
    }
  }

  lemma OneArgument(buf: string, pos: nat)
    ensures ReadBulk(buf, pos).Got? ==> |ReadBulk(buf, pos).args| == 1
  {
  }

  lemma {:induction false} ReadsAll(buf: string, pos: nat, n: nat)
    ensures ReadBulks(buf, pos, n).Got? ==> |ReadBulks(buf, pos, n).args| == n
    decreases n
  {
    hide ReadBulk;
    OneArgument(buf, pos);
    if n > 0 && ReadBulk(buf, pos).Got? {
      ReadsAll(buf, ReadBulk(buf, pos).pos, n - 1);
    }
  }

  // Progress

  /** A request that is complete and takes nothing. */
  predicate Stalls(buf: string) {
    Parsed(buf, []).result == Complete && Parsed(buf, []).buf == buf
  }

  /** A bulk string whose end falls back on the beginning of the buffer, right behind the header. */
  lemma BackToZeroStalls(buf: string, number: string)
    requires buf == "*1\r\n$" + number + CRLF && number != "" && (forall c :: c in number ==> c != '\r')
    requires Atoi(number + CRLF) == -|number| - 9
    ensures Parsed(buf, []) == Outcome(Complete, buf, [""]) && Stalls(buf)
  {
    hide Atoi, ToString;
    var end := 5 + |number|;
    LineEnds(buf, number);
    hide FirstCrlf;
    HeaderCounts(buf);
    assert buf[5..] == number + CRLF && buf[end + 2..] == "" && buf[0..] == buf;
    assert ReadBulk(buf, 4) == Got([""], 0);
    OneBulk(buf, 4, "", 0);
  }

  lemma LineEnds(buf: string, number: string)
    requires buf == "*1\r\n$" + number + CRLF && forall c :: c in number ==> c != '\r'
    ensures FirstCrlf(buf, 0) == 2 && FirstCrlf(buf, 4) == 5 + |number|
  {
    FirstCrlfIs(buf, 0, 2);
    assert forall i :: 5 <= i < 5 + |number| ==> buf[i] == number[i - 5] && buf[i] in number;
    FirstCrlfIs(buf, 4, 5 + |number|);
  }

  lemma HeaderCounts(buf: string)
    requires |buf| > 4 && buf[..4] == "*1\r\n"
    ensures Atoi(buf[1..]) == 1
  {
    var rest := buf[2..];
    assert rest[0] == buf[..4][2];
    assert buf[1..] == ToString(1) + rest by {
      assert buf[1..] == [buf[..4][1]] + rest;
    }
    AtoiInverts(1, rest);
  }

  /** A length of -1 takes all that is left for the argument, and the request ends one character into it. */
  lemma NegativeLengthTakesAll(rest: string)
    requires rest != ""
    ensures Parsed("*1\r\n$-1\r\n" + rest, []) == Outcome(Complete, rest[1..], [rest])
  {
    hide Atoi, ToString, FirstCrlf, ReadBulks;
    var buf := "*1\r\n$-1\r\n" + rest;
    FirstCrlfIs(buf, 0, 2);
    FirstCrlfIs(buf, 4, 7);
    HeaderCounts(buf);
    MinusOne(rest);
    assert buf[5..] == "-1\r\n" + rest && buf[9..] == rest && buf[10..] == rest[1..];
    assert ReadBulk(buf, 4) == Got([rest], 10);
    OneBulk(buf, 4, rest, 10);
  }

  lemma MinusOne(rest: string)
    ensures Atoi("-1\r\n" + rest) == -1
  {
    hide Leading;
    SignIsRead(1, CRLF + rest);
    assert "-1\r\n" + rest == "-" + ToString(1) + (CRLF + rest);
    SignedInverts(-1, TWO_32);
  }

  /** The length -12 does so. */
  lemma NegativeLengthStalls()
    ensures Stalls("*1\r\n$-12\r\n")
  {
    var n := "12\r\n";
    assert Number(n, 0) == 12 by {
      assert n[1..] == "2\r\n" && n[1..][1..] == CRLF;
    }
    assert ("-12" + CRLF)[1..] == n;
    assert Atoi("-12" + CRLF) == -12;
    BackToZeroStalls("*1\r\n$-12\r\n", "-12");
  }

  /** ... and so does a length without a sign that 32 bits read as -19. */
  lemma WrappedLengthStalls()
    ensures Stalls("*1\r\n$4294967277\r\n")
  {
    var n := "4294967277" + CRLF;
    assert n[9..][1..] == CRLF;
    assert Number(n[9..], 429496727) == 4294967277;
    assert Number(n[7..], 4294967) == 4294967277;
    assert Number(n[5..], 42949) == 4294967277;
    assert Number(n[3..], 429) == 4294967277;
    assert Number(n[1..], 4) == 4294967277;
    assert Leading(n) == 4294967277;
    assert Atoi(n) == -19;
    BackToZeroStalls("*1\r\n$4294967277\r\n", "4294967277");
  }

  /** A bulk string leads on if and only if the unsigned sum ends up behind its beginning; one of no negative
      length does. */
  lemma BulkLeadsOn(buf: string, pos: nat)
    requires ReadBulk(buf, pos).Got?
    ensures var at, len := FirstCrlf(buf, pos) + 2, Atoi(buf[pos + 1..]);
      && (ReadBulk(buf, pos).pos > pos <==> at + len + 2 > pos)
      && (len >= 0 ==> ReadBulk(buf, pos).pos > pos)
  {
    hide Atoi;
    CrlfInside(buf, pos);
  }

  /** A complete request takes nothing if and only if it is an array whose last bulk string ends at 0. */
  lemma StallsIfBackAtZero(buf: string)
    ensures Stalls(buf) <==>
              && buf != "" && buf[0] == '*' && FirstCrlf(buf, 0) >= 0 && Atoi(buf[1..]) > 0
              && ReadBulks(buf, FirstCrlf(buf, 0) + 2, Atoi(buf[1..])).Got?
              && ReadBulks(buf, FirstCrlf(buf, 0) + 2, Atoi(buf[1..])).pos == 0
  {
    hide Atoi, ReadBulks, Words;
    CrlfInside(buf, 0);
    if buf != "" && buf[0] == '*' && FirstCrlf(buf, 0) >= 0 && Atoi(buf[1..]) > 0 {
      var r := ReadBulks(buf, FirstCrlf(buf, 0) + 2, Atoi(buf[1..]));
      ReadsWithin(buf, FirstCrlf(buf, 0) + 2, Atoi(buf[1..]));
      assert r.Got? && buf[r.pos..] == buf ==> |buf[r.pos..]| == |buf| - r.pos;
      assert buf[0..] == buf;
    }
  }

  /** A complete request that does not stall takes something. */
  lemma TakesSomething(buf: string)
    requires Parsed(buf, []).result == Complete && !Stalls(buf)
    ensures |Parsed(buf, []).buf| < |buf|
  {
    TakesAPrefix(buf, []);
    assert buf[0..] == buf;
  }

  /** No '$' is followed by a number that reads as negative: written with a minus sign, or wrapped. */
  predicate NaturalLengths(buf: string) {
    forall pos {:trigger buf[pos]} :: 0 <= pos < |buf| && buf[pos] == '$' ==> Atoi(buf[pos + 1..]) >= 0
  }

  lemma {:induction false} NaturalLeadsOn(buf: string, pos: nat, n: nat)
    requires NaturalLengths(buf) && ReadBulks(buf, pos, n).Got?
    ensures ReadBulks(buf, pos, n).pos >= pos
    decreases n
  {
    if n > 0 {
      BulkLeadsOn(buf, pos);
      NaturalLeadsOn(buf, ReadBulk(buf, pos).pos, n - 1);
    }
  }

  lemma NaturalSuffix(buf: string, k: nat)
    requires NaturalLengths(buf) && k <= |buf|
    ensures NaturalLengths(buf[k..])
  {
    var rest := buf[k..];
    forall pos | 0 <= pos < |rest| && rest[pos] == '$'
      ensures Atoi(rest[pos + 1..]) >= 0
    {
      assert rest[pos] == buf[k + pos] && rest[pos + 1..] == buf[k + pos + 1..];
    }
  }

  /** Then every complete request takes something, and what is left is no different. */
  lemma NaturalNeverStalls(buf: string)
    requires NaturalLengths(buf)
    ensures !Stalls(buf) && NaturalLengths(Parsed(buf, []).buf)
  {
    StallsIfBackAtZero(buf);
    TakesAPrefix(buf, []);
    NaturalSuffix(buf, |buf| - |Parsed(buf, []).buf|);
    if Stalls(buf) {
      CrlfInside(buf, 0);
      NaturalLeadsOn(buf, FirstCrlf(buf, 0) + 2, Atoi(buf[1..]));
    }
  }

  /** A line with no word on it is an error. */
  lemma EmptyLineFails()
    ensures Parsed("\r\n", []) == Outcome(Failed, "", [])
  {
    FirstCrlfIs("\r\n", 0, 0);
    assert "\r\n"[..0] == "" && "\r\n"[2..] == "";
  }

  // Round trips

  /** The counts fit an `int`. */
  predicate Countable(items: seq<string>) {
    |items| < TWO_32 / 2 && forall i :: 0 <= i < |items| ==> |items[i]| < TWO_32 / 2
  }

  lemma HoldsAt(buf: string, pos: nat, part: string, i: nat)
    requires Holds(buf, pos, part) && i < |part|
    ensures pos + i < |buf| && buf[pos + i] == part[i]
  {
    assert buf[pos + i] == buf[pos..pos + |part|][i];
  }

  /** A mark, a number and a line end: the number and the line end are read back. */
  lemma HeaderIsRead(buf: string, pos: nat, mark: char, n: nat)
    requires mark != '\r' && n < TWO_32 / 2 && Holds(buf, pos, Header(mark, n))
    ensures pos < |buf| && buf[pos] == mark && Atoi(buf[pos + 1..]) == n
    ensures |Header(mark, n)| > 3 && FirstCrlf(buf, pos) + 2 == pos + |Header(mark, n)| <= |buf|
  {
    hide ToString, Atoi, FirstCrlf, Holds;
    HeaderEnds(buf, pos, mark, n);
    AllDigits(n);
    HoldsAt(buf, pos, Header(mark, n), 0);
    var at := pos + 1 + |ToString(n)|;
    assert CrlfAt(buf, at);
    assert buf[pos + 1..] == ToString(n) + buf[at..] by {
      HoldsParts(buf, pos, [mark] + ToString(n), CRLF);
      HoldsParts(buf, pos, [mark], ToString(n));
      HoldsSuffix(buf, pos + 1, ToString(n));
    }
    AtoiInverts(n, buf[at..]);
  }

  lemma HoldsSuffix(buf: string, pos: nat, part: string)
    requires Holds(buf, pos, part)
    ensures pos + |part| <= |buf| && buf[pos..] == part + buf[pos + |part|..]
  {
  }

  lemma HeaderEnds(buf: string, pos: nat, mark: char, n: nat)
    requires mark != '\r' && Holds(buf, pos, Header(mark, n))
    ensures var at := pos + 1 + |ToString(n)|; FirstCrlf(buf, pos) == at && CrlfAt(buf, at)
  {
    hide ToString, FirstCrlf, Holds;
    var digits, head := ToString(n), Header(mark, n);
    AllDigits(n);
    var at := pos + 1 + |digits|;
    assert CrlfAt(buf, at) by {
      HoldsAt(buf, pos, head, 1 + |digits|);
      HoldsAt(buf, pos, head, 2 + |digits|);
    }
    forall i: nat | pos <= i < at
      ensures !CrlfAt(buf, i)
    {
      HoldsAt(buf, pos, head, i - pos);
      assert i > pos ==> buf[i] == digits[i - pos - 1] && buf[i] in digits;
    }
    FirstCrlfIs(buf, pos, at);
  }

  /** The two bytes behind the item are passed over, whatever they are. */
  lemma ItemIsRead(buf: string, pos: nat, item: string)
    requires var head := Header('$', |item|);
      |item| < TWO_32 / 2 && Holds(buf, pos, head + item) && pos + |head| + |item| + 2 <= |buf|
    ensures ReadBulk(buf, pos) == Got([item], pos + |Header('$', |item|)| + |item| + 2)
  {
    hide Header, Atoi, FirstCrlf;
    HoldsParts(buf, pos, Header('$', |item|), item);
    HeaderIsRead(buf, pos, '$', |item|);
  }

  lemma BulkIsRead(buf: string, pos: nat, item: string)
    requires |item| < TWO_32 / 2 && Holds(buf, pos, BulkString(item))
    ensures ReadBulk(buf, pos) == Got([item], pos + |BulkString(item)|)
  {
    hide Header, ReadBulk;
    HoldsParts(buf, pos, Header('$', |item|) + item, CRLF);
    ItemIsRead(buf, pos, item);
  }

  lemma {:induction false} BulksAreRead(buf: string, pos: nat, items: seq<string>)
    requires Countable(items) && Holds(buf, pos, BulkStrings(items))
    ensures ReadBulks(buf, pos, |items|) == Got(items, pos + |BulkStrings(items)|)
    decreases |items|
  {
    hide BulkString, ReadBulk, Holds;
    if items != [] {
      HoldsParts(buf, pos, BulkString(items[0]), BulkStrings(items[1..]));
      BulkIsRead(buf, pos, items[0]);
      BulksAreRead(buf, pos + |BulkString(items[0])|, items[1..]);
    }
  }

  /** Behind the header of an array its bulk strings decide. */
  lemma ArrayIs(buf: string, n: nat, out: seq<string>)
    requires 0 < n < TWO_32 / 2 && Holds(buf, 0, Header('*', n))
    ensures var r := ReadBulks(buf, |Header('*', n)|, n);
      && (r.Short? ==> Parsed(buf, out) == Outcome(Incomplete, buf, out))
      && (r.Bad? ==> Parsed(buf, out) == Outcome(Failed, buf, out))
      && (r.Got? && r.pos <= |buf| ==> Parsed(buf, out) == Outcome(Complete, buf[r.pos..], r.args))
  {
    hide Header, Atoi, FirstCrlf, ReadBulks;
    HeaderIsRead(buf, 0, '*', n);
    assert buf[0 + 1..] == buf[1..];
  }

  /** What is encoded is parsed back, whatever bytes the items hold and whatever follows. */
  lemma RoundTrip(items: seq<string>, rest: string, out: seq<string>)
    requires items != [] && Countable(items)
    ensures Parsed(Array(items) + rest, out) == Outcome(Complete, rest, items)
  {
    hide Header, ReadBulks, BulkStrings, Parsed;
    var head, body := Header('*', |items|), BulkStrings(items);
    HoldsInTurn(head, body, rest);
    hide Holds;
    var buf := head + body + rest;
    ArrayIs(buf, |items|, out);
    BulksAreRead(buf, |head|, items);
  }

  lemma {:induction false} BulksThenOther(buf: string, pos: nat, items: seq<string>, n: nat)
    requires Countable(items) && Holds(buf, pos, BulkStrings(items)) && n > |items|
    requires var next := pos + |BulkStrings(items)|; next < |buf| && buf[next] != '$'
    ensures ReadBulks(buf, pos, n) == Bad
    decreases |items|
  {
    hide BulkString, Holds, ReadBulk, ReadBulks;
    ReadsOneMore(buf, pos, n);
    if items == [] {
      OtherIsBad(buf, pos);
    } else {
      HoldsParts(buf, pos, BulkString(items[0]), BulkStrings(items[1..]));
      BulkIsRead(buf, pos, items[0]);
      BulksThenOther(buf, pos + |BulkString(items[0])|, items[1..], n - 1);
    }
  }

  lemma OtherIsBad(buf: string, pos: nat)
    requires pos < |buf| && buf[pos] != '$'
    ensures ReadBulk(buf, pos) == Bad
  {
  }

  /** An array in which a part begins otherwise than with '$' is an error, however many good parts come before,
      and the buffer stays. */
  lemma OtherMarkFails(items: seq<string>, n: nat, rest: string, out: seq<string>)
    requires |items| < n < TWO_32 / 2 && Countable(items) && rest != "" && rest[0] != '$'
    ensures var buf := Header('*', n) + BulkStrings(items) + rest; Parsed(buf, out) == Outcome(Failed, buf, out)
  {
    hide Header, ReadBulks, BulkStrings, Parsed;
    var head, body := Header('*', n), BulkStrings(items);
    HoldsInTurn(head, body, rest);
    hide Holds;
    var buf := head + body + rest;
    assert buf[|head| + |body|] == rest[0];
    ArrayIs(buf, n, out);
    BulksThenOther(buf, |head|, items, n);
  }

  /** So is a count that is not positive. */
  lemma NoCountFails(n: nat, rest: string, out: seq<string>)
    requires n <= TWO_32 / 2
    ensures var buf := "*-" + ToString(n) + CRLF + rest; Parsed(buf, out) == Outcome(Failed, buf, out)
  {
    hide ToString, FirstCrlf, Leading;
    var line := "*-" + ToString(n);
    var buf := line + CRLF + rest;
    AllDigits(n);
    assert forall i :: 2 <= i < |line| ==> line[i] == ToString(n)[i - 2] && line[i] in ToString(n);
    LineEnd(line, rest);
    SignIsRead(n, CRLF + rest);
    assert buf[1..] == "-" + ToString(n) + (CRLF + rest);
    SignedInverts(-1 * n, TWO_32);
  }

  /** A request whose item is followed by any two bytes, in place of a line end, is complete all the same. */
  lemma AnyEndIsTaken(item: string, x: char, y: char, rest: string, out: seq<string>)
    requires |item| < TWO_32 / 2
    ensures Parsed(Header('*', 1) + (Header('$', |item|) + item) + ([x, y] + rest), out) == Outcome(Complete, rest, [item])
  {
    hide Header, ReadBulk, ReadBulks, Parsed;
    var one, bulk, end := Header('*', 1), Header('$', |item|) + item, [x, y] + rest;
    var buf := one + bulk + end;
    HoldsInTurn(one, bulk, end);
    hide Holds;
    ArrayIs(buf, 1, out);
    ItemIsRead(buf, |one|, item);
    OneBulk(buf, |one|, item, |one + bulk| + 2);
    assert buf[|one + bulk| + 2..] == end[2..] == rest;
  }

  lemma OneBulk(buf: string, pos: nat, item: string, next: nat)
    requires ReadBulk(buf, pos) == Got([item], next)
    ensures ReadBulks(buf, pos, 1) == Got([item], next)
  {
    hide ReadBulk;
    assert ReadBulks(buf, next, 0) == Got([], next) && [item] + [] == [item];
  }

  /** `buf` ends within `part`, which begins at `pos`. */
  predicate EndsWithin(buf: string, pos: nat, part: string) {
    pos <= |buf| < pos + |part| && buf[pos..] == part[..|buf| - pos]
  }

  lemma EndsInParts(buf: string, pos: nat, a: string, b: string)
    requires EndsWithin(buf, pos, a + b)
    ensures |buf| < pos + |a| ==> EndsWithin(buf, pos, a)
    ensures |buf| >= pos + |a| ==> Holds(buf, pos, a) && EndsWithin(buf, pos + |a|, b)
  {
    var here := buf[pos..];
    if |buf| < pos + |a| {
      assert (a + b)[..|here|] == a[..|here|];
    } else {
      assert buf[pos..pos + |a|] == here[..|a|] == a;
      assert buf[pos + |a|..] == here[|a|..] == b[..|here| - |a|];
    }
  }

  lemma HeaderIsShort(buf: string, pos: nat, mark: char, n: nat)
    requires mark != '\r' && EndsWithin(buf, pos, Header(mark, n))
    ensures FirstCrlf(buf, pos) == -1
    ensures pos < |buf| ==> buf[pos] == mark
  {
    hide ToString;
    var head := Header(mark, n);
    AllDigits(n);
    assert forall i: nat :: pos <= i < |buf| ==> buf[i] == buf[pos..][i - pos];
    forall i: nat | pos <= i
      ensures !CrlfAt(buf, i)
    {
      assert i + 1 < |buf| && i > pos ==> buf[i] == ToString(n)[i - pos - 1] && buf[i] in ToString(n);
    }
  }

  lemma BulkIsShort(buf: string, pos: nat, item: string)
    requires |item| < TWO_32 / 2 && EndsWithin(buf, pos, BulkString(item))
    ensures ReadBulk(buf, pos) == Short
  {
    hide Header, Atoi, FirstCrlf;
    var head := Header('$', |item|);
    assert BulkString(item) == head + (item + CRLF);
    EndsInParts(buf, pos, head, item + CRLF);
    if |buf| < pos + |head| {
      HeaderIsShort(buf, pos, '$', |item|);
    } else {
      HeaderIsRead(buf, pos, '$', |item|);
    }
  }

  lemma {:induction false} BulksAreShort(buf: string, pos: nat, items: seq<string>)
    requires Countable(items) && EndsWithin(buf, pos, BulkStrings(items))
    ensures ReadBulks(buf, pos, |items|) == Short
    decreases |items|
  {
    hide BulkString, ReadBulk;
    var a, b := BulkString(items[0]), BulkStrings(items[1..]);
    EndsInParts(buf, pos, a, b);
    if |buf| < pos + |a| {
      BulkIsShort(buf, pos, items[0]);
    } else {
      BulkIsRead(buf, pos, items[0]);
      BulksAreShort(buf, pos + |a|, items[1..]);
    }
  }

  /** Every proper prefix of an encoded request is incomplete and left as it is. */
  lemma PrefixIsIncomplete(items: seq<string>, n: nat, out: seq<string>)
    requires items != [] && Countable(items) && n < |Array(items)|
    ensures Parsed(Array(items)[..n], out) == Outcome(Incomplete, Array(items)[..n], out)
  {
    hide Header, Atoi, FirstCrlf, ReadBulks, BulkStrings;
    var head, body := Header('*', |items|), BulkStrings(items);
    var buf := Array(items)[..n];
    assert buf[0..] == buf;
    EndsInParts(buf, 0, head, body);
    if n < |head| {
      HeaderIsShort(buf, 0, '*', |items|);
    } else {
      ArrayIs(buf, |items|, out);
      BulksAreShort(buf, |head|, items);
    }
  }

  // Inline requests

  function Joined(words: seq<string>): string {
    if words == [] then "" else if |words| == 1 then words[0] else words[0] + " " + Joined(words[1..])
  }

  predicate IsWord(w: string) {
    w != "" && ' ' !in w && '\r' !in w
  }

  lemma FirstSpaceIs(s: string, start: nat, r: nat)
    requires start <= r <= |s| && (r < |s| ==> s[r] == ' ') && forall i :: start <= i < r ==> s[i] != ' '
    ensures FirstSpace(s, start) == r
  {
    hide FirstSpace;
    assert FirstSpace(s, start) <= r;
  }

  lemma {:induction false} WordsFrom(line: string, start: nat)
    requires start <= |line|
    ensures Words(line, start) == Words(line[start..], 0)
    decreases |line| - start
  {
    hide FirstSpace, Words;
    var rest, end := line[start..], FirstSpace(line, start);
    WordsOn(line, start);
    WordsOn(rest, 0);
    if start < |line| {
      FirstSpaceIs(rest, 0, end - start);
      assert rest[..end - start] == line[start..end];
      if end < |line| {
        WordsFrom(line, end + 1);
        WordsFrom(rest, end - start + 1);
        assert rest[end - start + 1..] == line[end + 1..];
      } else {
        WordsOn(line, end + 1);
        WordsOn(rest, end - start + 1);
      }
    } else {
      assert rest == "";
    }
  }

  /** A space parts words: those of either side, in order. */
  lemma {:induction false} WordsApart(a: string, b: string)
    ensures Words(a + " " + b, 0) == Words(a, 0) + Words(b, 0)
    decreases |a|
  {
    hide FirstSpace, Words;
    var line, end := a + " " + b, FirstSpace(a, 0);
    WordsOn(line, 0);
    WordsOn(a, 0);
    FirstSpaceIs(line, 0, end);
    WordsFrom(line, end + 1);
    assert line[..end] == a[..end];
    if end < |a| {
      WordsFrom(a, end + 1);
      WordsApart(a[end + 1..], b);
      assert line[end + 1..] == a[end + 1..] + " " + b;
    } else {
      assert line[end + 1..] == b;
      WordsOn(a, end + 1);
    }
  }

  /** What holds no space is one word, and nothing is none. */
  lemma WordAlone(w: string)
    requires ' ' !in w
    ensures Words(w, 0) == if w == "" then [] else [w]
  {
    hide FirstSpace, Words;
    WordsOn(w, 0);
    FirstSpaceIs(w, 0, |w|);
    WordsOn(w, |w| + 1);
    assert w[0..|w|] == w;
  }

  lemma {:induction false} WordsOfJoined(words: seq<string>)
    requires forall i :: 0 <= i < |words| ==> IsWord(words[i])
    ensures Words(Joined(words), 0) == words
    decreases |words|
  {
    hide Words;
    if |words| > 1 {
      WordsOfJoined(words[1..]);
      WordsApart(words[0], Joined(words[1..]));
      assert words == [words[0]] + words[1..];
    }
    if words == [] {
      WordAlone("");
    } else {
      assert IsWord(words[0]);
      WordAlone(words[0]);
    }
  }

  lemma {:induction false} JoinedHasNoReturn(words: seq<string>)
    requires forall i :: 0 <= i < |words| ==> IsWord(words[i])
    ensures '\r' !in Joined(words)
  {
    if |words| > 1 {
      JoinedHasNoReturn(words[1..]);
    }
  }

  lemma LineEnd(line: string, rest: string)
    requires '\r' !in line
    ensures FirstCrlf(line + CRLF + rest, 0) == |line|
  {
    var buf := line + CRLF + rest;
    forall i: nat | i < |line|
      ensures !CrlfAt(buf, i)
    {
      assert buf[i] == line[i] && line[i] in line;
    }
    FirstCrlfIs(buf, 0, |line|);
  }

  /** A line is taken, whatever is on it, and its words are the arguments; none is an error. */
  lemma InlineIs(line: string, rest: string, out: seq<string>)
    requires '\r' !in line && (line == "" || line[0] != '*')
    ensures var words := Words(line, 0);
      Parsed(line + CRLF + rest, out) == if words == [] then Outcome(Failed, rest, out) else Outcome(Complete, rest, words)
  {
    hide FirstCrlf, Words;
    var buf := line + CRLF + rest;
    LineEnd(line, rest);
    assert buf[..|line|] == line && buf[|line| + 2..] == rest;
    assert buf[0] == if line == "" then '\r' else line[0];
  }

  /** A line of words is parsed into the words. */
  lemma InlineRoundTrip(words: seq<string>, rest: string, out: seq<string>)
    requires words != [] && forall i :: 0 <= i < |words| ==> IsWord(words[i])
    requires words[0] != "" && words[0][0] != '*'
    ensures Parsed(Joined(words) + CRLF + rest, out) == Outcome(Complete, rest, words)
  {
    hide Words;
    JoinedHasNoReturn(words);
    WordsOfJoined(words);
    InlineIs(Joined(words), rest, out);
  }
}
