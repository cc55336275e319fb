/** A client connection: bytes in, replies out. */
module Connections {
  import opened Resp

  type Request = seq<string>

  /** The bytes of a sequence of requests. */
  function Stream(requests: seq<Request>): string {
    if requests == [] then "" else Stream(requests[..|requests| - 1]) + Array(requests[|requests| - 1])
  }

  predicate Sendable(requests: seq<Request>) {
    forall i :: 0 <= i < |requests| ==> requests[i] != [] && Countable(requests[i])
  }

  /** After `n` requests, `rest` is what has come of the following ones. */
  ghost predicate Received(requests: seq<Request>, received: string, n: nat, rest: string) {
    n <= |requests| && received <= Stream(requests) && received == Stream(requests[..n]) + rest
  }

  lemma MoreReceived(requests: seq<Request>, received: string, n: nat, rest: string, more: string)
    requires Received(requests, received, n, rest) && received + more <= Stream(requests)
    ensures Received(requests, received + more, n, rest + more)
  {
  }

  /** ... and it does not hold the whole of the next one. */
  ghost predicate CaughtUp(requests: seq<Request>, n: nat, rest: string)
    requires n <= |requests|
  {
    if n == |requests| then rest == "" else |rest| < |Array(requests[n])|
  }

  lemma {:induction false} StreamSplits(requests: seq<Request>, n: nat)
    requires n < |requests|
    ensures Stream(requests[..n + 1]) == Stream(requests[..n]) + Array(requests[n])
    ensures Stream(requests[..n + 1]) <= Stream(requests)
  {
    assert requests[..n + 1][..n] == requests[..n];
    StreamGrows(requests, n + 1);
  }

  lemma {:induction false} StreamGrows(requests: seq<Request>, n: nat)
    requires n <= |requests|
    ensures Stream(requests[..n]) <= Stream(requests)
    decreases |requests|
  {
    if n == |requests| {
      assert requests[..n] == requests;
    } else {
      var shorter := requests[..|requests| - 1];
      assert shorter[..n] == requests[..n];
      StreamGrows(shorter, n);
    }
  }

  lemma PrefixOfSum(s: string, a: string, rest: string, t: string)
    requires a + rest <= s && a + t <= s
    ensures |rest| < |t| ==> rest == t[..|rest|]
    ensures |rest| >= |t| ==> t <= rest
  {
    assert forall i :: 0 <= i < |rest| ==> rest[i] == s[|a| + i];
    assert forall i :: 0 <= i < |t| ==> t[i] == s[|a| + i];
  }

  /** What the parser makes of the read buffer. */
  lemma NextRequest(requests: seq<Request>, received: string, n: nat, rest: string, out: Request)
    requires Sendable(requests) && Received(requests, received, n, rest)
    ensures CaughtUp(requests, n, rest) ==> Parsed(rest, out) == Outcome(Incomplete, rest, out)
    ensures !CaughtUp(requests, n, rest) ==>
              var o := Parsed(rest, out);
              && n < |requests| && o == Outcome(Complete, o.buf, requests[n])
              && |o.buf| < |rest| && Received(requests, received, n + 1, o.buf)
  {
    hide Parsed, Array;
    if n == |requests| {
      NothingLeft(requests, received, rest);
      NothingIsIncomplete(out);
    } else {
      var a := Array(requests[n]);
      StreamSplits(requests, n);
      PrefixOfSum(Stream(requests), Stream(requests[..n]), rest, a);
      if |rest| < |a| {
        PrefixIsIncomplete(requests[n], |rest|, out);
      } else {
        var next := rest[|a|..];
        assert rest == a + next;
        RoundTrip(requests[n], next, out);
        ArrayIsNotEmpty(requests[n]);
      }
    }
  }

  lemma NothingLeft(requests: seq<Request>, received: string, rest: string)
    requires Received(requests, received, |requests|, rest)
    ensures rest == ""
  {
    assert requests[..|requests|] == requests;
    assert |received| <= |Stream(requests)|;
  }

  lemma NothingIsIncomplete(out: Request)
    ensures Parsed("", out) == Outcome(Incomplete, "", out)
  {
  }

  lemma ArrayIsNotEmpty(items: Request)
    ensures Array(items) != ""
  {
  }

  /** How many requests have been handled depends on the bytes received, not on how they were split. */
  lemma SplittingDoesNotMatter(requests: seq<Request>, received: string, n: nat, rest: string, n': nat, rest': string)
    requires Received(requests, received, n, rest) && CaughtUp(requests, n, rest)
    requires Received(requests, received, n', rest') && CaughtUp(requests, n', rest')
    ensures n == n' && rest == rest'
  {
    if n < n' {
      TooMany(requests, received, n, rest, n', rest');
    } else if n' < n {
      TooMany(requests, received, n', rest', n, rest);
    }
    assert n == n';
    assert rest == received[|Stream(requests[..n])|..] == rest';
  }

  lemma StreamsNest(requests: seq<Request>, a: nat, b: nat)
    requires a <= b <= |requests|
    ensures |Stream(requests[..a])| <= |Stream(requests[..b])|
  {
    assert requests[..b][..a] == requests[..a];
    StreamGrows(requests[..b], a);
  }

  lemma TooMany(requests: seq<Request>, received: string, n: nat, rest: string, n': nat, rest': string)
    requires Received(requests, received, n, rest) && n < |requests| && |rest| < |Array(requests[n])|
    requires Received(requests, received, n', rest')
    ensures n' <= n
  {
    StreamSplits(requests, n);
    if n < n' {
      StreamsNest(requests, n + 1, n');
    }
  }

  // Draining the read buffer

  /** The requests handled, what is left, and whether the parser gave up. */
  datatype Drained = Drained(args: seq<Request>, rest: string, failed: bool)

  /** Every complete request met on the way takes something: the parse loop ends. */
  predicate Settles(buf: string)
    decreases |buf|
  {
    var o := Parsed(buf, []);
    o.result == Complete ==> |o.buf| < |buf| && Settles(o.buf)
  }

  function Drain(buf: string): Drained
    requires Settles(buf)
    decreases |buf|
  {
    var o := Parsed(buf, []);
    if o.result == Complete then Prefixed([o.out], Drain(o.buf))
    else Drained([], o.buf, o.result == Failed)
  }

  function Prefixed(args: seq<Request>, d: Drained): Drained {
    d.(args := args + d.args)
  }

  lemma DrainOn(buf: string, args: seq<Request>)
    requires Settles(buf)
    ensures var o := Parsed(buf, []);
      if o.result == Complete then
        |o.buf| < |buf| && Settles(o.buf) && Prefixed(args, Drain(buf)) == Prefixed(args + [o.out], Drain(o.buf))
      else Prefixed(args, Drain(buf)) == Drained(args, o.buf, o.result == Failed)
  {
    hide Parsed;
    var o := Parsed(buf, []);
    if o.result == Complete {
      assert args + ([o.out] + Drain(o.buf).args) == args + [o.out] + Drain(o.buf).args;
    }
  }

  lemma SettlesOn(buf: string)
    ensures var o := Parsed(buf, []);
      if o.result == Complete then
        |o.buf| < |buf| && Settles(o.buf) ==>
          Settles(buf) && Drain(buf) == Drained([o.out] + Drain(o.buf).args, Drain(o.buf).rest, Drain(o.buf).failed)
      else Settles(buf) && Drain(buf) == Drained([], o.buf, o.result == Failed)
  {
    hide Parsed;
  }

  /** After at most `most` complete requests the parser asks for more, or gives up. */
  predicate Drains(buf: string, most: nat) {
    Parsed(buf, []).result == Complete ==> most > 0 && Drains(Parsed(buf, []).buf, most - 1)
  }

  /** What is left after `k` complete requests, or when there are no more. */
  function Later(buf: string, k: nat): string {
    if k > 0 && Parsed(buf, []).result == Complete then Later(Parsed(buf, []).buf, k - 1) else buf
  }

  lemma {:induction false} StalledNeverDrains(buf: string, most: nat)
    requires Stalls(buf)
    ensures !Drains(buf, most)
  {
    hide Parsed;
    if most > 0 {
      StalledNeverDrains(buf, most - 1);
    }
  }

  lemma {:induction false} SettledDrains(buf: string, most: nat)
    requires Settles(buf) && |buf| <= most
    ensures Drains(buf, most)
    decreases most
  {
    hide Parsed;
    var o := Parsed(buf, []);
    if o.result == Complete {
      SettledDrains(o.buf, most - 1);
    }
  }

  lemma {:induction false} DrainedSettles(buf: string, most: nat)
    requires Drains(buf, most)
    ensures Settles(buf)
    decreases most
  {
    hide Parsed;
    var o := Parsed(buf, []);
    if Stalls(buf) {
      StalledNeverDrains(buf, most);
    } else if o.result == Complete {
      TakesSomething(buf);
      DrainedSettles(o.buf, most - 1);
    }
  }

  /** The loop ends after some number of requests if and only if the buffer settles. */
  lemma SettlesIffDrains(buf: string)
    ensures Settles(buf) <==> exists most :: Drains(buf, most)
  {
    if Settles(buf) {
      SettledDrains(buf, |buf|);
    }
    if most :| Drains(buf, most) {
      DrainedSettles(buf, most);
    }
  }

  lemma {:induction false} SettledNeverStalls(buf: string, k: nat)
    requires Settles(buf)
    ensures !Stalls(Later(buf, k))
    decreases k
  {
    hide Parsed;
    if k > 0 && Parsed(buf, []).result == Complete {
      SettledNeverStalls(Parsed(buf, []).buf, k - 1);
    }
  }

  /** No request met on the way is complete and takes nothing. */
  ghost predicate NeverStalls(buf: string) {
    forall k: nat :: !Stalls(Later(buf, k))
  }

  lemma {:induction false} NeverStallingSettles(buf: string)
    requires NeverStalls(buf)
    ensures Settles(buf)
    decreases |buf|
  {
    hide Parsed, Stalls;
    var o := Parsed(buf, []);
    assert !Stalls(Later(buf, 0));
    if o.result == Complete {
      TakesSomething(buf);
      forall k: nat
        ensures !Stalls(Later(o.buf, k))
      {
        assert Later(buf, k + 1) == Later(o.buf, k);
      }
      NeverStallingSettles(o.buf);
    }
  }

  /** ... which is if and only if no request met on the way is complete and takes nothing. */
  lemma SettlesIffNeverStalls(buf: string)
    ensures Settles(buf) <==> NeverStalls(buf)
  {
    if Settles(buf) {
      forall k: nat
        ensures !Stalls(Later(buf, k))
      {
        SettledNeverStalls(buf, k);
      }
      assert NeverStalls(buf);
    }
    if NeverStalls(buf) {
      NeverStallingSettles(buf);
    }
  }

  /** A buffer in which no '$' is followed by a number that reads as negative settles, within as many requests as it has
      characters. */
  lemma {:induction false} NaturalSettles(buf: string)
    requires NaturalLengths(buf)
    ensures Settles(buf) && Drains(buf, |buf|)
    decreases |buf|
  {
    hide Parsed, NaturalLengths;
    var o := Parsed(buf, []);
    NaturalNeverStalls(buf);
    if o.result == Complete {
      TakesSomething(buf);
      NaturalSettles(o.buf);
    }
    SettledDrains(buf, |buf|);
  }

  /** A line with no word on it: a protocol error, after which `TryParse` leaves the connection writing. */
  lemma EmptyLineIsRejected()
    ensures Settles("\r\n") && Drain("\r\n") == Drained([], "", true)
  {
    EmptyLineFails();
  }

  /** ... whose text is this. */
  lemma RejectionText()
    ensures PROTOCOL_ERROR == "-ERR protocol error\r\n"
  {
  }

  /** On these buffers the loop of the original never ends. */
  lemma NeverSettles()
    ensures forall buf :: buf in {"*1\r\n$-12\r\n", "*1\r\n$4294967277\r\n"} ==>
              !Settles(buf) && forall most :: !Drains(buf, most)
  {
    NegativeLengthStalls();
    WrappedLengthStalls();
    forall buf, most | buf in {"*1\r\n$-12\r\n", "*1\r\n$4294967277\r\n"}
      ensures !Settles(buf) && !Drains(buf, most)
    {
      StalledNeverDrains(buf, most);
    }
  }

  /** Draining what has come of an encoded stream handles the next requests, in order, and never fails. */
  lemma {:induction false} DrainsRequests(requests: seq<Request>, received: string, n: nat, rest: string) returns (m: nat)
    requires Sendable(requests) && Received(requests, received, n, rest)
    ensures n <= m <= |requests| && Settles(rest)
    ensures var d := Drain(rest);
      && d.args == requests[n..m] && !d.failed
      && Received(requests, received, m, d.rest) && CaughtUp(requests, m, d.rest)
    decreases |rest|
  {
    hide Parsed, Received, Settles, Drain, CaughtUp, Sendable;
    assert n <= |requests| by {
      ReceivedWithin(requests, received, n, rest);
    }
    NextRequest(requests, received, n, rest, []);
    SettlesOn(rest);
    if CaughtUp(requests, n, rest) {
      m := n;
    } else {
      var o := Parsed(rest, []);
      m := DrainsRequests(requests, received, n + 1, o.buf);
      assert requests[n..m] == [requests[n]] + requests[n + 1..m];
    }
  }

  lemma ReceivedWithin(requests: seq<Request>, received: string, n: nat, rest: string)
    requires Received(requests, received, n, rest)
    ensures n <= |requests|
  {
  }

  // The dispatcher, as the connections see it

  /** The reply to the last of the requests made so far, over all connections. */
  type Replies = seq<Request> -> string

  class Dispatcher {
    const replies: Replies
    var log: seq<Request>

    constructor (replies: Replies)
      ensures this.replies == replies && log == []
    {
      this.replies, log := replies, [];
    }

    method Dispatch(args: Request) returns (reply: string)
      modifies this
      ensures log == old(log) + [args] && reply == replies(log)
    {
      log := log + [args];
      reply := replies(log);
    }
  }

  /** What a connection is answered: the reply to a request logged at some place, or a protocol error. */
  datatype Handled = Served(place: nat) | Rejected

  const PROTOCOL_ERROR := Error("protocol error")

  predicate Logged(log: seq<Request>, history: seq<Handled>) {
    forall i :: 0 <= i < |history| && history[i].Served? ==> history[i].place < |log|
  }

  function Owed(replies: Replies, log: seq<Request>, history: seq<Handled>): string
    requires Logged(log, history)
  {
    if history == [] then "" else
      Owed(replies, log, history[..|history| - 1]) +
      match history[|history| - 1] {
        case Served(place) => replies(log[..place + 1])
        case Rejected => PROTOCOL_ERROR
      }
  }

  /** Requests logged later change nothing. */
  lemma {:induction false} OwedStays(replies: Replies, log: seq<Request>, more: seq<Request>, history: seq<Handled>)
    requires Logged(log, history)
    ensures Owed(replies, log + more, history) == Owed(replies, log, history)
  {
    if history != [] {
      OwedStays(replies, log, more, history[..|history| - 1]);
      var h := history[|history| - 1];
      assert h.Served? ==> (log + more)[..h.place + 1] == log[..h.place + 1];
    }
  }

  lemma OneMore(replies: Replies, log: seq<Request>, history: seq<Handled>, args: Request)
    requires Logged(log, history)
    ensures var log', history' := log + [args], history + [Served(|log|)];
      Logged(log', history') && Owed(replies, log', history') == Owed(replies, log, history) + replies(log')
  {
    var log', history' := log + [args], history + [Served(|log|)];
    OwedStays(replies, log, [args], history);
    assert history'[..|history|] == history && log'[..|log| + 1] == log';
  }

  lemma OneError(replies: Replies, log: seq<Request>, history: seq<Handled>)
    requires Logged(log, history)
    ensures Logged(log, history + [Rejected]) && Owed(replies, log, history + [Rejected]) == Owed(replies, log, history) + PROTOCOL_ERROR
  {
    assert (history + [Rejected])[..|history|] == history;
  }

  /** Requests logged one after the other from `start` on. */
  function ServedFrom(start: nat, n: nat): seq<Handled> {
    seq(n, i requires 0 <= i => Served(start + i))
  }

  lemma ServedNone(history: seq<Handled>, start: nat)
    ensures history + ServedFrom(start, 0) == history
  {
  }

  lemma ServedNext(history: seq<Handled>, start: nat, n: nat)
    ensures history + ServedFrom(start, n + 1) == history + ServedFrom(start, n) + [Served(start + n)]
  {
  }

  /** The first requests of the client, and nothing else, in the order it sent them. */
  ghost predicate InOrder(requests: seq<Request>, log: seq<Request>, history: seq<Handled>) {
    && |history| <= |requests|
    && (forall i :: 0 <= i < |history| ==>
          history[i].Served? && history[i].place < |log| && log[history[i].place] == requests[i])
    && (forall i, j :: 0 <= i < j < |history| && history[i].Served? && history[j].Served? ==>
          history[i].place < history[j].place)
  }

  lemma StaysInOrder(requests: seq<Request>, log: seq<Request>, history: seq<Handled>, m: nat)
    requires InOrder(requests, log, history) && |history| <= m <= |requests|
    ensures InOrder(requests, log + requests[|history|..m], history + ServedFrom(|log|, m - |history|))
    ensures |history + ServedFrom(|log|, m - |history|)| == m
  {
  }

  datatype ConnState = Reading | Writing | Closing

  /** How a run of reads ends. */
  datatype ReadEnd = WouldBlock | Eof | Broken

  /** What the network does with a write: takes up to so many bytes, or none. */
  datatype WriteResult = Takes(most: nat) | Blocks | Fails

  class Connection {
    var readBuf: string
    var writeBuf: string
    var writeOffset: nat
    var state: ConnState
    /** False once the connection has been closed. */
    var open: bool
    const dispatcher: Dispatcher
    /** All that has come in and gone out, and what it was answered. */
    ghost var received: string
    ghost var sent: string
    ghost var history: seq<Handled>

    /** What was sent and what waits to be sent is what is owed. */
    ghost predicate Balanced()
      reads this, dispatcher
    {
      && Logged(dispatcher.log, history) && writeOffset <= |writeBuf|
      && sent + writeBuf[writeOffset..] == Owed(dispatcher.replies, dispatcher.log, history)
    }

    /** ... and an open connection is reading if nothing waits, and writing if something does. */
    ghost predicate Valid()
      reads this, dispatcher
    {
      Balanced() && (state != Closing ==> (state == Reading <==> writeOffset == |writeBuf|))
    }

    /** The client sends `requests`; those that have come whole were served, in order. */
    ghost predicate OnTrack(requests: seq<Request>)
      reads this, dispatcher
    {
      && Sendable(requests) && Received(requests, received, |history|, readBuf)
      && InOrder(requests, dispatcher.log, history)
    }

    constructor (dispatcher: Dispatcher)
      ensures Valid() && this.dispatcher == dispatcher && state == Reading && open
      ensures forall requests :: Sendable(requests) ==> OnTrack(requests)
      ensures received == "" && sent == "" && history == []
    {
      this.dispatcher := dispatcher;
      readBuf, writeBuf, writeOffset, state, open := "", "", 0, Reading, true;
      received, sent, history := "", "", [];
    }

    lemma Appended(more: string)
      requires writeOffset <= |writeBuf|
      ensures sent + (writeBuf + more)[writeOffset..] == sent + writeBuf[writeOffset..] + more
    {
    }

    method Serve(args: Request)
      requires Balanced()
      modifies `writeBuf, `history, dispatcher
      ensures Balanced() && dispatcher.log == old(dispatcher.log) + [args] && |writeBuf| >= old(|writeBuf|)
      ensures history == old(history) + [Served(|old(dispatcher.log)|)]
    {
      hide Logged, Owed;
      OneMore(dispatcher.replies, dispatcher.log, history, args);
      history := history + [Served(|dispatcher.log|)];
      var reply := dispatcher.Dispatch(args);
      Appended(reply);
      writeBuf := writeBuf + reply;
    }

    method Reject()
      requires Balanced()
      modifies `writeBuf, `history
      ensures Balanced() && history == old(history) + [Rejected] && writeOffset < |writeBuf|
    {
      hide Logged, Owed;
      OneError(dispatcher.replies, dispatcher.log, history);
      Appended(PROTOCOL_ERROR);
      writeBuf := writeBuf + PROTOCOL_ERROR;
      history := history + [Rejected];
    }

    /** Handles every request that is complete, for any buffer on which that ends. A protocol error leaves the
        connection writing, as its own text waits to be sent. */
    method TryParse()
      requires Valid() && Settles(readBuf)
      modifies this, dispatcher
      ensures Valid() && received == old(received) && sent == old(sent) && open == old(open)
      ensures var d := Drain(old(readBuf));
        && readBuf == d.rest && dispatcher.log == old(dispatcher.log) + d.args
        && history == old(history) + ServedFrom(old(|dispatcher.log|), |d.args|) + (if d.failed then [Rejected] else [])
        && (d.failed ==> state == Writing)
      ensures state == if writeOffset < |writeBuf| then Writing else old(state)
    {
      hide Settles, Drain, Logged, Owed, ServedFrom, Parsed;
      ServedNone(history, |dispatcher.log|);
      ghost var d, handled: seq<Request> := Drain(readBuf), [];
      assert d == Prefixed([], d) by {
        assert [] + d.args == d.args;
      }
      while true
        invariant Balanced() && received == old(received) && sent == old(sent) && state == old(state) && open == old(open)
        invariant writeOffset == old(writeOffset) && |writeBuf| >= old(|writeBuf|)
        invariant Settles(readBuf) && d == Prefixed(handled, Drain(readBuf))
        invariant dispatcher.log == old(dispatcher.log) + handled
        invariant history == old(history) + ServedFrom(old(|dispatcher.log|), |handled|)
        decreases |readBuf|
      {
        DrainOn(readBuf, handled);
        var result, buf, args := Parse(readBuf, []);
        readBuf := buf;
        if result == Incomplete {
          break;
        }
        if result == Failed {
          Reject();
          state := Closing;
          break;
        }
        ServedNext(old(history), old(|dispatcher.log|), |handled|);
        Serve(args);
        handled := handled + [args];
      }
      if writeOffset < |writeBuf| {
        state := Writing;
      }
    }

    /** Reads until there is nothing more to read, then handles what is complete. At the end of the stream it
        closes without looking at what was just read. */
    method DoRead(chunks: seq<string>, end: ReadEnd)
      requires Valid() && (end == WouldBlock ==> Settles(readBuf + Concat(chunks)))
      modifies this, dispatcher
      ensures Valid() && received == old(received) + Concat(chunks) && sent == old(sent) && open == old(open)
      ensures end == WouldBlock ==>
        var d := Drain(old(readBuf) + Concat(chunks));
        && readBuf == d.rest && dispatcher.log == old(dispatcher.log) + d.args
        && history == old(history) + ServedFrom(old(|dispatcher.log|), |d.args|) + (if d.failed then [Rejected] else [])
        && (d.failed ==> state == Writing)
        && state == if writeOffset < |writeBuf| then Writing else old(state)
      ensures end != WouldBlock ==>
        && state == Closing && readBuf == old(readBuf) + Concat(chunks)
        && history == old(history) && dispatcher.log == old(dispatcher.log)
    {
      hide Settles, Drain, Logged, Owed;
      for i := 0 to |chunks|
        invariant readBuf == old(readBuf) + Concat(chunks[..i])
        modifies `readBuf
      {
        assert chunks[..i + 1][..i] == chunks[..i];
        readBuf := readBuf + chunks[i];
      }
      assert chunks[..|chunks|] == chunks;
      received := received + Concat(chunks);
      if end != WouldBlock {
        state := Closing;
        return;
      }
      TryParse();
    }

    /** Writes until everything is written or the network takes no more: exactly as many bytes go out as it
        takes, and the state follows. */
    method DoWrite(results: seq<WriteResult>)
      requires Valid()
      modifies this
      ensures Valid() && received == old(received) && readBuf == old(readBuf) && history == old(history)
      ensures open == old(open)
      ensures sent == old(sent) + old(writeBuf[writeOffset..])[..Taken(results, old(|writeBuf| - writeOffset))]
      ensures state == StateAfter(results, old(|writeBuf| - writeOffset), old(state))
    {
      hide Logged, Owed, Taken, StateAfter;
      ghost var before, waiting := sent, writeBuf[writeOffset..];
      ghost var left := waiting;
      var i := 0;
      assert results[0..] == results;
      while writeOffset < |writeBuf|
        invariant received == old(received) && readBuf == old(readBuf) && history == old(history) && open == old(open)
        invariant state == old(state) && (state == Reading ==> left == "") && 0 <= i <= |results|
        invariant writeOffset <= |writeBuf| && left == writeBuf[writeOffset..]
        invariant sent + left == before + waiting && |before| <= |sent|
        invariant |sent| - |before| + Taken(results[i..], |left|) == Taken(results, |waiting|)
        invariant StateAfter(results[i..], |left|, state) == StateAfter(results, |waiting|, state)
        decreases |results| - i
      {
        TakenOn(results, i, |left|, state);
        SentPart(before, waiting, sent, left);
        if i == |results| || results[i].Blocks? {
          return;
        }
        if results[i].Fails? || results[i].most == 0 {
          state := Closing;
          return;
        }
        var rest := writeBuf[writeOffset..];
        var n := if results[i].most <= |rest| then results[i].most else |rest|;
        Moved(sent, rest, n);
        sent := sent + rest[..n];
        writeOffset := writeOffset + n;
        left := rest[n..];
        if writeOffset == |writeBuf| {
          writeBuf := "";
          writeOffset := 0;
        }
        i := i + 1;
      }
      SentPart(before, waiting, sent, "");
      TakenNone(results[i..], state);
      if state != Closing {
        state := Reading;
      }
    }

    /** `do_read` for a client that sends `requests`. */
    method ReadRequests(ghost requests: seq<Request>, chunks: seq<string>, end: ReadEnd)
      requires Valid() && OnTrack(requests) && received + Concat(chunks) <= Stream(requests)
      modifies this, dispatcher
      ensures Valid() && OnTrack(requests) && received == old(received) + Concat(chunks) && old(sent) == sent
      ensures open == old(open) && (end != WouldBlock ==> state == Closing)
      ensures old(dispatcher.log) <= dispatcher.log && old(history) <= history
      ensures end == WouldBlock ==> CaughtUp(requests, |history|, readBuf)
    {
      ghost var log, was := dispatcher.log, history;
      ghost var now, rest := received + Concat(chunks), readBuf + Concat(chunks);
      MoreReceived(requests, received, |was|, readBuf, Concat(chunks));
      ghost var m := DrainsRequests(requests, now, |was|, rest);
      hide ServedFrom, Settles, Drain, Logged, Owed, Received, InOrder, Stream, CaughtUp, Concat, Array;
      DoRead(chunks, end);
      if end != WouldBlock {
        return;
      }
      assert history == was + ServedFrom(|log|, m - |was|);
      StaysInOrder(requests, log, was, m);
    }

    /** One turn of the event loop: reads if there is something to read, writes if the network takes more, and
        is closed if either said so. */
    method OnIo(ghost requests: seq<Request>, io: Io)
      requires open && Valid() && OnTrack(requests) && received + io.Incoming() <= Stream(requests)
      modifies this, dispatcher
      ensures Valid() && OnTrack(requests) && received == old(received) + io.Incoming() && old(sent) <= sent
      ensures old(dispatcher.log) <= dispatcher.log && old(history) <= history
      ensures io.readable && io.end == WouldBlock ==> CaughtUp(requests, |history|, readBuf)
      ensures !io.writable ==> sent == old(sent)
      ensures open <==> state != Closing
      ensures io.readable && io.end != WouldBlock ==> !open
    {
      hide Logged, Owed, Received, InOrder, Stream, CaughtUp, Concat, Taken;
      if io.readable {
        ReadRequests(requests, io.chunks, io.end);
      }
      if io.writable {
        DoWrite(io.results);
      }
      if state == Closing {
        open := false;
      }
    }
  }

  /** What the event loop reports of a connection: what there is to read, and how far it can be written. */
  datatype Io = Io(readable: bool, chunks: seq<string>, end: ReadEnd, writable: bool, results: seq<WriteResult>) {
    function Incoming(): string {
      if readable then Concat(chunks) else ""
    }
  }

  /** How many of `left` bytes go out. */
  function Taken(results: seq<WriteResult>, left: nat): (n: nat)
    ensures n <= left
  {
    if left == 0 || results == [] || !results[0].Takes? || results[0].most == 0 then 0 else
      var n := if results[0].most <= left then results[0].most else left;
      n + Taken(results[1..], left - n)
  }

  /** The state when the network has taken what it takes of `left` bytes. */
  function StateAfter(results: seq<WriteResult>, left: nat, state: ConnState): (after: ConnState)
    ensures state == Closing ==> after == Closing
  {
    if left == 0 then (if state == Closing then Closing else Reading)
    else if results == [] || results[0].Blocks? then state
    else if results[0].Fails? || results[0].most == 0 then Closing
    else StateAfter(results[1..], if results[0].most <= left then left - results[0].most else 0, state)
  }

  /** What the first `n` writes could take. */
  function Room(results: seq<WriteResult>, n: nat): nat
    requires n <= |results| && forall i :: 0 <= i < n ==> results[i].Takes?
  {
    if n == 0 then 0 else Room(results, n - 1) + results[n - 1].most
  }

  /** After `n` writes that took something: everything is out once there was room for it; if not, and the next
      would block, the rest waits; and if not, and the next fails or takes nothing, the connection closes. */
  lemma {:induction false} WritesUntil(results: seq<WriteResult>, n: nat, left: nat, state: ConnState)
    requires n <= |results| && forall i :: 0 <= i < n ==> results[i].Takes? && results[i].most > 0
    ensures Room(results, n) >= left ==>
              Taken(results, left) == left && StateAfter(results, left, state) == if state == Closing then Closing else Reading
    ensures Room(results, n) < left && (n == |results| || results[n].Blocks?) ==>
              Taken(results, left) == Room(results, n) && StateAfter(results, left, state) == state
    ensures Room(results, n) < left && n < |results| && (results[n].Fails? || (results[n].Takes? && results[n].most == 0)) ==>
              Taken(results, left) == Room(results, n) && StateAfter(results, left, state) == Closing
    decreases n
  {
    if n > 0 && left > 0 {
      var most := results[0].most;
      RoomAfterFirst(results, n);
      if most < left {
        WritesUntil(results[1..], n - 1, left - most, state);
      }
    }
  }

  lemma {:induction false} RoomAfterFirst(results: seq<WriteResult>, n: nat)
    requires 0 < n <= |results| && forall i :: 0 <= i < n ==> results[i].Takes?
    ensures Room(results, n) == results[0].most + Room(results[1..], n - 1)
  {
    if n > 1 {
      RoomAfterFirst(results, n - 1);
    }
  }

  lemma TakenNone(results: seq<WriteResult>, state: ConnState)
    ensures Taken(results, 0) == 0 && StateAfter(results, 0, state) == if state == Closing then Closing else Reading
  {
  }

  lemma TakenOn(results: seq<WriteResult>, i: nat, left: nat, state: ConnState)
    requires i <= |results| && left > 0
    ensures i == |results| || !results[i].Takes? || results[i].most == 0 ==> Taken(results[i..], left) == 0
    ensures i == |results| || results[i].Blocks? ==> StateAfter(results[i..], left, state) == state
    ensures i < |results| && (results[i].Fails? || (results[i].Takes? && results[i].most == 0)) ==>
              StateAfter(results[i..], left, state) == Closing
    ensures i < |results| && results[i].Takes? && results[i].most > 0 ==>
              var n := if results[i].most <= left then results[i].most else left;
              && Taken(results[i..], left) == n + Taken(results[i + 1..], left - n)
              && StateAfter(results[i..], left, state) == StateAfter(results[i + 1..], left - n, state)
  {
    if i < |results| {
      assert results[i..][0] == results[i] && results[i..][1..] == results[i + 1..];
    }
  }

  lemma Moved(sent: string, rest: string, n: nat)
    requires n <= |rest|
    ensures sent + rest == sent + rest[..n] + rest[n..] && |rest[n..]| == |rest| - n
  {
  }

  lemma SentPart(before: string, waiting: string, sent: string, rest: string)
    requires sent + rest == before + waiting && |before| <= |sent|
    ensures sent == before + waiting[..|sent| - |before|]
  {
    assert sent == (sent + rest)[..|sent|];
  }

  function Concat(chunks: seq<string>): string {
    if chunks == [] then "" else Concat(chunks[..|chunks| - 1]) + chunks[|chunks| - 1]
  }

  /** What one connection does leaves every other one as it was, with the same replies owed. */
  twostate lemma OthersUndisturbed(c: Connection, requests: seq<Request>)
    requires old(c.Valid()) && old(c.OnTrack(requests)) && old(c.dispatcher.log) <= c.dispatcher.log
    requires unchanged(c)
    ensures c.Valid() && c.OnTrack(requests)
  {
    var log := old(c.dispatcher.log);
    OwedStays(c.dispatcher.replies, log, c.dispatcher.log[|log|..], c.history);
    assert log + c.dispatcher.log[|log|..] == c.dispatcher.log;
  }
}
