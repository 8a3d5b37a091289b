// One connection of the daemon: crates/habitat-graph-daemon/src/uds.rs:165-207.
// Requests are answered by an arbitrary function of the line, standing for the JSON-RPC
// handler over a fixed snapshot.

module Connection {
  import opened Bytes
  import opened Lists
  import opened Schema
  import opened LineReader

  const MAX_LINE_BYTES: nat := 1_048_576

  type Handler = seq<Byte> -> seq<Byte>

  /** How the connection ends: `Ok(())`, or the read error passed on. */
  datatype Outcome = Closed | ReadError

  function AsciiBytes(s: string): seq<Byte> {
    Map((c: char) => c as int % 256, s)
  }

  const TOO_LONG_RESPONSE: seq<Byte> :=
    AsciiBytes("{\"jsonrpc\":\"2.0\",\"id\":null,\"error\":{\"code\":-32700,\"message\":\"line exceeded maximum length\"}}")

  predicate IsWhitespace(b: Byte) {
    b == 0x20 || b == 0x09 || b == 0x0A || b == 0x0C || b == 0x0D
  }

  predicate IsBlank(line: seq<Byte>) {
    forall i :: 0 <= i < |line| ==> IsWhitespace(line[i])
  }

  /** What is written for one accepted line. */
  function Reply(handle: Handler, line: seq<Byte>): seq<Byte> {
    if IsBlank(line) || handle(line) == [] then [] else handle(line) + [NEWLINE]
  }

  // ---------------------------------------------------------------- over chunks

  lemma {:induction false} ReadProgress(max: nat, end: StreamEnd, buf: seq<Byte>, chunks: seq<seq<Byte>>)
    requires forall i :: 0 <= i < |chunks| ==> chunks[i] != []
    ensures var (r, rest) := ReadFrom(max, end, buf, chunks);
            && (forall i :: 0 <= i < |rest| ==> rest[i] != [])
            && |Join(rest)| <= |Join(chunks)|
            && (r.Line? && chunks != [] ==> |Join(rest)| < |Join(chunks)|)
            && (r.Line? && buf == [] ==> chunks != [])
    decreases |chunks|
  {
    if chunks != [] {
      var n := LineLength(chunks[0]);
      if n < |chunks[0]| {
        JoinAdvance(chunks, n + 1);
      } else if |buf| + |chunks[0]| <= max {
        ReadProgress(max, end, buf + chunks[0], chunks[1..]);
      }
    }
  }

  /** `start` is written first. */
  function After(start: seq<Byte>, more: (seq<Byte>, Outcome)): (seq<Byte>, Outcome) {
    (start + more.0, more.1)
  }

  /** Everything the loop would write to a peer that accepts it all, and how it ends. */
  ghost function Served(handle: Handler, max: nat, end: StreamEnd, chunks: seq<seq<Byte>>): (seq<Byte>, Outcome)
    requires forall i :: 0 <= i < |chunks| ==> chunks[i] != []
    decreases |Join(chunks)|
  {
    ReadProgress(max, end, [], chunks);
    var (r, rest) := ReadFrom(max, end, [], chunks);
    match r
    case NoMore => ([], Closed)
    case Failed => ([], ReadError)
    case TooLong => (TOO_LONG_RESPONSE + [NEWLINE], Closed)
    case Line(line) => After(Reply(handle, line), Served(handle, max, end, rest))
  }

  // ---------------------------------------------------------------- the program

  /** The write half: the peer takes `capacity` bytes in all, then writes fail. */
  class WriteHalf {
    var sent: seq<Byte>
    const capacity: nat

    constructor (capacity: nat)
      ensures sent == [] && this.capacity == capacity
    {
      sent, this.capacity := [], capacity;
    }

    method WriteAll(bs: seq<Byte>) returns (ok: bool)
      requires |sent| <= capacity
      modifies this
      ensures sent == Delivered(capacity, old(sent) + bs)
      ensures ok <==> |old(sent) + bs| <= capacity
    {
      ok := |sent| + |bs| <= capacity;
      sent := if ok then sent + bs else (sent + bs)[..capacity];
    }
  }

  /** What reaches a peer that takes `capacity` bytes. */
  function Delivered(capacity: nat, bs: seq<Byte>): seq<Byte> {
    if |bs| <= capacity then bs else bs[..capacity]
  }

  method CheckBlank(line: seq<Byte>) returns (blank: bool)
    ensures blank == IsBlank(line)
  {
    for i := 0 to |line|
      invariant forall j :: 0 <= j < i ==> IsWhitespace(line[j])
    {
      if !IsWhitespace(line[i]) {
        return false;
      }
    }
    return true;
  }

  /** Answers one accepted line; not `ok` when the peer is gone. */
  method WriteReply(handle: Handler, writer: WriteHalf, line: seq<Byte>) returns (ok: bool)
    requires |writer.sent| <= writer.capacity
    modifies writer
    ensures writer.sent == Delivered(writer.capacity, old(writer.sent) + Reply(handle, line))
    ensures ok <==> |old(writer.sent) + Reply(handle, line)| <= writer.capacity
  {
    ok := true;
    var blank := CheckBlank(line);
    if !blank {
      var response := handle(line);
      if response != [] {
        DeliveredTwice(writer.capacity, writer.sent, response, [NEWLINE]);
        ok := writer.WriteAll(response);
        if ok {
          ok := writer.WriteAll([NEWLINE]);
        }
      }
    }
  }

  /** Reads and answers until the stream ends, a line is rejected, reading fails or writing fails. */
  method HandleConnection(handle: Handler, reader: BufReader, writer: WriteHalf) returns (outcome: Outcome)
    requires forall i :: 0 <= i < |reader.chunks| ==> reader.chunks[i] != []
    requires writer.sent == []
    modifies reader, writer
    ensures var (all, ending) := Served(handle, 1_048_576, reader.end, old(reader.chunks));
            && writer.sent == Delivered(writer.capacity, all)
            && writer.sent <= all && |writer.sent| == (if |all| <= writer.capacity then |all| else writer.capacity)
            && outcome == if |all| <= writer.capacity then ending else Closed
  {
    ghost var (all, ending) := Served(handle, MAX_LINE_BYTES, reader.end, reader.chunks);
    while true
      invariant forall i :: 0 <= i < |reader.chunks| ==> reader.chunks[i] != []
      invariant |writer.sent| <= writer.capacity
      invariant writer.sent + Served(handle, MAX_LINE_BYTES, reader.end, reader.chunks).0 == all
      invariant Served(handle, MAX_LINE_BYTES, reader.end, reader.chunks).1 == ending
      decreases |Join(reader.chunks)|
    {
      ghost var sent := writer.sent;
      ReadProgress(MAX_LINE_BYTES, reader.end, [], reader.chunks);
      var r := ReadBoundedLine(reader, MAX_LINE_BYTES);
      match r
      case NoMore =>
        return Closed;
      case Failed =>
        return ReadError;
      case TooLong =>
        DeliveredTwice(writer.capacity, sent, TOO_LONG_RESPONSE, [NEWLINE]);
        var first := writer.WriteAll(TOO_LONG_RESPONSE);
        var second := writer.WriteAll([NEWLINE]);
        return Closed;
      case Line(raw) =>
        DeliveredEnough(writer.capacity, sent, Reply(handle, raw),
                        Served(handle, MAX_LINE_BYTES, reader.end, reader.chunks).0);
        var ok := WriteReply(handle, writer, raw);
        if !ok {
          return Closed;
        }
    }
  }

  lemma DeliveredTwice(capacity: nat, sent: seq<Byte>, a: seq<Byte>, b: seq<Byte>)
    requires |sent| <= capacity
    ensures Delivered(capacity, Delivered(capacity, sent + a) + b) == Delivered(capacity, sent + (a + b))
    ensures |sent + a| > capacity ==> Delivered(capacity, sent + a) == Delivered(capacity, sent + (a + b))
  {
    AppendAssoc(sent, a, b);
    if |sent + a| > capacity {
      CutTwice(sent + a, b, capacity);
    }
  }

  lemma CutTwice(bs: seq<Byte>, more: seq<Byte>, n: nat)
    requires n <= |bs|
    ensures (bs + more)[..n] == bs[..n]
    ensures (bs[..n] + more)[..n] == bs[..n]
  {
  }

  /** A failed write leaves exactly what the peer would have taken of the whole answer. */
  lemma DeliveredEnough(capacity: nat, sent: seq<Byte>, reply: seq<Byte>, more: seq<Byte>)
    requires |sent| <= capacity
    ensures sent + (reply + more) == sent + reply + more
    ensures |sent + reply| > capacity ==> Delivered(capacity, sent + reply) == Delivered(capacity, sent + (reply + more))
  {
  }

  // ---------------------------------------------------------------- over bytes

  /** The same answer as a function of the bytes alone, with an exact cap. */
  ghost function Answer(handle: Handler, max: nat, end: StreamEnd, bs: seq<Byte>): (seq<Byte>, Outcome)
    decreases |bs|
  {
    var n := LineLength(bs);
    if n > max then (TOO_LONG_RESPONSE + [NEWLINE], Closed)
    else if n < |bs| then After(Reply(handle, StripReturn(bs[..n])), Answer(handle, max, end, bs[n + 1..]))
    else if end.Broken? then ([], ReadError)
    else (if bs == [] then [] else Reply(handle, bs), Closed)
  }

  /** No terminated line has a length in the window where the chunking decides. */
  ghost predicate OutsideWindow(max: nat, limit: nat, bs: seq<Byte>)
    decreases |bs|
  {
    var n := LineLength(bs);
    n < |bs| ==> if n <= max then OutsideWindow(max, limit, bs[n + 1..]) else max + limit <= n
  }

  /** The stream is certain to be rejected, and nothing to be answered before: blank lines up to
      one that is too long for every chunking. */
  ghost predicate Doomed(max: nat, limit: nat, bs: seq<Byte>)
    decreases |bs|
  {
    var n := LineLength(bs);
    if n == |bs| then n > max
    else max + limit <= n || (IsBlank(StripReturn(bs[..n])) && Doomed(max, limit, bs[n + 1..]))
  }

  /** The first line whose length lies in the window, if there is one, makes no difference: it is
      blank, and the stream after it is doomed anyway. */
  ghost predicate Settled(max: nat, limit: nat, bs: seq<Byte>)
    decreases |bs|
  {
    var n := LineLength(bs);
    n < |bs| ==>
      if n <= max then Settled(max, limit, bs[n + 1..])
      else max + limit <= n || (IsBlank(StripReturn(bs[..n])) && Doomed(max, limit, bs[n + 1..]))
  }

  lemma {:induction false} OutsideIsSettled(max: nat, limit: nat, bs: seq<Byte>)
    requires OutsideWindow(max, limit, bs)
    ensures Settled(max, limit, bs)
    decreases |bs|
  {
    var n := LineLength(bs);
    if n < |bs| && n <= max {
      OutsideIsSettled(max, limit, bs[n + 1..]);
    }
  }

  lemma LineServed(handle: Handler, max: nat, end: StreamEnd, chunks: seq<seq<Byte>>, line: seq<Byte>, tail: seq<seq<Byte>>)
    requires forall i :: 0 <= i < |chunks| ==> chunks[i] != []
    requires forall i :: 0 <= i < |tail| ==> tail[i] != []
    requires ReadFrom(max, end, [], chunks) == (Line(line), tail)
    ensures Served(handle, max, end, chunks) == After(Reply(handle, line), Served(handle, max, end, tail))
  {
  }

  const Rejection: (seq<Byte>, Outcome) := (TOO_LONG_RESPONSE + [NEWLINE], Closed)

  lemma {:induction false} DoomedServed(handle: Handler, max: nat, limit: nat, end: StreamEnd, chunks: seq<seq<Byte>>)
    requires Chunked(limit, chunks) && Doomed(max, limit, Join(chunks))
    ensures Served(handle, max, end, chunks) == Rejection
    decreases |Join(chunks)|
  {
    var s, n := Join(chunks), LineLength(Join(chunks));
    ReadProgress(max, end, [], chunks);
    if n < |s| {
      LineOutcome(max, limit, end, chunks);
      var (r, rest) := ReadFrom(max, end, [], chunks);
      if r != TooLong {
        var line := StripReturn(s[..n]);
        assert r == Line(line) && Join(rest) == s[n + 1..];
        DoomedServed(handle, max, limit, end, rest);
        LineServed(handle, max, end, chunks, line, rest);
        assert Reply(handle, line) + Rejection.0 == Rejection.0;
      }
    } else {
      UnterminatedLine(max, limit, end, [], chunks);
      assert [] + s == s;
    }
  }

  lemma {:induction false} SettledAnswer(handle: Handler, max: nat, limit: nat, end: StreamEnd,
                                         chunks: seq<seq<Byte>>, s: seq<Byte>)
    requires Chunked(limit, chunks) && Join(chunks) == s && Settled(max, limit, s)
    ensures Served(handle, max, end, chunks) == Answer(handle, max, end, s)
    decreases |s|
  {
    var n := LineLength(s);
    if n == |s| {
      LastLineServed(handle, max, limit, end, chunks);
    } else if n <= max {
      var rest := FittingLine(max, limit, end, chunks);
      SettledAnswer(handle, max, limit, end, rest, s[n + 1..]);
      SameLineServed(handle, max, end, chunks, s, n, rest);
    } else {
      SettledIsDoomed(handle, max, limit, end, s);
      DoomedServed(handle, max, limit, end, chunks);
    }
  }

  /** A connection is a function of the bytes alone, if the stream is settled: for every chunking
      the loop writes the answer of the bytes. */
  lemma ServedIsAnswer(handle: Handler, max: nat, limit: nat, end: StreamEnd, chunks: seq<seq<Byte>>)
    requires Chunked(limit, chunks) && Settled(max, limit, Join(chunks))
    ensures Served(handle, max, end, chunks) == Answer(handle, max, end, Join(chunks))
  {
    SettledAnswer(handle, max, limit, end, chunks, Join(chunks));
  }

  lemma SettledIsDoomed(handle: Handler, max: nat, limit: nat, end: StreamEnd, s: seq<Byte>)
    requires Settled(max, limit, s) && max < LineLength(s) < |s|
    ensures Doomed(max, limit, s) && Answer(handle, max, end, s) == Rejection
  {
  }

  lemma SameLineServed(handle: Handler, max: nat, end: StreamEnd, chunks: seq<seq<Byte>>,
                       s: seq<Byte>, n: nat, rest: seq<seq<Byte>>)
    requires forall i :: 0 <= i < |chunks| ==> chunks[i] != []
    requires forall i :: 0 <= i < |rest| ==> rest[i] != []
    requires LineLength(s) == n && n < |s| && n <= max
    requires ReadFrom(max, end, [], chunks) == (Line(StripReturn(s[..n])), rest)
    requires Served(handle, max, end, rest) == Answer(handle, max, end, s[n + 1..])
    ensures Served(handle, max, end, chunks) == Answer(handle, max, end, s)
  {
  }

  lemma FittingLine(max: nat, limit: nat, end: StreamEnd, chunks: seq<seq<Byte>>) returns (rest: seq<seq<Byte>>)
    requires Chunked(limit, chunks) && LineLength(Join(chunks)) < |Join(chunks)| && LineLength(Join(chunks)) <= max
    ensures var s, n := Join(chunks), LineLength(Join(chunks));
            && Chunked(limit, rest) && Join(rest) == s[n + 1..]
            && ReadFrom(max, end, [], chunks) == (Line(StripReturn(s[..n])), rest)
  {
    LineOutcome(max, limit, end, chunks);
    rest := ReadFrom(max, end, [], chunks).1;
  }

  lemma LastLineServed(handle: Handler, max: nat, limit: nat, end: StreamEnd, chunks: seq<seq<Byte>>)
    requires Chunked(limit, chunks) && LineLength(Join(chunks)) == |Join(chunks)|
    ensures Served(handle, max, end, chunks) == Answer(handle, max, end, Join(chunks))
  {
    var s := Join(chunks);
    ReadProgress(max, end, [], chunks);
    UnterminatedLine(max, limit, end, [], chunks);
    assert [] + s == s;
    assert Served(handle, max, end, []) == ([], if end.Broken? then ReadError else Closed);
    assert Reply(handle, s) + [] == Reply(handle, s);
  }

  // ---------------------------------------------------------------- when the chunking matters

  /** Whatever the requests are answered with, all chunkings of `bs` get the same answer. */
  ghost predicate AnsweredAlike(max: nat, limit: nat, end: StreamEnd, bs: seq<Byte>) {
    forall handle: Handler, xs, ys :: Chunked(limit, xs) && Chunked(limit, ys) && Join(xs) == bs && Join(ys) == bs ==>
      Served(handle, max, end, xs) == Served(handle, max, end, ys)
  }

  /** A handler whose answers cannot be mistaken for a rejection, being longer. */
  function Lengthy(line: seq<Byte>): seq<Byte> { TOO_LONG_RESPONSE + [0] }

  lemma LengthyIsNoRejection(line: seq<Byte>, more: seq<Byte>)
    ensures Rejection.0 != [] && Rejection.0 != Reply(Lengthy, line)
    ensures !IsBlank(line) ==> Reply(Lengthy, line) + more != Rejection.0
  {
    assert !IsBlank(line) ==> |Reply(Lengthy, line)| == |Rejection.0| + 1;
  }

  /** A stream that is not doomed is not rejected in every chunking. */
  lemma {:induction false} NotRejectedSomehow(max: nat, limit: nat, end: StreamEnd, bs: seq<Byte>) returns (chunks: seq<seq<Byte>>)
    requires 0 < limit && !Doomed(max, limit, bs)
    ensures Chunked(limit, chunks) && Join(chunks) == bs
    ensures Served(Lengthy, max, end, chunks) != Rejection
    decreases |bs|
  {
    var n := LineLength(bs);
    if n == |bs| {
      chunks := Singles(bs);
      SinglesAlone(bs);
      SinglesMeaning(bs);
      LastLineServed(Lengthy, max, limit, end, chunks);
      LengthyIsNoRejection(bs, []);
    } else {
      var line, rest, tail := bs[..n], bs[n + 1..], Singles(bs[n + 1..]);
      CutLine(bs);
      SinglesAlone(rest);
      SinglesMeaning(rest);
      if IsBlank(StripReturn(line)) {
        tail := NotRejectedSomehow(max, limit, end, rest);
      }
      chunks := AcceptedSomehow(max, limit, end, line, tail);
      AcceptedIsNotRejected(max, limit, end, chunks, StripReturn(line), tail);
    }
  }

  lemma AcceptedIsNotRejected(max: nat, limit: nat, end: StreamEnd, chunks: seq<seq<Byte>>, line: seq<Byte>, tail: seq<seq<Byte>>)
    requires Chunked(limit, chunks) && Chunked(limit, tail) && ReadFrom(max, end, [], chunks) == (Line(line), tail)
    requires IsBlank(line) ==> Served(Lengthy, max, end, tail) != Rejection
    ensures Served(Lengthy, max, end, chunks) != Rejection
  {
    LineServed(Lengthy, max, end, chunks, line, tail);
    LengthyIsNoRejection(line, Served(Lengthy, max, end, tail).0);
    assert [] + Served(Lengthy, max, end, tail).0 == Served(Lengthy, max, end, tail).0;
  }

  lemma SameStart(start: seq<Byte>, a: (seq<Byte>, Outcome), b: (seq<Byte>, Outcome))
    requires a != b
    ensures After(start, a) != After(start, b)
  {
    assert (start + a.0)[|start|..] == a.0 && (start + b.0)[|start|..] == b.0;
  }

  /** A stream that is not settled has two chunkings with different answers. */
  lemma {:induction false} AnsweredDifferently(max: nat, limit: nat, end: StreamEnd, bs: seq<Byte>)
    returns (xs: seq<seq<Byte>>, ys: seq<seq<Byte>>)
    requires 0 < limit && !Settled(max, limit, bs)
    ensures Chunked(limit, xs) && Chunked(limit, ys) && Join(xs) == bs && Join(ys) == bs
    ensures Served(Lengthy, max, end, xs) != Served(Lengthy, max, end, ys)
    decreases |bs|
  {
    Unsettled(max, limit, bs);
    CutLine(bs);
    var n := LineLength(bs);
    var line, rest := bs[..n], bs[n + 1..];
    if n <= max {
      var a, b := AnsweredDifferently(max, limit, end, rest);
      xs := AcceptedSomehow(max, limit, end, line, a);
      ys := AcceptedSomehow(max, limit, end, line, b);
      DifferentAfterLine(max, limit, end, StripReturn(line), xs, a, ys, b);
    } else {
      xs := NotRejectedSomehow(max, limit, end, bs);
      ys := RejectingChunks(max, limit, end, line, [NEWLINE] + rest);
      RejectionServed(Lengthy, max, limit, end, ys);
    }
  }

  lemma Unsettled(max: nat, limit: nat, bs: seq<Byte>)
    requires 0 < limit && !Settled(max, limit, bs)
    ensures LineLength(bs) < |bs| && LineLength(bs) < max + limit
    ensures if LineLength(bs) <= max then !Settled(max, limit, bs[LineLength(bs) + 1..]) else !Doomed(max, limit, bs)
  {
  }

  lemma RejectionServed(handle: Handler, max: nat, limit: nat, end: StreamEnd, chunks: seq<seq<Byte>>)
    requires Chunked(limit, chunks) && ReadFrom(max, end, [], chunks).0 == TooLong
    ensures Served(handle, max, end, chunks) == Rejection
  {
  }

  lemma DifferentAfterLine(max: nat, limit: nat, end: StreamEnd, line: seq<Byte>,
                           xs: seq<seq<Byte>>, a: seq<seq<Byte>>, ys: seq<seq<Byte>>, b: seq<seq<Byte>>)
    requires Chunked(limit, xs) && Chunked(limit, a) && Chunked(limit, ys) && Chunked(limit, b)
    requires ReadFrom(max, end, [], xs) == (Line(line), a) && ReadFrom(max, end, [], ys) == (Line(line), b)
    requires Served(Lengthy, max, end, a) != Served(Lengthy, max, end, b)
    ensures Served(Lengthy, max, end, xs) != Served(Lengthy, max, end, ys)
  {
    LineServed(Lengthy, max, end, xs, line, a);
    LineServed(Lengthy, max, end, ys, line, b);
    SameStart(Reply(Lengthy, line), Served(Lengthy, max, end, a), Served(Lengthy, max, end, b));
  }

  lemma SettledServedAlike(handle: Handler, max: nat, limit: nat, end: StreamEnd, xs: seq<seq<Byte>>, ys: seq<seq<Byte>>)
    requires Chunked(limit, xs) && Chunked(limit, ys) && Join(xs) == Join(ys) && Settled(max, limit, Join(xs))
    ensures Served(handle, max, end, xs) == Served(handle, max, end, ys)
  {
    ServedIsAnswer(handle, max, limit, end, xs);
    ServedIsAnswer(handle, max, limit, end, ys);
  }

  /** All chunkings of a stream get the same answer, whatever the requests are answered with, if
      and only if the stream is settled. */
  lemma AnsweredAlikeIff(max: nat, limit: nat, end: StreamEnd, bs: seq<Byte>)
    requires 0 < limit
    ensures AnsweredAlike(max, limit, end, bs) <==> Settled(max, limit, bs)
  {
    if Settled(max, limit, bs) {
      forall handle: Handler, xs, ys | Chunked(limit, xs) && Chunked(limit, ys) && Join(xs) == bs && Join(ys) == bs
        ensures Served(handle, max, end, xs) == Served(handle, max, end, ys)
      {
        SettledServedAlike(handle, max, limit, end, xs, ys);
      }
    } else {
      var xs, ys := AnsweredDifferently(max, limit, end, bs);
    }
  }

  /** The usual case: two chunkings of a stream without lines in the window get the same answer. */
  lemma ChunkingDoesNotMatter(handle: Handler, max: nat, limit: nat, end: StreamEnd, xs: seq<seq<Byte>>, ys: seq<seq<Byte>>)
    requires Chunked(limit, xs) && Chunked(limit, ys) && Join(xs) == Join(ys)
    requires OutsideWindow(max, limit, Join(xs))
    ensures Served(handle, max, end, xs) == Served(handle, max, end, ys)
  {
    OutsideIsSettled(max, limit, Join(xs));
    SettledServedAlike(handle, max, limit, end, xs, ys);
  }

  // ---------------------------------------------------------------- all lines fit

  /** The lines of a stream: one for each newline, without an optional carriage return before it,
      and the unterminated rest if it is not empty. */
  function LinesOf(bs: seq<Byte>): seq<seq<Byte>>
    decreases |bs|
  {
    var n := LineLength(bs);
    if n < |bs| then [StripReturn(bs[..n])] + LinesOf(bs[n + 1..])
    else if bs == [] then []
    else [bs]
  }

  ghost predicate AllFit(max: nat, bs: seq<Byte>)
    decreases |bs|
  {
    var n := LineLength(bs);
    n <= max && (n < |bs| ==> AllFit(max, bs[n + 1..]))
  }

  function Replies(handle: Handler, lines: seq<seq<Byte>>): seq<Byte> {
    if lines == [] then [] else Reply(handle, lines[0]) + Replies(handle, lines[1..])
  }

  lemma OneReply(handle: Handler, line: seq<Byte>)
    ensures Replies(handle, [line]) == Reply(handle, line)
  {
    assert Replies(handle, [line][1..]) == [];
    assert Reply(handle, line) + [] == Reply(handle, line);
  }

  lemma {:induction false} AnswerIsReplies(handle: Handler, max: nat, bs: seq<Byte>)
    requires AllFit(max, bs)
    ensures Answer(handle, max, Eof, bs) == (Replies(handle, LinesOf(bs)), Closed)
    decreases |bs|
  {
    var n := LineLength(bs);
    if n < |bs| {
      AnswerIsReplies(handle, max, bs[n + 1..]);
      assert LinesOf(bs)[1..] == LinesOf(bs[n + 1..]);
    } else if bs == [] {
      assert LinesOf(bs) == [];
    } else {
      OneReply(handle, bs);
    }
  }

  lemma {:induction false} FittingIsSettled(max: nat, limit: nat, bs: seq<Byte>)
    requires AllFit(max, bs)
    ensures Settled(max, limit, bs)
    decreases |bs|
  {
    if LineLength(bs) < |bs| {
      FittingIsSettled(max, limit, bs[LineLength(bs) + 1..]);
    }
  }

  /** When every line fits the cap, the loop answers every line in order, the unterminated last
      one included, whatever the chunking. */
  lemma EveryLineAnswered(handle: Handler, max: nat, limit: nat, chunks: seq<seq<Byte>>)
    requires Chunked(limit, chunks) && AllFit(max, Join(chunks))
    ensures Served(handle, max, Eof, chunks) == (Replies(handle, LinesOf(Join(chunks))), Closed)
  {
    FittingIsSettled(max, limit, Join(chunks));
    ServedIsAnswer(handle, max, limit, Eof, chunks);
    AnswerIsReplies(handle, max, Join(chunks));
  }

  // ---------------------------------------------------------------- in plain terms

  /** `bs` cut at every byte 10: the last piece is what follows the last of them. */
  function Pieces(bs: seq<Byte>): (pieces: seq<seq<Byte>>)
    ensures pieces != []
  {
    if bs == [] then [[]]
    else
      var more := Pieces(bs[1..]);
      if bs[0] == 10 then [[]] + more else [[bs[0]] + more[0]] + more[1..]
  }

  /** A terminated line without one byte 13 at its end. */
  function WithoutReturn(line: seq<Byte>): seq<Byte> {
    if line != [] && line[|line| - 1] == 13 then line[..|line| - 1] else line
  }

  /** The requests in a stream: its terminated lines, and what follows the last newline if that
      is not empty. */
  function Requests(bs: seq<Byte>): seq<seq<Byte>> {
    var pieces := Pieces(bs);
    Map(WithoutReturn, pieces[..|pieces| - 1]) + if pieces[|pieces| - 1] == [] then [] else [pieces[|pieces| - 1]]
  }

  /** Requests that get an answer: not made of white space, and with a response that is not empty. */
  ghost function Answered(handle: Handler): seq<Byte> -> bool {
    (line: seq<Byte>) => (exists b :: b in line && b !in {0x09, 0x0A, 0x0C, 0x0D, 0x20}) && handle(line) != []
  }

  ghost function Response(handle: Handler): seq<Byte> -> seq<Byte> {
    (line: seq<Byte>) => handle(line) + [10]
  }

  lemma {:induction false} PiecesOfLine(line: seq<Byte>, rest: seq<Byte>)
    requires 10 !in line
    ensures Pieces(line + ([10] + rest)) == [line] + Pieces(rest)
  {
    var bs := line + ([10] + rest);
    if line == [] {
      assert bs[1..] == rest;
    } else {
      assert line == [line[0]] + line[1..] && bs[1..] == line[1..] + ([10] + rest);
      PiecesOfLine(line[1..], rest);
    }
  }

  lemma {:induction false} PieceAlone(line: seq<Byte>)
    requires 10 !in line
    ensures Pieces(line) == [line]
  {
    if line != [] {
      assert line == [line[0]] + line[1..];
      PieceAlone(line[1..]);
    }
  }

  lemma RequestsOfLine(line: seq<Byte>, rest: seq<Byte>)
    requires 10 !in line
    ensures Requests(line + ([10] + rest)) == [WithoutReturn(line)] + Requests(rest)
  {
    var pieces := Pieces(rest);
    PiecesOfLine(line, rest);
    var all := [line] + pieces;
    assert all[..|all| - 1] == [line] + pieces[..|pieces| - 1] && all[|all| - 1] == pieces[|pieces| - 1];
    MapAppend(WithoutReturn, [line], pieces[..|pieces| - 1]);
    assert Map(WithoutReturn, [line]) == [WithoutReturn(line)];
    AppendAssoc([WithoutReturn(line)], Map(WithoutReturn, pieces[..|pieces| - 1]),
                if pieces[|pieces| - 1] == [] then [] else [pieces[|pieces| - 1]]);
  }

  lemma {:induction false} LinesAreRequests(bs: seq<Byte>)
    ensures LinesOf(bs) == Requests(bs)
    decreases |bs|
  {
    var n := LineLength(bs);
    if n < |bs| {
      CutLine(bs);
      LinesAreRequests(bs[n + 1..]);
      RequestsOfLine(bs[..n], bs[n + 1..]);
      StripReturnSpelled(bs[..n]);
    } else {
      NoNewline(bs);
      PieceAlone(bs);
      assert Map(WithoutReturn, Pieces(bs)[..0]) == [];
    }
  }

  lemma ReplySpelled(handle: Handler, line: seq<Byte>)
    ensures Reply(handle, line) == if Answered(handle)(line) then handle(line) + [10] else []
  {
    if exists b :: b in line && b !in {0x09, 0x0A, 0x0C, 0x0D, 0x20} {
      var b :| b in line && b !in {0x09, 0x0A, 0x0C, 0x0D, 0x20};
      var i :| 0 <= i < |line| && line[i] == b;
      assert !IsWhitespace(line[i]);
    } else {
      forall i | 0 <= i < |line|
        ensures IsWhitespace(line[i])
      {
        assert line[i] in line;
      }
    }
  }

  lemma {:induction false} RepliesSpelled(handle: Handler, lines: seq<seq<Byte>>)
    ensures Replies(handle, lines) == FlatMap(Response(handle), Filter(Answered(handle), lines))
  {
    if lines == [] {
      assert FlatMap(Response(handle), Filter(Answered(handle), lines)) == [];
    } else {
      var line, more := lines[0], Filter(Answered(handle), lines[1..]);
      assert lines == [line] + lines[1..];
      RepliesSpelled(handle, lines[1..]);
      ReplySpelled(handle, line);
      FilterCons(Answered(handle), line, lines[1..]);
      if Answered(handle)(line) {
        FlatMapCons(Response(handle), line, more);
      } else {
        assert [] + more == more && [] + Replies(handle, lines[1..]) == Replies(handle, lines[1..]);
      }
    }
  }

  /** What is written, in plain terms: when every line fits the cap, the responses to the requests
      that get one, in order, each followed by a byte 10. */
  lemma ResponsesInOrder(handle: Handler, max: nat, limit: nat, chunks: seq<seq<Byte>>)
    requires Chunked(limit, chunks) && forall line :: line in Pieces(Join(chunks)) ==> |line| <= max
    ensures Served(handle, max, Eof, chunks).0 ==
            FlatMap(Response(handle), Filter(Answered(handle), Requests(Join(chunks))))
    ensures Served(handle, max, Eof, chunks).1 == Closed
  {
    ShortPiecesFit(max, Join(chunks));
    EveryLineAnswered(handle, max, limit, chunks);
    LinesAreRequests(Join(chunks));
    RepliesSpelled(handle, LinesOf(Join(chunks)));
  }

  lemma {:induction false} ShortPiecesFit(max: nat, bs: seq<Byte>)
    requires forall line :: line in Pieces(bs) ==> |line| <= max
    ensures AllFit(max, bs)
    decreases |bs|
  {
    var n := LineLength(bs);
    if n < |bs| {
      CutLine(bs);
      PiecesOfLine(bs[..n], bs[n + 1..]);
      assert bs[..n] == ([bs[..n]] + Pieces(bs[n + 1..]))[0];
      ShortPiecesFit(max, bs[n + 1..]);
    } else {
      NoNewline(bs);
      PieceAlone(bs);
      assert bs == [bs][0];
    }
  }

  lemma {:induction false} PiecesOfResponses(f: seq<Byte> -> seq<Byte>, lines: seq<seq<Byte>>)
    requires forall line :: line in lines ==> 10 !in f(line)
    ensures Pieces(FlatMap(Response(f), lines)) == Map(f, lines) + [[]]
  {
    if lines == [] {
      assert FlatMap(Response(f), lines) == [];
      assert Map(f, lines) + [[]] == [[]];
    } else {
      var line, more := lines[0], lines[1..];
      assert lines == [line] + more;
      PiecesOfResponses(f, more);
      FlatMapCons(Response(f), line, more);
      AppendAssoc(f(line), [10], FlatMap(Response(f), more));
      PiecesOfLine(f(line), FlatMap(Response(f), more));
      MapAppend(f, [line], more);
      assert Map(f, [line]) == [f(line)];
      AppendAssoc([f(line)], Map(f, more), [[]]);
    }
  }

  /** A peer that cuts what it receives at byte 10 gets the responses themselves, if none of them
      contains that byte. */
  lemma ResponsesReadBack(handle: Handler, max: nat, limit: nat, chunks: seq<seq<Byte>>)
    requires Chunked(limit, chunks) && forall line :: line in Pieces(Join(chunks)) ==> |line| <= max
    requires forall line :: 10 !in handle(line)
    ensures Pieces(Served(handle, max, Eof, chunks).0) ==
            Map(handle, Filter(Answered(handle), Requests(Join(chunks)))) + [[]]
  {
    ResponsesInOrder(handle, max, limit, chunks);
    PiecesOfResponses(handle, Filter(Answered(handle), Requests(Join(chunks))));
  }

  /** What is written for an over-long line, spelled out. */
  lemma RejectionSpelled()
    ensures Rejection == (Map((c: char) => c as int % 256,
      "{\"jsonrpc\":\"2.0\",\"id\":null,\"error\":{\"code\":-32700,\"message\":\"line exceeded maximum length\"}}") + [10], Closed)
  {
  }
}
