// The bounded line reader of the daemon: crates/habitat-graph-daemon/src/uds.rs:209-284.
// A stream arrives cut into chunks; the reader sees one chunk (or what is left of it) at a time.

module LineReader {
  import opened Bytes
  import opened Lists
  import opened Schema

  const NEWLINE: Byte := 10
  const CARRIAGE_RETURN: Byte := 13

  /** How the stream ends after its last byte: cleanly, or with a read error. */
  datatype StreamEnd = Eof | Broken

  datatype ReadResult = NoMore | Line(bytes: seq<Byte>) | TooLong | Failed

  function Join(chunks: seq<seq<Byte>>): seq<Byte> {
    if chunks == [] then [] else chunks[0] + Join(chunks[1..])
  }

  /** Chunks a buffered reader hands out: never empty, never longer than its buffer. */
  ghost predicate Chunked(limit: nat, chunks: seq<seq<Byte>>) {
    forall i :: 0 <= i < |chunks| ==> 0 < |chunks[i]| <= limit
  }

  /** The position of the first newline from `i` on; the end if there is none. */
  function NewlineFrom(bs: seq<Byte>, i: nat): (n: nat)
    requires i <= |bs|
    ensures i <= n <= |bs| && (n < |bs| ==> bs[n] == NEWLINE)
    ensures forall j :: i <= j < n ==> bs[j] != NEWLINE
    decreases |bs| - i
  {
    if i == |bs| || bs[i] == NEWLINE then i else NewlineFrom(bs, i + 1)
  }

  /** The number of bytes before the first newline; all of them if there is none. */
  function LineLength(bs: seq<Byte>): (n: nat)
    ensures n <= |bs|
  {
    NewlineFrom(bs, 0)
  }

  lemma LineLengthMeaning(bs: seq<Byte>)
    ensures NEWLINE !in bs[..LineLength(bs)]
    ensures LineLength(bs) < |bs| ==> bs[LineLength(bs)] == NEWLINE
  {
  }

  function StripReturn(line: seq<Byte>): seq<Byte> {
    if line != [] && Last(line) == CARRIAGE_RETURN then Init(line) else line
  }

  /** The chunks left after consuming `n` bytes of the first one. */
  function Advance(chunks: seq<seq<Byte>>, n: nat): seq<seq<Byte>>
    requires chunks != [] && n <= |chunks[0]|
  {
    if n == |chunks[0]| then chunks[1..] else [chunks[0][n..]] + chunks[1..]
  }

  /** One call of the reader with `buf` accumulated so far: its result and the chunks left. */
  function ReadFrom(max: nat, end: StreamEnd, buf: seq<Byte>, chunks: seq<seq<Byte>>): (ReadResult, seq<seq<Byte>>)
    decreases |chunks|
  {
    if chunks == [] then
      (if end.Broken? then Failed else if buf == [] then NoMore else Line(buf), [])
    else
      var n := LineLength(chunks[0]);
      if n < |chunks[0]| then (Line(StripReturn(buf + chunks[0][..n])), Advance(chunks, n + 1))
      else if |buf| + |chunks[0]| > max then (TooLong, chunks)
      else ReadFrom(max, end, buf + chunks[0], chunks[1..])
  }

  // ---------------------------------------------------------------- the program

  class BufReader {
    var chunks: seq<seq<Byte>>
    const end: StreamEnd

    constructor (chunks: seq<seq<Byte>>, end: StreamEnd)
      ensures this.chunks == chunks && this.end == end
    {
      this.chunks, this.end := chunks, end;
    }

    /** The unread bytes at hand; empty at end of stream; None on a read error. */
    method FillBuf() returns (avail: Option<seq<Byte>>)
      ensures avail == if chunks != [] then Some(chunks[0]) else if end.Eof? then Some([]) else None
    {
      avail := if chunks != [] then Some(chunks[0]) else if end.Eof? then Some([]) else None;
    }

    method Consume(n: nat)
      requires chunks != [] && n <= |chunks[0]|
      modifies this
      ensures chunks == Advance(old(chunks), n)
    {
      chunks := if n == |chunks[0]| then chunks[1..] else [chunks[0][n..]] + chunks[1..];
    }
  }

  method NewlinePosition(bs: seq<Byte>) returns (pos: Option<nat>)
    ensures pos == if LineLength(bs) < |bs| then Some(LineLength(bs)) else None
  {
    for i := 0 to |bs|
      invariant NEWLINE !in bs[..i]
    {
      if bs[i] == NEWLINE {
        LineLengthIs(bs, i);
        return Some(i);
      }
      assert bs[..i + 1] == bs[..i] + [bs[i]];
    }
    assert bs[..|bs|] == bs;
    LineLengthMeaning(bs);
    if LineLength(bs) < |bs| { assert false; }
    return None;
  }

  lemma LineLengthIs(bs: seq<Byte>, n: nat)
    requires n < |bs| && bs[n] == NEWLINE && NEWLINE !in bs[..n]
    ensures LineLength(bs) == n
  {
    forall j | 0 <= j < n
      ensures bs[j] != NEWLINE
    {
      assert bs[j] == bs[..n][j];
    }
  }

  lemma NoNewline(bs: seq<Byte>)
    ensures LineLength(bs) == |bs| <==> NEWLINE !in bs
  {
    LineLengthMeaning(bs);
    assert LineLength(bs) < |bs| ==> bs[LineLength(bs)] in bs;
    assert bs[..|bs|] == bs;
  }

  method ReadBoundedLine(reader: BufReader, max: nat) returns (r: ReadResult)
    requires forall i :: 0 <= i < |reader.chunks| ==> reader.chunks[i] != []
    modifies reader
    ensures (r, reader.chunks) == ReadFrom(max, reader.end, [], old(reader.chunks))
  {
    var buf: seq<Byte> := [];
    while true
      invariant forall i :: 0 <= i < |reader.chunks| ==> reader.chunks[i] != []
      invariant ReadFrom(max, reader.end, buf, reader.chunks) == ReadFrom(max, reader.end, [], old(reader.chunks))
      decreases |reader.chunks|
    {
      var foundNewline, consumeLen := false, 0;
      var avail := reader.FillBuf();
      if avail.None? {
        return Failed;
      }
      if avail.value == [] {
        return if buf == [] then NoMore else Line(buf);
      }
      var chunkLen := |avail.value|;
      var pos := NewlinePosition(avail.value);
      if pos.Some? {
        buf := buf + avail.value[..pos.value];
        foundNewline, consumeLen := true, pos.value + 1;
      } else if |buf| + chunkLen > max {
        foundNewline, consumeLen := false, 0;
      } else {
        buf := buf + avail.value;
        foundNewline, consumeLen := false, chunkLen;
      }
      if foundNewline {
        reader.Consume(consumeLen);
        if buf != [] && Last(buf) == CARRIAGE_RETURN {
          buf := Init(buf);
        }
        return Line(buf);
      }
      if consumeLen == 0 {
        return TooLong;
      }
      reader.Consume(consumeLen);
    }
  }

  // ---------------------------------------------------------------- what a call means for the bytes

  lemma JoinCons(chunk: seq<Byte>, chunks: seq<seq<Byte>>)
    ensures Join([chunk] + chunks) == chunk + Join(chunks)
  {
    assert ([chunk] + chunks)[1..] == chunks;
  }

  lemma DropFromFirst(a: seq<Byte>, b: seq<Byte>, n: nat)
    requires n <= |a|
    ensures (a + b)[n..] == a[n..] + b
  {
  }

  lemma JoinAdvance(chunks: seq<seq<Byte>>, n: nat)
    requires chunks != [] && n <= |chunks[0]|
    ensures Join(Advance(chunks, n)) == Join(chunks)[n..]
  {
    DropFromFirst(chunks[0], Join(chunks[1..]), n);
    if n < |chunks[0]| {
      JoinCons(chunks[0][n..], chunks[1..]);
    } else {
      assert chunks[0][n..] + Join(chunks[1..]) == Join(chunks[1..]);
    }
  }

  lemma LineLengthAppend(xs: seq<Byte>, ys: seq<Byte>)
    ensures LineLength(xs + ys) == if LineLength(xs) < |xs| then LineLength(xs) else |xs| + LineLength(ys)
  {
    var m, n := LineLength(xs), LineLength(ys);
    LineLengthMeaning(xs);
    LineLengthMeaning(ys);
    if m < |xs| {
      assert (xs + ys)[..m] == xs[..m];
      LineLengthIs(xs + ys, m);
    } else if n < |ys| {
      assert (xs + ys)[..|xs| + n] == xs[..m] + ys[..n];
      LineLengthIs(xs + ys, |xs| + n);
    } else {
      NoNewline(xs);
      NoNewline(ys);
      NoNewline(xs + ys);
    }
  }

  /** The outcome of a call on a terminated line of `n` bytes (with those in `buf`): the exact
      line, the rest of the stream being exactly what follows the newline, or a rejection. */
  ghost predicate LineOrRejected(max: nat, limit: nat, line: seq<Byte>, after: seq<Byte>, r: ReadResult, rest: seq<seq<Byte>>) {
    && (r == TooLong || (r == Line(StripReturn(line)) && Join(rest) == after))
    && (|line| <= max ==> r != TooLong)
    && (|line| >= max + limit ==> r == TooLong)
    && Chunked(limit, rest)
  }

  lemma AdvanceChunked(limit: nat, chunks: seq<seq<Byte>>, n: nat)
    requires Chunked(limit, chunks) && chunks != [] && n <= |chunks[0]|
    ensures Chunked(limit, Advance(chunks, n))
  {
    var rest := Advance(chunks, n);
    forall i | 0 <= i < |rest|
      ensures 0 < |rest[i]| <= limit
    {
      if n == |chunks[0]| { assert rest[i] == chunks[i + 1]; }
      else if i > 0 { assert rest[i] == chunks[i]; }
    }
  }

  lemma TailChunked(limit: nat, chunks: seq<seq<Byte>>)
    requires Chunked(limit, chunks) && chunks != []
    ensures Chunked(limit, chunks[1..])
  {
    assert forall i :: 0 <= i < |chunks[1..]| ==> chunks[1..][i] == chunks[i + 1];
  }

  lemma Overlap(a: seq<Byte>, b: seq<Byte>, c: seq<Byte>, d: seq<Byte>)
    requires a + b == c + d && |a| <= |c|
    ensures c == a + c[|a|..]
    ensures b == c[|a|..] + d
  {
    assert c[..|a|] == (a + b)[..|a|] == a;
    assert b == (c + d)[|a|..];
  }

  /** A terminated line ends inside the first chunk `c` of its stream, or `c` is a part of it. */
  lemma LineEndsInside(c: seq<Byte>, rest: seq<Byte>, line: seq<Byte>, after: seq<Byte>)
    requires NEWLINE !in line && c + rest == line + ([NEWLINE] + after) && |line| < |c|
    ensures LineLength(c) == |line| && c[..|line|] == line
    ensures (c + rest)[|line| + 1..] == after
  {
    var tail := c[|line|..];
    Overlap(line, [NEWLINE] + after, c, rest);
    DropLine(line, after);
    assert tail[0] == ([NEWLINE] + after)[0];
    LineBeforeTail(line, tail);
  }

  lemma LineBeforeTail(line: seq<Byte>, tail: seq<Byte>)
    requires NEWLINE !in line && tail != [] && tail[0] == NEWLINE
    ensures LineLength(line + tail) == |line| && (line + tail)[..|line|] == line
  {
    assert (line + tail)[..|line|] == line;
    LineLengthIs(line + tail, |line|);
  }

  lemma DropLine(line: seq<Byte>, after: seq<Byte>)
    ensures (line + ([NEWLINE] + after))[|line| + 1..] == after
  {
  }

  lemma LineGoesOn(c: seq<Byte>, rest: seq<Byte>, line: seq<Byte>, after: seq<Byte>)
    requires NEWLINE !in line && c + rest == line + ([NEWLINE] + after) && |c| <= |line|
    ensures LineLength(c) == |c|
    ensures line == c + line[|c|..] && rest == line[|c|..] + ([NEWLINE] + after)
  {
    Overlap(c, rest, line, [NEWLINE] + after);
    LineLengthMeaning(c);
    forall i | 0 <= i < |c|
      ensures c[i] != NEWLINE
    {
      assert c[i] == line[i];
    }
  }

  /** The bytes that arrive before the chunk with the first newline. */
  function Early(chunks: seq<seq<Byte>>): nat {
    if chunks == [] || LineLength(chunks[0]) < |chunks[0]| then 0 else |chunks[0]| + Early(chunks[1..])
  }

  lemma {:induction false} LineRead(max: nat, limit: nat, end: StreamEnd, buf: seq<Byte>, chunks: seq<seq<Byte>>,
                                    line: seq<Byte>, after: seq<Byte>)
    requires Chunked(limit, chunks) && |buf| <= max
    requires NEWLINE !in line && Join(chunks) == line + ([NEWLINE] + after)
    ensures var (r, left) := ReadFrom(max, end, buf, chunks);
            && LineOrRejected(max, limit, buf + line, after, r, left)
            && (r == TooLong <==> |buf| + Early(chunks) > max)
            && Early(chunks) <= |line| < Early(chunks) + limit
    decreases |chunks|
  {
    var c, rest := chunks[0], Join(chunks[1..]);
    if |line| < |c| {
      LineEndsInside(c, rest, line, after);
      JoinAdvance(chunks, |line| + 1);
      AdvanceChunked(limit, chunks, |line| + 1);
    } else {
      LineGoesOn(c, rest, line, after);
      TailChunked(limit, chunks);
      if |buf| + |c| <= max {
        AppendAssoc(buf, c, line[|c|..]);
        LineRead(max, limit, end, buf + c, chunks[1..], line[|c|..], after);
      } else {
        EarlyBytes(limit, chunks[1..], line[|c|..], after);
      }
    }
  }

  lemma {:induction false} EarlyBytes(limit: nat, chunks: seq<seq<Byte>>, line: seq<Byte>, after: seq<Byte>)
    requires Chunked(limit, chunks) && NEWLINE !in line && Join(chunks) == line + ([NEWLINE] + after)
    ensures Early(chunks) <= |line| < Early(chunks) + limit
    decreases |chunks|
  {
    var c, rest := chunks[0], Join(chunks[1..]);
    if |line| < |c| {
      LineEndsInside(c, rest, line, after);
    } else {
      LineGoesOn(c, rest, line, after);
      TailChunked(limit, chunks);
      EarlyBytes(limit, chunks[1..], line[|c|..], after);
    }
  }

  lemma LineOutcome(max: nat, limit: nat, end: StreamEnd, chunks: seq<seq<Byte>>)
    requires Chunked(limit, chunks) && LineLength(Join(chunks)) < |Join(chunks)|
    ensures var s, n, (r, left) := Join(chunks), LineLength(Join(chunks)), ReadFrom(max, end, [], chunks);
            && LineOrRejected(max, limit, s[..n], s[n + 1..], r, left)
            && (r == TooLong <==> Early(chunks) > max)
            && Early(chunks) <= n < Early(chunks) + limit
  {
    var s, n := Join(chunks), LineLength(Join(chunks));
    CutLine(s);
    LineRead(max, limit, end, [], chunks, s[..n], s[n + 1..]);
    assert [] + s[..n] == s[..n];
  }

  /** A call accepts every terminated line of at most `max` bytes and rejects every one of at
      least `max + limit` bytes. In between the chunking decides, as follows: it rejects the line
      exactly if more than `max` bytes arrive before the chunk with the newline. The line ends
      before the first byte 10, and loses one byte 13 at its end. */
  lemma TerminatedLine(max: nat, limit: nat, end: StreamEnd, chunks: seq<seq<Byte>>)
    requires Chunked(limit, chunks) && LineLength(Join(chunks)) < |Join(chunks)|
    ensures var s, n, (r, left) := Join(chunks), LineLength(Join(chunks)), ReadFrom(max, end, [], chunks);
            && LineOrRejected(max, limit, s[..n], s[n + 1..], r, left)
            && (r == TooLong <==> Early(chunks) > max)
            && Early(chunks) <= n < Early(chunks) + limit
            && s[n] == 10 && 10 !in s[..n]
            && (r.Line? ==> s[..n] == r.bytes + ReturnAtEnd(s[..n]))
  {
    var s, n := Join(chunks), LineLength(Join(chunks));
    LineOutcome(max, limit, end, chunks);
    CutLine(s);
    StripReturnSpelled(s[..n]);
  }

  function ReturnAtEnd(line: seq<Byte>): seq<Byte> {
    if line != [] && line[|line| - 1] == 13 then [13] else []
  }

  lemma StripReturnSpelled(line: seq<Byte>)
    ensures line == StripReturn(line) + ReturnAtEnd(line)
  {
  }

  lemma CutLine(s: seq<Byte>)
    requires LineLength(s) < |s|
    ensures var n := LineLength(s);
            NEWLINE !in s[..n] && s == s[..n] + ([NEWLINE] + s[n + 1..])
  {
    LineLengthMeaning(s);
  }

  /** The call for a stream without newline: accepted whole up to exactly `max` bytes. */
  lemma {:induction false} UnterminatedLine(max: nat, limit: nat, end: StreamEnd, buf: seq<Byte>, chunks: seq<seq<Byte>>)
    requires Chunked(limit, chunks) && |buf| <= max
    requires LineLength(Join(chunks)) == |Join(chunks)|
    ensures var all := buf + Join(chunks);
            var (r, rest) := ReadFrom(max, end, buf, chunks);
            if |all| > max then r == TooLong && Chunked(limit, rest)
            else rest == [] && r == if end.Broken? then Failed else if all == [] then NoMore else Line(all)
    decreases |chunks|
  {
    if chunks == [] {
      assert buf + [] == buf;
    } else {
      LineLengthAppend(chunks[0], Join(chunks[1..]));
      if |buf| + |chunks[0]| <= max {
        TailChunked(limit, chunks);
        UnterminatedLine(max, limit, end, buf + chunks[0], chunks[1..]);
        assert buf + Join(chunks) == buf + chunks[0] + Join(chunks[1..]);
      }
    }
  }

  /** No accepted line exceeds `max + limit - 1` bytes, and an accepted call consumes at least a byte. */
  lemma AcceptedLine(max: nat, limit: nat, end: StreamEnd, chunks: seq<seq<Byte>>)
    requires Chunked(limit, chunks)
    ensures var (r, rest) := ReadFrom(max, end, [], chunks);
            && Chunked(limit, rest)
            && (r.Line? ==> |r.bytes| < max + limit && |Join(rest)| < |Join(chunks)|)
            && (r.NoMore? || r.Failed? ==> rest == [])
  {
    if LineLength(Join(chunks)) < |Join(chunks)| {
      LineOutcome(max, limit, end, chunks);
    } else {
      UnterminatedLine(max, limit, end, [], chunks);
      assert [] + Join(chunks) == Join(chunks);
      if chunks != [] { assert 0 < |chunks[0]| <= limit; }
    }
  }

  // ---------------------------------------------------------------- between the two thresholds

  function Singles(bs: seq<Byte>): seq<seq<Byte>> {
    if bs == [] then [] else [[bs[0]]] + Singles(bs[1..])
  }

  lemma {:induction false} SinglesMeaning(bs: seq<Byte>)
    ensures |Singles(bs)| == |bs| && forall i :: 0 <= i < |bs| ==> Singles(bs)[i] == [bs[i]]
  {
    if bs != [] {
      SinglesMeaning(bs[1..]);
    }
  }

  lemma {:induction false} JoinSingles(bs: seq<Byte>, tail: seq<seq<Byte>>)
    ensures Join(Singles(bs) + tail) == bs + Join(tail)
  {
    if bs == [] {
      assert Singles(bs) + tail == tail;
    } else {
      JoinSingles(bs[1..], tail);
      JoinCons([bs[0]], Singles(bs[1..]) + tail);
      AppendAssoc([[bs[0]]], Singles(bs[1..]), tail);
      AppendAssoc([bs[0]], bs[1..], Join(tail));
      assert bs == [bs[0]] + bs[1..];
    }
  }

  lemma SinglesChunked(limit: nat, bs: seq<Byte>, tail: seq<seq<Byte>>)
    requires limit > 0 && Chunked(limit, tail)
    ensures Chunked(limit, Singles(bs) + tail)
  {
    SinglesMeaning(bs);
  }

  lemma SinglesAlone(bs: seq<Byte>)
    ensures Join(Singles(bs)) == bs
  {
    JoinSingles(bs, []);
    assert Singles(bs) + [] == Singles(bs) && bs + [] == bs;
  }

  lemma FirstSingle(bs: seq<Byte>, tail: seq<seq<Byte>>)
    requires bs != []
    ensures (Singles(bs) + tail)[0] == [bs[0]] && (Singles(bs) + tail)[1..] == Singles(bs[1..]) + tail
  {
  }

  lemma {:induction false} ReadSingles(max: nat, end: StreamEnd, buf: seq<Byte>, bs: seq<Byte>, tail: seq<seq<Byte>>)
    requires NEWLINE !in bs && |buf| <= max
    ensures if |buf| + |bs| <= max
            then ReadFrom(max, end, buf, Singles(bs) + tail) == ReadFrom(max, end, buf + bs, tail)
            else ReadFrom(max, end, buf, Singles(bs) + tail).0 == TooLong
    decreases |bs|
  {
    if bs == [] {
      assert Singles(bs) + tail == tail && buf + bs == buf;
    } else {
      var x, rest := [bs[0]], bs[1..];
      FirstSingle(bs, tail);
      assert LineLength(x) == 1;
      if |buf| < max {
        ReadSingles(max, end, buf + x, rest, tail);
        AppendAssoc(buf, x, rest);
        assert bs == x + rest;
      }
    }
  }

  /** A chunk boundary after at most `max` bytes: the line is accepted, and what follows it is
      left as it is chunked. */
  lemma AcceptingChunks(max: nat, limit: nat, end: StreamEnd, head: seq<Byte>, mid: seq<Byte>, tail: seq<seq<Byte>>)
    returns (yes: seq<seq<Byte>>)
    requires NEWLINE !in head && NEWLINE !in mid && |head| <= max && |mid| < limit && Chunked(limit, tail)
    ensures Chunked(limit, yes) && Join(yes) == (head + mid) + ([NEWLINE] + Join(tail))
    ensures ReadFrom(max, end, [], yes) == (Line(StripReturn(head + mid)), tail)
  {
    var rest := [mid + [NEWLINE]] + tail;
    yes := Singles(head) + rest;
    JoinCons(mid + [NEWLINE], tail);
    JoinSingles(head, rest);
    Regroup(head, mid, Join(tail));
    ChunkedCons(limit, mid + [NEWLINE], tail);
    SinglesChunked(limit, head, rest);
    ReadSingles(max, end, [], head, rest);
    LineLengthIs(mid + [NEWLINE], |mid|);
    assert (mid + [NEWLINE])[..|mid|] == mid && rest[1..] == tail;
    assert [] + head == head;
  }

  lemma ChunkedCons(limit: nat, chunk: seq<Byte>, tail: seq<seq<Byte>>)
    requires Chunked(limit, tail) && 0 < |chunk| <= limit
    ensures Chunked(limit, [chunk] + tail)
  {
  }

  /** Every line below the upper threshold is accepted in some chunking, whatever follows it. */
  lemma AcceptedSomehow(max: nat, limit: nat, end: StreamEnd, line: seq<Byte>, tail: seq<seq<Byte>>)
    returns (yes: seq<seq<Byte>>)
    requires NEWLINE !in line && |line| < max + limit && 0 < limit && Chunked(limit, tail)
    ensures Chunked(limit, yes) && Join(yes) == line + ([NEWLINE] + Join(tail))
    ensures ReadFrom(max, end, [], yes) == (Line(StripReturn(line)), tail)
  {
    var n := if |line| <= max then |line| else max;
    assert line == line[..n] + line[n..];
    yes := AcceptingChunks(max, limit, end, line[..n], line[n..], tail);
  }

  /** Bytes arriving one at a time: the same line is rejected. */
  lemma RejectingChunks(max: nat, limit: nat, end: StreamEnd, line: seq<Byte>, rest: seq<Byte>)
    returns (no: seq<seq<Byte>>)
    requires NEWLINE !in line && max < |line| && 0 < limit
    ensures Chunked(limit, no) && Join(no) == line + rest
    ensures ReadFrom(max, end, [], no).0 == TooLong
  {
    no := Singles(line) + Singles(rest);
    SinglesAlone(rest);
    JoinSingles(line, Singles(rest));
    SinglesMeaning(rest);
    SinglesChunked(limit, line, Singles(rest));
    ReadSingles(max, end, [], line, Singles(rest));
  }

  /** For a line of more than `max` but fewer than `max + limit` bytes the chunking decides: the
      same bytes are accepted in one chunking and rejected in another. The cap of the
      documentation is exact only outside this window. */
  lemma WindowIsReal(max: nat, limit: nat, end: StreamEnd, line: seq<Byte>, after: seq<Byte>)
    returns (yes: seq<seq<Byte>>, no: seq<seq<Byte>>)
    requires NEWLINE !in line && max < |line| < max + limit
    ensures Chunked(limit, yes) && Join(yes) == line + ([NEWLINE] + after)
    ensures ReadFrom(max, end, [], yes).0 == Line(StripReturn(line))
    ensures Chunked(limit, no) && Join(no) == line + ([NEWLINE] + after)
    ensures ReadFrom(max, end, [], no).0 == TooLong
  {
    SinglesAlone(after);
    SinglesMeaning(after);
    yes := AcceptedSomehow(max, limit, end, line, Singles(after));
    no := RejectingChunks(max, limit, end, line, [NEWLINE] + after);
  }

  lemma Regroup(head: seq<Byte>, mid: seq<Byte>, after: seq<Byte>)
    ensures head + ((mid + [NEWLINE]) + after) == (head + mid) + ([NEWLINE] + after)
  {
  }
}
