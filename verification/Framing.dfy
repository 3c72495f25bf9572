/** Request framing of the daemon: newline-terminated lines cut out of a byte stream that
    arrives in arbitrary pieces, with a cap on the length of a line, and the exchange a
    connection carries on top of it. */
module Framing {
  import opened Wrappers
  import opened Text
  import opened Utf8

  const NEWLINE: Byte := 0x0a

  // ----- The stream -----

  type Chunk = bytes: seq<Byte> | |bytes| > 0 witness [0]

  /** What one read of the socket yields. A read that times out, or that starts when the
      deadline of the line has passed, fails like a reset. */
  datatype Event = Data(bytes: Chunk) | Interrupted | Failed

  /** The bytes that arrive before the first failure or the end of the stream. */
  function Delivered(events: seq<Event>): seq<Byte> {
    if events == [] || events[0].Failed? then []
    else (if events[0].Data? then events[0].bytes else []) + Delivered(events[1..])
  }

  /** A buffered reader; the front of `pending` is what is in its buffer. */
  class Reader {
    var pending: seq<Event>

    constructor (events: seq<Event>)
      ensures pending == events
    {
      pending := events;
    }

    /** The buffered bytes, reading when there are none; empty at the end of the stream. */
    method FillBuf() returns (r: Result<seq<Byte>, Event>)
      modifies this
      ensures Delivered(pending) == Delivered(old(pending))
      ensures r.Ok? ==> pending == old(pending) && r.value <= Delivered(pending)
      ensures r.Ok? && r.value != [] ==> pending != [] && pending[0] == Data(r.value)
      ensures r == Ok([]) ==> Delivered(pending) == []
      ensures r.Err? ==> r.error == Interrupted || r.error == Failed
      ensures r == Err(Interrupted) ==> |pending| < |old(pending)|
      ensures r == Err(Failed) ==> Delivered(pending) == []
    {
      if pending == [] {
        return Ok([]);
      }
      match pending[0]
      case Data(bytes) => return Ok(bytes);
      case Failed => return Err(Failed);
      case Interrupted =>
        pending := pending[1..];
        return Err(Interrupted);
    }

    /** Drops the first `n` buffered bytes. */
    method Consume(n: nat)
      requires pending != [] && pending[0].Data? && n <= |pending[0].bytes|
      modifies this
      ensures Delivered(pending) == Delivered(old(pending))[n..]
      ensures |pending| <= |old(pending)| && (n == |old(pending)[0].bytes| ==> |pending| < |old(pending)|)
    {
      var bytes := pending[0].bytes;
      if n == |bytes| {
        assert Delivered(pending) == bytes + Delivered(pending[1..]);
        pending := pending[1..];
      } else {
        var shorter := [Data(bytes[n..])] + pending[1..];
        assert shorter[1..] == pending[1..];
        assert Delivered(pending)[n..] == bytes[n..] + Delivered(pending[1..]);
        pending := shorter;
      }
    }
  }

  // ----- One line -----

  /** The first line of a byte string, when it is complete and no longer than `maxLen`. */
  function FirstLine(data: seq<Byte>, maxLen: nat): (line: Option<seq<Byte>>)
    ensures line.Some? ==> |line.value| < |data|
  {
    var n := Find(data, NEWLINE);
    if n < |data| && n <= maxLen then Some(data[..n]) else None
  }

  /** What has been read of a line. There is no way to put more into it than the cap. */
  class LineBuffer {
    const cap: nat
    var bytes: seq<Byte>

    ghost predicate Valid()
      reads this
    {
      |bytes| <= cap
    }

    constructor (cap: nat)
      ensures Valid() && bytes == [] && this.cap == cap
    {
      this.cap, bytes := cap, [];
    }

    method Append(more: seq<Byte>)
      requires |bytes| + |more| <= cap
      modifies this
      ensures Valid() && bytes == old(bytes) + more
    {
      bytes := bytes + more;
    }
  }

  /** However the bytes are cut into reads: the line is the first line of what is delivered,
      and what stays unread is exactly the rest. The line is what the buffer holds. */
  method ReadRequestLine(reader: Reader, maxLen: nat) returns (line: Option<seq<Byte>>)
    modifies reader
    ensures line == FirstLine(Delivered(old(reader.pending)), maxLen)
    ensures line.Some? ==> Delivered(reader.pending) == Delivered(old(reader.pending))[|line.value| + 1..]
  {
    ghost var data := Delivered(reader.pending);
    var buf := new LineBuffer(maxLen);
    while true
      invariant fresh(buf) && buf.Valid() && buf.cap == maxLen
      invariant data == buf.bytes + Delivered(reader.pending) && NEWLINE !in buf.bytes
      decreases |reader.pending|
    {
      var filled := reader.FillBuf();
      if filled == Err(Interrupted) {
        continue;
      }
      if filled.Err? || filled.value == [] {
        NoLine(buf.bytes, [], maxLen);
        return None;
      }
      var chunk := filled.value;
      var pos := Find(chunk, NEWLINE);
      FindIsFirst(chunk, NEWLINE);
      if pos < |chunk| {
        line := EndLine(reader, data, buf, chunk);
        return;
      }
      var taken := TakeChunk(reader, data, buf, chunk);
      if !taken {
        return None;
      }
    }
  }

  /** A chunk without a newline: it is buffered whole, or the line is refused. */
  method TakeChunk(reader: Reader, ghost data: seq<Byte>, buf: LineBuffer, chunk: Chunk) returns (taken: bool)
    requires reader.pending != [] && reader.pending[0] == Data(chunk)
    requires data == buf.bytes + Delivered(reader.pending) && NEWLINE !in buf.bytes && NEWLINE !in chunk
    modifies reader, buf
    ensures taken <==> |old(buf.bytes)| + |chunk| <= buf.cap
    ensures !taken ==> FirstLine(data, buf.cap) == None
    ensures taken ==>
              && buf.Valid() && buf.bytes == old(buf.bytes) + chunk
              && data == buf.bytes + Delivered(reader.pending) && |reader.pending| < |old(reader.pending)|
  {
    ghost var rest := Delivered(reader.pending)[|chunk|..];
    assert data == buf.bytes + chunk + rest;
    if |buf.bytes| + |chunk| > buf.cap {
      NoLine(buf.bytes + chunk, rest, buf.cap);
      return false;
    }
    buf.Append(chunk);
    reader.Consume(|chunk|);
    taken := true;
  }

  /** The line ends inside the buffered chunk: it is taken up to its newline, or refused. */
  method EndLine(reader: Reader, ghost data: seq<Byte>, buf: LineBuffer, chunk: Chunk)
    returns (line: Option<seq<Byte>>)
    requires reader.pending != [] && reader.pending[0] == Data(chunk)
    requires data == buf.bytes + Delivered(reader.pending) && NEWLINE !in buf.bytes && NEWLINE in chunk
    modifies reader, buf
    ensures line == FirstLine(data, buf.cap)
    ensures line.Some? ==>
              && buf.Valid() && buf.bytes == line.value
              && Delivered(reader.pending) == data[|line.value| + 1..]
  {
    var pos := Find(chunk, NEWLINE);
    FindIsFirst(chunk, NEWLINE);
    ghost var rest := Delivered(reader.pending)[|chunk|..];
    assert Delivered(reader.pending) == chunk + rest;
    LineEnds(buf.bytes, chunk, rest, buf.cap);
    if |buf.bytes| + pos > buf.cap {
      return None;
    }
    buf.Append(chunk[..pos]);
    reader.Consume(pos + 1);
    line := Some(buf.bytes);
  }

  /** A line that `buf` began and `chunk` ends. */
  lemma {:induction false} LineEnds(buf: seq<Byte>, chunk: seq<Byte>, rest: seq<Byte>, maxLen: nat)
    requires NEWLINE !in buf && Find(chunk, NEWLINE) < |chunk|
    ensures var data, pos := buf + (chunk + rest), Find(chunk, NEWLINE);
            && FirstLine(data, maxLen) == (if |buf| + pos <= maxLen then Some(buf + chunk[..pos]) else None)
            && data[|buf| + pos + 1..] == (chunk + rest)[pos + 1..]
  {
    var pos := Find(chunk, NEWLINE);
    FindIsFirst(chunk, NEWLINE);
    LineInParts(buf, chunk, rest, pos);
    FirstLineAt(buf + chunk[..pos], (chunk + rest)[pos + 1..], maxLen);
  }

  lemma {:induction false} LineInParts(buf: seq<Byte>, chunk: seq<Byte>, rest: seq<Byte>, pos: nat)
    requires pos < |chunk| && chunk[pos] == NEWLINE
    ensures buf + (chunk + rest) == buf + chunk[..pos] + [NEWLINE] + (chunk + rest)[pos + 1..]
  {
    var tail := chunk + rest;
    assert tail == tail[..pos] + [tail[pos]] + tail[pos + 1..];
    assert tail[..pos] == chunk[..pos];
  }

  lemma {:induction false} FirstLineAt(line: seq<Byte>, rest: seq<Byte>, maxLen: nat)
    requires NEWLINE !in line
    ensures FirstLine(line + [NEWLINE] + rest, maxLen) == if |line| <= maxLen then Some(line) else None
    ensures (line + [NEWLINE] + rest)[|line| + 1..] == rest
  {
    FindFirst(line, NEWLINE, rest);
    assert (line + [NEWLINE] + rest)[..|line|] == line;
  }

  /** Without a newline in more than `maxLen` bytes, or in all of them, there is no line. */
  lemma {:induction false} NoLine(read: seq<Byte>, rest: seq<Byte>, maxLen: nat)
    requires NEWLINE !in read && (|read| > maxLen || rest == [])
    ensures FirstLine(read + rest, maxLen) == None
  {
    FindBeyond(read, NEWLINE, rest);
  }

  // ----- Chunking -----

  function Arrivals(chunks: seq<Chunk>): seq<Event> {
    if chunks == [] then [] else [Data(chunks[0])] + Arrivals(chunks[1..])
  }

  /** Bytes cut into any chunks deliver the same bytes. */
  lemma {:induction false} ChunksDeliver(chunks: seq<Chunk>)
    ensures Delivered(Arrivals(chunks)) == Concat(chunks)
  {
    if chunks != [] {
      ChunksDeliver(chunks[1..]);
      assert Arrivals(chunks)[1..] == Arrivals(chunks[1..]);
      assert chunks == [chunks[0]] + chunks[1..];
      ConcatAppend([chunks[0]], chunks[1..]);
      ConcatMore([], chunks[0]);
    }
  }

  // ----- One connection -----

  /** A request line parsed as a JSON value first and as a request second. */
  datatype Parsed = NotJson | NotARequest | Request(hasId: bool)

  /** What the connection loop calls: decoding and trimming of a line, parsing it straight as
      a request, of which only the method is looked at, parsing it by way of a JSON value,
      and the routing of a request to its answer. The two ways of parsing need not agree. */
  datatype Calls = Calls(
    decode: seq<Byte> -> Option<string>,
    methodOf: string -> Option<string>,
    parse: string -> Parsed,
    parseError: string -> string,
    invalidRequest: string -> string,
    dispatch: string -> string)

  /** The answer to one line; a request without an id gets none. */
  function HandleLine(calls: Calls, line: string): Option<string> {
    match calls.parse(line)
    case NotJson => Some(calls.parseError(line))
    case NotARequest => Some(calls.invalidRequest(line))
    case Request(hasId) => if hasId then Some(calls.dispatch(line)) else None
  }

  predicate IsSubscribe(calls: Calls, line: string) {
    calls.methodOf(line) == Some("subscribe")
  }

  datatype End = Dropped | Subscribed

  /** The exchange as a function of the bytes: the answers in order, and how it ends. */
  function Transcript(calls: Calls, data: seq<Byte>, maxLen: nat): (seq<string>, End)
    decreases |data|
  {
    match FirstLine(data, maxLen)
    case None => ([], Dropped)
    case Some(bytes) =>
      var rest := data[|bytes| + 1..];
      match calls.decode(bytes)
      case None => ([], Dropped)
      case Some(line) =>
        if line == "" then Transcript(calls, rest, maxLen)
        else if IsSubscribe(calls, line) then ([], Subscribed)
        else
          var (answers, end) := Transcript(calls, rest, maxLen);
          match HandleLine(calls, line)
          case None => (answers, end)
          case Some(answer) => ([answer] + answers, end)
  }

  function Prefixed(sent: seq<string>, t: (seq<string>, End)): (seq<string>, End) {
    (sent + t.0, t.1)
  }

  lemma {:induction false} PrefixNothing(t: (seq<string>, End))
    ensures Prefixed([], t) == t
  {
    assert [] + t.0 == t.0;
  }

  lemma {:induction false} PrefixTwice(a: seq<string>, b: seq<string>, t: (seq<string>, End))
    ensures Prefixed(a, Prefixed(b, t)) == Prefixed(a + b, t)
  {
    assert a + (b + t.0) == a + b + t.0;
  }

  /** The exchange as the client sees it when only `writes` answers get through before a
      write fails, which ends the connection. */
  method HandleConnection(reader: Reader, calls: Calls, maxLen: nat, writes: nat) returns (sent: seq<string>, end: End)
    modifies reader
    ensures var (answers, ending) := Transcript(calls, Delivered(old(reader.pending)), maxLen);
            && sent <= answers && |sent| == (if writes < |answers| then writes else |answers|)
            && end == if writes < |answers| then Dropped else ending
  {
    sent := [];
    ghost var whole := Transcript(calls, Delivered(reader.pending), maxLen);
    PrefixNothing(whole);
    while true
      invariant whole == Prefixed(sent, Transcript(calls, Delivered(reader.pending), maxLen))
      invariant |sent| <= writes
      decreases |Delivered(reader.pending)|
    {
      ghost var data := Delivered(reader.pending);
      var bytes := ReadRequestLine(reader, maxLen);
      assert sent + [] == sent;
      if bytes.None? {
        return sent, Dropped;
      }
      var line := calls.decode(bytes.value);
      if line.None? {
        return sent, Dropped;
      }
      if line.value == "" {
        continue;
      }
      if IsSubscribe(calls, line.value) {
        return sent, Subscribed;
      }
      var answer := HandleLine(calls, line.value);
      if answer.Some? {
        PrefixTwice(sent, [answer.value], Transcript(calls, Delivered(reader.pending), maxLen));
        if |sent| == writes {
          assert whole.0[..writes] == sent;
          return sent, Dropped;
        }
        sent := sent + [answer.value];
      }
    }
  }

  // ----- The exchange, line by line -----

  /** Lines put back into a stream. */
  function Unlines(lines: seq<seq<Byte>>): seq<Byte> {
    if lines == [] then [] else lines[0] + [NEWLINE] + Unlines(lines[1..])
  }

  predicate IsLine(line: seq<Byte>, maxLen: nat) {
    NEWLINE !in line && |line| <= maxLen
  }

  /** A line the exchange goes on after. */
  predicate GoesOn(calls: Calls, bytes: seq<Byte>) {
    && calls.decode(bytes).Some?
    && (calls.decode(bytes).value == "" || !IsSubscribe(calls, calls.decode(bytes).value))
  }

  /** A line that is answered: not blank, and not a notification. */
  predicate IsAnswered(calls: Calls, bytes: seq<Byte>) {
    && GoesOn(calls, bytes) && calls.decode(bytes).value != ""
    && HandleLine(calls, calls.decode(bytes).value).Some?
  }

  function Answer(calls: Calls, bytes: seq<Byte>): seq<string> {
    if IsAnswered(calls, bytes) then [HandleLine(calls, calls.decode(bytes).value).value] else []
  }

  function Answers(calls: Calls, lines: seq<seq<Byte>>): seq<string> {
    if lines == [] then [] else Answer(calls, lines[0]) + Answers(calls, lines[1..])
  }

  /** A stream of lines is answered line by line, in order, each on its own. What follows
      the last line goes on as a stream of its own. */
  lemma {:induction false} TranscriptOfLines(calls: Calls, lines: seq<seq<Byte>>, tail: seq<Byte>, maxLen: nat)
    requires forall i :: 0 <= i < |lines| ==> IsLine(lines[i], maxLen) && GoesOn(calls, lines[i])
    ensures Transcript(calls, Unlines(lines) + tail, maxLen) ==
            Prefixed(Answers(calls, lines), Transcript(calls, tail, maxLen))
  {
    if lines == [] {
      assert Unlines(lines) + tail == tail;
      PrefixNothing(Transcript(calls, tail, maxLen));
    } else {
      var rest := Unlines(lines[1..]) + tail;
      assert Unlines(lines) + tail == lines[0] + [NEWLINE] + rest;
      TranscriptOfLines(calls, lines[1..], tail, maxLen);
      FirstLineAt(lines[0], rest, maxLen);
      OneLine(calls, lines[0], rest, maxLen);
      PrefixTwice(Answer(calls, lines[0]), Answers(calls, lines[1..]), Transcript(calls, tail, maxLen));
    }
  }

  /** One line in front of a stream puts its own answer in front of the others. */
  lemma {:induction false} OneLine(calls: Calls, line: seq<Byte>, rest: seq<Byte>, maxLen: nat)
    requires IsLine(line, maxLen) && GoesOn(calls, line)
    ensures Transcript(calls, line + [NEWLINE] + rest, maxLen) ==
            Prefixed(Answer(calls, line), Transcript(calls, rest, maxLen))
  {
    FirstLineAt(line, rest, maxLen);
    PrefixNothing(Transcript(calls, rest, maxLen));
  }

  /** Every byte stream is a run of lines the exchange goes on after, and a rest at which it
      ends without a further answer: an unfinished or overlong line, a line that is not
      text, or a subscription. */
  lemma {:induction false} StreamSplits(calls: Calls, data: seq<Byte>, maxLen: nat)
    returns (lines: seq<seq<Byte>>, tail: seq<Byte>)
    ensures data == Unlines(lines) + tail
    ensures forall i :: 0 <= i < |lines| ==> IsLine(lines[i], maxLen) && GoesOn(calls, lines[i])
    ensures FirstLine(tail, maxLen).None? || !GoesOn(calls, FirstLine(tail, maxLen).value)
    ensures Transcript(calls, data, maxLen).0 == Answers(calls, lines)
    decreases |data|
  {
    var first := FirstLine(data, maxLen);
    if first.None? || !GoesOn(calls, first.value) {
      lines, tail := [], data;
      assert Unlines([]) + data == data;
    } else {
      var rest := data[|first.value| + 1..];
      FindIsFirst(data, NEWLINE);
      assert data == first.value + [NEWLINE] + rest;
      var more;
      more, tail := StreamSplits(calls, rest, maxLen);
      lines := [first.value] + more;
      assert lines[1..] == more;
      assert Unlines(lines) + tail == first.value + [NEWLINE] + (Unlines(more) + tail);
      OneLine(calls, first.value, rest, maxLen);
    }
  }

  // ----- The exchange, by what a line is -----

  /** A first line is read exactly when the stream begins with it and a line feed, and it is
      within the cap. */
  lemma {:induction false} FirstLineIff(data: seq<Byte>, maxLen: nat, line: seq<Byte>)
    ensures FirstLine(data, maxLen) == Some(line) <==> |line| <= maxLen && 0x0a !in line && line + [0x0a] <= data
  {
    FindIsFirst(data, NEWLINE);
    if |line| <= maxLen && NEWLINE !in line && line + [NEWLINE] <= data {
      assert data == line + [NEWLINE] + data[|line| + 1..];
      FirstLineAt(line, data[|line| + 1..], maxLen);
    }
    if FirstLine(data, maxLen) == Some(line) {
      assert data[..|line| + 1] == line + [NEWLINE];
    }
  }

  /** A line of text within the cap, blank or with another method than the subscription's. */
  predicate IsPlainLine(calls: Calls, bytes: seq<Byte>, maxLen: nat) {
    && 0x0a !in bytes && |bytes| <= maxLen && calls.decode(bytes).Some?
    && var line := calls.decode(bytes).value;
       line == "" || calls.methodOf(line) != Some("subscribe")
  }

  /** The lines to which a client expects an answer: those that are neither blank nor a
      notification, which is a request without an id. */
  function Expecting(calls: Calls, lines: seq<seq<Byte>>): seq<string> {
    if lines == [] then []
    else
      (match calls.decode(lines[0])
       case None => []
       case Some(line) => if line == "" || calls.parse(line) == Request(false) then [] else [line]) +
      Expecting(calls, lines[1..])
  }

  /** The answer a line is owed. */
  predicate IsReply(calls: Calls, line: string, answer: string) {
    && (calls.parse(line) == Request(true) ==> answer == calls.dispatch(line))
    && (calls.parse(line) == NotJson ==> answer == calls.parseError(line))
    && (calls.parse(line) == NotARequest ==> answer == calls.invalidRequest(line))
  }

  predicate AreReplies(calls: Calls, lines: seq<string>, answers: seq<string>) {
    |answers| == |lines| && forall i :: 0 <= i < |lines| ==> IsReply(calls, lines[i], answers[i])
  }

  lemma {:induction false} AnswersAreReplies(calls: Calls, lines: seq<seq<Byte>>, maxLen: nat)
    requires forall i :: 0 <= i < |lines| ==> IsPlainLine(calls, lines[i], maxLen)
    ensures AreReplies(calls, Expecting(calls, lines), Answers(calls, lines))
  {
    if lines != [] {
      AnswersAreReplies(calls, lines[1..], maxLen);
      assert IsPlainLine(calls, lines[0], maxLen);
    }
  }

  /** Every line that expects an answer is answered, in order, and nothing else is. */
  lemma {:induction false} RepliesInOrder(calls: Calls, lines: seq<seq<Byte>>, tail: seq<Byte>, maxLen: nat)
    returns (replies: seq<string>)
    requires forall i :: 0 <= i < |lines| ==> IsPlainLine(calls, lines[i], maxLen)
    ensures AreReplies(calls, Expecting(calls, lines), replies)
    ensures Transcript(calls, Unlines(lines) + tail, maxLen) ==
            (replies + Transcript(calls, tail, maxLen).0, Transcript(calls, tail, maxLen).1)
  {
    forall i | 0 <= i < |lines| ensures IsLine(lines[i], maxLen) && GoesOn(calls, lines[i]) {
      assert IsPlainLine(calls, lines[i], maxLen);
    }
    TranscriptOfLines(calls, lines, tail, maxLen);
    AnswersAreReplies(calls, lines, maxLen);
    replies := Answers(calls, lines);
  }

  /** A stream that does not begin with a line, a line that is not text and a subscription
      end the exchange without an answer. */
  lemma {:induction false} ExchangeEnds(calls: Calls, data: seq<Byte>, maxLen: nat)
    ensures (forall line :: |line| <= maxLen && 0x0a !in line ==> !(line + [0x0a] <= data)) ==>
              Transcript(calls, data, maxLen) == ([], Dropped)
    ensures forall line | |line| <= maxLen && 0x0a !in line && line + [0x0a] <= data ::
              && (calls.decode(line).None? ==> Transcript(calls, data, maxLen) == ([], Dropped))
              && (calls.decode(line).Some? && calls.decode(line).value != "" &&
                  calls.methodOf(calls.decode(line).value) == Some("subscribe") ==>
                    Transcript(calls, data, maxLen) == ([], Subscribed))
  {
    var first := FirstLine(data, maxLen);
    if first.Some? {
      FirstLineIff(data, maxLen, first.value);
    }
    forall line | |line| <= maxLen && 0x0a !in line && line + [0x0a] <= data
      ensures first == Some(line)
    {
      FirstLineIff(data, maxLen, line);
    }
  }
}
