/** `MessageTokenIterator`: the incremental decoder that turns the managed
    endpoint's payload fragments into content tokens, one per complete
    newline-terminated record. */
module TokenIterator {
  import opened Wrappers
  import opened Errors
  import opened Framing
  import opened PyStrings

  /** What `choices[0]["delta"].get("content", "")` finds in a decoded record:
      no "content" key, an explicit JSON null, or a string. */
  datatype Content = Absent | Null | Str(text: string)

  /** The two decoders the iterator relies on, left uninterpreted.
      `utf8` is `bytes.decode("utf-8")` (None: not valid UTF-8); `delta` is
      `json.loads(text)["choices"][0]["delta"]` reduced to its content entry
      (None: malformed JSON, or no choices / delta in the record). A content
      that is neither a string nor null, such as a number or a list, is
      mapped to `Null`: like null it is yielded as is and makes `"".join`
      raise `TypeError`. */
  datatype Codec = Codec(utf8: seq<byte> -> Option<string>, delta: string -> Option<Content>)

  /** `text.lstrip("data:").rstrip("/n")`: both are character-set strips. */
  function CleanLine(text: string): string {
    RStrip(LStrip(text, "data:"), "/n")
  }

  /** The token a record yields; an explicit null gives Python's None. */
  function TokenOf(c: Content): Option<string> {
    match c
    case Absent => Some("")
    case Null => None
    case Str(t) => Some(t)
  }

  /** Decoding one complete line, its terminator already removed; an
      exception here ends the whole call. */
  function DecodeLine(codec: Codec, line: seq<byte>): Result<Option<string>, CallError> {
    match codec.utf8(line)
    case None => Failure(Utf8Error)
    case Some(text) =>
      match codec.delta(CleanLine(text))
      case None => Failure(JsonError)
      case Some(c) => Success(TokenOf(c))
  }

  /** Tokens decoded so far, in front of the outcome of what follows. */
  function Prepend(tokens: seq<Option<string>>, later: Result<seq<Option<string>>, CallError>): Result<seq<Option<string>>, CallError> {
    match later
    case Failure(e) => Failure(e)
    case Success(ts) => Success(tokens + ts)
  }

  /** Decoding lines in order: all their tokens, or the first line's error. */
  function DecodeLines(codec: Codec, lines: seq<seq<byte>>): Result<seq<Option<string>>, CallError>
    decreases |lines|
  {
    if lines == [] then Success([])
    else
      match DecodeLine(codec, lines[0])
      case Failure(e) => Failure(e)
      case Success(t) => Prepend([t], DecodeLines(codec, lines[1..]))
  }

  /** The lines decode one token each, in order, when every line decodes;
      otherwise the outcome is the error of the first line that does not. */
  lemma {:induction false} DecodeLinesSpec(codec: Codec, lines: seq<seq<byte>>)
    ensures var r := DecodeLines(codec, lines);
      && (r.Success? <==> forall k :: 0 <= k < |lines| ==> DecodeLine(codec, lines[k]).Success?)
      && (r.Success? ==> |r.value| == |lines|)
      && (r.Success? ==> forall k :: 0 <= k < |lines| ==> DecodeLine(codec, lines[k]) == Success(r.value[k]))
      && (r.Failure? ==> exists k :: FirstFailure(codec, lines, k, r.error))
    decreases |lines|
  {
    if lines != [] {
      DecodeLinesSpec(codec, lines[1..]);
      var r := DecodeLines(codec, lines);
      var rest := DecodeLines(codec, lines[1..]);
      assert forall k :: 1 <= k < |lines| ==> lines[1..][k - 1] == lines[k];
      match DecodeLine(codec, lines[0])
      case Failure(e) =>
        assert FirstFailure(codec, lines, 0, e);
      case Success(t) =>
        if rest.Failure? {
          var k :| FirstFailure(codec, lines[1..], k, rest.error);
          assert FirstFailure(codec, lines, k + 1, rest.error);
        } else {
          assert r.value == [t] + rest.value;
        }
    }
  }

  /** Line `k` is the first that fails to decode, with `error`. */
  ghost predicate FirstFailure(codec: Codec, lines: seq<seq<byte>>, k: int, error: CallError) {
    && 0 <= k < |lines|
    && DecodeLine(codec, lines[k]) == Failure(error)
    && forall j :: 0 <= j < k ==> DecodeLine(codec, lines[j]).Success?
  }

  /** What the iterator yields for a whole byte stream, read to its end. */
  function DecodeStream(codec: Codec, bytes: seq<byte>): Result<seq<Option<string>>, CallError> {
    DecodeLines(codec, Lines(bytes))
  }

  /** The outcome of decoding one part of a stream and then another. */
  function Chain(first: Result<seq<Option<string>>, CallError>, second: Result<seq<Option<string>>, CallError>): Result<seq<Option<string>>, CallError> {
    match first
    case Failure(e) => Failure(e)
    case Success(ts) => Prepend(ts, second)
  }

  /** How the byte iterator ends once it has delivered its payloads: with
      StopIteration, or, when `dropped`, with an exception (the stream broke
      off), which `next(self.byte_iterator)` raises out of `__next__`. */
  function EndOf(dropped: bool): Result<seq<Option<string>>, CallError> {
    if dropped then Failure(StreamError) else Success([])
  }

  /** What iterating to the end yields for the bytes `bytes`, delivered by a
      byte iterator that ends as `dropped` says: the tokens of the complete
      lines in order, then the end of iteration or the stream's exception;
      a line that fails to decode raises first. */
  function Outcome(codec: Codec, bytes: seq<byte>, dropped: bool): Result<seq<Option<string>>, CallError> {
    Chain(DecodeStream(codec, bytes), EndOf(dropped))
  }

  /** A stream that ends normally yields exactly what its bytes decode to; a
      stream that breaks off fails, with the first bad line's error if there
      is one and the stream's exception otherwise. */
  lemma OutcomeEnds(codec: Codec, bytes: seq<byte>)
    ensures Outcome(codec, bytes, false) == DecodeStream(codec, bytes)
    ensures Outcome(codec, bytes, true) ==
      Failure(if DecodeStream(codec, bytes).Failure? then DecodeStream(codec, bytes).error else StreamError)
  {
    match DecodeStream(codec, bytes)
    case Failure(e) =>
    case Success(ts) => assert ts + [] == ts;
  }

  /** Tokens in front commute with what follows them. */
  lemma ChainPrepend(ts: seq<Option<string>>, x: Result<seq<Option<string>>, CallError>, y: Result<seq<Option<string>>, CallError>)
    ensures Chain(Prepend(ts, x), y) == Prepend(ts, Chain(x, y))
  {
    match x
    case Failure(e) =>
    case Success(xs) =>
      match y
      case Failure(e) =>
      case Success(ys) => assert (ts + xs) + ys == ts + (xs + ys);
  }

  /** What one `__next__` call produces: a token, the end of iteration
      (StopIteration), or the exception a bad line raises. */
  datatype Step = Yield(token: Option<string>) | Stop | Fail(error: CallError)

  function StepOf(codec: Codec, line: seq<byte>): Step {
    match DecodeLine(codec, line)
    case Success(t) => Yield(t)
    case Failure(e) => Fail(e)
  }

  /** A frame `marker + json`, where the marker consists only of characters
      of "data:" (such as "data:" itself) and the JSON text neither starts with
      one of those characters nor ends with '/' or 'n', is handed to the JSON
      decoder as exactly that JSON text. */
  lemma CleanLineOfFrame(marker: string, json: string)
    requires forall i :: 0 <= i < |marker| ==> marker[i] in "data:"
    requires json == [] || (json[0] !in "data:" && json[|json| - 1] !in "/n")
    ensures CleanLine(marker + json) == json
  {
    LStripSkipsSetPrefix(marker, json, "data:");
  }

  /** A record whose delta has no "content" key yields the empty token, and
      one with an explicit null yields None; neither fails. */
  lemma ContentDefault(codec: Codec, line: seq<byte>, text: string)
    requires codec.utf8(line) == Some(text)
    ensures codec.delta(CleanLine(text)) == Some(Absent) ==> DecodeLine(codec, line) == Success(Some(""))
    ensures codec.delta(CleanLine(text)) == Some(Null) ==> DecodeLine(codec, line) == Success(None)
  {
  }

  lemma {:induction false} DecodeLinesAppend(codec: Codec, a: seq<seq<byte>>, b: seq<seq<byte>>)
    ensures DecodeLines(codec, a + b) == Chain(DecodeLines(codec, a), DecodeLines(codec, b))
    decreases |a|
  {
    if a == [] {
      assert a + b == b;
      match DecodeLines(codec, b)
      case Failure(e) =>
      case Success(ts) => assert [] + ts == ts;
    } else {
      assert (a + b)[0] == a[0] && (a + b)[1..] == a[1..] + b;
      DecodeLinesAppend(codec, a[1..], b);
      match DecodeLine(codec, a[0])
      case Failure(e) =>
      case Success(t) =>
        match DecodeLines(codec, a[1..])
        case Failure(e) =>
        case Success(ts) =>
          match DecodeLines(codec, b)
          case Failure(e) =>
          case Success(us) => assert [t] + (ts + us) == ([t] + ts) + us;
    }
  }

  /** A stream made of `k` terminated records and an unterminated tail
      decodes exactly those `k` records, in order; the tail yields nothing. */
  lemma RecordsDecodeInOrder(codec: Codec, records: seq<seq<byte>>, tail: seq<byte>)
    requires LineFree(records) && NL !in tail
    ensures DecodeStream(codec, Terminated(records) + tail) == DecodeLines(codec, records)
  {
    LinesUnique(records, tail);
  }

  /** Decoding a stream cut just after a terminator is decoding the two
      parts one after the other. */
  lemma DecodeStreamAppend(codec: Codec, a: seq<byte>, b: seq<byte>)
    requires a == [] || a[|a| - 1] == NL
    ensures DecodeStream(codec, a + b) == Chain(DecodeStream(codec, a), DecodeStream(codec, b))
  {
    LinesAppend(a, b);
    DecodeLinesAppend(codec, Lines(a), Lines(b));
  }

  /** Unterminated bytes at the end of the stream produce no token. */
  lemma TrailingBytesIgnored(codec: Codec, a: seq<byte>, tail: seq<byte>)
    requires a == [] || a[|a| - 1] == NL
    requires NL !in tail
    ensures DecodeStream(codec, a + tail) == DecodeStream(codec, a)
  {
    DecodeStreamAppend(codec, a, tail);
    assert Lines(tail) == [];
    match DecodeStream(codec, a)
    case Failure(e) =>
    case Success(ts) => assert ts + [] == ts;
  }

  /** Where a `MessageTokenIterator` stands: `self.buffer`, `self.read_pos`
      and the payloads the byte iterator has still to deliver. */
  datatype Cursor = Cursor(buffer: seq<byte>, readPos: nat, source: seq<seq<byte>>)

  /** The read position lies in the buffer, just after a terminator unless
      it is at the start. */
  predicate Inv(c: Cursor) {
    c.readPos <= |c.buffer| && (c.readPos == 0 || c.buffer[c.readPos - 1] == NL)
  }

  /** Every byte not yet consumed: the buffer after the read position, then
      the payloads not yet pulled. */
  function Pending(c: Cursor): seq<byte>
    requires c.readPos <= |c.buffer|
  {
    c.buffer[c.readPos..] + Concat(c.source)
  }

  /** `line and line[-1] == ord("\n")`: `readline()` found a complete line. */
  predicate EndsLine(line: seq<byte>) {
    line != [] && line[|line| - 1] == NL
  }

  /** `readline()` at the read position found a complete line. */
  predicate LineReady(c: Cursor)
    requires c.readPos <= |c.buffer|
  {
    EndsLine(ReadLine(c.buffer, c.readPos))
  }

  /** `self.buffer += next(self.byte_iterator)`. */
  function Pulling(c: Cursor): Cursor
    requires c.source != []
  {
    Cursor(c.buffer + c.source[0], c.readPos, c.source[1..])
  }

  /** `self.read_pos += len(line)`, and the line without its terminator. */
  function Consume(c: Cursor): (Option<seq<byte>>, Cursor)
    requires c.readPos <= |c.buffer| && LineReady(c)
  {
    var line := ReadLine(c.buffer, c.readPos);
    (Some(line[..|line| - 1]), c.(readPos := c.readPos + |line|))
  }

  /** The `while True` loop of `__next__`: read a line; a complete one is
      consumed and returned without its terminator, otherwise a payload is
      pulled, or `None` (StopIteration) when the source is exhausted. */
  function NextLine(c: Cursor): (Option<seq<byte>>, Cursor)
    requires c.readPos <= |c.buffer|
    decreases |c.source|
  {
    if LineReady(c) then
      Consume(c)
    else if c.source == [] then
      (None, c)
    else
      NextLine(Pulling(c))
  }

  /** What `__next__` hands back for the line it consumed; without one, the
      byte iterator's end: StopIteration, or its exception. */
  function StepFor(codec: Codec, dropped: bool, line: Option<seq<byte>>): Step {
    match line
    case None => if dropped then Fail(StreamError) else Stop
    case Some(l) => StepOf(codec, l)
  }

  /** The loop ends at a complete line: it is consumed. */
  lemma NextLineFound(c: Cursor)
    requires c.readPos <= |c.buffer| && LineReady(c)
    ensures NextLine(c) == Consume(c)
  {
  }

  /** Without a complete line and with payloads left, the loop pulls one. */
  lemma NextLinePulls(c: Cursor)
    requires c.readPos <= |c.buffer| && !LineReady(c) && c.source != []
    ensures NextLine(c) == NextLine(Pulling(c))
  {
  }

  /** Pulling a payload keeps the invariant and consumes nothing. */
  lemma PullingKeepsPending(c: Cursor)
    requires Inv(c) && c.source != []
    ensures Inv(Pulling(c))
    ensures Pending(Pulling(c)) == Pending(c)
    ensures Pulling(c).buffer + Concat(Pulling(c).source) == c.buffer + Concat(c.source)
  {
    var b := c.buffer + c.source[0];
    assert Concat(c.source) == c.source[0] + Concat(c.source[1..]);
    assert b[c.readPos..] == c.buffer[c.readPos..] + c.source[0];
    assert c.readPos == 0 || b[c.readPos - 1] == c.buffer[c.readPos - 1];
  }

  /** A complete line read at the cursor lies in the buffer and ends there
      with its terminator. */
  lemma LineInBuffer(c: Cursor)
    requires c.readPos <= |c.buffer| && LineReady(c)
    ensures var line := ReadLine(c.buffer, c.readPos);
      c.readPos + |line| <= |c.buffer| && c.buffer[c.readPos + |line| - 1] == NL
  {
    ReadLineEnds(c.buffer, c.readPos);
  }

  /** Without a complete line, the first terminator pending lies past the
      buffer. */
  lemma NoLineReady(c: Cursor)
    requires c.readPos <= |c.buffer| && !LineReady(c)
    ensures NL !in c.buffer[c.readPos..]
    ensures match FirstNewline(Pending(c))
      case None => true
      case Some(i) => c.readPos + i >= |c.buffer|
  {
    ReadLineSpec(c.buffer, c.readPos);
    var x := c.buffer[c.readPos..];
    assert forall j :: 0 <= j < |x| ==> Pending(c)[j] == x[j];
  }

  /** One call of `__next__` moves bytes from the source to the buffer and
      nowhere else: it takes a prefix of the remaining payloads, the buffer
      only grows, and buffer followed by source is unchanged. */
  ghost predicate MovesBytes(c: Cursor) {
    Inv(c) && MovesTo(c, NextLine(c).1)
  }

  /** `MovesBytes` for a given cursor `d` after the call. */
  ghost predicate MovesTo(c: Cursor, d: Cursor) {
    && Inv(d)
    && |d.source| <= |c.source| && d.source == c.source[|c.source| - |d.source|..]
    && c.buffer <= d.buffer
    && d.buffer + Concat(d.source) == c.buffer + Concat(c.source)
  }

  /** What one call of `__next__` means for the pending bytes: the line
      returned is their first complete line, and the cursor moves past
      exactly that line and its terminator; without a complete line the
      source is drained, iteration stops and nothing is consumed. */
  ghost predicate ConsumesFirstLine(c: Cursor) {
    Inv(c) && ConsumesVia(c, NextLine(c))
  }

  /** `ConsumesFirstLine` for a given outcome `(line, d)` of the call. */
  ghost predicate ConsumesVia(c: Cursor, r: (Option<seq<byte>>, Cursor))
    requires c.readPos <= |c.buffer|
  {
    var (line, d) := r;
    var u := Pending(c);
    && d.readPos <= |d.buffer|
    && match FirstNewline(u)
       case None =>
         line == None && d.source == [] && d.readPos == c.readPos && Pending(d) == u
       case Some(i) =>
         line == Some(u[..i]) && d.readPos == c.readPos + i + 1 && Pending(d) == u[i + 1..]
  }

  /** `__next__` pulls lazily: when it returns a line after pulling, the
      terminator of that line lies in the last payload pulled. */
  ghost predicate PullsLazily(c: Cursor) {
    Inv(c) && LazyTo(c, NextLine(c).1)
  }

  /** `PullsLazily` for a given cursor `d` after the call. */
  ghost predicate LazyTo(c: Cursor, d: Cursor)
    requires c.readPos <= |c.buffer|
  {
    var k := |c.source| - |d.source|;
    var found := FirstNewline(Pending(c));
    found.Some? && 0 < k <= |c.source| ==> c.readPos + found.value >= |d.buffer| - |c.source[k - 1]|
  }

  lemma MovesBytesFound(c: Cursor)
    requires Inv(c) && LineReady(c)
    ensures MovesBytes(c)
  {
    NextLineFound(c);
    LineInBuffer(c);
  }

  lemma MovesBytesPull(c: Cursor)
    requires Inv(c) && !LineReady(c) && c.source != [] && MovesBytes(Pulling(c))
    ensures MovesBytes(c)
  {
    NextLinePulls(c);
    MovesToPull(c, NextLine(c).1);
    MovesByOutcome(c, NextLine(c).1);
  }

  /** What a call does after pulling a payload, it does from before the pull. */
  lemma MovesToPull(c: Cursor, d: Cursor)
    requires Inv(c) && c.source != [] && MovesTo(Pulling(c), d)
    ensures MovesTo(c, d)
  {
    PullingKeepsPending(c);
    SuffixOfRest(c.source, d.source);
    PrefixThrough(c.buffer, Pulling(c).buffer, d.buffer);
  }

  lemma MovesByOutcome(c: Cursor, d: Cursor)
    requires Inv(c) && NextLine(c).1 == d && MovesTo(c, d)
    ensures MovesBytes(c)
  {
  }

  /** A suffix of `s[1..]` is a suffix of `s`. */
  lemma SuffixOfRest(s: seq<seq<byte>>, t: seq<seq<byte>>)
    requires s != [] && |t| <= |s| - 1 && t == s[1..][|s| - 1 - |t|..]
    ensures |t| <= |s| && t == s[|s| - |t|..]
  {
    assert s[1..][|s| - 1 - |t|..] == s[|s| - |t|..];
  }

  lemma PrefixThrough(a: seq<byte>, b: seq<byte>, c: seq<byte>)
    requires a <= b && b <= c
    ensures a <= c
  {
  }

  lemma {:induction false} NextLineMovesBytes(c: Cursor)
    requires Inv(c)
    ensures MovesBytes(c)
    decreases |c.source|
  {
    if LineReady(c) {
      MovesBytesFound(c);
    } else if c.source != [] {
      PullingKeepsPending(c);
      NextLineMovesBytes(Pulling(c));
      MovesBytesPull(c);
    }
  }

  lemma ConsumesFound(c: Cursor)
    requires Inv(c) && LineReady(c)
    ensures ConsumesFirstLine(c)
  {
    FoundFacts(c);
    NextLineFound(c);
    ConsumesByOutcome(c, Consume(c));
  }

  lemma ConsumesByOutcome(c: Cursor, r: (Option<seq<byte>>, Cursor))
    requires Inv(c) && NextLine(c) == r && ConsumesVia(c, r)
    ensures ConsumesFirstLine(c)
  {
  }

  /** Consuming a line found at the cursor consumes the first pending line. */
  lemma FoundFacts(c: Cursor)
    requires Inv(c) && LineReady(c)
    ensures ConsumesVia(c, Consume(c))
  {
    var line := ReadLine(c.buffer, c.readPos);
    FoundAhead(c);
    FoundAfter(c);
    ConsumesViaLine(c, |line| - 1, Consume(c));
  }

  /** The line found at the cursor is the first pending line. */
  lemma FoundAhead(c: Cursor)
    requires Inv(c) && LineReady(c)
    ensures var line := ReadLine(c.buffer, c.readPos); var i := |line| - 1;
      && c.readPos + |line| <= |c.buffer|
      && FirstNewline(Pending(c)) == Some(i) && Consume(c).0 == Some(Pending(c)[..i])
  {
    LineAhead(c.buffer, c.readPos, Concat(c.source));
  }

  /** Past the line found at the cursor, the rest of the pending bytes. */
  lemma FoundAfter(c: Cursor)
    requires Inv(c) && LineReady(c) && c.readPos + |ReadLine(c.buffer, c.readPos)| <= |c.buffer|
    ensures Pending(Consume(c).1) == Pending(c)[|ReadLine(c.buffer, c.readPos)|..]
  {
    LineAhead(c.buffer, c.readPos, Concat(c.source));
  }

  lemma ConsumesViaLine(c: Cursor, i: nat, r: (Option<seq<byte>>, Cursor))
    requires c.readPos <= |c.buffer| && r.1.readPos <= |r.1.buffer|
    requires FirstNewline(Pending(c)) == Some(i)
    requires r.0 == Some(Pending(c)[..i]) && r.1.readPos == c.readPos + i + 1
    requires Pending(r.1) == Pending(c)[i + 1..]
    ensures ConsumesVia(c, r)
  {
  }

  lemma ConsumesStop(c: Cursor)
    requires Inv(c) && !LineReady(c) && c.source == []
    ensures ConsumesFirstLine(c)
  {
    NoLineReady(c);
    assert Pending(c) == c.buffer[c.readPos..];
  }

  lemma ConsumesPull(c: Cursor)
    requires Inv(c) && !LineReady(c) && c.source != [] && ConsumesFirstLine(Pulling(c))
    ensures ConsumesFirstLine(c)
  {
    NextLinePulls(c);
    PullingKeepsPending(c);
  }

  lemma {:induction false} NextLineConsumesFirstLine(c: Cursor)
    requires Inv(c)
    ensures ConsumesFirstLine(c)
    decreases |c.source|
  {
    if LineReady(c) {
      ConsumesFound(c);
    } else if c.source == [] {
      ConsumesStop(c);
    } else {
      PullingKeepsPending(c);
      NextLineConsumesFirstLine(Pulling(c));
      ConsumesPull(c);
    }
  }

  lemma LazyPull(c: Cursor)
    requires Inv(c) && !LineReady(c) && c.source != []
    requires PullsLazily(Pulling(c)) && MovesBytes(Pulling(c))
    ensures PullsLazily(c)
  {
    NextLinePulls(c);
    PullingKeepsPending(c);
    NoLineReady(c);
    MovesToLength(Pulling(c), NextLine(c).1);
    LazyToPull(c, NextLine(c).1);
    LazyByOutcome(c, NextLine(c).1);
  }

  /** What a call does after pulling a payload into a buffer without a
      complete line, it does lazily from before the pull. */
  lemma LazyToPull(c: Cursor, d: Cursor)
    requires Inv(c) && c.source != [] && NL !in c.buffer[c.readPos..]
    requires Pending(Pulling(c)) == Pending(c) && LazyTo(Pulling(c), d)
    requires |d.source| <= |c.source| - 1
    requires |d.source| == |c.source| - 1 ==> |d.buffer| == |Pulling(c).buffer|
    ensures LazyTo(c, d)
  {
    var p := Pulling(c);
    var k := |c.source| - |d.source|;
    if FirstNewline(Pending(c)).Some? && 0 < k {
      var i := FirstNewline(Pending(c)).value;
      if k == 1 {
        var x := c.buffer[c.readPos..];
        assert forall j :: 0 <= j < |x| ==> Pending(c)[j] == x[j];
      } else {
        assert p.source[k - 2] == c.source[k - 1];
      }
    }
  }

  /** A call that pulls nothing leaves the buffer as long as it was. */
  lemma MovesToLength(c: Cursor, d: Cursor)
    requires MovesTo(c, d)
    ensures |d.source| == |c.source| ==> |d.buffer| == |c.buffer|
  {
    if |d.source| == |c.source| {
      assert d.source == c.source;
      assert |d.buffer + Concat(d.source)| == |c.buffer + Concat(c.source)|;
    }
  }

  lemma LazyByOutcome(c: Cursor, d: Cursor)
    requires Inv(c) && NextLine(c).1 == d && LazyTo(c, d)
    ensures PullsLazily(c)
  {
  }

  lemma {:induction false} NextLinePullsLazily(c: Cursor)
    requires Inv(c)
    ensures PullsLazily(c)
    decreases |c.source|
  {
    if LineReady(c) {
      NextLineFound(c);
    } else if c.source != [] {
      PullingKeepsPending(c);
      NextLinePullsLazily(Pulling(c));
      NextLineMovesBytes(Pulling(c));
      LazyPull(c);
    }
  }

  /** Decoding lines that start with `line`. */
  lemma DecodeLinesCons(codec: Codec, line: seq<byte>, rest: seq<seq<byte>>)
    ensures DecodeLine(codec, line).Failure? ==>
      DecodeLines(codec, [line] + rest) == Failure(DecodeLine(codec, line).error)
    ensures DecodeLine(codec, line).Success? ==>
      DecodeLines(codec, [line] + rest) == Prepend([DecodeLine(codec, line).value], DecodeLines(codec, rest))
  {
    assert ([line] + rest)[0] == line && ([line] + rest)[1..] == rest;
  }

  /** How one outcome of `__next__` relates what iterating on yields for the
      unread bytes `u` before the call to what it yields for the bytes `rest`
      unread after it. */
  ghost predicate Accounts(codec: Codec, dropped: bool, step: Step, u: seq<byte>, rest: seq<byte>) {
    && (step.Stop? ==> Outcome(codec, u, dropped) == Success([]))
    && (step.Yield? ==> Outcome(codec, u, dropped) == Prepend([step.token], Outcome(codec, rest, dropped)) && |rest| < |u|)
    && (step.Fail? ==> Outcome(codec, u, dropped) == Failure(step.error))
  }

  /** Each call of `__next__` accounts for exactly one complete line of the
      unread bytes: a token is that line's token, with the rest of the stream
      still to iterate after it; an exception is that line's error, or the
      stream's own once no complete line is left; and iteration stops only
      when what is unread yields no token at all. */
  lemma StepDecodes(codec: Codec, dropped: bool, c: Cursor)
    requires Inv(c)
    ensures NextLine(c).1.readPos <= |NextLine(c).1.buffer|
    ensures Accounts(codec, dropped, StepFor(codec, dropped, NextLine(c).0), Pending(c), Pending(NextLine(c).1))
  {
    NextLineConsumesFirstLine(c);
    var u := Pending(c);
    var d := NextLine(c).1;
    match FirstNewline(u)
    case None =>
      assert NextLine(c).0 == None;
      NoLineOutcome(codec, dropped, u);
    case Some(i) =>
      assert NextLine(c).0 == Some(u[..i]) && Pending(d) == u[i + 1..];
      FirstLineOutcome(codec, dropped, u, i);
  }

  /** Bytes without a complete line yield only the byte iterator's end. */
  lemma NoLineOutcome(codec: Codec, dropped: bool, u: seq<byte>)
    requires FirstNewline(u).None?
    ensures Outcome(codec, u, dropped) == EndOf(dropped)
  {
    var none: seq<Option<string>> := [];
    assert none + none == none;
  }

  /** What iterating on yields for bytes whose first terminator is at `i`:
      the first line's error, or its token in front of what the rest yields. */
  lemma FirstLineOutcome(codec: Codec, dropped: bool, u: seq<byte>, i: nat)
    requires FirstNewline(u) == Some(i)
    ensures DecodeLine(codec, u[..i]).Failure? ==>
      Outcome(codec, u, dropped) == Failure(DecodeLine(codec, u[..i]).error)
    ensures DecodeLine(codec, u[..i]).Success? ==>
      Outcome(codec, u, dropped) == Prepend([DecodeLine(codec, u[..i]).value], Outcome(codec, u[i + 1..], dropped))
  {
    var rest := u[i + 1..];
    LinesUnfold(u, i);
    DecodeLinesCons(codec, u[..i], Lines(rest));
    if DecodeLine(codec, u[..i]).Success? {
      ChainPrepend([DecodeLine(codec, u[..i]).value], DecodeStream(codec, rest), EndOf(dropped));
    }
  }

  /** A `MessageTokenIterator`. */
  class MessageTokenIterator {
    const codec: Codec
    /** How `self.byte_iterator` ends after its last payload. */
    const dropped: bool
    /** `self.byte_iterator`: the payloads it has still to deliver. */
    var source: seq<seq<byte>>
    /** `self.buffer`: the payloads pulled so far, appended in order. */
    var buffer: seq<byte>
    /** `self.read_pos`. */
    var readPos: nat

    function At(): Cursor
      reads this
    {
      Cursor(buffer, readPos, source)
    }

    ghost predicate Valid()
      reads this
    {
      Inv(At())
    }

    /** Every byte not yet consumed. */
    ghost function Unread(): seq<byte>
      reads this
      requires Valid()
    {
      Pending(At())
    }

    /** `__init__`: an empty buffer, the cursor at 0, nothing pulled. */
    constructor (stream: seq<seq<byte>>, dropped: bool, codec: Codec)
      ensures Valid()
      ensures this.codec == codec && this.dropped == dropped
      ensures source == stream && buffer == [] && readPos == 0
      ensures Unread() == Concat(stream)
    {
      this.codec := codec;
      this.dropped := dropped;
      source := stream;
      buffer := [];
      readPos := 0;
    }

    /** `__next__`: the loop `NextLine` describes, run from where the
        iterator stands, and the decoding of the line it returns; when there
        is none, StopIteration or the byte iterator's exception. */
    method Next() returns (step: Step)
      requires Valid()
      modifies this
      ensures step == StepFor(codec, dropped, NextLine(old(At())).0)
      ensures At() == NextLine(old(At())).1
      ensures Valid()
    {
      ghost var c0 := At();
      NextLineMovesBytes(c0);
      while true
        invariant Valid()
        invariant NextLine(At()) == NextLine(c0)
        decreases |source|
      {
        var line := ReadLine(buffer, readPos);
        if EndsLine(line) {
          NextLineFound(At());
          readPos := readPos + |line|;
          step := StepOf(codec, line[..|line| - 1]);
          return;
        }
        if source == [] {
          step := if dropped then Fail(StreamError) else Stop;
          return;
        }
        NextLinePulls(At());
        PullingKeepsPending(At());
        buffer := buffer + source[0];
        source := source[1..];
      }
    }
  }
}
