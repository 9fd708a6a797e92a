/**
 Whole requests: printed and parsed back by the incremental parser, under every hook that may
 run once the head is complete.
 */
module Requests {
  import opened Bytes
  import opened HeaderMachine
  import opened ChunkMachine
  import opened ChunkText
  import opened Parsing
  import opened ParserFacts
  import opened RequestText
  import ChunkLimits

  /** A parser that has just read the head of `q` into a new message. */
  predicate HasHead(p: Parser, q: Request) {
    && p.stage.Headers? && p.chk == NEW_CHUNKER && p.contentRead == 0 && p.remaining == 0
    && !p.handler && p.payload == ""
    && p.hdr.verb == q.verb && p.hdr.resource == q.resource && p.hdr.query == q.query
    && p.msg == NEW_MESSAGE.(head := Head(q.major, q.minor, q.fields))
  }

  lemma ParseHead(cfg: Config, q: Request, rest: string) returns (p: Parser)
    requires Legal(q)
    ensures HasHead(p, q)
    ensures var o := FinishHeaders(cfg, p);
      ParseRun(cfg, NewReader(), HeadText(q) + rest)
        == (if o.verdict.More? then ParseRun(cfg, o.p, rest) else Ended(cfg, o)).Plus(|HeadText(q)|)
  {
    var text := HeadText(q);
    var r := HeadIsRead(cfg.saveRaw, q, rest);
    HeadersLoop(cfg, NewReader(), text + rest);
    p := WithHead(NewReader(), r);
    assert (text + rest)[|text|..] == rest;
  }

  lemma HeadIsRead(saveRaw: bool, q: Request, rest: string) returns (r: Out)
    requires Legal(q)
    ensures r == Run(saveRaw, NEW_MACHINE, NEW_MESSAGE.head, HeadText(q) + rest)
    ensures r.verdict == Done && r.n == |HeadText(q)| && r.m == Head(q.major, q.minor, q.fields)
    ensures r.h.verb == q.verb && r.h.resource == q.resource && r.h.query == q.query
  {
    var h := HeadRoundTrip(NEW_MACHINE, NEW_MESSAGE.head, q, rest);
    RunUpToRaw(saveRaw, NEW_MACHINE, "", NEW_MESSAGE.head, HeadText(q) + rest);
    assert [] + q.fields == q.fields;
    r := Run(saveRaw, NEW_MACHINE, NEW_MESSAGE.head, HeadText(q) + rest);
  }

  // What the hook decides.

  /** The hook looks at the method and the resource only, and parsing does not end with the head. */
  ghost predicate Routes(cfg: Config, hook: (string, string) -> Hook) {
    !cfg.headersOnly && forall m :: cfg.afterHeaders(m) == hook(m.verb, m.resource)
  }

  /** The message once the head of `q` is finished. */
  function Opened(cfg: Config, q: Request): Message {
    NEW_MESSAGE.(
      head := Head(q.major, q.minor, q.fields), verb := q.verb, resource := q.resource, query := q.query,
      queries := cfg.queryPairs(q.query), cookies := cfg.cookiePairs(q.fields),
      chunked := cfg.framing(q.fields).Chunked?)
  }

  /** What becomes of the verdict `v` on a finished head. */
  function Hooked(h: Hook, v: Verdict): Verdict {
    match h
    case Proceed => v
    case Install => v
    case Finish => Done
    case Raise => Raised
  }

  /** A body stage entered with the message `m`. */
  function Entered(p: Parser, h: Hook, stage: Stage, remaining: nat, m: Message): Parser {
    p.(stage := stage, remaining := remaining, handler := h.Install?, msg := m)
  }

  /** The message with a content buffer for a body of `n` bytes. */
  function Buffered(cfg: Config, q: Request, n: nat): Message {
    Opened(cfg, q).(contentLength := Min(n, cfg.max), content := Zeros(Min(n, cfg.max)))
  }

  lemma OpenedHead(cfg: Config, p: Parser, q: Request)
    requires HasHead(p, q)
    ensures ReadHead(cfg, p) == Opened(cfg, q)
  {
    assert [] + cfg.queryPairs(q.query) == cfg.queryPairs(q.query);
    assert [] + cfg.cookiePairs(q.fields) == cfg.cookiePairs(q.fields);
  }

  lemma HeadFinished(cfg: Config, hook: (string, string) -> Hook, p: Parser, q: Request)
    requires HasHead(p, q) && Routes(cfg, hook)
    ensures var h, o := hook(q.verb, q.resource), FinishHeaders(cfg, p);
      match cfg.framing(q.fields)
      case Chunked => o == Outcome(Entered(p, h, Chunks, 0, Opened(cfg, q)), Hooked(h, More), 0)
      case NoBody => o == Outcome(Entered(p, h, End, 0, Opened(cfg, q)), Hooked(h, Done), 0)
      case BadLength => o.verdict == Fail(InvalidContentLength) && o.n == 0 && o.p.msg == Opened(cfg, q)
      case Length(n) =>
        if n == 0 then o == Outcome(Entered(p, h, End, 0, Opened(cfg, q)), Hooked(h, Done), 0)
        else o == Outcome(Entered(p, h, Content, n, Buffered(cfg, q, n)), Hooked(h, More), 0)
  {
    OpenedHead(cfg, p, q);
  }

  // Arrival.

  /** The form in a body that ended up in the message. */
  function FormIn(cfg: Config, handler: bool, fields: seq<Field>, content: string): FormEnd {
    if handler then FormEnd([], false) else cfg.formPairs(fields, content)
  }

  /** The message of a completed request. */
  function Arrived(cfg: Config, q: Request, handler: bool, fields: seq<Field>, content: string,
                   cache: string): Message {
    Opened(cfg, q).(
      head := Head(q.major, q.minor, fields), contentLength := |content|, content := content, cache := cache,
      valid := true, status := StatusOK,
      queries := cfg.queryPairs(q.query) + FormIn(cfg, handler, fields, content).pairs)
  }

  /** `r` completes the request: with this content and payload, after reading `n` bytes. */
  predicate Completes(cfg: Config, r: Outcome, q: Request, handler: bool, fields: seq<Field>,
                      content: string, payload: string, n: nat) {
    && r.verdict == (if FormIn(cfg, handler, fields, content).raised then Raised else Done)
    && r.n == n && r.p.payload == payload
    && r.p.msg == Arrived(cfg, q, handler, fields, content, r.p.msg.cache)
  }

  /** The end of `parse` for a parser whose message lacks only what `finish` adds. */
  lemma EndedCompletes(cfg: Config, p: Parser, q: Request, fields: seq<Field>, content: string, n: nat)
    requires !cfg.headersOnly
    requires p.msg == Opened(cfg, q).(head := Head(q.major, q.minor, fields), contentLength := |content|,
                                      content := content, cache := p.msg.cache)
    ensures Completes(cfg, Ended(cfg, Outcome(p, Done, n)), q, p.handler, fields, content, p.payload, n)
  {
    assert content[..|content|] == content;
  }

  /** A request without a body. */
  lemma BodilessRequest(cfg: Config, hook: (string, string) -> Hook, q: Request, rest: string)
    requires Legal(q) && Routes(cfg, hook) && !hook(q.verb, q.resource).Raise?
    requires cfg.framing(q.fields) == NoBody || cfg.framing(q.fields) == Length(0)
    ensures Completes(cfg, ParseRun(cfg, NewReader(), HeadText(q) + rest), q, hook(q.verb, q.resource).Install?,
                      q.fields, "", "", |HeadText(q)|)
  {
    var p := ParseHead(cfg, q, rest);
    HeadFinished(cfg, hook, p, q);
    EndedCompletes(cfg, FinishHeaders(cfg, p).p, q, q.fields, "", 0);
  }

  /** A content length that is no number ends the request with its own error. */
  lemma BadLengthRequest(cfg: Config, hook: (string, string) -> Hook, q: Request, rest: string)
    requires Legal(q) && Routes(cfg, hook) && cfg.framing(q.fields) == BadLength
    ensures var r := ParseRun(cfg, NewReader(), HeadText(q) + rest);
      r.verdict == Fail(InvalidContentLength) && !r.p.msg.valid && r.p.msg.status == StatusTruncated
  {
    var p := ParseHead(cfg, q, rest);
    HeadFinished(cfg, hook, p, q);
  }

  /** A hook that raises an exception ends `parse` at the head. */
  lemma RaisedRequest(cfg: Config, hook: (string, string) -> Hook, q: Request, rest: string)
    requires Legal(q) && Routes(cfg, hook) && hook(q.verb, q.resource).Raise? && cfg.framing(q.fields) != BadLength
    ensures var r := ParseRun(cfg, NewReader(), HeadText(q) + rest);
      r.verdict == Raised && r.n == |HeadText(q)|
  {
    var p := ParseHead(cfg, q, rest);
    HeadFinished(cfg, hook, p, q);
  }

  /** A body announced to a hook that ends the message: the request is complete, its body unread. */
  lemma UnreadBody(cfg: Config, hook: (string, string) -> Hook, q: Request, rest: string)
    requires Legal(q) && Routes(cfg, hook) && hook(q.verb, q.resource).Finish?
    requires var f := cfg.framing(q.fields); f.Chunked? || (f.Length? && f.length > 0)
    ensures var f := cfg.framing(q.fields);
      Completes(cfg, ParseRun(cfg, NewReader(), HeadText(q) + rest), q, false, q.fields,
                if f.Chunked? then "" else Zeros(Min(f.length, cfg.max)), "", |HeadText(q)|)
  {
    var p := ParseHead(cfg, q, rest);
    HeadFinished(cfg, hook, p, q);
    var f := cfg.framing(q.fields);
    EndedCompletes(cfg, FinishHeaders(cfg, p).p, q, q.fields,
                   if f.Chunked? then "" else Zeros(Min(f.length, cfg.max)), 0);
  }

  /** A fixed-length body, to a handler or into the message, of which the message keeps what the maximum allows. */
  lemma FixedLengthRequest(cfg: Config, hook: (string, string) -> Hook, q: Request, body: string, rest: string)
    requires Legal(q) && Routes(cfg, hook) && cfg.framing(q.fields) == Length(|body|) && body != ""
    requires hook(q.verb, q.resource).Install? || hook(q.verb, q.resource).Proceed?
    ensures var handled, kept := hook(q.verb, q.resource).Install?, Min(|body|, cfg.max);
      Completes(cfg, ParseRun(cfg, NewReader(), HeadText(q) + (body + rest)), q, handled, q.fields,
                if handled then Zeros(kept) else body[..kept], if handled then body else "", |HeadText(q)| + |body|)
  {
    var p := ParseHead(cfg, q, body + rest);
    HeadFinished(cfg, hook, p, q);
    var at, kept := FinishHeaders(cfg, p).p, Min(|body|, cfg.max);
    ContentLoop(cfg, at, body + rest);
    assert (body + rest)[..|body|] == body && "" + body == body;
    FillFromStart(cfg.max, |body|, body);
    assert body[..kept] + Zeros(0) == body[..kept];
    EndedCompletes(cfg, TakeContent(cfg, at, body).p, q, q.fields,
                   if at.handler then Zeros(kept) else body[..kept], |body|);
  }

  // Chunked bodies.

  /** The text of a chunked body with trailer fields (section 4.1.2 of RFC 7230). */
  function TrailedText(sends: seq<string>, trailers: seq<Field>): string {
    (Frames(sends) + SizeLine(0)) + (FieldsText(trailers) + CRLF)
  }

  lemma NoTrailers(sends: seq<string>)
    ensures TrailedText(sends, []) == ChunkedText(sends)
  {
    assert "" + CRLF == CRLF;
    Assoc(Frames(sends), SizeLine(0), CRLF);
  }

  /** Where a chunked body starts. */
  predicate AtChunks(p: Parser) {
    p.stage.Chunks? && p.chk.state.SizeStart? && p.contentRead == 0 && p.msg.cache == ""
  }

  /** A chunked body without trailers: the content is the data sent. */
  lemma ChunkedBody(cfg: Config, p: Parser, sends: seq<string>, rest: string) returns (p': Parser)
    requires AtChunks(p) && !p.handler && Sendable(sends) && |Flatten(sends)| <= cfg.max
    ensures var data := Flatten(sends);
      p'.handler == p.handler && p'.payload == p.payload
      && p'.msg == p.msg.(cache := data, content := data, contentLength := |data|)
    ensures ParseRun(cfg, p, ChunkedText(sends) + rest) == Ended(cfg, Outcome(p', Done, |ChunkedText(sends)|))
  {
    var s, data := ChunkedText(sends) + rest, Flatten(sends);
    ChunkedRoundTrip(false, cfg.max, p.chk, "", sends, rest);
    assert "" + data == data;
    ChunksLoop(cfg, p, s);
    p' := AfterChunks(p, ChunkRun(false, cfg.max, p.chk, "", s)).p;
  }

  /** A chunked body over the maximum never completes without a handler. */
  lemma ChunkedBodyTooLong(cfg: Config, p: Parser, sends: seq<string>, rest: string)
    requires AtChunks(p) && !p.handler && Sendable(sends) && |Flatten(sends)| > cfg.max
    ensures var r := ParseRun(cfg, p, Frames(sends) + rest);
      r.verdict.More? || r.verdict.Fail?
  {
    ChunkLimits.FramesTooLong(cfg.max, p.chk, "", sends, rest);
    ChunksLoop(cfg, p, Frames(sends) + rest);
  }

  /** With a payload handler, the handler is given exactly the data sent. */
  lemma ChunkedBodyHandled(cfg: Config, p: Parser, sends: seq<string>, rest: string) returns (p': Parser)
    requires AtChunks(p) && p.handler && Sendable(sends)
    ensures p'.handler && p'.payload == p.payload + Flatten(sends) && p'.msg == p.msg
    ensures ParseRun(cfg, p, ChunkedText(sends) + rest) == Ended(cfg, Outcome(p', Done, |ChunkedText(sends)|))
  {
    var s := ChunkedText(sends) + rest;
    ChunkedRoundTrip(true, cfg.max, p.chk, p.payload, sends, rest);
    ChunksLoop(cfg, p, s);
    p' := AfterChunks(p, ChunkRun(true, cfg.max, p.chk, p.payload, s)).p;
  }

  /** A payload handler ends the message at its last chunk: trailers stay unread. */
  lemma TrailersUnread(cfg: Config, p: Parser, sends: seq<string>, rest: string) returns (p': Parser)
    requires AtChunks(p) && p.handler && Sendable(sends) && rest != "" && rest[0] != '\r'
    ensures var text := Frames(sends) + SizeLine(0);
      && p'.handler && p'.payload == p.payload + Flatten(sends) && p'.msg == p.msg
      && ParseRun(cfg, p, text + rest) == Ended(cfg, Outcome(p', Done, |text|))
  {
    var s := Frames(sends) + SizeLine(0) + rest;
    ChunkedThenTrailers(true, cfg.max, p.chk, p.payload, sends, rest);
    ChunksLoop(cfg, p, s);
    p' := AfterChunks(p, ChunkRun(true, cfg.max, p.chk, p.payload, s)).p;
  }

  /** The parser after the chunks of a body that has trailers. */
  function AtTrailers(p: Parser, data: string): Parser {
    p.(stage := Footers, hdr := p.hdr.(state := HeaderStart), chk := Sized(0),
       msg := p.msg.(cache := data, content := data, contentLength := |data|))
  }

  lemma ParseToTrailers(cfg: Config, p: Parser, sends: seq<string>, rest: string)
    requires AtChunks(p) && !p.handler && Sendable(sends) && |Flatten(sends)| <= cfg.max
    requires rest != "" && rest[0] != '\r'
    ensures var text := Frames(sends) + SizeLine(0);
      ParseRun(cfg, p, text + rest) == ParseRun(cfg, AtTrailers(p, Flatten(sends)), rest).Plus(|text|)
  {
    var text, data := Frames(sends) + SizeLine(0), Flatten(sends);
    ChunkedThenTrailers(false, cfg.max, p.chk, "", sends, rest);
    assert "" + data == data;
    ChunksLoop(cfg, p, text + rest);
    assert (text + rest)[|text|..] == rest;
  }

  lemma ParseTrailers(cfg: Config, p: Parser, trailers: seq<Field>, rest: string) returns (p': Parser)
    requires p.stage.Footers? && p.hdr.state.HeaderStart? && p.contentRead == 0 && ValidChunker(p.chk)
    requires p.msg.head.major != 0 && (forall f | f in trailers :: LegalField(f))
    ensures p'.handler == p.handler && p'.payload == p.payload
    ensures p'.msg == p.msg.(head := p.msg.head.(fields := p.msg.head.fields + trailers))
    ensures var t := FieldsText(trailers) + CRLF;
      ParseRun(cfg, p, t + rest) == Ended(cfg, Outcome(p', Done, |t|))
  {
    var t := FieldsText(trailers) + CRLF;
    var h := ReadHeaderSection(p.hdr, p.msg.head, trailers, rest);
    RunUpToRaw(cfg.saveRaw, p.hdr, p.hdr.raw, p.msg.head, t + rest);
    assert p.hdr.(raw := p.hdr.raw) == p.hdr;
    HeadersLoop(cfg, p, t + rest);
    p' := WithHead(p, Run(cfg.saveRaw, p.hdr, p.msg.head, t + rest));
  }

  lemma TrailerStart(trailers: seq<Field>, rest: string)
    requires trailers != [] && LegalField(trailers[0])
    ensures var t := FieldsText(trailers) + CRLF + rest;
      t != "" && t[0] == trailers[0].name[0] && t[0] != '\r'
  {
    assert FieldsText(trailers)[0] == trailers[0].name[0];
  }

  /**
   A chunked body followed by any trailer fields, without a handler: the content is the data
   sent, and the header fields are followed by the trailers.
   */
  lemma TrailedBody(cfg: Config, p: Parser, sends: seq<string>, trailers: seq<Field>, rest: string) returns (p': Parser)
    requires AtChunks(p) && !p.handler && Sendable(sends) && |Flatten(sends)| <= cfg.max
    requires p.msg.head.major != 0 && (forall f | f in trailers :: LegalField(f))
    ensures var data := Flatten(sends);
      && p'.handler == p.handler && p'.payload == p.payload
      && p'.msg == p.msg.(cache := data, content := data, contentLength := |data|,
                          head := p.msg.head.(fields := p.msg.head.fields + trailers))
    ensures ParseRun(cfg, p, TrailedText(sends, trailers) + rest)
         == Ended(cfg, Outcome(p', Done, |TrailedText(sends, trailers)|))
  {
    var text, tail := Frames(sends) + SizeLine(0), FieldsText(trailers) + CRLF;
    if trailers == [] {
      NoTrailers(sends);
      assert p.msg.head.fields + [] == p.msg.head.fields;
      p' := ChunkedBody(cfg, p, sends, rest);
    } else {
      TrailerStart(trailers, rest);
      ParseToTrailers(cfg, p, sends, tail + rest);
      p' := ParseTrailers(cfg, AtTrailers(p, Flatten(sends)), trailers, rest);
      Assoc(text, tail, rest);
    }
  }

  /** A chunked request, with or without trailers, kept in the message. */
  lemma ChunkedRequest(cfg: Config, hook: (string, string) -> Hook, q: Request, sends: seq<string>,
                       trailers: seq<Field>, rest: string)
    requires Legal(q) && Routes(cfg, hook) && hook(q.verb, q.resource).Proceed? && cfg.framing(q.fields) == Chunked
    requires Sendable(sends) && |Flatten(sends)| <= cfg.max && forall f | f in trailers :: LegalField(f)
    ensures var text := TrailedText(sends, trailers);
      Completes(cfg, ParseRun(cfg, NewReader(), HeadText(q) + (text + rest)), q, false,
                q.fields + trailers, Flatten(sends), "", |HeadText(q)| + |text|)
  {
    var text := TrailedText(sends, trailers);
    var p := ParseHead(cfg, q, text + rest);
    HeadFinished(cfg, hook, p, q);
    var p' := TrailedBody(cfg, FinishHeaders(cfg, p).p, sends, trailers, rest);
    EndedCompletes(cfg, p', q, q.fields + trailers, Flatten(sends), |text|);
  }

  /** A chunked request without trailers, given to a payload handler. */
  lemma ChunkedRequestHandled(cfg: Config, hook: (string, string) -> Hook, q: Request, sends: seq<string>, rest: string)
    requires Legal(q) && Routes(cfg, hook) && hook(q.verb, q.resource).Install? && cfg.framing(q.fields) == Chunked
    requires Sendable(sends)
    ensures var text := ChunkedText(sends);
      Completes(cfg, ParseRun(cfg, NewReader(), HeadText(q) + (text + rest)), q, true,
                q.fields, "", Flatten(sends), |HeadText(q)| + |text|)
  {
    var text := ChunkedText(sends);
    var p := ParseHead(cfg, q, text + rest);
    HeadFinished(cfg, hook, p, q);
    var p' := ChunkedBodyHandled(cfg, FinishHeaders(cfg, p).p, sends, rest);
    assert "" + Flatten(sends) == Flatten(sends);
    EndedCompletes(cfg, p', q, q.fields, "", |text|);
  }

  /** With a payload handler the request is complete before its trailers. */
  lemma TrailedRequestHandled(cfg: Config, hook: (string, string) -> Hook, q: Request, sends: seq<string>, rest: string)
    requires Legal(q) && Routes(cfg, hook) && hook(q.verb, q.resource).Install? && cfg.framing(q.fields) == Chunked
    requires Sendable(sends) && rest != "" && rest[0] != '\r'
    ensures var text := Frames(sends) + SizeLine(0);
      Completes(cfg, ParseRun(cfg, NewReader(), HeadText(q) + (text + rest)), q, true,
                q.fields, "", Flatten(sends), |HeadText(q)| + |text|)
  {
    var text := Frames(sends) + SizeLine(0);
    var p := ParseHead(cfg, q, text + rest);
    HeadFinished(cfg, hook, p, q);
    var p' := TrailersUnread(cfg, FinishHeaders(cfg, p).p, sends, rest);
    assert "" + Flatten(sends) == Flatten(sends);
    EndedCompletes(cfg, p', q, q.fields, "", |text|);
  }

  /** A chunked request over the maximum, kept in the message: it never completes. */
  lemma ChunkedRequestTooLong(cfg: Config, hook: (string, string) -> Hook, q: Request, sends: seq<string>, rest: string)
    requires Legal(q) && Routes(cfg, hook) && hook(q.verb, q.resource).Proceed? && cfg.framing(q.fields) == Chunked
    requires Sendable(sends) && |Flatten(sends)| > cfg.max
    ensures var r := ParseRun(cfg, NewReader(), HeadText(q) + (Frames(sends) + rest));
      r.verdict.More? || r.verdict.Fail?
  {
    var p := ParseHead(cfg, q, Frames(sends) + rest);
    HeadFinished(cfg, hook, p, q);
    ChunkedBodyTooLong(cfg, FinishHeaders(cfg, p).p, sends, rest);
  }
}
