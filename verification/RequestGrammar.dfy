/**
 Whole requests, read at once: the head line by line, then the body chunk by chunk or by its
 length, then the trailers line by line.  For every input the incremental parser does what this
 reading says.
 */
module RequestGrammar {
  import opened Bytes
  import opened HeaderMachine
  import opened ChunkMachine
  import opened Parsing
  import opened ParserFacts
  import opened RequestText
  import opened Requests
  import HeadGrammar
  import ChunkGrammar

  /** A complete request and the number of bytes it takes; or how the reading ends without one. */
  datatype Reading =
    | Whole(q: Request, handled: bool, fields: seq<Field>, content: string, payload: string, n: nat)
    | Stopped(verdict: Verdict, n: nat)
  {
    function Plus(k: nat): Reading {
      this.(n := n + k)
    }
  }

  // Both readings stay inside the input.

  lemma HeadIsThere(s: string)
    ensures HeadGrammar.ReadHead(s).n <= |s|
  {
    HeadGrammar.HeadIsGrammar(NEW_MACHINE, NEW_MESSAGE.head, s);
  }

  lemma ChunksAreThere(handled: bool, max: nat, s: string)
    ensures ChunkGrammar.Chunks(handled, max, "", s, 0).n <= |s|
  {
    ChunkGrammar.ChunksAreGrammar(handled, max, NEW_CHUNKER, "", s);
  }

  // The reading.

  /** A body of `n` bytes: all of it for a handler, and as much as the maximum allows for the message. */
  function FixedBody(max: nat, handled: bool, q: Request, n: nat, s: string): Reading {
    if |s| < n then Stopped(More, |s|)
    else if handled then Whole(q, true, q.fields, Zeros(Min(n, max)), s[..n], n)
    else Whole(q, false, q.fields, s[..Min(n, max)], "", n)
  }

  /** A chunked body, and the trailers that end a message without a handler. */
  function ChunkedBody(max: nat, handled: bool, q: Request, s: string): Reading {
    var b := ChunkGrammar.Chunks(handled, max, "", s, 0);
    ChunksAreThere(handled, max, s);
    if !b.verdict.Done? then Stopped(b.verdict, b.n)
    else if handled then Whole(q, true, q.fields, "", b.sink, b.n)
    else if !b.footers then Whole(q, false, q.fields, b.sink, "", b.n)
    else Trailers(q, b.sink, s[b.n..]).Plus(b.n)
  }

  function Trailers(q: Request, content: string, s: string): Reading {
    var t := HeadGrammar.LineStart(s, 0, q.major);
    if t.verdict.Done? then Whole(q, false, q.fields + t.fields, content, "", t.n) else Stopped(t.verdict, t.n)
  }

  /** What follows the head of `q`, by the framing of its fields and the decision of the hook. */
  function ReadBody(cfg: Config, h: Hook, q: Request, s: string): Reading {
    var f := cfg.framing(q.fields);
    if f.BadLength? then Stopped(Fail(InvalidContentLength), 0)
    else if h.Raise? then Stopped(Raised, 0)
    else if f.NoBody? || f == Length(0) then Whole(q, h.Install?, q.fields, "", "", 0)
    else if h.Finish? then
      Whole(q, false, q.fields, if f.Chunked? then "" else Zeros(Min(f.length, cfg.max)), "", 0)
    else if f.Chunked? then ChunkedBody(cfg.max, h.Install?, q, s)
    else FixedBody(cfg.max, h.Install?, q, f.length, s)
  }

  function ReadRequest(cfg: Config, hook: (string, string) -> Hook, s: string): Reading {
    var g := HeadGrammar.ReadHead(s);
    HeadIsThere(s);
    if !g.verdict.Done? then Stopped(g.verdict, g.n)
    else
      var q := RequestOf(g);
      ReadBody(cfg, hook(q.verb, q.resource), q, s[g.n..]).Plus(g.n)
  }

  /** The outcome `r` of a parser is what the reading `g` says. */
  predicate Agrees(cfg: Config, r: Outcome, g: Reading) {
    match g
    case Whole(q, handled, fields, content, payload, n) => Completes(cfg, r, q, handled, fields, content, payload, n)
    case Stopped(verdict, n) => r.verdict == verdict && r.n == n
  }

  lemma AgreesPlus(cfg: Config, r: Outcome, g: Reading, k: nat)
    requires Agrees(cfg, r, g)
    ensures Agrees(cfg, r.Plus(k), g.Plus(k))
  {
  }

  // Heads.

  /** The head that a reading of the lines ends with. */
  function RequestOf(g: HeadGrammar.HeadRead): Request {
    Request(g.verb, g.resource, g.query, g.head.major, g.head.minor, g.head.fields)
  }

  lemma HeadRun(saveRaw: bool, s: string) returns (o: Out)
    ensures o == Run(saveRaw, NEW_MACHINE, NEW_MESSAGE.head, s)
    ensures var g := HeadGrammar.ReadHead(s);
      && o.verdict == g.verdict && o.n == g.n <= |s|
      && (o.verdict.Done? ==>
            o.h.verb == g.verb && o.h.resource == g.resource && o.h.query == g.query && o.m == g.head)
  {
    var h, m := NEW_MACHINE, NEW_MESSAGE.head;
    HeadGrammar.HeadIsGrammar(h, m, s);
    RunUpToRaw(saveRaw, h, "", m, s);
    o := Run(saveRaw, h, m, s);
  }

  /** The parser behind the run `o` of a new header machine. */
  lemma NewHead(cfg: Config, s: string, o: Out)
    requires s != "" && o == Run(cfg.saveRaw, NEW_MACHINE, NEW_MESSAGE.head, s)
    ensures var r, p := ParseRun(cfg, NewReader(), s), WithHead(NewReader(), o);
      if o.verdict.Done? then
        && r == Continue(cfg, FinishHeaders(cfg, p), s[o.n..]).Plus(o.n)
        && HasHead(p, Request(o.h.verb, o.h.resource, o.h.query, o.m.major, o.m.minor, o.m.fields))
      else r.verdict == o.verdict && r.n == o.n
  {
    HeadersLoop(cfg, NewReader(), s);
  }

  /** The parser at the end of a head. */
  lemma AnyHead(cfg: Config, s: string) returns (p: Parser)
    ensures var g, r := HeadGrammar.ReadHead(s), ParseRun(cfg, NewReader(), s);
      if !g.verdict.Done? then r.verdict == g.verdict && r.n == g.n
      else
        && g.n <= |s| && HasHead(p, RequestOf(g))
        && r == Continue(cfg, FinishHeaders(cfg, p), s[g.n..]).Plus(g.n)
  {
    var o := HeadRun(cfg.saveRaw, s);
    p := WithHead(NewReader(), o);
    if s != "" {
      NewHead(cfg, s, o);
    }
  }

  // Fixed-length bodies.

  lemma FixedBodyRun(cfg: Config, p: Parser, q: Request, n: nat, s: string)
    requires !cfg.headersOnly && n > 0 && p.stage.Content? && p.remaining == n && p.contentRead == 0 && p.payload == ""
    requires ValidChunker(p.chk) && p.msg == Buffered(cfg, q, n)
    ensures Agrees(cfg, ParseRun(cfg, p, s), FixedBody(cfg.max, p.handler, q, n, s))
  {
    if s != "" {
      ContentLoop(cfg, p, s);
      if |s| >= n {
        WholeBody(cfg, p, q, s[..n]);
        assert s[..n][..Min(n, cfg.max)] == s[..Min(n, cfg.max)];
      }
    }
  }

  lemma WholeBody(cfg: Config, p: Parser, q: Request, body: string)
    requires !cfg.headersOnly && p.stage.Content? && p.remaining == |body| > 0 && p.contentRead == 0 && p.payload == ""
    requires ValidChunker(p.chk) && p.msg == Buffered(cfg, q, |body|)
    ensures var kept := Min(|body|, cfg.max);
      Completes(cfg, Ended(cfg, TakeContent(cfg, p, body)), q, p.handler, q.fields,
                if p.handler then Zeros(kept) else body[..kept], if p.handler then body else "", |body|)
  {
    var kept := Min(|body|, cfg.max);
    assert "" + body == body;
    FillFromStart(cfg.max, |body|, body);
    assert body[..kept] + Zeros(0) == body[..kept];
    EndedCompletes(cfg, TakeContent(cfg, p, body).p, q, q.fields,
                   if p.handler then Zeros(kept) else body[..kept], |body|);
  }

  // Chunked bodies.

  lemma TrailersRun(cfg: Config, p: Parser, q: Request, content: string, s: string)
    requires !cfg.headersOnly && p.stage.Footers? && p.hdr.state.HeaderStart? && p.contentRead == 0 && !p.handler
    requires ValidChunker(p.chk) && p.payload == ""
    requires p.msg == Opened(cfg, q).(cache := p.msg.cache, content := content, contentLength := |content|)
    ensures Agrees(cfg, ParseRun(cfg, p, s), Trailers(q, content, s))
  {
    HeadGrammar.TrailersAreGrammar(p.hdr, p.msg.head, s);
    RunUpToRaw(cfg.saveRaw, p.hdr, p.hdr.raw, p.msg.head, s);
    assert p.hdr.(raw := p.hdr.raw) == p.hdr;
    HeadersLoop(cfg, p, s);
    var o, t := Run(cfg.saveRaw, p.hdr, p.msg.head, s), HeadGrammar.LineStart(s, 0, q.major);
    if t.verdict.Done? {
      EndedCompletes(cfg, WithHead(p, o), q, q.fields + t.fields, content, t.n);
    }
  }

  lemma ChunkedBodyRun(cfg: Config, p: Parser, q: Request, s: string)
    requires !cfg.headersOnly && AtChunks(p) && p.payload == "" && p.msg == Opened(cfg, q)
    ensures Agrees(cfg, ParseRun(cfg, p, s), ChunkedBody(cfg.max, p.handler, q, s))
  {
    ChunkGrammar.ChunksAreGrammar(p.handler, cfg.max, p.chk, "", s);
    ChunksLoop(cfg, p, s);
    var o := ChunkRun(p.handler, cfg.max, p.chk, "", s);
    if o.verdict.Done? {
      AfterLastChunk(cfg, p, q, o, s);
    }
  }

  lemma AfterLastChunk(cfg: Config, p: Parser, q: Request, o: ChunkOut, s: string)
    requires !cfg.headersOnly && AtChunks(p) && p.payload == "" && p.msg == Opened(cfg, q)
    requires o.verdict.Done? && o.n <= |s| && ValidChunker(o.k)
    ensures var r := Continue(cfg, AfterChunks(p, o), s);
      if p.handler then Agrees(cfg, r, Whole(q, true, q.fields, "", o.sink, o.n))
      else if !o.footers then Agrees(cfg, r, Whole(q, false, q.fields, o.sink, "", o.n))
      else Agrees(cfg, r, Trailers(q, o.sink, s[o.n..]).Plus(o.n))
  {
    var x := AfterChunks(p, o);
    if p.handler {
      EndedCompletes(cfg, x.p, q, q.fields, "", o.n);
    } else if !o.footers {
      EndedCompletes(cfg, x.p, q, q.fields, o.sink, o.n);
    } else {
      TrailersRun(cfg, x.p, q, o.sink, s[o.n..]);
      AgreesPlus(cfg, ParseRun(cfg, x.p, s[o.n..]), Trailers(q, o.sink, s[o.n..]), o.n);
    }
  }

  // Requests.

  lemma BodyRun(cfg: Config, hook: (string, string) -> Hook, p: Parser, q: Request, s: string)
    requires HasHead(p, q) && Routes(cfg, hook)
    ensures Agrees(cfg, Continue(cfg, FinishHeaders(cfg, p), s), ReadBody(cfg, hook(q.verb, q.resource), q, s))
  {
    HeadFinished(cfg, hook, p, q);
    var f, h, o := cfg.framing(q.fields), hook(q.verb, q.resource), FinishHeaders(cfg, p);
    if !f.BadLength? && !h.Raise? {
      if f.NoBody? || f == Length(0) {
        EndedCompletes(cfg, o.p, q, q.fields, "", 0);
      } else if h.Finish? {
        EndedCompletes(cfg, o.p, q, q.fields, if f.Chunked? then "" else Zeros(Min(f.length, cfg.max)), 0);
      } else {
        assert s[0..] == s;
        if f.Chunked? {
          ChunkedBodyRun(cfg, o.p, q, s);
        } else {
          FixedBodyRun(cfg, o.p, q, f.length, s);
        }
      }
    }
  }

  /**
   For every input of a new parser, whatever its settings and whatever the hook decides: the
   parser ends with the verdict and the error of the reading, after as many bytes, and what it
   reports of a complete request is what was read.
   */
  lemma RequestIsGrammar(cfg: Config, hook: (string, string) -> Hook, s: string)
    requires Routes(cfg, hook)
    ensures Agrees(cfg, ParseRun(cfg, NewReader(), s), ReadRequest(cfg, hook, s))
  {
    var p := AnyHead(cfg, s);
    var g := HeadGrammar.ReadHead(s);
    if g.verdict.Done? {
      var q := RequestOf(g);
      BodyRun(cfg, hook, p, q, s[g.n..]);
      AgreesPlus(cfg, Continue(cfg, FinishHeaders(cfg, p), s[g.n..]),
                 ReadBody(cfg, hook(q.verb, q.resource), q, s[g.n..]), g.n);
    }
  }

  /** The same for a stream that arrives in any pieces. */
  lemma AnyCuttingIsGrammar(cfg: Config, hook: (string, string) -> Hook, cuts: seq<string>)
    requires Routes(cfg, hook)
    ensures Agrees(cfg, FeedAll(cfg, NewReader(), cuts), ReadRequest(cfg, hook, Flatten(cuts)))
  {
    FeedAllIsParseRun(cfg, NewReader(), cuts);
    RequestIsGrammar(cfg, hook, Flatten(cuts));
  }
}
