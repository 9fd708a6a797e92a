/**
 Facts about every run of the parser: what a reset leaves behind, fixed-length bodies, and the
 head that is finished once.
 */
module ParserFacts {
  import opened Bytes
  import opened HeaderMachine
  import opened ChunkMachine
  import opened Parsing

  // Reset.

  /**
   `reset`: header name and value, the chunk size text and counters, and the remaining length
   keep their old values.
   */
  function Reset(p: Parser): Parser {
    p.(stage := Start,
       hdr := p.hdr.(state := MethodStart, verb := "", resource := "", query := "", raw := ""),
       chk := p.chk.(state := SizeStart),
       contentRead := 0)
  }

  /** Two parsers that differ only in fields that will be written before they are read. */
  predicate Same(p: Parser, q: Parser) {
    && q == p.(hdr := q.hdr, chk := q.chk, remaining := q.remaining)
    && SameMachine(p.hdr, q.hdr) && SameChunker(p.chk, q.chk)
    && (p.stage.Content? ==> p.remaining == q.remaining)
  }

  predicate SameOutcome(x: Outcome, y: Outcome) {
    Same(x.p, y.p) && x.verdict == y.verdict && x.n == y.n
  }

  lemma FinishHeadersSame(cfg: Config, p: Parser, q: Parser)
    requires Same(p, q)
    ensures SameOutcome(FinishHeaders(cfg, p), FinishHeaders(cfg, q))
  {
    assert ReadHead(cfg, p) == ReadHead(cfg, q);
    assert SameOutcome(ChooseBody(cfg, p), ChooseBody(cfg, q));
  }

  lemma AfterHeadersSame(cfg: Config, p: Parser, q: Parser, x: Out, y: Out)
    requires Same(p, q) && SameOut(x, y)
    ensures SameOutcome(AfterHeaders(cfg, p, x), AfterHeaders(cfg, q, y))
  {
    FinishHeadersSame(cfg, WithHead(p, x), WithHead(q, y));
  }

  lemma AfterChunksSame(p: Parser, q: Parser, x: ChunkOut, y: ChunkOut)
    requires Same(p, q) && SameChunker(x.k, y.k) && y == x.(k := y.k)
    ensures SameOutcome(AfterChunks(p, x), AfterChunks(q, y))
  {
    assert Same(WithSink(p, x.k, x.sink), WithSink(q, y.k, y.sink));
  }

  lemma ParseStepSame(cfg: Config, p: Parser, q: Parser, c: char)
    requires Valid(cfg, p) && Valid(cfg, q) && Same(p, q)
    ensures SameOutcome(ParseStep(cfg, p, c), ParseStep(cfg, q, c))
  {
    if InHeaders(p.stage) {
      StepSame(cfg.saveRaw, p.hdr, q.hdr, p.msg.head, c);
      AfterHeadersSame(cfg, p, q, Step(cfg.saveRaw, p.hdr, p.msg.head, c), Step(cfg.saveRaw, q.hdr, p.msg.head, c));
    } else if p.stage.Chunks? {
      ChunkStepSame(p.handler, cfg.max, p.chk, q.chk, Sink(p), c);
      AfterChunksSame(p, q, ChunkStep(p.handler, cfg.max, p.chk, Sink(p), c),
                      ChunkStep(p.handler, cfg.max, q.chk, Sink(p), c));
    }
  }

  lemma {:induction false} ParseRunSame(cfg: Config, p: Parser, q: Parser, s: string)
    requires Valid(cfg, p) && Valid(cfg, q) && Same(p, q)
    ensures SameOutcome(ParseRun(cfg, p, s), ParseRun(cfg, q, s))
    decreases |s|, Rank(p.stage)
  {
    if s != [] {
      ParseStepSame(cfg, p, q, s[0]);
      var x, y := ParseStep(cfg, p, s[0]), ParseStep(cfg, q, s[0]);
      if x.verdict.More? {
        ParseRunSame(cfg, x.p, y.p, s[x.n..]);
      }
    }
  }

  /**
   In whatever state a run left it, a reset parser given a fresh message behaves like a new
   one with the same handler, on every input, although six of its fields are stale.
   */
  lemma ResetIsFreshStart(cfg: Config, p: Parser, msg: Message, s: string)
    ensures var x := ParseRun(cfg, Reset(p).(msg := msg), s);
      var y := ParseRun(cfg, Fresh(p.handler, p.payload, msg), s);
      x.verdict == y.verdict && x.n == y.n && x.p.msg == y.p.msg && x.p.payload == y.p.payload && x.p.stage == y.p.stage
  {
    ParseRunSame(cfg, Reset(p).(msg := msg), Fresh(p.handler, p.payload, msg), s);
  }

  // Fixed-length bodies.

  /** Where a fixed-length body starts: nothing read yet, the buffer zeroed. */
  predicate AtBody(cfg: Config, p: Parser) {
    && p.stage.Content? && p.remaining > 0 && p.contentRead == 0 && ValidChunker(p.chk)
    && p.msg.content == Zeros(Min(p.remaining, cfg.max))
  }

  lemma CopyToZeros(size: nat, bytes: string)
    requires |bytes| <= size
    ensures CopyInto(Zeros(size), 0, bytes) == bytes + Zeros(size - |bytes|)
  {
    assert Zeros(size)[|bytes|..] == Zeros(size - |bytes|);
  }

  lemma FillFromStart(max: nat, size: nat, bytes: string)
    requires |bytes| <= size
    ensures Filled(max, Zeros(Min(size, max)), 0, bytes)
         == bytes[..Min(|bytes|, max)] + Zeros(Min(size, max) - Min(|bytes|, max))
  {
    var k, buf := Min(|bytes|, max), Zeros(Min(size, max));
    FilledIsCopy(max, buf, 0, bytes);
    if max > 0 {
      CopyToZeros(Min(size, max), bytes[..k]);
    }
  }

  /**
   A fixed-length body of `p.remaining` bytes, fed any stream: exactly the declared number of
   bytes is consumed, what is read and what remains add up to it, and the buffer holds the
   first bytes up to the maximum (or the handler got all of them).
   */
  lemma FixedLengthBody(cfg: Config, p: Parser, s: string)
    requires AtBody(cfg, p) && s != []
    ensures var r := ParseRun(cfg, p, s);
      var declared := p.remaining;
      var body := s[..Min(|s|, declared)];
      && r.n == |body|
      && (r.verdict.More? <==> |s| < declared) && !r.verdict.Fail? && (p.handler ==> !r.verdict.Raised?)
      && (r.verdict.More? ==> r.p.contentRead == |s| && r.p.contentRead + r.p.remaining == declared)
      && (p.handler ==> r.p.payload == p.payload + body)
      && (!p.handler ==> r.p.payload == p.payload)
      && (!p.handler ==>
            r.p.msg.content == body[..Min(|body|, cfg.max)] + Zeros(Min(declared, cfg.max) - Min(|body|, cfg.max)))
  {
    ContentLoop(cfg, p, s);
    var body := s[..Min(|s|, p.remaining)];
    FillFromStart(cfg.max, p.remaining, body);
    var taken := TakeContent(cfg, p, body);
    if |s| < p.remaining {
      assert s[taken.n..] == [];
    }
  }

  // The head.

  /** What finishing the head writes. */
  predicate SameHeadData(a: Message, b: Message) {
    && a.verb == b.verb && a.resource == b.resource && a.query == b.query
    && a.cookies == b.cookies && a.chunked == b.chunked
  }

  lemma HeadStaysFinished(cfg: Config, p: Parser, c: char)
    requires Valid(cfg, p) && Rank(p.stage) < 3
    ensures var r := ParseStep(cfg, p, c);
      Rank(r.p.stage) < 3 && SameHeadData(r.p.msg, p.msg)
  {
    match p.stage
    case Footers =>
      var q := WithHead(p, Step(cfg.saveRaw, p.hdr, p.msg.head, c));
      assert q.stage.Footers? && SameHeadData(q.msg, p.msg);
    case _ =>
  }

  lemma EndKeepsHead(cfg: Config, r: Outcome)
    requires Rank(r.p.stage) < 3
    ensures Rank(Ended(cfg, r).p.stage) < 3 && SameHeadData(Ended(cfg, r).p.msg, r.p.msg)
  {
  }

  /** Once the head is finished it is never finished again, trailers or not. */
  lemma {:induction false} HeadFinishedOnce(cfg: Config, p: Parser, s: string)
    requires Valid(cfg, p) && Rank(p.stage) < 3
    ensures var r := ParseRun(cfg, p, s);
      Rank(r.p.stage) < 3 && SameHeadData(r.p.msg, p.msg)
    decreases |s|, Rank(p.stage)
  {
    if s != [] {
      var r := ParseStep(cfg, p, s[0]);
      HeadStaysFinished(cfg, p, s[0]);
      if r.verdict.More? {
        HeadFinishedOnce(cfg, r.p, s[r.n..]);
      } else {
        EndKeepsHead(cfg, r);
      }
    }
  }
}
