/**
 The incremental request parser as a value: `parse` in src/http_parser.cpp one byte at a time.

 `ParseRun` is the specification that the class `HttpParser` refines; the theorems about every
 stream and every cutting of it are proved here.
 */
module Parsing {
  import opened Bytes
  import opened HeaderMachine
  import opened ChunkMachine

  datatype Stage = Start | Headers | Footers | Content | Chunks | End

  datatype Status = StatusNone | StatusTruncated | StatusOK

  datatype Message = Message(
    head: Head,
    verb: string, resource: string, query: string,
    queries: seq<Field>, cookies: seq<Field>,
    chunked: bool, contentLength: nat, content: string, cache: string,
    valid: bool, status: Status)

  /** A new `http_request`. */
  const NEW_MESSAGE := Message(Head(1, 1, []), "GET", "", "", [], [], false, 0, "", "", false, StatusNone)

  /** How the headers frame the body of a request. */
  datatype Framing = Chunked | Length(length: nat) | BadLength | NoBody

  /** What the hook called after the headers decides. */
  datatype Hook = Proceed | Install | Finish | Raise

  /** What a form body yields: its pairs, and whether parsing it left by an exception. */
  datatype FormEnd = FormEnd(pairs: seq<Field>, raised: bool)

  /**
   The settings of a parser, together with what it reads off a finished head or body.  The
   theorems hold for every choice; `Messages.Standard` gives the source's.
   */
  datatype Config = Config(
    max: nat, headersOnly: bool, saveRaw: bool,
    framing: seq<Field> -> Framing,
    queryPairs: string -> seq<Field>,
    cookiePairs: seq<Field> -> seq<Field>,
    formPairs: (seq<Field>, string) -> FormEnd,
    afterHeaders: Message -> Hook)

  /** The fields of `http_parser` (but for its byte counters) and the message it fills. */
  datatype Parser = Parser(
    stage: Stage, hdr: Machine, chk: Chunker,
    remaining: nat, contentRead: nat,
    handler: bool, payload: string, msg: Message)

  const NEW_MACHINE := Machine(MethodStart, "", "", "", "", "", "")
  const NEW_CHUNKER := Chunker(SizeStart, "", 0, 0)

  function Fresh(handler: bool, payload: string, msg: Message): Parser {
    Parser(Start, NEW_MACHINE, NEW_CHUNKER, 0, 0, handler, payload, msg)
  }

  /** A new `http_request_reader` with its new request. */
  function NewReader(): Parser {
    Fresh(false, "", NEW_MESSAGE)
  }

  /**
   What every step keeps: the chunk fields are usable, and inside a fixed-length body there
   is something left to read and the buffer holds the declared length cut to the maximum.
   */
  predicate Valid(cfg: Config, p: Parser) {
    && ValidChunker(p.chk)
    && (p.stage.Content? ==> p.remaining > 0 && |p.msg.content| == Min(p.contentRead + p.remaining, cfg.max))
    && (!p.stage.Content? ==> p.contentRead == 0)
  }

  datatype Outcome = Outcome(p: Parser, verdict: Verdict, n: nat) {
    function Plus(k: nat): Outcome {
      this.(n := n + k)
    }
  }

  function Zeros(n: nat): (s: string)
    ensures |s| == n
  {
    seq(n, _ => '\0')
  }

  // Headers.

  predicate InHeaders(s: Stage) {
    s.Start? || s.Headers? || s.Footers?
  }

  function WithHead(p: Parser, r: Out): Parser {
    p.(stage := if p.stage.Start? then Headers else p.stage, hdr := r.h, msg := p.msg.(head := r.m))
  }

  /** The message once its head is complete: request line, query pairs and cookies. */
  function ReadHead(cfg: Config, p: Parser): Message {
    p.msg.(
      contentLength := 0, chunked := cfg.framing(p.msg.head.fields).Chunked?,
      verb := p.hdr.verb, resource := p.hdr.resource, query := p.hdr.query,
      queries := p.msg.queries + cfg.queryPairs(p.hdr.query),
      cookies := p.msg.cookies + cfg.cookiePairs(p.msg.head.fields))
  }

  /** `finish_header_parsing` up to its hook. */
  function ChooseBody(cfg: Config, p: Parser): (r: Outcome)
    ensures r.n == 0 && (r.verdict.More? ==> r.p.stage.Chunks? || r.p.stage.Content?)
    ensures r.verdict.More? && ValidChunker(p.chk) ==> Valid(cfg, r.p)
  {
    var q := p.(remaining := 0, contentRead := 0, msg := ReadHead(cfg, p));
    var rest := if cfg.headersOnly then Done else More;
    match cfg.framing(p.msg.head.fields)
    case Chunked => Outcome(q.(stage := Chunks), rest, 0)
    case BadLength => Outcome(q, Fail(InvalidContentLength), 0)
    case NoBody => Outcome(q.(stage := End), Done, 0)
    case Length(n) =>
      if n == 0 then Outcome(q.(stage := End), Done, 0)
      else
        var kept := Min(n, cfg.max);
        var sized := q.msg.(contentLength := kept);
        Outcome(q.(stage := Content, remaining := n,
                   msg := if cfg.headersOnly then sized else sized.(content := Zeros(kept))), rest, 0)
  }

  /** `finish_header_parsing`: the hook may install a payload handler or end the message. */
  function FinishHeaders(cfg: Config, p: Parser): (r: Outcome)
    ensures r.n == 0 && (r.verdict.More? ==> r.p.stage.Chunks? || r.p.stage.Content?)
    ensures r.verdict.More? && ValidChunker(p.chk) ==> Valid(cfg, r.p)
  {
    var r := ChooseBody(cfg, p);
    if r.verdict.Fail? then r
    else
      match cfg.afterHeaders(r.p.msg)
      case Proceed => r
      case Install => r.(p := r.p.(handler := true))
      case Finish => r.(verdict := Done)
      case Raise => r.(verdict := Raised)
  }

  /** After `parse_headers` returns: a finished head is finished only once, and never for trailers. */
  function AfterHeaders(cfg: Config, p: Parser, r: Out): (o: Outcome)
    ensures o.n == r.n && (o.verdict.More? && Valid(cfg, p) && InHeaders(p.stage) ==> Valid(cfg, o.p))
  {
    var q := WithHead(p, r);
    if r.verdict.Done? && q.stage.Headers? then FinishHeaders(cfg, q).Plus(r.n)
    else Outcome(q, r.verdict, r.n)
  }

  function HeadersStep(cfg: Config, p: Parser, c: char): Outcome {
    AfterHeaders(cfg, p, Step(cfg.saveRaw, p.hdr, p.msg.head, c))
  }

  // Chunked bodies.

  function Sink(p: Parser): string {
    if p.handler then p.payload else p.msg.cache
  }

  function WithSink(p: Parser, k: Chunker, sink: string): Parser {
    if p.handler then p.(chk := k, payload := sink) else p.(chk := k, msg := p.msg.(cache := sink))
  }

  /** `concatenate_chunks`: the cache becomes the content. */
  function Concatenated(m: Message): Message {
    m.(contentLength := |m.cache|, content := m.cache)
  }

  /** After `parse_chunks` returns: trailers are parsed only when no handler is installed. */
  function AfterChunks(p: Parser, r: ChunkOut): (o: Outcome)
    ensures o.n == r.n
    ensures forall cfg: Config ::
      o.verdict.More? && Valid(cfg, p) && p.stage.Chunks? && ValidChunker(r.k) ==> Valid(cfg, o.p)
  {
    var q := WithSink(p, r.k, r.sink);
    if r.verdict.Done? then ChunksDone(q, r.footers).Plus(r.n) else Outcome(q, r.verdict, r.n)
  }

  /** All chunks are parsed. */
  function ChunksDone(p: Parser, footers: bool): Outcome {
    var q := if footers then p.(stage := Footers, hdr := p.hdr.(state := HeaderStart)) else p;
    if p.handler then Outcome(q, Done, 0)
    else Outcome(q.(msg := Concatenated(q.msg)), if footers then More else Done, 0)
  }

  function ChunksStep(cfg: Config, p: Parser, c: char): Outcome
    requires ValidChunker(p.chk)
  {
    AfterChunks(p, ChunkStep(p.handler, cfg.max, p.chk, Sink(p), c))
  }

  // Fixed-length bodies.

  /** How many of `n` more bytes still fit into the content buffer. */
  function Room(max: nat, read: nat, n: nat): (room: nat)
    ensures room <= n
  {
    if read >= max then 0 else Min(n, max - read)
  }

  /** `memcpy` into the content buffer; its precondition is that the write is in bounds. */
  function CopyInto(buf: string, at: nat, bytes: string): (r: string)
    requires at + |bytes| <= |buf|
    ensures |r| == |buf|
  {
    buf[..at] + bytes + buf[at + |bytes|..]
  }

  /** The buffer after every byte that still fits is put into its place. */
  function Filled(max: nat, buf: string, read: nat, bytes: string): (r: string)
    requires |buf| <= max && (read < max ==> read + |bytes| <= |buf| || |buf| == max)
    ensures |r| == |buf|
    decreases |bytes|
  {
    if bytes == [] then buf
    else Filled(max, if read < max then buf[read := bytes[0]] else buf, read + 1, bytes[1..])
  }

  /** `consume_content` on exactly the bytes it takes, in one piece. */
  function TakeContent(cfg: Config, p: Parser, bytes: string): (r: Outcome)
    requires Valid(cfg, p) && p.stage.Content? && |bytes| <= p.remaining
    ensures r.n == |bytes| && (r.verdict.More? ==> Valid(cfg, r.p))
    ensures r.verdict.More? <==> |bytes| < p.remaining
  {
    var q := p.(remaining := p.remaining - |bytes|, contentRead := p.contentRead + |bytes|);
    var q' := if p.handler then q.(payload := p.payload + bytes)
              else q.(msg := p.msg.(content := Filled(cfg.max, p.msg.content, p.contentRead, bytes)));
    Outcome(q', if q.remaining == 0 then Done else More, |bytes|)
  }

  // The whole machine.

  /** One byte: the loop body of `parse`, whatever the stage. */
  function ParseStep(cfg: Config, p: Parser, c: char): (r: Outcome)
    requires Valid(cfg, p)
    ensures r.n <= 1
    ensures r.verdict.More? ==> Valid(cfg, r.p) && (r.n == 1 || Rank(r.p.stage) < Rank(p.stage))
  {
    match p.stage
    case Content => TakeContent(cfg, p, [c])
    case Chunks => ChunksStep(cfg, p, c)
    case End => Outcome(p, Done, 0)
    case _ => HeadersStep(cfg, p, c)
  }

  function Rank(s: Stage): nat {
    match s
    case Start => 3
    case Headers => 3
    case Content => 2
    case Chunks => 2
    case Footers => 1
    case End => 0
  }

  /** The form in a finished body; a body that went to a handler is not looked at. */
  function Form(cfg: Config, p: Parser): FormEnd {
    if p.handler || cfg.headersOnly then FormEnd([], false)
    else cfg.formPairs(p.msg.head.fields, p.msg.content[..Min(p.msg.contentLength, |p.msg.content|)])
  }

  /** The end of `parse` on true: the stage, and `finish`. */
  function Completed(cfg: Config, p: Parser): Parser {
    var m := p.msg.(valid := true, status := StatusOK);
    p.(stage := End, contentRead := 0, msg := m.(queries := m.queries + Form(cfg, p).pairs))
  }

  /** `finish` is left by the exception of its form parser, if there is one. */
  function Finished(cfg: Config, p: Parser): Verdict {
    if Form(cfg, p).raised then Raised else Done
  }

  /** The end of `parse` on false. */
  function Rejected(p: Parser): Parser {
    p.(msg := p.msg.(status := StatusTruncated))
  }

  function Ended(cfg: Config, r: Outcome): Outcome {
    if r.verdict.Done? then r.(p := Completed(cfg, r.p), verdict := Finished(cfg, r.p))
    else if r.verdict.Fail? then r.(p := Rejected(r.p))
    else r
  }

  /** `parse` on the bytes `s`. */
  function ParseRun(cfg: Config, p: Parser, s: string): (r: Outcome)
    requires Valid(cfg, p)
    ensures r.n <= |s| && (r.verdict.More? ==> r.n == |s| && Valid(cfg, r.p))
    decreases |s|, Rank(p.stage)
  {
    if s == [] then Outcome(p, More, 0)
    else
      var r := ParseStep(cfg, p, s[0]);
      if r.verdict.More? then ParseRun(cfg, r.p, s[r.n..]).Plus(r.n) else Ended(cfg, r)
  }

  /** Parsing two pieces is parsing their concatenation. */
  lemma {:induction false} ParseRunAppend(cfg: Config, p: Parser, a: string, b: string)
    requires Valid(cfg, p)
    ensures ParseRun(cfg, p, a + b) == (
              var r := ParseRun(cfg, p, a);
              if r.verdict.More? then ParseRun(cfg, r.p, b).Plus(|a|) else r)
    decreases |a|, Rank(p.stage)
  {
    if a == [] {
      assert a + b == b;
    } else {
      var r := ParseStep(cfg, p, a[0]);
      assert (a + b)[0] == a[0] && (a + b)[r.n..] == a[r.n..] + b;
      if r.verdict.More? {
        ParseRunAppend(cfg, r.p, a[r.n..], b);
      }
    }
  }

  /** Feeding the pieces of a cutting one after the other, until the first verdict. */
  function FeedAll(cfg: Config, p: Parser, cuts: seq<string>): (r: Outcome)
    requires Valid(cfg, p)
    decreases |cuts|
  {
    if cuts == [] then Outcome(p, More, 0)
    else
      var r := ParseRun(cfg, p, cuts[0]);
      if r.verdict.More? then FeedAll(cfg, r.p, cuts[1..]).Plus(r.n) else r
  }

  lemma {:induction false} FeedAllIsParseRun(cfg: Config, p: Parser, cuts: seq<string>)
    requires Valid(cfg, p)
    ensures FeedAll(cfg, p, cuts) == ParseRun(cfg, p, Flatten(cuts))
    decreases |cuts|
  {
    if cuts != [] {
      ParseRunAppend(cfg, p, cuts[0], Flatten(cuts[1..]));
      var r := ParseRun(cfg, p, cuts[0]);
      if r.verdict.More? {
        FeedAllIsParseRun(cfg, r.p, cuts[1..]);
      }
    }
  }

  /**
   Split independence: any two cuttings of one stream give the same verdict and error, the
   same message and payload, and the same number of consumed bytes.
   */
  lemma SplitIndependence(cfg: Config, p: Parser, cuts: seq<string>, others: seq<string>)
    requires Valid(cfg, p) && Flatten(cuts) == Flatten(others)
    ensures FeedAll(cfg, p, cuts) == FeedAll(cfg, p, others)
  {
    FeedAllIsParseRun(cfg, p, cuts);
    FeedAllIsParseRun(cfg, p, others);
  }

  // The three nested loops of the source, against the byte-at-a-time machine.

  /** Going on after one call of a stage's own parser on `s`. */
  function Continue(cfg: Config, r: Outcome, s: string): Outcome
    requires r.n <= |s| && (r.verdict.More? ==> Valid(cfg, r.p))
  {
    if r.verdict.More? then ParseRun(cfg, r.p, s[r.n..]).Plus(r.n) else Ended(cfg, r)
  }

  /** A stage's own parser stops short of the end of the input only for a later stage. */
  predicate Progress(cfg: Config, p: Parser, r: Outcome, s: string) {
    r.n <= |s| && (r.verdict.More? ==> Valid(cfg, r.p) && (r.n == |s| || Rank(r.p.stage) < Rank(p.stage)))
  }

  lemma HeadersProgress(cfg: Config, p: Parser, r: Out, s: string)
    requires Valid(cfg, p) && InHeaders(p.stage) && r.n <= |s| && (r.verdict.More? ==> r.n == |s|)
    ensures Progress(cfg, p, AfterHeaders(cfg, p, r), s)
  {
  }

  lemma ChunksProgress(cfg: Config, p: Parser, r: ChunkOut, s: string)
    requires Valid(cfg, p) && p.stage.Chunks? && ValidChunker(r.k)
    requires r.n <= |s| && (r.verdict.More? ==> r.n == |s|)
    ensures Progress(cfg, p, AfterChunks(p, r), s)
  {
  }

  lemma ContinueShift(cfg: Config, r: Outcome, s: string)
    requires s != [] && r.n <= |s| - 1 && (r.verdict.More? ==> Valid(cfg, r.p))
    ensures Continue(cfg, r.Plus(1), s) == Continue(cfg, r, s[1..]).Plus(1)
  {
    assert s[1..][r.n..] == s[r.n + 1..];
  }

  lemma AfterHeadersShift(cfg: Config, p: Parser, first: Out, rest: Out)
    ensures AfterHeaders(cfg, p, rest.Plus(1)) == AfterHeaders(cfg, WithHead(p, first), rest).Plus(1)
  {
    assert WithHead(WithHead(p, first), rest) == WithHead(p, rest.Plus(1));
  }

  /** The header loop of the source does what its bytes do one after the other. */
  lemma {:induction false} HeadersLoop(cfg: Config, p: Parser, s: string)
    requires Valid(cfg, p) && InHeaders(p.stage) && (p.stage.Start? ==> s != [])
    ensures ParseRun(cfg, p, s) == Continue(cfg, AfterHeaders(cfg, p, Run(cfg.saveRaw, p.hdr, p.msg.head, s)), s)
    decreases |s|
  {
    if s == [] {
      assert WithHead(p, Run(cfg.saveRaw, p.hdr, p.msg.head, s)) == p;
    } else {
      var r := Step(cfg.saveRaw, p.hdr, p.msg.head, s[0]);
      if r.verdict.More? {
        var p1 := WithHead(p, r);
        var rest := Run(cfg.saveRaw, r.h, r.m, s[1..]);
        HeadersLoop(cfg, p1, s[1..]);
        AfterHeadersShift(cfg, p, r, rest);
        ContinueShift(cfg, AfterHeaders(cfg, p1, rest), s);
      }
    }
  }

  lemma AfterChunksShift(p: Parser, first: ChunkOut, rest: ChunkOut)
    ensures AfterChunks(p, rest.Plus(1)) == AfterChunks(WithSink(p, first.k, first.sink), rest).Plus(1)
  {
  }

  /** The chunk loop of the source does what its bytes do one after the other. */
  lemma {:induction false} ChunksLoop(cfg: Config, p: Parser, s: string)
    requires Valid(cfg, p) && p.stage.Chunks?
    ensures ParseRun(cfg, p, s) == Continue(cfg, AfterChunks(p, ChunkRun(p.handler, cfg.max, p.chk, Sink(p), s)), s)
    decreases |s|
  {
    if s == [] {
      assert WithSink(p, p.chk, Sink(p)) == p;
    } else {
      var r := ChunkStep(p.handler, cfg.max, p.chk, Sink(p), s[0]);
      if r.verdict.More? {
        var p1 := WithSink(p, r.k, r.sink);
        var rest := ChunkRun(p.handler, cfg.max, r.k, r.sink, s[1..]);
        ChunksLoop(cfg, p1, s[1..]);
        AfterChunksShift(p, r, rest);
        ContinueShift(cfg, AfterChunks(p1, rest), s);
      }
    }
  }

  /** Copying body bytes in two goes is copying them in one. */
  lemma {:induction false} FilledSplit(max: nat, buf: string, read: nat, a: string, b: string)
    requires |buf| <= max && (read < max ==> read + |a| + |b| <= |buf| || |buf| == max)
    ensures Filled(max, buf, read, a + b) == Filled(max, Filled(max, buf, read, a), read + |a|, b)
    decreases |a|
  {
    if a == [] {
      assert a + b == b;
    } else {
      assert (a + b)[0] == a[0] && (a + b)[1..] == a[1..] + b;
      FilledSplit(max, if read < max then buf[read := a[0]] else buf, read + 1, a[1..], b);
    }
  }

  lemma CopyNothing(buf: string, at: nat)
    requires at <= |buf|
    ensures CopyInto(buf, at, "") == buf
  {
  }

  lemma CopyFirst(buf: string, at: nat, c: char, rest: string)
    requires at + 1 + |rest| <= |buf|
    ensures CopyInto(buf, at, [c] + rest) == CopyInto(buf[at := c], at + 1, rest)
  {
  }

  /** The source's single `memcpy`, cut off at the maximum, puts the same bytes into place. */
  lemma {:induction false} FilledIsCopy(max: nat, buf: string, read: nat, bytes: string)
    requires |buf| <= max && (read < max ==> read + |bytes| <= |buf| || |buf| == max)
    ensures Filled(max, buf, read, bytes)
         == if read >= max then buf else CopyInto(buf, read, bytes[..Room(max, read, |bytes|)])
    decreases |bytes|
  {
    if bytes == [] {
      if read < max {
        CopyNothing(buf, read);
      }
    } else if read >= max {
      FilledIsCopy(max, buf, read + 1, bytes[1..]);
    } else {
      var buf1, c, rest := buf[read := bytes[0]], bytes[0], bytes[1..][..Room(max, read + 1, |bytes| - 1)];
      FilledIsCopy(max, buf1, read + 1, bytes[1..]);
      assert bytes[..Room(max, read, |bytes|)] == [c] + rest;
      CopyFirst(buf, read, c, rest);
      if read + 1 >= max {
        CopyNothing(buf1, read + 1);
      }
    }
  }

  lemma TakeContentSplit(cfg: Config, p: Parser, a: string, b: string)
    requires Valid(cfg, p) && p.stage.Content? && |a| + |b| <= p.remaining && |a| < p.remaining
    ensures TakeContent(cfg, p, a + b) == TakeContent(cfg, TakeContent(cfg, p, a).p, b).Plus(|a|)
  {
    var q := TakeContent(cfg, p, a).p;
    if p.handler {
      Assoc(p.payload, a, b);
    } else {
      FilledSplit(cfg.max, p.msg.content, p.contentRead, a, b);
    }
  }

  /** The bulk copy of the source does what its bytes do one after the other. */
  lemma {:induction false} ContentLoop(cfg: Config, p: Parser, s: string)
    requires Valid(cfg, p) && p.stage.Content? && s != []
    ensures ParseRun(cfg, p, s) == Continue(cfg, TakeContent(cfg, p, s[..Min(|s|, p.remaining)]), s)
    decreases |s|
  {
    var k := Min(|s|, p.remaining);
    var r := TakeContent(cfg, p, [s[0]]);
    if k == 1 {
      assert s[..k] == [s[0]];
    } else {
      assert s[..k] == [s[0]] + s[1..][..k - 1];
      ContentLoop(cfg, r.p, s[1..]);
      TakeContentSplit(cfg, p, [s[0]], s[1..][..k - 1]);
      ContinueShift(cfg, TakeContent(cfg, r.p, s[1..][..k - 1]), s);
    }
  }

  /** One turn of the loop of `parse`: the current stage's own parser on all of `s`. */
  function StageOutcome(cfg: Config, p: Parser, s: string): Outcome
    requires Valid(cfg, p)
  {
    match p.stage
    case Content => TakeContent(cfg, p, s[..Min(|s|, p.remaining)])
    case Chunks => AfterChunks(p, ChunkRun(p.handler, cfg.max, p.chk, Sink(p), s))
    case End => Outcome(p, Done, 0)
    case _ => AfterHeaders(cfg, p, Run(cfg.saveRaw, p.hdr, p.msg.head, s))
  }

  /** The loop over the stages is the byte-at-a-time machine, and it makes progress. */
  lemma StageByStage(cfg: Config, p: Parser, s: string)
    requires Valid(cfg, p) && s != []
    ensures Progress(cfg, p, StageOutcome(cfg, p, s), s)
    ensures ParseRun(cfg, p, s) == Continue(cfg, StageOutcome(cfg, p, s), s)
  {
    if p.stage.Content? {
      ContentLoop(cfg, p, s);
    } else if p.stage.Chunks? {
      ChunksLoop(cfg, p, s);
      ChunksProgress(cfg, p, ChunkRun(p.handler, cfg.max, p.chk, Sink(p), s), s);
    } else if InHeaders(p.stage) {
      HeadersLoop(cfg, p, s);
      HeadersProgress(cfg, p, Run(cfg.saveRaw, p.hdr, p.msg.head, s), s);
    }
  }
}
