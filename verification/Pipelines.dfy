/**
 Printer, parser, hook and connection together: a list of printed requests, sent back to back on
 one connection and cut into reads anywhere.  Which hook a request meets decides whether its body
 is kept, handed to a payload handler, or left unread; the list is handled as it was sent exactly
 when no request is left with something unread.
 */
module Pipelines {
  import opened Bytes
  import opened HeaderMachine
  import opened ChunkText
  import opened RequestText
  import opened Parsing
  import opened Requests
  import opened Connections

  datatype Body = Nothing | Fixed(bytes: string) | InChunks(sends: seq<string>, trailers: seq<Field>)

  /** A request as its sender sees it. */
  datatype Sent = Sent(q: Request, body: Body) {

    function BodyText(): string {
      match body
      case Nothing => ""
      case Fixed(bytes) => bytes
      case InChunks(sends, trailers) => TrailedText(sends, trailers)
    }

    function Text(): string {
      HeadText(q) + BodyText()
    }

    /** The body itself. */
    function Data(): string {
      match body
      case Nothing => ""
      case Fixed(bytes) => bytes
      case InChunks(sends, _) => Flatten(sends)
    }

    function Trailers(): seq<Field> {
      if body.InChunks? then body.trailers else []
    }

    /** The head with its trailers. */
    function TrailedHead(): Head {
      Head(q.major, q.minor, q.fields + Trailers())
    }

    /** What a message may keep of the body. */
    function Cut(max: nat): string {
      Data()[..Min(|Data()|, max)]
    }

    /** The content buffer of a message whose body stays unread. */
    function EmptyContent(max: nat): string {
      if body.Fixed? then Zeros(Min(|body.bytes|, max)) else ""
    }

    /** The head is printable, and its fields announce the body that follows. */
    predicate LegalFor(cfg: Config) {
      && Legal(q)
      && match body
         case Nothing => cfg.framing(q.fields) == NoBody || cfg.framing(q.fields) == Length(0)
         case Fixed(bytes) => bytes != "" && cfg.framing(q.fields) == Length(|bytes|)
         case InChunks(sends, trailers) =>
           cfg.framing(q.fields) == Chunked && Sendable(sends) && forall f | f in trailers :: LegalField(f)
    }

    /** The connection stays open after this request, however much of it was read. */
    ghost predicate KeptOpen(keep: Message -> bool) {
      forall m: Message | m.head == Head(q.major, q.minor, q.fields) || m.head == TrailedHead() :: keep(m)
    }

    /** The connection is closed after this request. */
    ghost predicate Closes(keep: Message -> bool) {
      forall m: Message | m.head == Head(q.major, q.minor, q.fields) || m.head == TrailedHead() :: !keep(m)
    }

    /** Nothing of the request stays unread, and no exception is raised. */
    predicate Clean(cfg: Config, h: Hook) {
      match body
      case Nothing => !h.Raise? && !FormIn(cfg, h.Install?, q.fields, "").raised
      case Fixed(bytes) =>
        h.Install? || (h.Proceed? && !cfg.formPairs(q.fields, bytes[..Min(|bytes|, cfg.max)]).raised)
      case InChunks(sends, trailers) =>
        || (h.Install? && trailers == [])
        || (h.Proceed? && |Flatten(sends)| <= cfg.max && !cfg.formPairs(q.fields + trailers, Flatten(sends)).raised)
    }

    /** An exception leaves `parse`: that of the hook, or that of parsing a form in what was kept of the body. */
    predicate Raises(cfg: Config, h: Hook) {
      match h
      case Raise => true
      case Install => false
      case Finish => cfg.formPairs(q.fields, EmptyContent(cfg.max)).raised
      case Proceed =>
        (body.InChunks? ==> |Data()| <= cfg.max) && cfg.formPairs(q.fields + Trailers(), Cut(cfg.max)).raised
    }

    /** A chunked body that is empty: when it stays unread and nothing follows, nobody notices. */
    predicate Unnoticed(cfg: Config, h: Hook) {
      h.Finish? && body.InChunks? && Data() == "" && Trailers() == [] && !cfg.formPairs(q.fields, "").raised
    }

    /** The request is handled as sent; `last` if the connection is closed after it. */
    predicate Passes(cfg: Config, h: Hook, last: bool) {
      Clean(cfg, h) || (last && Unnoticed(cfg, h))
    }

    /**
     The request is handled as it was sent: the head with its trailers and cookies, and the
     body in the message (cut to the maximum) if the hook is to keep it there, else as payload.
     */
    predicate Arrives(cfg: Config, h: Hook, d: Handled) {
      && d.error.None?
      && d.msg.verb == q.verb && d.msg.resource == q.resource && d.msg.query == q.query
      && d.msg.head == TrailedHead()
      && d.msg.cookies == cfg.cookiePairs(q.fields) && cfg.queryPairs(q.query) <= d.msg.queries
      && if h.Proceed? then d.payload == "" && d.msg.content == Cut(cfg.max) else d.payload == Data()
    }
  }

  type Hooks = (string, string) -> Hook

  function HookOf(hook: Hooks, x: Sent): Hook {
    hook(x.q.verb, x.q.resource)
  }

  // Clean requests.

  lemma CompletedArrives(cfg: Config, r: Outcome, x: Sent, h: Hook, content: string, payload: string, n: nat)
    requires Completes(cfg, r, x.q, h.Install?, x.q.fields + x.Trailers(), content, payload, n) && r.verdict.Done?
    requires if h.Proceed? then payload == "" && content == x.Cut(cfg.max) else payload == x.Data()
    ensures x.Arrives(cfg, h, Report(r))
  {
  }

  /** A clean request in front of anything is parsed to its last byte and no further, and arrives. */
  lemma CleanIsParsed(cfg: Config, hook: Hooks, x: Sent, rest: string)
    requires x.LegalFor(cfg) && Routes(cfg, hook) && x.Clean(cfg, HookOf(hook, x))
    ensures var r := ParseRun(cfg, NewReader(), x.Text() + rest);
      r.verdict == Done && r.n == |x.Text()| && x.Arrives(cfg, HookOf(hook, x), Report(r))
  {
    var q, h := x.q, HookOf(hook, x);
    var r := ParseRun(cfg, NewReader(), x.Text() + rest);
    Assoc(HeadText(q), x.BodyText(), rest);
    match x.body
    case Nothing =>
      assert "" + rest == rest && q.fields + [] == q.fields;
      BodilessRequest(cfg, hook, q, rest);
      CompletedArrives(cfg, r, x, h, "", "", |HeadText(q)|);
    case Fixed(bytes) =>
      assert q.fields + [] == q.fields;
      FixedLengthRequest(cfg, hook, q, bytes, rest);
      var kept := Min(|bytes|, cfg.max);
      CompletedArrives(cfg, r, x, h, if h.Install? then Zeros(kept) else bytes[..kept],
                       if h.Install? then bytes else "", |x.Text()|);
    case InChunks(sends, trailers) =>
      if h.Install? {
        NoTrailers(sends);
        assert q.fields + [] == q.fields;
        ChunkedRequestHandled(cfg, hook, q, sends, rest);
        CompletedArrives(cfg, r, x, h, "", Flatten(sends), |x.Text()|);
      } else {
        ChunkedRequest(cfg, hook, q, sends, trailers, rest);
        CompletedArrives(cfg, r, x, h, Flatten(sends), "", |x.Text()|);
      }
  }

  // Requests that leave something unread.

  /** Text that cannot start a request: a token that is followed by neither a space nor more of it. */
  lemma NotARequest(cfg: Config, t: string, c: char, rest: string)
    requires 0 < |t| <= METHOD_MAX && TokenText(t) && c != ' ' && !IsToken(c)
    ensures ParseRun(cfg, NewReader(), t + ([c] + rest)).verdict == Fail(MethodChar)
  {
    var m, h0 := NEW_MESSAGE.head, NEW_MACHINE;
    var h1, h2 := h0.(state := Method, verb := [t[0]]), h0.(state := Method, verb := t);
    ReadsOne(h0, m, t[0]);
    ReadVerb(h1, m, t[1..]);
    assert [t[0]] + t[1..] == t;
    ReadsBoth(h0, m, [t[0]], h1, m, t[1..], h2, m);
    ReadsThen(h0, m, t, h2, m, [c] + rest);
    var s := t + ([c] + rest);
    RunUpToRaw(cfg.saveRaw, h0, "", m, s);
    HeadersLoop(cfg, NewReader(), s);
  }

  /** The handled requests do not start with `x` as sent, or an invalid one follows it and ends the connection. */
  predicate Garbled(cfg: Config, h: Hook, x: Sent, handled: seq<Handled>) {
    handled == [] || !x.Arrives(cfg, h, handled[0]) || (|handled| == 2 && handled[1].error.Some?)
  }

  /** A request that is complete where text follows that cannot start another one. */
  lemma UnreadGarbles(e: Server, cfg: Config, keep: Message -> bool, x: Sent, h: Hook, s: string, t: string, c: char,
                      rest: string)
    requires Models(e, cfg, keep) && x.KeptOpen(keep)
    requires var r := ParseRun(cfg, NewReader(), s);
      r.verdict.Done? && r.p.msg.head == Head(x.q.major, x.q.minor, x.q.fields) && s[r.n..] == t + ([c] + rest)
    requires 0 < |t| <= METHOD_MAX && TokenText(t) && c != ' ' && !IsToken(c)
    ensures Garbled(cfg, h, x, Serve(e, NewReader(), s).handled)
  {
    var later := t + ([c] + rest);
    assert Linked(NewReader(), s) && Linked(NewReader(), later);
    NotARequest(cfg, t, c, rest);
    ServeCases(e, NewReader(), s);
    ServeCases(e, NewReader(), later);
  }

  /** A first request that raised, or that is still unfinished or invalid, has not arrived. */
  lemma NoneArrives(e: Server, cfg: Config, keep: Message -> bool, x: Sent, h: Hook, s: string)
    requires Models(e, cfg, keep) && !ParseRun(cfg, NewReader(), s).verdict.Done?
    ensures Garbled(cfg, h, x, Serve(e, NewReader(), s).handled)
  {
    assert Linked(NewReader(), s);
    ServeCases(e, NewReader(), s);
  }

  /** A first request reported without its payload has not arrived. */
  lemma PayloadMissing(e: Server, cfg: Config, keep: Message -> bool, x: Sent, h: Hook, s: string)
    requires Models(e, cfg, keep) && !h.Proceed? && x.Data() != "" && ParseRun(cfg, NewReader(), s).p.payload == ""
    ensures Garbled(cfg, h, x, Serve(e, NewReader(), s).handled)
  {
    assert Linked(NewReader(), s);
    var r := e.parse(NewReader(), s);
    ServeCases(e, NewReader(), s);
    if r.verdict.Done? {
      assert !x.Arrives(cfg, h, Report(r));
    }
  }

  lemma {:induction false} NoDataNoFrames(sends: seq<string>)
    requires Flatten(sends) == ""
    ensures Frames(sends) == ""
    decreases |sends|
  {
    if sends != [] {
      assert |sends[0]| + |Flatten(sends[1..])| == 0;
      NoDataNoFrames(sends[1..]);
    }
  }

  /** The last chunk of an unread body cannot start a request. */
  lemma LastChunkText(sends: seq<string>, trailers: seq<Field>, rest: string)
    requires Flatten(sends) == ""
    ensures TrailedText(sends, trailers) + rest == ['0'] + (['\r'] + (['\n'] + (FieldsText(trailers) + CRLF + rest)))
  {
    NoDataNoFrames(sends);
    assert Digits(16, 0) == ['0'] && "" + SizeLine(0) == ['0', '\r', '\n'];
  }

  lemma UnreadIsGarbled(e: Server, cfg: Config, keep: Message -> bool, hook: Hooks, x: Sent, rest: string)
    requires Models(e, cfg, keep) && Routes(cfg, hook) && x.LegalFor(cfg) && x.KeptOpen(keep)
    requires HookOf(hook, x).Finish? && !x.body.Nothing?
    ensures Garbled(cfg, HookOf(hook, x), x, Serve(e, NewReader(), x.Text() + rest).handled)
  {
    var q, h, s := x.q, HookOf(hook, x), x.Text() + rest;
    Assoc(HeadText(q), x.BodyText(), rest);
    UnreadBody(cfg, hook, q, x.BodyText() + rest);
    if x.Data() != "" {
      PayloadMissing(e, cfg, keep, x, h, s);
    } else if !ParseRun(cfg, NewReader(), s).verdict.Done? {
      NoneArrives(e, cfg, keep, x, h, s);
    } else {
      EmptyBodyGarbles(e, cfg, keep, x, h, s, rest);
    }
  }

  /** The last chunk of an empty body that stayed unread. */
  lemma EmptyBodyGarbles(e: Server, cfg: Config, keep: Message -> bool, x: Sent, h: Hook, s: string, rest: string)
    requires Models(e, cfg, keep) && x.KeptOpen(keep) && x.body.InChunks? && x.Data() == ""
    requires s == HeadText(x.q) + (x.BodyText() + rest)
    requires var r := ParseRun(cfg, NewReader(), s);
      r.verdict.Done? && r.n == |HeadText(x.q)| && r.p.msg.head == Head(x.q.major, x.q.minor, x.q.fields)
    ensures Garbled(cfg, h, x, Serve(e, NewReader(), s).handled)
  {
    LastChunkText(x.body.sends, x.body.trailers, rest);
    assert s[|HeadText(x.q)|..] == x.BodyText() + rest;
    UnreadGarbles(e, cfg, keep, x, h, s, ['0'], '\r', ['\n'] + (FieldsText(x.body.trailers) + CRLF + rest));
  }

  lemma TrailerText(trailers: seq<Field>, rest: string) returns (after: string)
    requires trailers != []
    ensures FieldsText(trailers) + CRLF + rest == trailers[0].name + ([':'] + after)
  {
    var f, more := trailers[0], FieldsText(trailers[1..]);
    var line := [' '] + (f.value + CRLF);
    after := line + (more + (CRLF + rest));
    Assoc(FieldText(f) + more, CRLF, rest);
    Assoc(FieldText(f), more, CRLF + rest);
    assert [':', ' '] + (f.value + CRLF) == [':'] + line;
    Assoc(f.name, [':'] + line, more + (CRLF + rest));
    Assoc([':'], line, more + (CRLF + rest));
  }

  /** Unread trailers cannot start a request. */
  lemma TrailersAreGarbled(e: Server, cfg: Config, keep: Message -> bool, hook: Hooks, x: Sent, rest: string)
    requires Models(e, cfg, keep) && Routes(cfg, hook) && x.LegalFor(cfg) && x.KeptOpen(keep)
    requires HookOf(hook, x).Install? && x.Trailers() != []
    ensures Garbled(cfg, HookOf(hook, x), x, Serve(e, NewReader(), x.Text() + rest).handled)
  {
    var q, h, s, f := x.q, HookOf(hook, x), x.Text() + rest, x.body.trailers[0];
    var text, tail := Frames(x.body.sends) + SizeLine(0), FieldsText(x.body.trailers) + CRLF + rest;
    assert f in x.body.trailers;
    Assoc(HeadText(q), x.BodyText(), rest);
    Assoc(text, FieldsText(x.body.trailers) + CRLF, rest);
    TrailerStart(x.body.trailers, rest);
    TrailedRequestHandled(cfg, hook, q, x.body.sends, tail);
    Assoc(HeadText(q), text, tail);
    assert s == (HeadText(q) + text) + tail;
    assert s[|HeadText(q)| + |text|..] == tail;
    var after := TrailerText(x.body.trailers, rest);
    UnreadGarbles(e, cfg, keep, x, h, s, f.name, ':', after);
  }

  /** A request that is not clean is not handled as it was sent. */
  lemma UncleanIsGarbled(e: Server, cfg: Config, keep: Message -> bool, hook: Hooks, x: Sent, rest: string)
    requires Models(e, cfg, keep) && Routes(cfg, hook) && x.LegalFor(cfg) && x.KeptOpen(keep)
    requires !x.Clean(cfg, HookOf(hook, x))
    ensures Garbled(cfg, HookOf(hook, x), x, Serve(e, NewReader(), x.Text() + rest).handled)
  {
    var q, h, s := x.q, HookOf(hook, x), x.Text() + rest;
    if h.Finish? && !x.body.Nothing? {
      UnreadIsGarbled(e, cfg, keep, hook, x, rest);
    } else if h.Install? {
      TrailersAreGarbled(e, cfg, keep, hook, x, rest);
    } else {
      UncleanIsNotDone(cfg, hook, x, rest);
      NoneArrives(e, cfg, keep, x, h, s);
    }
  }

  /** The other ways not to be clean: an exception, or a chunked body over the maximum. */
  lemma UncleanIsNotDone(cfg: Config, hook: Hooks, x: Sent, rest: string)
    requires Routes(cfg, hook) && x.LegalFor(cfg) && !x.Clean(cfg, HookOf(hook, x))
    requires var h := HookOf(hook, x); h.Raise? || h.Proceed? || (h.Finish? && x.body.Nothing?)
    ensures !ParseRun(cfg, NewReader(), x.Text() + rest).verdict.Done?
  {
    var q, h := x.q, HookOf(hook, x);
    if h.Proceed? {
      KeptIsParsed(cfg, hook, x, rest);
      assert x.Data()[..|x.Data()|] == x.Data() && q.fields + [] == q.fields;
    } else {
      Assoc(HeadText(q), x.BodyText(), rest);
      if h.Raise? {
        RaisedRequest(cfg, hook, q, x.BodyText() + rest);
      } else {
        BodilessRequest(cfg, hook, q, x.BodyText() + rest);
      }
    }
  }

  /** A request kept in the message: what it completes with, unless a chunked body is over the maximum. */
  lemma KeptIsParsed(cfg: Config, hook: Hooks, x: Sent, rest: string)
    requires Routes(cfg, hook) && x.LegalFor(cfg) && HookOf(hook, x).Proceed?
    ensures var r := ParseRun(cfg, NewReader(), x.Text() + rest);
      if x.body.InChunks? && |x.Data()| > cfg.max then r.verdict.More? || r.verdict.Fail?
      else Completes(cfg, r, x.q, false, x.q.fields + x.Trailers(), x.Cut(cfg.max), "", |x.Text()|)
  {
    var q := x.q;
    Assoc(HeadText(q), x.BodyText(), rest);
    match x.body
    case Nothing =>
      assert "" + rest == rest && q.fields + [] == q.fields && HeadText(q) + "" == HeadText(q);
      BodilessRequest(cfg, hook, q, rest);
    case Fixed(bytes) =>
      assert q.fields + [] == q.fields;
      FixedLengthRequest(cfg, hook, q, bytes, rest);
    case InChunks(sends, trailers) =>
      if |Flatten(sends)| <= cfg.max {
        assert x.Cut(cfg.max) == Flatten(sends);
        ChunkedRequest(cfg, hook, q, sends, trailers, rest);
      } else {
        var tail := FieldsText(trailers) + CRLF;
        Assoc(Frames(sends), SizeLine(0), tail);
        Assoc(Frames(sends), SizeLine(0) + tail, rest);
        ChunkedRequestTooLong(cfg, hook, q, sends, SizeLine(0) + tail + rest);
      }
  }

  /** Exactly when an exception leaves `parse`, for every request, every body and every hook. */
  lemma RaisesExactly(cfg: Config, hook: Hooks, x: Sent, rest: string)
    requires Routes(cfg, hook) && x.LegalFor(cfg)
    ensures ParseRun(cfg, NewReader(), x.Text() + rest).verdict == Raised <==> x.Raises(cfg, HookOf(hook, x))
  {
    var q, h := x.q, HookOf(hook, x);
    Assoc(HeadText(q), x.BodyText(), rest);
    match h
    case Proceed =>
      KeptIsParsed(cfg, hook, x, rest);
    case Raise =>
      RaisedRequest(cfg, hook, q, x.BodyText() + rest);
    case Finish =>
      if x.body.Nothing? {
        BodilessRequest(cfg, hook, q, x.BodyText() + rest);
      } else {
        UnreadBody(cfg, hook, q, x.BodyText() + rest);
      }
    case Install =>
      if x.Trailers() == [] {
        CleanIsParsed(cfg, hook, x, rest);
      } else {
        TrailersAtClose(cfg, hook, x, rest);
      }
  }

  /**
   Where the code fails its caller: a hook that finds no payload handler ends the message with
   the head, and on a connection that stays open the body is parsed as the next request.
   */
  lemma UnreadBodyIsNextRequest(e: Server, cfg: Config, keep: Message -> bool, hook: Hooks, x: Sent, rest: string)
    returns (first: Handled)
    requires Models(e, cfg, keep) && Routes(cfg, hook) && x.LegalFor(cfg) && x.KeptOpen(keep)
    requires HookOf(hook, x).Finish? && !cfg.formPairs(x.q.fields, x.EmptyContent(cfg.max)).raised
    ensures first == Report(ParseRun(cfg, NewReader(), x.Text() + rest))
    ensures first.error.None? && first.payload == "" && first.msg.head == Head(x.q.major, x.q.minor, x.q.fields)
    ensures Serve(e, NewReader(), x.Text() + rest)
         == Serve(e, NewReader(), x.BodyText() + rest).After([first], |HeadText(x.q)|)
  {
    var q, s := x.q, x.Text() + rest;
    Assoc(HeadText(q), x.BodyText(), rest);
    if x.body.Nothing? {
      BodilessRequest(cfg, hook, q, x.BodyText() + rest);
    } else {
      UnreadBody(cfg, hook, q, x.BodyText() + rest);
    }
    var r := ParseRun(cfg, NewReader(), s);
    assert r.n == |HeadText(q)| && r.p.msg.head == Head(q.major, q.minor, q.fields) && r.p.payload == "";
    first := ServeNext(e, cfg, keep, s, x.BodyText() + rest);
  }

  /** A finished request that keeps its connection, and the rest of the stream behind it. */
  lemma ServeNext(e: Server, cfg: Config, keep: Message -> bool, s: string, rest: string) returns (first: Handled)
    requires Models(e, cfg, keep)
    requires var r := ParseRun(cfg, NewReader(), s);
      r.verdict.Done? && keep(r.p.msg) && s[r.n..] == rest
    ensures var r := ParseRun(cfg, NewReader(), s);
      && first == Report(r) && first.error.None?
      && Serve(e, NewReader(), s) == Serve(e, NewReader(), rest).After([first], r.n)
  {
    assert Linked(NewReader(), s);
    ServeCases(e, NewReader(), s);
    first := Report(e.parse(NewReader(), s));
  }

  // Lists of requests.

  function StreamText(xs: seq<Sent>): string {
    if xs == [] then "" else xs[0].Text() + StreamText(xs[1..])
  }

  /** The requests handled are the requests sent, one for one. */
  predicate HandledAs(cfg: Config, hook: Hooks, xs: seq<Sent>, handled: seq<Handled>) {
    |handled| == |xs| && forall i | 0 <= i < |xs| :: xs[i].Arrives(cfg, HookOf(hook, xs[i]), handled[i])
  }

  /** All requests pass; if the connection is `closing`, it is closed after the last one. */
  predicate AllPass(cfg: Config, hook: Hooks, xs: seq<Sent>, closing: bool) {
    forall i | 0 <= i < |xs| :: xs[i].Passes(cfg, HookOf(hook, xs[i]), closing && i == |xs| - 1)
  }

  /** A request that may be sent to this server and keeps the connection, or closes it if it is the last. */
  ghost predicate Welcome(cfg: Config, keep: Message -> bool, x: Sent, last: bool) {
    x.LegalFor(cfg) && if last then x.Closes(keep) else x.KeptOpen(keep)
  }

  ghost predicate AllWelcome(cfg: Config, keep: Message -> bool, xs: seq<Sent>, closing: bool) {
    && (closing ==> xs != [])
    && forall i | 0 <= i < |xs| :: Welcome(cfg, keep, xs[i], closing && i == |xs| - 1)
  }

  lemma HandledFirst(cfg: Config, hook: Hooks, xs: seq<Sent>, first: Handled, later: seq<Handled>)
    requires xs != [] && xs[0].Arrives(cfg, HookOf(hook, xs[0]), first)
    ensures HandledAs(cfg, hook, xs, [first] + later) <==> HandledAs(cfg, hook, xs[1..], later)
  {
    var all := [first] + later;
    if HandledAs(cfg, hook, xs, all) {
      forall i | 0 <= i < |xs[1..]| ensures xs[1..][i].Arrives(cfg, HookOf(hook, xs[1..][i]), later[i]) {
        assert xs[i + 1].Arrives(cfg, HookOf(hook, xs[i + 1]), all[i + 1]);
      }
    }
    if HandledAs(cfg, hook, xs[1..], later) {
      forall i | 0 <= i < |xs| ensures xs[i].Arrives(cfg, HookOf(hook, xs[i]), all[i]) {
        if i > 0 {
          assert xs[1..][i - 1].Arrives(cfg, HookOf(hook, xs[1..][i - 1]), later[i - 1]);
        }
      }
    }
  }

  lemma GarbledList(cfg: Config, hook: Hooks, xs: seq<Sent>, handled: seq<Handled>)
    requires xs != [] && Garbled(cfg, HookOf(hook, xs[0]), xs[0], handled)
    ensures !HandledAs(cfg, hook, xs, handled)
  {
  }

  /** One clean request in front of anything: it is handled, and a new reader goes on behind it. */
  lemma ServeClean(e: Server, cfg: Config, keep: Message -> bool, hook: Hooks, x: Sent,
                   rest: string) returns (first: Handled)
    requires Models(e, cfg, keep) && Routes(cfg, hook) && Welcome(cfg, keep, x, false) && x.Clean(cfg, HookOf(hook, x))
    ensures x.Arrives(cfg, HookOf(hook, x), first)
    ensures Serve(e, NewReader(), x.Text() + rest) == Serve(e, NewReader(), rest).After([first], |x.Text()|)
  {
    CleanIsParsed(cfg, hook, x, rest);
    first := ServeNext(e, cfg, keep, x.Text() + rest, rest);
  }

  // The request that closes the connection.

  /** Whether the report of a closing request shows it as sent is all that counts. */
  lemma ServeClosing(e: Server, cfg: Config, keep: Message -> bool, s: string)
    requires Models(e, cfg, keep)
    requires var r := ParseRun(cfg, NewReader(), s); r.verdict.Done? ==> !keep(r.p.msg)
    ensures var r, served := ParseRun(cfg, NewReader(), s), Serve(e, NewReader(), s);
      && (r.verdict.Done? ==> served.handled == [Report(r)] && served.end.Closed?)
      && (r.verdict.Fail? ==> served.handled == [Report(r)])
      && (r.verdict.More? || r.verdict.Raised? ==> served.handled == [])
  {
    assert Linked(NewReader(), s);
    ServeCases(e, NewReader(), s);
  }

  /** How an unread body shows in the report: not at all if it is empty and has no trailers. */
  lemma UnreadAtClose(cfg: Config, hook: Hooks, x: Sent, rest: string)
    requires Routes(cfg, hook) && x.LegalFor(cfg) && HookOf(hook, x).Finish? && !x.body.Nothing?
    ensures var r := ParseRun(cfg, NewReader(), x.Text() + rest);
      && (r.verdict.Done? || r.verdict.Raised?) && r.p.msg.head == Head(x.q.major, x.q.minor, x.q.fields)
      && (r.verdict.Done? && x.Arrives(cfg, HookOf(hook, x), Report(r)) <==> x.Unnoticed(cfg, HookOf(hook, x)))
  {
    var q := x.q;
    Assoc(HeadText(q), x.BodyText(), rest);
    UnreadBody(cfg, hook, q, x.BodyText() + rest);
    UnreadReport(cfg, ParseRun(cfg, NewReader(), x.Text() + rest), x, HookOf(hook, x), |HeadText(q)|);
  }

  lemma UnreadReport(cfg: Config, r: Outcome, x: Sent, h: Hook, n: nat)
    requires h.Finish? && !x.body.Nothing? && x.LegalFor(cfg)
    requires Completes(cfg, r, x.q, false, x.q.fields, x.EmptyContent(cfg.max), "", n)
    ensures (r.verdict.Done? || r.verdict.Raised?) && r.p.msg.head == Head(x.q.major, x.q.minor, x.q.fields)
    ensures r.verdict.Done? && x.Arrives(cfg, h, Report(r)) <==> x.Unnoticed(cfg, h)
  {
    assert x.q.fields + [] == x.q.fields;
    assert x.q.fields == x.q.fields + x.Trailers() ==> |x.Trailers()| == 0;
  }

  lemma TrailersAtClose(cfg: Config, hook: Hooks, x: Sent, rest: string)
    requires Routes(cfg, hook) && x.LegalFor(cfg) && HookOf(hook, x).Install? && x.Trailers() != []
    ensures var r := ParseRun(cfg, NewReader(), x.Text() + rest);
      && r.verdict.Done? && r.p.msg.head == Head(x.q.major, x.q.minor, x.q.fields)
      && !x.Arrives(cfg, HookOf(hook, x), Report(r))
  {
    var q, sends, trailers := x.q, x.body.sends, x.body.trailers;
    var text, tail := Frames(sends) + SizeLine(0), FieldsText(trailers) + CRLF + rest;
    assert trailers[0] in trailers;
    Assoc(HeadText(q), x.BodyText(), rest);
    Assoc(text, FieldsText(trailers) + CRLF, rest);
    TrailerStart(trailers, rest);
    TrailedRequestHandled(cfg, hook, q, sends, tail);
    assert |q.fields + trailers| > |q.fields|;
  }

  /** The last request of a connection arrives exactly when it is clean, or empty and unread. */
  lemma LastIsServed(e: Server, cfg: Config, keep: Message -> bool, hook: Hooks, x: Sent, rest: string)
    requires Models(e, cfg, keep) && Routes(cfg, hook) && Welcome(cfg, keep, x, true)
    ensures var h, served := HookOf(hook, x), Serve(e, NewReader(), x.Text() + rest);
      && (|served.handled| == 1 && x.Arrives(cfg, h, served.handled[0]) <==> x.Passes(cfg, h, true))
      && (x.Passes(cfg, h, true) ==> served.end.Closed?)
  {
    var h, s := HookOf(hook, x), x.Text() + rest;
    if x.Clean(cfg, h) {
      CleanIsParsed(cfg, hook, x, rest);
    } else if h.Finish? && !x.body.Nothing? {
      UnreadAtClose(cfg, hook, x, rest);
    } else if h.Install? {
      TrailersAtClose(cfg, hook, x, rest);
    } else {
      UncleanIsNotDone(cfg, hook, x, rest);
    }
    ServeClosing(e, cfg, keep, s);
  }

  // Whole connections.

  lemma {:induction false} StreamIsServed(e: Server, cfg: Config, keep: Message -> bool, hook: Hooks, xs: seq<Sent>,
                                          closing: bool, tail: string)
    requires Models(e, cfg, keep) && Routes(cfg, hook) && AllWelcome(cfg, keep, xs, closing)
    requires closing || e.parse(NewReader(), tail).verdict.More?
    ensures var r := Serve(e, NewReader(), StreamText(xs) + tail);
      && (HandledAs(cfg, hook, xs, r.handled) <==> AllPass(cfg, hook, xs, closing))
      && (AllPass(cfg, hook, xs, closing) ==>
            r.end == if closing then Closed else Open(e.parse(NewReader(), tail).p))
    decreases |xs|
  {
    if xs == [] {
      assert StreamText(xs) + tail == tail;
      ServeCases(e, NewReader(), tail);
    } else {
      var x, rest := xs[0], StreamText(xs[1..]) + tail;
      Assoc(x.Text(), StreamText(xs[1..]), tail);
      assert Welcome(cfg, keep, x, closing && |xs| == 1);
      if closing && |xs| == 1 {
        LastIsServed(e, cfg, keep, hook, x, rest);
      } else if x.Clean(cfg, HookOf(hook, x)) {
        var first := ServeClean(e, cfg, keep, hook, x, rest);
        WelcomeRest(cfg, keep, xs, closing);
        StreamIsServed(e, cfg, keep, hook, xs[1..], closing, tail);
        HandledFirst(cfg, hook, xs, first, Serve(e, NewReader(), rest).handled);
        PassFirst(cfg, hook, xs, closing);
      } else {
        UncleanIsGarbled(e, cfg, keep, hook, x, rest);
        GarbledList(cfg, hook, xs, Serve(e, NewReader(), x.Text() + rest).handled);
        assert !x.Passes(cfg, HookOf(hook, x), closing && 0 == |xs| - 1);
      }
    }
  }

  lemma WelcomeRest(cfg: Config, keep: Message -> bool, xs: seq<Sent>, closing: bool)
    requires AllWelcome(cfg, keep, xs, closing) && xs != [] && !(closing && |xs| == 1)
    ensures AllWelcome(cfg, keep, xs[1..], closing)
  {
    forall i | 0 <= i < |xs[1..]| ensures Welcome(cfg, keep, xs[1..][i], closing && i == |xs[1..]| - 1) {
      assert Welcome(cfg, keep, xs[i + 1], closing && i + 1 == |xs| - 1);
    }
  }

  lemma PassFirst(cfg: Config, hook: Hooks, xs: seq<Sent>, closing: bool)
    requires xs != [] && xs[0].Clean(cfg, HookOf(hook, xs[0]))
    ensures AllPass(cfg, hook, xs, closing) <==> AllPass(cfg, hook, xs[1..], closing)
  {
    if AllPass(cfg, hook, xs, closing) {
      forall i | 0 <= i < |xs[1..]|
        ensures xs[1..][i].Passes(cfg, HookOf(hook, xs[1..][i]), closing && i == |xs[1..]| - 1)
      {
        assert xs[i + 1].Passes(cfg, HookOf(hook, xs[i + 1]), closing && i + 1 == |xs| - 1);
      }
    }
    if AllPass(cfg, hook, xs[1..], closing) {
      forall i | 0 <= i < |xs| ensures xs[i].Passes(cfg, HookOf(hook, xs[i]), closing && i == |xs| - 1) {
        if i > 0 {
          assert xs[1..][i - 1].Passes(cfg, HookOf(hook, xs[1..][i - 1]), closing && i - 1 == |xs[1..]| - 1);
        }
      }
    }
  }

  /**
   A whole connection: any requests, with bodies of any kind, printed back to back, in reads cut
   anywhere.  The connection is closed after the last one (`closing`, and then anything may
   follow), or it stays open and the beginning of another request follows.  The server is handed
   exactly these requests, in order and with their bodies, if and only if every one of them is
   clean, or is the last one before the close and has an empty chunked body that stays unread.
   Then the connection is closed, or it goes on with the request that is still incomplete.
   */
  lemma PipelinedRequests(cfg: Config, keep: Message -> bool, hook: Hooks, xs: seq<Sent>, closing: bool, tail: string,
                          pieces: seq<string>)
    requires Routes(cfg, hook) && AllWelcome(cfg, keep, xs, closing) && Flatten(pieces) == StreamText(xs) + tail
    requires closing || ParseRun(cfg, NewReader(), tail).verdict.More?
    ensures ServerOf(cfg, keep).Lawful()
    ensures var r := ServeAll(ServerOf(cfg, keep), NewReader(), pieces);
      && (HandledAs(cfg, hook, xs, r.handled) <==> AllPass(cfg, hook, xs, closing))
      && (AllPass(cfg, hook, xs, closing) ==>
            r.end == if closing then Closed else Open(ParseRun(cfg, NewReader(), tail).p))
  {
    var e := ServerOf(cfg, keep);
    ServerModels(cfg, keep);
    ServeAllIsServe(e, NewReader(), pieces);
    assert Linked(NewReader(), tail);
    StreamIsServed(e, cfg, keep, hook, xs, closing, tail);
  }
}
