/**
 The server behind the readers: `handle_request_after_headers_parsed` in src/http_server.cpp as
 the hook, the settings of `http_request_reader`, and what that means for the requests clients
 send, in terms of their own header fields.
 */
module HttpServer {
  import opened Bytes
  import opened HeaderMachine
  import opened Headers
  import opened Multipart
  import opened ChunkText
  import opened RequestText
  import opened Parsing
  import opened Messages
  import opened Routing
  import opened Connections
  import opened Pipelines

  /** The tables of payload handlers. */
  type Payloads<P> = map<Table, map<string, P>>

  /** A payload handler is registered for the resource or an ancestor of it. */
  predicate HasPayloadRoute<P>(payloads: Payloads<P>, verb: string, resource: string) {
    var t := ChooseTable(verb);
    && t.Some? && t.value in payloads
    && exists k | k in payloads[t.value] :: Covers(k, StripTrailingSlash(resource))
  }

  /** The hook of the server: there is a payload handler, or there is none, or the method is unknown. */
  function RouteHook<P>(payloads: Payloads<P>, verb: string, resource: string): Hook {
    if ChooseTable(verb).None? then Raise
    else if HasPayloadRoute(payloads, verb, resource) then Install
    else Finish
  }

  function ServerHook<P>(payloads: Payloads<P>): Hooks {
    (verb, resource) => RouteHook(payloads, verb, resource)
  }

  /** `handle_request_after_headers_parsed`. */
  method HandleRequestAfterHeadersParsed<P>(router: Router<P>, m: Message) returns (hook: Hook)
    requires router.Complete()
    ensures hook == RouteHook(router.tables, m.verb, m.resource)
  {
    if ChooseTable(m.verb).None? {
      return Raise;  // the exception of choose_map_by_method
    }
    var key := router.FindHandler(m.verb, m.resource);
    hook := if key.Some? then Install else Finish;
  }

  /** The settings of a request reader. */
  function ReaderConfig<P>(payloads: Payloads<P>, max: nat, saveRaw: bool, env: Foreign): Config {
    Standard(max, false, saveRaw, env, (m: Message) => RouteHook(payloads, m.verb, m.resource))
  }

  // What header fields announce.  Every condition is on all values of a header, so that it does
  // not matter which of several a lookup finds.

  predicate NamesChunked(v: string) {
    Contains(v, "chunked") || Contains(v, "Chunked")
  }

  predicate SaysChunked(fields: seq<Field>) {
    var vs := Values(fields, "Transfer-Encoding");
    vs != [] && forall k | 0 <= k < |vs| :: NamesChunked(vs[k])
  }

  predicate NeverSaysChunked(fields: seq<Field>) {
    var vs := Values(fields, "Transfer-Encoding");
    forall k | 0 <= k < |vs| :: !NamesChunked(vs[k])
  }

  /** The header fields say what follows the head. */
  predicate Announced(x: Sent) {
    var fields := x.q.fields;
    match x.body
    case Nothing =>
      && NeverSaysChunked(fields)
      && (Values(fields, "Content-Length") == [] || Says(fields, "Content-Length", Digits(10, 0)))
    case Fixed(bytes) =>
      && NeverSaysChunked(fields) && 0 < |bytes| < 0x1_0000_0000_0000_0000
      && Says(fields, "Content-Length", Digits(10, |bytes|))
    case InChunks(sends, trailers) =>
      SaysChunked(fields) && Sendable(sends) && forall f | f in trailers :: LegalField(f)
  }

  lemma ContainsIsFound(s: string, b: string)
    requires b != ""
    ensures Contains(s, b) <==> Search(s, b, 0) < |s|
  {
    SearchFinds(s, b, 0);
  }

  /** A body is chunked when its Transfer-Encoding says so, and not when it does not. */
  lemma ChunkedFraming(env: Foreign, fields: seq<Field>)
    requires env.Lawful()
    ensures SaysChunked(fields) ==> FramingOf(env.find, env.parseLength, fields) == Chunked
    ensures NeverSaysChunked(fields) ==> FramingOf(env.find, env.parseLength, fields) != Chunked
  {
    var te := env.find(fields, "Transfer-Encoding");
    if te.Some? {
      ContainsIsFound(te.value, "chunked");
      ContainsIsFound(te.value, "Chunked");
      assert te.value in Values(fields, "Transfer-Encoding");
    }
  }

  /** Otherwise the printed Content-Length is the length, and none means no body. */
  lemma LengthFraming(env: Foreign, fields: seq<Field>, n: nat)
    requires env.Lawful() && NeverSaysChunked(fields) && n < 0x1_0000_0000_0000_0000
    ensures Says(fields, "Content-Length", Digits(10, n)) ==> FramingOf(env.find, env.parseLength, fields) == Length(n)
    ensures Values(fields, "Content-Length") == [] ==> FramingOf(env.find, env.parseLength, fields) == NoBody
  {
    ChunkedFraming(env, fields);
    if Says(fields, "Content-Length", Digits(10, n)) {
      LookupFinds(env.find, fields, "Content-Length", Digits(10, n));
    }
  }

  /** Without a coding, a length that cannot be read is an error. */
  lemma UnreadableLength(env: Foreign, fields: seq<Field>, v: string)
    requires env.Lawful() && NeverSaysChunked(fields) && Says(fields, "Content-Length", v)
    ensures FramingOf(env.find, env.parseLength, fields) == BadLength <==> env.parseLength(v).None?
    ensures forall n :: env.parseLength(v) == Some(n) ==> FramingOf(env.find, env.parseLength, fields) == Length(n)
  {
    ChunkedFraming(env, fields);
    LookupFinds(env.find, fields, "Content-Length", v);
  }

  /** The framing is read off the headers as the source does it. */
  ghost predicate ReadsFraming(cfg: Config, env: Foreign) {
    forall fields :: cfg.framing(fields) == FramingOf(env.find, env.parseLength, fields)
  }

  lemma AnnouncedIsLegal(cfg: Config, env: Foreign, x: Sent)
    requires ReadsFraming(cfg, env) && env.Lawful() && Legal(x.q) && Announced(x)
    ensures x.LegalFor(cfg)
  {
    ChunkedFraming(env, x.q.fields);
    match x.body
    case Nothing => LengthFraming(env, x.q.fields, 0);
    case Fixed(bytes) => LengthFraming(env, x.q.fields, |bytes|);
    case InChunks(_, _) =>
  }

  // The server's requests.

  /** A version from 1.1 on. */
  predicate IsPersistent(q: Request) {
    q.major > 1 || (q.major == 1 && q.minor >= 1)
  }

  /** A version from 1.1 on, and no "close", not even among the trailers. */
  predicate AsksToKeepOpen(x: Sent) {
    var vs := Values(x.q.fields + x.Trailers(), "Connection");
    IsPersistent(x.q) && forall k | 0 <= k < |vs| :: vs[k] != "close"
  }

  /** An older version, or "close" and nothing else. */
  predicate AsksToClose(x: Sent) {
    var vs := Values(x.Trailers(), "Connection");
    || !IsPersistent(x.q)
    || (Says(x.q.fields, "Connection", "close") && forall k | 0 <= k < |vs| :: vs[k] == "close")
  }

  /** What a client may send, as the last request of a connection or before others. */
  predicate WellSent(x: Sent, last: bool) {
    Legal(x.q) && Announced(x) && if last then AsksToClose(x) else AsksToKeepOpen(x)
  }

  /** What a lookup finds, whichever value it is. */
  lemma Found(find: Lookup, fields: seq<Field>, name: string, v: string)
    requires FindsOne(find) && v != ""
    ensures (forall k | 0 <= k < |Values(fields, name)| :: Values(fields, name)[k] != v) ==>
      Get(find, fields, name) != v
    ensures Says(fields, name, v) ==> Get(find, fields, name) == v
  {
    if Get(find, fields, name) == v {
      assert v in Values(fields, name);
    }
    if Says(fields, name, v) {
      LookupFinds(find, fields, name, v);
    }
  }

  lemma KeptOpenByHead(env: Foreign, x: Sent)
    requires env.Lawful()
    ensures AsksToKeepOpen(x) ==> x.KeptOpen(KeepAlive(env))
    ensures AsksToClose(x) ==> x.Closes(KeepAlive(env))
  {
    var here, there := Values(x.q.fields, "Connection"), Values(x.Trailers(), "Connection");
    ValuesAppend(x.q.fields, x.Trailers(), "Connection");
    Found(env.find, x.q.fields, "Connection", "close");
    Found(env.find, x.q.fields + x.Trailers(), "Connection", "close");
    assert forall k | 0 <= k < |here| :: (here + there)[k] == here[k];
  }

  /** The server knows the method, and a body has a payload handler and no trailers. */
  predicate Provided<P>(payloads: Payloads<P>, x: Sent) {
    && ChooseTable(x.q.verb).Some?
    && (!x.body.Nothing? ==> HasPayloadRoute(payloads, x.q.verb, x.q.resource) && x.Trailers() == [])
  }

  /** The same for the last request of a connection, whose empty chunked body may stay unread. */
  predicate ProvidedLast<P>(payloads: Payloads<P>, x: Sent) {
    || Provided(payloads, x)
    || (ChooseTable(x.q.verb).Some? && x.body.InChunks? && x.Data() == "" && x.Trailers() == [])
  }

  /** A buffer of zero bytes holds no form that could raise an exception. */
  lemma ZerosDoNotRaise(env: Foreign, fields: seq<Field>, n: nat)
    ensures !FormOf(env.find, env.dec, fields, Zeros(n)).raised
  {
    var ctype, body := Get(env.find, fields, "Content-Type"), Zeros(n);
    var b := BoundaryOf(ctype);
    if b.Some? {
      forall j | 0 <= j < |body| ensures !MatchesAt(body, b.value, j) {
        Mismatch(body, b.value, j, 0);
      }
      SearchFinds(body, b.value, 0);
    }
  }

  lemma PassesIfProvided<P>(payloads: Payloads<P>, max: nat, saveRaw: bool, env: Foreign, x: Sent, last: bool)
    ensures var cfg := ReaderConfig(payloads, max, saveRaw, env);
      x.Passes(cfg, RouteHook(payloads, x.q.verb, x.q.resource), last)
      <==> if last then ProvidedLast(payloads, x) else Provided(payloads, x)
  {
    ZerosDoNotRaise(env, x.q.fields, 0);
    assert Zeros(0) == "";
  }

  /**
   The server as a whole: any requests whose header fields announce their bodies, printed back
   to back, in reads cut anywhere; either the last one asks to close the connection, and then
   anything may follow, or the beginning of another request follows.  They are handed on exactly
   as sent, every body as the payload of its request, if and only if every method is known and
   every request with a body has a payload handler and no trailers (or is the last one before
   the close, with a chunked body that is empty).
   */
  lemma ServedAsSent<P>(payloads: Payloads<P>, max: nat, saveRaw: bool, env: Foreign, xs: seq<Sent>, closing: bool,
                        tail: string, pieces: seq<string>)
    requires env.Lawful() && (closing ==> xs != [])
    requires forall i | 0 <= i < |xs| :: WellSent(xs[i], closing && i == |xs| - 1)
    requires closing || ParseRun(ReaderConfig(payloads, max, saveRaw, env), NewReader(), tail).verdict.More?
    requires Flatten(pieces) == StreamText(xs) + tail
    ensures var cfg, keep := ReaderConfig(payloads, max, saveRaw, env), KeepAlive(env);
      && ServerOf(cfg, keep).Lawful()
      && (HandledAs(cfg, ServerHook(payloads), xs, ServeAll(ServerOf(cfg, keep), NewReader(), pieces).handled)
          <==> forall i | 0 <= i < |xs| ::
                 if closing && i == |xs| - 1 then ProvidedLast(payloads, xs[i]) else Provided(payloads, xs[i]))
  {
    var cfg, hook, keep := ReaderConfig(payloads, max, saveRaw, env), ServerHook(payloads), KeepAlive(env);
    forall i | 0 <= i < |xs|
      ensures Welcome(cfg, keep, xs[i], closing && i == |xs| - 1)
    {
      assert WellSent(xs[i], closing && i == |xs| - 1);
      AnnouncedIsLegal(cfg, env, xs[i]);
      KeptOpenByHead(env, xs[i]);
    }
    forall i | 0 <= i < |xs|
      ensures xs[i].Passes(cfg, HookOf(hook, xs[i]), closing && i == |xs| - 1)
         <==> if closing && i == |xs| - 1 then ProvidedLast(payloads, xs[i]) else Provided(payloads, xs[i])
    {
      PassesIfProvided(payloads, max, saveRaw, env, xs[i], closing && i == |xs| - 1);
    }
    PipelinedRequests(cfg, keep, hook, xs, closing, tail, pieces);
  }

  /**
   On a connection that stays open, a body without a payload handler is parsed as the next
   request, whatever its headers and its bytes are.
   */
  lemma UnroutedBodyIsNextRequest<P>(payloads: Payloads<P>, max: nat, saveRaw: bool, env: Foreign, x: Sent,
                                     rest: string) returns (first: Handled)
    requires env.Lawful() && WellSent(x, false) && ChooseTable(x.q.verb).Some?
    requires !HasPayloadRoute(payloads, x.q.verb, x.q.resource)
    ensures var e := ServerOf(ReaderConfig(payloads, max, saveRaw, env), KeepAlive(env));
      && e.Lawful() && first.error.None? && first.payload == ""
      && first.msg.head == Head(x.q.major, x.q.minor, x.q.fields)
      && Serve(e, NewReader(), x.Text() + rest)
         == Serve(e, NewReader(), x.BodyText() + rest).After([first], |HeadText(x.q)|)
  {
    var cfg, keep := ReaderConfig(payloads, max, saveRaw, env), KeepAlive(env);
    ServerModels(cfg, keep);
    AnnouncedIsLegal(cfg, env, x);
    KeptOpenByHead(env, x);
    ZerosDoNotRaise(env, x.q.fields, |x.EmptyContent(max)|);
    assert x.EmptyContent(max) == Zeros(|x.EmptyContent(max)|);
    first := UnreadBodyIsNextRequest(ServerOf(cfg, keep), cfg, keep, ServerHook(payloads), x, rest);
  }

  /** An unknown method is the only thing that makes an exception leave a reader's `parse`. */
  lemma ReaderRaisesExactly<P>(payloads: Payloads<P>, max: nat, saveRaw: bool, env: Foreign, x: Sent, rest: string)
    requires env.Lawful() && Legal(x.q) && Announced(x)
    ensures ParseRun(ReaderConfig(payloads, max, saveRaw, env), NewReader(), x.Text() + rest).verdict == Raised
       <==> ChooseTable(x.q.verb).None?
  {
    var cfg := ReaderConfig(payloads, max, saveRaw, env);
    AnnouncedIsLegal(cfg, env, x);
    RaisesIfUnknown(payloads, max, saveRaw, env, x);
    RaisesExactly(cfg, ServerHook(payloads), x, rest);
  }

  lemma RaisesIfUnknown<P>(payloads: Payloads<P>, max: nat, saveRaw: bool, env: Foreign, x: Sent)
    ensures x.Raises(ReaderConfig(payloads, max, saveRaw, env), RouteHook(payloads, x.q.verb, x.q.resource))
       <==> ChooseTable(x.q.verb).None?
  {
    ZerosDoNotRaise(env, x.q.fields, |x.EmptyContent(max)|);
    assert x.EmptyContent(max) == Zeros(|x.EmptyContent(max)|);
  }

  /** A request as a client may send it: five bytes posted to a resource. */
  const HELLO := Sent(Request("POST", "/a", "", 1, 1, [Field("Content-Length", "5")]), Fixed("hello"))

  lemma HelloIsLegal()
    ensures Legal(HELLO.q)
  {
    HelloFieldIsLegal();
    assert TokenText("POST") && LegalResource("/a") && LegalQuery("");
  }

  lemma HelloFieldIsLegal()
    ensures LegalField(Field("Content-Length", "5"))
  {
    assert TokenText("Content-Length") && LegalValue("5");
  }

  lemma HelloIsWellSent()
    ensures WellSent(HELLO, false)
  {
    var f := Field("Content-Length", "5");
    HelloIsLegal();
    ValuesOfOne(f, "Content-Length");
    ValuesOfOne(f, "Transfer-Encoding");
    ValuesOfOne(f, "Connection");
    assert IEquals(f.name, "Content-Length") && Digits(10, 5) == "5";
    assert !IEquals(f.name, "Transfer-Encoding") && !IEquals(f.name, "Connection");
    assert HELLO.q.fields + HELLO.Trailers() == [f];
  }
}
