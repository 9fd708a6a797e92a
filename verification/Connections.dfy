/**
 Connection runs: successive request readers over one connection, with the read-position
 bookmark that implements pipelining (section 6.3.2 of RFC 7230).
 */
module Connections {
  import opened Bytes
  import opened HeaderMachine
  import opened Parsing

  /** A request as handed to the server: its message and payload, and the error if it is invalid. */
  datatype Handled = Handled(msg: Message, payload: string, error: Option<Error>)

  /** The connection waits for more bytes with a reader in some state, or it is closed. */
  datatype Waiting = Open(p: Parser) | Closed

  datatype Served = Served(handled: seq<Handled>, end: Waiting, n: nat) {
    function After(earlier: seq<Handled>, k: nat): Served {
      this.(handled := earlier + handled, n := n + k)
    }
  }

  predicate Unstarted(p: Parser) {
    p.stage.Start? && p.hdr.state.MethodStart?
  }

  function Report(r: Outcome): Handled {
    if r.verdict.Fail? then Handled(r.p.msg.(valid := false), r.p.payload, Some(r.verdict.error))
    else Handled(r.p.msg, r.p.payload, None)
  }

  /**
   What a connection needs to know of its parser: it stops inside its input or exhausts it,
   pieces can be joined, and a new request takes at least one byte.
   */
  datatype Server = Server(parse: (Parser, string) -> Outcome, ok: Parser -> bool, keep: Message -> bool) {

    ghost predicate Bounded() {
      forall p, s :: ok(p) ==>
        var r := parse(p, s);
        r.n <= |s| && (r.verdict.More? ==> r.n == |s| && ok(r.p))
    }

    ghost predicate Joins() {
      forall p, a, b {:trigger Joined(p, a, b)} :: ok(p) ==>
        var r := parse(p, a);
        parse(p, a + b) == if r.verdict.More? then parse(r.p, b).Plus(|a|) else r
    }

    ghost predicate Waits() {
      forall p :: ok(p) ==> parse(p, []) == Outcome(p, More, 0)
    }

    ghost predicate Starts() {
      ok(NewReader()) && forall p, s :: ok(p) && Unstarted(p) && parse(p, s).verdict.Done? ==> parse(p, s).n > 0
    }

    ghost predicate Lawful() {
      Bounded() && Joins() && Waits() && Starts()
    }
  }

  predicate Joined(p: Parser, a: string, b: string) {
    true
  }

  /**
   What a connection does with the bytes `s`: requests are handled one after the other, each
   by a new reader, up to the first error or the first request that does not keep it alive.
   A request whose parsing raises an exception is never handed on, and its connection is lost.
   */
  ghost function Serve(e: Server, p: Parser, s: string): (r: Served)
    requires e.Lawful() && e.ok(p)
    ensures r.n <= |s| && (r.end.Open? ==> r.n == |s| && e.ok(r.end.p))
    decreases |s|, if Unstarted(p) then 0 else 1
  {
    var r := e.parse(p, s);
    if r.verdict.More? then Served([], Open(r.p), r.n)
    else if r.verdict.Raised? then Served([], Closed, r.n)
    else if r.verdict.Fail? || !e.keep(r.p.msg) then Served([Report(r)], Closed, r.n)
    else Serve(e, NewReader(), s[r.n..]).After([Report(r)], r.n)
  }

  /** One request of a connection run, by cases. */
  lemma ServeCases(e: Server, p: Parser, s: string)
    requires e.Lawful() && e.ok(p)
    ensures var r := e.parse(p, s);
      && (r.verdict.More? ==> Serve(e, p, s) == Served([], Open(r.p), |s|))
      && (r.verdict.Raised? ==> Serve(e, p, s) == Served([], Closed, r.n))
      && (r.verdict.Fail? || (r.verdict.Done? && !e.keep(r.p.msg)) ==>
            Serve(e, p, s) == Served([Report(r)], Closed, r.n))
      && (r.verdict.Done? && e.keep(r.p.msg) && r.n == |s| ==>
            Serve(e, p, s) == Served([Report(r)], Open(NewReader()), |s|))
      && (r.verdict.Done? && e.keep(r.p.msg) ==>
            Serve(e, p, s) == Serve(e, NewReader(), s[r.n..]).After([Report(r)], r.n))
  {
    var r := e.parse(p, s);
    if r.verdict.Done? && e.keep(r.p.msg) && r.n == |s| {
      assert s[r.n..] == [] && Serve(e, NewReader(), []) == Served([], Open(NewReader()), 0);
    }
  }

  /** Serving two pieces is serving their concatenation. */
  lemma {:induction false} ServeAppend(e: Server, p: Parser, a: string, b: string)
    requires e.Lawful() && e.ok(p)
    ensures Serve(e, p, a + b) == (
              var x := Serve(e, p, a);
              if x.end.Open? then Serve(e, x.end.p, b).After(x.handled, x.n) else x)
    decreases |a|, if Unstarted(p) then 0 else 1
  {
    var r := e.parse(p, a);
    assert Joined(p, a, b);
    assert e.parse(p, a + b) == if r.verdict.More? then e.parse(r.p, b).Plus(|a|) else r;
    if r.verdict.More? {
      ServeShift(e, p, a, b, r.p);
    } else if r.verdict.Done? && e.keep(r.p.msg) {
      assert (a + b)[r.n..] == a[r.n..] + b;
      ServeAppend(e, NewReader(), a[r.n..], b);
      var x := Serve(e, NewReader(), a[r.n..]);
      if x.end.Open? {
        Assoc([Report(r)], x.handled, Serve(e, x.end.p, b).handled);
      }
    }
  }

  /** A piece that only advances the current reader. */
  lemma ServeShift(e: Server, p: Parser, a: string, b: string, q: Parser)
    requires e.Lawful() && e.ok(p) && e.ok(q) && e.parse(p, a + b) == e.parse(q, b).Plus(|a|)
    ensures Serve(e, p, a + b) == Serve(e, q, b).After([], |a|)
  {
    var r := e.parse(q, b);
    var hs := Serve(e, q, b).handled;
    assert [] + hs == hs;
    ServeCases(e, p, a + b);
    ServeCases(e, q, b);
    if r.verdict.Done? && e.keep(r.p.msg) {
      assert (a + b)[|a| + r.n..] == b[r.n..];
    }
  }

  /** The reads of a connection, one after the other, until it closes. */
  ghost function ServeAll(e: Server, p: Parser, pieces: seq<string>): (r: Served)
    requires e.Lawful() && e.ok(p)
    decreases |pieces|
  {
    if pieces == [] then Served([], Open(p), 0)
    else
      var x := Serve(e, p, pieces[0]);
      if x.end.Open? then ServeAll(e, x.end.p, pieces[1..]).After(x.handled, x.n) else x
  }

  lemma {:induction false} ServeAllIsServe(e: Server, p: Parser, pieces: seq<string>)
    requires e.Lawful() && e.ok(p)
    ensures ServeAll(e, p, pieces) == Serve(e, p, Flatten(pieces))
    decreases |pieces|
  {
    if pieces != [] {
      ServeAppend(e, p, pieces[0], Flatten(pieces[1..]));
      var x := Serve(e, p, pieces[0]);
      if x.end.Open? {
        ServeAllIsServe(e, x.end.p, pieces[1..]);
      }
    }
  }

  /**
   Connection runs: the requests handled, and whether and in which state the connection
   waits, depend only on the bytes received, however they were cut into reads.
   */
  lemma ConnectionSplitIndependence(e: Server, pieces: seq<string>, others: seq<string>)
    requires e.Lawful() && Flatten(pieces) == Flatten(others)
    ensures ServeAll(e, NewReader(), pieces) == ServeAll(e, NewReader(), others)
  {
    ServeAllIsServe(e, NewReader(), pieces);
    ServeAllIsServe(e, NewReader(), others);
  }

  /** Each handled request is what its own reader makes of its own bytes: nothing is lost or read twice. */
  predicate Tiles(e: Server, s: string, handled: seq<Handled>, lengths: seq<nat>)
    requires |handled| == |lengths|
    decreases |handled|
  {
    if handled == [] then true
    else
      var r := e.parse(NewReader(), s);
      && !r.verdict.More? && r.n == lengths[0] <= |s| && Report(r) == handled[0]
      && Tiles(e, s[r.n..], handled[1..], lengths[1..])
  }

  function Total(lengths: seq<nat>): nat {
    if lengths == [] then 0 else lengths[0] + Total(lengths[1..])
  }

  lemma TilesFirst(e: Server, s: string, r: Outcome, later: seq<Handled>, lengths: seq<nat>)
    requires r == e.parse(NewReader(), s) && !r.verdict.More? && r.n <= |s|
    requires |later| == |lengths| && Tiles(e, s[r.n..], later, lengths)
    ensures Tiles(e, s, [Report(r)] + later, [r.n] + lengths) && Total([r.n] + lengths) == r.n + Total(lengths)
  {
    assert ([r.n] + lengths)[1..] == lengths && ([Report(r)] + later)[1..] == later;
  }

  predicate Lost(r: Outcome, n: nat) {
    r.verdict.Raised? && r.n == n
  }

  /**
   Every byte is consumed exactly once: consecutive stretches of the stream belong to
   consecutive requests, and what follows them belongs to the request still being read, or
   (`lost`) to the one whose exception ended the connection.
   */
  lemma {:induction false} EveryByteOnce(e: Server, s: string) returns (lengths: seq<nat>, lost: nat)
    requires e.Lawful()
    ensures var r := Serve(e, NewReader(), s);
      && |lengths| == |r.handled| && Total(lengths) <= |s| && Tiles(e, s, r.handled, lengths)
      && (r.end.Closed? ==>
            && r.n == Total(lengths) + lost
            && (lost > 0 ==> Lost(e.parse(NewReader(), s[Total(lengths)..]), lost)))
      && (r.end.Open? ==> e.parse(NewReader(), s[Total(lengths)..]) == Outcome(r.end.p, More, |s| - Total(lengths)))
    decreases |s|
  {
    var r := e.parse(NewReader(), s);
    if r.verdict.More? {
      lengths, lost := [], 0;
      assert s[0..] == s;
    } else if r.verdict.Raised? {
      lengths, lost := [], r.n;
      assert s[0..] == s;
    } else if r.verdict.Fail? || !e.keep(r.p.msg) {
      lengths, lost := [r.n], 0;
      assert [r.n][1..] == [] && Total([r.n]) == r.n;
    } else {
      var more;
      more, lost := EveryByteOnce(e, s[r.n..]);
      var rest := Serve(e, NewReader(), s[r.n..]);
      lengths := [r.n] + more;
      TilesFirst(e, s, r, rest.handled, more);
      assert s[r.n..][Total(more)..] == s[r.n + Total(more)..];
    }
  }

  // The parser of this project is such a parser.

  /** A request takes at least one byte. */
  lemma RequestTakesBytes(cfg: Config, p: Parser, s: string)
    requires Valid(cfg, p) && Unstarted(p)
    ensures ParseRun(cfg, p, s).verdict.Done? ==> ParseRun(cfg, p, s).n > 0
  {
    if s != [] {
      var r := ParseStep(cfg, p, s[0]);
      assert !r.verdict.Done? && (r.verdict.More? ==> r.n == 1);
    }
  }

  /** The connection's server for a parser configuration and a keep-alive rule. */
  function ServerOf(cfg: Config, keep: Message -> bool): Server {
    Server((p, s) => if Valid(cfg, p) then ParseRun(cfg, p, s) else Outcome(p, More, 0), p => Valid(cfg, p), keep)
  }

  lemma ParserJoins(cfg: Config, keep: Message -> bool)
    ensures ServerOf(cfg, keep).Joins()
  {
    var e := ServerOf(cfg, keep);
    forall p, a, b | e.ok(p)
      ensures e.parse(p, a + b) == (var r := e.parse(p, a); if r.verdict.More? then e.parse(r.p, b).Plus(|a|) else r)
    {
      ParserJoin(cfg, keep, p, a, b);
    }
  }

  lemma ParsesAsRun(cfg: Config, keep: Message -> bool, p: Parser, s: string)
    requires Valid(cfg, p)
    ensures ServerOf(cfg, keep).parse(p, s) == ParseRun(cfg, p, s)
  {
  }

  lemma ParserJoin(cfg: Config, keep: Message -> bool, p: Parser, a: string, b: string)
    requires Valid(cfg, p)
    ensures var e := ServerOf(cfg, keep);
      var r := e.parse(p, a);
      e.parse(p, a + b) == if r.verdict.More? then e.parse(r.p, b).Plus(|a|) else r
  {
    ParsesAsRun(cfg, keep, p, a);
    ParsesAsRun(cfg, keep, p, a + b);
    ParseRunAppend(cfg, p, a, b);
    var r := ParseRun(cfg, p, a);
    if r.verdict.More? {
      ParsesAsRun(cfg, keep, r.p, b);
    }
  }

  lemma ParserStarts(cfg: Config, keep: Message -> bool)
    ensures ServerOf(cfg, keep).Starts()
  {
    var e := ServerOf(cfg, keep);
    forall p, s | e.ok(p) && Unstarted(p) && e.parse(p, s).verdict.Done?
      ensures e.parse(p, s).n > 0
    {
      RequestTakesBytes(cfg, p, s);
    }
  }

  lemma ParserIsLawful(cfg: Config, keep: Message -> bool)
    ensures ServerOf(cfg, keep).Lawful()
  {
    ParserJoins(cfg, keep);
    ParserStarts(cfg, keep);
  }

  /** `e` is the server for this configuration and keep-alive rule. */
  ghost predicate Models(e: Server, cfg: Config, keep: Message -> bool) {
    && e.Lawful() && e.keep == keep && (forall p {:trigger e.ok(p)} :: Valid(cfg, p) ==> e.ok(p))
    && forall p, s {:trigger Linked(p, s)} :: Valid(cfg, p) ==> e.parse(p, s) == ParseRun(cfg, p, s)
  }

  predicate Linked(p: Parser, s: string) {
    true
  }

  lemma ServerModels(cfg: Config, keep: Message -> bool)
    ensures Models(ServerOf(cfg, keep), cfg, keep)
  {
    ParserIsLawful(cfg, keep);
  }
}
