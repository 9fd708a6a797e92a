/**
 What `parse_headers` accepts, and when it gives up: the requests it can report are exactly
 the printable ones, it rejects at the first byte that no head can continue with, and every
 length limit is exact.
 */
module HeadLanguage {
  import opened Bytes
  import opened HeaderMachine
  import opened RequestText

  /** What every step keeps about the texts collected so far. */
  predicate Sound(h: Machine, m: Head) {
    && (!h.state.MethodStart? ==> 0 < |h.verb| <= METHOD_MAX && TokenText(h.verb))
    && LegalResource(h.resource) && LegalQuery(h.query)
    && m.major < 0x1_0000 && m.minor < 0x1_0000
    && (NameLive(h.state) ==> 0 < |h.name| <= HEADER_NAME_MAX && TokenText(h.name))
    && (ValueLive(h.state) ==> LegalValue(h.value)) && (h.state.SpaceBeforeValue? ==> h.value == "")
    && forall k | 0 <= k < |m.fields| :: LegalField(m.fields[k])
  }

  lemma RequestLineSound(h: Machine, m: Head, c: char)
    requires Sound(h, m) && InRequestLine(h.state)
    ensures var r := RequestLineStep(h, m, c);
      Sound(r.h, r.m) && !r.verdict.Done?
  {
  }

  lemma BetweenFieldsSound(h: Machine, m: Head, c: char)
    requires Sound(h, m) && !InRequestLine(h.state) && !NameLive(h.state)
    ensures var r := FieldStep(h, m, c);
      Sound(r.h, r.m) && !r.h.state.MethodStart?
  {
  }

  lemma InFieldSound(h: Machine, m: Head, c: char)
    requires Sound(h, m) && NameLive(h.state)
    ensures var r := FieldStep(h, m, c);
      Sound(r.h, r.m) && !r.h.state.MethodStart?
  {
  }

  lemma FieldSound(h: Machine, m: Head, c: char)
    requires Sound(h, m) && !InRequestLine(h.state)
    ensures var r := FieldStep(h, m, c);
      Sound(r.h, r.m) && !r.h.state.MethodStart?
  {
    if NameLive(h.state) {
      InFieldSound(h, m, c);
    } else {
      BetweenFieldsSound(h, m, c);
    }
  }

  lemma {:induction false} RunSound(h: Machine, m: Head, s: string)
    requires Sound(h, m)
    ensures var r := Run(false, h, m, s);
      Sound(r.h, r.m) && (r.verdict.Done? ==> !r.h.state.MethodStart?)
    decreases |s|
  {
    if s != [] {
      if InRequestLine(h.state) {
        RequestLineSound(h, m, s[0]);
      } else {
        FieldSound(h, m, s[0]);
      }
      var r := Step(false, h, m, s[0]);
      if r.verdict.More? {
        RunSound(r.h, r.m, s[1..]);
      }
    }
  }

  // Exactly the printable requests.

  /** A parser about to read a request into an empty head. */
  predicate AtStart(h: Machine, m: Head) {
    h.state.MethodStart? && h.resource == "" && h.query == "" && m == Head(1, 1, [])
  }

  /** The request a finished run reports. */
  function Reported(r: Out): Request {
    Request(r.h.verb, r.h.resource, r.h.query, r.m.major, r.m.minor, r.m.fields)
  }

  predicate Reports(h: Machine, m: Head, s: string, q: Request) {
    var r := Run(false, h, m, s);
    r.verdict.Done? && Reported(r) == q
  }

  /** Every reported request with a version is legal: nothing over a limit, no stray character. */
  lemma ReportedIsLegal(h: Machine, m: Head, s: string, q: Request)
    requires AtStart(h, m) && Reports(h, m, s, q)
    ensures Legal(q) <==> q.major > 0
  {
    RunSound(h, m, s);
    if q.major > 0 {
      forall f | f in q.fields ensures LegalField(f) {
        var k :| 0 <= k < |q.fields| && q.fields[k] == f;
      }
    }
  }

  /** The legal requests are exactly those with a version that some input makes the parser report. */
  lemma LegalIsReportable(h: Machine, m: Head, q: Request)
    requires AtStart(h, m)
    ensures Legal(q) <==> q.major > 0 && exists s :: Reports(h, m, s, q)
  {
    if Legal(q) {
      PrintedIsReported(h, m, q, "");
      assert Reports(h, m, HeadText(q) + "", q);
    }
    if q.major > 0 && exists s :: Reports(h, m, s, q) {
      var s :| Reports(h, m, s, q);
      ReportedIsLegal(h, m, s, q);
    }
  }

  lemma PrintedIsReported(h: Machine, m: Head, q: Request, rest: string)
    requires AtStart(h, m) && Legal(q)
    ensures Reports(h, m, HeadText(q) + rest, q) && Run(false, h, m, HeadText(q) + rest).n == |HeadText(q)|
  {
    var h' := HeadRoundTrip(h, m, q, rest);
    assert [] + q.fields == q.fields;
  }

  /**
   Normal form: whatever odd spacing and line ends a head came with, printing what was
   reported and parsing that again reports the same request.
   */
  lemma ReprintedHead(h: Machine, m: Head, s: string, q: Request, rest: string)
    requires AtStart(h, m) && Reports(h, m, s, q) && q.major > 0
    ensures Reports(h, m, HeadText(q) + rest, q) && Run(false, h, m, HeadText(q) + rest).n == |HeadText(q)|
  {
    ReportedIsLegal(h, m, s, q);
    PrintedIsReported(h, m, q, rest);
  }

  // Rejection.

  /** A byte that leads from each state towards the end of the head. */
  function TowardsEnd(s: State): char {
    match s
    case MethodStart => 'G'
    case Method => ' '
    case VersionH => 'H'
    case VersionT1 => 'T'
    case VersionT2 => 'T'
    case VersionP => 'P'
    case VersionSlash => '/'
    case MajorStart => '1'
    case Major => '.'
    case MinorStart => '1'
    case HeaderName => ':'
    case ExpectCR => '\n'
    case FinalNewline => '\n'
    case _ => '\r'
  }

  function Distance(s: State): nat {
    match s
    case MethodStart => 4
    case Method => 3
    case VersionH => 10
    case VersionT1 => 9
    case VersionT2 => 8
    case VersionP => 7
    case VersionSlash => 6
    case MajorStart => 5
    case Major => 4
    case MinorStart => 3
    case HeaderName => 2
    case ExpectNewline => 0
    case ExpectCR => 0
    case FinalNewline => 0
    case FinalCR => 0
    case Whitespace => 1
    case HeaderStart => 1
    case SpaceBeforeValue => 1
    case HeaderValue => 1
    case Minor => 2
    case UriStem => 2
    case UriQuery => 2
  }

  /** No state is a dead end: every one can still reach the end of a head. */
  lemma {:induction false} EveryStateCanEnd(h: Machine, m: Head) returns (t: string)
    ensures Run(false, h, m, t).verdict.Done?
    decreases Distance(h.state)
  {
    var c := TowardsEnd(h.state);
    var r := Step(false, h, m, c);
    if r.verdict.More? {
      var u := EveryStateCanEnd(r.h, r.m);
      t := [c] + u;
      assert t[0] == c && t[1..] == u;
    } else {
      t := [c];
    }
  }

  /** An unfinished input is rejected exactly when no continuation could complete it. */
  lemma RejectsAtOnce(h: Machine, m: Head, s: string)
    requires !Run(false, h, m, s).verdict.Done?
    ensures Run(false, h, m, s).verdict.Fail? <==> forall t :: !Run(false, h, m, s + t).verdict.Done?
  {
    var r := Run(false, h, m, s);
    if r.verdict.Fail? {
      forall t ensures !Run(false, h, m, s + t).verdict.Done? {
        RunAppend(false, h, m, s, t);
      }
    } else {
      var t := EveryStateCanEnd(r.h, r.m);
      RunAppend(false, h, m, s, t);
    }
  }

  // The limits: each text may reach its maximum, and one more byte is the error.

  /** What a run does when the byte after `t` is refused. */
  lemma RefusedAfter(h: Machine, m: Head, t: string, h1: Machine, m1: Head, c: char, e: Error, rest: string)
    requires Reads(h, m, t, h1, m1) && Step(false, h1, m1, c) == Out(h1, m1, Fail(e), 0)
    ensures Run(false, h, m, t + ([c] + rest)) == Out(h1, m1, Fail(e), |t|)
  {
    ReadsThen(h, m, t, h1, m1, [c] + rest);
  }

  lemma MethodLimit(h: Machine, m: Head, t: string, c: char, rest: string)
    requires h.state.MethodStart? && TokenText(t) && |t| == 1024 && IsToken(c)
    ensures Run(false, h, m, t + ([c] + rest)) == Out(h.(state := Method, verb := t), m, Fail(MethodSize), 1024)
  {
    var h1, h2 := h.(state := Method, verb := [t[0]]), h.(state := Method, verb := t);
    ReadsOne(h, m, t[0]);
    ReadVerb(h1, m, t[1..]);
    assert [t[0]] + t[1..] == t;
    ReadsBoth(h, m, [t[0]], h1, m, t[1..], h2, m);
    RefusedAfter(h, m, t, h2, m, c, MethodSize, rest);
  }

  lemma ResourceLimit(h: Machine, m: Head, t: string, c: char, rest: string)
    requires h.state.UriStem? && h.resource == "" && LegalResource(t) && |t| == 256 * 1024
    requires c != ' ' && c != '?' && !IsControl(c)
    ensures Run(false, h, m, t + ([c] + rest)) == Out(h.(resource := t), m, Fail(UriSize), 256 * 1024)
  {
    assert "" + t == t;
    ReadResource(h, m, t);
    RefusedAfter(h, m, t, h.(resource := t), m, c, UriSize, rest);
  }

  lemma QueryLimit(h: Machine, m: Head, t: string, c: char, rest: string)
    requires h.state.UriQuery? && h.query == "" && LegalQuery(t) && |t| == 1024 * 1024 && c != ' ' && !IsControl(c)
    ensures Run(false, h, m, t + ([c] + rest)) == Out(h.(query := t), m, Fail(QuerySize), 1024 * 1024)
  {
    assert "" + t == t;
    ReadQuery(h, m, t);
    RefusedAfter(h, m, t, h.(query := t), m, c, QuerySize, rest);
  }

  lemma HeaderNameLimit(h: Machine, m: Head, t: string, c: char, rest: string)
    requires h.state.HeaderStart? && TokenText(t) && |t| == 1024 && IsToken(c)
    ensures Run(false, h, m, t + ([c] + rest))
         == Out(h.(state := HeaderName, name := t), m, Fail(HeaderNameSize), 1024)
  {
    var h1, h2 := h.(state := HeaderName, name := [t[0]]), h.(state := HeaderName, name := t);
    ReadsOne(h, m, t[0]);
    ReadName(h1, m, t[1..]);
    assert [t[0]] + t[1..] == t;
    ReadsBoth(h, m, [t[0]], h1, m, t[1..], h2, m);
    RefusedAfter(h, m, t, h2, m, c, HeaderNameSize, rest);
  }

  lemma HeaderValueLimit(h: Machine, m: Head, t: string, c: char, rest: string)
    requires h.state.HeaderValue? && h.value == "" && LegalValue(t) && |t| == 1024 * 1024
    requires c == '\t' || !IsControl(c)
    ensures Run(false, h, m, t + ([c] + rest)) == Out(h.(value := t), m, Fail(HeaderValueSize), 1024 * 1024)
  {
    ReadValue(h, m, t);
    assert "" + t == t;
    RefusedAfter(h, m, t, h.(value := t), m, c, HeaderValueSize, rest);
  }
}
