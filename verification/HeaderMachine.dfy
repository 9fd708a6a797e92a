/**
 The request-line and header machine, `parse_headers` in src/http_parser.cpp: one byte at a
 time, with every piece of progress kept in `Machine` or in the message head.
 */
module HeaderMachine {
  import opened Bytes

  const METHOD_MAX := 1024
  const RESOURCE_MAX := 256 * 1024
  const QUERY_STRING_MAX := 1024 * 1024
  const HEADER_NAME_MAX := 1024
  const HEADER_VALUE_MAX := 1024 * 1024

  datatype Error =
    | MethodChar | MethodSize | UriChar | UriSize | QueryChar | QuerySize | VersionChar
    | HeaderChar | HeaderNameSize | HeaderValueSize | InvalidContentLength | ChunkChar

  /**
   The tribool of the source: indeterminate, true, or false with its error code; or an
   exception that leaves `parse`.
   */
  datatype Verdict = More | Done | Fail(error: Error) | Raised

  datatype State =
    | MethodStart | Method | UriStem | UriQuery
    | VersionH | VersionT1 | VersionT2 | VersionP | VersionSlash
    | MajorStart | Major | MinorStart | Minor
    | ExpectNewline | ExpectCR
    | Whitespace | HeaderStart | HeaderName | SpaceBeforeValue | HeaderValue
    | FinalNewline | FinalCR

  datatype Field = Field(name: string, value: string)

  /** The parser's own header fields. */
  datatype Machine = Machine(
    state: State, verb: string, resource: string, query: string,
    raw: string, name: string, value: string)

  /** The part of the message written while headers are parsed; versions are `uint16_t`. */
  datatype Head = Head(major: nat, minor: nat, fields: seq<Field>)

  /** One step, or one run: the new state, the verdict, and how many bytes were consumed. */
  datatype Out = Out(h: Machine, m: Head, verdict: Verdict, n: nat) {
    function Plus(k: nat): Out {
      this.(n := n + k)
    }
  }

  function Wrap16(n: nat): nat {
    n % 0x1_0000
  }

  function Go(h: Machine, m: Head): Out {
    Out(h, m, More, 1)
  }

  function Bad(h: Machine, m: Head, e: Error): Out {
    Out(h, m, Fail(e), 0)
  }

  function Add(h: Machine, m: Head): Head {
    m.(fields := m.fields + [Field(h.name, h.value)])
  }

  /** CR or LF where a request without a version may end. */
  function NoVersion(m: Head): Head {
    m.(major := 0, minor := 0)
  }

  function LineEnd(h: Machine, m: Head, c: char): Out {
    Go(h.(state := if c == '\r' then ExpectNewline else ExpectCR), m)
  }

  /** The first character of a header line, once line ends and whitespace are ruled out. */
  function NameStart(h: Machine, m: Head, c: char): Out {
    if IsToken(c) then Go(h.(name := [c], state := HeaderName), m) else Bad(h, m, HeaderChar)
  }

  function Literal(h: Machine, m: Head, c: char, expected: char, next: State): Out {
    if c == expected then Go(h.(state := next), m) else Bad(h, m, VersionChar)
  }

  function NumberOf(c: char): nat
    requires IsDigit(c)
  {
    c as int - '0' as int
  }

  predicate InRequestLine(s: State) {
    s.MethodStart? || s.Method? || s.UriStem? || s.UriQuery? || s.VersionH? || s.VersionT1?
    || s.VersionT2? || s.VersionP? || s.VersionSlash? || s.MajorStart? || s.Major?
    || s.MinorStart? || s.Minor?
  }

  /** The states of the request line. */
  function RequestLineStep(h: Machine, m: Head, c: char): (r: Out)
    requires InRequestLine(h.state)
    ensures r.n <= 1 && (r.verdict.More? ==> r.n == 1) && (r.verdict.Fail? ==> r.n == 0) && !r.verdict.Raised?
  {
    match h.state
    case MethodStart =>
      if c == ' ' || c == '\r' || c == '\n' then Go(h, m)
      else if !IsToken(c) then Bad(h, m, MethodChar)
      else Go(h.(state := Method, verb := [c]), m)
    case Method =>
      if c == ' ' then Go(h.(resource := "", state := UriStem), m)
      else if !IsToken(c) then Bad(h, m, MethodChar)
      else if |h.verb| >= METHOD_MAX then Bad(h, m, MethodSize)
      else Go(h.(verb := h.verb + [c]), m)
    case UriStem =>
      if c == ' ' then Go(h.(state := VersionH), m)
      else if c == '?' then Go(h.(query := "", state := UriQuery), m)
      else if c == '\r' || c == '\n' then LineEnd(h, NoVersion(m), c)
      else if IsControl(c) then Bad(h, m, UriChar)
      else if |h.resource| >= RESOURCE_MAX then Bad(h, m, UriSize)
      else Go(h.(resource := h.resource + [c]), m)
    case UriQuery =>
      if c == ' ' then Go(h.(state := VersionH), m)
      else if c == '\r' || c == '\n' then LineEnd(h, NoVersion(m), c)
      else if IsControl(c) then Bad(h, m, QueryChar)
      else if |h.query| >= QUERY_STRING_MAX then Bad(h, m, QuerySize)
      else Go(h.(query := h.query + [c]), m)
    case VersionH =>
      // The state chosen on CR or LF is overwritten: all three bytes lead to the first T.
      if c == '\r' || c == '\n' then Go(h.(state := VersionT1), NoVersion(m))
      else Literal(h, m, c, 'H', VersionT1)
    case VersionT1 => Literal(h, m, c, 'T', VersionT2)
    case VersionT2 => Literal(h, m, c, 'T', VersionP)
    case VersionP => Literal(h, m, c, 'P', VersionSlash)
    case VersionSlash => Literal(h, m, c, '/', MajorStart)
    case MajorStart =>
      if IsDigit(c) then Go(h.(state := Major), m.(major := NumberOf(c))) else Bad(h, m, VersionChar)
    case Major =>
      if c == '.' then Go(h.(state := MinorStart), m)
      else if IsDigit(c) then Go(h, m.(major := Wrap16(m.major * 10 + NumberOf(c))))
      else Bad(h, m, VersionChar)
    case MinorStart =>
      if IsDigit(c) then Go(h.(state := Minor), m.(minor := NumberOf(c))) else Bad(h, m, VersionChar)
    case Minor =>
      if c == ' ' then Go(h, m)
      else if c == '\r' || c == '\n' then LineEnd(h, m, c)
      else if IsDigit(c) then Go(h, m.(minor := Wrap16(m.minor * 10 + NumberOf(c))))
      else Bad(h, m, VersionChar)
  }

  /** The states between and inside header fields. */
  function FieldStep(h: Machine, m: Head, c: char): (r: Out)
    requires !InRequestLine(h.state)
    ensures r.n <= 1 && (r.verdict.More? ==> r.n == 1) && (r.verdict.Fail? ==> r.n == 0) && !r.verdict.Raised?
  {
    match h.state
    case ExpectNewline =>
      if c == '\n' then
        if m.major == 0 then Out(h, m, Done, 1)  // HTTP 0.9 simple request
        else Go(h.(state := HeaderStart), m)
      else if c == '\r' then Out(h, m, Done, 1)
      else if c == '\t' || c == ' ' then Go(h.(state := Whitespace), m)
      else NameStart(h, m, c)
    case ExpectCR =>
      if c == '\r' then Go(h.(state := HeaderStart), m)
      else if c == '\n' then Out(h, m, Done, 1)
      else if c == '\t' || c == ' ' then Go(h.(state := Whitespace), m)
      else NameStart(h, m, c)
    case Whitespace =>
      if c == '\r' || c == '\n' then LineEnd(h, m, c)
      else if c == '\t' || c == ' ' then Go(h, m)
      else NameStart(h, m, c)
    case HeaderStart =>
      if c == '\r' then Go(h.(state := FinalNewline), m)
      else if c == '\n' then Go(h.(state := FinalCR), m)
      else if c == '\t' || c == ' ' then Go(h.(state := Whitespace), m)
      else NameStart(h, m, c)
    case HeaderName =>
      if c == ':' then Go(h.(value := "", state := SpaceBeforeValue), m)
      else if !IsToken(c) then Bad(h, m, HeaderChar)
      else if |h.name| >= HEADER_NAME_MAX then Bad(h, m, HeaderNameSize)
      else Go(h.(name := h.name + [c]), m)
    case SpaceBeforeValue =>
      if c == ' ' then Go(h.(state := HeaderValue), m)
      else if c == '\r' || c == '\n' then LineEnd(h, Add(h, m), c)
      else if !IsToken(c) then Bad(h, m, HeaderChar)
      else Go(h.(value := h.value + [c], state := HeaderValue), m)
    case HeaderValue =>
      if c == '\r' || c == '\n' then LineEnd(h, Add(h, m), c)
      else if c != '\t' && IsControl(c) then Bad(h, m, HeaderChar)
      else if |h.value| >= HEADER_VALUE_MAX then Bad(h, m, HeaderValueSize)
      else Go(h.(value := h.value + [c]), m)
    // The last byte is looked at, and left unread when it is not the expected one.
    case FinalNewline => Out(h, m, Done, if c == '\n' then 1 else 0)
    case FinalCR => Out(h, m, Done, if c == '\r' then 1 else 0)
  }

  function Step(saveRaw: bool, h0: Machine, m: Head, c: char): (r: Out)
    ensures r.n <= 1 && (r.verdict.More? ==> r.n == 1) && (r.verdict.Fail? ==> r.n == 0) && !r.verdict.Raised?
  {
    var h := if saveRaw then h0.(raw := h0.raw + [c]) else h0;
    if InRequestLine(h.state) then RequestLineStep(h, m, c) else FieldStep(h, m, c)
  }

  /** `parse_headers` on the bytes `s`. */
  function Run(saveRaw: bool, h: Machine, m: Head, s: string): (r: Out)
    ensures r.n <= |s| && (r.verdict.More? ==> r.n == |s|) && !r.verdict.Raised?
    decreases |s|
  {
    if s == [] then Out(h, m, More, 0)
    else
      var r := Step(saveRaw, h, m, s[0]);
      if r.verdict.More? then Run(saveRaw, r.h, r.m, s[1..]).Plus(1) else r
  }

  lemma {:induction false} RunAppend(saveRaw: bool, h: Machine, m: Head, a: string, b: string)
    ensures Run(saveRaw, h, m, a + b) == (
              var r := Run(saveRaw, h, m, a);
              if r.verdict.More? then Run(saveRaw, r.h, r.m, b).Plus(|a|) else r)
    decreases |a|
  {
    if a == [] {
      assert a + b == b;
    } else {
      var r := Step(saveRaw, h, m, a[0]);
      assert (a + b)[0] == a[0] && (a + b)[1..] == a[1..] + b;
      RunAppend(saveRaw, r.h, r.m, a[1..], b);
    }
  }

  // What the stale fields can influence: `name` and `value` matter only in the states that
  // extend or store them.

  predicate NameLive(s: State) {
    s.HeaderName? || s.SpaceBeforeValue? || s.HeaderValue?
  }

  predicate ValueLive(s: State) {
    s.SpaceBeforeValue? || s.HeaderValue?
  }

  /** Equality up to fields that will be erased before they are read. */
  predicate SameMachine(a: Machine, b: Machine) {
    && b == a.(name := b.name, value := b.value)
    && (NameLive(a.state) ==> a.name == b.name)
    && (ValueLive(a.state) ==> a.value == b.value)
  }

  predicate SameOut(x: Out, y: Out) {
    SameMachine(x.h, y.h) && x.m == y.m && x.verdict == y.verdict && x.n == y.n
  }

  lemma RequestLineStepSame(a: Machine, b: Machine, m: Head, c: char)
    requires SameMachine(a, b) && InRequestLine(a.state)
    ensures SameOut(RequestLineStep(a, m, c), RequestLineStep(b, m, c))
  {
  }

  lemma NameStartSame(a: Machine, b: Machine, m: Head, c: char)
    requires SameMachine(a, b)
    ensures SameOut(NameStart(a, m, c), NameStart(b, m, c))
  {
  }

  lemma BetweenFieldsSame(a: Machine, b: Machine, m: Head, c: char)
    requires SameMachine(a, b) && !InRequestLine(a.state) && !NameLive(a.state)
    ensures SameOut(FieldStep(a, m, c), FieldStep(b, m, c))
  {
    NameStartSame(a, b, m, c);
    if a.state.ExpectNewline? || a.state.ExpectCR? {
      assert SameOut(FieldStep(a, m, c), FieldStep(b, m, c));
    }
  }

  lemma InFieldSame(a: Machine, b: Machine, m: Head, c: char)
    requires SameMachine(a, b) && NameLive(a.state)
    ensures SameOut(FieldStep(a, m, c), FieldStep(b, m, c))
  {
  }

  lemma FieldStepSame(a: Machine, b: Machine, m: Head, c: char)
    requires SameMachine(a, b) && !InRequestLine(a.state)
    ensures SameOut(FieldStep(a, m, c), FieldStep(b, m, c))
  {
    if NameLive(a.state) {
      InFieldSame(a, b, m, c);
    } else {
      BetweenFieldsSame(a, b, m, c);
    }
  }

  lemma StepSame(saveRaw: bool, a: Machine, b: Machine, m: Head, c: char)
    requires SameMachine(a, b)
    ensures SameOut(Step(saveRaw, a, m, c), Step(saveRaw, b, m, c))
  {
    var a' := if saveRaw then a.(raw := a.raw + [c]) else a;
    var b' := if saveRaw then b.(raw := b.raw + [c]) else b;
    if InRequestLine(a.state) {
      RequestLineStepSame(a', b', m, c);
    } else {
      FieldStepSame(a', b', m, c);
    }
  }
}
