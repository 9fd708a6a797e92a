/**
 Printing a request head (`update_first_line` in http_request.hpp, `append_headers` in
 http_message.hpp) and parsing it back with the header machine.
 */
module RequestText {
  import opened Bytes
  import opened HeaderMachine

  datatype Request = Request(verb: string, resource: string, query: string, major: nat, minor: nat, fields: seq<Field>)

  function VersionText(major: nat, minor: nat): string {
    "HTTP/" + (Digits(10, major) + (['.'] + Digits(10, minor)))
  }

  /** The request target: the query is printed when it is not empty. */
  function Target(q: Request): string {
    q.resource + if q.query == "" then "" else ['?'] + q.query
  }

  function FirstLine(q: Request): string {
    q.verb + ([' '] + (Target(q) + ([' '] + VersionText(q.major, q.minor))))
  }

  function FieldText(f: Field): string {
    f.name + ([':', ' '] + (f.value + CRLF))
  }

  function FieldsText(fields: seq<Field>): string {
    if fields == [] then "" else FieldText(fields[0]) + FieldsText(fields[1..])
  }

  /** `append_headers`: a loop over the headers. */
  method AppendHeaders(fields: seq<Field>) returns (text: string)
    ensures text == FieldsText(fields) + CRLF
  {
    text := "";
    var i := 0;
    assert fields[0..] == fields;
    while i < |fields|
      invariant 0 <= i <= |fields| && text + FieldsText(fields[i..]) == FieldsText(fields)
    {
      assert fields[i..][0] == fields[i] && fields[i..][1..] == fields[i + 1..];
      Assoc(text, FieldText(fields[i]), FieldsText(fields[i + 1..]));
      text := text + FieldText(fields[i]);
      i := i + 1;
    }
    assert fields[|fields|..] == [] && text + "" == text;
    text := text + CRLF;
  }

  function HeadText(q: Request): string {
    FirstLine(q) + (CRLF + (FieldsText(q.fields) + CRLF))
  }

  // What the parser accepts.

  predicate TokenText(s: string) {
    forall k | 0 <= k < |s| :: IsToken(s[k])
  }

  predicate LegalResource(s: string) {
    |s| <= RESOURCE_MAX && forall k | 0 <= k < |s| :: s[k] != ' ' && s[k] != '?' && !IsControl(s[k])
  }

  predicate LegalQuery(s: string) {
    |s| <= QUERY_STRING_MAX && forall k | 0 <= k < |s| :: s[k] != ' ' && !IsControl(s[k])
  }

  predicate LegalValue(s: string) {
    |s| <= HEADER_VALUE_MAX && forall k | 0 <= k < |s| :: s[k] == '\t' || !IsControl(s[k])
  }

  predicate LegalField(f: Field) {
    0 < |f.name| <= HEADER_NAME_MAX && TokenText(f.name) && LegalValue(f.value)
  }

  predicate Legal(q: Request) {
    && 0 < |q.verb| <= METHOD_MAX && TokenText(q.verb)
    && LegalResource(q.resource) && LegalQuery(q.query)
    && 0 < q.major < 0x1_0000 && q.minor < 0x1_0000
    && forall f | f in q.fields :: LegalField(f)
  }

  // Reading the pieces.  Each lemma reads one piece `t` and stops before what follows.

  /** `t` takes the machine from one state to another without a verdict. */
  predicate Reads(h: Machine, m: Head, t: string, h': Machine, m': Head) {
    Run(false, h, m, t) == Out(h', m', More, |t|)
  }

  lemma ReadsThen(h: Machine, m: Head, a: string, h1: Machine, m1: Head, b: string)
    requires Reads(h, m, a, h1, m1)
    ensures Run(false, h, m, a + b) == Run(false, h1, m1, b).Plus(|a|)
  {
    RunAppend(false, h, m, a, b);
  }

  lemma ReadsBoth(h: Machine, m: Head, a: string, h1: Machine, m1: Head, b: string, h2: Machine, m2: Head)
    requires Reads(h, m, a, h1, m1) && Reads(h1, m1, b, h2, m2)
    ensures Reads(h, m, a + b, h2, m2)
  {
    RunAppend(false, h, m, a, b);
  }

  lemma ReadsOne(h: Machine, m: Head, c: char)
    requires Step(false, h, m, c).verdict.More?
    ensures Reads(h, m, [c], Step(false, h, m, c).h, Step(false, h, m, c).m)
  {
    assert [c][1..] == [];
  }

  lemma {:induction false} ReadVerb(h: Machine, m: Head, t: string)
    requires h.state.Method? && TokenText(t) && |h.verb| + |t| <= METHOD_MAX
    ensures Reads(h, m, t, h.(verb := h.verb + t), m)
    decreases |t|
  {
    if t == "" {
      assert h.verb + t == h.verb;
    } else {
      ReadVerb(h.(verb := h.verb + [t[0]]), m, t[1..]);
      assert h.verb + [t[0]] + t[1..] == h.verb + t;
    }
  }

  lemma {:induction false} ReadResource(h: Machine, m: Head, t: string)
    requires h.state.UriStem? && LegalResource(h.resource + t)
    ensures Reads(h, m, t, h.(resource := h.resource + t), m)
    decreases |t|
  {
    if t == "" {
      assert h.resource + t == h.resource;
    } else {
      assert (h.resource + t)[|h.resource|] == t[0];
      assert h.resource + [t[0]] + t[1..] == h.resource + t;
      ReadResource(h.(resource := h.resource + [t[0]]), m, t[1..]);
    }
  }

  lemma {:induction false} ReadQuery(h: Machine, m: Head, t: string)
    requires h.state.UriQuery? && LegalQuery(h.query + t)
    ensures Reads(h, m, t, h.(query := h.query + t), m)
    decreases |t|
  {
    if t == "" {
      assert h.query + t == h.query;
    } else {
      assert (h.query + t)[|h.query|] == t[0];
      assert h.query + [t[0]] + t[1..] == h.query + t;
      ReadQuery(h.(query := h.query + [t[0]]), m, t[1..]);
    }
  }

  lemma {:induction false} ReadName(h: Machine, m: Head, t: string)
    requires h.state.HeaderName? && TokenText(t) && |h.name| + |t| <= HEADER_NAME_MAX
    ensures Reads(h, m, t, h.(name := h.name + t), m)
    decreases |t|
  {
    if t == "" {
      assert h.name + t == h.name;
    } else {
      ReadName(h.(name := h.name + [t[0]]), m, t[1..]);
      assert h.name + [t[0]] + t[1..] == h.name + t;
    }
  }

  lemma {:induction false} ReadValue(h: Machine, m: Head, t: string)
    requires h.state.HeaderValue? && |h.value| + |t| <= HEADER_VALUE_MAX
    requires forall k | 0 <= k < |t| :: t[k] == '\t' || !IsControl(t[k])
    ensures Reads(h, m, t, h.(value := h.value + t), m)
    decreases |t|
  {
    if t == "" {
      assert h.value + t == h.value;
    } else {
      ReadValue(h.(value := h.value + [t[0]]), m, t[1..]);
      assert h.value + [t[0]] + t[1..] == h.value + t;
    }
  }

  /** One header line, from line start to line start. */
  lemma ReadField(h: Machine, m: Head, f: Field)
    requires h.state.HeaderStart? && LegalField(f) && m.major != 0
    ensures Reads(h, m, FieldText(f), h.(name := f.name, value := f.value), m.(fields := m.fields + [f]))
  {
    var c, rest := f.name[0], f.name[1..];
    var h1 := h.(state := HeaderName, name := [c]);
    ReadsOne(h, m, c);
    ReadName(h1, m, rest);
    assert [c] + rest == f.name;
    var h2 := h1.(name := f.name);
    ReadsBoth(h, m, [c], h1, m, rest, h2, m);
    var h3 := h2.(state := SpaceBeforeValue, value := "");
    var h4 := h3.(state := HeaderValue);
    ReadsOne(h2, m, ':');
    ReadsOne(h3, m, ' ');
    ReadsBoth(h2, m, [':'], h3, m, [' '], h4, m);
    ReadValue(h4, m, f.value);
    assert "" + f.value == f.value && [':'] + [' '] == [':', ' '];
    var h5 := h4.(value := f.value);
    ReadLineEnd(h5, m, f);
    var m' := m.(fields := m.fields + [f]);
    var h6 := h5.(state := HeaderStart);
    ReadsBoth(h4, m, f.value, h5, m, CRLF, h6, m');
    ReadsBoth(h2, m, [':', ' '], h4, m, f.value + CRLF, h6, m');
    ReadsBoth(h, m, f.name, h2, m, [':', ' '] + (f.value + CRLF), h6, m');
  }

  lemma ReadLineEnd(h: Machine, m: Head, f: Field)
    requires h.state.HeaderValue? && h.name == f.name && h.value == f.value && m.major != 0
    ensures Reads(h, m, CRLF, h.(state := HeaderStart), m.(fields := m.fields + [f]))
  {
    var m' := m.(fields := m.fields + [f]);
    assert Add(h, m) == m';
    ReadsOne(h, m, '\r');
    ReadsOne(h.(state := ExpectNewline), m', '\n');
    ReadsBoth(h, m, ['\r'], h.(state := ExpectNewline), m', ['\n'], h.(state := HeaderStart), m');
    assert ['\r'] + ['\n'] == CRLF;
  }

  lemma {:induction false} ReadFields(h: Machine, m: Head, fields: seq<Field>) returns (h': Machine)
    requires h.state.HeaderStart? && m.major != 0 && forall f | f in fields :: LegalField(f)
    ensures h' == h.(name := h'.name, value := h'.value)
    ensures Reads(h, m, FieldsText(fields), h', m.(fields := m.fields + fields))
    decreases |fields|
  {
    if fields == [] {
      h' := h;
      assert m.fields + fields == m.fields;
    } else {
      var f := fields[0];
      var h1, m1 := h.(name := f.name, value := f.value), m.(fields := m.fields + [f]);
      ReadField(h, m, f);
      h' := ReadFields(h1, m1, fields[1..]);
      assert m.fields + [f] + fields[1..] == m.fields + fields;
      ReadsBoth(h, m, FieldText(f), h1, m1, FieldsText(fields[1..]), h', m.(fields := m.fields + fields));
    }
  }

  /** The header section with its closing CRLF, followed by anything. */
  lemma ReadHeaderSection(h: Machine, m: Head, fields: seq<Field>, rest: string) returns (h': Machine)
    requires h.state.HeaderStart? && m.major != 0 && forall f | f in fields :: LegalField(f)
    ensures h' == h.(state := FinalNewline, name := h'.name, value := h'.value)
    ensures var t := FieldsText(fields) + CRLF;
      Run(false, h, m, t + rest) == Out(h', m.(fields := m.fields + fields), Done, |t|)
  {
    var m' := m.(fields := m.fields + fields);
    var h1 := ReadFields(h, m, fields);
    h' := h1.(state := FinalNewline);
    ReadsOne(h1, m', '\r');
    var end := ['\n'] + rest;
    ReadsThen(h1, m', ['\r'], h', m', end);
    assert Run(false, h', m', end) == Out(h', m', Done, 1);
    ReadsThen(h, m, FieldsText(fields), h1, m', ['\r'] + end);
    assert FieldsText(fields) + CRLF + rest == FieldsText(fields) + (['\r'] + end);
  }

  // The request line.

  /** The number a run of digits denotes grows with every digit. */
  lemma {:induction false} ValueGrows(a: string, b: string)
    requires forall c | c in a + b :: IsHexDigit(c)
    ensures (forall c | c in a :: IsHexDigit(c)) && Value(10, a) <= Value(10, a + b)
    decreases |b|
  {
    assert forall c | c in a :: c in a + b;
    if b == "" {
      assert a + b == a;
    } else {
      var t := a + b[..|b| - 1];
      assert a + b == t + [b[|b| - 1]] && (a + b)[..|a + b| - 1] == t;
      assert forall c | c in t :: c in a + b;
      ValueGrows(a, b[..|b| - 1]);
    }
  }

  lemma ValueSnoc(a: string, c: char)
    requires (forall d | d in a :: IsHexDigit(d)) && IsDigit(c)
    ensures (forall d | d in a + [c] :: IsHexDigit(d)) && Value(10, a + [c]) == 10 * Value(10, a) + NumberOf(c)
  {
    assert (a + [c])[..|a|] == a;
  }

  predicate DigitText(s: string) {
    forall c | c in s :: IsDigit(c)
  }

  /** What reading one more digit of `a + t` comes to. */
  lemma NextDigit(a: string, t: string)
    requires t != "" && DigitText(a + t) && Value(10, a + t) < 0x1_0000
    ensures a + [t[0]] + t[1..] == a + t && [t[0]] + t[1..] == t && IsDigit(t[0])
    ensures forall c | c in a + [t[0]] :: IsHexDigit(c)
    ensures Value(10, a + [t[0]]) == 10 * Value(10, a) + NumberOf(t[0]) < 0x1_0000
  {
    assert a + [t[0]] + t[1..] == a + t && t[0] in a + t && forall c | c in a :: c in a + t;
    ValueSnoc(a, t[0]);
    ValueGrows(a + [t[0]], t[1..]);
  }

  lemma ReadMajorDigit(h: Machine, m: Head, c: char, value: nat)
    requires h.state.Major? && IsDigit(c) && value == 10 * m.major + NumberOf(c) < 0x1_0000
    ensures Reads(h, m, [c], h, m.(major := value))
  {
    ReadsOne(h, m, c);
  }

  lemma {:induction false} ReadMajor(h: Machine, m: Head, a: string, t: string)
    requires h.state.Major? && DigitText(a + t) && Value(10, a + t) < 0x1_0000 && m.major == Value(10, a)
    ensures Reads(h, m, t, h, m.(major := Value(10, a + t)))
    decreases |t|
  {
    if t == "" {
      assert a + t == a;
    } else {
      NextDigit(a, t);
      var m1 := m.(major := Value(10, a + [t[0]]));
      ReadMajorDigit(h, m, t[0], m1.major);
      ReadMajor(h, m1, a + [t[0]], t[1..]);
      ReadsBoth(h, m, [t[0]], h, m1, t[1..], h, m.(major := Value(10, a + t)));
    }
  }

  lemma ReadMinorDigit(h: Machine, m: Head, c: char, value: nat)
    requires h.state.Minor? && IsDigit(c) && value == 10 * m.minor + NumberOf(c) < 0x1_0000
    ensures Reads(h, m, [c], h, m.(minor := value))
  {
    ReadsOne(h, m, c);
  }

  lemma {:induction false} ReadMinor(h: Machine, m: Head, a: string, t: string)
    requires h.state.Minor? && DigitText(a + t) && Value(10, a + t) < 0x1_0000 && m.minor == Value(10, a)
    ensures Reads(h, m, t, h, m.(minor := Value(10, a + t)))
    decreases |t|
  {
    if t == "" {
      assert a + t == a;
    } else {
      NextDigit(a, t);
      var m1 := m.(minor := Value(10, a + [t[0]]));
      ReadMinorDigit(h, m, t[0], m1.minor);
      ReadMinor(h, m1, a + [t[0]], t[1..]);
      ReadsBoth(h, m, [t[0]], h, m1, t[1..], h, m.(minor := Value(10, a + t)));
    }
  }

  lemma OneDigit(c: char)
    requires IsDigit(c)
    ensures (forall d | d in [c] :: IsHexDigit(d)) && Value(10, [c]) == NumberOf(c)
  {
    ValueSnoc("", c);
    assert "" + [c] == [c];
  }

  /** A whole version number, first digit included. */
  lemma ReadMajorNumber(h: Machine, m: Head, n: nat)
    requires h.state.MajorStart? && n < 0x1_0000
    ensures Reads(h, m, Digits(10, n), h.(state := Major), m.(major := n))
  {
    var ds := Digits(10, n);
    var h1, m1 := h.(state := Major), m.(major := NumberOf(ds[0]));
    ValueOfDigits(10, n);
    OneDigit(ds[0]);
    assert [ds[0]] + ds[1..] == ds;
    ReadsOne(h, m, ds[0]);
    ReadMajor(h1, m1, [ds[0]], ds[1..]);
    ReadsBoth(h, m, [ds[0]], h1, m1, ds[1..], h1, m.(major := n));
  }

  lemma ReadMinorNumber(h: Machine, m: Head, n: nat)
    requires h.state.MinorStart? && n < 0x1_0000
    ensures Reads(h, m, Digits(10, n), h.(state := Minor), m.(minor := n))
  {
    var ds := Digits(10, n);
    var h1, m1 := h.(state := Minor), m.(minor := NumberOf(ds[0]));
    ValueOfDigits(10, n);
    OneDigit(ds[0]);
    assert [ds[0]] + ds[1..] == ds;
    ReadsOne(h, m, ds[0]);
    ReadMinor(h1, m1, [ds[0]], ds[1..]);
    ReadsBoth(h, m, [ds[0]], h1, m1, ds[1..], h1, m.(minor := n));
  }

  lemma ReadHttp(h: Machine, m: Head)
    requires h.state.VersionH?
    ensures Reads(h, m, "HTTP/", h.(state := MajorStart), m)
  {
    var h1, h2 := h.(state := VersionT1), h.(state := VersionT2);
    var h3, h4 := h.(state := VersionP), h.(state := VersionSlash);
    var h5 := h.(state := MajorStart);
    ReadsOne(h, m, 'H');
    ReadsOne(h1, m, 'T');
    ReadsOne(h2, m, 'T');
    ReadsOne(h3, m, 'P');
    ReadsOne(h4, m, '/');
    ReadsBoth(h, m, ['H'], h1, m, ['T'], h2, m);
    ReadsBoth(h, m, ['H'] + ['T'], h2, m, ['T'], h3, m);
    ReadsBoth(h, m, ['H'] + ['T'] + ['T'], h3, m, ['P'], h4, m);
    ReadsBoth(h, m, ['H'] + ['T'] + ['T'] + ['P'], h4, m, ['/'], h5, m);
    assert ['H'] + ['T'] + ['T'] + ['P'] + ['/'] == "HTTP/";
  }

  lemma ReadVersion(h: Machine, m: Head, major: nat, minor: nat)
    requires h.state.VersionH? && major < 0x1_0000 && minor < 0x1_0000
    ensures Reads(h, m, VersionText(major, minor), h.(state := Minor), m.(major := major, minor := minor))
  {
    var h1, h2, h3, h4 := h.(state := MajorStart), h.(state := Major), h.(state := MinorStart), h.(state := Minor);
    var m1, m2 := m.(major := major), m.(major := major, minor := minor);
    ReadHttp(h, m);
    ReadMajorNumber(h1, m, major);
    ReadsOne(h2, m1, '.');
    ReadMinorNumber(h3, m1, minor);
    ReadsBoth(h2, m1, ['.'], h3, m1, Digits(10, minor), h4, m2);
    ReadsBoth(h1, m, Digits(10, major), h2, m1, ['.'] + Digits(10, minor), h4, m2);
    ReadsBoth(h, m, "HTTP/", h1, m, Digits(10, major) + (['.'] + Digits(10, minor)), h4, m2);
  }

  lemma ReadTarget(h: Machine, m: Head, q: Request)
    requires h.state.UriStem? && h.resource == "" && LegalResource(q.resource) && LegalQuery(q.query)
    ensures Reads(h, m, Target(q) + [' '],
                  h.(state := VersionH, resource := q.resource, query := if q.query == "" then h.query else q.query), m)
  {
    assert "" + q.resource == q.resource && "" + q.query == q.query;
    ReadResource(h, m, q.resource);
    var h1 := h.(resource := q.resource);
    if q.query == "" {
      assert Target(q) == q.resource;
      ReadsOne(h1, m, ' ');
      ReadsBoth(h, m, q.resource, h1, m, [' '], h1.(state := VersionH), m);
    } else {
      var h2 := h1.(state := UriQuery, query := "");
      var h3 := h2.(query := q.query);
      ReadsOne(h1, m, '?');
      ReadQuery(h2, m, q.query);
      ReadsOne(h3, m, ' ');
      ReadsBoth(h1, m, ['?'], h2, m, q.query, h3, m);
      ReadsBoth(h, m, q.resource, h1, m, ['?'] + q.query, h3, m);
      ReadsBoth(h, m, Target(q), h3, m, [' '], h3.(state := VersionH), m);
    }
  }

  lemma ReadVerbSpace(h: Machine, m: Head, verb: string)
    requires h.state.MethodStart? && 0 < |verb| <= METHOD_MAX && TokenText(verb)
    ensures Reads(h, m, verb + [' '], h.(state := UriStem, verb := verb, resource := ""), m)
  {
    var h1 := h.(state := Method, verb := [verb[0]]);
    var h2 := h1.(verb := verb);
    assert [verb[0]] + verb[1..] == verb;
    ReadsOne(h, m, verb[0]);
    ReadVerb(h1, m, verb[1..]);
    ReadsBoth(h, m, [verb[0]], h1, m, verb[1..], h2, m);
    ReadsOne(h2, m, ' ');
    ReadsBoth(h, m, verb, h2, m, [' '], h2.(state := UriStem, resource := ""), m);
  }

  /** The machine once the request line of `q` is read. */
  function AfterLine(h: Machine, q: Request): Machine {
    h.(state := HeaderStart, verb := q.verb, resource := q.resource,
       query := if q.query == "" then h.query else q.query)
  }

  lemma ReadRequestLine(h: Machine, m: Head, q: Request)
    requires h.state.MethodStart? && Legal(q)
    ensures Reads(h, m, FirstLine(q) + CRLF, AfterLine(h, q), m.(major := q.major, minor := q.minor))
  {
    var verb, target, version := q.verb + [' '], Target(q) + [' '], VersionText(q.major, q.minor);
    var h1 := h.(state := UriStem, verb := q.verb, resource := "");
    var h4 := AfterLine(h, q);
    var h2, h3 := h4.(state := VersionH), h4.(state := Minor);
    var m' := m.(major := q.major, minor := q.minor);
    ReadVerbSpace(h, m, q.verb);
    ReadTarget(h1, m, q);
    ReadVersion(h2, m, q.major, q.minor);
    ReadsOne(h3, m', '\r');
    ReadsOne(h3.(state := ExpectNewline), m', '\n');
    ReadsBoth(h3, m', ['\r'], h3.(state := ExpectNewline), m', ['\n'], h4, m');
    assert ['\r'] + ['\n'] == CRLF;
    ReadsBoth(h2, m, version, h3, m', CRLF, h4, m');
    ReadsBoth(h1, m, target, h2, m, version + CRLF, h4, m');
    ReadsBoth(h, m, verb, h1, m, target + (version + CRLF), h4, m');
    FirstLinePieces(q);
  }

  lemma FirstLinePieces(q: Request)
    ensures FirstLine(q) + CRLF == (q.verb + [' ']) + ((Target(q) + [' ']) + (VersionText(q.major, q.minor) + CRLF))
  {
    var verb, target, version := q.verb, Target(q), VersionText(q.major, q.minor);
    Assoc(verb, [' '], target + ([' '] + version));
    Assoc(target, [' '], version);
    Assoc(verb + [' '], target + [' '] + version, CRLF);
    Assoc(target + [' '], version, CRLF);
  }

  /**
   Round trip: parsing a printed request head, followed by anything, ends exactly at its last
   byte and recovers method, resource, query, version and the header fields in order.
   */
  lemma HeadRoundTrip(h: Machine, m: Head, q: Request, rest: string) returns (h': Machine)
    requires h.state.MethodStart? && Legal(q)
    ensures h' == AfterLine(h, q).(state := FinalNewline, name := h'.name, value := h'.value)
    ensures Run(false, h, m, HeadText(q) + rest)
         == Out(h', Head(q.major, q.minor, m.fields + q.fields), Done, |HeadText(q)|)
  {
    var line := FirstLine(q) + CRLF;
    var section := FieldsText(q.fields) + CRLF;
    var h1, m1 := AfterLine(h, q), m.(major := q.major, minor := q.minor);
    ReadRequestLine(h, m, q);
    h' := ReadHeaderSection(h1, m1, q.fields, rest);
    ReadsThen(h, m, line, h1, m1, section + rest);
    Assoc(FirstLine(q), CRLF, section);
    Assoc(line, section, rest);
  }

  // Saving the raw headers changes nothing else.

  predicate UpToRaw(x: Out, y: Out) {
    y == x.(h := x.h.(raw := y.h.raw))
  }

  lemma RequestLineUpToRaw(h: Machine, raw: string, m: Head, c: char)
    requires InRequestLine(h.state)
    ensures UpToRaw(RequestLineStep(h, m, c), RequestLineStep(h.(raw := raw), m, c))
  {
  }

  lemma FieldUpToRaw(h: Machine, raw: string, m: Head, c: char)
    requires !InRequestLine(h.state)
    ensures UpToRaw(FieldStep(h, m, c), FieldStep(h.(raw := raw), m, c))
  {
    if NameLive(h.state) {
      assert UpToRaw(FieldStep(h, m, c), FieldStep(h.(raw := raw), m, c));
    } else if h.state.ExpectNewline? || h.state.ExpectCR? {
      assert UpToRaw(FieldStep(h, m, c), FieldStep(h.(raw := raw), m, c));
    }
  }

  lemma StepUpToRaw(saveRaw: bool, h: Machine, raw: string, m: Head, c: char)
    ensures UpToRaw(Step(false, h, m, c), Step(saveRaw, h.(raw := raw), m, c))
  {
    var raw' := if saveRaw then raw + [c] else raw;
    if InRequestLine(h.state) {
      RequestLineUpToRaw(h, raw', m, c);
    } else {
      FieldUpToRaw(h, raw', m, c);
    }
  }

  lemma {:induction false} RunUpToRaw(saveRaw: bool, h: Machine, raw: string, m: Head, s: string)
    ensures UpToRaw(Run(false, h, m, s), Run(saveRaw, h.(raw := raw), m, s))
    decreases |s|
  {
    if s != [] {
      var x, y := Step(false, h, m, s[0]), Step(saveRaw, h.(raw := raw), m, s[0]);
      StepUpToRaw(saveRaw, h, raw, m, s[0]);
      if x.verdict.More? {
        RunUpToRaw(saveRaw, x.h, y.h.raw, x.m, s[1..]);
      }
    }
  }

  /** How a field and a first line look. */
  lemma PrintedField()
    ensures FieldText(Field("A", "b")) == "A: b\r\n"
  {
  }

  lemma PrintedLine()
    ensures FirstLine(Request("M", "/r", "q", 1, 0, [])) == "M /r?q HTTP/1.0"
  {
    var v := VersionText(1, 0);
    assert Digits(10, 1) == ['1'] && Digits(10, 0) == ['0'];
    assert v == "HTTP/" + ['1', '.', '0'];
  }
}
