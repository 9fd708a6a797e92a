/**
 Request heads line by line, an independent reading of what `parse_headers` does byte by byte:
 a request line, then lines that are blank, or hold a field, or end the head.  The two readings
 agree on every input: on what is reported, on how many bytes are read, and on the error.
 */
module HeadGrammar {
  import opened Bytes
  import opened HeaderMachine

  // Pieces of text.

  predicate IsEol(c: char) {
    c == '\r' || c == '\n'
  }

  predicate IsBlank(c: char) {
    c == ' ' || c == '\t'
  }

  /** The characters of a resource, of a query, and of a value; other ones end it or are errors. */
  predicate InResource(c: char) {
    c != ' ' && c != '?' && !IsControl(c)
  }

  predicate EndsVerb(c: char) {
    c == ' '
  }

  predicate EndsName(c: char) {
    c == ':'
  }

  predicate InQuery(c: char) {
    c != ' ' && !IsControl(c)
  }

  predicate InValue(c: char) {
    c == '\t' || !IsControl(c)
  }

  /** A piece of text and where it ends; or the input ends in it, or an error occurs at `n`. */
  datatype Piece = Piece(text: string, end: nat) | Stop(verdict: Verdict, n: nat)

  /** The longest piece from `i` on, which must end with a character that `ends` allows. */
  function Take(s: string, i: nat, p: char -> bool, ends: char -> bool, max: nat,
                badChar: Error, badSize: Error): (r: Piece)
    requires i <= |s|
    ensures r.Piece? ==> i <= r.end < |s| && r.end - i <= max && ends(s[r.end]) && r.text == s[i..r.end]
  {
    var k := Span(s, i, p);
    if k - i > max then Stop(Fail(badSize), i + max)
    else if k == |s| then Stop(More, k)
    else if ends(s[k]) then Piece(s[i..k], k)
    else Stop(Fail(badChar), k)
  }

  /** What follows the colon of a field: one space is left out, and without it a token has to start the value. */
  function TakeValue(s: string, v: nat): (r: Piece)
    requires v <= |s|
    ensures r.Piece? ==> v <= r.end < |s| && IsEol(s[r.end])
  {
    if v == |s| then Stop(More, v)
    else if s[v] == ' ' then Take(s, v + 1, InValue, IsEol, HEADER_VALUE_MAX, HeaderChar, HeaderValueSize)
    else if IsEol(s[v]) then Piece("", v)
    else if !IsToken(s[v]) then Stop(Fail(HeaderChar), v)
    else Take(s, v, InValue, IsEol, HEADER_VALUE_MAX, HeaderChar, HeaderValueSize)
  }

  // The fields.

  datatype Tail = Tail(verdict: Verdict, n: nat, fields: seq<Field>)

  /**
   From the line end at `e`.  A line ends with CR, LF, CR LF or LF CR; two of the same end the
   head, and so does CR LF without a version.
   */
  function AfterLine(s: string, e: nat, major: nat): Tail
    requires e < |s| && IsEol(s[e])
    decreases |s| - e, 3
  {
    if e + 1 == |s| then Tail(More, e + 1, [])
    else if s[e + 1] == s[e] then Tail(Done, e + 2, [])
    else if IsEol(s[e + 1]) then
      if s[e] == '\r' && major == 0 then Tail(Done, e + 2, []) else LineStart(s, e + 2, major)
    else Content(s, e + 1, major)
  }

  /** A line after a line end of two characters: an empty one ends the head. */
  function LineStart(s: string, j: nat, major: nat): Tail
    requires j <= |s|
    decreases |s| - j, 2
  {
    if j == |s| then Tail(More, j, [])
    else if IsEol(s[j]) then
      if j + 1 == |s| then Tail(More, j + 1, [])
      else Tail(Done, j + if IsEol(s[j + 1]) && s[j + 1] != s[j] then 2 else 1, [])
    else Content(s, j, major)
  }

  /** A line that is not empty: after any blanks it ends, or a field follows. */
  function Content(s: string, j: nat, major: nat): Tail
    requires j <= |s| && (j < |s| ==> !IsEol(s[j]))
    decreases |s| - j, 1
  {
    var k := Span(s, j, IsBlank);
    if k == |s| then Tail(More, k, [])
    else if IsEol(s[k]) then AfterLine(s, k, major)
    else if !IsToken(s[k]) then Tail(Fail(HeaderChar), k, [])
    else FieldLine(s, k, major)
  }

  /** The name of a field, up to its colon. */
  function TakeName(s: string, k: nat): Piece
    requires k <= |s|
  {
    Take(s, k, IsToken, EndsName, HEADER_NAME_MAX, HeaderChar, HeaderNameSize)
  }

  /** A field whose name starts at `k`. */
  function FieldLine(s: string, k: nat, major: nat): Tail
    requires k < |s| && IsToken(s[k])
    decreases |s| - k, 0
  {
    var name := TakeName(s, k);
    if name.Stop? then Tail(name.verdict, name.n, [])
    else
      var value := TakeValue(s, name.end + 1);
      if value.Stop? then Tail(value.verdict, value.n, [])
      else
        var more := AfterLine(s, value.end, major);
        more.(fields := [Field(name.text, value.text)] + more.fields)
  }

  // The request line.

  /** The parts of a request line and where its line end is; or the input ends in it, or an error occurs at `n`. */
  datatype Line =
    | Line(verb: string, resource: string, query: string, major: nat, minor: nat, end: nat)
    | Wrong(verdict: Verdict, n: nat)

  predicate EndsResource(c: char) {
    c == ' ' || c == '?' || IsEol(c)
  }

  predicate EndsQuery(c: char) {
    c == ' ' || IsEol(c)
  }

  /** Spaces and line ends in front of the method are skipped. */
  function RequestLine(s: string): (r: Line)
    ensures r.Line? ==> r.end < |s| && IsEol(s[r.end])
  {
    var i := Span(s, 0, EndsQuery);
    if i == |s| then Wrong(More, i)
    else if !IsToken(s[i]) then Wrong(Fail(MethodChar), i)
    else AfterVerb(s, Take(s, i, IsToken, EndsVerb, METHOD_MAX, MethodChar, MethodSize))
  }

  function AfterVerb(s: string, verb: Piece): (r: Line)
    requires verb.Piece? ==> verb.end < |s|
    ensures r.Line? ==> r.end < |s| && IsEol(s[r.end])
  {
    if verb.Stop? then Wrong(verb.verdict, verb.n) else Target(s, verb.text, verb.end + 1)
  }

  function Target(s: string, verb: string, i: nat): (r: Line)
    requires i <= |s|
    ensures r.Line? ==> r.end < |s| && IsEol(s[r.end])
  {
    AfterResource(s, verb, Take(s, i, InResource, EndsResource, RESOURCE_MAX, UriChar, UriSize))
  }

  function AfterResource(s: string, verb: string, resource: Piece): (r: Line)
    requires resource.Piece? ==> resource.end < |s| && EndsResource(s[resource.end])
    ensures r.Line? ==> r.end < |s| && IsEol(s[r.end])
  {
    if resource.Stop? then Wrong(resource.verdict, resource.n)
    else if s[resource.end] != '?' then AfterTarget(s, verb, resource.text, "", resource.end)
    else
      var query := Take(s, resource.end + 1, InQuery, EndsQuery, QUERY_STRING_MAX, QueryChar, QuerySize);
      AfterQuery(s, verb, resource.text, query)
  }

  function AfterQuery(s: string, verb: string, resource: string, query: Piece): (r: Line)
    requires query.Piece? ==> query.end < |s| && EndsQuery(s[query.end])
    ensures r.Line? ==> r.end < |s| && IsEol(s[r.end])
  {
    if query.Stop? then Wrong(query.verdict, query.n) else AfterTarget(s, verb, resource, query.text, query.end)
  }

  /** A line end behind the target is a request without version; behind a space the version follows. */
  function AfterTarget(s: string, verb: string, resource: string, query: string, e: nat): (r: Line)
    requires e < |s| && EndsQuery(s[e])
    ensures r.Line? ==> r.end < |s| && IsEol(s[r.end])
  {
    if IsEol(s[e]) then Line(verb, resource, query, 0, 0, e)
    else
      var v := Version(s, e + 1);
      if v.Wrong? then v else v.(verb := verb, resource := resource, query := query)
  }

  /** Where `t` stops matching the text at `i`, if it does not match. */
  function Literally(s: string, i: nat, t: string): Line
    requires i <= |s|
    decreases |t|
  {
    if t == "" then Line("", "", "", 0, 0, i)
    else if i == |s| then Wrong(More, i)
    else if s[i] != t[0] then Wrong(Fail(VersionChar), i)
    else Literally(s, i + 1, t[1..])
  }

  predicate InMinor(c: char) {
    IsDigit(c) || c == ' '
  }

  /** The digits of a text. */
  function DigitsOf(t: string): (u: string)
    ensures forall c | c in u :: IsHexDigit(c)
  {
    if t == "" then ""
    else DigitsOf(t[..|t| - 1]) + if IsDigit(t[|t| - 1]) then [t[|t| - 1]] else ""
  }

  /** The number that the digits from `j` to `k` denote, as far as sixteen bits hold it. */
  function Count(s: string, j: nat, k: nat): nat
    requires j <= k <= |s|
    decreases k
  {
    if k == j then 0
    else if IsDigit(s[k - 1]) then (Count(s, j, k - 1) * 10 + NumberOf(s[k - 1])) % 0x1_0000
    else Count(s, j, k - 1)
  }

  /** "HTTP/1.1" and the like; a line end may stand for the first letter, and spaces may occur in the minor number. */
  function Version(s: string, i: nat): (r: Line)
    requires i <= |s|
    ensures r.Line? ==> r.end < |s| && IsEol(s[r.end])
  {
    if i == |s| then Wrong(More, i)
    else if s[i] != 'H' && !IsEol(s[i]) then Wrong(Fail(VersionChar), i)
    else
      var mark := Literally(s, i + 1, "TTP/");
      if mark.Wrong? then mark else Numbers(s, i + 5)
  }

  function Numbers(s: string, j: nat): (r: Line)
    ensures r.Line? ==> r.end < |s| && IsEol(s[r.end])
  {
    if j >= |s| then Wrong(More, |s|)
    else
      var k := Span(s, j, IsDigit);
      if k == j then Wrong(Fail(VersionChar), j)
      else if k == |s| then Wrong(More, k)
      else if s[k] != '.' then Wrong(Fail(VersionChar), k)
      else Minor(s, Count(s, j, k), k + 1)
  }

  function Minor(s: string, major: nat, j: nat): (r: Line)
    requires j <= |s|
    ensures r.Line? ==> r.end < |s| && IsEol(s[r.end])
  {
    if j == |s| then Wrong(More, j)
    else if !IsDigit(s[j]) then Wrong(Fail(VersionChar), j)
    else
      var k := Span(s, j, InMinor);
      if k == |s| then Wrong(More, k)
      else if !IsEol(s[k]) then Wrong(Fail(VersionChar), k)
      else Line("", "", "", major, Count(s, j, k), k)
  }

  // The byte-at-a-time machine, abstractly: `OneByte` is the only place where a step is taken.

  datatype Reader = Reader(run: (Machine, Head, nat) -> Out, s: string) {

    ghost predicate Obeys() {
      forall h, m, i: nat {:trigger Looked(h, m, i)} :: i <= |s| ==>
        run(h, m, i) ==
          if i == |s| then Out(h, m, More, i)
          else
            var r := Step(false, h, m, s[i]);
            if r.verdict.More? then run(r.h, r.m, i + 1) else r.Plus(i)
    }
  }

  predicate Looked(h: Machine, m: Head, i: nat) {
    true
  }

  lemma OneByte(r: Reader, h: Machine, m: Head, i: nat)
    requires r.Obeys() && i < |r.s|
    ensures var x := Step(false, h, m, r.s[i]);
      r.run(h, m, i) == if x.verdict.More? then r.run(x.h, x.m, i + 1) else x.Plus(i)
  {
    assert Looked(h, m, i);
  }

  lemma AtEnd(r: Reader, h: Machine, m: Head, i: nat)
    requires r.Obeys() && i == |r.s|
    ensures r.run(h, m, i) == Out(h, m, More, i)
  {
    assert Looked(h, m, i);
  }

  /** `o` ends as `t` says, having added its fields to `m`. */
  predicate Agrees(o: Out, h: Machine, m: Head, t: Tail) {
    && o.verdict == t.verdict && o.n == t.n
    && (t.verdict.Done? ==>
          && o.m == m.(fields := m.fields + t.fields)
          && o.h.verb == h.verb && o.h.resource == h.resource && o.h.query == h.query)
  }

  // Runs through one piece.

  lemma {:induction false} NameRun(r: Reader, h: Machine, m: Head, i: nat, k: nat)
    requires r.Obeys() && h.state.HeaderName? && i <= k <= |r.s| && |h.name| + (k - i) <= HEADER_NAME_MAX
    requires forall j | i <= j < k :: IsToken(r.s[j])
    ensures r.run(h, m, i) == r.run(h.(name := h.name + r.s[i..k]), m, k)
    decreases k - i
  {
    if i == k {
      assert h.name + r.s[i..k] == h.name;
    } else {
      OneByte(r, h, m, i);
      NameRun(r, h.(name := h.name + [r.s[i]]), m, i + 1, k);
      assert h.name + [r.s[i]] + r.s[i + 1..k] == h.name + r.s[i..k];
    }
  }

  lemma {:induction false} ValueRun(r: Reader, h: Machine, m: Head, i: nat, k: nat)
    requires r.Obeys() && h.state.HeaderValue? && i <= k <= |r.s| && |h.value| + (k - i) <= HEADER_VALUE_MAX
    requires forall j | i <= j < k :: InValue(r.s[j])
    ensures r.run(h, m, i) == r.run(h.(value := h.value + r.s[i..k]), m, k)
    decreases k - i
  {
    if i == k {
      assert h.value + r.s[i..k] == h.value;
    } else {
      OneByte(r, h, m, i);
      ValueRun(r, h.(value := h.value + [r.s[i]]), m, i + 1, k);
      assert h.value + [r.s[i]] + r.s[i + 1..k] == h.value + r.s[i..k];
    }
  }

  /** A value from its first character on. */
  lemma TakeValueRun(r: Reader, h: Machine, m: Head, i: nat)
    requires r.Obeys() && h.state.HeaderValue? && h.value == "" && i <= |r.s|
    ensures var p := Take(r.s, i, InValue, IsEol, HEADER_VALUE_MAX, HeaderChar, HeaderValueSize);
      var o := r.run(h, m, i);
      if p.Stop? then o.verdict == p.verdict && o.n == p.n && !o.verdict.Done?
      else o == r.run(h.(value := p.text), m, p.end)
  {
    var k := Span(r.s, i, InValue);
    assert "" + r.s[i..k] == r.s[i..k];
    if k - i > HEADER_VALUE_MAX {
      var j := i + HEADER_VALUE_MAX;
      ValueRun(r, h, m, i, j);
      assert InValue(r.s[j]);
      OneByte(r, h.(value := h.value + r.s[i..j]), m, j);
    } else {
      ValueRun(r, h, m, i, k);
      if k == |r.s| {
        AtEnd(r, h.(value := h.value + r.s[i..k]), m, k);
      } else if !IsEol(r.s[k]) {
        OneByte(r, h.(value := h.value + r.s[i..k]), m, k);
      }
    }
  }

  /** A name, after its first character, up to its colon. */
  lemma TakeNameRun(r: Reader, h: Machine, m: Head, k: nat)
    requires r.Obeys() && h.state.HeaderName? && k < |r.s| && IsToken(r.s[k]) && h.name == [r.s[k]]
    ensures var p := TakeName(r.s, k);
      var o := r.run(h, m, k + 1);
      if p.Stop? then o.verdict == p.verdict && o.n == p.n && !o.verdict.Done?
      else o == r.run(h.(state := SpaceBeforeValue, name := p.text, value := ""), m, p.end + 1)
  {
    var e := Span(r.s, k, IsToken);
    var stop := if e - k > HEADER_NAME_MAX then k + HEADER_NAME_MAX else e;
    assert [r.s[k]] + r.s[k + 1..stop] == r.s[k..stop];
    NameRun(r, h, m, k + 1, stop);
    var h1 := h.(name := r.s[k..stop]);
    if stop == |r.s| {
      AtEnd(r, h1, m, stop);
    } else {
      assert stop < e ==> IsToken(r.s[stop]);
      OneByte(r, h1, m, stop);
    }
  }

  /** What follows a colon. */
  lemma AfterColonRun(r: Reader, h: Machine, m: Head, v: nat)
    requires r.Obeys() && h.state.SpaceBeforeValue? && h.value == "" && v <= |r.s|
    ensures var p := TakeValue(r.s, v);
      var o := r.run(h, m, v);
      if p.Stop? then o.verdict == p.verdict && o.n == p.n && !o.verdict.Done?
      else exists st :: ValueLive(st) && o == r.run(h.(state := st, value := p.text), m, p.end)
  {
    if v == |r.s| {
      AtEnd(r, h, m, v);
    } else if r.s[v] == ' ' {
      OneByte(r, h, m, v);
      TakeValueRun(r, h.(state := HeaderValue), m, v + 1);
    } else if IsEol(r.s[v]) {
      assert ValueLive(h.state) && h.(state := h.state, value := "") == h;
    } else if !IsToken(r.s[v]) {
      OneByte(r, h, m, v);
    } else {
      TokenStartsValue(r, h, m, v);
      TakeValueRun(r, h.(state := HeaderValue), m, v);
    }
  }

  /** A token right behind the colon is the first character of the value, as if the space had been there. */
  lemma TokenStartsValue(r: Reader, h: Machine, m: Head, v: nat)
    requires r.Obeys() && h.state.SpaceBeforeValue? && h.value == "" && v < |r.s| && IsToken(r.s[v])
    ensures r.run(h, m, v) == r.run(h.(state := HeaderValue), m, v)
  {
    OneByte(r, h, m, v);
    OneByte(r, h.(state := HeaderValue), m, v);
  }

  /** The line end that stores a field. */
  lemma StoreRun(r: Reader, h: Machine, m: Head, e: nat)
    requires r.Obeys() && ValueLive(h.state) && e < |r.s| && IsEol(r.s[e])
    ensures var h1 := h.(state := if r.s[e] == '\r' then ExpectNewline else ExpectCR);
      r.run(h, m, e) == r.run(h1, m.(fields := m.fields + [Field(h.name, h.value)]), e + 1)
  {
    OneByte(r, h, m, e);
  }

  /** The state after the first character of a line end. */
  function Ended(h: Machine, c: char): Machine {
    h.(state := if c == '\r' then ExpectNewline else ExpectCR)
  }

  /** Between fields, where a blank or a name may follow. */
  predicate Between(s: State) {
    s.ExpectNewline? || s.ExpectCR? || s.HeaderStart? || s.Whitespace?
  }

  lemma {:induction false} BlankRun(r: Reader, h: Machine, m: Head, i: nat, k: nat)
    requires r.Obeys() && h.state.Whitespace? && i <= k <= |r.s| && forall j | i <= j < k :: IsBlank(r.s[j])
    ensures r.run(h, m, i) == r.run(h, m, k)
    decreases k - i
  {
    if i < k {
      OneByte(r, h, m, i);
      BlankRun(r, h, m, i + 1, k);
    }
  }

  /** The blanks at the start of a line. */
  lemma BlanksRun(r: Reader, h: Machine, m: Head, j: nat, k: nat)
    requires r.Obeys() && Between(h.state) && j < k <= |r.s| && forall i | j <= i < k :: IsBlank(r.s[i])
    ensures r.run(h, m, j) == r.run(h.(state := Whitespace), m, k)
  {
    OneByte(r, h, m, j);
    BlankRun(r, h.(state := Whitespace), m, j + 1, k);
  }

  /** Only the machine's state, name and value differ. */
  predicate SameLine(h: Machine, h': Machine) {
    h' == h.(state := h'.state, name := h'.name, value := h'.value)
  }

  /** From behind the colon to behind the first character of the line end. */
  lemma ValueStored(r: Reader, h: Machine, m: Head, v: nat, value: Piece) returns (h': Machine)
    requires r.Obeys() && h.state.SpaceBeforeValue? && h.value == "" && v <= |r.s| && value == TakeValue(r.s, v)
    ensures value.Stop? ==>
      r.run(h, m, v).verdict == value.verdict && r.run(h, m, v).n == value.n && !value.verdict.Done?
    ensures value.Piece? ==>
      && SameLine(h, h') && h'.state == Ended(h, r.s[value.end]).state
      && r.run(h, m, v) == r.run(h', m.(fields := m.fields + [Field(h.name, value.text)]), value.end + 1)
  {
    h' := h;
    AfterColonRun(r, h, m, v);
    if value.Piece? {
      var st :| ValueLive(st) && r.run(h, m, v) == r.run(h.(state := st, value := value.text), m, value.end);
      StoreRun(r, h.(state := st, value := value.text), m, value.end);
      h' := Ended(h.(state := st, value := value.text), r.s[value.end]);
    }
  }

  /** From the start of a name to behind its colon. */
  lemma NameTaken(r: Reader, h: Machine, m: Head, k: nat, name: Piece) returns (h': Machine)
    requires r.Obeys() && Between(h.state) && k < |r.s| && IsToken(r.s[k])
    requires name == TakeName(r.s, k)
    ensures name.Stop? ==> r.run(h, m, k).verdict == name.verdict && r.run(h, m, k).n == name.n && !name.verdict.Done?
    ensures SameLine(h, h') && h'.state.SpaceBeforeValue? && h'.value == ""
    ensures name.Piece? ==> h'.name == name.text && r.run(h, m, k) == r.run(h', m, name.end + 1)
  {
    OneByte(r, h, m, k);
    TakeNameRun(r, h.(state := HeaderName, name := [r.s[k]]), m, k);
    h' := h.(state := SpaceBeforeValue, name := if name.Piece? then name.text else "", value := "");
  }

  /** What the rest of a head adds to the fields before it. */
  lemma AgreesAfter(o: Out, h: Machine, h': Machine, m: Head, f: Field, more: Tail)
    requires SameLine(h, h') && Agrees(o, h', m.(fields := m.fields + [f]), more)
    ensures Agrees(o, h, m, more.(fields := [f] + more.fields))
  {
    Assoc(m.fields, [f], more.fields);
  }

  // Whole heads.

  lemma AfterLineRun(r: Reader, h: Machine, m: Head, e: nat)
    requires r.Obeys() && e < |r.s| && IsEol(r.s[e]) && h.state == Ended(h, r.s[e]).state
    ensures Agrees(r.run(h, m, e + 1), h, m, AfterLine(r.s, e, m.major))
    decreases |r.s| - e, 3
  {
    assert m.fields + [] == m.fields;
    if e + 1 == |r.s| {
      AtEnd(r, h, m, e + 1);
    } else if IsEol(r.s[e + 1]) {
      OneByte(r, h, m, e + 1);
      if r.s[e + 1] != r.s[e] && !(r.s[e] == '\r' && m.major == 0) {
        LineStartRun(r, h.(state := HeaderStart), m, e + 2);
      }
    } else {
      ContentRun(r, h, m, e + 1);
    }
  }

  lemma LineStartRun(r: Reader, h: Machine, m: Head, j: nat)
    requires r.Obeys() && h.state.HeaderStart? && j <= |r.s|
    ensures Agrees(r.run(h, m, j), h, m, LineStart(r.s, j, m.major))
    decreases |r.s| - j, 2
  {
    assert m.fields + [] == m.fields;
    if j == |r.s| {
      AtEnd(r, h, m, j);
    } else if IsEol(r.s[j]) {
      var h1 := h.(state := if r.s[j] == '\r' then FinalNewline else FinalCR);
      OneByte(r, h, m, j);
      if j + 1 == |r.s| {
        AtEnd(r, h1, m, j + 1);
      } else {
        OneByte(r, h1, m, j + 1);
      }
    } else {
      ContentRun(r, h, m, j);
    }
  }

  lemma ContentRun(r: Reader, h: Machine, m: Head, j: nat)
    requires r.Obeys() && Between(h.state) && j <= |r.s| && (j < |r.s| ==> !IsEol(r.s[j]))
    ensures Agrees(r.run(h, m, j), h, m, Content(r.s, j, m.major))
    decreases |r.s| - j, 1
  {
    var k := Span(r.s, j, IsBlank);
    var h1 := if k > j then h.(state := Whitespace) else h;
    if k > j {
      BlanksRun(r, h, m, j, k);
    }
    if k == |r.s| {
      AtEnd(r, h1, m, k);
    } else if IsEol(r.s[k]) {
      OneByte(r, h1, m, k);
      AfterLineRun(r, Ended(h1, r.s[k]), m, k);
    } else if !IsToken(r.s[k]) {
      OneByte(r, h1, m, k);
    } else {
      FieldLineRun(r, h1, m, k);
    }
  }

  lemma FieldLineRun(r: Reader, h: Machine, m: Head, k: nat)
    requires r.Obeys() && Between(h.state) && k < |r.s| && IsToken(r.s[k])
    ensures Agrees(r.run(h, m, k), h, m, FieldLine(r.s, k, m.major))
    decreases |r.s| - k, 0
  {
    var name := TakeName(r.s, k);
    var h2 := NameTaken(r, h, m, k, name);
    if name.Piece? {
      var value := TakeValue(r.s, name.end + 1);
      var h3 := ValueStored(r, h2, m, name.end + 1, value);
      if value.Piece? {
        var f := Field(name.text, value.text);
        AfterLineRun(r, h3, m.(fields := m.fields + [f]), value.end);
        AgreesAfter(r.run(h, m, k), h, h3, m, f, AfterLine(r.s, value.end, m.major));
      }
    }
  }

  // The request line, byte by byte.

  lemma {:induction false} VerbRun(r: Reader, h: Machine, m: Head, i: nat, k: nat)
    requires r.Obeys() && h.state.Method? && i <= k <= |r.s| && |h.verb| + (k - i) <= METHOD_MAX
    requires forall j | i <= j < k :: IsToken(r.s[j])
    ensures r.run(h, m, i) == r.run(h.(verb := h.verb + r.s[i..k]), m, k)
    decreases k - i
  {
    if i == k {
      assert h.verb + r.s[i..k] == h.verb;
    } else {
      OneByte(r, h, m, i);
      VerbRun(r, h.(verb := h.verb + [r.s[i]]), m, i + 1, k);
      assert h.verb + [r.s[i]] + r.s[i + 1..k] == h.verb + r.s[i..k];
    }
  }

  lemma {:induction false} ResourceRun(r: Reader, h: Machine, m: Head, i: nat, k: nat)
    requires r.Obeys() && h.state.UriStem? && i <= k <= |r.s| && |h.resource| + (k - i) <= RESOURCE_MAX
    requires forall j | i <= j < k :: InResource(r.s[j])
    ensures r.run(h, m, i) == r.run(h.(resource := h.resource + r.s[i..k]), m, k)
    decreases k - i
  {
    if i == k {
      assert h.resource + r.s[i..k] == h.resource;
    } else {
      OneByte(r, h, m, i);
      ResourceRun(r, h.(resource := h.resource + [r.s[i]]), m, i + 1, k);
      assert h.resource + [r.s[i]] + r.s[i + 1..k] == h.resource + r.s[i..k];
    }
  }

  lemma {:induction false} QueryRun(r: Reader, h: Machine, m: Head, i: nat, k: nat)
    requires r.Obeys() && h.state.UriQuery? && i <= k <= |r.s| && |h.query| + (k - i) <= QUERY_STRING_MAX
    requires forall j | i <= j < k :: InQuery(r.s[j])
    ensures r.run(h, m, i) == r.run(h.(query := h.query + r.s[i..k]), m, k)
    decreases k - i
  {
    if i == k {
      assert h.query + r.s[i..k] == h.query;
    } else {
      OneByte(r, h, m, i);
      QueryRun(r, h.(query := h.query + [r.s[i]]), m, i + 1, k);
      assert h.query + [r.s[i]] + r.s[i + 1..k] == h.query + r.s[i..k];
    }
  }

  /** `o` stops as `p` does, short of the end of the head. */
  predicate Stops(o: Out, p: Piece) {
    p.Stop? && o.verdict == p.verdict && o.n == p.n && !o.verdict.Done?
  }

  lemma TakeVerbRun(r: Reader, h: Machine, m: Head, i: nat, p: Piece)
    requires r.Obeys() && h.state.MethodStart? && i < |r.s| && IsToken(r.s[i])
    requires p == Take(r.s, i, IsToken, EndsVerb, METHOD_MAX, MethodChar, MethodSize)
    ensures if p.Stop? then Stops(r.run(h, m, i), p)
            else r.run(h, m, i) == r.run(h.(state := UriStem, verb := p.text, resource := ""), m, p.end + 1)
  {
    var e := Span(r.s, i, IsToken);
    var stop := if e - i > METHOD_MAX then i + METHOD_MAX else e;
    var h1 := h.(state := Method, verb := [r.s[i]]);
    OneByte(r, h, m, i);
    VerbRun(r, h1, m, i + 1, stop);
    assert [r.s[i]] + r.s[i + 1..stop] == r.s[i..stop];
    var h2 := h1.(verb := r.s[i..stop]);
    if stop == |r.s| {
      AtEnd(r, h2, m, stop);
    } else {
      assert stop < e ==> IsToken(r.s[stop]);
      OneByte(r, h2, m, stop);
    }
  }

  lemma TakeResourceRun(r: Reader, h: Machine, m: Head, i: nat, p: Piece)
    requires r.Obeys() && h.state.UriStem? && h.resource == "" && i <= |r.s|
    requires p == Take(r.s, i, InResource, EndsResource, RESOURCE_MAX, UriChar, UriSize)
    ensures if p.Stop? then Stops(r.run(h, m, i), p) else r.run(h, m, i) == r.run(h.(resource := p.text), m, p.end)
  {
    var e := Span(r.s, i, InResource);
    var stop := if e - i > RESOURCE_MAX then i + RESOURCE_MAX else e;
    var h1 := h.(resource := r.s[i..stop]);
    assert "" + r.s[i..stop] == r.s[i..stop];
    ResourceRun(r, h, m, i, stop);
    if stop == |r.s| {
      AtEnd(r, h1, m, stop);
    } else if stop < e || !EndsResource(r.s[stop]) {
      assert stop < e ==> InResource(r.s[stop]);
      OneByte(r, h1, m, stop);
    }
  }

  lemma TakeQueryRun(r: Reader, h: Machine, m: Head, i: nat, p: Piece)
    requires r.Obeys() && h.state.UriQuery? && h.query == "" && i <= |r.s|
    requires p == Take(r.s, i, InQuery, EndsQuery, QUERY_STRING_MAX, QueryChar, QuerySize)
    ensures if p.Stop? then Stops(r.run(h, m, i), p) else r.run(h, m, i) == r.run(h.(query := p.text), m, p.end)
  {
    var e := Span(r.s, i, InQuery);
    var stop := if e - i > QUERY_STRING_MAX then i + QUERY_STRING_MAX else e;
    var h1 := h.(query := r.s[i..stop]);
    assert "" + r.s[i..stop] == r.s[i..stop];
    QueryRun(r, h, m, i, stop);
    if stop == |r.s| {
      AtEnd(r, h1, m, stop);
    } else if stop < e || !EndsQuery(r.s[stop]) {
      assert stop < e ==> InQuery(r.s[stop]);
      OneByte(r, h1, m, stop);
    }
  }

  // Versions.

  lemma ModStep(x: nat, d: nat)
    ensures (x % 0x1_0000 * 10 + d) % 0x1_0000 == (x * 10 + d) % 0x1_0000
  {
    var q, y := x / 0x1_0000, x % 0x1_0000;
    assert x * 10 + d == 10 * q * 0x1_0000 + (y * 10 + d);
  }

  /** One more character of a text: a digit counts, anything else does not. */
  lemma DigitsSnoc(t: string, c: char)
    ensures DigitsOf(t + [c]) == DigitsOf(t) + if IsDigit(c) then [c] else ""
  {
    assert (t + [c])[..|t|] == t;
  }

  lemma ValueSnoc(u: string, c: char)
    requires (forall d | d in u :: IsHexDigit(d)) && IsDigit(c)
    ensures (forall d | d in u + [c] :: IsHexDigit(d)) && Value(10, u + [c]) == 10 * Value(10, u) + NumberOf(c)
  {
    assert (u + [c])[..|u|] == u;
  }

  lemma SliceSnoc(s: string, j: nat, k: nat)
    requires j < k <= |s|
    ensures s[j..k] == s[j..k - 1] + [s[k - 1]]
  {
  }

  /** A function that reads decimal digits. */
  ghost predicate Decimal(value: string -> nat) {
    && value("") == 0
    && forall u, c {:trigger Longer(u, c)} :: Hexadecimal(u) && IsDigit(c) ==>
         value(u + [c]) == 10 * value(u) + NumberOf(c)
  }

  predicate Hexadecimal(u: string) {
    forall k | 0 <= k < |u| :: IsHexDigit(u[k])
  }

  predicate Longer(u: string, c: char) {
    true
  }

  lemma {:induction false} CountIsDecimal(s: string, j: nat, k: nat, value: string -> nat)
    requires j <= k <= |s| && Decimal(value)
    ensures Count(s, j, k) == value(DigitsOf(s[j..k])) % 0x1_0000
    decreases k
  {
    if k == j {
      assert s[j..k] == "";
    } else {
      var t, c := s[j..k - 1], s[k - 1];
      CountIsDecimal(s, j, k - 1, value);
      SliceSnoc(s, j, k);
      DigitsSnoc(t, c);
      if IsDigit(c) {
        assert Longer(DigitsOf(t), c) && Hexadecimal(DigitsOf(t));
        ModStep(value(DigitsOf(t)), NumberOf(c));
      } else {
        assert DigitsOf(t) + "" == DigitsOf(t);
      }
    }
  }

  /** Reading a number digit by digit in sixteen bits gives the number its digits denote, cut to sixteen bits. */
  lemma CountIsValue(s: string, j: nat, k: nat)
    requires j <= k <= |s|
    ensures Count(s, j, k) == Value(10, DigitsOf(s[j..k])) % 0x1_0000
  {
    var value := (u: string) => if Hexadecimal(u) then Value(10, u) else 0;
    forall u, c | Hexadecimal(u) && IsDigit(c)
      ensures value(u + [c]) == 10 * value(u) + NumberOf(c)
    {
      assert (u + [c])[..|u|] == u;
    }
    CountIsDecimal(s, j, k, value);
  }

  lemma {:induction false} MajorRun(r: Reader, h: Machine, m: Head, j: nat, i: nat, k: nat)
    requires r.Obeys() && h.state.Major? && j <= i <= k <= |r.s| && m.major == Count(r.s, j, i)
    requires forall o | i <= o < k :: IsDigit(r.s[o])
    ensures r.run(h, m, i) == r.run(h, m.(major := Count(r.s, j, k)), k)
    decreases k - i
  {
    if i < k {
      OneByte(r, h, m, i);
      MajorRun(r, h, m.(major := Count(r.s, j, i + 1)), j, i + 1, k);
    }
  }

  lemma {:induction false} MinorRun(r: Reader, h: Machine, m: Head, j: nat, i: nat, k: nat)
    requires r.Obeys() && h.state.Minor? && j <= i <= k <= |r.s| && m.minor == Count(r.s, j, i)
    requires forall o | i <= o < k :: InMinor(r.s[o])
    ensures r.run(h, m, i) == r.run(h, m.(minor := Count(r.s, j, k)), k)
    decreases k - i
  {
    if i < k {
      OneByte(r, h, m, i);
      MinorRun(r, h, m.(minor := Count(r.s, j, i + 1)), j, i + 1, k);
    }
  }

  /** `o` is what the request line `g` and the head behind it lead to, after the machine `h` and the fields of `m`. */
  predicate Follows(r: Reader, o: Out, h: Machine, m: Head, g: Line) {
    if g.Wrong? then o.verdict == g.verdict && o.n == g.n && !o.verdict.Done?
    else exists st :: o == r.run(h.(state := st), m.(major := g.major, minor := g.minor), g.end)
                      && (st.Minor? || ((st.UriStem? || st.UriQuery?) && g.major == 0 && g.minor == 0))
  }

  lemma MinorNumberRun(r: Reader, h: Machine, m: Head, j: nat)
    requires r.Obeys() && h.state.MinorStart? && j <= |r.s|
    ensures Follows(r, r.run(h, m, j), h, m, Minor(r.s, m.major, j))
  {
    if j == |r.s| {
      AtEnd(r, h, m, j);
    } else {
      OneByte(r, h, m, j);
      if IsDigit(r.s[j]) {
        var k := Span(r.s, j, InMinor);
        var h1, m1 := h.(state := State.Minor), m.(minor := Count(r.s, j, k));
        assert Count(r.s, j, j + 1) == NumberOf(r.s[j]);
        MinorRun(r, h1, m.(minor := NumberOf(r.s[j])), j, j + 1, k);
        if k == |r.s| {
          AtEnd(r, h1, m1, k);
        } else if !IsEol(r.s[k]) {
          OneByte(r, h1, m1, k);
        }
      }
    }
  }

  lemma NumbersRun(r: Reader, h: Machine, m: Head, j: nat)
    requires r.Obeys() && h.state.MajorStart? && j <= |r.s|
    ensures Follows(r, r.run(h, m, j), h, m, Numbers(r.s, j))
  {
    if j == |r.s| {
      AtEnd(r, h, m, j);
    } else {
      OneByte(r, h, m, j);
      var k := Span(r.s, j, IsDigit);
      if k > j {
        var h1, m1 := h.(state := State.Major), m.(major := Count(r.s, j, k));
        assert Count(r.s, j, j + 1) == NumberOf(r.s[j]);
        MajorRun(r, h1, m.(major := NumberOf(r.s[j])), j, j + 1, k);
        if k == |r.s| {
          AtEnd(r, h1, m1, k);
        } else {
          OneByte(r, h1, m1, k);
          if r.s[k] == '.' {
            MinorNumberRun(r, h1.(state := MinorStart), m1, k + 1);
          }
        }
      }
    }
  }

  /** The letters of the version, one after the other. */
  lemma {:induction false} LettersRun(r: Reader, h: Machine, m: Head, i: nat, t: string, states: seq<State>)
    requires r.Obeys() && i <= |r.s| && |states| == |t| + 1 && h.state == states[0]
    requires forall k | 0 <= k < |t| :: Expects(states[k], t[k], states[k + 1])
    ensures var g := Literally(r.s, i, t);
      if g.Wrong? then Follows(r, r.run(h, m, i), h, m, g)
      else i + |t| <= |r.s| && r.run(h, m, i) == r.run(h.(state := states[|t|]), m, i + |t|)
    decreases |t|
  {
    if t != "" {
      if i == |r.s| {
        AtEnd(r, h, m, i);
      } else {
        OneByte(r, h, m, i);
        assert Expects(states[0], t[0], states[1]);
        LetterStep(h, m, r.s[i], t[0], states[1]);
        if r.s[i] == t[0] {
          LettersRun(r, h.(state := states[1]), m, i + 1, t[1..], states[1..]);
        }
      }
    }
  }

  /** In the state `st` the letter `c` leads to `next`, and any other one is an error. */
  predicate Expects(st: State, c: char, next: State) {
    || (st.VersionT1? && c == 'T' && next.VersionT2?) || (st.VersionT2? && c == 'T' && next.VersionP?)
    || (st.VersionP? && c == 'P' && next.VersionSlash?) || (st.VersionSlash? && c == '/' && next.MajorStart?)
  }

  lemma LetterStep(h: Machine, m: Head, c: char, t: char, next: State)
    requires Expects(h.state, t, next)
    ensures Step(false, h, m, c) == if c == t then Go(h.(state := next), m) else Bad(h, m, VersionChar)
  {
  }

  lemma VersionRun(r: Reader, h: Machine, m: Head, i: nat)
    requires r.Obeys() && h.state.VersionH? && i <= |r.s|
    ensures Follows(r, r.run(h, m, i), h, m, Version(r.s, i))
  {
    if i == |r.s| {
      AtEnd(r, h, m, i);
    } else {
      OneByte(r, h, m, i);
      if r.s[i] == 'H' || IsEol(r.s[i]) {
        var h1, m1 := h.(state := VersionT1), if IsEol(r.s[i]) then NoVersion(m) else m;
        LettersRun(r, h1, m1, i + 1, "TTP/", [VersionT1, VersionT2, VersionP, VersionSlash, MajorStart]);
        if Literally(r.s, i + 1, "TTP/").Line? {
          NumbersRun(r, h.(state := MajorStart), m1, i + 5);
        }
      }
    }
  }

  /** What follows the target, in the state the target was read in. */
  lemma AfterTargetRun(r: Reader, h: Machine, m: Head, e: nat)
    requires r.Obeys() && (h.state.UriStem? || h.state.UriQuery?) && e < |r.s| && EndsQuery(r.s[e])
    ensures Follows(r, r.run(h, m, e), h, m, AfterTarget(r.s, h.verb, h.resource, h.query, e))
  {
    OneByte(r, h, m, e);
    if IsEol(r.s[e]) {
      OneByte(r, h, NoVersion(m), e);
      assert h.(state := h.state) == h;
    } else {
      VersionRun(r, h.(state := VersionH), m, e + 1);
    }
  }

  /** The machine with the texts of a request line. */
  function WithLine(h: Machine, g: Line): Machine
    requires g.Line?
  {
    h.(verb := g.verb, resource := g.resource, query := g.query)
  }

  /** `Follows`, with the texts of the line in the machine as well. */
  predicate Leads(r: Reader, o: Out, h: Machine, m: Head, g: Line) {
    Follows(r, o, if g.Line? then WithLine(h, g) else h, m, g)
  }

  lemma StopLeads(r: Reader, o: Out, h: Machine, m: Head, p: Piece)
    requires p.Stop? && Stops(o, p)
    ensures Leads(r, o, h, m, Wrong(p.verdict, p.n))
  {
  }

  lemma TargetRun(r: Reader, h: Machine, m: Head, i: nat)
    requires r.Obeys() && h.state.UriStem? && h.resource == "" && h.query == "" && i <= |r.s|
    ensures Leads(r, r.run(h, m, i), h, m, Target(r.s, h.verb, i))
  {
    var p := Take(r.s, i, InResource, EndsResource, RESOURCE_MAX, UriChar, UriSize);
    TakeResourceRun(r, h, m, i, p);
    ResourceTaken(r, r.run(h, m, i), h, m, p);
  }

  lemma ResourceTaken(r: Reader, o: Out, h: Machine, m: Head, p: Piece)
    requires r.Obeys() && h.state.UriStem? && h.query == ""
    requires p.Piece? ==> p.end < |r.s| && EndsResource(r.s[p.end])
    requires if p.Stop? then Stops(o, p) else o == r.run(h.(resource := p.text), m, p.end)
    ensures Leads(r, o, h, m, AfterResource(r.s, h.verb, p))
  {
    var g := AfterResource(r.s, h.verb, p);
    if p.Stop? {
      StopLeads(r, o, h, m, p);
    } else if r.s[p.end] != '?' {
      PlainTarget(r, o, h, m, p.text, p.end, g);
    } else {
      QueryTarget(r, o, h, m, p.text, p.end, g);
    }
  }

  /** A target without a query, which ends at `e`. */
  lemma PlainTarget(r: Reader, o: Out, h: Machine, m: Head, resource: string, e: nat, g: Line)
    requires r.Obeys() && h.state.UriStem? && h.query == "" && e < |r.s| && EndsQuery(r.s[e])
    requires o == r.run(h.(resource := resource), m, e) && g == AfterTarget(r.s, h.verb, resource, "", e)
    ensures Leads(r, o, h, m, g)
  {
    AfterTargetRun(r, h.(resource := resource), m, e);
  }

  /** The question mark at `i` and what follows it. */
  lemma QueryTarget(r: Reader, o: Out, h: Machine, m: Head, resource: string, i: nat, g: Line)
    requires r.Obeys() && h.state.UriStem? && h.query == "" && i < |r.s| && r.s[i] == '?'
    requires o == r.run(h.(resource := resource), m, i)
    requires var q := Take(r.s, i + 1, InQuery, EndsQuery, QUERY_STRING_MAX, QueryChar, QuerySize);
      g == AfterQuery(r.s, h.verb, resource, q)
    ensures Leads(r, o, h, m, g)
  {
    var h1 := h.(resource := resource, state := UriQuery);
    var q := Take(r.s, i + 1, InQuery, EndsQuery, QUERY_STRING_MAX, QueryChar, QuerySize);
    OneByte(r, h.(resource := resource), m, i);
    TakeQueryRun(r, h1, m, i + 1, q);
    QueryTaken(r, o, h1, m, q);
    LeadsToo(r, o, h1, h, m, AfterQuery(r.s, h.verb, resource, q));
  }

  lemma QueryTaken(r: Reader, o: Out, h: Machine, m: Head, q: Piece)
    requires r.Obeys() && h.state.UriQuery?
    requires q.Piece? ==> q.end < |r.s| && EndsQuery(r.s[q.end])
    requires if q.Stop? then Stops(o, q) else o == r.run(h.(query := q.text), m, q.end)
    ensures Leads(r, o, h, m, AfterQuery(r.s, h.verb, h.resource, q))
  {
    if q.Stop? {
      StopLeads(r, o, h, m, q);
    } else {
      AfterTargetRun(r, h.(query := q.text), m, q.end);
    }
  }

  lemma {:induction false} SkipRun(r: Reader, h: Machine, m: Head, i: nat, k: nat)
    requires r.Obeys() && h.state.MethodStart? && i <= k <= |r.s| && forall j | i <= j < k :: EndsQuery(r.s[j])
    ensures r.run(h, m, i) == r.run(h, m, k)
    decreases k - i
  {
    if i < k {
      OneByte(r, h, m, i);
      SkipRun(r, h, m, i + 1, k);
    }
  }

  lemma RequestLineRun(r: Reader, h: Machine, m: Head)
    requires r.Obeys() && h.state.MethodStart? && h.query == ""
    ensures Leads(r, r.run(h, m, 0), h, m, RequestLine(r.s))
  {
    var i := Span(r.s, 0, EndsQuery);
    SkipRun(r, h, m, 0, i);
    LineRun(r, h, m, i);
  }

  /** From the first character that is not skipped. */
  lemma LineRun(r: Reader, h: Machine, m: Head, i: nat)
    requires r.Obeys() && h.state.MethodStart? && h.query == "" && i == Span(r.s, 0, EndsQuery)
    ensures Leads(r, r.run(h, m, i), h, m, RequestLine(r.s))
  {
    if i == |r.s| {
      AtEnd(r, h, m, i);
    } else if !IsToken(r.s[i]) {
      OneByte(r, h, m, i);
    } else {
      VerbThenTarget(r, h, m, i, Take(r.s, i, IsToken, EndsVerb, METHOD_MAX, MethodChar, MethodSize));
    }
  }

  /** From the method `p` on. */
  lemma VerbThenTarget(r: Reader, h: Machine, m: Head, i: nat, p: Piece)
    requires r.Obeys() && h.state.MethodStart? && h.query == "" && i < |r.s| && IsToken(r.s[i])
    requires p == Take(r.s, i, IsToken, EndsVerb, METHOD_MAX, MethodChar, MethodSize)
    ensures Leads(r, r.run(h, m, i), h, m, AfterVerb(r.s, p))
  {
    TakeVerbRun(r, h, m, i, p);
    VerbTaken(r, r.run(h, m, i), h, m, p);
  }

  lemma VerbTaken(r: Reader, o: Out, h: Machine, m: Head, p: Piece)
    requires r.Obeys() && h.query == "" && (p.Piece? ==> p.end < |r.s|)
    requires if p.Stop? then Stops(o, p)
             else o == r.run(h.(state := UriStem, verb := p.text, resource := ""), m, p.end + 1)
    ensures Leads(r, o, h, m, AfterVerb(r.s, p))
  {
    if p.Stop? {
      StopLeads(r, o, h, m, p);
    } else {
      TargetLeads(r, h, m, o, p.text, p.end + 1);
    }
  }

  lemma TargetLeads(r: Reader, h: Machine, m: Head, o: Out, verb: string, i: nat)
    requires r.Obeys() && h.query == "" && i <= |r.s|
    requires o == r.run(h.(state := UriStem, verb := verb, resource := ""), m, i)
    ensures Leads(r, o, h, m, Target(r.s, verb, i))
  {
    var h1 := h.(state := UriStem, verb := verb, resource := "");
    TargetRun(r, h1, m, i);
    LeadsToo(r, o, h1, h, m, Target(r.s, verb, i));
  }

  /** What the line overwrites does not matter. */
  lemma LeadsToo(r: Reader, o: Out, h1: Machine, h: Machine, m: Head, g: Line)
    requires Leads(r, o, h1, m, g)
    requires h1 == h.(state := h1.state, verb := h1.verb, resource := h1.resource, query := h1.query)
    ensures Leads(r, o, h, m, g)
  {
    if g.Line? {
      assert forall st :: WithLine(h1, g).(state := st) == WithLine(h, g).(state := st);
    }
  }

  /** From the end of the request line to the end of the head. */
  lemma FieldsAfterLine(r: Reader, o: Out, h: Machine, m: Head, g: Line)
    requires r.Obeys() && g.Line? && g.end < |r.s| && IsEol(r.s[g.end]) && Follows(r, o, h, m, g)
    ensures Agrees(o, h, m.(major := g.major, minor := g.minor), AfterLine(r.s, g.end, g.major))
  {
    var m1 := m.(major := g.major, minor := g.minor);
    var st :| o == r.run(h.(state := st), m1, g.end)
              && (st.Minor? || ((st.UriStem? || st.UriQuery?) && g.major == 0 && g.minor == 0));
    OneByte(r, h.(state := st), m1, g.end);
    AfterLineRun(r, Ended(h, r.s[g.end]), m1, g.end);
  }

  // The machine of `HeaderMachine` is such a reader.

  lemma RunObeys(s: string) returns (r: Reader)
    ensures r.Obeys() && r.s == s
    ensures forall h, m :: r.run(h, m, 0) == Run(false, h, m, s)
  {
    r := Reader((h: Machine, m: Head, i: nat) =>
                  if i <= |s| then Run(false, h, m, s[i..]).Plus(i) else Out(h, m, More, i), s);
    forall h, m, i: nat | i <= |s|
      ensures r.run(h, m, i) ==
        if i == |s| then Out(h, m, More, i)
        else
          var x := Step(false, h, m, s[i]);
          if x.verdict.More? then r.run(x.h, x.m, i + 1) else x.Plus(i)
    {
      if i < |s| {
        assert s[i..][0] == s[i] && s[i..][1..] == s[i + 1..];
      }
    }
    assert s[0..] == s;
  }

  /** What the lines of a head say: the request and the number of bytes, or why there is none. */
  datatype HeadRead = HeadRead(verdict: Verdict, n: nat, verb: string, resource: string, query: string, head: Head)

  function ReadHead(s: string): HeadRead {
    var g := RequestLine(s);
    if g.Wrong? then HeadRead(g.verdict, g.n, "", "", "", Head(0, 0, []))
    else
      var t := AfterLine(s, g.end, g.major);
      HeadRead(t.verdict, t.n, g.verb, g.resource, g.query, Head(g.major, g.minor, t.fields))
  }

  /**
   For every input: the machine ends as the lines say, with the same verdict and error after the
   same number of bytes, and what it reports is what the lines say.
   */
  lemma HeadIsGrammar(h: Machine, m: Head, s: string)
    requires h.state.MethodStart? && h.query == "" && m.fields == []
    ensures var o, g := Run(false, h, m, s), ReadHead(s);
      && o.verdict == g.verdict && o.n == g.n
      && (o.verdict.Done? ==>
            o.h.verb == g.verb && o.h.resource == g.resource && o.h.query == g.query && o.m == g.head)
  {
    var r := RunObeys(s);
    var g := RequestLine(s);
    RequestLineRun(r, h, m);
    if g.Line? {
      FieldsAfterLine(r, r.run(h, m, 0), WithLine(h, g), m, g);
      assert [] + AfterLine(s, g.end, g.major).fields == AfterLine(s, g.end, g.major).fields;
    }
  }

  /** The same for trailers, which start at a line. */
  lemma TrailersAreGrammar(h: Machine, m: Head, s: string)
    requires h.state.HeaderStart?
    ensures Agrees(Run(false, h, m, s), h, m, LineStart(s, 0, m.major))
  {
    var r := RunObeys(s);
    LineStartRun(r, h, m, 0);
  }
}
