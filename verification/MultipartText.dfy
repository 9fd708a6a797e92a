/**
 The standard encoding of forms (section 3 of RFC 2388, section 5.1.1 of RFC 2046), and what
 parsing it yields.
 */
module MultipartText {
  import opened Bytes
  import opened HeaderMachine
  import opened Multipart
  import opened MultipartGrammar
  import RequestText

  /**
   A form part: its header lines and its content line.  A part whose content is `None`
   lacks that line: the next boundary follows its blank line at once.
   */
  datatype FormPart = FormPart(lines: seq<Field>, content: Option<string>) {

    function ContentLine(): string {
      if content.None? then "" else content.value + CRLF
    }

    /** What the header lines say about the part, read in order. */
    function Meaning(eh: Part -> Part): Part {
      ReadLines(eh, EMPTY_PART, lines)
    }

    /** The boundary follows the blank line at once, and the part is one that is stored. */
    predicate Throws(eh: Part -> Part, b: string) {
      Stored(Meaning(eh)) && (content.None? || b <= content.value)
    }
  }

  function ReadLines(eh: Part -> Part, p: Part, lines: seq<Field>): Part
    decreases |lines|
  {
    if lines == [] then p
    else ReadLines(eh, eh(p.(hname := lines[0].name, hvalue := lines[0].value)), lines[1..])
  }

  predicate NoLineEnd(s: string) {
    forall k | 0 <= k < |s| :: !IsLineEnd(s[k])
  }

  /** A full boundary, leading dashes included. */
  predicate LegalBoundary(b: string) {
    |b| >= 2 && b[0] == '-' && NoLineEnd(b)
  }

  predicate LegalLine(f: Field) {
    && NoLineEnd(f.name) && (forall k | 0 <= k < |f.name| :: f.name[k] != ':')
    && NoLineEnd(f.value) && f.value != "" && f.value[0] != ' '
  }

  /** Legal header lines, and a content without the boundary, or one that a stored part starts with. */
  predicate LegalPart(eh: Part -> Part, b: string, f: FormPart) {
    && (forall k | 0 <= k < |f.lines| :: LegalLine(f.lines[k]))
    && (f.content.Some? && Contains(f.content.value, b) ==> f.Throws(eh, b))
  }

  /** A part up to its content line: boundary, header lines, blank line. */
  function PartTop(b: string, lines: string): string {
    b + (CRLF + (lines + CRLF))
  }

  /** The standard encoding of a form. */
  function EncodeParts(b: string, parts: seq<FormPart>): string {
    if parts == [] then b + ("--" + CRLF)
    else PartTop(b, RequestText.FieldsText(parts[0].lines)) + (parts[0].ContentLine() + EncodeParts(b, parts[1..]))
  }

  /** What parsing a form must yield: its stored parts, until one of them throws. */
  function Expected(eh: Part -> Part, b: string, parts: seq<FormPart>, pairs: seq<Field>): MultiOut {
    if parts == [] then Returned(true, pairs)
    else
      var m := parts[0].Meaning(eh);
      if parts[0].Throws(eh, b) then Threw(pairs)
      else Expected(eh, b, parts[1..], if Stored(m) then pairs + [Field(m.fname, parts[0].content.value)] else pairs)
  }

  /** The pairs a form stands for: its named text parts, in order. */
  function TextFields(parts: seq<FormPart>): seq<Field> {
    if parts == [] then []
    else
      var m := parts[0].Meaning(EndHeader);
      (if Stored(m) && parts[0].content.Some? then [Field(m.fname, parts[0].content.value)] else [])
      + TextFields(parts[1..])
  }

  // Text in a body.

  /** `t` is the text of `body` at `i`. */
  predicate TextAt(body: string, i: nat, t: string) {
    i + |t| <= |body| && body[i..i + |t|] == t
  }

  lemma TextAtSplit(body: string, i: nat, a: string, b: string)
    requires TextAt(body, i, a + b)
    ensures TextAt(body, i, a) && TextAt(body, i + |a|, b)
  {
    assert body[i..i + |a|] == (a + b)[..|a|];
    assert body[i + |a|..i + |a| + |b|] == (a + b)[|a|..];
  }

  lemma TextAfter(a: string, b: string)
    ensures TextAt(a + b, |a|, b)
  {
    assert (a + b)[|a|..] == b;
  }

  lemma CharAt(body: string, i: nat, t: string, k: nat)
    requires TextAt(body, i, t) && k < |t|
    ensures body[i + k] == t[k]
  {
    assert body[i..i + |t|][k] == body[i + k];
  }

  /** No boundary match starts inside the content or straddles it and its closing CRLF. */
  lemma NoMatchInContent(body: string, b: string, i: nat, content: string, j: nat)
    requires LegalBoundary(b) && !Contains(content, b)
    requires i + |content| + 2 <= |body| && body[i..i + |content|] == content
    requires body[i + |content|] == '\r' && body[i + |content| + 1] == '\n'
    requires i <= j < i + |content| + 2
    ensures !MatchesAt(body, b, j)
  {
    var cr := i + |content|;
    if j + |b| <= cr {
      SliceOfSlice(body, i, cr, j, j + |b|);
      assert !MatchesAt(content, b, j - i);
    } else if j <= cr {
      Mismatch(body, b, j, cr - j);
    } else {
      Mismatch(body, b, j, 0);
    }
  }

  /** So the next boundary found after a part's blank line is the one that ends the part. */
  lemma BoundaryAfterContent(body: string, b: string, i: nat, content: string)
    requires LegalBoundary(b) && TextAt(body, i, content + CRLF + b) && !Contains(content, b)
    ensures Search(body, b, i) == i + |content| + 2 && body[i..i + |content| + 2] == content + CRLF
  {
    var k := i + |content| + 2;
    TextAtSplit(body, i, content + CRLF, b);
    TextAtSplit(body, i, content, CRLF);
    CharAt(body, i + |content|, CRLF, 0);
    CharAt(body, i + |content|, CRLF, 1);
    forall j | i <= j < k
      ensures !MatchesAt(body, b, j)
    {
      NoMatchInContent(body, b, i, content, j);
    }
    SearchFirst(body, b, i, k);
  }

  // Encoded header lines.

  lemma LineStopIs(body: string, j: nat, k: nat)
    requires j <= k < |body| && IsLineEnd(body[k]) && forall i | j <= i < k :: !IsLineEnd(body[i])
    ensures LineStop(body, j) == k
  {
  }

  /** The pieces of an encoded header line. */
  lemma LinePieces(body: string, j: nat, f: Field)
    requires TextAt(body, j, RequestText.FieldText(f)) && f.value != ""
    ensures var c, k := j + |f.name|, j + |f.name| + 2 + |f.value|;
      && body[j..c] == f.name && body[c] == ':' && body[c + 1] == ' ' && body[c + 2..k] == f.value
      && k + 2 == j + |RequestText.FieldText(f)| && body[k] == '\r' && body[k + 1] == '\n'
  {
    var c, k := j + |f.name|, j + |f.name| + 2 + |f.value|;
    TextAtSplit(body, j, f.name, [':', ' '] + (f.value + CRLF));
    TextAtSplit(body, c, [':', ' '], f.value + CRLF);
    TextAtSplit(body, c + 2, f.value, CRLF);
    CharAt(body, c, [':', ' '], 0);
    CharAt(body, c, [':', ' '], 1);
    CharAt(body, k, CRLF, 0);
    CharAt(body, k, CRLF, 1);
  }

  /** Its characters: no line end, no colon in the name, no space in front of the value. */
  lemma LineChars(body: string, j: nat, c: nat, k: nat, f: Field)
    requires j <= c && c + 2 < k <= |body| && body[j..c] == f.name && body[c + 2..k] == f.value && LegalLine(f)
    requires body[c] == ':' && body[c + 1] == ' '
    ensures forall i | j <= i < c :: body[i] != ':'
    ensures forall i | j <= i < k :: !IsLineEnd(body[i])
    ensures body[c + 2] != ' '
  {
    assert forall i | j <= i < c :: body[i] == f.name[i - j];
    assert forall i | c + 2 <= i < k :: body[i] == f.value[i - c - 2];
  }

  lemma ColonIs(body: string, j: nat, c: nat, k: nat)
    requires j <= c && c + 2 < k <= |body| && body[c] == ':' && body[c + 1] == ' ' && body[c + 2] != ' '
    requires forall i | j <= i < c :: body[i] != ':'
    ensures FirstColon(body, j, k) == c && AfterSpaces(body, c + 1, k) == c + 2
  {
  }

  lemma ReadLineIs(eh: Part -> Part, p: Part, body: string, j: nat, c: nat, k: nat, name: string, value: string)
    requires j <= c && c + 2 < k <= |body| && FirstColon(body, j, k) == c && AfterSpaces(body, c + 1, k) == c + 2
    requires body[j..c] == name && body[c + 2..k] == value && p.hname == "" && p.hvalue == ""
    ensures ReadLine(eh, p, body, j, k) == eh(p.(hname := name, hvalue := value))
  {
    assert "" + name == name && "" + value == value;
  }

  lemma LinesGoOn(eh: Part -> Part, p: Part, body: string, j: nat, k: nat, read: Part)
    requires 2 <= j < k && k + 2 < |body| && body[j - 1] == '\n' && LineStop(body, j) == k
    requires body[k] == '\r' && body[k + 1] == '\n'
    requires read == ReadLine(eh, p, body, j, k)
    ensures Lines(eh, p, body, j) == Lines(eh, read, body, k + 2)
  {
    var next := NextLine(body, k);
    assert next == Header(EMPTY_PART, true, k + 2);
    assert Lines(eh, p, body, j) == Lines(eh, read, body, next.data);
  }

  lemma LinesEnd(eh: Part -> Part, p: Part, body: string, j: nat)
    requires 2 <= j && j + 2 < |body| && body[j - 1] == '\n' && body[j] == '\r' && body[j + 1] == '\n' && p.hname == ""
    ensures Lines(eh, p, body, j) == Header(p, true, j + 2)
  {
  }

  /** An encoded header line is one line, and it says what the field says. */
  lemma EncodedLine(eh: Part -> Part, p: Part, body: string, j: nat, f: Field, text: string, read: Part)
    returns (k: nat)
    requires text == RequestText.FieldText(f) && TextAt(body, j, text) && LegalLine(f)
    requires p.hname == "" && p.hvalue == ""
    requires read == eh(p.(hname := f.name, hvalue := f.value))
    ensures k + 2 == j + |text| && j < k && LineStop(body, j) == k && body[k] == '\r' && body[k + 1] == '\n'
    ensures ReadLine(eh, p, body, j, k) == read
  {
    var c := j + |f.name|;
    k := c + 2 + |f.value|;
    LinePieces(body, j, f);
    LineChars(body, j, c, k, f);
    LineStopIs(body, j, k);
    ColonIs(body, j, c, k);
    ReadLineIs(eh, p, body, j, c, k, f.name, f.value);
  }

  /** A finished header leaves no name and no value behind. */
  ghost predicate Clears(eh: Part -> Part) {
    forall p :: eh(p).hname == "" && eh(p).hvalue == ""
  }

  /** All header lines of a part, whose text is `hs`, and its blank line. */
  lemma {:induction false} EncodedLines(eh: Part -> Part, p: Part, body: string, j: nat, lines: seq<Field>, hs: string)
    requires Clears(eh) && p.hname == "" && p.hvalue == "" && forall k | 0 <= k < |lines| :: LegalLine(lines[k])
    requires hs == RequestText.FieldsText(lines)
    requires 2 <= j && TextAt(body, j, hs + CRLF) && body[j - 1] == '\n' && j + |hs| + 2 < |body|
    ensures Lines(eh, p, body, j) == Header(ReadLines(eh, p, lines), true, j + |hs| + 2)
    decreases |lines|
  {
    if lines == [] {
      assert "" + CRLF == CRLF;
      CharAt(body, j, CRLF, 0);
      CharAt(body, j, CRLF, 1);
      LinesEnd(eh, p, body, j);
    } else {
      var read := eh(p.(hname := lines[0].name, hvalue := lines[0].value));
      var k, more := FirstLine(eh, p, body, j, lines, hs, read);
      LinesGoOn(eh, p, body, j, k, read);
      EncodedLines(eh, read, body, k + 2, lines[1..], more);
    }
  }

  /** The first of several header lines, and the text `more` of the others. */
  lemma FirstLine(eh: Part -> Part, p: Part, body: string, j: nat, lines: seq<Field>, hs: string, read: Part)
    returns (k: nat, more: string)
    requires lines != [] && LegalLine(lines[0]) && hs == RequestText.FieldsText(lines) && TextAt(body, j, hs + CRLF)
    requires p.hname == "" && p.hvalue == "" && read == eh(p.(hname := lines[0].name, hvalue := lines[0].value))
    ensures j < k && k + 2 <= |body| && LineStop(body, j) == k && body[k] == '\r' && body[k + 1] == '\n'
    ensures ReadLine(eh, p, body, j, k) == read
    ensures more == RequestText.FieldsText(lines[1..]) && TextAt(body, k + 2, more + CRLF)
    ensures j + |hs| == k + 2 + |more|
  {
    var text := RequestText.FieldText(lines[0]);
    more := RequestText.FieldsText(lines[1..]);
    SplitLines(body, j, hs, text, more);
    k := EncodedLine(eh, p, body, j, lines[0], text, read);
  }

  lemma SplitLines(body: string, j: nat, hs: string, text: string, more: string)
    requires TextAt(body, j, hs + CRLF) && hs == text + more
    ensures TextAt(body, j, text) && TextAt(body, j + |text|, more + CRLF) && |hs| == |text| + |more|
  {
    Assoc(text, more, CRLF);
    TextAtSplit(body, j, text, more + CRLF);
  }

  lemma TopIs(eh: Part -> Part, body: string, at: nat)
    requires 2 <= at && at + 2 < |body| && body[at] == '\r' && body[at + 1] == '\n'
    ensures Top(eh, body, at) == Lines(eh, EMPTY_PART, body, at + 2)
  {
  }

  /** The pieces of the top of a part with header text `hs`. */
  lemma TopPieces(body: string, b: string, i: nat, hs: string)
    requires TextAt(body, i, PartTop(b, hs))
    ensures var at := i + |b|;
      && |PartTop(b, hs)| == |b| + 2 + |hs| + 2
      && body[at] == '\r' && body[at + 1] == '\n' && TextAt(body, at + 2, hs + CRLF)
  {
    var at := i + |b|;
    TextAtSplit(body, i, b, CRLF + (hs + CRLF));
    TextAtSplit(body, at, CRLF, hs + CRLF);
    CharAt(body, at, CRLF, 0);
    CharAt(body, at, CRLF, 1);
  }

  /** The header of an encoded part whose header text is `hs`, from the end of its boundary. */
  lemma EncodedTop(eh: Part -> Part, body: string, at: nat, f: FormPart, hs: string)
    requires Clears(eh) && forall k | 0 <= k < |f.lines| :: LegalLine(f.lines[k])
    requires hs == RequestText.FieldsText(f.lines) && 2 <= at && at + 2 + |hs| + 2 < |body|
    requires body[at] == '\r' && body[at + 1] == '\n' && TextAt(body, at + 2, hs + CRLF)
    ensures Top(eh, body, at) == Header(f.Meaning(eh), true, at + 2 + |hs| + 2)
  {
    EncodedLines(eh, EMPTY_PART, body, at + 2, f.lines, hs);
    TopIs(eh, body, at);
  }

  // Encoded forms.

  lemma EncodingStart(b: string, parts: seq<FormPart>)
    ensures b <= EncodeParts(b, parts) && |EncodeParts(b, parts)| >= |b| + 2
  {
  }

  /** The next boundary behind the blank line of a part: at once, or after the content line. */
  lemma NextBoundary(eh: Part -> Part, body: string, b: string, data: nat, f: FormPart)
    requires LegalBoundary(b) && LegalPart(eh, b, f) && TextAt(body, data, f.ContentLine() + b)
    ensures var next := Search(body, b, data);
      if f.content.None? || b <= f.content.value then next == data
      else next == data + |f.ContentLine()| && body[data..next] == f.content.value + CRLF
  {
    if f.content.None? || b <= f.content.value {
      assert b <= f.ContentLine() + b;
      assert body[data..data + |b|] == (f.ContentLine() + b)[..|b|] == b;
      SearchFirst(body, b, data, data);
    } else {
      BoundaryAfterContent(body, b, data, f.content.value);
    }
  }

  lemma ChompContent(content: string)
    ensures Chomp(content + CRLF) == content
  {
    var t := content + CRLF;
    assert t[|t| - 2] == '\r' && t[|t| - 1] == '\n' && t[..|t| - 2] == content;
  }

  lemma ClosingTop(eh: Part -> Part, body: string, b: string, i: nat)
    requires |b| >= 2 && TextAt(body, i, b + ("--" + CRLF))
    ensures i + |b| <= |body| && Top(eh, body, i + |b|) == Closing
  {
    TextAtSplit(body, i, b, "--" + CRLF);
    CharAt(body, i + |b|, "--" + CRLF, 0);
    CharAt(body, i + |b|, "--" + CRLF, 1);
  }

  lemma NotAPrefix(s: string, b: string)
    requires !Contains(s, b)
    ensures !(b <= s)
  {
    if b <= s {
      assert s[0..|b|] == b;
      assert MatchesAt(s, b, 0);
    }
  }

  /** The content line of a part, and where the next boundary is found from its start. */
  lemma EncodedContent(eh: Part -> Part, body: string, b: string, data: nat, f: FormPart, rest: string)
    requires LegalBoundary(b) && LegalPart(eh, b, f) && b <= rest && TextAt(body, data, f.ContentLine() + rest)
    ensures var next := Search(body, b, data);
      && (f.Throws(eh, b) ==> next == data)
      && (!f.Throws(eh, b) ==> TextAt(body, next, rest))
      && (!f.Throws(eh, b) && f.content.Some? ==> data < next && Chomp(body[data..next]) == f.content.value)
  {
    var line := f.ContentLine();
    TextAtSplit(body, data, line, rest);
    assert rest == b + rest[|b|..];
    Assoc(line, b, rest[|b|..]);
    TextAtSplit(body, data, line + b, rest[|b|..]);
    NextBoundary(eh, body, b, data, f);
    if !f.Throws(eh, b) && f.content.Some? {
      NotAPrefix(f.content.value, b);
      ChompContent(f.content.value);
    }
  }

  /** A part with header text `hs`, and what follows its blank line. */
  lemma PartPieces(body: string, b: string, i: nat, hs: string, after: string) returns (data: nat)
    requires |b| >= 2 && |after| >= 2 && TextAt(body, i, PartTop(b, hs) + after)
    ensures data == i + |b| + 2 + |hs| + 2 < |body| && TextAt(body, data, after)
    ensures body[i + |b|] == '\r' && body[i + |b| + 1] == '\n' && TextAt(body, i + |b| + 2, hs + CRLF)
  {
    data := i + |PartTop(b, hs)|;
    TextAtSplit(body, i, PartTop(b, hs), after);
    TopPieces(body, b, i, hs);
  }

  lemma TopAfterBlank(eh: Part -> Part, body: string, at: nat, h: Header)
    requires 2 <= at <= |body| && Top(eh, body, at) == h && h.Header?
    ensures AfterBlank(body, h.crlf, h.data)
  {
  }

  /** The header of an encoded part, from its boundary to its blank line. */
  lemma EncodedHeader(eh: Part -> Part, body: string, b: string, i: nat, f: FormPart, hs: string, after: string)
    returns (data: nat)
    requires Clears(eh) && |b| >= 2 && forall k | 0 <= k < |f.lines| :: LegalLine(f.lines[k])
    requires hs == RequestText.FieldsText(f.lines) && |after| >= 2 && TextAt(body, i, PartTop(b, hs) + after)
    ensures i + |b| <= |body| && TextAt(body, data, after)
    ensures AfterBlank(body, true, data) && Top(eh, body, i + |b|) == Header(f.Meaning(eh), true, data)
  {
    data := PartPieces(body, b, i, hs, after);
    EncodedTop(eh, body, i + |b|, f, hs);
    TopAfterBlank(eh, body, i + |b|, Header(f.Meaning(eh), true, data));
  }

  /** The first part of an encoded form, as the grammar sees it. */
  lemma EncodedPart(eh: Part -> Part, body: string, b: string, i: nat, f: FormPart, hs: string, rest: string)
    returns (x: Seen)
    requires Clears(eh) && LegalBoundary(b) && LegalPart(eh, b, f) && b <= rest
    requires hs == RequestText.FieldsText(f.lines) && TextAt(body, i, PartTop(b, hs) + (f.ContentLine() + rest))
    ensures i + |b| <= |body| && Proper(body, x) && x.crlf && x.p == f.Meaning(eh) && x.next == Search(body, b, x.from)
    ensures Top(eh, body, i + |b|) == Header(x.p, true, x.from)
    ensures f.Throws(eh, b) ==> x.next == x.from
    ensures !f.Throws(eh, b) ==> TextAt(body, x.next, rest)
    ensures !f.Throws(eh, b) && f.content.Some? ==> x.from < x.next && Chomp(body[x.from..x.next]) == f.content.value
  {
    var data := EncodedHeader(eh, body, b, i, f, hs, f.ContentLine() + rest);
    EncodedContent(eh, body, b, data, f, rest);
    x := Seen(f.Meaning(eh), true, data, Search(body, b, data));
  }

  /** A whole form, from the boundary of any of its parts. */
  lemma {:induction false} EncodedParts(eh: Part -> Part, body: string, b: string, i: nat, parts: seq<FormPart>,
                                        pairs: seq<Field>, found: bool)
    requires Clears(eh) && LegalBoundary(b) && TextAt(body, i, EncodeParts(b, parts))
    requires forall k | 0 <= k < |parts| :: LegalPart(eh, b, parts[k])
    ensures i + |b| <= |body| && Yield(body, Parts(eh, body, b, i), pairs, found) == Expected(eh, b, parts, pairs)
    decreases |parts|
  {
    EncodingStart(b, parts);
    if parts == [] {
      ClosingTop(eh, body, b, i);
    } else {
      var f, rest := parts[0], EncodeParts(b, parts[1..]);
      EncodingStart(b, parts[1..]);
      var x := EncodedPart(eh, body, b, i, f, RequestText.FieldsText(f.lines), rest);
      PartsFirst(eh, body, b, i, x);
      YieldFirst(body, x, Parts(eh, body, b, x.next), pairs, found);
      if !f.Throws(eh, b) {
        EncodedParts(eh, body, b, x.next, parts[1..],
                     if Stored(x.p) then pairs + [Field(x.p.fname, f.content.value)] else pairs, found || Stored(x.p));
      }
    }
  }

  lemma EndHeaderClears()
    ensures Clears(EndHeader)
  {
  }

  lemma GrammarAt(contentType: string, body: string, b: string, at: nat)
    requires BoundaryOf(contentType) == Some(b) && body != "" && |b| >= 2 && Search(body, b, 0) == at
    ensures ParseMultipart(contentType, body) == Yield(body, Parts(EndHeader, body, b, at), [], false)
  {
    MultipartIsGrammar(contentType, body);
  }

  lemma BoundaryIsLegal(contentType: string, b: string)
    requires BoundaryOf(contentType) == Some(b) && NoLineEnd(b)
    ensures LegalBoundary(b)
  {
  }

  /** A form, behind any preamble in which the boundary does not occur. */
  predicate EncodedIn(b: string, preamble: string, parts: seq<FormPart>) {
    && (forall k | 0 <= k < |parts| :: LegalPart(EndHeader, b, parts[k]))
    && Search(preamble + EncodeParts(b, parts), b, 0) == |preamble|
  }

  /** Parsing an encoded form: its stored parts in order, until one has the boundary right behind its blank line. */
  lemma ParseEncoded(contentType: string, pre: string, x: string, preamble: string, parts: seq<FormPart>)
    requires NamesBoundary(contentType, pre, x) && NoLineEnd(x) && EncodedIn("--" + x, preamble, parts)
    ensures ParseMultipart(contentType, preamble + EncodeParts("--" + x, parts))
         == Expected(EndHeader, "--" + x, parts, [])
  {
    var b := "--" + x;
    BoundaryIs(contentType, pre, x);
    var text := EncodeParts(b, parts);
    var body := preamble + text;
    BoundaryIsLegal(contentType, b);
    EncodingStart(b, parts);
    TextAfter(preamble, text);
    GrammarAt(contentType, body, b, |preamble|);
    EndHeaderClears();
    EncodedParts(EndHeader, body, b, |preamble|, parts, [], false);
  }

  lemma NoPreamble(b: string, parts: seq<FormPart>)
    requires |b| >= 2
    ensures "" + EncodeParts(b, parts) == EncodeParts(b, parts) && Search(EncodeParts(b, parts), b, 0) == 0
  {
    EncodingStart(b, parts);
    SearchFirst(EncodeParts(b, parts), b, 0, 0);
  }

  lemma {:induction false} ExpectedFields(b: string, parts: seq<FormPart>, pairs: seq<Field>)
    requires b != "" && forall k | 0 <= k < |parts| :: parts[k].content.Some? && !Contains(parts[k].content.value, b)
    ensures Expected(EndHeader, b, parts, pairs) == Returned(true, pairs + TextFields(parts))
    decreases |parts|
  {
    if parts == [] {
      assert pairs + [] == pairs;
    } else {
      var f, m := parts[0], parts[0].Meaning(EndHeader);
      NotAPrefix(f.content.value, b);
      if Stored(m) {
        ExpectedFields(b, parts[1..], pairs + [Field(m.fname, f.content.value)]);
        Assoc(pairs, [Field(m.fname, f.content.value)], TextFields(parts[1..]));
      } else {
        ExpectedFields(b, parts[1..], pairs);
        assert [] + TextFields(parts[1..]) == TextFields(parts[1..]);
      }
    }
  }

  /** A part with legal header lines and a content without the boundary. */
  predicate PlainPart(b: string, f: FormPart) {
    LegalPart(EndHeader, b, f) && f.content.Some? && !Contains(f.content.value, b)
  }

  /** Round trip: a standard form parses to exactly its named text fields; other parts are skipped. */
  lemma MultipartRoundTrip(contentType: string, pre: string, x: string, parts: seq<FormPart>)
    requires NamesBoundary(contentType, pre, x) && NoLineEnd(x)
    requires forall k | 0 <= k < |parts| :: PlainPart("--" + x, parts[k])
    ensures ParseMultipart(contentType, EncodeParts("--" + x, parts)) == Returned(true, TextFields(parts))
  {
    var b := "--" + x;
    BoundaryIs(contentType, pre, x);
    BoundaryIsLegal(contentType, b);
    NoPreamble(b, parts);
    ParseEncoded(contentType, pre, x, "", parts);
    ExpectedFields(b, parts, []);
    assert [] + TextFields(parts) == TextFields(parts);
  }

  lemma {:induction false} ExpectedThrows(eh: Part -> Part, b: string, parts: seq<FormPart>, pairs: seq<Field>)
    ensures Expected(eh, b, parts, pairs).Threw? <==> exists k | 0 <= k < |parts| :: parts[k].Throws(eh, b)
    decreases |parts|
  {
    if parts != [] && !parts[0].Throws(eh, b) {
      var m := parts[0].Meaning(eh);
      ExpectedThrows(eh, b, parts[1..], if Stored(m) then pairs + [Field(m.fname, parts[0].content.value)] else pairs);
      assert forall k | 0 <= k < |parts[1..]| :: parts[1..][k] == parts[k + 1];
      assert forall k | 0 < k < |parts| :: parts[k] == parts[1..][k - 1];
    }
  }

  /** An encoded form throws exactly when a stored part has the boundary right behind its blank line. */
  lemma EncodedThrows(contentType: string, pre: string, x: string, preamble: string, parts: seq<FormPart>)
    requires NamesBoundary(contentType, pre, x) && NoLineEnd(x) && EncodedIn("--" + x, preamble, parts)
    ensures ParseMultipart(contentType, preamble + EncodeParts("--" + x, parts)).Threw?
       <==> exists k | 0 <= k < |parts| :: parts[k].Throws(EndHeader, "--" + x)
  {
    ParseEncoded(contentType, pre, x, preamble, parts);
    ExpectedThrows(EndHeader, "--" + x, parts, []);
  }

  // The header lines a browser sends.

  const DISPOSITION := "form-data; name=\""

  function DispositionLine(name: string): Field {
    Field("Content-Disposition", DISPOSITION + name + "\"")
  }

  lemma {:induction false} UpToQuoteOf(name: string, rest: string)
    requires '"' !in name
    ensures UpToQuote(name + ['"'] + rest) == name
  {
    var s := name + ['"'] + rest;
    if name != "" {
      assert s[0] == name[0] && name[0] in name && s[1..] == name[1..] + ['"'] + rest;
      UpToQuoteOf(name[1..], rest);
    }
  }

  lemma NameKeyInDisposition(name: string)
    ensures Search(DISPOSITION + name + "\"", NAME_KEY, 0) == 11
  {
    var v := DISPOSITION + name + "\"";
    assert forall j | 0 <= j < 17 :: v[j] == DISPOSITION[j];
    forall j | 0 <= j < 11
      ensures !MatchesAt(v, NAME_KEY, j)
    {
      assert v[j] != 'n';
      Mismatch(v, NAME_KEY, j, 0);
    }
    assert v[11..17] == DISPOSITION[11..17] == NAME_KEY;
    SearchFirst(v, NAME_KEY, 0, 11);
  }

  /** A disposition line gives the part its name. */
  lemma DispositionNames(name: string)
    requires '"' !in name
    ensures EndHeader(Part("Content-Disposition", DispositionLine(name).value, "", true)) == Part("", "", name, true)
  {
    var v := DISPOSITION + name + "\"";
    NameKeyInDisposition(name);
    assert v[17..] == name + ['"'] + "";
    UpToQuoteOf(name, "");
    assert "" + name == name;
    assert IEquals("Content-Disposition", "Content-Disposition") && !IEquals("Content-Disposition", "Content-Type");
  }

  /** A field with only a disposition line is stored under its name. */
  lemma PlainField(name: string, content: Option<string>)
    requires '"' !in name
    ensures FormPart([DispositionLine(name)], content).Meaning(EndHeader) == Part("", "", name, true)
  {
    DispositionNames(name);
    assert ReadLines(EndHeader, EMPTY_PART, [DispositionLine(name)])
        == EndHeader(Part("Content-Disposition", DispositionLine(name).value, "", true));
  }

  /** A content type decides whether a named part is stored. */
  lemma TypedField(name: string, ctype: string, content: Option<string>)
    requires '"' !in name
    ensures FormPart([DispositionLine(name), Field("Content-Type", ctype)], content).Meaning(EndHeader)
         == Part("", "", name, IEquals(ctype[..Min(5, |ctype|)], "text/"))
  {
    DispositionNames(name);
    assert IEquals("Content-Type", "Content-Type");
    var p := Part("", "", name, true);
    var lines := [DispositionLine(name), Field("Content-Type", ctype)];
    assert lines[1..] == [Field("Content-Type", ctype)];
    assert ReadLines(EndHeader, p, lines[1..]) == EndHeader(p.(hname := "Content-Type", hvalue := ctype));
  }

  /** So it does in front of the disposition. */
  lemma TypedFirst(name: string, ctype: string, content: Option<string>)
    requires '"' !in name
    ensures FormPart([Field("Content-Type", ctype), DispositionLine(name)], content).Meaning(EndHeader)
         == Part("", "", name, IEquals(ctype[..Min(5, |ctype|)], "text/"))
  {
    DispositionNames(name);
    assert IEquals("Content-Type", "Content-Type");
    var typed := EndHeader(Part("Content-Type", ctype, "", true));
    var lines := [Field("Content-Type", ctype), DispositionLine(name)];
    assert lines[1..] == [DispositionLine(name)];
    assert ReadLines(EndHeader, typed, lines[1..])
        == EndHeader(typed.(hname := "Content-Disposition", hvalue := DispositionLine(name).value));
  }

  /** Any other line of a part says nothing. */
  lemma OtherLine(p: Part)
    requires !IEquals(p.hname, "Content-Type") && !IEquals(p.hname, "Content-Disposition")
    ensures EndHeader(p) == p.(hname := "", hvalue := "")
  {
  }
}
