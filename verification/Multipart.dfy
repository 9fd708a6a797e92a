/**
 Multipart forms: `parse_multipart_form_data` in src/http_parser.cpp against the encoding of
 section 3 of RFC 2388 and section 5.1.1 of RFC 2046.
 */
module Multipart {
  import opened Bytes
  import opened HeaderMachine

  datatype MPhase = PartStart | AfterCR | AfterLF | PName | PSpace | PValue | LastLF | FieldData

  /** The variables that describe the part being read. */
  datatype Part = Part(hname: string, hvalue: string, fname: string, save: bool)

  const EMPTY_PART := Part("", "", "", true)

  /**
   What a call ends with: its return value, or the `std::length_error` of assigning a field
   of negative length.
   */
  datatype MultiOut = Returned(ok: bool, pairs: seq<Field>) | Threw(pairs: seq<Field>)

  const BOUNDARY_KEY := "boundary="
  const NAME_KEY := "name=\""

  function BoundaryOf(contentType: string): Option<string> {
    var at := Search(contentType, BOUNDARY_KEY, 0);
    if at == |contentType| then None else Some("--" + contentType[at + 9..])
  }

  /** A content type in which `boundary=` occurs behind `pre` and not earlier, with `x` behind it. */
  predicate NamesBoundary(contentType: string, pre: string, x: string) {
    contentType == pre + ("boundary=" + x) && forall k | 0 <= k < |pre| :: !MatchesAt(contentType, "boundary=", k)
  }

  /** The boundary of such a content type: two hyphens, and all that stands behind the equals sign. */
  lemma BoundaryIs(contentType: string, pre: string, x: string)
    requires NamesBoundary(contentType, pre, x)
    ensures BoundaryOf(contentType) == Some("--" + x)
  {
    assert contentType[|pre|..|pre| + 9] == "boundary=";
    SearchFirst(contentType, BOUNDARY_KEY, 0, |pre|);
    assert contentType[|pre| + 9..] == x;
  }

  /** Every content type that contains `boundary=` is such a one, and the others have no boundary. */
  lemma BoundaryOrNone(contentType: string) returns (pre: string, x: string)
    ensures BoundaryOf(contentType).None? <==> !Contains(contentType, "boundary=")
    ensures BoundaryOf(contentType).Some? ==> NamesBoundary(contentType, pre, x)
  {
    var at := Search(contentType, BOUNDARY_KEY, 0);
    SearchFinds(contentType, BOUNDARY_KEY, 0);
    pre, x := contentType[..at], if at < |contentType| then contentType[at + 9..] else "";
    if at < |contentType| {
      assert contentType == pre + (contentType[at..at + 9] + x);
    }
  }

  /** The text up to the next double quote. */
  function UpToQuote(s: string): string {
    if s == "" || s[0] == '"' then "" else [s[0]] + UpToQuote(s[1..])
  }

  /** The end of a header value: what the header says about the part. */
  function EndHeader(p: Part): Part {
    var q := p.(hname := "", hvalue := "");
    if IEquals(p.hname, "Content-Type") then
      q.(save := IEquals(p.hvalue[..Min(5, |p.hvalue|)], "text/"))
    else if IEquals(p.hname, "Content-Disposition") then
      var at := Search(p.hvalue, NAME_KEY, 0);
      if at == |p.hvalue| then q else q.(fname := p.fname + UpToQuote(p.hvalue[at + 6..]))
    else q
  }

  // The scan takes the interpretation of a finished header, `EndHeader`, as its parameter `eh`.

  /** The states that read one byte `c` of a part's header lines. */
  function HeaderByte(eh: Part -> Part, phase: MPhase, p: Part, c: char): Option<(MPhase, Part)>
    requires phase.AfterLF? || phase.PName? || phase.PSpace? || phase.PValue?
  {
    match phase
    case AfterLF => if c == '\n' then Some((PName, p)) else None
    case PName =>
      if c == '\r' then Some((if p.hname == "" then LastLF else AfterLF, p))
      else if c == '\n' then Some((if p.hname == "" then FieldData else PName, p))
      else if c == ':' then Some((PSpace, p))
      else Some((PName, p.(hname := p.hname + [c])))
    case PSpace =>
      if c == '\r' then Some((AfterLF, p))
      else if c == '\n' then Some((PName, p))
      else if c == ' ' then Some((PSpace, p))
      else Some((PValue, p.(hvalue := p.hvalue + [c])))
    case PValue =>
      if c == '\r' || c == '\n' then Some((if c == '\r' then AfterLF else PName, eh(p)))
      else Some((PValue, p.(hvalue := p.hvalue + [c])))
  }

  /** Where the field that starts at `i` ends, given the next boundary. */
  function FieldEnd(body: string, next: nat): (e: int)
    requires 2 <= next <= |body|
    ensures e == next - 2 || e == next
  {
    if body[next - 2] == '\r' && body[next - 1] == '\n' then next - 2 else next
  }

  /** The loop variables: the phase, the read position, the part, and what was inserted so far. */
  datatype Loop = Loop(phase: MPhase, i: nat, p: Part, pairs: seq<Field>, found: bool)

  /** A part starts at a boundary or at the end; every other phase comes after a boundary. */
  predicate At(body: string, b: string, s: Loop) {
    && |b| >= 2 && s.i <= |body|
    && (s.phase.PartStart? ==> s.i == |body| || s.i + |b| <= |body|)
    && (!s.phase.PartStart? ==> s.i >= 2)
  }

  datatype Move = Stop(out: MultiOut) | Go(next: Loop)

  /** One turn of the loop. */
  function Turn(eh: Part -> Part, body: string, b: string, s: Loop): (m: Move)
    requires At(body, b, s) && s.i < |body|
    ensures m.Go? ==> At(body, b, m.next)
    ensures m.Go? ==> s.i < m.next.i || (s.i == m.next.i && !s.phase.PartStart? && m.next.phase.PartStart?)
  {
    var c := body[s.i];
    match s.phase
    case PartStart => Go(s.(phase := AfterCR, i := s.i + |b|, p := EMPTY_PART))
    case AfterCR =>
      if c == '\r' then Go(s.(phase := AfterLF, i := s.i + 1))
      else if c == '\n' then Go(s.(phase := PName, i := s.i + 1))
      else Stop(Returned(c == '-' && s.i + 1 < |body| && body[s.i + 1] == '-', s.pairs))
    case LastLF =>
      if c != '\n' then Stop(Returned(false, s.pairs))
      else if s.p.save && s.p.fname != "" then Go(s.(phase := FieldData, i := s.i + 1))
      else Go(s.(phase := PartStart, i := Search(body, b, s.i)))
    case FieldData =>
      var next := Search(body, b, s.i);
      var end := FieldEnd(body, next);
      if end < s.i then Stop(Threw(s.pairs))
      else Go(s.(phase := PartStart, i := next, pairs := s.pairs + [Field(s.p.fname, body[s.i..end])], found := true))
    case _ =>
      var r := HeaderByte(eh, s.phase, s.p, c);
      if r.None? then Stop(Returned(false, s.pairs))
      else Go(s.(phase := r.value.0, i := s.i + 1, p := r.value.1))
  }

  /** The parser from any intermediate state to its return. */
  function MultiScan(eh: Part -> Part, body: string, b: string, s: Loop): MultiOut
    requires At(body, b, s)
    decreases |body| - s.i, if s.phase.PartStart? then 0 else 1
  {
    if s.i == |body| then Returned(s.found, s.pairs)
    else
      var m := Turn(eh, body, b, s);
      if m.Stop? then m.out else MultiScan(eh, body, b, m.next)
  }

  function ParseMultipart(contentType: string, body: string): MultiOut {
    if body == "" then Returned(true, [])
    else
      var b := BoundaryOf(contentType);
      if b.None? then Returned(false, [])
      else MultiScan(EndHeader, body, b.value, Loop(PartStart, Search(body, b.value, 0), EMPTY_PART, [], false))
  }

  /** `parse_multipart_form_data`: the checks before the loop. */
  method ParseMultipartFormData(contentType: string, body: string) returns (out: MultiOut)
    ensures out == ParseMultipart(contentType, body)
  {
    if body == "" {
      return Returned(true, []);
    }
    var at := Search(contentType, BOUNDARY_KEY, 0);
    if at == |contentType| {
      return Returned(false, []);
    }
    out := ScanParts(EndHeader, body, "--" + contentType[at + 9..]);
  }

  lemma TurnAt(eh: Part -> Part, body: string, b: string, s: Loop)
    requires At(body, b, s) && s.i < |body|
    ensures var m := Turn(eh, body, b, s);
      MultiScan(eh, body, b, s) == if m.Stop? then m.out else MultiScan(eh, body, b, m.next)
  {
  }

  /** The loop of `parse_multipart_form_data` over the body. */
  method ScanParts(eh: Part -> Part, body: string, b: string) returns (out: MultiOut)
    requires |b| >= 2
    ensures out == MultiScan(eh, body, b, Loop(PartStart, Search(body, b, 0), EMPTY_PART, [], false))
  {
    var s := Loop(PartStart, Search(body, b, 0), EMPTY_PART, [], false);
    ghost var whole := MultiScan(eh, body, b, s);
    while s.i < |body|
      invariant At(body, b, s) && MultiScan(eh, body, b, s) == whole
      decreases |body| - s.i, if s.phase.PartStart? then 0 else 1
    {
      TurnAt(eh, body, b, s);
      var stop, r := TakeTurn(eh, body, b, s);
      if stop.Some? {
        return stop.value;
      }
      s := r;
    }
    return Returned(s.found, s.pairs);
  }

  /** The body of the loop, updating the loop variables phase by phase. */
  method TakeTurn(eh: Part -> Part, body: string, b: string, s: Loop) returns (stop: Option<MultiOut>, r: Loop)
    requires At(body, b, s) && s.i < |body|
    ensures Turn(eh, body, b, s) == if stop.Some? then Stop(stop.value) else Go(r)
  {
    var c := body[s.i];
    var phase, i, p, pairs, found := s.phase, s.i, s.p, s.pairs, s.found;
    stop, r := None, s;
    match phase {
      case PartStart =>
        p := EMPTY_PART;
        i := i + |b| - 1;
        phase := AfterCR;
      case AfterCR =>
        if c == '\r' {
          phase := AfterLF;
        } else if c == '\n' {
          phase := PName;
        } else if c == '-' && i + 1 < |body| && body[i + 1] == '-' {
          return Some(Returned(true, pairs)), s;
        } else {
          return Some(Returned(false, pairs)), s;
        }
      case LastLF =>
        if c != '\n' {
          return Some(Returned(false, pairs)), s;
        }
        if p.save && p.fname != "" {
          phase := FieldData;
        } else {
          phase := PartStart;
          i := Search(body, b, i);
        }
      case FieldData =>
        var next := Search(body, b, i);
        var end := if body[next - 2] == '\r' && body[next - 1] == '\n' then next - 2 else next;
        if end < i {
          return Some(Threw(pairs)), s;
        }
        pairs := pairs + [Field(p.fname, body[i..end])];
        found := true;
        phase := PartStart;
        i := next;
      case _ =>
        var h := HeaderByte(eh, phase, p, c);
        if h.None? {
          return Some(Returned(false, pairs)), s;
        }
        phase, p := h.value.0, h.value.1;
    }
    if !phase.PartStart? {
      i := i + 1;
    }
    r := Loop(phase, i, p, pairs, found);
  }

  /** A part is stored when it is text and has a name. */
  predicate Stored(m: Part) {
    m.save && m.fname != ""
  }

  // The proofs below are about any function that obeys the loop, turn by turn; `OneTurn`
  // is the only place where a turn is taken.

  datatype Scanner = Scanner(scan: Loop -> MultiOut, eh: Part -> Part, body: string, b: string) {

    ghost predicate Obeys() {
      forall s {:trigger Taken(s)} :: At(body, b, s) && s.i < |body| ==>
        var m := Turn(eh, body, b, s);
        scan(s) == if m.Stop? then m.out else scan(m.next)
    }
  }

  predicate Taken(s: Loop) {
    true
  }

  lemma OneTurn(r: Scanner, s: Loop)
    requires r.Obeys() && At(r.body, r.b, s) && s.i < |r.body|
    ensures var m := Turn(r.eh, r.body, r.b, s);
      r.scan(s) == if m.Stop? then m.out else r.scan(m.next)
  {
    assert Taken(s);
  }
}
