/**
 Multipart bodies line by line, an independent reading of what `parse_multipart_form_data` does
 byte by byte: parts between boundaries, header lines up to a blank line, then the field.  The
 two readings agree on every body, which also tells exactly when the parser leaves by an
 exception.
 */
module MultipartGrammar {
  import opened Bytes
  import opened HeaderMachine
  import opened Multipart

  predicate IsLineEnd(c: char) {
    c == '\r' || c == '\n'
  }

  /** The end of the line that starts at `j`: the next CR or LF, or the end of the body. */
  function LineStop(body: string, j: nat): (k: nat)
    requires j <= |body|
    ensures j <= k <= |body| && (forall i | j <= i < k :: !IsLineEnd(body[i])) && (k < |body| ==> IsLineEnd(body[k]))
    decreases |body| - j
  {
    if j == |body| || IsLineEnd(body[j]) then j else LineStop(body, j + 1)
  }

  /** The first colon of the line from `j` to `k`, or its end. */
  function FirstColon(body: string, j: nat, k: nat): (c: nat)
    requires j <= k <= |body|
    ensures j <= c <= k && (forall i | j <= i < c :: body[i] != ':') && (c < k ==> body[c] == ':')
    decreases k - j
  {
    if j == k || body[j] == ':' then j else FirstColon(body, j + 1, k)
  }

  /** Where the spaces from `j` on end. */
  function AfterSpaces(body: string, j: nat, k: nat): (v: nat)
    requires j <= k <= |body|
    ensures j <= v <= k && (forall i | j <= i < v :: body[i] == ' ') && (v < k ==> body[v] != ' ')
    decreases k - j
  {
    if j == k || body[j] != ' ' then j else AfterSpaces(body, j + 1, k)
  }

  /** What a line that is not blank adds to the part; a line without a value only adds to the name. */
  function ReadLine(eh: Part -> Part, p: Part, body: string, j: nat, k: nat): Part
    requires j <= k <= |body|
  {
    var c := FirstColon(body, j, k);
    var named := p.(hname := p.hname + body[j..c]);
    if c == k then named
    else
      var v := AfterSpaces(body, c + 1, k);
      if v == k then named else eh(named.(hvalue := p.hvalue + body[v..k]))
  }

  /** The header of a part: what it says, how its blank line ends, and where the field starts; or why there is none. */
  datatype Header = Header(p: Part, crlf: bool, data: nat) | Cut | Bad | Closing

  /** Where the next line starts after a line that ends at `k`, or why there is no next line. */
  function NextLine(body: string, k: nat): (h: Header)
    requires k < |body| && IsLineEnd(body[k])
    ensures !h.Closing?
    ensures h.Header? ==> k < h.data < |body| && body[h.data - 1] == '\n' && h.crlf == (body[k] == '\r')
    ensures h.Header? ==> h.data == k + if h.crlf then 2 else 1
  {
    if body[k] == '\n' then if k + 1 == |body| then Cut else Header(EMPTY_PART, false, k + 1)
    else if k + 1 == |body| then Cut
    else if body[k + 1] != '\n' then Bad
    else if k + 2 == |body| then Cut
    else Header(EMPTY_PART, true, k + 2)
  }

  /** `data` comes right after a line end and an empty line. */
  predicate AfterBlank(body: string, crlf: bool, data: nat) {
    && 3 <= data < |body| && body[data - 1] == '\n'
    && if crlf then body[data - 2] == '\r' && body[data - 3] == '\n' else body[data - 2] == '\n'
  }

  /** The header lines from `j` on. */
  function Lines(eh: Part -> Part, p: Part, body: string, j: nat): (h: Header)
    requires 2 <= j <= |body| && body[j - 1] == '\n'
    ensures !h.Closing? && (h.Header? ==> j < h.data && AfterBlank(body, h.crlf, h.data))
    decreases |body| - j
  {
    var k := LineStop(body, j);
    if k == |body| then Cut
    else
      var next := NextLine(body, k);
      if !next.Header? then next
      else if k == j && p.hname == "" then next.(p := p)
      else Lines(eh, ReadLine(eh, p, body, j, k), body, next.data)
  }

  /** The header of the part whose boundary ends at `j`. */
  function Top(eh: Part -> Part, body: string, j: nat): (h: Header)
    requires 2 <= j <= |body|
    ensures h.Header? ==> j < h.data && AfterBlank(body, h.crlf, h.data)
  {
    if j == |body| then Cut
    else if IsLineEnd(body[j]) then
      var next := NextLine(body, j);
      if next.Header? then Lines(eh, EMPTY_PART, body, next.data) else next
    else if body[j] == '-' && j + 1 < |body| && body[j + 1] == '-' then Closing
    else Bad
  }

  /** A part: its header, and where its field starts and the next boundary (or the end) is. */
  datatype Seen = Seen(p: Part, crlf: bool, from: nat, next: nat) {

    /** The field is wanted: the part is text and has a name, or its blank line is a lone LF. */
    predicate Wanted() {
      !crlf || Stored(p)
    }

    /** The boundary follows the CR LF of the blank line at once, and the field is wanted. */
    predicate Negative() {
      crlf && Stored(p) && next == from
    }
  }

  /** All parts of a body, and how it ends. */
  datatype Form = Form(parts: seq<Seen>, end: Header)

  predicate Proper(body: string, x: Seen) {
    AfterBlank(body, x.crlf, x.from) && x.from <= x.next <= |body|
  }

  function Parts(eh: Part -> Part, body: string, b: string, i: nat): (f: Form)
    requires |b| >= 2 && i <= |body| && (i < |body| ==> i + |b| <= |body|)
    ensures !f.end.Header? && forall k | 0 <= k < |f.parts| :: Proper(body, f.parts[k])
    decreases |body| - i
  {
    if i == |body| then Form([], Cut)
    else
      var h := Top(eh, body, i + |b|);
      if !h.Header? then Form([], h)
      else
        var next := Search(body, b, h.data);
        var more := Parts(eh, body, b, next);
        Form([Seen(h.p, h.crlf, h.data, next)] + more.parts, more.end)
  }

  /** A text without its last line end, if that is CR LF. */
  function Chomp(t: string): string {
    if |t| >= 2 && t[|t| - 2] == '\r' && t[|t| - 1] == '\n' then t[..|t| - 2] else t
  }

  /** What a form yields: the wanted fields, up to one of negative length. */
  function Yield(body: string, f: Form, pairs: seq<Field>, found: bool): MultiOut
    requires forall k | 0 <= k < |f.parts| :: Proper(body, f.parts[k])
    decreases |f.parts|
  {
    if f.parts == [] then Returned(if f.end.Cut? then found else f.end.Closing?, pairs)
    else
      var x, rest := f.parts[0], f.(parts := f.parts[1..]);
      assert Proper(body, x);
      if x.Negative() then Threw(pairs)
      else if !x.Wanted() then Yield(body, rest, pairs, found)
      else Yield(body, rest, pairs + [Field(x.p.fname, Chomp(body[x.from..x.next]))], true)
  }

  // Bytes against lines.

  /** The loop ends at the end of the body. */
  ghost predicate Halts(r: Scanner) {
    forall s {:trigger Taken(s)} :: At(r.body, r.b, s) && s.i == |r.body| ==> r.scan(s) == Returned(s.found, s.pairs)
  }

  ghost predicate Faithful(r: Scanner) {
    r.Obeys() && Halts(r) && |r.b| >= 2 && r.b[0] == '-'
  }

  lemma HaltsAtEnd(r: Scanner, s: Loop)
    requires Faithful(r) && At(r.body, r.b, s) && s.i == |r.body|
    ensures r.scan(s) == Returned(s.found, s.pairs)
  {
    assert Taken(s);
  }

  /** Reading on in a header name. */
  lemma {:induction false} NameRun(r: Scanner, s: Loop, k: nat)
    requires Faithful(r) && At(r.body, r.b, s) && s.phase.PName? && s.i <= k <= |r.body|
    requires forall i | s.i <= i < k :: !IsLineEnd(r.body[i]) && r.body[i] != ':'
    ensures r.scan(s) == r.scan(s.(i := k, p := s.p.(hname := s.p.hname + r.body[s.i..k])))
    decreases k - s.i
  {
    if s.i == k {
      assert s.p.hname + r.body[k..k] == s.p.hname;
    } else {
      OneTurn(r, s);
      var c := r.body[s.i];
      NameRun(r, s.(i := s.i + 1, p := s.p.(hname := s.p.hname + [c])), k);
      assert s.p.hname + [c] + r.body[s.i + 1..k] == s.p.hname + r.body[s.i..k];
    }
  }

  lemma {:induction false} SpaceRun(r: Scanner, s: Loop, k: nat)
    requires Faithful(r) && At(r.body, r.b, s) && s.phase.PSpace? && s.i <= k <= |r.body|
    requires forall i | s.i <= i < k :: r.body[i] == ' '
    ensures r.scan(s) == r.scan(s.(i := k))
    decreases k - s.i
  {
    if s.i < k {
      OneTurn(r, s);
      SpaceRun(r, s.(i := s.i + 1), k);
    }
  }

  lemma {:induction false} ValueRun(r: Scanner, s: Loop, k: nat)
    requires Faithful(r) && At(r.body, r.b, s) && s.phase.PValue? && s.i <= k <= |r.body|
    requires forall i | s.i <= i < k :: !IsLineEnd(r.body[i])
    ensures r.scan(s) == r.scan(s.(i := k, p := s.p.(hvalue := s.p.hvalue + r.body[s.i..k])))
    decreases k - s.i
  {
    if s.i == k {
      assert s.p.hvalue + r.body[k..k] == s.p.hvalue;
    } else {
      OneTurn(r, s);
      var c := r.body[s.i];
      ValueRun(r, s.(i := s.i + 1, p := s.p.(hvalue := s.p.hvalue + [c])), k);
      assert s.p.hvalue + [c] + r.body[s.i + 1..k] == s.p.hvalue + r.body[s.i..k];
    }
  }

  /** Where the loop stands at the end `k` of the line that `s` is at the start of. */
  function EndOfLine(s: Loop, body: string, k: nat): Loop
    requires s.i <= k <= |body|
  {
    var c := FirstColon(body, s.i, k);
    var named := s.(i := k, p := s.p.(hname := s.p.hname + body[s.i..c]));
    if c == k then named
    else
      var v := AfterSpaces(body, c + 1, k);
      if v == k then named.(phase := PSpace)
      else named.(phase := PValue, p := named.p.(hvalue := s.p.hvalue + body[v..k]))
  }

  /** There the line end completes what the line says. */
  lemma EndOfLineReads(eh: Part -> Part, s: Loop, body: string, k: nat)
    requires s.phase.PName? && s.i <= k <= |body| && (s.i < k || s.p.hname != "")
    ensures var t, p := EndOfLine(s, body, k), ReadLine(eh, s.p, body, s.i, k);
      && (t.phase.PName? || t.phase.PSpace? || t.phase.PValue?)
      && HeaderByte(eh, t.phase, t.p, '\r') == Some((AfterLF, p))
      && HeaderByte(eh, t.phase, t.p, '\n') == Some((PName, p))
  {
  }

  /** A value, from its first character to the end of the line. */
  lemma ValueFrom(r: Scanner, s: Loop, k: nat)
    requires Faithful(r) && At(r.body, r.b, s) && s.phase.PSpace? && s.i < k <= |r.body| && r.body[s.i] != ' '
    requires forall i | s.i <= i < k :: !IsLineEnd(r.body[i])
    ensures r.scan(s) == r.scan(s.(phase := PValue, i := k, p := s.p.(hvalue := s.p.hvalue + r.body[s.i..k])))
  {
    OneTurn(r, s);
    var t := s.(phase := PValue, i := s.i + 1, p := s.p.(hvalue := s.p.hvalue + [r.body[s.i]]));
    ValueRun(r, t, k);
    assert [r.body[s.i]] + r.body[s.i + 1..k] == r.body[s.i..k];
    Assoc(s.p.hvalue, [r.body[s.i]], r.body[s.i + 1..k]);
  }

  /** A whole line, up to its end. */
  lemma LineRun(r: Scanner, s: Loop, k: nat)
    requires Faithful(r) && At(r.body, r.b, s) && s.phase.PName? && s.i <= k <= |r.body|
    requires forall i | s.i <= i < k :: !IsLineEnd(r.body[i])
    ensures r.scan(s) == r.scan(EndOfLine(s, r.body, k))
  {
    var c := FirstColon(r.body, s.i, k);
    NameRun(r, s, c);
    if c < k {
      var t := s.(i := c, p := s.p.(hname := s.p.hname + r.body[s.i..c]));
      var t', v := t.(phase := PSpace, i := c + 1), AfterSpaces(r.body, c + 1, k);
      OneTurn(r, t);
      SpaceRun(r, t', v);
      if v < k {
        ValueFrom(r, t'.(i := v), k);
      }
    }
  }

  /** Where the loop stands once a header is complete. */
  function AtField(s: Loop, h: Header): Loop
    requires h.Header? && h.data > 0
  {
    if h.crlf then s.(phase := LastLF, i := h.data - 1, p := h.p) else s.(phase := FieldData, i := h.data, p := h.p)
  }

  /** The loop from the start of a header line, or of a part, does what the header says. */
  predicate Follows(r: Scanner, s: Loop, h: Header) {
    match h
    case Header(_, _, data) => data > 0 && r.scan(s) == r.scan(AtField(s, h))
    case Cut => r.scan(s) == Returned(s.found, s.pairs)
    case Bad => r.scan(s) == Returned(false, s.pairs)
    case Closing => r.scan(s) == Returned(true, s.pairs)
  }

  /** A CR that has to be followed by an LF. */
  lemma ExpectLF(r: Scanner, s: Loop)
    requires Faithful(r) && At(r.body, r.b, s) && s.phase.AfterLF?
    ensures r.scan(s) == if s.i == |r.body| then Returned(s.found, s.pairs)
                         else if r.body[s.i] != '\n' then Returned(false, s.pairs)
                         else r.scan(s.(phase := PName, i := s.i + 1))
  {
    if s.i == |r.body| {
      HaltsAtEnd(r, s);
    } else {
      OneTurn(r, s);
    }
  }

  /** A line that is not blank, with the first character of its end. */
  lemma LineThenEnd(r: Scanner, s: Loop, k: nat, p: Part)
    requires Faithful(r) && At(r.body, r.b, s) && s.phase.PName? && s.i <= k < |r.body| && IsLineEnd(r.body[k])
    requires (forall i | s.i <= i < k :: !IsLineEnd(r.body[i])) && (s.i < k || s.p.hname != "")
    requires p == ReadLine(r.eh, s.p, r.body, s.i, k)
    ensures r.scan(s) == r.scan(s.(phase := if r.body[k] == '\r' then AfterLF else PName, i := k + 1, p := p))
  {
    LineRun(r, s, k);
    EndOfLineReads(r.eh, s, r.body, k);
    OneTurn(r, EndOfLine(s, r.body, k));
  }

  /** The end of a line that is not blank. */
  lemma LineThenNext(r: Scanner, s: Loop, k: nat)
    requires Faithful(r) && At(r.body, r.b, s) && s.phase.PName? && s.i <= k < |r.body| && IsLineEnd(r.body[k])
    requires (forall i | s.i <= i < k :: !IsLineEnd(r.body[i])) && (s.i < k || s.p.hname != "")
    ensures var next, p := NextLine(r.body, k), ReadLine(r.eh, s.p, r.body, s.i, k);
      && (next.Header? ==> r.scan(s) == r.scan(s.(i := next.data, p := p)))
      && (!next.Header? ==> Follows(r, s, next))
  {
    var p := ReadLine(r.eh, s.p, r.body, s.i, k);
    LineThenEnd(r, s, k, p);
    if r.body[k] == '\n' {
      EndIfCut(r, s.(i := k + 1, p := p));
    } else {
      ExpectLF(r, s.(phase := AfterLF, i := k + 1, p := p));
      if k + 1 < |r.body| {
        EndIfCut(r, s.(i := k + 2, p := p));
      }
    }
  }

  lemma EndIfCut(r: Scanner, s: Loop)
    requires Faithful(r) && At(r.body, r.b, s)
    ensures s.i == |r.body| ==> r.scan(s) == Returned(s.found, s.pairs)
  {
    if s.i == |r.body| {
      HaltsAtEnd(r, s);
    }
  }

  /** The blank line. */
  lemma BlankLine(r: Scanner, s: Loop)
    requires Faithful(r) && At(r.body, r.b, s) && s.phase.PName? && s.i < |r.body| && IsLineEnd(r.body[s.i])
    requires s.p.hname == ""
    ensures var next := NextLine(r.body, s.i);
      Follows(r, s, if next.Header? then next.(p := s.p) else next)
  {
    OneTurn(r, s);
    if r.body[s.i] == '\n' {
      EndIfCut(r, s.(phase := FieldData, i := s.i + 1));
    } else {
      var t := s.(phase := LastLF, i := s.i + 1);
      EndIfCut(r, t);
      if t.i < |r.body| {
        OneTurn(r, t);
        if t.i + 1 == |r.body| {
          EndIfCut(r, t.(phase := FieldData, i := t.i + 1));
          assert !MatchesAt(r.body, r.b, t.i);
          assert Search(r.body, r.b, t.i) == |r.body|;
          EndIfCut(r, t.(phase := PartStart, i := |r.body|));
        }
      }
    }
  }

  lemma {:induction false} HeaderRun(r: Scanner, s: Loop)
    requires Faithful(r) && At(r.body, r.b, s) && s.phase.PName? && r.body[s.i - 1] == '\n'
    ensures Follows(r, s, Lines(r.eh, s.p, r.body, s.i))
    decreases |r.body| - s.i
  {
    var k := LineStop(r.body, s.i);
    if k == |r.body| {
      LineRun(r, s, k);
      EndIfCut(r, EndOfLine(s, r.body, k));
    } else if k == s.i && s.p.hname == "" {
      BlankLine(r, s);
    } else {
      LineThenNext(r, s, k);
      var next := NextLine(r.body, k);
      if next.Header? {
        HeaderRun(r, s.(i := next.data, p := ReadLine(r.eh, s.p, r.body, s.i, k)));
      }
    }
  }

  /** The line end right behind a boundary. */
  lemma FirstLineEnd(r: Scanner, s: Loop)
    requires Faithful(r) && At(r.body, r.b, s) && s.phase.AfterCR? && s.i < |r.body| && IsLineEnd(r.body[s.i])
    ensures var next := NextLine(r.body, s.i);
      if next.Header? then r.scan(s) == r.scan(s.(phase := PName, i := next.data)) else Follows(r, s, next)
  {
    OneTurn(r, s);
    if r.body[s.i] == '\n' {
      EndIfCut(r, s.(phase := PName, i := s.i + 1));
    } else {
      ExpectLF(r, s.(phase := AfterLF, i := s.i + 1));
      if s.i + 1 < |r.body| {
        EndIfCut(r, s.(phase := PName, i := s.i + 2));
      }
    }
  }

  /** The header of a part, from the end of its boundary. */
  lemma TopRun(r: Scanner, s: Loop)
    requires Faithful(r) && At(r.body, r.b, s) && s.phase.AfterCR? && s.p == EMPTY_PART
    ensures Follows(r, s, Top(r.eh, r.body, s.i))
  {
    if s.i == |r.body| {
      HaltsAtEnd(r, s);
    } else if IsLineEnd(r.body[s.i]) {
      var next := NextLine(r.body, s.i);
      FirstLineEnd(r, s);
      if next.Header? {
        HeaderRun(r, s.(phase := PName, i := next.data));
      }
    } else {
      OneTurn(r, s);
    }
  }

  /** The boundary itself is skipped, and a new part starts. */
  lemma BoundaryTurn(r: Scanner, s: Loop) returns (t: Loop)
    requires Faithful(r) && At(r.body, r.b, s) && s.phase.PartStart? && s.i < |r.body|
    ensures t == s.(phase := AfterCR, i := s.i + |r.b|, p := EMPTY_PART) && At(r.body, r.b, t)
    ensures r.scan(s) == r.scan(t)
  {
    t := s.(phase := AfterCR, i := s.i + |r.b|, p := EMPTY_PART);
    OneTurn(r, s);
  }

  /** The code's end of a field agrees with dropping the last line end, unless the length is negative. */
  lemma FieldIsChomped(body: string, crlf: bool, from: nat, next: nat)
    requires AfterBlank(body, crlf, from) && from <= next <= |body|
    ensures FieldEnd(body, next) < from <==> crlf && next == from
    ensures from <= FieldEnd(body, next) ==> body[from..FieldEnd(body, next)] == Chomp(body[from..next])
  {
    var t := body[from..next];
    if |t| >= 2 {
      assert t[|t| - 2] == body[next - 2] && t[|t| - 1] == body[next - 1];
      SliceOfSlice(body, from, next, from, next - 2);
    }
  }

  /** The first match from the LF of the blank line on is the first one behind it. */
  lemma SearchFromLF(body: string, b: string, data: nat)
    requires |b| >= 2 && b[0] == '-' && 0 < data <= |body| && body[data - 1] == '\n'
    ensures Search(body, b, data - 1) == Search(body, b, data)
  {
    Mismatch(body, b, data - 1, 0);
  }

  /** From a complete header to the next boundary. */
  function PastField(s: Loop, body: string, x: Seen): Loop
    requires Proper(body, x)
  {
    var t := s.(phase := PartStart, i := x.next, p := x.p);
    if x.Wanted() then t.(pairs := s.pairs + [Field(x.p.fname, Chomp(body[x.from..x.next]))], found := true) else t
  }

  lemma WantedField(r: Scanner, s: Loop, x: Seen)
    requires Faithful(r) && Proper(r.body, x) && x.next == Search(r.body, r.b, x.from) && x.Wanted()
    ensures var t := s.(phase := FieldData, i := x.from, p := x.p);
      r.scan(t) == if x.Negative() then Threw(s.pairs) else r.scan(PastField(s, r.body, x))
  {
    FieldIsChomped(r.body, x.crlf, x.from, x.next);
    OneTurn(r, s.(phase := FieldData, i := x.from, p := x.p));
  }

  lemma FieldRun(r: Scanner, s: Loop, h: Header, x: Seen)
    requires Faithful(r) && Proper(r.body, x) && x.next == Search(r.body, r.b, x.from)
    requires h == Header(x.p, x.crlf, x.from)
    ensures r.scan(AtField(s, h)) == if x.Negative() then Threw(s.pairs) else r.scan(PastField(s, r.body, x))
  {
    if h.crlf {
      SearchFromLF(r.body, r.b, h.data);
      OneTurn(r, AtField(s, h));
    }
    if x.Wanted() {
      WantedField(r, s, x);
    }
  }

  lemma PartsFirst(eh: Part -> Part, body: string, b: string, i: nat, x: Seen)
    requires |b| >= 2 && i + |b| <= |body| && Proper(body, x) && x.next == Search(body, b, x.from)
    requires Top(eh, body, i + |b|) == Header(x.p, x.crlf, x.from)
    ensures var more := Parts(eh, body, b, x.next);
      Parts(eh, body, b, i) == Form([x] + more.parts, more.end)
  {
  }

  lemma YieldFirst(body: string, x: Seen, more: Form, pairs: seq<Field>, found: bool)
    requires Proper(body, x) && forall k | 0 <= k < |more.parts| :: Proper(body, more.parts[k])
    ensures Yield(body, Form([x] + more.parts, more.end), pairs, found) ==
      if x.Negative() then Threw(pairs)
      else if !x.Wanted() then Yield(body, more, pairs, found)
      else Yield(body, more, pairs + [Field(x.p.fname, Chomp(body[x.from..x.next]))], true)
  {
    assert ([x] + more.parts)[1..] == more.parts;
    assert Form([x] + more.parts, more.end).(parts := more.parts) == more;
  }

  /** One part of the loop, from its boundary to the next one. */
  lemma PartRun(r: Scanner, s: Loop, x: Seen)
    requires Faithful(r) && At(r.body, r.b, s) && s.phase.PartStart? && s.i < |r.body|
    requires Proper(r.body, x) && x.next == Search(r.body, r.b, x.from)
    requires Top(r.eh, r.body, s.i + |r.b|) == Header(x.p, x.crlf, x.from)
    ensures r.scan(s) == if x.Negative() then Threw(s.pairs) else r.scan(PastField(s, r.body, x))
  {
    var t := BoundaryTurn(r, s);
    TopRun(r, t);
    FieldRun(r, t, Header(x.p, x.crlf, x.from), x);
    assert PastField(t, r.body, x) == PastField(s, r.body, x);
  }

  /** The same step on both sides: the loop takes a part, and so does the reading by lines. */
  lemma PartThenRest(r: Scanner, s: Loop, x: Seen)
    requires Faithful(r) && At(r.body, r.b, s) && s.phase.PartStart? && s.i < |r.body|
    requires Proper(r.body, x) && x.next == Search(r.body, r.b, x.from)
    requires Top(r.eh, r.body, s.i + |r.b|) == Header(x.p, x.crlf, x.from)
    ensures var t, all := PastField(s, r.body, x), Yield(r.body, Parts(r.eh, r.body, r.b, s.i), s.pairs, s.found);
      if x.Negative() then r.scan(s) == all == Threw(s.pairs)
      else r.scan(s) == r.scan(t) && all == Yield(r.body, Parts(r.eh, r.body, r.b, t.i), t.pairs, t.found)
  {
    PartsFirst(r.eh, r.body, r.b, s.i, x);
    YieldFirst(r.body, x, Parts(r.eh, r.body, r.b, x.next), s.pairs, s.found);
    PartRun(r, s, x);
  }

  lemma NoParts(eh: Part -> Part, body: string, b: string, i: nat, h: Header)
    requires |b| >= 2 && i < |body| && i + |b| <= |body| && h == Top(eh, body, i + |b|) && !h.Header?
    ensures Parts(eh, body, b, i) == Form([], h)
  {
  }

  lemma YieldNone(body: string, h: Header, pairs: seq<Field>, found: bool)
    ensures Yield(body, Form([], h), pairs, found) == Returned(if h.Cut? then found else h.Closing?, pairs)
  {
  }

  /** The end of the parts: no further header, for whatever reason. */
  lemma NoPartRun(r: Scanner, s: Loop)
    requires Faithful(r) && At(r.body, r.b, s) && s.phase.PartStart?
    requires s.i < |r.body| ==> !Top(r.eh, r.body, s.i + |r.b|).Header?
    ensures r.scan(s) == Yield(r.body, Parts(r.eh, r.body, r.b, s.i), s.pairs, s.found)
  {
    if s.i == |r.body| {
      HaltsAtEnd(r, s);
    } else {
      var h := Top(r.eh, r.body, s.i + |r.b|);
      var t := BoundaryTurn(r, s);
      TopRun(r, t);
      NoParts(r.eh, r.body, r.b, s.i, h);
      YieldNone(r.body, h, s.pairs, s.found);
    }
  }

  lemma {:induction false} PartsRun(r: Scanner, s: Loop)
    requires Faithful(r) && At(r.body, r.b, s) && s.phase.PartStart?
    ensures r.scan(s) == Yield(r.body, Parts(r.eh, r.body, r.b, s.i), s.pairs, s.found)
    decreases |r.body| - s.i
  {
    if s.i == |r.body| || !Top(r.eh, r.body, s.i + |r.b|).Header? {
      NoPartRun(r, s);
    } else {
      var h := Top(r.eh, r.body, s.i + |r.b|);
      var x := Seen(h.p, h.crlf, h.data, Search(r.body, r.b, h.data));
      PartThenRest(r, s, x);
      if !x.Negative() {
        PartsRun(r, PastField(s, r.body, x));
      }
    }
  }

  /** The form that a body is for a content type with a boundary. */
  function FormOfBody(body: string, b: string): Form
    requires |b| >= 2
  {
    Parts(EndHeader, body, b, Search(body, b, 0))
  }

  /** The parser computes what the lines and parts of the body say, for every body. */
  lemma MultipartIsGrammar(contentType: string, body: string)
    ensures ParseMultipart(contentType, body) ==
      if body == "" then Returned(true, [])
      else if BoundaryOf(contentType).None? then Returned(false, [])
      else Yield(body, FormOfBody(body, BoundaryOf(contentType).value), [], false)
  {
    if body != "" && BoundaryOf(contentType).Some? {
      var b := BoundaryOf(contentType).value;
      var r := Scanner(s => if At(body, b, s) then MultiScan(EndHeader, body, b, s) else Threw([]), EndHeader, body, b);
      assert r.Obeys() && Halts(r);
      PartsRun(r, Loop(PartStart, Search(body, b, 0), EMPTY_PART, [], false));
    }
  }

  // Exceptions.

  lemma {:induction false} YieldThrows(body: string, f: Form, pairs: seq<Field>, found: bool)
    requires forall k | 0 <= k < |f.parts| :: Proper(body, f.parts[k])
    ensures Yield(body, f, pairs, found).Threw? <==> exists k | 0 <= k < |f.parts| :: f.parts[k].Negative()
    decreases |f.parts|
  {
    if f.parts != [] {
      var x, rest := f.parts[0], f.(parts := f.parts[1..]);
      assert Proper(body, x);
      if !x.Negative() {
        YieldThrows(body, rest, if x.Wanted() then pairs + [Field(x.p.fname, Chomp(body[x.from..x.next]))] else pairs,
                    found || x.Wanted());
        assert forall k | 0 <= k < |rest.parts| :: rest.parts[k] == f.parts[k + 1];
        assert forall k | 0 < k < |f.parts| :: f.parts[k] == rest.parts[k - 1];
      }
    }
  }

  /**
   The parser leaves by an exception if and only if the body has a part that is text and has a
   name, and whose blank line, ended by CR LF, is followed by the boundary at once.
   */
  lemma ThrowsExactly(contentType: string, body: string)
    ensures ParseMultipart(contentType, body).Threw?
       <==> (body != "" && BoundaryOf(contentType).Some?
             && var parts := FormOfBody(body, BoundaryOf(contentType).value).parts;
                exists k | 0 <= k < |parts| :: parts[k].Negative())
  {
    MultipartIsGrammar(contentType, body);
    if body != "" && BoundaryOf(contentType).Some? {
      YieldThrows(body, FormOfBody(body, BoundaryOf(contentType).value), [], false);
    }
  }

  /** So no body throws in which no empty line, ended by CR LF, is followed by the boundary. */
  lemma ThrowsOnlyOnEmptyField(contentType: string, body: string)
    requires ParseMultipart(contentType, body).Threw?
    ensures BoundaryOf(contentType).Some? && Contains(body, ['\n', '\r', '\n'] + BoundaryOf(contentType).value)
  {
    ThrowsExactly(contentType, body);
    var b := BoundaryOf(contentType).value;
    var k :| 0 <= k < |FormOfBody(body, b).parts| && FormOfBody(body, b).parts[k].Negative();
    var x := FormOfBody(body, b).parts[k];
    assert Proper(body, x);
    PartNext(EndHeader, body, b, Search(body, b, 0), k);
    SearchFinds(body, b, x.from);
    BoundaryAfterBlank(body, b, x.from);
  }

  lemma BoundaryAfterBlank(body: string, b: string, data: nat)
    requires AfterBlank(body, true, data) && MatchesAt(body, b, data)
    ensures MatchesAt(body, ['\n', '\r', '\n'] + b, data - 3)
  {
    assert body[data - 3..data] == ['\n', '\r', '\n'];
    assert body[data - 3..data + |b|] == body[data - 3..data] + body[data..data + |b|];
  }

  lemma {:induction false} PartNext(eh: Part -> Part, body: string, b: string, i: nat, k: nat)
    requires |b| >= 2 && i <= |body| && (i < |body| ==> i + |b| <= |body|) && k < |Parts(eh, body, b, i).parts|
    ensures var x := Parts(eh, body, b, i).parts[k];
      x.from <= |body| && x.next == Search(body, b, x.from)
    decreases k
  {
    var h := Top(eh, body, i + |b|);
    if k > 0 {
      PartNext(eh, body, b, Search(body, b, h.data), k - 1);
    }
  }
}
