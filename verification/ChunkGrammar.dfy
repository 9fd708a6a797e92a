/**
 Chunked bodies chunk by chunk, an independent reading of what `parse_chunks` does byte by byte:
 size lines in every accepted spelling, data, and the end of the body.  The two readings agree
 on every input and for every maximum: on the data, on how many bytes are read, on the error, and
 on where the trailers start.
 */
module ChunkGrammar {
  import opened Bytes
  import opened HeaderMachine
  import opened ChunkMachine

  // The digits of a size.

  const LOWER_DIGITS := "0123456789abcdef"
  const UPPER_DIGITS := "0123456789ABCDEF"

  /** The sixteen digits, in either case, and what each one is worth. */
  lemma SixteenDigits(k: nat)
    requires k < 16
    ensures IsHexDigit(LOWER_DIGITS[k]) && DigitValue(LOWER_DIGITS[k]) == k
    ensures IsHexDigit(UPPER_DIGITS[k]) && DigitValue(UPPER_DIGITS[k]) == k
  {
  }

  /** There are no others. */
  lemma NoOtherDigits(c: char)
    requires IsHexDigit(c)
    ensures exists k: nat :: k < 16 && (c == LOWER_DIGITS[k] || c == UPPER_DIGITS[k])
  {
    var k := DigitValue(c);
    assert c == LOWER_DIGITS[k] || c == UPPER_DIGITS[k];
  }

  function LowerText(s: string): (t: string)
    ensures |t| == |s| && forall k | 0 <= k < |s| :: t[k] == Lower(s[k])
  {
    seq(|s|, k requires 0 <= k < |s| => Lower(s[k]))
  }

  /** The case of the digits does not matter. */
  lemma {:induction false} AnyCase(s: string)
    requires forall k | 0 <= k < |s| :: IsHexDigit(s[k])
    ensures forall c | c in LowerText(s) :: IsHexDigit(c)
    ensures Value(16, s) == Value(16, LowerText(s))
  {
    var n := |s| - 1;
    if s != "" {
      AnyCase(s[..n]);
      assert LowerText(s)[..n] == LowerText(s[..n]);
      assert LowerText(s) == LowerText(s[..n]) + [Lower(s[n])];
    }
  }

  /** Nor do zeros in front. */
  lemma {:induction false} LeadingZero(s: string)
    requires forall k | 0 <= k < |s| :: IsHexDigit(s[k])
    ensures Value(16, "0" + s) == Value(16, s)
  {
    var n := |s| - 1;
    if s == "" {
      assert "0" + s == "0" && "0"[..0] == "";
    } else {
      LeadingZero(s[..n]);
      assert ("0" + s)[..n + 1] == "0" + s[..n] && ("0" + s)[n + 1] == s[n];
    }
  }

  // Size lines.

  /** A size line: its digits from `from` to `to`, and where the data starts; or why there is none. */
  datatype Line = Line(from: nat, to: nat, data: nat) | Stop(verdict: Verdict, n: nat)

  predicate IsGap(c: char) {
    IsBlank(c) || c == '\r' || c == '\n'
  }

  predicate NotReturn(c: char) {
    c != '\r'
  }

  /** Blanks and line ends may come first. */
  function SizeLineAt(s: string, i: nat): (r: Line)
    requires i <= |s|
    ensures r.Line? ==> i <= r.from < r.to < r.data <= |s| && forall j | r.from <= j < r.to :: IsHexDigit(s[j])
  {
    var j := Span(s, i, IsGap);
    if j == |s| then Stop(More, j)
    else if !IsHexDigit(s[j]) then Stop(Fail(ChunkChar), j)
    else
      var k := Span(s, j, IsHexDigit);
      var e := AfterDigits(s, k);
      if e.Stop? then e else Line(j, k, e.data)
  }

  /** After the digits: nothing, or blanks, or a semicolon and any text; then CR LF. */
  function AfterDigits(s: string, k: nat): (r: Line)
    requires k <= |s|
    ensures r.Line? ==> k < r.data <= |s|
  {
    if k == |s| then Stop(More, k)
    else if s[k] == '\r' then LineFeed(s, k + 1)
    else if IsBlank(s[k]) then Return(s, Span(s, k, IsBlank))
    else if s[k] == ';' then Return(s, Span(s, k, NotReturn))
    else Stop(Fail(ChunkChar), k)
  }

  /** The CR of a size line. */
  function Return(s: string, e: nat): (r: Line)
    requires e <= |s|
    ensures r.Line? ==> e < r.data <= |s|
  {
    if e == |s| then Stop(More, e) else if s[e] == '\r' then LineFeed(s, e + 1) else Stop(Fail(ChunkChar), e)
  }

  function LineFeed(s: string, e: nat): (r: Line)
    requires e <= |s|
    ensures r.Line? ==> e < r.data <= |s|
  {
    if e == |s| then Stop(More, e) else if s[e] == '\n' then Line(e, e, e + 1) else Stop(Fail(ChunkChar), e)
  }

  // Bodies.

  /** The data read, and the end: the verdict, where the reading stops, and whether trailers start there. */
  datatype Body = Body(sink: string, verdict: Verdict, footers: bool, n: nat)

  /** One chunk: the body ends there, or the next chunk starts at `next`. */
  datatype Turn = Ends(body: Body) | Goes(sink: string, next: nat)

  function OneChunk(handler: bool, max: nat, sink: string, s: string, i: nat): (t: Turn)
    requires i <= |s|
    ensures t.Goes? ==> i < t.next <= |s|
  {
    var line := SizeLineAt(s, i);
    if line.Stop? then Ends(Body(sink, line.verdict, false, line.n))
    else ChunkAt(handler, max, sink, s, Strtol(s[line.from..line.to]), line.data)
  }

  /** The chunk of `size` bytes whose data starts at `d`. */
  function ChunkAt(handler: bool, max: nat, sink: string, s: string, size: nat, d: nat): (t: Turn)
    requires d <= |s|
    ensures t.Goes? ==> d < t.next <= |s|
  {
    if size == 0 then Ends(LastChunk(sink, s, d))
    else if Fits(handler, max, sink, size) && ClosesAt(s, d + size) then Goes(sink + s[d..d + size], d + size + 2)
    else Ends(OpenChunk(handler, max, sink, s, d, size))
  }

  /** The chunks from `i` on, in front of which `sink` was read. */
  function Chunks(handler: bool, max: nat, sink: string, s: string, i: nat): Body
    requires i <= |s|
    decreases |s| - i
  {
    match OneChunk(handler, max, sink, s, i)
    case Ends(body) => body
    case Goes(kept, next) => Chunks(handler, max, kept, s, next)
  }

  predicate Fits(handler: bool, max: nat, sink: string, size: nat) {
    handler || |sink| + size <= max
  }

  predicate ClosesAt(s: string, e: nat) {
    e + 2 <= |s| && s[e] == '\r' && s[e + 1] == '\n'
  }

  /** A chunk that is too long for the cache, not all there, or not closed by CR LF. */
  function OpenChunk(handler: bool, max: nat, sink: string, s: string, d: nat, size: nat): Body
    requires d <= |s| && size > 0 && !(Fits(handler, max, sink, size) && ClosesAt(s, d + size))
  {
    if !Fits(handler, max, sink, size) then
      // what there is room for is kept, and the rest is dropped without end
      Body(sink + s[d..Min(|s|, d + Room(max, |sink|))], More, false, |s|)
    else if |s| <= d + size then Body(sink + s[d..], More, false, |s|)
    else
      var e, kept := d + size, sink + s[d..d + size];
      if s[e] != '\r' then Body(kept, Fail(ChunkChar), false, e)
      else if e + 1 == |s| then Body(kept, More, false, e + 1)
      else Body(kept, Fail(ChunkChar), false, e + 1)
  }

  function Room(max: nat, used: nat): nat {
    if used < max then max - used else 0
  }

  /** After the size line of the last chunk: CR LF ends the body, anything but CR is a trailer. */
  function LastChunk(sink: string, s: string, d: nat): Body
    requires d <= |s|
  {
    if d == |s| then Body(sink, More, false, d)
    else if s[d] != '\r' then Body(sink, Done, true, d)
    else if d + 1 == |s| then Body(sink, More, false, d + 1)
    else if s[d + 1] == '\n' then Body(sink, Done, false, d + 2)
    else Body(sink, Fail(ChunkChar), false, d + 1)
  }

  // The machine reads what the lines say.

  /** A body `s`, and a function that reads it from any of its bytes on as the machine does. */
  datatype Reader = Reader(run: (Chunker, string, nat) -> ChunkOut, handler: bool, max: nat, s: string) {
    ghost predicate Obeys() {
      forall k, sink, i: nat {:trigger Byte(k, sink, i)} :: ValidChunker(k) && i <= |s| ==>
        run(k, sink, i) ==
        if i == |s| then ChunkOut(k, sink, More, false, i)
        else
          var x := ChunkStep(handler, max, k, sink, s[i]);
          if x.verdict.More? then run(x.k, x.sink, i + 1) else x.Plus(i)
    }
  }

  predicate Byte(k: Chunker, sink: string, i: nat) {
    true
  }

  lemma OneByte(r: Reader, k: Chunker, sink: string, i: nat)
    requires r.Obeys() && ValidChunker(k) && i < |r.s|
    ensures r.run(k, sink, i) == (
              var x := ChunkStep(r.handler, r.max, k, sink, r.s[i]);
              if x.verdict.More? then r.run(x.k, x.sink, i + 1) else x.Plus(i))
  {
    assert Byte(k, sink, i);
  }

  lemma AtEnd(r: Reader, k: Chunker, sink: string)
    requires r.Obeys() && ValidChunker(k)
    ensures r.run(k, sink, |r.s|) == ChunkOut(k, sink, More, false, |r.s|)
  {
    assert Byte(k, sink, |r.s|);
  }

  /** The machine behind a size line. */
  function Measured(k: Chunker): (r: Chunker)
    requires forall c | c in k.sizeText :: IsHexDigit(c)
    ensures ValidChunker(r)
  {
    var size := Strtol(k.sizeText);
    k.(read := 0, size := size, state := if size == 0 then FinalCROrFooters else Data)
  }

  /** `o` is what the size line `g` leads to. */
  predicate Follows(r: Reader, o: ChunkOut, k: Chunker, sink: string, g: Line)
    requires forall c | c in k.sizeText :: IsHexDigit(c)
  {
    if g.Stop? then o.verdict == g.verdict && o.n == g.n && o.sink == sink && !o.footers && !o.verdict.Done?
    else o == r.run(Measured(k), sink, g.data)
  }

  /** Bytes on which the machine stays as it is. */
  lemma {:induction false} IdleRun(r: Reader, k: Chunker, sink: string, i: nat, e: nat)
    requires r.Obeys() && ValidChunker(k) && i <= e <= |r.s|
    requires forall j | i <= j < e :: ChunkStep(r.handler, r.max, k, sink, r.s[j]) == ChunkGo(k, sink)
    ensures r.run(k, sink, i) == r.run(k, sink, e)
    decreases e - i
  {
    if i < e {
      OneByte(r, k, sink, i);
      IdleRun(r, k, sink, i + 1, e);
    }
  }

  lemma LineFeedRun(r: Reader, k: Chunker, sink: string, e: nat)
    requires r.Obeys() && ValidChunker(k) && k.state.LFAfterSize? && e <= |r.s|
    ensures Follows(r, r.run(k, sink, e), k, sink, LineFeed(r.s, e))
  {
    if e == |r.s| {
      AtEnd(r, k, sink);
    } else {
      OneByte(r, k, sink, e);
    }
  }

  lemma ReturnRun(r: Reader, k: Chunker, sink: string, e: nat)
    requires r.Obeys() && ValidChunker(k) && e <= |r.s|
    requires k.state.CRAfterSize? || k.state.IgnoredText?
    requires e < |r.s| && r.s[e] != '\r' ==> k.state.CRAfterSize? && !IsBlank(r.s[e])
    ensures Follows(r, r.run(k, sink, e), k, sink, Return(r.s, e))
  {
    if e == |r.s| {
      AtEnd(r, k, sink);
    } else {
      OneByte(r, k, sink, e);
      if r.s[e] == '\r' {
        LineFeedRun(r, k.(state := LFAfterSize), sink, e + 1);
      }
    }
  }

  lemma AfterDigitsRun(r: Reader, k: Chunker, sink: string, e: nat)
    requires r.Obeys() && ValidChunker(k) && k.state.Size? && e <= |r.s| && (e < |r.s| ==> !IsHexDigit(r.s[e]))
    ensures Follows(r, r.run(k, sink, e), k, sink, AfterDigits(r.s, e))
  {
    if e == |r.s| {
      AtEnd(r, k, sink);
    } else {
      OneByte(r, k, sink, e);
      var blanks, text := k.(state := CRAfterSize), k.(state := IgnoredText);
      if r.s[e] == '\r' {
        LineFeedRun(r, k.(state := LFAfterSize), sink, e + 1);
      } else if IsBlank(r.s[e]) {
        var e1 := Span(r.s, e, IsBlank);
        IdleRun(r, blanks, sink, e + 1, e1);
        ReturnRun(r, blanks, sink, e1);
      } else if r.s[e] == ';' {
        var e1 := Span(r.s, e, NotReturn);
        IdleRun(r, text, sink, e + 1, e1);
        ReturnRun(r, text, sink, e1);
      }
    }
  }

  lemma SliceOne(s: string, j: nat)
    requires j < |s|
    ensures s[j..j + 1] == [s[j]]
  {
  }

  lemma SliceSnoc(s: string, j: nat, i: nat)
    requires j <= i < |s|
    ensures s[j..i + 1] == s[j..i] + [s[i]]
  {
  }

  lemma {:induction false} DigitsRun(r: Reader, k: Chunker, sink: string, j: nat, i: nat, e: nat)
    requires r.Obeys() && j < i <= e <= |r.s| && k.state.Size? && k.sizeText == r.s[j..i]
    requires forall o | j <= o < e :: IsHexDigit(r.s[o])
    ensures r.run(k, sink, i) == r.run(k.(sizeText := r.s[j..e]), sink, e)
    decreases e - i
  {
    if i < e {
      OneByte(r, k, sink, i);
      SliceSnoc(r.s, j, i);
      DigitsRun(r, k.(sizeText := r.s[j..i + 1]), sink, j, i + 1, e);
    }
  }

  /** The machine at the end of the digits from `j` to `e`. */
  function AtDigits(k: Chunker, s: string, j: nat, e: nat): (r: Chunker)
    requires j <= e <= |s| && forall o | j <= o < e :: IsHexDigit(s[o])
    ensures ValidChunker(r) && forall c | c in r.sizeText :: IsHexDigit(c)
  {
    k.(state := ChunkState.Size, sizeText := s[j..e])
  }

  lemma SizeLineRun(r: Reader, k: Chunker, sink: string, i: nat)
    requires r.Obeys() && k.state.SizeStart? && i <= |r.s|
    ensures var g := SizeLineAt(r.s, i);
      if g.Stop? then Follows(r, r.run(k, sink, i), k.(sizeText := ""), sink, g)
      else Follows(r, r.run(k, sink, i), AtDigits(k, r.s, g.from, g.to), sink, g)
  {
    var j := Span(r.s, i, IsGap);
    IdleRun(r, k, sink, i, j);
    if j == |r.s| {
      AtEnd(r, k, sink);
    } else {
      OneByte(r, k, sink, j);
      if IsHexDigit(r.s[j]) {
        var e := Span(r.s, j, IsHexDigit);
        SliceOne(r.s, j);
        DigitsRun(r, AtDigits(k, r.s, j, j + 1), sink, j, j + 1, e);
        AfterDigitsRun(r, AtDigits(k, r.s, j, e), sink, e);
      }
    }
  }

  /** Data that is kept, by the handler or in the cache. */
  lemma {:induction false} DataRun(r: Reader, k: Chunker, sink: string, d: nat, i: nat, e: nat)
    requires r.Obeys() && ValidChunker(k) && k.state.Data? && d <= i < e <= |r.s| && e - i <= k.size - k.read
    requires r.handler || |sink| + (e - d) <= r.max
    ensures r.run(k, sink + r.s[d..i], i) == r.run(TakeData(k, e - i), sink + r.s[d..e], e)
    decreases e - i
  {
    OneByte(r, k, sink + r.s[d..i], i);
    SliceSnoc(r.s, d, i);
    Assoc(sink, r.s[d..i], [r.s[i]]);
    if i + 1 < e {
      DataRun(r, TakeData(k, 1), sink, d, i + 1, e);
    }
  }

  /** What a reading of a body from some byte on comes to. */
  predicate Agrees(o: ChunkOut, b: Body) {
    o.sink == b.sink && o.verdict == b.verdict && o.footers == b.footers && o.n == b.n
  }

  lemma LastChunkRun(r: Reader, k: Chunker, sink: string, d: nat)
    requires r.Obeys() && k.state.FinalCROrFooters? && d <= |r.s|
    ensures Agrees(r.run(k, sink, d), LastChunk(sink, r.s, d))
  {
    if d == |r.s| {
      AtEnd(r, k, sink);
    } else {
      OneByte(r, k, sink, d);
      if r.s[d] == '\r' {
        var k1 := k.(state := FinalLF);
        if d + 1 == |r.s| {
          AtEnd(r, k1, sink);
        } else {
          OneByte(r, k1, sink, d + 1);
        }
      }
    }
  }

  /** The data from `d` to `e`, as much of the chunk as there is. */
  lemma FromData(r: Reader, k: Chunker, sink: string, d: nat, e: nat)
    requires r.Obeys() && ValidChunker(k) && k.state.Data? && d <= e <= |r.s| && e - d <= k.size - k.read
    requires r.handler || |sink| + (e - d) <= r.max
    ensures r.run(k, sink, d) == r.run(TakeData(k, e - d), sink + r.s[d..e], e)
  {
    assert sink + r.s[d..d] == sink;
    if d < e {
      DataRun(r, k, sink, d, d, e);
    }
  }

  lemma DroppedRun(r: Reader, k: Chunker, sink: string, d: nat)
    requires r.Obeys() && ValidChunker(k) && k.state.Data? && k.read == 0 && d <= |r.s|
    requires !r.handler && |sink| + k.size > r.max
    ensures Agrees(r.run(k, sink, d), Body(sink + r.s[d..Min(|r.s|, d + Room(r.max, |sink|))], More, false, |r.s|))
  {
    var e := Min(|r.s|, d + Room(r.max, |sink|));
    var k1, kept := TakeData(k, e - d), sink + r.s[d..e];
    if r.max < |sink| {
      assert kept == sink;
    } else {
      FromData(r, k, sink, d, e);
    }
    if e < |r.s| {
      IdleRun(r, k1, kept, e, |r.s|);
    }
    AtEnd(r, k1, kept);
  }

  /** A chunk that is not all there. */
  lemma CutRun(r: Reader, k: Chunker, sink: string, d: nat)
    requires r.Obeys() && ValidChunker(k) && k.state.Data? && k.read == 0 && d <= |r.s| <= d + k.size
    requires r.handler || |sink| + k.size <= r.max
    ensures Agrees(r.run(k, sink, d), Body(sink + r.s[d..], More, false, |r.s|))
  {
    FromData(r, k, sink, d, |r.s|);
    AtEnd(r, TakeData(k, |r.s| - d), sink + r.s[d..|r.s|]);
    assert r.s[d..|r.s|] == r.s[d..];
  }

  /** A whole chunk, and the CR and LF behind it. */
  lemma ClosedChunkRun(r: Reader, k: Chunker, sink: string, d: nat)
    requires r.Obeys() && ValidChunker(k) && k.state.Data? && k.read == 0
    requires Fits(r.handler, r.max, sink, k.size) && ClosesAt(r.s, d + k.size)
    ensures r.run(k, sink, d) ==
            r.run(k.(state := SizeStart, read := k.size), sink + r.s[d..d + k.size], d + k.size + 2)
  {
    var e, kept := d + k.size, sink + r.s[d..d + k.size];
    FromData(r, k, sink, d, e);
    OneByte(r, TakeData(k, k.size), kept, e);
    OneByte(r, TakeData(k, k.size).(state := LFAfterData), kept, e + 1);
  }

  lemma OpenChunkRun(r: Reader, k: Chunker, sink: string, d: nat)
    requires r.Obeys() && ValidChunker(k) && k.state.Data? && k.read == 0 && d <= |r.s|
    requires !(Fits(r.handler, r.max, sink, k.size) && ClosesAt(r.s, d + k.size))
    ensures Agrees(r.run(k, sink, d), OpenChunk(r.handler, r.max, sink, r.s, d, k.size))
  {
    if !Fits(r.handler, r.max, sink, k.size) {
      DroppedRun(r, k, sink, d);
    } else if |r.s| <= d + k.size {
      CutRun(r, k, sink, d);
    } else {
      UnclosedRun(r, k, sink, d);
    }
  }

  lemma UnclosedRun(r: Reader, k: Chunker, sink: string, d: nat)
    requires r.Obeys() && ValidChunker(k) && k.state.Data? && k.read == 0 && d + k.size < |r.s|
    requires Fits(r.handler, r.max, sink, k.size) && !ClosesAt(r.s, d + k.size)
    ensures Agrees(r.run(k, sink, d), OpenChunk(r.handler, r.max, sink, r.s, d, k.size))
  {
    var e, kept := d + k.size, sink + r.s[d..d + k.size];
    FromData(r, k, sink, d, e);
    var k1 := TakeData(k, k.size);
    OneByte(r, k1, kept, e);
    if r.s[e] == '\r' {
      var k2 := k1.(state := LFAfterData);
      if e + 1 == |r.s| {
        AtEnd(r, k2, kept);
      } else {
        OneByte(r, k2, kept, e + 1);
      }
    }
  }

  /** A size line, and the machine `k1` behind it. */
  lemma MeasuredRun(r: Reader, k: Chunker, sink: string, i: nat) returns (k1: Chunker)
    requires r.Obeys() && k.state.SizeStart? && i <= |r.s|
    ensures ValidChunker(k1)
    ensures var g, o := SizeLineAt(r.s, i), r.run(k, sink, i);
      if g.Stop? then Agrees(o, Body(sink, g.verdict, false, g.n))
      else o == r.run(k1, sink, g.data) && k1.size == Strtol(r.s[g.from..g.to]) && k1.read == 0
           && (if k1.size == 0 then k1.state.FinalCROrFooters? else k1.state.Data?)
  {
    SizeLineRun(r, k, sink, i);
    var g := SizeLineAt(r.s, i);
    k1 := if g.Line? then Measured(AtDigits(k, r.s, g.from, g.to)) else k;
  }

  /** The turn `t` is what a run comes to: its body, or a run behind it from a machine like `k`. */
  predicate Turns(r: Reader, o: ChunkOut, k: Chunker, t: Turn) {
    match t
    case Ends(body) => Agrees(o, body)
    case Goes(kept, next) => o == r.run(k.(state := SizeStart, read := k.size), kept, next)
  }

  lemma ChunkAtRun(r: Reader, k: Chunker, sink: string, d: nat)
    requires r.Obeys() && ValidChunker(k) && k.read == 0 && d <= |r.s|
    requires if k.size == 0 then k.state.FinalCROrFooters? else k.state.Data?
    ensures Turns(r, r.run(k, sink, d), k, ChunkAt(r.handler, r.max, sink, r.s, k.size, d))
  {
    if k.size == 0 {
      LastChunkRun(r, k, sink, d);
    } else if Fits(r.handler, r.max, sink, k.size) && ClosesAt(r.s, d + k.size) {
      ClosedChunkRun(r, k, sink, d);
    } else {
      OpenChunkRun(r, k, sink, d);
    }
  }

  lemma OneChunkRun(r: Reader, k: Chunker, sink: string, i: nat) returns (k1: Chunker)
    requires r.Obeys() && k.state.SizeStart? && i <= |r.s|
    ensures Turns(r, r.run(k, sink, i), k1, OneChunk(r.handler, r.max, sink, r.s, i))
  {
    k1 := MeasuredRun(r, k, sink, i);
    var g := SizeLineAt(r.s, i);
    if g.Line? {
      ChunkAtRun(r, k1, sink, g.data);
    }
  }

  lemma {:induction false} ChunksRun(r: Reader, k: Chunker, sink: string, i: nat)
    requires r.Obeys() && k.state.SizeStart? && i <= |r.s|
    ensures Agrees(r.run(k, sink, i), Chunks(r.handler, r.max, sink, r.s, i))
    decreases |r.s| - i
  {
    var k1 := OneChunkRun(r, k, sink, i);
    var t := OneChunk(r.handler, r.max, sink, r.s, i);
    if t.Goes? {
      ChunksRun(r, k1.(state := SizeStart, read := k1.size), t.sink, t.next);
    }
  }

  lemma RunObeys(handler: bool, max: nat, s: string) returns (r: Reader)
    ensures r.Obeys() && r.s == s && r.handler == handler && r.max == max
    ensures forall k, sink | ValidChunker(k) :: r.run(k, sink, 0) == ChunkRun(handler, max, k, sink, s)
  {
    r := Reader((k: Chunker, sink: string, i: nat) =>
                  if i <= |s| && ValidChunker(k) then ChunkRun(handler, max, k, sink, s[i..]).Plus(i)
                  else ChunkOut(k, sink, More, false, i), handler, max, s);
    forall k, sink, i: nat | ValidChunker(k) && i <= |s|
      ensures r.run(k, sink, i) ==
        if i == |s| then ChunkOut(k, sink, More, false, i)
        else
          var x := ChunkStep(handler, max, k, sink, s[i]);
          if x.verdict.More? then r.run(x.k, x.sink, i + 1) else x.Plus(i)
    {
      if i < |s| {
        assert s[i..][0] == s[i] && s[i..][1..] == s[i + 1..];
      }
    }
    assert s[0..] == s;
  }

  /**
   For every input, with or without a handler and for every maximum: the machine decodes the data
   of the chunks, and ends as they do, after the same number of bytes.
   */
  lemma ChunksAreGrammar(handler: bool, max: nat, k: Chunker, sink: string, s: string)
    requires k.state.SizeStart?
    ensures Agrees(ChunkRun(handler, max, k, sink, s), Chunks(handler, max, sink, s, 0))
  {
    var r := RunObeys(handler, max, s);
    ChunksRun(r, k, sink, 0);
  }

  // Every accepted spelling of a size line.

  lemma {:induction false} SpanEnds(s: string, i: nat, p: char -> bool, k: nat)
    requires i <= k <= |s| && (forall j | i <= j < k :: p(s[j])) && (k < |s| ==> !p(s[k]))
    ensures Span(s, i, p) == k
    decreases k - i
  {
    if i < k {
      SpanEnds(s, i + 1, p, k);
    }
  }

  /** What may stand between the digits and the CR: blanks, or a semicolon and any text. */
  predicate IsTail(t: string) {
    || (forall k | 0 <= k < |t| :: IsBlank(t[k]))
    || (t != "" && t[0] == ';' && forall k | 0 <= k < |t| :: t[k] != '\r')
  }

  lemma TailEnds(s: string, e: nat, t: string)
    requires IsTail(t) && e + |t| + 2 == |s| && s[e..] == t + CRLF
    ensures AfterDigits(s, e) == Line(|s| - 1, |s| - 1, |s|)
  {
    var n := e + |t|;
    assert s[e..][|t|] == s[n] == '\r' && s[e..][|t| + 1] == s[n + 1] == '\n';
    forall j | e <= j < n ensures s[j] == t[j - e] {
      assert s[e..][j - e] == s[j];
    }
    if t != "" {
      if IsBlank(t[0]) {
        SpanEnds(s, e, IsBlank, n);
      } else {
        SpanEnds(s, e, NotReturn, n);
      }
    }
  }

  lemma SpelledLine(gap: string, digits: string, tail: string)
    requires forall k | 0 <= k < |gap| :: IsGap(gap[k])
    requires digits != "" && (forall k | 0 <= k < |digits| :: IsHexDigit(digits[k])) && IsTail(tail)
    ensures var s := gap + (digits + (tail + CRLF));
      SizeLineAt(s, 0) == Line(|gap|, |gap| + |digits|, |s|) && s[|gap|..|gap| + |digits|] == digits
  {
    var s, j, e := gap + (digits + (tail + CRLF)), |gap|, |gap| + |digits|;
    SpanEnds(s, 0, IsGap, j);
    assert s[e..] == tail + CRLF;
    assert s[e] == (tail + CRLF)[0];
    forall o | j <= o < e ensures s[o] == digits[o - j] {
    }
    SpanEnds(s, j, IsHexDigit, e);
    TailEnds(s, e, tail);
  }

  /** A text that is a size line and no more. */
  lemma JustALine(handler: bool, max: nat, k: Chunker, sink: string, s: string, g: Line)
    requires k.state.SizeStart? && g == SizeLineAt(s, 0) && g.Line? && g.data == |s|
    ensures var o := ChunkRun(handler, max, k, sink, s);
      && o.verdict == More && o.sink == sink && o.k.size == Strtol(s[g.from..g.to]) && o.k.read == 0
      && (if o.k.size == 0 then o.k.state.FinalCROrFooters? else o.k.state.Data?)
  {
    var r := RunObeys(handler, max, s);
    var k1 := MeasuredRun(r, k, sink, 0);
    AtEnd(r, k1, sink);
  }

  /**
   Blanks and line ends, digits in either case, and blanks or a semicolon with any text: whatever
   the spelling, the machine is behind the size line of a chunk of the number denoted.
   */
  lemma AnySizeLine(handler: bool, max: nat, k: Chunker, sink: string, gap: string, digits: string, tail: string)
    requires k.state.SizeStart? && forall j | 0 <= j < |gap| :: IsGap(gap[j])
    requires digits != "" && (forall j | 0 <= j < |digits| :: IsHexDigit(digits[j])) && IsTail(tail)
    ensures var o := ChunkRun(handler, max, k, sink, gap + (digits + (tail + CRLF)));
      && o.verdict == More && o.sink == sink && o.k.size == Min(Value(16, digits), LONG_MAX) && o.k.read == 0
      && (if o.k.size == 0 then o.k.state.FinalCROrFooters? else o.k.state.Data?)
  {
    var s := gap + (digits + (tail + CRLF));
    SpelledLine(gap, digits, tail);
    JustALine(handler, max, k, sink, s, SizeLineAt(s, 0));
  }
}
