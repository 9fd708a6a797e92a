/**
 The chunked-body machine, `parse_chunks` in src/http_parser.cpp.

 Decoded bytes go to a sink: the payload handler's input when a handler is installed, the
 message's chunk cache otherwise.  Only the cache is limited, by `max`.
 */
module ChunkMachine {
  import opened Bytes
  import opened HeaderMachine

  const LONG_MAX := 0x7fff_ffff_ffff_ffff

  datatype ChunkState =
    | SizeStart | Size | IgnoredText | CRAfterSize | LFAfterSize
    | Data | CRAfterData | LFAfterData | FinalCROrFooters | FinalLF

  /** The parser's own chunk fields. */
  datatype Chunker = Chunker(state: ChunkState, sizeText: string, size: nat, read: nat)

  /** `footers` marks the verdict true that leaves trailer fields to be parsed. */
  datatype ChunkOut = ChunkOut(k: Chunker, sink: string, verdict: Verdict, footers: bool, n: nat) {
    function Plus(j: nat): ChunkOut {
      this.(n := n + j)
    }
  }

  /** `strtol` in base sixteen on hexadecimal digits: it saturates. */
  function Strtol(s: string): (v: nat)
    requires forall c | c in s :: IsHexDigit(c)
    ensures v <= LONG_MAX
  {
    Min(Value(16, s), LONG_MAX)
  }

  predicate SizeTextLive(s: ChunkState) {
    s.Size? || s.IgnoredText? || s.CRAfterSize? || s.LFAfterSize?
  }

  /** The size text is hexadecimal whenever it is going to be read. */
  predicate ValidChunker(k: Chunker) {
    && (SizeTextLive(k.state) ==> forall c | c in k.sizeText :: IsHexDigit(c))
    && (k.state.Data? ==> k.read < k.size)
  }

  predicate IsBlank(c: char) {
    c == ' ' || c == '\t'
  }

  function ChunkGo(k: Chunker, sink: string): ChunkOut {
    ChunkOut(k, sink, More, false, 1)
  }

  function ChunkBad(k: Chunker, sink: string): ChunkOut {
    ChunkOut(k, sink, Fail(ChunkChar), false, 0)
  }

  /** The states of the size line. */
  function SizeStep(k: Chunker, sink: string, c: char): (r: ChunkOut)
    requires ValidChunker(k) && (k.state.SizeStart? || SizeTextLive(k.state))
    ensures ValidChunker(r.k) && r.n <= 1 && (r.verdict.More? <==> r.n == 1)
    ensures !r.verdict.Done? && !r.verdict.Raised?
    ensures r.sink == sink
  {
    match k.state
    case SizeStart =>
      if IsHexDigit(c) then ChunkGo(k.(sizeText := [c], state := Size), sink)
      else if IsBlank(c) || c == '\r' || c == '\n' then ChunkGo(k, sink)
      else ChunkBad(k, sink)
    case Size =>
      if IsHexDigit(c) then ChunkGo(k.(sizeText := k.sizeText + [c]), sink)
      else if c == '\r' then ChunkGo(k.(state := LFAfterSize), sink)
      else if IsBlank(c) then ChunkGo(k.(state := CRAfterSize), sink)
      else if c == ';' then ChunkGo(k.(state := IgnoredText), sink)
      else ChunkBad(k, sink)
    case IgnoredText =>
      ChunkGo(if c == '\r' then k.(state := LFAfterSize) else k, sink)
    case CRAfterSize =>
      if c == '\r' then ChunkGo(k.(state := LFAfterSize), sink)
      else if IsBlank(c) then ChunkGo(k, sink)
      else ChunkBad(k, sink)
    case LFAfterSize =>
      if c == '\n' then
        var size := Strtol(k.sizeText);
        ChunkGo(k.(read := 0, size := size, state := if size == 0 then FinalCROrFooters else Data), sink)
      else ChunkBad(k, sink)
  }

  /** One byte of chunk data: kept when there is a handler or room in the cache. */
  function DataStep(handler: bool, max: nat, k: Chunker, sink: string, c: char): (r: ChunkOut)
    requires ValidChunker(k) && k.state.Data?
    ensures ValidChunker(r.k) && r.n == 1 && r.verdict.More?
  {
    if handler || |sink| < max then
      ChunkGo(k.(read := k.read + 1, state := if k.read + 1 == k.size then CRAfterData else Data), sink + [c])
    else
      ChunkGo(k, sink)  // the cache is full: the byte is dropped and the counter stays
  }

  function ChunkStep(handler: bool, max: nat, k: Chunker, sink: string, c: char): (r: ChunkOut)
    requires ValidChunker(k)
    ensures ValidChunker(r.k) && r.n <= 1 && (r.verdict.More? ==> r.n == 1) && (r.footers ==> r.verdict.Done?)
    ensures !r.verdict.Raised?
    ensures |sink| <= |r.sink|
  {
    match k.state
    case Data => DataStep(handler, max, k, sink, c)
    case CRAfterData => if c == '\r' then ChunkGo(k.(state := LFAfterData), sink) else ChunkBad(k, sink)
    case LFAfterData => if c == '\n' then ChunkGo(k.(state := SizeStart), sink) else ChunkBad(k, sink)
    case FinalCROrFooters =>
      if c == '\r' then ChunkGo(k.(state := FinalLF), sink)
      else ChunkOut(k, sink, Done, true, 0)  // a trailer field starts here; the byte stays unread
    case FinalLF =>
      if c == '\n' then ChunkOut(k, sink, Done, false, 1) else ChunkBad(k, sink)
    case _ => SizeStep(k, sink, c)
  }

  /** `parse_chunks` on the bytes `s`, one byte at a time. */
  function ChunkRun(handler: bool, max: nat, k: Chunker, sink: string, s: string): (r: ChunkOut)
    requires ValidChunker(k)
    ensures ValidChunker(r.k) && r.n <= |s| && (r.verdict.More? ==> r.n == |s|)
    ensures !r.verdict.Raised? && (r.footers ==> r.verdict.Done? && r.n < |s|)
    ensures |sink| <= |r.sink|
    decreases |s|
  {
    if s == [] then ChunkOut(k, sink, More, false, 0)
    else
      var r := ChunkStep(handler, max, k, sink, s[0]);
      if r.verdict.More? then ChunkRun(handler, max, r.k, r.sink, s[1..]).Plus(1) else r
  }

  lemma {:induction false} ChunkRunAppend(handler: bool, max: nat, k: Chunker, sink: string, a: string, b: string)
    requires ValidChunker(k)
    ensures ChunkRun(handler, max, k, sink, a + b) == (
              var r := ChunkRun(handler, max, k, sink, a);
              if r.verdict.More? then ChunkRun(handler, max, r.k, r.sink, b).Plus(|a|) else r)
    decreases |a|
  {
    if a == [] {
      assert a + b == b;
    } else {
      var r := ChunkStep(handler, max, k, sink, a[0]);
      assert (a + b)[0] == a[0] && (a + b)[1..] == a[1..] + b;
      ChunkRunAppend(handler, max, r.k, r.sink, a[1..], b);
    }
  }

  /** The slice the source hands to the payload handler at once, and where it leaves the machine. */
  function TakeData(k: Chunker, len: nat): (r: Chunker)
    requires ValidChunker(k) && k.state.Data? && len <= k.size - k.read
    ensures ValidChunker(r)
  {
    k.(read := k.read + len, state := if k.read + len == k.size then CRAfterData else Data)
  }

  /** A whole slice of chunk data does what its bytes do one after the other. */
  lemma {:induction false} DataSlice(handler: bool, max: nat, k: Chunker, sink: string, a: string)
    requires ValidChunker(k) && k.state.Data? && 0 < |a| <= k.size - k.read
    requires handler || |sink| + |a| <= max
    ensures ChunkRun(handler, max, k, sink, a) == ChunkOut(TakeData(k, |a|), sink + a, More, false, |a|)
    decreases |a|
  {
    var r := ChunkStep(handler, max, k, sink, a[0]);
    assert r == ChunkGo(TakeData(k, 1), sink + [a[0]]);
    if |a| == 1 {
      assert a[1..] == [] && a == [a[0]];
    } else {
      DataSlice(handler, max, r.k, r.sink, a[1..]);
      assert sink + [a[0]] + a[1..] == sink + a;
    }
  }

  lemma DataSliceThen(handler: bool, max: nat, k: Chunker, sink: string, a: string, b: string)
    requires ValidChunker(k) && k.state.Data? && 0 < |a| <= k.size - k.read
    requires handler || |sink| + |a| <= max
    ensures ChunkRun(handler, max, k, sink, a + b) == ChunkRun(handler, max, TakeData(k, |a|), sink + a, b).Plus(|a|)
  {
    DataSlice(handler, max, k, sink, a);
    ChunkRunAppend(handler, max, k, sink, a, b);
  }

  /** Decoded bytes are only ever added at the end. */
  lemma {:induction false} DecodedGrows(handler: bool, max: nat, k: Chunker, sink: string, s: string)
    requires ValidChunker(k)
    ensures sink <= ChunkRun(handler, max, k, sink, s).sink
    decreases |s|
  {
    if s != [] {
      var r := ChunkStep(handler, max, k, sink, s[0]);
      assert sink <= r.sink;
      DecodedGrows(handler, max, r.k, r.sink, s[1..]);
    }
  }

  lemma HandlerStepMatchesCache(max: nat, k: Chunker, cache: string, payload: string, c: char)
    requires ValidChunker(k)
    requires |cache| + |ChunkStep(true, max, k, payload, c).sink| - |payload| <= max
    ensures var x := ChunkStep(true, max, k, payload, c);
      payload <= x.sink && ChunkStep(false, max, k, cache, c) == x.(sink := cache + x.sink[|payload|..])
  {
    if k.state.Data? {
      assert (payload + [c])[|payload|..] == [c];
    } else {
      assert cache + payload[|payload|..] == cache;
    }
  }

  /**
   Within the size limit, handing the body to a handler and caching it are the same parse:
   same verdict, same state, same consumption, and the same decoded bytes.
   */
  lemma {:induction false} HandlerMatchesCache(max: nat, k: Chunker, cache: string, payload: string, s: string)
    requires ValidChunker(k)
    requires |cache| + |ChunkRun(true, max, k, payload, s).sink| - |payload| <= max
    ensures var viaHandler := ChunkRun(true, max, k, payload, s);
      ChunkRun(false, max, k, cache, s) == viaHandler.(sink := cache + viaHandler.sink[|payload|..])
    decreases |s|
  {
    var whole := ChunkRun(true, max, k, payload, s);
    if s == [] {
      assert cache + payload[|payload|..] == cache;
    } else {
      HandlerStepMatchesCache(max, k, cache, payload, s[0]);
      var x := ChunkStep(true, max, k, payload, s[0]);
      if x.verdict.More? {
        var rest := ChunkRun(true, max, x.k, x.sink, s[1..]);
        var kept := cache + x.sink[|payload|..];
        assert whole == rest.Plus(1);
        HandlerMatchesCache(max, x.k, kept, x.sink, s[1..]);
        DecodedGrows(true, max, x.k, x.sink, s[1..]);
        SuffixSplit(payload, x.sink, rest.sink);
        Assoc(cache, x.sink[|payload|..], rest.sink[|x.sink|..]);
      }
    }
  }

  lemma SuffixSplit(a: string, b: string, c: string)
    requires a <= b <= c
    ensures c[|a|..] == b[|a|..] + c[|b|..]
  {
    assert c == b + c[|b|..];
  }

  /** Equality up to fields that are written before they are read. */
  predicate SameChunker(a: Chunker, b: Chunker) {
    && a.state == b.state
    && (SizeTextLive(a.state) ==> a.sizeText == b.sizeText)
    && (a.state.Data? ==> a.size == b.size && a.read == b.read)
  }

  lemma ChunkStepSame(handler: bool, max: nat, a: Chunker, b: Chunker, sink: string, c: char)
    requires ValidChunker(a) && ValidChunker(b) && SameChunker(a, b)
    ensures var x, y := ChunkStep(handler, max, a, sink, c), ChunkStep(handler, max, b, sink, c);
      SameChunker(x.k, y.k) && y == x.(k := y.k)
  {
  }
}
