/**
 The chunked transfer coding (section 4.1 of RFC 7230): what `http_response_writer` emits for
 a list of sends, and decoding it with the chunk machine.
 */
module ChunkText {
  import opened Bytes
  import opened HeaderMachine
  import opened ChunkMachine

  /** A size line. */
  function SizeLine(n: nat): string {
    Digits(16, n) + CRLF
  }

  /** One send: nothing when there is no data, so an empty send never ends the body. */
  function Frame(data: string): string {
    if data == "" then "" else SizeLine(|data|) + (data + CRLF)
  }

  function Frames(sends: seq<string>): string {
    if sends == [] then "" else Frame(sends[0]) + Frames(sends[1..])
  }

  /** The body of a whole chunked message. */
  function ChunkedText(sends: seq<string>): string {
    Frames(sends) + (SizeLine(0) + CRLF)
  }

  predicate Sendable(sends: seq<string>) {
    forall d | d in sends :: |d| <= LONG_MAX
  }

  /** `t` takes the machine from one state to another without a verdict. */
  predicate ChunkReads(handler: bool, max: nat, k: Chunker, sink: string, t: string, k': Chunker, sink': string) {
    ValidChunker(k) && ValidChunker(k') && ChunkRun(handler, max, k, sink, t) == ChunkOut(k', sink', More, false, |t|)
  }

  lemma ChunkReadsThen(handler: bool, max: nat, k: Chunker, sink: string, a: string, k': Chunker, sink': string,
                       b: string)
    requires ChunkReads(handler, max, k, sink, a, k', sink')
    ensures ChunkRun(handler, max, k, sink, a + b) == ChunkRun(handler, max, k', sink', b).Plus(|a|)
  {
    ChunkRunAppend(handler, max, k, sink, a, b);
  }

  lemma ChunkReadsBoth(handler: bool, max: nat, k: Chunker, sink: string, a: string, k1: Chunker, sink1: string,
                       b: string, k2: Chunker, sink2: string)
    requires ChunkReads(handler, max, k, sink, a, k1, sink1) && ChunkReads(handler, max, k1, sink1, b, k2, sink2)
    ensures ChunkReads(handler, max, k, sink, a + b, k2, sink2)
  {
    ChunkRunAppend(handler, max, k, sink, a, b);
  }

  lemma ChunkReadsOne(handler: bool, max: nat, k: Chunker, sink: string, c: char)
    requires ValidChunker(k) && ChunkStep(handler, max, k, sink, c).verdict.More?
    ensures var r := ChunkStep(handler, max, k, sink, c);
      ChunkReads(handler, max, k, sink, [c], r.k, r.sink)
  {
    assert [c][1..] == [];
  }

  lemma {:induction false} ReadDigits(handler: bool, max: nat, k: Chunker, sink: string, t: string)
    requires ValidChunker(k) && k.state.Size? && forall c | c in t :: IsHexDigit(c)
    ensures ChunkReads(handler, max, k, sink, t, k.(sizeText := k.sizeText + t), sink)
    decreases |t|
  {
    if t == "" {
      assert k.sizeText + t == k.sizeText;
    } else {
      ReadDigits(handler, max, k.(sizeText := k.sizeText + [t[0]]), sink, t[1..]);
      assert k.sizeText + [t[0]] + t[1..] == k.sizeText + t;
    }
  }

  /** The machine after the size line of a chunk of `n` bytes. */
  function Sized(n: nat): Chunker {
    Chunker(if n == 0 then FinalCROrFooters else Data, Digits(16, n), n, 0)
  }

  lemma ReadSizeDigits(handler: bool, max: nat, k: Chunker, sink: string, n: nat)
    requires k.state.SizeStart?
    ensures ChunkReads(handler, max, k, sink, Digits(16, n), k.(state := Size, sizeText := Digits(16, n)), sink)
  {
    var ds := Digits(16, n);
    var k1 := k.(state := Size, sizeText := [ds[0]]);
    assert ds[0] in ds && forall c | c in ds[1..] :: c in ds;
    assert [ds[0]] + ds[1..] == ds;
    ChunkReadsOne(handler, max, k, sink, ds[0]);
    ReadDigits(handler, max, k1, sink, ds[1..]);
    ChunkReadsBoth(handler, max, k, sink, [ds[0]], k1, sink, ds[1..], k1.(sizeText := ds), sink);
  }

  lemma ReadSizeEnd(handler: bool, max: nat, k: Chunker, sink: string, n: nat)
    requires k.state.Size? && k.sizeText == Digits(16, n) && n <= LONG_MAX
    ensures ChunkReads(handler, max, k, sink, CRLF, Sized(n), sink)
  {
    var k1 := k.(state := LFAfterSize);
    ValueOfDigits(16, n);
    ChunkReadsOne(handler, max, k, sink, '\r');
    ChunkReadsOne(handler, max, k1, sink, '\n');
    ChunkReadsBoth(handler, max, k, sink, ['\r'], k1, sink, ['\n'], Sized(n), sink);
    assert ['\r'] + ['\n'] == CRLF;
  }

  lemma ReadSizeLine(handler: bool, max: nat, k: Chunker, sink: string, n: nat)
    requires k.state.SizeStart? && n <= LONG_MAX
    ensures ChunkReads(handler, max, k, sink, SizeLine(n), Sized(n), sink)
  {
    var k1 := k.(state := Size, sizeText := Digits(16, n));
    ReadSizeDigits(handler, max, k, sink, n);
    ReadSizeEnd(handler, max, k1, sink, n);
    ChunkReadsBoth(handler, max, k, sink, Digits(16, n), k1, sink, CRLF, Sized(n), sink);
  }

  /** The machine after a whole chunk of `n` bytes. */
  function Closed(n: nat): Chunker {
    Chunker(SizeStart, Digits(16, n), n, n)
  }

  /** The data of a chunk, after its size line. */
  lemma ReadData(handler: bool, max: nat, sink: string, data: string)
    requires 0 < |data| && (handler || |sink| + |data| <= max)
    ensures ChunkReads(handler, max, Sized(|data|), sink, data, Closed(|data|).(state := CRAfterData), sink + data)
  {
    DataSlice(handler, max, Sized(|data|), sink, data);
    assert TakeData(Sized(|data|), |data|) == Closed(|data|).(state := CRAfterData);
  }

  /** The line end after the data of a chunk of `n` bytes. */
  lemma ReadDataEnd(handler: bool, max: nat, sink: string, n: nat)
    ensures ChunkReads(handler, max, Closed(n).(state := CRAfterData), sink, CRLF, Closed(n), sink)
  {
    var k := Closed(n);
    ChunkReadsOne(handler, max, k.(state := CRAfterData), sink, '\r');
    ChunkReadsOne(handler, max, k.(state := LFAfterData), sink, '\n');
    ChunkReadsBoth(handler, max, k.(state := CRAfterData), sink, ['\r'], k.(state := LFAfterData), sink,
                   ['\n'], k, sink);
    assert ['\r'] + ['\n'] == CRLF;
  }

  lemma ReadFrame(handler: bool, max: nat, k: Chunker, sink: string, data: string)
    requires k.state.SizeStart? && 0 < |data| <= LONG_MAX && (handler || |sink| + |data| <= max)
    ensures ChunkReads(handler, max, k, sink, Frame(data), Closed(|data|), sink + data)
  {
    var n := |data|;
    var k1, k2, k3 := Sized(n), Closed(n).(state := CRAfterData), Closed(n);
    ReadSizeLine(handler, max, k, sink, n);
    ReadData(handler, max, sink, data);
    ReadDataEnd(handler, max, sink + data, n);
    ChunkReadsBoth(handler, max, k1, sink, data, k2, sink + data, CRLF, k3, sink + data);
    ChunkReadsBoth(handler, max, k, sink, SizeLine(n), k1, sink, data + CRLF, k3, sink + data);
  }

  lemma {:induction false} ReadFrames(handler: bool, max: nat, k: Chunker, sink: string,
                                      sends: seq<string>) returns (k': Chunker)
    requires k.state.SizeStart? && Sendable(sends) && (handler || |sink| + |Flatten(sends)| <= max)
    ensures k'.state.SizeStart? && ChunkReads(handler, max, k, sink, Frames(sends), k', sink + Flatten(sends))
    decreases |sends|
  {
    if sends == [] {
      k' := k;
      assert sink + Flatten(sends) == sink;
    } else {
      var d, rest := sends[0], sends[1..];
      assert d in sends && forall x | x in rest :: x in sends;
      if d == "" {
        k' := ReadFrames(handler, max, k, sink, rest);
        assert "" + Frames(rest) == Frames(rest) && d + Flatten(rest) == Flatten(rest);
      } else {
        ReadFrame(handler, max, k, sink, d);
        k' := ReadFrames(handler, max, Closed(|d|), sink + d, rest);
        Assoc(sink, d, Flatten(rest));
        ChunkReadsBoth(handler, max, k, sink, Frame(d), Closed(|d|), sink + d, Frames(rest), k', sink + Flatten(sends));
      }
    }
  }

  /** All sends and the zero-size line. */
  lemma ReadToLastChunk(handler: bool, max: nat, k: Chunker, sink: string, sends: seq<string>)
    requires k.state.SizeStart? && Sendable(sends) && (handler || |sink| + |Flatten(sends)| <= max)
    ensures ChunkReads(handler, max, k, sink, Frames(sends) + SizeLine(0), Sized(0), sink + Flatten(sends))
  {
    var k1 := ReadFrames(handler, max, k, sink, sends);
    var data := sink + Flatten(sends);
    ReadSizeLine(handler, max, k1, data, 0);
    ChunkReadsBoth(handler, max, k, sink, Frames(sends), k1, data, SizeLine(0), Sized(0), data);
  }

  /**
   Round trip: decoding the body of any list of sends, followed by anything, yields exactly
   the data sent and stops right after the final CRLF.
   */
  lemma ChunkedRoundTrip(handler: bool, max: nat, k: Chunker, sink: string, sends: seq<string>, rest: string)
    requires k.state.SizeStart? && Sendable(sends) && (handler || |sink| + |Flatten(sends)| <= max)
    ensures ChunkRun(handler, max, k, sink, ChunkedText(sends) + rest)
         == ChunkOut(Sized(0).(state := FinalLF), sink + Flatten(sends), Done, false, |ChunkedText(sends)|)
  {
    var data, top := sink + Flatten(sends), Frames(sends) + SizeLine(0);
    ReadToLastChunk(handler, max, k, sink, sends);
    ReadFinalCRLF(handler, max, Sized(0), data, rest);
    ChunkReadsThen(handler, max, k, sink, top, Sized(0), data, CRLF + rest);
    Assoc(Frames(sends), SizeLine(0), CRLF);
    Assoc(top, CRLF, rest);
  }

  lemma ReadFinalCRLF(handler: bool, max: nat, k: Chunker, sink: string, rest: string)
    requires k.state.FinalCROrFooters?
    ensures ChunkRun(handler, max, k, sink, CRLF + rest) == ChunkOut(k.(state := FinalLF), sink, Done, false, 2)
  {
    var k1 := k.(state := FinalLF);
    ChunkReadsOne(handler, max, k, sink, '\r');
    ChunkReadsThen(handler, max, k, sink, ['\r'], k1, sink, ['\n'] + rest);
    assert ChunkRun(handler, max, k1, sink, ['\n'] + rest) == ChunkOut(k1, sink, Done, false, 1);
    assert CRLF + rest == ['\r'] + (['\n'] + rest);
  }

  /** With trailer fields after the last chunk, decoding stops before their first byte. */
  lemma ChunkedThenTrailers(handler: bool, max: nat, k: Chunker, sink: string, sends: seq<string>, rest: string)
    requires k.state.SizeStart? && Sendable(sends) && (handler || |sink| + |Flatten(sends)| <= max)
    requires rest != "" && rest[0] != '\r'
    ensures ChunkRun(handler, max, k, sink, Frames(sends) + SizeLine(0) + rest)
         == ChunkOut(Sized(0), sink + Flatten(sends), Done, true, |Frames(sends) + SizeLine(0)|)
  {
    ReadToLastChunk(handler, max, k, sink, sends);
    ReadTrailerStart(handler, max, Sized(0), sink + Flatten(sends), rest);
    ChunkReadsThen(handler, max, k, sink, Frames(sends) + SizeLine(0), Sized(0), sink + Flatten(sends), rest);
  }

  lemma ReadTrailerStart(handler: bool, max: nat, k: Chunker, sink: string, rest: string)
    requires k.state.FinalCROrFooters? && rest != "" && rest[0] != '\r'
    ensures ChunkRun(handler, max, k, sink, rest) == ChunkOut(k, sink, Done, true, 0)
  {
  }

  /** How a chunk looks. */
  lemma PrintedChunk()
    ensures Frame("ab") == "2\r\nab\r\n"
  {
    assert Digits(16, 2) == "2";
  }
}
