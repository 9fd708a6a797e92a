/**
 When a chunked body can still be completed.  With a payload handler it always can.  Without
 one, bytes over the maximum are dropped without being counted, so a chunk that does not fit
 never ends: decoding works exactly up to the maximum.
 */
module ChunkLimits {
  import opened Bytes
  import opened ChunkMachine
  import opened ChunkText

  /** The data bytes the current chunk has still to bring. */
  function Outstanding(k: Chunker): nat
    requires ValidChunker(k)
  {
    if k.state.Data? then k.size - k.read else if SizeTextLive(k.state) then Strtol(k.sizeText) else 0
  }

  predicate Completable(handler: bool, max: nat, k: Chunker, sink: string)
    requires ValidChunker(k)
  {
    handler || Outstanding(k) == 0 || |sink| + Outstanding(k) <= max
  }

  lemma MoreDigits(s: string, c: char)
    requires (forall d | d in s :: IsHexDigit(d)) && IsHexDigit(c)
    ensures (forall d | d in s + [c] :: IsHexDigit(d)) && Strtol(s) <= Strtol(s + [c])
  {
    assert (s + [c])[..|s|] == s;
  }

  lemma StaysStuck(max: nat, k: Chunker, sink: string, c: char)
    requires ValidChunker(k) && !Completable(false, max, k, sink)
    ensures var r := ChunkStep(false, max, k, sink, c);
      !r.verdict.Done? && (r.verdict.More? ==> !Completable(false, max, r.k, r.sink))
  {
    if k.state.Size? && IsHexDigit(c) {
      MoreDigits(k.sizeText, c);
    }
  }

  lemma {:induction false} NeverCompletes(max: nat, k: Chunker, sink: string, s: string)
    requires ValidChunker(k) && !Completable(false, max, k, sink)
    ensures !ChunkRun(false, max, k, sink, s).verdict.Done?
    decreases |s|
  {
    if s != [] {
      StaysStuck(max, k, sink, s[0]);
      var r := ChunkStep(false, max, k, sink, s[0]);
      if r.verdict.More? {
        NeverCompletes(max, r.k, r.sink, s[1..]);
      }
    }
  }

  /** A byte that leads from each state towards the end of the body; data is skipped at once. */
  function TowardsEnd(s: ChunkState): char {
    match s
    case SizeStart => '0'
    case LFAfterSize => '\n'
    case LFAfterData => '\n'
    case FinalLF => '\n'
    case _ => '\r'
  }

  function Distance(k: Chunker): nat
    requires ValidChunker(k)
  {
    match k.state
    case FinalLF => 0
    case FinalCROrFooters => 1
    case SizeStart => 5
    case LFAfterData => 6
    case CRAfterData => 7
    case Data => 8
    case LFAfterSize => if Outstanding(k) == 0 then 2 else 9
    case _ => if Outstanding(k) == 0 then 3 else 10
  }

  lemma ZeroSize()
    ensures Value(16, ['0']) == 0
  {
    assert ['0'][..0] == [];
  }

  lemma {:induction false} Completes(handler: bool, max: nat, k: Chunker, sink: string) returns (t: string)
    requires ValidChunker(k) && Completable(handler, max, k, sink)
    ensures ChunkRun(handler, max, k, sink, t).verdict.Done?
    decreases Distance(k)
  {
    if k.state.Data? {
      var data := seq(k.size - k.read, _ => 'x');
      var u := Completes(handler, max, TakeData(k, |data|), sink + data);
      DataSliceThen(handler, max, k, sink, data, u);
      t := data + u;
    } else {
      ZeroSize();
      var c := TowardsEnd(k.state);
      var r := ChunkStep(handler, max, k, sink, c);
      if r.verdict.More? {
        var u := Completes(handler, max, r.k, r.sink);
        t := [c] + u;
        assert t[0] == c && t[1..] == u;
      } else {
        t := [c];
      }
    }
  }

  /** Some input completes the body exactly when the current chunk fits. */
  lemma CompletableExactly(handler: bool, max: nat, k: Chunker, sink: string)
    requires ValidChunker(k)
    ensures Completable(handler, max, k, sink) <==> exists t :: ChunkRun(handler, max, k, sink, t).verdict.Done?
  {
    if Completable(handler, max, k, sink) {
      var t := Completes(handler, max, k, sink);
    } else {
      forall t ensures !ChunkRun(handler, max, k, sink, t).verdict.Done? {
        NeverCompletes(max, k, sink, t);
      }
    }
  }

  lemma FrameTooLong(max: nat, k: Chunker, sink: string, data: string, rest: string)
    requires k.state.SizeStart? && 0 < |data| <= LONG_MAX && |sink| + |data| > max
    ensures !ChunkRun(false, max, k, sink, Frame(data) + rest).verdict.Done?
  {
    var n := |data|;
    ReadSizeLine(false, max, k, sink, n);
    Assoc(SizeLine(n), data + CRLF, rest);
    ChunkReadsThen(false, max, k, sink, SizeLine(n), Sized(n), sink, (data + CRLF) + rest);
    NeverCompletes(max, Sized(n), sink, (data + CRLF) + rest);
  }

  /** Frames that bring more data than the maximum: whatever follows, the body never completes. */
  lemma {:induction false} FramesTooLong(max: nat, k: Chunker, sink: string, sends: seq<string>, rest: string)
    requires k.state.SizeStart? && Sendable(sends) && |sink| <= max < |sink| + |Flatten(sends)|
    ensures !ChunkRun(false, max, k, sink, Frames(sends) + rest).verdict.Done?
    decreases |sends|
  {
    var d, tail := sends[0], Frames(sends[1..]) + rest;
    assert d in sends && forall x | x in sends[1..] :: x in sends;
    Assoc(Frame(d), Frames(sends[1..]), rest);
    if d == "" {
      assert "" + tail == tail;
      FramesTooLong(max, k, sink, sends[1..], rest);
    } else if |sink| + |d| > max {
      FrameTooLong(max, k, sink, d, tail);
    } else {
      ReadFrame(false, max, k, sink, d);
      ChunkReadsThen(false, max, k, sink, Frame(d), Closed(|d|), sink + d, tail);
      FramesTooLong(max, Closed(|d|), sink + d, sends[1..], rest);
    }
  }

  /** Without a handler, a printed chunked body decodes exactly when its data fits the maximum. */
  lemma DecodesExactlyWithinMax(max: nat, k: Chunker, sink: string, sends: seq<string>, rest: string)
    requires k.state.SizeStart? && Sendable(sends) && |sink| <= max
    ensures ChunkRun(false, max, k, sink, ChunkedText(sends) + rest).verdict.Done? <==> |sink| + |Flatten(sends)| <= max
  {
    if |sink| + |Flatten(sends)| <= max {
      ChunkedRoundTrip(false, max, k, sink, sends, rest);
    } else {
      Assoc(Frames(sends), SizeLine(0) + CRLF, rest);
      FramesTooLong(max, k, sink, sends, SizeLine(0) + CRLF + rest);
    }
  }
}
