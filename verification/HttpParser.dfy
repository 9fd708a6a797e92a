/**
 The class `http_parser`: a read buffer with a position, the parser's fields, and the loops
 that advance over them.  Every method is proved against the value-level specification.
 */
module HttpParser {
  import opened Bytes
  import opened HeaderMachine
  import opened ChunkMachine
  import opened Parsing
  import opened ParserFacts

  /** `memcpy` of `src` to `dst[at..]`. */
  method Memcpy(dst: array<char>, at: nat, src: string)
    requires at + |src| <= dst.Length
    modifies dst
    ensures dst[..] == CopyInto(old(dst[..]), at, src)
  {
    var i := 0;
    while i < |src|
      invariant 0 <= i <= |src|
      invariant forall k | 0 <= k < dst.Length :: dst[k] == if at <= k < at + i then src[k - at] else old(dst[k])
    {
      dst[at + i] := src[i];
      i := i + 1;
    }
  }

  /** Handling `len` bytes of chunk data in one slice is handling them one by one. */
  lemma SliceOfBuffer(max: nat, k: Chunker, payload: string, buffer: string, pos: nat, len: nat)
    requires ValidChunker(k) && k.state.Data? && 0 < len <= k.size - k.read && pos + len <= |buffer|
    ensures ChunkRun(true, max, k, payload, buffer[pos..])
         == ChunkRun(true, max, TakeData(k, len), payload + buffer[pos..pos + len], buffer[pos + len..]).Plus(len)
  {
    assert buffer[pos..] == buffer[pos..pos + len] + buffer[pos + len..];
    DataSliceThen(true, max, k, payload, buffer[pos..pos + len], buffer[pos + len..]);
  }

  class HttpParser {
    const cfg: Config

    // m_read_ptr and m_read_end_ptr
    var readBuffer: string
    var readPos: nat

    // parse states and the strings and counters they need
    var stage: Stage
    var hdr: Machine
    var chk: Chunker
    var contentRemaining: nat

    // byte counters
    var contentRead: nat
    var lastRead: nat
    var totalRead: nat

    // the installed payload handler, as the bytes it was given
    var handler: bool
    var payload: string

    // the message being filled; its content lives in a buffer of its own
    var msg: Message
    var content: array<char>

    /** The fields as one value. */
    function View(): Parser
      reads this, content
    {
      Parser(stage, hdr, chk, contentRemaining, if stage.Content? then contentRead else 0,
             handler, payload, msg.(content := content[..]))
    }

    /** The bytes not yet read. */
    function Rest(): string
      reads this
      requires readPos <= |readBuffer|
    {
      readBuffer[readPos..]
    }

    ghost predicate Ready()
      reads this, content
    {
      readPos <= |readBuffer| && Valid(cfg, View())
    }

    constructor (cfg: Config, handler: bool)
      ensures Ready() && this.cfg == cfg && View() == Fresh(handler, "", NEW_MESSAGE)
      ensures Rest() == "" && lastRead == totalRead == 0 && fresh(content)
    {
      this.cfg := cfg;
      readBuffer, readPos := "", 0;
      stage, hdr, chk, contentRemaining := Start, NEW_MACHINE, NEW_CHUNKER, 0;
      contentRead, lastRead, totalRead := 0, 0, 0;
      this.handler, payload := handler, "";
      msg := NEW_MESSAGE;
      content := new char[0];
      new;
      assert content[..] == "";
    }

    method SetReadBuffer(bytes: string)
      requires Ready()
      modifies `readBuffer, `readPos
      ensures Ready() && Rest() == bytes && View() == old(View()) && readPos == 0
    {
      readBuffer, readPos := bytes, 0;
    }

    /** `reset`; the counters of a new message start at zero. */
    method ResetParser()
      requires readPos <= |readBuffer|
      modifies `stage, `hdr, `chk, `contentRead, `lastRead, `totalRead
      ensures Ready() && View() == Reset(old(View())) && lastRead == totalRead == 0 && Rest() == old(Rest())
    {
      stage := Start;
      hdr := hdr.(state := MethodStart, verb := "", resource := "", query := "", raw := "");
      chk := chk.(state := SizeStart);
      contentRead, lastRead, totalRead := 0, 0, 0;
    }

    /** The switch of `parse_headers` on one byte; `r` is what the bytes from here on do. */
    method HeaderByte(ghost r: Out) returns (rc: Verdict)
      requires readPos < |readBuffer| && r == Run(cfg.saveRaw, hdr, msg.head, Rest())
      modifies `readPos, `hdr, `msg
      ensures msg == old(msg).(head := msg.head) && readPos <= |readBuffer|
      ensures rc.More? ==> readPos == old(readPos) + 1 && r == Run(cfg.saveRaw, hdr, msg.head, Rest()).Plus(1)
      ensures !rc.More? ==> readPos == old(readPos) + r.n && r == Out(hdr, msg.head, rc, r.n)
    {
      assert Rest()[0] == readBuffer[readPos] && Rest()[1..] == readBuffer[readPos + 1..];
      var step := Step(cfg.saveRaw, hdr, msg.head, readBuffer[readPos]);
      hdr, msg, readPos := step.h, msg.(head := step.m), readPos + step.n;
      rc := step.verdict;
    }

    /** `parse_headers`. */
    method ParseHeaders() returns (rc: Verdict)
      requires readPos <= |readBuffer|
      modifies `readPos, `hdr, `msg, `lastRead, `totalRead
      ensures var r := old(Run(cfg.saveRaw, hdr, msg.head, Rest()));
        && rc == r.verdict && hdr == r.h && msg == old(msg).(head := r.m)
        && readPos == old(readPos) + r.n <= |readBuffer|
        && (!rc.Fail? ==> lastRead == r.n && totalRead == old(totalRead) + r.n)
    {
      var start := readPos;
      ghost var r := Run(cfg.saveRaw, hdr, msg.head, Rest());
      ghost var rest := r;
      lastRead := 0;
      while readPos < |readBuffer|
        invariant start <= readPos <= |readBuffer| && totalRead == old(totalRead)
        invariant msg == old(msg).(head := msg.head)
        invariant r == rest.Plus(readPos - start) && rest == Run(cfg.saveRaw, hdr, msg.head, Rest())
      {
        rc := HeaderByte(rest);
        if rc.Fail? {
          return;
        }
        if rc.Done? {
          lastRead := readPos - start;
          totalRead := totalRead + lastRead;
          return;
        }
        rest := Run(cfg.saveRaw, hdr, msg.head, Rest());
      }
      lastRead := readPos - start;
      totalRead := totalRead + lastRead;
      return More;
    }

    /** Where decoded chunk data goes. */
    function Decoded(): string
      reads this
    {
      if handler then payload else msg.cache
    }

    /** The rest of the chunked body from here on. */
    ghost function ChunksFromHere(): ChunkOut
      reads this
      requires readPos <= |readBuffer| && ValidChunker(chk)
    {
      ChunkRun(handler, cfg.max, chk, Decoded(), Rest())
    }

    /** Chunk data with a handler installed: everything the buffer holds of the chunk, in one slice. */
    method HandleSlice() returns (len: nat)
      requires readPos < |readBuffer| && ValidChunker(chk) && chk.state.Data? && handler
      modifies `readPos, `chk, `payload
      ensures len == Min(old(chk.size) - old(chk.read), |readBuffer| - old(readPos)) && readPos == old(readPos) + len
      ensures payload == old(payload) + readBuffer[old(readPos)..readPos] && chk == TakeData(old(chk), len)
    {
      len := Min(chk.size - chk.read, |readBuffer| - readPos);
      payload := payload + readBuffer[readPos..readPos + len];
      chk := TakeData(chk, len);
      readPos := readPos + len;
    }

    /** The switch of `parse_chunks` on one byte. */
    method ChunkByte(ghost r: ChunkOut) returns (rc: Verdict, footers: bool)
      requires readPos < |readBuffer| && ValidChunker(chk) && r == ChunksFromHere()
      modifies `readPos, `chk, `payload, `msg
      ensures ValidChunker(chk) && readPos <= |readBuffer|
      ensures rc.More? ==> readPos == old(readPos) + 1 && r == ChunksFromHere().Plus(1)
      ensures !rc.More? ==> readPos == old(readPos) + r.n && r == ChunkOut(chk, Decoded(), rc, footers, r.n)
      ensures footers ==> rc.Done?
      ensures if handler then msg == old(msg) else payload == old(payload) && msg == old(msg).(cache := msg.cache)
    {
      assert Rest()[0] == readBuffer[readPos] && Rest()[1..] == readBuffer[readPos + 1..];
      var step := ChunkStep(handler, cfg.max, chk, Decoded(), readBuffer[readPos]);
      chk, readPos := step.k, readPos + step.n;
      if handler {
        payload := step.sink;
      } else {
        msg := msg.(cache := step.sink);
      }
      return step.verdict, step.footers;
    }

    /** One turn of the loop of `parse_chunks`. */
    method ChunkTurn(ghost r: ChunkOut) returns (rc: Verdict, footers: bool)
      requires readPos < |readBuffer| && ValidChunker(chk) && r == ChunksFromHere()
      modifies `readPos, `chk, `payload, `msg
      ensures ValidChunker(chk) && old(readPos) <= readPos <= |readBuffer|
      ensures rc.More? ==> readPos > old(readPos) && r == ChunksFromHere().Plus(readPos - old(readPos))
      ensures !rc.More? ==> readPos == old(readPos) + r.n && r == ChunkOut(chk, Decoded(), rc, footers, r.n)
      ensures footers ==> rc.Done?
      ensures if handler then msg == old(msg) else payload == old(payload) && msg == old(msg).(cache := msg.cache)
    {
      if chk.state.Data? && handler {
        ghost var k, given, pos := chk, payload, readPos;
        var len := HandleSlice();
        SliceOfBuffer(cfg.max, k, given, readBuffer, pos, len);
        return More, false;
      }
      rc, footers := ChunkByte(r);
    }

    /** `parse_chunks`. */
    method ParseChunks() returns (rc: Verdict, footers: bool)
      requires readPos <= |readBuffer| && ValidChunker(chk)
      modifies `readPos, `chk, `payload, `msg, `contentRead, `lastRead, `totalRead
      ensures var r := old(ChunksFromHere());
        && r == ChunkOut(chk, Decoded(), rc, footers, r.n) && readPos == old(readPos) + r.n <= |readBuffer|
        && (!rc.Fail? ==> lastRead == r.n && totalRead == old(totalRead) + r.n && contentRead == old(contentRead) + r.n)
      ensures ValidChunker(chk)
      ensures if handler then msg == old(msg) else payload == old(payload) && msg == old(msg).(cache := msg.cache)
    {
      var start := readPos;
      ghost var r := ChunksFromHere();
      ghost var rest := r;
      lastRead := 0;
      rc, footers := More, false;
      while rc.More? && readPos < |readBuffer|
        invariant start <= readPos <= |readBuffer| && ValidChunker(chk)
        invariant totalRead == old(totalRead) && contentRead == old(contentRead)
        invariant rc.More? ==> !footers && rest == ChunksFromHere() && r == rest.Plus(readPos - start)
        invariant !rc.More? ==> r == ChunkOut(chk, Decoded(), rc, footers, readPos - start)
        invariant if handler then msg == old(msg) else payload == old(payload) && msg == old(msg).(cache := msg.cache)
        decreases rc.More?, |readBuffer| - readPos
      {
        rc, footers := ChunkTurn(rest);
        rest := if rc.More? then ChunksFromHere() else rest;
      }
      if !rc.Fail? {
        lastRead := readPos - start;
        totalRead, contentRead := totalRead + lastRead, contentRead + lastRead;
      }
    }

    /** The copy in `consume_content`: to the handler, or what fits into the content buffer. */
    method StoreContent(bytes: string)
      requires content.Length <= cfg.max
      requires contentRead < cfg.max ==> contentRead + |bytes| <= content.Length || content.Length == cfg.max
      modifies `payload, content
      ensures if handler then payload == old(payload) + bytes && content[..] == old(content[..])
              else payload == old(payload) && content[..] == Filled(cfg.max, old(content[..]), contentRead, bytes)
    {
      FilledIsCopy(cfg.max, content[..], contentRead, bytes);
      if handler {
        payload := payload + bytes;
      } else if contentRead < cfg.max {
        if contentRead + |bytes| > cfg.max {
          Memcpy(content, contentRead, bytes[..cfg.max - contentRead]);
        } else {
          assert bytes == bytes[..|bytes|];
          Memcpy(content, contentRead, bytes);
        }
      }
    }

    /** `consume_content`; there is always something left to read, so its early return is dead. */
    method ConsumeContent(ghost r: Outcome) returns (rc: Verdict)
      requires Ready() && stage.Content? && readPos < |readBuffer|
      requires r == TakeContent(cfg, View(), Rest()[..Min(|Rest()|, contentRemaining)])
      modifies `readPos, `contentRemaining, `contentRead, `lastRead, `totalRead, `payload, content
      ensures View() == r.p && rc == r.verdict && readPos == old(readPos) + r.n <= |readBuffer|
      ensures lastRead == r.n && totalRead == old(totalRead) + r.n
    {
      var len := Min(contentRemaining, |readBuffer| - readPos);
      var bytes := readBuffer[readPos..readPos + len];
      assert bytes == Rest()[..Min(|Rest()|, contentRemaining)];
      rc := TakeBytes(bytes);
      readPos := readPos + len;
      totalRead, lastRead := totalRead + len, len;
    }

    /** The part of it that concerns the body. */
    method TakeBytes(bytes: string) returns (rc: Verdict)
      requires Ready() && stage.Content? && |bytes| <= contentRemaining
      modifies `contentRemaining, `contentRead, `payload, content
      ensures View() == TakeContent(cfg, old(View()), bytes).p && rc == TakeContent(cfg, old(View()), bytes).verdict
    {
      rc := if |bytes| == contentRemaining then Done else More;
      contentRemaining := contentRemaining - |bytes|;
      StoreContent(bytes);
      contentRead := contentRead + |bytes|;
    }

    /** A buffer of `n` zero bytes, as `content_buffer_t::resize` allocates it. */
    method CreateContentBuffer(n: nat)
      modifies `content
      ensures fresh(content) && content[..] == Zeros(n)
    {
      content := new char[n](_ => '\0');
    }

    /** `finish_header_parsing` up to its hook. */
    method PrepareBody() returns (rc: Verdict)
      modifies `stage, `contentRemaining, `contentRead, `msg, `content
      ensures View() == ChooseBody(cfg, old(View())).p && rc == ChooseBody(cfg, old(View())).verdict
      ensures content == old(content) || fresh(content)
    {
      var framing := cfg.framing(msg.head.fields);
      contentRemaining, contentRead := 0, 0;
      msg := msg.(contentLength := 0, chunked := framing.Chunked?);
      UpdateMessageWithHeaderData();
      assert View() == old(View()).(remaining := 0, contentRead := 0, msg := ReadHead(cfg, old(View())));
      rc := if cfg.headersOnly then Done else More;
      match framing {
        case Chunked =>
          stage := Chunks;
        case BadLength =>
          return Fail(InvalidContentLength);
        case NoBody =>
          stage, rc := End, Done;
        case Length(n) =>
          if n == 0 {
            stage, rc := End, Done;
          } else {
            stage, contentRemaining := Content, n;
            msg := msg.(contentLength := Min(n, cfg.max));
            if !cfg.headersOnly {
              CreateContentBuffer(msg.contentLength);
            }
          }
      }
    }

    /** `finish_header_parsing`. */
    method FinishHeaderParsing() returns (rc: Verdict)
      modifies `stage, `contentRemaining, `contentRead, `msg, `handler, `content
      ensures View() == FinishHeaders(cfg, old(View())).p && rc == FinishHeaders(cfg, old(View())).verdict
      ensures content == old(content) || fresh(content)
    {
      rc := PrepareBody();
      if !rc.Fail? {
        var hook := cfg.afterHeaders(msg.(content := content[..]));
        if hook.Install? {
          handler := true;
        } else if hook.Finish? {
          rc := Done;
        } else if hook.Raise? {
          rc := Raised;
        }
      }
    }

    /** `update_message_with_header_data`. */
    method UpdateMessageWithHeaderData()
      modifies `msg
      ensures msg == old(msg).(
        verb := hdr.verb, resource := hdr.resource, query := hdr.query,
        queries := old(msg).queries + cfg.queryPairs(hdr.query),
        cookies := old(msg).cookies + cfg.cookiePairs(old(msg).head.fields))
    {
      msg := msg.(verb := hdr.verb, resource := hdr.resource, query := hdr.query);
      msg := msg.(queries := msg.queries + cfg.queryPairs(hdr.query));
      msg := msg.(cookies := msg.cookies + cfg.cookiePairs(msg.head.fields));
    }

    /** `concatenate_chunks`. */
    method ConcatenateChunks()
      modifies `msg, `content
      ensures View() == old(View()).(msg := Concatenated(old(View()).msg)) && fresh(content)
    {
      msg := msg.(contentLength := |msg.cache|);
      CreateContentBuffer(|msg.cache|);
      Memcpy(content, 0, msg.cache);
      assert content[..] == msg.cache;
    }

    /** The end of `parse` on true, with `finish`, which an exception may leave. */
    method Finish() returns (rc: Verdict)
      modifies `stage, `msg
      ensures View() == Completed(cfg, old(View())) && rc == Finished(cfg, old(View()))
    {
      stage := End;
      msg := msg.(valid := true, status := StatusOK);
      rc := Done;
      if !handler && !cfg.headersOnly {
        var form := cfg.formPairs(msg.head.fields, content[..][..Min(msg.contentLength, content.Length)]);
        msg := msg.(queries := msg.queries + form.pairs);
        rc := if form.raised then Raised else Done;
      } else {
        assert msg.queries + [] == msg.queries;
      }
    }

    /** The header and trailer stages of `parse`; `o` is what they lead to. */
    method ParseHeadersStage(ghost r: Out, ghost o: Outcome) returns (rc: Verdict)
      requires readPos <= |readBuffer| && InHeaders(stage)
      requires r == Run(cfg.saveRaw, hdr, msg.head, Rest()) && o == AfterHeaders(cfg, View(), r)
      modifies `readPos, `stage, `hdr, `contentRemaining, `contentRead, `lastRead, `totalRead, `handler, `msg, `content
      ensures View() == o.p && rc == o.verdict && readPos == old(readPos) + o.n <= |readBuffer|
      ensures !rc.Fail? ==> lastRead == o.n && totalRead == old(totalRead) + o.n
      ensures content == old(content) || fresh(content)
    {
      ghost var q := WithHead(View(), r);
      if stage.Start? {
        stage := Headers;
      }
      rc := ParseHeaders();
      assert View() == q;
      if rc.Done? && stage.Headers? {
        rc := FinishHeaderParsing();
      }
    }

    /** The chunk stage of `parse`; `o` is what it leads to. */
    method ParseChunksStage(ghost r: ChunkOut, ghost o: Outcome) returns (rc: Verdict)
      requires readPos <= |readBuffer| && stage.Chunks? && ValidChunker(chk)
      requires r == ChunksFromHere() && o == AfterChunks(View(), r)
      modifies `readPos, `stage, `hdr, `chk, `contentRead, `lastRead, `totalRead, `payload, `msg, `content
      ensures View() == o.p && rc == o.verdict && readPos == old(readPos) + o.n <= |readBuffer|
      ensures !rc.Fail? ==> lastRead == o.n && totalRead == old(totalRead) + o.n
      ensures content == old(content) || fresh(content)
    {
      ghost var q := WithSink(View(), r.k, r.sink);
      var footers;
      rc, footers := ParseChunks();
      assert View() == q;
      if rc.Done? {
        rc := EndChunks(footers);
      }
    }

    /** What follows the last chunk. */
    method EndChunks(footers: bool) returns (rc: Verdict)
      requires stage.Chunks?
      modifies `stage, `hdr, `msg, `content
      ensures View() == ChunksDone(old(View()), footers).p && rc == ChunksDone(old(View()), footers).verdict
      ensures content == old(content) || fresh(content)
    {
      if footers {
        stage, hdr := Footers, hdr.(state := HeaderStart);
      }
      rc := Done;
      if !handler {
        ConcatenateChunks();
        rc := if footers then More else Done;
      }
    }

    /**
     One turn of the loop of `parse`: the current stage's own parser on the rest `s` of the
     buffer.  `o` is its outcome, and going on from it is what `parse` still has to do.
     */
    method ParseStage(ghost p: Parser, ghost s: string) returns (rc: Verdict, ghost o: Outcome)
      requires Ready() && readPos < |readBuffer| && p == View() && s == Rest()
      modifies this, content
      ensures readBuffer == old(readBuffer) && View() == o.p && rc == o.verdict && readPos == old(readPos) + o.n
      ensures Progress(cfg, p, o, s) && ParseRun(cfg, p, s) == Continue(cfg, o, s)
      ensures !rc.Fail? ==> lastRead == o.n && totalRead == old(totalRead) + o.n
      ensures content == old(content) || fresh(content)
    {
      o := StageOutcome(cfg, p, s);
      StageByStage(cfg, p, s);
      match stage
      case Chunks =>
        rc := ParseChunksStage(ChunksFromHere(), o);
      case Content =>
        rc := ConsumeContent(o);
      case End =>
        lastRead, rc := 0, Done;
      case _ =>
        rc := ParseHeadersStage(Run(cfg.saveRaw, hdr, msg.head, s), o);
    }

    /** The same turn, as a step of the run `r` over the rest of the buffer: `rest` is still to be done. */
    method ParseTurn(ghost r: Outcome) returns (rc: Verdict, ghost o: Outcome, ghost rest: Outcome)
      requires Ready() && readPos < |readBuffer| && r == ParseRun(cfg, View(), Rest())
      modifies this, content
      ensures readBuffer == old(readBuffer) && View() == o.p && rc == o.verdict
      ensures readPos == old(readPos) + o.n <= |readBuffer|
      ensures rc.More? ==> Ready() && (readPos == |readBuffer| || Rank(stage) < Rank(old(stage)))
      ensures rc.More? ==> rest == ParseRun(cfg, View(), Rest()) && r == rest.Plus(o.n)
      ensures !rc.More? ==> r == Ended(cfg, o)
      ensures rc.More? && readPos == |readBuffer| ==> r == Ended(cfg, o)
      ensures !rc.Fail? ==> lastRead == o.n && totalRead == old(totalRead) + o.n
      ensures content == old(content) || fresh(content)
    {
      ghost var s := Rest();
      rc, o := ParseStage(View(), s);
      assert rc.More? ==> s[o.n..] == Rest();
      rest := if rc.More? then ParseRun(cfg, View(), Rest()) else o;
    }

    /**
     `parse`: the loop over the stages.  It terminates because every turn that neither decides
     nor exhausts the buffer moves to a later stage.
     */
    method ParseStages(ghost r: Outcome) returns (rc: Verdict, parsed: nat, ghost o: Outcome)
      requires Ready() && readPos < |readBuffer| && r == ParseRun(cfg, View(), Rest())
      modifies this, content
      ensures readBuffer == old(readBuffer) && readPos <= |readBuffer| && View() == o.p && rc == o.verdict
      ensures rc.More? ==> readPos == |readBuffer| && Ready()
      ensures r == Ended(cfg, o) && readPos == old(readPos) + o.n
      ensures !rc.Fail? ==> parsed == o.n && totalRead == old(totalRead) + o.n
      ensures content == old(content) || fresh(content)
    {
      var start := readPos;
      ghost var rest := r;
      parsed := 0;
      while true
        invariant readBuffer == old(readBuffer) && start <= readPos < |readBuffer| && Ready()
        invariant rest == ParseRun(cfg, View(), Rest()) && r == rest.Plus(readPos - start)
        invariant parsed == readPos - start && totalRead == old(totalRead) + parsed
        invariant content == old(content) || fresh(content)
        decreases Rank(stage)
      {
        ghost var before := readPos;
        rc, o, rest := ParseTurn(rest);
        if !rc.Fail? {
          parsed := parsed + lastRead;
        }
        if !rc.More? || readPos == |readBuffer| {
          o := o.Plus(before - start);
          return;
        }
      }
    }

    /** `parse`, with what follows its loop. */
    method Parse() returns (rc: Verdict)
      requires Ready() && readPos < |readBuffer|
      modifies this, content
      ensures var r := old(ParseRun(cfg, View(), Rest()));
        && rc == r.verdict && View() == r.p && readPos == old(readPos) + r.n <= |readBuffer|
        && (rc.More? || rc.Done? ==> lastRead == r.n && totalRead == old(totalRead) + r.n)
      ensures readBuffer == old(readBuffer) && (rc.More? ==> readPos == |readBuffer| && Ready())
      ensures content == old(content) || fresh(content)
    {
      var parsed;
      ghost var o;
      rc, parsed, o := ParseStages(ParseRun(cfg, View(), Rest()));
      rc := Conclude(rc, parsed, o);
    }

    /** What follows the loop of `parse`, which ended with `o`. */
    method Conclude(verdict: Verdict, parsed: nat, ghost o: Outcome) returns (rc: Verdict)
      requires View() == o.p && verdict == o.verdict
      modifies `stage, `msg, `lastRead
      ensures View() == Ended(cfg, o).p && rc == Ended(cfg, o).verdict
      ensures rc.More? || rc.Done? ==> lastRead == parsed
      ensures rc.More? ==> msg == old(msg) && stage == old(stage)
    {
      rc := verdict;
      if rc.Done? {
        rc := Finish();
      } else if rc.Fail? {
        msg := msg.(status := StatusTruncated);
      }
      if !rc.Raised? {
        lastRead := parsed;
      }
    }
  }
}
