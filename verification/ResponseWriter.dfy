/**
 `http_response_writer`: buffered content, headers sent once, and the chunk framer; with the
 header preparation of `http_message`.
 */
module ResponseWriter {
  import opened Bytes
  import opened HeaderMachine
  import opened Headers
  import opened ChunkText
  import opened RequestText

  const CONNECTION := "Connection"
  const TRANSFER_ENCODING := "Transfer-Encoding"
  const CONTENT_LENGTH := "Content-Length"

  /** `prepare_headers_for_send`. */
  function PreparedFields(fields: seq<Field>, keepAlive: bool, usingChunks: bool, chunksSupported: bool,
                          sendLength: bool, length: nat): seq<Field> {
    var fs := ChangeValue(fields, CONNECTION, if keepAlive then "Keep-Alive" else "close");
    if usingChunks then if chunksSupported then ChangeValue(fs, TRANSFER_ENCODING, "chunked") else fs
    else if sendLength then ChangeValue(fs, CONTENT_LENGTH, Digits(10, length)) else fs
  }

  /** Exactly one Connection value, and exactly one Content-Length or chunked Transfer-Encoding. */
  lemma PreparedValues(fields: seq<Field>, keepAlive: bool, usingChunks: bool, chunksSupported: bool,
                       sendLength: bool, length: nat)
    ensures var fs := PreparedFields(fields, keepAlive, usingChunks, chunksSupported, sendLength, length);
      && Values(fs, "Connection") == [if keepAlive then "Keep-Alive" else "close"]
      && (usingChunks && chunksSupported ==> Values(fs, "Transfer-Encoding") == ["chunked"])
      && (!usingChunks && sendLength ==> Values(fs, "Content-Length") == [Digits(10, length)])
  {
    var v := if keepAlive then "Keep-Alive" else "close";
    var fs := ChangeValue(fields, CONNECTION, v);
    assert !IEquals(CONNECTION, TRANSFER_ENCODING) && !IEquals(CONNECTION, CONTENT_LENGTH);
    ChangeValueSets(fields, CONNECTION, v, CONNECTION);
    ChangeValueSets(fs, TRANSFER_ENCODING, "chunked", CONNECTION);
    ChangeValueSets(fs, CONTENT_LENGTH, Digits(10, length), CONNECTION);
  }

  /** Every header that has none of these names has the values it had. */
  ghost predicate Keeps(before: seq<Field>, after: seq<Field>, names: seq<string>) {
    forall other :: (forall k | 0 <= k < |names| :: !IEquals(other, names[k])) ==>
                      Values(after, other) == Values(before, other)
  }

  /** The names of the headers that preparing for a send writes. */
  function Written(usingChunks: bool, chunksSupported: bool, sendLength: bool): seq<string> {
    if usingChunks && chunksSupported then ["Connection", "Transfer-Encoding"]
    else if !usingChunks && sendLength then ["Connection", "Content-Length"]
    else ["Connection"]
  }

  /** The headers the application set stay as they are. */
  lemma OthersKept(fields: seq<Field>, keepAlive: bool, usingChunks: bool, chunksSupported: bool,
                   sendLength: bool, length: nat)
    ensures Keeps(fields, PreparedFields(fields, keepAlive, usingChunks, chunksSupported, sendLength, length),
                  Written(usingChunks, chunksSupported, sendLength))
  {
    var v := if keepAlive then "Keep-Alive" else "close";
    var fs, names := ChangeValue(fields, CONNECTION, v), Written(usingChunks, chunksSupported, sendLength);
    forall other | forall k | 0 <= k < |names| :: !IEquals(other, names[k])
      ensures Values(PreparedFields(fields, keepAlive, usingChunks, chunksSupported, sendLength, length), other)
           == Values(fields, other)
    {
      assert !IEquals(other, names[0]) && (|names| > 1 ==> !IEquals(other, names[1]));
      ChangeValueSets(fields, CONNECTION, v, other);
      ChangeValueSets(fs, TRANSFER_ENCODING, "chunked", other);
      ChangeValueSets(fs, CONTENT_LENGTH, Digits(10, length), other);
    }
  }

  /** The head of a response: first line, headers, blank line. */
  function HeadBytes(firstLine: string, fields: seq<Field>): string {
    firstLine + (CRLF + (FieldsText(fields) + CRLF))
  }

  /** What one send of a response in pieces adds to its body: a plain piece for a client without chunks. */
  function Piece(chunked: bool, data: string, final: bool): string {
    if chunked then Frame(data) + if final then SizeLine(0) + CRLF else "" else data
  }

  class Writer {
    const firstLine: string
    const bodyAllowed: bool
    const chunksSupported: bool
    const sendLength: bool
    var fields: seq<Field>
    var responseLength: nat

    var contentBuffers: seq<string>
    var contentLength: nat
    var clientSupportsChunks: bool
    var sendingChunks: bool
    var sentHeaders: bool

    // everything handed to the connection so far
    var emitted: string

    /** The buffered length is the length of the buffered data; nothing is sent before the headers. */
    ghost predicate Valid()
      reads this
    {
      contentLength == |Flatten(contentBuffers)| && (!sentHeaders ==> emitted == "")
    }

    constructor (firstLine: string, bodyAllowed: bool, chunksSupported: bool, sendLength: bool, fields: seq<Field>)
      ensures Valid() && !sentHeaders && !sendingChunks && contentBuffers == [] && emitted == "" && responseLength == 0
      ensures this.firstLine == firstLine && this.bodyAllowed == bodyAllowed && this.chunksSupported == chunksSupported
      ensures this.sendLength == sendLength && this.fields == fields && clientSupportsChunks == chunksSupported
    {
      this.firstLine, this.bodyAllowed, this.chunksSupported := firstLine, bodyAllowed, chunksSupported;
      this.sendLength, this.fields, responseLength := sendLength, fields, 0;
      contentBuffers, contentLength := [], 0;
      clientSupportsChunks, sendingChunks, sentHeaders := chunksSupported, false, false;
      emitted := "";
    }

    /** The buffered data. */
    function Data(): string
      reads this
    {
      Flatten(contentBuffers)
    }

    /** `clear`. */
    method Clear()
      requires Valid()
      modifies `contentBuffers, `contentLength
      ensures Valid() && contentBuffers == []
    {
      contentBuffers, contentLength := [], 0;
    }

    /** `write` and `write_nocopy`. */
    method Write(data: string)
      requires Valid()
      modifies `contentBuffers, `contentLength
      ensures Valid() && Data() == old(Data()) + if bodyAllowed then data else ""
    {
      if bodyAllowed && |data| > 0 {
        FlattenAppend(contentBuffers, [data]);
        FlattenOne(data);
        contentBuffers := contentBuffers + [data];
        contentLength := contentLength + |data|;
      } else {
        assert Data() + "" == Data();
      }
    }

    /** The fields the head would be sent with now. */
    function FieldsNow(keepAlive: bool): seq<Field>
      reads this
    {
      PreparedFields(fields, keepAlive, sendingChunks, chunksSupported, sendLength,
                     if contentLength > 0 then contentLength else responseLength)
    }

    /** The head, when it was not sent yet. */
    function HeadNow(keepAlive: bool): string
      reads this
    {
      if sentHeaders then "" else HeadBytes(firstLine, FieldsNow(keepAlive))
    }

    /** What the next send puts after the head. */
    function BodyNow(final: bool): string
      reads this
    {
      if clientSupportsChunks && sendingChunks then Frame(Data()) + if final then SizeLine(0) + CRLF else "" else Data()
    }

    /** `prepare_buffers_for_send`. */
    method PrepareHead(keepAlive: bool) returns (text: string)
      modifies `fields, `responseLength
      ensures fields == old(FieldsNow(keepAlive)) && text == HeadBytes(firstLine, fields)
      ensures responseLength == if contentLength > 0 then contentLength else old(responseLength)
    {
      if contentLength > 0 {
        responseLength := contentLength;
      }
      fields := PreparedFields(fields, keepAlive, sendingChunks, chunksSupported, sendLength, responseLength);
      var headers := AppendHeaders(fields);
      text := firstLine + (CRLF + headers);
    }

    /** `prepare_write_buffers`, and the write itself. */
    method SendMoreData(keepAlive: bool, final: bool)
      requires Valid()
      modifies `fields, `responseLength, `sentHeaders, `emitted
      ensures Valid() && sentHeaders
      ensures emitted == old(emitted) + (old(HeadNow(keepAlive)) + old(BodyNow(final)))
      ensures fields == if old(sentHeaders) then old(fields) else old(FieldsNow(keepAlive))
    {
      var buffers: seq<string> := [];
      if !sentHeaders {
        var head := PrepareHead(keepAlive);
        buffers := [head];
        sentHeaders := true;
      }
      ghost var top := buffers;
      var chunked := clientSupportsChunks && sendingChunks;
      var body: seq<string> := [];
      if contentLength > 0 {
        body := if chunked then [Digits(16, contentLength), CRLF] + (contentBuffers + [CRLF]) else contentBuffers;
      }
      BodyText(body, contentBuffers, contentLength, chunked);
      FlattenAppend(top, body);
      buffers := buffers + body;
      if final && chunked {
        LastText();
        FlattenAppend(buffers, [['0'], CRLF, CRLF]);
        buffers := buffers + [['0'], CRLF, CRLF];
        Assoc(Flatten(top), Flatten(body), SizeLine(0) + CRLF);
      } else {
        assert Flatten(body) + "" == Flatten(body);
      }
      assert Flatten(top) == old(HeadNow(keepAlive));
      emitted := emitted + Flatten(buffers);
    }

    /**
     `send`, as the only send of a response: one head, then the body, and the single
     Content-Length is the length of the body when the caller set no other.
     */
    method Send(keepAlive: bool)
      requires Valid() && !sentHeaders && !sendingChunks
      modifies `fields, `responseLength, `sentHeaders, `emitted
      ensures Valid() && sentHeaders && emitted == HeadBytes(firstLine, fields) + Data()
      ensures Values(fields, "Connection") == [if keepAlive then "Keep-Alive" else "close"]
      ensures sendLength ==>
        Values(fields, "Content-Length") == [Digits(10, if |Data()| > 0 then |Data()| else old(responseLength))]
      ensures Keeps(old(fields), fields, if sendLength then ["Connection", "Content-Length"] else ["Connection"])
    {
      ghost var length := if contentLength > 0 then contentLength else responseLength;
      PreparedValues(fields, keepAlive, false, chunksSupported, sendLength, length);
      OthersKept(fields, keepAlive, false, chunksSupported, sendLength, length);
      SendMoreData(keepAlive, false);
      assert "" + emitted == emitted;
    }

    /** `send_chunk` and `send_final_chunk`. */
    method SendChunk(keepAlive: bool, final: bool)
      requires Valid()
      modifies `fields, `responseLength, `sentHeaders, `emitted, `sendingChunks
      ensures Valid() && sentHeaders && sendingChunks && (old(sentHeaders) ==> fields == old(fields))
      ensures !old(sentHeaders) && chunksSupported ==> Values(fields, "Transfer-Encoding") == ["chunked"]
      ensures !old(sentHeaders) ==>
        && Values(fields, "Connection") == [if keepAlive then "Keep-Alive" else "close"]
        && Keeps(old(fields), fields, if chunksSupported then ["Connection", "Transfer-Encoding"] else ["Connection"])
      ensures emitted == old(emitted) + ((if old(sentHeaders) then "" else HeadBytes(firstLine, fields))
                                         + Piece(clientSupportsChunks, Data(), final))
    {
      sendingChunks := true;
      ghost var length := if contentLength > 0 then contentLength else responseLength;
      PreparedValues(fields, keepAlive, true, chunksSupported, sendLength, length);
      OthersKept(fields, keepAlive, true, chunksSupported, sendLength, length);
      SendMoreData(keepAlive, final);
    }
  }

  /** The response so far is its head, if sent, and this body. */
  ghost predicate HasSent(w: Writer, body: string)
    reads w
  {
    && w.Valid() && w.bodyAllowed && w.clientSupportsChunks
    && (if w.sentHeaders then w.emitted == HeadBytes(w.firstLine, w.fields) + body else body == "")
    && (w.sentHeaders && w.chunksSupported ==> Values(w.fields, "Transfer-Encoding") == ["chunked"])
  }

  /** The head, if sent, is that of a response with the fields `before`. */
  ghost predicate HeadOf(w: Writer, before: seq<Field>, keepAlive: bool)
    reads w
  {
    if w.sentHeaders then
      && Values(w.fields, "Connection") == [if keepAlive then "Keep-Alive" else "close"]
      && Keeps(before, w.fields, if w.chunksSupported then ["Connection", "Transfer-Encoding"] else ["Connection"])
    else w.fields == before
  }

  /** One piece: clear, write, send. */
  method SendPiece(w: Writer, data: string, keepAlive: bool, final: bool, ghost body: string, ghost before: seq<Field>)
    requires HasSent(w, body) && HeadOf(w, before, keepAlive)
    modifies w
    ensures HeadOf(w, before, keepAlive)
    ensures w.sentHeaders && HasSent(w, body + (Frame(data) + if final then SizeLine(0) + CRLF else ""))
  {
    ghost var piece := Frame(data) + if final then SizeLine(0) + CRLF else "";
    ghost var head := HeadBytes(w.firstLine, w.fields);
    w.Clear();
    w.Write(data);
    assert "" + data == data;
    w.SendChunk(keepAlive, final);
    assert "" + piece == piece;
    Assoc(head, body, piece);
  }

  /**
   A chunked response as the writer's documentation prescribes it: clear, write and send for
   every piece, and a final send for the last one.  The head is sent once and first, and it
   announces the coding if the response supports chunks.
   */
  method SendChunked(w: Writer, sends: seq<string>, last: string, keepAlive: bool)
    requires w.Valid() && !w.sentHeaders && w.bodyAllowed && w.clientSupportsChunks
    modifies w
    ensures w.Valid() && w.emitted == HeadBytes(w.firstLine, w.fields) + ChunkedText(sends + [last])
    ensures w.chunksSupported ==> Values(w.fields, "Transfer-Encoding") == ["chunked"]
    ensures w.sentHeaders && HeadOf(w, old(w.fields), keepAlive)
  {
    ghost var before := w.fields;
    var i := 0;
    while i < |sends|
      invariant 0 <= i <= |sends| && HasSent(w, Frames(sends[..i])) && HeadOf(w, before, keepAlive)
    {
      SendPiece(w, sends[i], keepAlive, false, Frames(sends[..i]), before);
      OneMore(sends, i);
      i := i + 1;
    }
    assert sends[..i] == sends;
    SendPiece(w, last, keepAlive, true, Frames(sends), before);
    WithLast(sends, last);
  }

  lemma WithLast(sends: seq<string>, last: string)
    ensures ChunkedText(sends + [last]) == Frames(sends) + (Frame(last) + (SizeLine(0) + CRLF))
  {
    FramesSnoc(sends, last);
    Assoc(Frames(sends), Frame(last), SizeLine(0) + CRLF);
  }

  lemma OneMore(sends: seq<string>, i: nat)
    requires i < |sends|
    ensures Frames(sends[..i + 1]) == Frames(sends[..i]) + (Frame(sends[i]) + "")
  {
    assert sends[..i + 1] == sends[..i] + [sends[i]];
    FramesSnoc(sends[..i], sends[i]);
    assert Frame(sends[i]) + "" == Frame(sends[i]);
  }

  lemma {:induction false} FramesSnoc(sends: seq<string>, last: string)
    ensures Frames(sends + [last]) == Frames(sends) + Frame(last)
    decreases |sends|
  {
    if sends == [] {
      assert [last][1..] == [] && Frame(last) + "" == Frame(last) && "" + Frame(last) == Frame(last);
    } else {
      assert (sends + [last])[1..] == sends[1..] + [last];
      FramesSnoc(sends[1..], last);
      Assoc(Frame(sends[0]), Frames(sends[1..]), Frame(last));
    }
  }

  /** The bytes behind the content buffers of one send. */
  lemma BodyText(body: seq<string>, content: seq<string>, length: nat, chunked: bool)
    requires length == |Flatten(content)|
    requires body ==
      if length == 0 then [] else if chunked then [Digits(16, length), CRLF] + (content + [CRLF]) else content
    ensures Flatten(body) == if chunked then Frame(Flatten(content)) else Flatten(content)
  {
    if length > 0 && chunked {
      FlattenAppend([Digits(16, length), CRLF], content + [CRLF]);
      FlattenAppend(content, [CRLF]);
      FlattenTwo(Digits(16, length), CRLF);
      FlattenOne(CRLF);
    }
  }

  lemma LastText()
    ensures Flatten([['0'], CRLF, CRLF]) == SizeLine(0) + CRLF
  {
    assert [['0'], CRLF, CRLF][1..] == [CRLF, CRLF];
    FlattenTwo(CRLF, CRLF);
    assert Digits(16, 0) == ['0'];
    Assoc(['0'], CRLF, CRLF);
  }

  lemma FlattenOne(a: string)
    ensures Flatten([a]) == a
  {
    assert [a][1..] == [] && a + [] == a;
  }

  lemma FlattenTwo(a: string, b: string)
    ensures Flatten([a, b]) == a + b
  {
    assert [a, b][1..] == [b];
    FlattenOne(b);
  }
}
