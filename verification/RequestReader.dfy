/**
 `http_request_reader` on a `tcp_connection`: the keep-alive and pipelining decisions, the
 saved read position, and the chain of readers that one socket read sets off.
 */
module RequestReader {
  import opened Bytes
  import opened HeaderMachine
  import opened Parsing
  import opened HttpParser
  import opened Connections

  datatype Lifecycle = Close | KeepAlive | Pipelined

  /** What follows one reader's turn: wait for the socket, close, or read a pipelined request. */
  datatype Next = Wait | Stop | Again

  /** The part of `tcp_connection` that readers share: read buffer, bookmark, lifecycle. */
  class TcpConnection {
    var readBuffer: string
    var savedPos: nat
    var lifecycle: Lifecycle

    constructor ()
      ensures readBuffer == "" && savedPos == 0 && lifecycle == Close
    {
      readBuffer, savedPos, lifecycle := "", 0, Close;
    }

    predicate IsPipelined()
      reads this
    {
      lifecycle.Pipelined?
    }

    predicate GetKeepAlive()
      reads this
    {
      !lifecycle.Close?
    }
  }

  /** What a call of `parse` hands to the server: one request, or none yet, or none because of an exception. */
  function Reports(r: Outcome): seq<Handled> {
    if r.verdict.More? || r.verdict.Raised? then [] else [Report(r)]
  }

  /** One connection, its current reader, and the requests handed to the server so far. */
  class Session {
    const cfg: Config
    const keep: Message -> bool
    const conn: TcpConnection
    var reader: HttpParser
    var handled: seq<Handled>

    ghost predicate Ready()
      reads this, reader, reader.content
    {
      reader.cfg == cfg && reader.Ready()
    }

    constructor (cfg: Config, keep: Message -> bool)
      ensures Ready() && reader.View() == NewReader() && reader.Rest() == "" && handled == []
      ensures this.cfg == cfg && this.keep == keep && fresh(conn) && fresh(reader) && fresh(reader.content)
    {
      this.cfg, this.keep := cfg, keep;
      conn := new TcpConnection();
      reader := new HttpParser(cfg, false);
      handled := [];
    }

    /**
     `consume_bytes`: parse what the buffer holds, then decide what becomes of the
     connection.  `rc` tells whether a request was finished.
     */
    method ConsumeBytes(ghost r: Outcome) returns (rc: Verdict)
      requires Ready() && reader.readPos < |reader.readBuffer| && conn.readBuffer == reader.readBuffer
      requires r == ParseRun(cfg, reader.View(), reader.Rest())
      modifies this`handled, conn, reader, reader.content
      ensures rc == r.verdict && conn.readBuffer == old(conn.readBuffer) == reader.readBuffer && reader.cfg == cfg
      ensures reader.readPos == old(reader.readPos) + r.n <= |reader.readBuffer|
      ensures rc.More? ==> Ready() && reader.View() == r.p
      ensures handled == old(handled) + Reports(r)
      ensures rc.Done? && keep(r.p.msg) ==>
        conn.lifecycle == if reader.readPos == |reader.readBuffer| then KeepAlive else Pipelined
      ensures rc.Done? && keep(r.p.msg) && conn.IsPipelined() ==> conn.savedPos == reader.readPos
      ensures rc.Fail? || (rc.Done? && !keep(r.p.msg)) ==> conn.lifecycle == Close
      ensures reader.content == old(reader.content) || fresh(reader.content)
    {
      rc := reader.Parse();
      if rc.Done? {
        if keep(reader.View().msg) {
          if reader.readPos == |reader.readBuffer| {
            conn.lifecycle := KeepAlive;
          } else {
            conn.lifecycle := Pipelined;
            conn.savedPos := reader.readPos;
          }
        } else {
          conn.lifecycle := Close;
        }
        handled := handled + [Handled(reader.View().msg, reader.payload, None)];
      } else if rc.Fail? {
        conn.lifecycle := Close;
        handled := handled + [Handled(reader.View().msg.(valid := false), reader.payload, Some(rc.error))];
      }
    }

    /**
     `receive` with a new reader, as the server does for a connection that stays open: a
     pipelined request starts at the saved position, any other one waits for the socket.
     */
    method Receive() returns (pending: bool)
      requires conn.IsPipelined() ==> conn.savedPos < |conn.readBuffer|
      modifies this`reader, conn
      ensures Ready() && fresh(reader) && fresh(reader.content) && reader.View() == NewReader()
      ensures conn.lifecycle == Close && conn.readBuffer == old(conn.readBuffer)
      ensures pending == old(conn.IsPipelined())
      ensures pending ==> reader.readBuffer == conn.readBuffer && reader.readPos == old(conn.savedPos)
    {
      pending := conn.IsPipelined();
      reader := new HttpParser(cfg, false);
      conn.lifecycle := Close;
      if pending {
        reader.readBuffer, reader.readPos := conn.readBuffer, conn.savedPos;
      }
    }

    /** One reader's turn, and the choice of the next one. */
    method ServeRequest(ghost e: Server, ghost p: Parser, ghost s: string) returns (next: Next)
      requires Ready() && reader.readPos < |reader.readBuffer| && conn.readBuffer == reader.readBuffer
      requires Models(e, cfg, keep) && p == reader.View() && s == reader.Rest()
      modifies this`handled, this`reader, conn, reader, reader.content
      ensures conn.readBuffer == old(conn.readBuffer) && reader.cfg == cfg
      ensures reader == old(reader) || fresh(reader)
      ensures reader.content == old(reader.content) || fresh(reader.content)
      ensures var r := e.parse(p, s);
        && r.n <= |s|
        && handled == old(handled) + Reports(r)
        && next == (if r.verdict.More? then Wait
                    else if !r.verdict.Done? || !keep(r.p.msg) then Stop
                    else if r.n == |s| then Wait else Again)
        && (next.Wait? ==> Ready() && reader.View() == if r.verdict.More? then r.p else NewReader())
        && (next.Again? ==> Ready() && reader.View() == NewReader() && reader.readBuffer == conn.readBuffer
                            && reader.readPos == old(reader.readPos) + r.n)
    {
      ghost var r := e.parse(p, s);
      assert Linked(p, s);
      var rc := ConsumeBytes(r);
      if rc.More? {
        return Wait;
      }
      if rc.Raised? {
        return Stop;  // the exception has taken the reader with it
      }
      if !conn.GetKeepAlive() {
        return Stop;
      }
      var pending := Receive();
      next := if pending then Again else Wait;
    }

    /** The same turn, as a step of the run over the rest `s` of the bytes. */
    method ServeNext(ghost e: Server, ghost served: Served, ghost s: string) returns (next: Next, ghost rest: Served)
      requires Ready() && reader.readPos < |reader.readBuffer| && conn.readBuffer == reader.readBuffer
      requires Models(e, cfg, keep) && s == reader.Rest() && served == Serve(e, reader.View(), s)
      modifies this`handled, this`reader, conn, reader, reader.content
      ensures reader == old(reader) || fresh(reader)
      ensures reader.content == old(reader.content) || fresh(reader.content)
      ensures handled + rest.handled == old(handled) + served.handled && rest.end == served.end
      ensures !next.Again? ==> rest.handled == [] && (next.Wait? <==> served.end.Open?)
      ensures next.Wait? ==> Ready() && reader.View() == served.end.p
      ensures next.Again? ==> Ready() && reader.readBuffer == conn.readBuffer && reader.readPos < |reader.readBuffer|
      ensures next.Again? ==> reader.View() == NewReader() && rest == Serve(e, NewReader(), reader.Rest())
      ensures next.Again? ==> |reader.Rest()| < |s| || (|reader.Rest()| == |s| && !Unstarted(old(reader.View())))
    {
      ghost var p, done := reader.View(), handled;
      ghost var r := e.parse(p, s);
      ServeCases(e, p, s);
      next := ServeRequest(e, p, s);
      if next.Again? {
        rest := Serve(e, NewReader(), s[r.n..]);
        Assoc(done, [Report(r)], rest.handled);
        assert reader.Rest() == s[r.n..];
      } else {
        rest := Served([], served.end, 0);
        assert served.handled == Reports(r);
      }
    }

    /**
     A completed socket read: the current reader goes on with it, and so do the readers of
     the pipelined requests behind it.
     */
    method OnRead(bytes: string, ghost e: Server) returns (open: bool)
      requires Ready() && bytes != "" && Models(e, cfg, keep)
      modifies this`handled, this`reader, conn, reader, reader.content
      ensures var whole := old(Serve(e, reader.View(), bytes));
        && handled == old(handled) + whole.handled && (open <==> whole.end.Open?)
        && (open ==> Ready() && reader.View() == whole.end.p)
      ensures reader == old(reader) || fresh(reader)
      ensures reader.content == old(reader.content) || fresh(reader.content)
    {
      ghost var whole := Serve(e, reader.View(), bytes);
      conn.readBuffer := bytes;
      reader.SetReadBuffer(bytes);
      ghost var rest, s := whole, bytes;
      assert reader.Rest() == bytes;
      while true
        invariant Ready() && reader.readBuffer == conn.readBuffer && reader.readPos < |reader.readBuffer|
        invariant s == reader.Rest() && rest == Serve(e, reader.View(), s)
        invariant handled + rest.handled == old(handled) + whole.handled && rest.end == whole.end
        invariant reader == old(reader) || fresh(reader)
        invariant reader.content == old(reader.content) || fresh(reader.content)
        decreases |s|, if Unstarted(reader.View()) then 0 else 1
      {
        ghost var served := rest;
        var next;
        next, rest := ServeNext(e, served, s);
        if !next.Again? {
          return next.Wait?;
        }
        s := reader.Rest();
      }
    }

    /** A whole connection: its reads one after the other, until it closes. */
    method OnReads(pieces: seq<string>, ghost e: Server) returns (open: bool)
      requires Ready() && (forall b | b in pieces :: b != "") && Models(e, cfg, keep)
      modifies this`handled, this`reader, conn, reader, reader.content
      ensures var whole := old(ServeAll(e, reader.View(), pieces));
        && handled == old(handled) + whole.handled && (open <==> whole.end.Open?)
        && (open ==> Ready() && reader.View() == whole.end.p)
    {
      var i := 0;
      ghost var whole := ServeAll(e, reader.View(), pieces);
      ghost var rest := whole;
      while i < |pieces|
        invariant 0 <= i <= |pieces| && Ready() && rest == ServeAll(e, reader.View(), pieces[i..])
        invariant handled + rest.handled == old(handled) + whole.handled && rest.end == whole.end
        invariant reader == old(reader) || fresh(reader)
        invariant reader.content == old(reader.content) || fresh(reader.content)
      {
        ghost var x, before := Serve(e, reader.View(), pieces[i]), handled;
        assert pieces[i] in pieces;
        assert pieces[i..][0] == pieces[i] && pieces[i..][1..] == pieces[i + 1..];
        open := OnRead(pieces[i], e);
        if !open {
          return;
        }
        i := i + 1;
        rest := ServeAll(e, reader.View(), pieces[i..]);
        Assoc(before, x.handled, rest.handled);
      }
      return true;
    }
  }
}
