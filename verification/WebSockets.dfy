/**
 The receive side of `websocket`: reassembly of fragmented messages (section 5.4 of RFC 6455)
 over arbitrarily cut reads.

 Frames are decoded by another library; here the decoder is a parameter with stated laws.
 */
module WebSockets {
  import opened Bytes

  datatype FrameType = Text | Binary | Continuation | Ping | CloseFrame | Other

  /** What the library reads off the head of a buffer; `payload` is unmasked. */
  datatype Frame = Frame(size: nat, final: bool, kind: FrameType, payload: string)

  datatype Decoded = Malformed | Incomplete | Complete(frame: Frame)

  type Decoder = string -> Decoded

  /** A verdict on a buffer is final, and a complete frame is determined by its own bytes. */
  ghost predicate Lawful(d: Decoder) {
    && (forall s, t {:trigger Extended(s, t)} :: !d(s).Incomplete? ==> d(s + t) == d(s))
    && (forall s :: d(s).Complete? ==> 0 < d(s).frame.size <= |s| && d(s[..d(s).frame.size]) == d(s))
  }

  predicate Extended(s: string, t: string) {
    true
  }

  datatype CloseStatus = Normal | ProtocolError | Overflow

  datatype Event =
    | OnMessage(kind: FrameType, data: string)
    | OnPing(data: string)
    | OnClose(status: CloseStatus)

  /** The connection waits for bytes with these cached frames and this buffer, or it is closed. */
  datatype Waiting = Open(pending: seq<Frame>, buffer: string) | Closed

  datatype Delivery = Delivery(events: seq<Event>, end: Waiting) {
    function After(earlier: seq<Event>): Delivery {
      this.(events := earlier + events)
    }
  }

  predicate IsData(k: FrameType) {
    k.Text? || k.Binary? || k.Continuation?
  }

  function Payloads(frames: seq<Frame>): string {
    if frames == [] then "" else frames[0].payload + Payloads(frames[1..])
  }

  /** The frames carry these texts, each its own. */
  predicate Spells(frames: seq<Frame>, texts: seq<string>) {
    |frames| == |texts| && forall k | 0 <= k < |frames| :: frames[k].payload == texts[k]
  }

  /** The payloads of frames that carry these texts are the texts one after the other. */
  lemma {:induction false} SpelledPayloads(frames: seq<Frame>, texts: seq<string>)
    requires Spells(frames, texts)
    ensures Payloads(frames) == Flatten(texts)
    decreases |frames|
  {
    if frames != [] {
      SpelledPayloads(frames[1..], texts[1..]);
    }
  }

  function TextsOf(frames: seq<Frame>): (texts: seq<string>)
    ensures Spells(frames, texts)
  {
    seq(|frames|, k requires 0 <= k < |frames| => frames[k].payload)
  }

  lemma {:induction false} NoPayload(frames: seq<Frame>)
    ensures Payloads(frames) == "" <==> forall k | 0 <= k < |frames| :: frames[k].payload == ""
    decreases |frames|
  {
    if frames != [] {
      NoPayload(frames[1..]);
      assert forall k | 1 <= k < |frames| :: frames[1..][k - 1] == frames[k];
      assert |Payloads(frames)| == |frames[0].payload| + |Payloads(frames[1..])|;
    }
  }

  /** The event of a message made of these frames: the type of the first, all payloads. */
  function MessageOf(frames: seq<Frame>): Event
    requires frames != []
  {
    OnMessage(frames[0].kind, Payloads(frames))
  }

  const PING_MAX := 128

  /** What a complete and final frame does to the connection. */
  function FinalEvent(pending: seq<Frame>, f: Frame): Event {
    if IsData(f.kind) then MessageOf(pending + [f])
    else if f.kind.Ping? then OnPing(f.payload[..Min(PING_MAX, |f.payload|)])
    else OnClose(if f.kind.CloseFrame? then Normal else ProtocolError)
  }

  /** Everything a buffer sets off, when every message handler goes on to receive. */
  ghost function Deliver(d: Decoder, maxFrames: nat, pending: seq<Frame>, buffer: string): Delivery
    requires Lawful(d)
    decreases |buffer|
  {
    match d(buffer)
    case Malformed => Delivery([OnClose(ProtocolError)], Closed)
    case Incomplete => Delivery([], Open(pending, buffer))
    case Complete(f) =>
      var rest := buffer[f.size..];
      if !f.final then
        if |pending| >= maxFrames then Delivery([OnClose(Overflow)], Closed)
        else Deliver(d, maxFrames, pending + [f], rest)
      else if FinalEvent(pending, f).OnClose? then Delivery([FinalEvent(pending, f)], Closed)
      else Deliver(d, maxFrames, [], rest).After([FinalEvent(pending, f)])
  }

  /** Delivering two pieces is delivering their concatenation. */
  lemma {:induction false} DeliverAppend(d: Decoder, maxFrames: nat, pending: seq<Frame>, a: string, b: string)
    requires Lawful(d)
    ensures Deliver(d, maxFrames, pending, a + b) == (
              var x := Deliver(d, maxFrames, pending, a);
              if x.end.Open? then Deliver(d, maxFrames, x.end.pending, x.end.buffer + b).After(x.events) else x)
    decreases |a|
  {
    assert Extended(a, b);
    match d(a)
    case Malformed =>
    case Incomplete =>
      var y := Deliver(d, maxFrames, pending, a + b);
      assert [] + y.events == y.events;
    case Complete(f) =>
      assert (a + b)[f.size..] == a[f.size..] + b;
      if !f.final {
        if |pending| < maxFrames {
          DeliverAppend(d, maxFrames, pending + [f], a[f.size..], b);
        }
      } else if !FinalEvent(pending, f).OnClose? {
        DeliverAppend(d, maxFrames, [], a[f.size..], b);
        var x := Deliver(d, maxFrames, [], a[f.size..]);
        if x.end.Open? {
          Assoc([FinalEvent(pending, f)], x.events, Deliver(d, maxFrames, x.end.pending, x.end.buffer + b).events);
        }
      }
  }

  /** One read: refused when the buffer would grow over its limit. */
  ghost function ReadBytes(d: Decoder, maxBuffer: nat, maxFrames: nat, w: Waiting, bytes: string): Delivery
    requires Lawful(d) && w.Open?
  {
    if |w.buffer| + |bytes| > maxBuffer then Delivery([OnClose(Overflow)], Closed)
    else Deliver(d, maxFrames, w.pending, w.buffer + bytes)
  }

  /** The reads of a connection, one after the other, until it closes. */
  ghost function ReadAll(d: Decoder, maxBuffer: nat, maxFrames: nat, w: Waiting, pieces: seq<string>): Delivery
    requires Lawful(d) && w.Open?
    decreases |pieces|
  {
    if pieces == [] then Delivery([], w)
    else
      var x := ReadBytes(d, maxBuffer, maxFrames, w, pieces[0]);
      if x.end.Open? then ReadAll(d, maxBuffer, maxFrames, x.end, pieces[1..]).After(x.events) else x
  }

  /** No read of the run is refused for the size of the receive buffer. */
  ghost predicate Fits(d: Decoder, maxBuffer: nat, maxFrames: nat, w: Waiting, pieces: seq<string>)
    requires Lawful(d) && w.Open?
    decreases |pieces|
  {
    pieces != [] ==>
      && |w.buffer| + |pieces[0]| <= maxBuffer
      && var x := ReadBytes(d, maxBuffer, maxFrames, w, pieces[0]);
         x.end.Open? ==> Fits(d, maxBuffer, maxFrames, x.end, pieces[1..])
  }

  /** A connection that waits has nothing complete in its buffer. */
  ghost predicate Settled(d: Decoder, w: Waiting) {
    w.Open? ==> d(w.buffer).Incomplete?
  }

  lemma {:induction false} DeliverSettles(d: Decoder, maxFrames: nat, pending: seq<Frame>, buffer: string)
    requires Lawful(d)
    ensures Settled(d, Deliver(d, maxFrames, pending, buffer).end)
    decreases |buffer|
  {
    if d(buffer).Complete? {
      var f := d(buffer).frame;
      if !f.final {
        DeliverSettles(d, maxFrames, pending + [f], buffer[f.size..]);
      } else {
        DeliverSettles(d, maxFrames, [], buffer[f.size..]);
      }
    }
  }

  lemma {:induction false} ReadAllIsDeliver(d: Decoder, maxBuffer: nat, maxFrames: nat, w: Waiting, pieces: seq<string>)
    requires Lawful(d) && w.Open? && Settled(d, w) && Fits(d, maxBuffer, maxFrames, w, pieces)
    ensures ReadAll(d, maxBuffer, maxFrames, w, pieces) == Deliver(d, maxFrames, w.pending, w.buffer + Flatten(pieces))
    decreases |pieces|
  {
    if pieces == [] {
      assert w.buffer + Flatten(pieces) == w.buffer;
    } else {
      var a, b := w.buffer + pieces[0], Flatten(pieces[1..]);
      var x := Deliver(d, maxFrames, w.pending, a);
      DeliverSettles(d, maxFrames, w.pending, a);
      DeliverAppend(d, maxFrames, w.pending, a, b);
      Assoc(w.buffer, pieces[0], b);
      if x.end.Open? {
        ReadAllIsDeliver(d, maxBuffer, maxFrames, x.end, pieces[1..]);
      }
    }
  }

  /** However the bytes are cut into reads, the events are the same, as long as the buffer suffices. */
  lemma EventsDependOnBytes(d: Decoder, maxBuffer: nat, maxFrames: nat, pieces: seq<string>, others: seq<string>)
    requires Lawful(d) && d("").Incomplete? && Flatten(pieces) == Flatten(others)
    requires Fits(d, maxBuffer, maxFrames, Open([], ""), pieces) && Fits(d, maxBuffer, maxFrames, Open([], ""), others)
    ensures ReadAll(d, maxBuffer, maxFrames, Open([], ""), pieces)
         == ReadAll(d, maxBuffer, maxFrames, Open([], ""), others)
  {
    ReadAllIsDeliver(d, maxBuffer, maxFrames, Open([], ""), pieces);
    ReadAllIsDeliver(d, maxBuffer, maxFrames, Open([], ""), others);
  }

  // Reassembly.

  /** The bytes of one frame, and the frame they encode. */
  datatype Wire = Wire(bytes: string, frame: Frame)

  predicate Encodes(d: Decoder, w: Wire) {
    d(w.bytes) == Complete(w.frame) && w.frame.size == |w.bytes|
  }

  /** A data message: continuation fragments, then a final data frame. */
  datatype Sent = Sent(fragments: seq<Wire>, last: Wire)

  predicate LegalMessage(d: Decoder, maxFrames: nat, m: Sent) {
    && |m.fragments| <= maxFrames
    && (forall w | w in m.fragments :: Encodes(d, w) && !w.frame.final)
    && Encodes(d, m.last) && m.last.frame.final && IsData(m.last.frame.kind)
  }

  function WireBytes(ws: seq<Wire>): string {
    if ws == [] then "" else ws[0].bytes + WireBytes(ws[1..])
  }

  function FramesOf(ws: seq<Wire>): seq<Frame> {
    if ws == [] then [] else [ws[0].frame] + FramesOf(ws[1..])
  }

  function MessageBytes(m: Sent): string {
    WireBytes(m.fragments) + m.last.bytes
  }

  function StreamBytes(ms: seq<Sent>): string {
    if ms == [] then "" else MessageBytes(ms[0]) + StreamBytes(ms[1..])
  }

  /** One event per message, in order, with the payloads of all its frames. */
  function Expected(ms: seq<Sent>): seq<Event> {
    if ms == [] then [] else [MessageOf(FramesOf(ms[0].fragments) + [ms[0].last.frame])] + Expected(ms[1..])
  }

  /** What a message says: its type and the texts its frames carry. */
  datatype Meaning = Meaning(kind: FrameType, texts: seq<string>)

  predicate Says(m: Sent, says: Meaning) {
    && |says.texts| == |m.fragments| + 1
    && (forall k | 0 <= k < |m.fragments| :: m.fragments[k].frame.payload == says.texts[k])
    && m.last.frame.payload == says.texts[|m.fragments|]
    && says.kind == (if m.fragments == [] then m.last else m.fragments[0]).frame.kind
  }

  predicate SayAll(ms: seq<Sent>, say: seq<Meaning>) {
    |ms| == |say| && forall k | 0 <= k < |ms| :: Says(ms[k], say[k])
  }

  /** One event for each message: its type, and its texts one after the other. */
  predicate Delivered(events: seq<Event>, say: seq<Meaning>) {
    |events| == |say| && forall k | 0 <= k < |say| :: events[k] == OnMessage(say[k].kind, Flatten(say[k].texts))
  }

  lemma {:induction false} FramesAt(ws: seq<Wire>)
    ensures |FramesOf(ws)| == |ws| && forall k | 0 <= k < |ws| :: FramesOf(ws)[k] == ws[k].frame
    decreases |ws|
  {
    if ws != [] {
      FramesAt(ws[1..]);
    }
  }

  lemma MessageSays(m: Sent, says: Meaning)
    requires Says(m, says)
    ensures MessageOf(FramesOf(m.fragments) + [m.last.frame]) == OnMessage(says.kind, Flatten(says.texts))
  {
    FramesAt(m.fragments);
    SpelledPayloads(FramesOf(m.fragments) + [m.last.frame], says.texts);
  }

  lemma {:induction false} ExpectedSays(ms: seq<Sent>, say: seq<Meaning>)
    requires SayAll(ms, say)
    ensures Delivered(Expected(ms), say)
    decreases |ms|
  {
    if ms != [] {
      MessageSays(ms[0], say[0]);
      ExpectedSays(ms[1..], say[1..]);
    }
  }

  lemma FrameFirst(d: Decoder, w: Wire, rest: string)
    requires Lawful(d) && Encodes(d, w)
    ensures d(w.bytes + rest) == Complete(w.frame) && (w.bytes + rest)[w.frame.size..] == rest
  {
    assert Extended(w.bytes, rest);
  }

  lemma DeliverFragment(d: Decoder, maxFrames: nat, pending: seq<Frame>, w: Wire, rest: string)
    requires Lawful(d) && |pending| < maxFrames && Encodes(d, w) && !w.frame.final
    ensures Deliver(d, maxFrames, pending, w.bytes + rest) == Deliver(d, maxFrames, pending + [w.frame], rest)
  {
    FrameFirst(d, w, rest);
  }

  lemma {:induction false} DeliverFragments(d: Decoder, maxFrames: nat, pending: seq<Frame>, ws: seq<Wire>,
                                            rest: string)
    requires Lawful(d) && |pending| + |ws| <= maxFrames && forall w | w in ws :: Encodes(d, w) && !w.frame.final
    ensures Deliver(d, maxFrames, pending, WireBytes(ws) + rest) == Deliver(d, maxFrames, pending + FramesOf(ws), rest)
    decreases |ws|
  {
    if ws == [] {
      assert WireBytes(ws) + rest == rest && pending + FramesOf(ws) == pending;
    } else {
      assert ws[0] in ws && forall w | w in ws[1..] :: w in ws;
      Assoc(ws[0].bytes, WireBytes(ws[1..]), rest);
      DeliverFragment(d, maxFrames, pending, ws[0], WireBytes(ws[1..]) + rest);
      DeliverFragments(d, maxFrames, pending + [ws[0].frame], ws[1..], rest);
      Assoc(pending, [ws[0].frame], FramesOf(ws[1..]));
    }
  }

  lemma DeliverMessage(d: Decoder, maxFrames: nat, m: Sent, rest: string)
    requires Lawful(d) && LegalMessage(d, maxFrames, m)
    ensures Deliver(d, maxFrames, [], MessageBytes(m) + rest)
         == Deliver(d, maxFrames, [], rest).After([MessageOf(FramesOf(m.fragments) + [m.last.frame])])
  {
    Assoc(WireBytes(m.fragments), m.last.bytes, rest);
    DeliverFragments(d, maxFrames, [], m.fragments, m.last.bytes + rest);
    assert [] + FramesOf(m.fragments) == FramesOf(m.fragments);
    FrameFirst(d, m.last, rest);
  }

  lemma {:induction false} DeliverMessages(d: Decoder, maxFrames: nat, ms: seq<Sent>, rest: string)
    requires Lawful(d) && d(rest).Incomplete? && forall m | m in ms :: LegalMessage(d, maxFrames, m)
    ensures Deliver(d, maxFrames, [], StreamBytes(ms) + rest) == Delivery(Expected(ms), Open([], rest))
    decreases |ms|
  {
    if ms == [] {
      assert StreamBytes(ms) + rest == rest;
    } else {
      Assoc(MessageBytes(ms[0]), StreamBytes(ms[1..]), rest);
      DeliverMessage(d, maxFrames, ms[0], StreamBytes(ms[1..]) + rest);
      DeliverMessages(d, maxFrames, ms[1..], rest);
    }
  }

  /**
   Reassembly: every sequence of data messages, each in any number of fragments, read in any
   pieces that fit the buffer (and with an incomplete frame behind them), is delivered as one
   event per message, in order, with the type of the message and its texts one after the other;
   the rest stays buffered.
   */
  lemma Reassembly(d: Decoder, maxBuffer: nat, maxFrames: nat, ms: seq<Sent>, say: seq<Meaning>, rest: string,
                   pieces: seq<string>)
    requires Lawful(d) && d("").Incomplete? && d(rest).Incomplete?
    requires SayAll(ms, say) && forall m | m in ms :: LegalMessage(d, maxFrames, m)
    requires Flatten(pieces) == StreamBytes(ms) + rest && Fits(d, maxBuffer, maxFrames, Open([], ""), pieces)
    ensures var x := ReadAll(d, maxBuffer, maxFrames, Open([], ""), pieces);
      Delivered(x.events, say) && x.end == Open([], rest)
  {
    ExpectedSays(ms, say);
    ReadAllIsDeliver(d, maxBuffer, maxFrames, Open([], ""), pieces);
    assert "" + Flatten(pieces) == Flatten(pieces);
    DeliverMessages(d, maxFrames, ms, rest);
  }

  // Which cuttings fit.

  /** A buffer that ends before the first frame does is incomplete, and any other is not. */
  lemma PrefixOfFrames(d: Decoder, s: string, more: string, ws: seq<Wire>, rest: string)
    requires Lawful(d) && d(rest).Incomplete? && forall k | 0 <= k < |ws| :: Encodes(d, ws[k])
    requires s + more == WireBytes(ws) + rest
    ensures d(s).Incomplete? <==> ws == [] || |s| < |ws[0].bytes|
    ensures ws != [] && |s| >= |ws[0].bytes| ==>
      d(s) == Complete(ws[0].frame) && s[|ws[0].bytes|..] + more == WireBytes(ws[1..]) + rest
  {
    if ws == [] {
      assert WireBytes(ws) + rest == rest;
      assert Extended(s, more);
    } else {
      var w, after := ws[0].bytes, WireBytes(ws[1..]) + rest;
      Assoc(w, WireBytes(ws[1..]), rest);
      assert s + more == w + after;
      if |s| < |w| {
        var t := w[|s|..];
        assert w == (w + after)[..|w|] && s == (s + more)[..|s|];
        assert w == s + t;
        assert Extended(s, t);
      } else {
        var t := s[|w|..];
        assert w == (s + more)[..|w|];
        assert s == w + t;
        FrameFirst(d, ws[0], t);
        assert t + more == (s + more)[|w|..] == after;
      }
    }
  }

  /** No frame is longer than `size`, and so would be the one that `rest` begins. */
  predicate Bounded(d: Decoder, ws: seq<Wire>, rest: string, size: nat) {
    |rest| < size && forall k | 0 <= k < |ws| :: Encodes(d, ws[k]) && |ws[k].bytes| <= size
  }

  /** A frame that keeps the connection open leaves it as the rest of the buffer does. */
  lemma DeliverFrame(d: Decoder, maxFrames: nat, pending: seq<Frame>, s: string, f: Frame)
    requires Lawful(d) && d(s) == Complete(f)
    ensures var end := Deliver(d, maxFrames, pending, s).end;
      end.Open? ==> end == Deliver(d, maxFrames, if f.final then [] else pending + [f], s[f.size..]).end
  {
  }

  /** What a read leaves in the buffer is again the beginning of the frames that are still to come. */
  lemma {:induction false} DeliverPrefix(d: Decoder, maxFrames: nat, pending: seq<Frame>, s: string, more: string,
                                         ws: seq<Wire>, rest: string, size: nat) returns (later: seq<Wire>)
    requires Lawful(d) && d(rest).Incomplete? && Bounded(d, ws, rest, size) && s + more == WireBytes(ws) + rest
    ensures Bounded(d, later, rest, size)
    ensures var end := Deliver(d, maxFrames, pending, s).end;
      end.Open? ==> end.buffer + more == WireBytes(later) + rest
    decreases |ws|
  {
    PrefixOfFrames(d, s, more, ws, rest);
    if d(s).Incomplete? {
      later := ws;
    } else {
      var f := ws[0].frame;
      DeliverFrame(d, maxFrames, pending, s, f);
      var kept := if f.final then [] else pending + [f];
      later := DeliverPrefix(d, maxFrames, kept, s[f.size..], more, ws[1..], rest, size);
    }
  }

  /**
   With frames of at most `size` bytes and a buffer that has room for one of them, but for its
   last byte, besides a whole read, no cutting is ever refused.
   */
  lemma {:induction false} EveryCuttingFits(d: Decoder, maxBuffer: nat, maxFrames: nat, w: Waiting, pieces: seq<string>,
                                            ws: seq<Wire>, rest: string, size: nat)
    requires Lawful(d) && d(rest).Incomplete? && Bounded(d, ws, rest, size)
    requires w.Open? && Settled(d, w) && w.buffer + Flatten(pieces) == WireBytes(ws) + rest
    requires forall k | 0 <= k < |pieces| :: size + |pieces[k]| <= maxBuffer + 1
    ensures Fits(d, maxBuffer, maxFrames, w, pieces)
    decreases |pieces|
  {
    if pieces != [] {
      var s, more := w.buffer + pieces[0], Flatten(pieces[1..]);
      PrefixOfFrames(d, w.buffer, Flatten(pieces), ws, rest);
      if ws == [] {
        assert WireBytes(ws) + rest == rest;
      }
      assert |w.buffer| < size;
      Assoc(w.buffer, pieces[0], more);
      var later := DeliverPrefix(d, maxFrames, w.pending, s, more, ws, rest, size);
      DeliverSettles(d, maxFrames, w.pending, s);
      var x := ReadBytes(d, maxBuffer, maxFrames, w, pieces[0]);
      if x.end.Open? {
        EveryCuttingFits(d, maxBuffer, maxFrames, x.end, pieces[1..], later, rest, size);
      }
    }
  }

  /** The frames of a list of messages. */
  function AllWires(ms: seq<Sent>): seq<Wire> {
    if ms == [] then [] else (ms[0].fragments + [ms[0].last]) + AllWires(ms[1..])
  }

  lemma {:induction false} WireBytesAppend(a: seq<Wire>, b: seq<Wire>)
    ensures WireBytes(a + b) == WireBytes(a) + WireBytes(b)
    decreases |a|
  {
    if a == [] {
      assert a + b == b;
    } else {
      assert (a + b)[1..] == a[1..] + b;
      WireBytesAppend(a[1..], b);
      Assoc(a[0].bytes, WireBytes(a[1..]), WireBytes(b));
    }
  }

  /** One fragment too many closes the connection. */
  lemma TooManyFragments(d: Decoder, maxFrames: nat, ws: seq<Wire>, rest: string)
    requires Lawful(d) && |ws| > maxFrames && forall k | 0 <= k < |ws| :: Encodes(d, ws[k]) && !ws[k].frame.final
    ensures Deliver(d, maxFrames, [], WireBytes(ws) + rest) == Delivery([OnClose(Overflow)], Closed)
  {
    var kept, more := ws[..maxFrames], ws[maxFrames..];
    assert ws == kept + more;
    WireBytesAppend(kept, more);
    Assoc(WireBytes(kept), WireBytes(more), rest);
    Assoc(more[0].bytes, WireBytes(more[1..]), rest);
    DeliverFragments(d, maxFrames, [], kept, WireBytes(more) + rest);
    FramesAt(kept);
    assert [] + FramesOf(kept) == FramesOf(kept);
    OneTooMany(d, maxFrames, FramesOf(kept), more[0], WireBytes(more[1..]) + rest);
  }

  lemma OneTooMany(d: Decoder, maxFrames: nat, pending: seq<Frame>, w: Wire, rest: string)
    requires Lawful(d) && |pending| >= maxFrames && Encodes(d, w) && !w.frame.final
    ensures Deliver(d, maxFrames, pending, w.bytes + rest) == Delivery([OnClose(Overflow)], Closed)
  {
    FrameFirst(d, w, rest);
  }

  lemma {:induction false} AllWiresAreTheStream(d: Decoder, maxFrames: nat, ms: seq<Sent>)
    requires forall m | m in ms :: LegalMessage(d, maxFrames, m)
    ensures WireBytes(AllWires(ms)) == StreamBytes(ms)
    ensures forall k | 0 <= k < |AllWires(ms)| :: Encodes(d, AllWires(ms)[k])
    decreases |ms|
  {
    if ms != [] {
      var m := ms[0];
      assert m in ms && forall x | x in ms[1..] :: x in ms;
      WireBytesAppend(m.fragments, [m.last]);
      WireBytesAppend(m.fragments + [m.last], AllWires(ms[1..]));
      assert [m.last][1..] == [] && m.last.bytes + "" == m.last.bytes;
      AllWiresAreTheStream(d, maxFrames, ms[1..]);
    }
  }

  lemma BoundedFits(d: Decoder, maxBuffer: nat, maxFrames: nat, ms: seq<Sent>, rest: string, pieces: seq<string>,
                    size: nat)
    requires Lawful(d) && d("").Incomplete? && d(rest).Incomplete?
    requires forall m | m in ms :: LegalMessage(d, maxFrames, m)
    requires Flatten(pieces) == StreamBytes(ms) + rest
    requires Bounded(d, AllWires(ms), rest, size) && forall k | 0 <= k < |pieces| :: size + |pieces[k]| <= maxBuffer + 1
    ensures Fits(d, maxBuffer, maxFrames, Open([], ""), pieces)
  {
    AllWiresAreTheStream(d, maxFrames, ms);
    assert "" + Flatten(pieces) == Flatten(pieces);
    EveryCuttingFits(d, maxBuffer, maxFrames, Open([], ""), pieces, AllWires(ms), rest, size);
  }

  /** Reassembly by sizes alone: bounded frames and reads, whatever the cutting. */
  lemma BoundedReassembly(d: Decoder, maxBuffer: nat, maxFrames: nat, ms: seq<Sent>, say: seq<Meaning>, rest: string,
                          pieces: seq<string>, size: nat)
    requires Lawful(d) && d("").Incomplete? && d(rest).Incomplete?
    requires SayAll(ms, say) && forall m | m in ms :: LegalMessage(d, maxFrames, m)
    requires Flatten(pieces) == StreamBytes(ms) + rest
    requires Bounded(d, AllWires(ms), rest, size) && forall k | 0 <= k < |pieces| :: size + |pieces[k]| <= maxBuffer + 1
    ensures var x := ReadAll(d, maxBuffer, maxFrames, Open([], ""), pieces);
      Delivered(x.events, say) && x.end == Open([], rest)
  {
    BoundedFits(d, maxBuffer, maxFrames, ms, rest, pieces, size);
    Reassembly(d, maxBuffer, maxFrames, ms, say, rest, pieces);
  }

  // Frames that are not data.

  /**
   A ping is answered with the first 128 bytes it carries, and drops what is cached; a close frame
   ends the connection normally, and any other frame, or none, for a breach of the protocol.
   */
  lemma ControlFrames(d: Decoder, maxFrames: nat, pending: seq<Frame>, buffer: string)
    requires Lawful(d) && !d(buffer).Incomplete?
    requires d(buffer).Complete? ==> d(buffer).frame.final && !IsData(d(buffer).frame.kind)
    ensures var x := Deliver(d, maxFrames, pending, buffer);
      if d(buffer).Complete? && d(buffer).frame.kind.Ping? then
        var f := d(buffer).frame;
        exists answer :: |answer| == (if |f.payload| <= 128 then |f.payload| else 128) && answer <= f.payload
                         && x == Deliver(d, maxFrames, [], buffer[f.size..]).After([OnPing(answer)])
      else if d(buffer).Complete? && d(buffer).frame.kind.CloseFrame? then x == Delivery([OnClose(Normal)], Closed)
      else x == Delivery([OnClose(ProtocolError)], Closed)
  {
    if d(buffer).Complete? && d(buffer).frame.kind.Ping? {
      var f := d(buffer).frame;
      var answer := f.payload[..Min(PING_MAX, |f.payload|)];
      assert answer <= f.payload;
      var later := Deliver(d, maxFrames, [], buffer[f.size..]);
      assert Deliver(d, maxFrames, pending, buffer) == later.After([OnPing(answer)]);
    }
  }

  // Pings between fragments.

  /** A frame of a message, or a ping in between. */
  datatype Item = Fragment(w: Wire) | Between(w: Wire)

  predicate LegalItem(d: Decoder, i: Item) {
    Encodes(d, i.w) && if i.Fragment? then !i.w.frame.final else i.w.frame.final && i.w.frame.kind.Ping?
  }

  function ItemBytes(items: seq<Item>): string {
    if items == [] then "" else items[0].w.bytes + ItemBytes(items[1..])
  }

  /** The fragments of the message. */
  function Fragments(items: seq<Item>): seq<Frame> {
    if items == [] then []
    else (if items[0].Fragment? then [items[0].w.frame] else []) + Fragments(items[1..])
  }

  function Pings(items: seq<Item>): seq<Event> {
    if items == [] then []
    else (if items[0].Fragment? then [] else [FinalEvent([], items[0].w.frame)]) + Pings(items[1..])
  }

  /** With `n` frames cached, the limit on cached frames is never hit. */
  predicate Cacheable(maxFrames: nat, n: nat, items: seq<Item>)
    decreases |items|
  {
    items == [] || if items[0].Fragment? then n < maxFrames && Cacheable(maxFrames, n + 1, items[1..])
                   else Cacheable(maxFrames, 0, items[1..])
  }

  predicate HasPing(items: seq<Item>) {
    exists k | 0 <= k < |items| :: items[k].Between?
  }

  /** The fragments before the last ping. */
  function Dropped(items: seq<Item>): seq<Frame> {
    if !HasPing(items) then []
    else (if items[0].Fragment? then [items[0].w.frame] else []) + Dropped(items[1..])
  }

  /** The fragments after the last ping. */
  function Kept(items: seq<Item>): seq<Frame> {
    if HasPing(items) then Kept(items[1..]) else Fragments(items)
  }

  lemma {:induction false} DroppedThenKept(items: seq<Item>)
    ensures Fragments(items) == Dropped(items) + Kept(items)
    decreases |items|
  {
    if HasPing(items) {
      DroppedThenKept(items[1..]);
      Assoc(if items[0].Fragment? then [items[0].w.frame] else [], Dropped(items[1..]), Kept(items[1..]));
    }
  }

  lemma DeliverPing(d: Decoder, maxFrames: nat, pending: seq<Frame>, ping: Wire, rest: string)
    requires Lawful(d) && Encodes(d, ping) && ping.frame.final && ping.frame.kind.Ping?
    ensures Deliver(d, maxFrames, pending, ping.bytes + rest)
         == Deliver(d, maxFrames, [], rest).After([FinalEvent([], ping.frame)])
  {
    FrameFirst(d, ping, rest);
  }

  lemma PingAhead(items: seq<Item>)
    requires items != []
    ensures HasPing(items) <==> items[0].Between? || HasPing(items[1..])
  {
    if HasPing(items) && items[0].Fragment? {
      var k :| 0 <= k < |items| && items[k].Between?;
      assert items[1..][k - 1] == items[k];
    }
  }

  /** Any fragments and pings: the pings are answered, and only what follows the last one stays. */
  lemma {:induction false} DeliverItems(d: Decoder, maxFrames: nat, pending: seq<Frame>, items: seq<Item>, rest: string)
    requires Lawful(d) && Cacheable(maxFrames, |pending|, items)
    requires forall k | 0 <= k < |items| :: LegalItem(d, items[k])
    ensures Deliver(d, maxFrames, pending, ItemBytes(items) + rest)
         == Deliver(d, maxFrames, (if HasPing(items) then [] else pending) + Kept(items), rest).After(Pings(items))
    decreases |items|
  {
    if items == [] {
      var x := Deliver(d, maxFrames, pending, rest);
      assert ItemBytes(items) + rest == rest && pending + [] == pending && [] + x.events == x.events;
    } else {
      var w, later := items[0].w, ItemBytes(items[1..]) + rest;
      var end := Deliver(d, maxFrames, (if HasPing(items) then [] else pending) + Kept(items), rest);
      Assoc(w.bytes, ItemBytes(items[1..]), rest);
      PingAhead(items);
      if items[0].Fragment? {
        DeliverFragment(d, maxFrames, pending, w, later);
        DeliverItems(d, maxFrames, pending + [w.frame], items[1..], rest);
        Assoc(pending, [w.frame], Kept(items[1..]));
        assert [] + Pings(items[1..]) == Pings(items[1..]);
      } else {
        DeliverPing(d, maxFrames, pending, w, later);
        DeliverItems(d, maxFrames, [], items[1..], rest);
        Assoc([FinalEvent([], w.frame)], Pings(items[1..]), end.events);
      }
    }
  }

  lemma {:induction false} PayloadsAppend(a: seq<Frame>, b: seq<Frame>)
    ensures Payloads(a + b) == Payloads(a) + Payloads(b)
    decreases |a|
  {
    if a == [] {
      assert a + b == b;
    } else {
      assert (a + b)[1..] == a[1..] + b;
      PayloadsAppend(a[1..], b);
      Assoc(a[0].payload, Payloads(a[1..]), Payloads(b));
    }
  }

  /** Leaving out the first frames of a message goes unnoticed when they are empty and of the right type. */
  lemma SameMessageWithout(before: seq<Frame>, after: seq<Frame>)
    requires after != []
    ensures MessageOf(after) == MessageOf(before + after)
       <==> before == [] || (Payloads(before) == "" && before[0].kind == after[0].kind)
  {
    PayloadsAppend(before, after);
    assert "" + Payloads(after) == Payloads(after);
    if before == [] {
      assert before + after == after;
    } else if Payloads(after) == Payloads(before) + Payloads(after) {
      assert |Payloads(before)| == 0;
    }
  }

  lemma SameAfter(x: Delivery, a: Event, b: Event, pings: seq<Event>)
    ensures x.After([a]).After(pings) == x.After([b]).After(pings) <==> a == b
  {
    if x.After([a]).After(pings) == x.After([b]).After(pings) {
      assert (pings + ([a] + x.events))[|pings|] == a;
      assert (pings + ([b] + x.events))[|pings|] == b;
    }
  }

  /** With pings in between, the message delivered is made of the fragments after the last ping. */
  lemma PingDropsFragments(d: Decoder, maxFrames: nat, items: seq<Item>, last: Wire, rest: string, texts: seq<string>)
    requires Lawful(d) && Cacheable(maxFrames, 0, items) && forall k | 0 <= k < |items| :: LegalItem(d, items[k])
    requires Encodes(d, last) && last.frame.final && IsData(last.frame.kind)
    requires Spells(Kept(items) + [last.frame], texts)
    ensures var message := OnMessage((Kept(items) + [last.frame])[0].kind, Flatten(texts));
      Deliver(d, maxFrames, [], ItemBytes(items) + (last.bytes + rest))
      == Deliver(d, maxFrames, [], rest).After([message]).After(Pings(items))
  {
    SpelledPayloads(Kept(items) + [last.frame], texts);
    DeliverItems(d, maxFrames, [], items, last.bytes + rest);
    assert [] + Kept(items) == Kept(items);
    FrameFirst(d, last, rest);
  }

  /**
   A message with any number of pings between its fragments is delivered as a whole if and only
   if the fragments before the last ping carry no data and start with the type that the
   remaining ones start with.
   */
  lemma SurvivesPings(d: Decoder, maxFrames: nat, items: seq<Item>, last: Wire, rest: string)
    requires Lawful(d) && Cacheable(maxFrames, 0, items) && forall k | 0 <= k < |items| :: LegalItem(d, items[k])
    requires Encodes(d, last) && last.frame.final && IsData(last.frame.kind)
    ensures Deliver(d, maxFrames, [], ItemBytes(items) + (last.bytes + rest))
         == Deliver(d, maxFrames, [], rest).After([MessageOf(Fragments(items) + [last.frame])]).After(Pings(items))
       <==> (Dropped(items) == []
             || ((forall k | 0 <= k < |Dropped(items)| :: Dropped(items)[k].payload == "")
                && Dropped(items)[0].kind == (Kept(items) + [last.frame])[0].kind))
  {
    var kept := Kept(items) + [last.frame];
    PingDropsFragments(d, maxFrames, items, last, rest, TextsOf(kept));
    SpelledPayloads(kept, TextsOf(kept));
    NoPayload(Dropped(items));
    DroppedThenKept(items);
    Assoc(Dropped(items), Kept(items), [last.frame]);
    SameMessageWithout(Dropped(items), Kept(items) + [last.frame]);
    SameAfter(Deliver(d, maxFrames, [], rest), MessageOf(Kept(items) + [last.frame]),
              MessageOf(Fragments(items) + [last.frame]), Pings(items));
  }

  // The class.

  /** A cached copy of a frame, or a view of the head of the receive buffer. */
  datatype FrameRef = Cached(bytes: string) | Head(size: nat)

  /** The bytes a frame reference stands for. */
  function BytesOf(buffer: string, r: FrameRef): string {
    if r.Cached? then r.bytes else buffer[..Min(r.size, |buffer|)]
  }

  /** The frames behind a list of references. */
  function FramesNow(d: Decoder, buffer: string, refs: seq<FrameRef>): seq<Frame> {
    if refs == [] then [] else FrameNow(d, buffer, refs[0]) + FramesNow(d, buffer, refs[1..])
  }

  function FrameNow(d: Decoder, buffer: string, r: FrameRef): seq<Frame> {
    var x := d(BytesOf(buffer, r));
    if x.Complete? then [x.frame] else []
  }

  lemma {:induction false} FramesNowAppend(d: Decoder, buffer: string, a: seq<FrameRef>, b: seq<FrameRef>)
    ensures FramesNow(d, buffer, a + b) == FramesNow(d, buffer, a) + FramesNow(d, buffer, b)
    decreases |a|
  {
    if a == [] {
      assert a + b == b;
    } else {
      assert (a + b)[0] == a[0] && (a + b)[1..] == a[1..] + b;
      FramesNowAppend(d, buffer, a[1..], b);
      Assoc(FrameNow(d, buffer, a[0]), FramesNow(d, buffer, a[1..]), FramesNow(d, buffer, b));
    }
  }

  /** Cached frames do not depend on the buffer. */
  lemma {:induction false} CachedFrames(d: Decoder, buffer: string, other: string, refs: seq<FrameRef>)
    requires forall r | r in refs :: r.Cached?
    ensures FramesNow(d, buffer, refs) == FramesNow(d, other, refs)
    decreases |refs|
  {
    if refs != [] {
      assert refs[0] in refs && forall r | r in refs[1..] :: r in refs;
      CachedFrames(d, buffer, other, refs[1..]);
    }
  }

  lemma {:induction false} CachedCount(d: Decoder, buffer: string, refs: seq<FrameRef>)
    requires forall r | r in refs :: d(BytesOf(buffer, r)).Complete?
    ensures |FramesNow(d, buffer, refs)| == |refs|
    decreases |refs|
  {
    if refs != [] {
      assert refs[0] in refs && forall r | r in refs[1..] :: r in refs;
      CachedCount(d, buffer, refs[1..]);
    }
  }

  /** What one look at the buffer leads to. */
  datatype Signal = NeedBytes | Posted | Handled | Shut

  class WebSocket {
    const d: Decoder
    const maxBuffer: nat
    const maxFrames: nat
    var receiveBuffer: string
    var frames: seq<FrameRef>
    var events: seq<Event>

    // bytes that left the receive buffer, and all bytes that ever entered it
    ghost var removed: string
    ghost var received: string

    constructor (d: Decoder, maxBuffer: nat, maxFrames: nat)
      requires Lawful(d)
      ensures Waiting() && Pending() == [] && receiveBuffer == "" && events == [] && received == ""
      ensures this.d == d && this.maxBuffer == maxBuffer && this.maxFrames == maxFrames
    {
      this.d, this.maxBuffer, this.maxFrames := d, maxBuffer, maxFrames;
      receiveBuffer, frames, events := "", [], [];
      removed, received := "", "";
    }

    /** Every byte received is in the buffer or was removed from its head, in order. */
    ghost predicate Conserved()
      reads `removed, `receiveBuffer, `received
    {
      Lawful(d) && removed + receiveBuffer == received
    }

    /** Between messages: every frame is a cached copy of a complete frame. */
    ghost predicate Waiting()
      reads `removed, `receiveBuffer, `received, `frames
    {
      Conserved() && forall r | r in frames :: r.Cached? && d(r.bytes).Complete?
    }

    /**
     While a handler runs: the last frame is a view of the head of the receive buffer, and
     only the frames before it are cached.
     */
    ghost predicate Handling()
      reads `removed, `receiveBuffer, `received, `frames
    {
      && Conserved() && frames != [] && frames[|frames| - 1].Head? && frames[|frames| - 1].size <= |receiveBuffer|
      && forall r | r in frames[..|frames| - 1] :: r.Cached? && d(r.bytes).Complete?
    }

    function Pending(): seq<Frame>
      reads `receiveBuffer, `frames
    {
      FramesNow(d, receiveBuffer, frames)
    }

    /** `remove_frame_from_receive_buffer`: the tail moves to the front. */
    method RemoveFromReceiveBuffer(size: nat)
      requires Conserved() && size <= |receiveBuffer|
      modifies `receiveBuffer, `removed
      ensures Conserved() && receiveBuffer == old(receiveBuffer)[size..]
    {
      removed := removed + receiveBuffer[..size];
      receiveBuffer := receiveBuffer[size..];
    }

    /** `add_to_frames_cache`: a copy is kept, and the original leaves the buffer. */
    method AddToFramesCache(ghost f: Frame, size: nat)
      requires Waiting() && d(receiveBuffer) == Complete(f) && size == f.size
      modifies `receiveBuffer, `frames, `removed
      ensures Waiting() && receiveBuffer == old(receiveBuffer)[size..] && Pending() == old(Pending()) + [f]
    {
      ghost var before, refs := receiveBuffer, frames;
      var copy := Cached(receiveBuffer[..size]);
      frames := frames + [copy];
      RemoveFromReceiveBuffer(size);
      FramesNowAppend(d, receiveBuffer, refs, [copy]);
      CachedFrames(d, before, receiveBuffer, refs);
      assert FramesNow(d, receiveBuffer, [copy]) == [f];
    }

    /** `clear_frames_cache`: it removes the last frame from the buffer, so that one must be the view. */
    method ClearFramesCache()
      requires Handling()
      modifies `receiveBuffer, `frames, `removed
      ensures Waiting() && frames == [] && receiveBuffer == old(receiveBuffer)[old(frames)[|old(frames)| - 1].size..]
    {
      RemoveFromReceiveBuffer(frames[|frames| - 1].size);
      frames := [];
    }

    /** `message_data`: the payloads of all frames in order, read through their references. */
    method MessageData() returns (data: string)
      ensures data == Payloads(Pending())
      ensures forall texts :: Spells(Pending(), texts) ==> data == Flatten(texts)
    {
      forall texts | Spells(Pending(), texts)
        ensures Payloads(Pending()) == Flatten(texts)
      {
        SpelledPayloads(Pending(), texts);
      }
      data := "";
      var i := 0;
      assert frames[0..] == frames;
      while i < |frames|
        invariant 0 <= i <= |frames| && data + Payloads(FramesNow(d, receiveBuffer, frames[i..])) == Payloads(Pending())
      {
        ghost var later := FramesNow(d, receiveBuffer, frames[i + 1..]);
        assert frames[i..][0] == frames[i] && frames[i..][1..] == frames[i + 1..];
        var x := d(BytesOf(receiveBuffer, frames[i]));
        if x.Complete? {
          Assoc(data, x.frame.payload, Payloads(later));
          assert ([x.frame] + later)[1..] == later;
          data := data + x.frame.payload;
        } else {
          assert [] + later == later;
        }
        i := i + 1;
      }
      assert frames[|frames|..] == [] && data + "" == data;
    }

    /** The final frame joins the others without being copied. */
    method PushView(f: Frame)
      requires Waiting() && d(receiveBuffer) == Complete(f)
      modifies `frames
      ensures Handling() && frames[|frames| - 1].size == f.size
      ensures Pending() == old(Pending()) + [f] && d(BytesOf(receiveBuffer, frames[0])).Complete?
    {
      ghost var refs := frames;
      frames := frames + [Head(f.size)];
      FramesNowAppend(d, receiveBuffer, refs, [Head(f.size)]);
      assert FramesNow(d, receiveBuffer, [Head(f.size)]) == [f];
      assert frames[..|frames| - 1] == refs;
    }

    /** `process_final_frame`: the frame is pushed as a view, and its handler runs. */
    method ProcessFinalFrame(f: Frame) returns (sig: Signal)
      requires Waiting() && d(receiveBuffer) == Complete(f) && f.final
      modifies `frames, `events
      ensures sig == if FinalEvent(old(Pending()), f).OnClose? then Shut else Handled
      ensures events == old(events) + [FinalEvent(old(Pending()), f)]
      ensures Handling() && frames[|frames| - 1].size == f.size
    {
      ghost var pending := Pending();
      PushView(f);
      sig := ChooseHandler(f, pending);
    }

    /** The switch over the frame type. */
    method ChooseHandler(f: Frame, ghost pending: seq<Frame>) returns (sig: Signal)
      requires frames != [] && Pending() == pending + [f] && d(BytesOf(receiveBuffer, frames[0])).Complete?
      modifies `events
      ensures events == old(events) + [FinalEvent(pending, f)]
      ensures sig == if FinalEvent(pending, f).OnClose? then Shut else Handled
    {
      match f.kind {
        case Text =>
          sig := NotifyMessage(pending + [f]);
        case Binary =>
          sig := NotifyMessage(pending + [f]);
        case Continuation =>
          sig := NotifyMessage(pending + [f]);
        case Ping =>
          events := events + [OnPing(f.payload[..Min(PING_MAX, |f.payload|)])];
          sig := Handled;
        case CloseFrame =>
          events := events + [OnClose(Normal)];
          sig := Shut;
        case Other =>
          events := events + [OnClose(ProtocolError)];
          sig := Shut;
      }
    }

    /** `on_message`: the handler sees the type of the first frame and all payloads. */
    method NotifyMessage(ghost all: seq<Frame>) returns (sig: Signal)
      requires frames != [] && all == Pending() && all != [] && d(BytesOf(receiveBuffer, frames[0])).Complete?
      modifies `events
      ensures events == old(events) + [MessageOf(all)] && sig == Handled
    {
      var data := MessageData();
      events := events + [OnMessage(d(BytesOf(receiveBuffer, frames[0])).frame.kind, data)];
      sig := Handled;
    }

    /** `process_receive_buffer`: one frame, if the buffer holds a complete one. */
    method ProcessReceiveBuffer() returns (sig: Signal)
      requires Waiting()
      modifies `receiveBuffer, `frames, `events, `removed
      ensures Conserved() && (sig.NeedBytes? || sig.Posted? ==> Waiting()) && (sig.Handled? ==> Handling())
      ensures var b := old(receiveBuffer);
        match d(b)
        case Malformed => sig == Shut && events == old(events) + [OnClose(ProtocolError)]
        case Incomplete =>
          sig == NeedBytes && events == old(events) && receiveBuffer == b && Pending() == old(Pending())
        case Complete(f) =>
          if !f.final then
            if |old(Pending())| >= maxFrames then sig == Shut && events == old(events) + [OnClose(Overflow)]
            else
              && sig == Posted && events == old(events)
              && receiveBuffer == b[f.size..] && Pending() == old(Pending()) + [f]
          else
            && events == old(events) + [FinalEvent(old(Pending()), f)]
            && sig == (if FinalEvent(old(Pending()), f).OnClose? then Shut else Handled)
            && (sig.Handled? ==> receiveBuffer == b && frames[|frames| - 1].size == f.size)
    {
      CachedCount(d, receiveBuffer, frames);
      match d(receiveBuffer) {
        case Malformed =>
          events := events + [OnClose(ProtocolError)];
          return Shut;
        case Incomplete =>
          return NeedBytes;
        case Complete(f) =>
          if f.final {
            sig := ProcessFinalFrame(f);
          } else if |frames| >= maxFrames {
            events := events + [OnClose(Overflow)];
            return Shut;
          } else {
            AddToFramesCache(f, f.size);
            return Posted;
          }
      }
    }

    /** The chain of posted and handled frames, each handler going on to `receive`. */
    method Pump() returns (open: bool)
      requires Waiting()
      modifies `receiveBuffer, `frames, `events, `removed
      ensures var x := old(Deliver(d, maxFrames, Pending(), receiveBuffer));
        && events == old(events) + x.events && (open <==> x.end.Open?)
        && (open ==> Waiting() && x.end == Open(Pending(), receiveBuffer))
      ensures Conserved()
    {
      ghost var x := Deliver(d, maxFrames, Pending(), receiveBuffer);
      ghost var rest := x;
      while true
        invariant Waiting() && rest == Deliver(d, maxFrames, Pending(), receiveBuffer)
        invariant events + rest.events == old(events) + x.events && rest.end == x.end
        decreases |receiveBuffer|
      {
        ghost var before := events;
        var sig := ProcessReceiveBuffer();
        if sig.NeedBytes? || sig.Shut? {
          return sig.NeedBytes?;
        }
        if sig.Handled? {
          ClearFramesCache();
          ghost var later := Deliver(d, maxFrames, [], receiveBuffer);
          Assoc(before, events[|before|..], later.events);
        }
        rest := Deliver(d, maxFrames, Pending(), receiveBuffer);
      }
    }

    /** `consume`: the bytes of one read, refused when they do not fit. */
    method Consume(bytes: string) returns (open: bool)
      requires Waiting()
      modifies this
      ensures var x := old(ReadBytes(d, maxBuffer, maxFrames, Open(Pending(), receiveBuffer), bytes));
        && events == old(events) + x.events && (open <==> x.end.Open?)
        && (open ==> Waiting() && x.end == Open(Pending(), receiveBuffer) && received == old(received) + bytes)
      ensures Conserved()
    {
      ghost var x := ReadBytes(d, maxBuffer, maxFrames, Open(Pending(), receiveBuffer), bytes);
      if |receiveBuffer| + |bytes| > maxBuffer {
        events := events + [OnClose(Overflow)];
        return false;
      }
      CachedFrames(d, receiveBuffer, receiveBuffer + bytes, frames);
      Assoc(removed, receiveBuffer, bytes);
      receiveBuffer := receiveBuffer + bytes;
      received := received + bytes;
      open := Pump();
    }
  }
}
