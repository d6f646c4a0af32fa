/**
 * The WASM network filter: one object per connection, driven by host callbacks. Host calls are
 * recorded as events of a trace, labelled with what caused them.
 */
module WasmFilter {
  import opened Bytes
  import opened WsFrame
  import opened FrameStream
  import opened Search
  import FrameProto
  import UpgradeCapture

  datatype Phase = AwaitingUpgradeRequest | AwaitingUpgradeResponse | Active

  datatype Event =
    | OpenStream(metadata: seq<Header>)
    | GrpcSend(stream: nat, message: bytes)
    | HalfClose(stream: nat)
    | Pong(frame: bytes)
    | Relay(frame: bytes)
    | CloseNotice(frame: bytes)

  datatype State = State(
    phase: Phase,
    buf: bytes,
    stream: Option<nat>,
    headers: seq<Header>,
    trace: seq<Event>)

  /** "HTTP/1.1 101". */
  const SWITCHING: bytes := [72, 84, 84, 80, 47, 49, 46, 49, 32, 49, 48, 49]

  /** Close code 1000, normal closure. */
  const NORMAL_CLOSURE: bytes := [0x03, 0xe8]

  // ---------------------------------------------------------------------------------------
  // Reaction to one message
  // ---------------------------------------------------------------------------------------

  predicate IsData(m: Message) {
    m.opcode == TEXT || m.opcode == BINARY
  }

  function React(stream: Option<nat>, m: Message): seq<Event> {
    if IsData(m) then
      if stream.Some?
      then [GrpcSend(stream.value, FrameProto.EncodeFrame(FrameProto.Frame(m.payload, m.opcode == BINARY)))]
      else []
    else if m.opcode == CLOSE then
      if stream.Some? then [HalfClose(stream.value)] else []
    else if m.opcode == PING then [Pong(EncodeFrame(PONG, m.payload))]
    else []
  }

  function After(stream: Option<nat>, m: Message): Option<nat> {
    if m.opcode == CLOSE then None else stream
  }

  function Reactions(stream: Option<nat>, ms: seq<Message>): seq<Event>
    decreases |ms|
  {
    if ms == [] then [] else React(stream, ms[0]) + Reactions(After(stream, ms[0]), ms[1..])
  }

  function AfterAll(stream: Option<nat>, ms: seq<Message>): Option<nat> {
    if HasClose(ms) then None else stream
  }

  lemma {:induction false} ReactionsAppend(stream: Option<nat>, a: seq<Message>, b: seq<Message>)
    ensures Reactions(stream, a + b) == Reactions(stream, a) + Reactions(AfterAll(stream, a), b)
    decreases |a|
  {
    hide React;
    if a == [] {
      assert a + b == b;
    } else {
      assert a == [a[0]] + a[1..];
      assert (a + b)[1..] == a[1..] + b;
      HasCloseAppend([a[0]], a[1..]);
      assert HasClose([a[0]]) <==> a[0].opcode == CLOSE;
      ReactionsAppend(After(stream, a[0]), a[1..], b);
    }
  }

  // ---------------------------------------------------------------------------------------
  // What one call of the drain loop takes from the buffer
  // ---------------------------------------------------------------------------------------

  /** The messages up to the first close frame or incomplete frame. */
  function Taken(buf: bytes): seq<Message>
    decreases |buf|
  {
    match ParseWsFrame(buf, WORD32)
    case None => []
    case Some(p) =>
      var m := Message(p.opcode, p.payload);
      if p.opcode == CLOSE then [m] else [m] + Taken(buf[p.consumed..])
  }

  /** The bytes behind them. */
  function Left(buf: bytes): bytes
    decreases |buf|
  {
    match ParseWsFrame(buf, WORD32)
    case None => buf
    case Some(p) => if p.opcode == CLOSE then buf[p.consumed..] else Left(buf[p.consumed..])
  }

  /** The loop takes a prefix of the messages and leaves a buffer that parses to the others. */
  lemma {:induction false} TakenLeft(buf: bytes)
    ensures Messages(buf, WORD32) == Taken(buf) + Messages(Left(buf), WORD32)
    ensures Rest(buf, WORD32) == Rest(Left(buf), WORD32)
    ensures !HasClose(Taken(buf)) ==> Messages(Left(buf), WORD32) == []
    decreases |buf|
  {
    hide ParseWsFrame;
    match ParseWsFrame(buf, WORD32)
    case None =>
    case Some(p) =>
      var m, rest := Message(p.opcode, p.payload), buf[p.consumed..];
      if p.opcode == CLOSE {
        assert Taken(buf)[0].opcode == CLOSE;
      } else {
        TakenLeft(rest);
        HasCloseAppend([m], Taken(rest));
        assert Messages(buf, WORD32) == [m] + (Taken(rest) + Messages(Left(buf), WORD32));
      }
  }

  lemma {:induction false} TakenThroughClose(buf: bytes)
    ensures Taken(buf) == ThroughClose(Messages(buf, WORD32))
    decreases |buf|
  {
    hide ParseWsFrame;
    match ParseWsFrame(buf, WORD32)
    case None =>
    case Some(p) =>
      if p.opcode != CLOSE {
        TakenThroughClose(buf[p.consumed..]);
        assert Messages(buf, WORD32)[1..] == Messages(buf[p.consumed..], WORD32);
      }
  }

  function ProcessFrames(s: State): State {
    s.(buf := Left(s.buf),
       stream := AfterAll(s.stream, Taken(s.buf)),
       trace := s.trace + Reactions(s.stream, Taken(s.buf)))
  }

  // ---------------------------------------------------------------------------------------
  // Callbacks
  // ---------------------------------------------------------------------------------------

  function DownstreamData(s: State, chunk: Option<bytes>): State {
    if chunk == None then s else
    match s.phase
    case AwaitingUpgradeRequest =>
      var buf := s.buf + chunk.value;
      (match UpgradeCapture.Captured(buf)
       case None => s.(buf := buf)
       case Some(headers) => s.(buf := [], headers := headers, phase := AwaitingUpgradeResponse))
    case AwaitingUpgradeResponse => s
    case Active => ProcessFrames(s.(buf := s.buf + chunk.value))
  }

  function UpstreamData(s: State, data: Option<bytes>, token: Option<nat>): State {
    if s.phase == AwaitingUpgradeResponse && data.Some? && Find(data.value, SWITCHING).Some?
    then s.(phase := Active, stream := if token.Some? then token else s.stream,
            trace := s.trace + [OpenStream(s.headers)])
    else s
  }

  /** The WebSocket frame a decoded server message is relayed as. */
  function RelayOf(f: FrameProto.Frame): bytes {
    EncodeFrame(if f.binary then BINARY else TEXT, f.payload)
  }

  function ServerMessage(s: State, data: Option<bytes>): State {
    if data.Some? && FrameProto.Meaning(data.value).Some? then
      s.(trace := s.trace + [Relay(RelayOf(FrameProto.Meaning(data.value).value))])
    else s
  }

  function StreamClose(s: State): State {
    s.(stream := None, trace := s.trace + [CloseNotice(EncodeFrame(CLOSE, NORMAL_CLOSURE))])
  }

  lemma NoneYet(stream: Option<nat>)
    ensures Reactions(stream, []) == [] && !HasClose([])
  {
  }

  /** One turn of the drain loop, in terms of what it takes and leaves. */
  lemma TakenStep(buf: bytes, done: seq<Message>)
    ensures match ParseWsFrame(buf, WORD32)
      case None => done + Taken(buf) == done && Left(buf) == buf
      case Some(p) =>
        var m := Message(p.opcode, p.payload); var rest := buf[p.consumed..];
        if p.opcode == CLOSE then done + Taken(buf) == done + [m] && Left(buf) == rest
        else done + Taken(buf) == done + [m] + Taken(rest) && Left(buf) == Left(rest)
  {
    hide ParseWsFrame;
    match ParseWsFrame(buf, WORD32)
    case None => assert done + [] == done;
    case Some(p) =>
      var m, rest := Message(p.opcode, p.payload), buf[p.consumed..];
      if p.opcode != CLOSE {
        assert Taken(buf) == [m] + Taken(rest);
        assert done + ([m] + Taken(rest)) == done + [m] + Taken(rest);
      }
  }

  lemma OneMore(stream: Option<nat>, done: seq<Message>, m: Message)
    requires !HasClose(done)
    ensures Reactions(stream, done + [m]) == Reactions(stream, done) + React(stream, m)
    ensures HasClose(done + [m]) <==> m.opcode == CLOSE
  {
    hide React;
    ReactionsAppend(stream, done, [m]);
    HasCloseAppend(done, [m]);
    assert HasClose([m]) <==> [m][0].opcode == CLOSE;
    assert [m][1..] == [];
    assert Reactions(After(stream, m), []) == [];
    assert React(stream, m) + [] == React(stream, m);
  }

  class WsBridgeStream {
    var phase: Phase
    var downstreamBuf: bytes
    var grpcStreamId: Option<nat>
    var upgradeHeaders: seq<Header>
    var trace: seq<Event>

    function View(): State
      reads this
    {
      State(phase, downstreamBuf, grpcStreamId, upgradeHeaders, trace)
    }

    constructor ()
      ensures View() == State(AwaitingUpgradeRequest, [], None, [], [])
    {
      phase := AwaitingUpgradeRequest;
      downstreamBuf := [];
      grpcStreamId := None;
      upgradeHeaders := [];
      trace := [];
    }

    /** `on_grpc_stream_initial_metadata`. */
    method OnGrpcStreamInitialMetadata(token: nat)
      modifies this
      ensures View() == old(View()).(stream := Some(token))
    {
      grpcStreamId := Some(token);
    }

    /** `on_grpc_stream_message`; `data` is what the host returns for the receive buffer. */
    method OnGrpcStreamMessage(data: Option<bytes>)
      modifies this
      ensures View() == ServerMessage(old(View()), data)
    {
      if data == None { return; }
      var decoded := FrameProto.DecodeFrameProto(data.value);
      if decoded == None { return; }
      var opcode: byte := if decoded.value.binary then 0x02 else 0x01;
      trace := trace + [Relay(EncodeFrame(opcode, decoded.value.payload))];
    }

    /** `on_grpc_stream_close`. */
    method OnGrpcStreamClose()
      modifies this
      ensures View() == StreamClose(old(View()))
    {
      trace := trace + [CloseNotice(EncodeFrame(0x08, [0x03, 0xe8]))];
      grpcStreamId := None;
    }

    /** `on_downstream_data`; `chunk` is what the host returns for the new bytes. */
    method OnDownstreamData(chunk: Option<bytes>)
      modifies this
      ensures View() == DownstreamData(old(View()), chunk)
    {
      hide Left, Taken, Reactions, HasClose, UpgradeCapture.HeadersOf;
      match phase
      case AwaitingUpgradeRequest =>
        if chunk == None { return; }
        downstreamBuf := downstreamBuf + chunk.value;
        var end := Find(downstreamBuf, UpgradeCapture.CRLF2);
        if end.Some? {
          var block := downstreamBuf[..end.value + 4];
          var headers := UpgradeCapture.ParseHttpRequestHeaders(block);
          upgradeHeaders := headers;
          downstreamBuf := [];
          phase := AwaitingUpgradeResponse;
        }
      case AwaitingUpgradeResponse =>
      case Active =>
        if chunk == None { return; }
        downstreamBuf := downstreamBuf + chunk.value;
        ProcessWsFrames();
    }

    /** `on_upstream_data`; `token` is what `open_grpc_stream` returns. */
    method OnUpstreamData(data: Option<bytes>, token: Option<nat>)
      modifies this
      ensures View() == UpstreamData(old(View()), data, token)
    {
      if phase == AwaitingUpgradeResponse && data.Some? {
        var found := Find(data.value, SWITCHING);
        if found.Some? {
          phase := Active;
          trace := trace + [OpenStream(upgradeHeaders)];
          if token.Some? { grpcStreamId := token; }
        }
      }
    }

    /** The dispatch by opcode inside `process_ws_frames`; true when the loop is to stop. */
    method Dispatch(opcode: byte, payload: Payload) returns (stop: bool)
      modifies this
      ensures var m := Message(opcode, payload);
        View() == old(View()).(stream := After(old(grpcStreamId), m), trace := old(trace) + React(old(grpcStreamId), m))
      ensures stop <==> opcode == CLOSE
    {
      hide FrameProto.EncodeFrame, EncodeFrame;
      stop := false;
      if opcode == 0x01 || opcode == 0x02 {
        var grpcMsg := FrameProto.EncodeFrameProto(payload, opcode == 0x02);
        if grpcStreamId.Some? {
          trace := trace + [GrpcSend(grpcStreamId.value, grpcMsg)];
        }
      } else if opcode == 0x08 {
        if grpcStreamId.Some? {
          trace := trace + [HalfClose(grpcStreamId.value)];
          grpcStreamId := None;
        }
        stop := true;
      } else if opcode == 0x09 {
        trace := trace + [Pong(EncodeFrame(0x0A, payload))];
      }
    }

    /** `process_ws_frames`: drain complete frames; a close frame ends the call. */
    method ProcessWsFrames()
      modifies this
      ensures View() == ProcessFrames(old(View()))
    {
      hide ParseWsFrame, React, Reactions, Taken, Left;
      ghost var was := View();
      ghost var done: seq<Message> := [];
      NoneYet(was.stream);
      while true
        invariant phase == was.phase && upgradeHeaders == was.headers
        invariant done + Taken(downstreamBuf) == Taken(was.buf) && Left(downstreamBuf) == Left(was.buf)
        invariant !HasClose(done) && grpcStreamId == was.stream
        invariant trace == was.trace + Reactions(was.stream, done)
        decreases |downstreamBuf|
      {
        TakenStep(downstreamBuf, done);
        var result := ParseWsFrame(downstreamBuf, WORD32);
        if result == None { break; }
        downstreamBuf := downstreamBuf[result.value.consumed..];
        ghost var m := Message(result.value.opcode, result.value.payload);
        OneMore(was.stream, done, m);
        done := done + [m];
        var stop := Dispatch(result.value.opcode, result.value.payload);
        if stop { break; }
      }
    }
  }

  // ---------------------------------------------------------------------------------------
  // What the events say
  // ---------------------------------------------------------------------------------------

  lemma Spelled()
    ensures SWITCHING == Ascii("HTTP/1.1 101")
  {
  }

  /**
   * What one message causes, by its opcode: text (1) and binary (2) are sent as a message that
   * decodes to the payload and the binary flag, close (8) half-closes, ping (9) is answered by a
   * pong frame (10) with the same payload, and anything else is ignored. Without stream nothing
   * but pings is reacted to.
   */
  lemma ReactsByOpcode(stream: Option<nat>, opcode: byte, payload: Payload)
    requires |payload| < WORD32
    ensures var r := React(stream, Message(opcode, payload));
      && (opcode == 9 ==> |r| == 1 && r[0].Pong? && IsFrame(r[0].frame, 10, payload, WORD32))
      && ((opcode == 1 || opcode == 2) && stream.Some? ==>
            && |r| == 1 && r[0].GrpcSend? && r[0].stream == stream.value
            && FrameProto.Meaning(r[0].message) == Some(FrameProto.Frame(payload, opcode == 2)))
      && (opcode == 8 && stream.Some? ==> r == [HalfClose(stream.value)])
      && (opcode != 9 && stream == None ==> r == [])
      && (opcode != 1 && opcode != 2 && opcode != 8 && opcode != 9 ==> r == [])
  {
    hide FrameProto.Meaning, FrameProto.EncodeFrame, EncodeFrame, IsFrame;
    EncodedFrame(10, payload, WORD32);
    FrameProto.RoundTripFrame(FrameProto.Frame(payload, opcode == 2));
  }

  /** A message of the server is relayed as one binary (2) or text (1) frame with its payload. */
  lemma RelaysByFlag(s: State, data: bytes, f: FrameProto.Frame)
    requires FrameProto.Meaning(data) == Some(f) && |f.payload| < WORD32
    ensures var t := ServerMessage(s, Some(data));
      exists frame: bytes :: IsFrame(frame, if f.binary then 2 else 1, f.payload, WORD32)
                             && t == s.(trace := s.trace + [Relay(frame)])
  {
    hide FrameProto.Meaning, EncodeFrame, IsFrame;
    var opcode: byte := if f.binary then 2 else 1;
    EncodedFrame(opcode, f.payload, WORD32);
    var frame := EncodeFrame(opcode, f.payload);
    assert IsFrame(frame, if f.binary then 2 else 1, f.payload, WORD32);
    assert ServerMessage(s, Some(data)) == s.(trace := s.trace + [Relay(frame)]);
  }

  /** A message that cannot be read or decoded changes nothing. */
  lemma UndecodableIgnored(s: State, data: Option<bytes>)
    requires data == None || FrameProto.Meaning(data.value) == None
    ensures ServerMessage(s, data) == s
  {
  }

  /** When the server closes the stream the client gets one close frame (8) with code 1000. */
  lemma CloseTells(s: State)
    ensures var t := StreamClose(s);
      && t.stream == None && t.phase == s.phase && t.buf == s.buf
      && exists frame: bytes, code: Payload ::
           && IsFrame(frame, 8, code, WORD32) && |code| == 2 && Two(code[0], code[1]) == 1000
           && t.trace == s.trace + [CloseNotice(frame)]
  {
    hide EncodeFrame;
    EncodedFrame(8, NORMAL_CLOSURE, WORD32);
    hide IsFrame;
    var frame := EncodeFrame(8, NORMAL_CLOSURE);
    assert StreamClose(s).trace == s.trace + [CloseNotice(frame)];
    assert Two(NORMAL_CLOSURE[0], NORMAL_CLOSURE[1]) == 1000;
  }
}
