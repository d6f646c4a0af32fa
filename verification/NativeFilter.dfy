/**
 * The native HTTP filter: one object per stream, driven by Envoy and gRPC callbacks. Calls it
 * makes on the stream and on Envoy are recorded as events of a trace.
 */
module NativeFilter {
  import opened Bytes
  import opened WsFrame
  import opened FrameStream

  datatype Phase = Passthrough | Connecting | Active | Closing | Closed

  datatype Event =
    | StartStream
    | Send(payload: Payload, binary: bool)
    | HalfClose
    | Pong(frame: bytes)
    | Relay(frame: bytes)
    | CloseFrame(frame: bytes)
    | ResetDownstream
    | ResetStream
    | LocalReply

  /** `connected` is whether `grpc_stream_` is non-null, `callbacks` whether the callback object exists. */
  datatype State = State(
    phase: Phase,
    connected: bool,
    callbacks: bool,
    pending: bytes,
    remainder: bytes,
    trace: seq<Event>)

  const INITIAL := State(Passthrough, false, false, [], [], [])

  /** The largest number of bytes one call looks at. */
  const UINT32_MAX: nat := 0xFFFF_FFFF

  // ---------------------------------------------------------------------------------------
  // Meaning of a message list
  // ---------------------------------------------------------------------------------------

  function React(m: Message): seq<Event> {
    if m.opcode == TEXT || m.opcode == BINARY then [Send(m.payload, m.opcode == BINARY)]
    else if m.opcode == PING then [Pong(EncodeFrame(PONG, m.payload))]
    else if m.opcode == CLOSE then [HalfClose]
    else []
  }

  /** The events of the messages up to and including the first close frame. */
  function Reactions(ms: seq<Message>): seq<Event> {
    if ms == [] then []
    else React(ms[0]) + if ms[0].opcode == CLOSE then [] else Reactions(ms[1..])
  }

  lemma {:induction false} ReactionsAppend(a: seq<Message>, b: seq<Message>)
    ensures Reactions(a + b) == if HasClose(a) then Reactions(a) else Reactions(a) + Reactions(b)
  {
    hide React;
    if a == [] {
      assert a + b == b;
    } else {
      assert a == [a[0]] + a[1..];
      assert (a + b)[1..] == a[1..] + b;
      HasCloseAppend([a[0]], a[1..]);
      assert HasClose([a[0]]) <==> [a[0]][0].opcode == CLOSE;
      ReactionsAppend(a[1..], b);
    }
  }

  // ---------------------------------------------------------------------------------------
  // Callbacks as functions of the state
  // ---------------------------------------------------------------------------------------

  function CloseGrpcStream(s: State): State {
    if s.phase != Active then s
    else s.(phase := Closing, trace := s.trace + if s.connected then [HalfClose] else [])
  }

  /** What `processWebSocketData` does with the remainder and `data` while active. */
  function Process(s: State, data: bytes, endStream: bool): State {
    var all := s.remainder + data;
    var seen := if |all| > UINT32_MAX then all[..UINT32_MAX] else all;
    var ms := Messages(seen, WORD64);
    var t := s.(remainder := [], trace := s.trace + Reactions(ms));
    if HasClose(ms) then t.(phase := Closing)
    else
      var u := t.(remainder := Rest(seen, WORD64));
      if endStream then CloseGrpcStream(u) else u
  }

  function DecodeHeaders(s: State, upgrade: bool, started: bool): State {
    if !upgrade then s
    else if started then s.(phase := Connecting, connected := true, callbacks := true, trace := s.trace + [StartStream])
    else s.(phase := Closed, connected := false, callbacks := true, trace := s.trace + [StartStream, LocalReply])
  }

  function DecodeData(s: State, data: bytes, endStream: bool): State {
    match s.phase
    case Connecting => s.(pending := s.pending + data)
    case Active => Process(s, data, endStream)
    case _ => s
  }

  function InitialMetadata(s: State): State {
    if s.phase != Connecting then s
    else
      var t := s.(phase := Active);
      if t.pending != [] then Process(t, t.pending, false) else t
  }

  function ReceiveMessage(s: State, payload: Payload, binary: bool): State {
    if s.phase != Active && s.phase != Closing then s
    else s.(trace := s.trace + [Relay(EncodeFrame(if binary then BINARY else TEXT, payload))])
  }

  function RemoteClose(s: State): State {
    if s.phase == Closed then s
    else s.(phase := Closed, connected := false,
            trace := s.trace + [CloseFrame(EncodeFrame(CLOSE, [0x03, 0xe8])), ResetDownstream])
  }

  function Destroy(s: State): State {
    s.(phase := Closed, connected := false, trace := s.trace + if s.connected then [ResetStream] else [])
  }

  // ---------------------------------------------------------------------------------------
  // The filter object
  // ---------------------------------------------------------------------------------------

  /** While active the stream pointer is set, which `forwardDataFrame` asserts. */
  ghost predicate Sound(s: State) {
    && (s.phase == Connecting || s.phase == Active || s.phase == Closing ==> s.connected)
    && (s.phase == Connecting ==> s.remainder == [])
  }

  lemma Empty()
    ensures Messages([], WORD64) == [] && Rest([], WORD64) == [] && Reactions([]) == [] && !HasClose([])
  {
  }

  lemma StartLoop(raw: bytes)
    ensures raw[0..] == raw && !HasClose([]) && Reactions([]) == []
    ensures [] + Messages(raw, WORD64) == Messages(raw, WORD64)
  {
  }

  lemma AddMessage(done: seq<Message>, m: Message)
    requires !HasClose(done)
    ensures HasClose(done + [m]) <==> m.opcode == CLOSE
    ensures Reactions(done + [m]) == Reactions(done) + React(m)
  {
    hide React;
    HasCloseAppend(done, [m]);
    assert HasClose([m]) <==> [m][0].opcode == CLOSE;
    ReactionsAppend(done, [m]);
    assert [m][1..] == [] && React(m) + [] == React(m);
  }

  /** One turn: a complete frame moves one message to the done ones; a close frame ends it. */
  lemma LoopStep(raw: bytes, offset: nat, done: seq<Message>)
    requires offset <= |raw| && !HasClose(done)
    requires Messages(raw, WORD64) == done + Messages(raw[offset..], WORD64)
    ensures match ParseWsFrame(raw[offset..], WORD64)
      case None => Messages(raw[offset..], WORD64) == [] && Rest(raw[offset..], WORD64) == raw[offset..]
      case Some(p) =>
        var m := Message(p.opcode, p.payload); var rest := raw[offset + p.consumed..];
        && Messages(raw, WORD64) == done + [m] + Messages(rest, WORD64)
        && Rest(raw[offset..], WORD64) == Rest(rest, WORD64)
        && (HasClose(done + [m]) <==> m.opcode == CLOSE)
        && Reactions(done + [m]) == Reactions(done) + React(m)
        && (m.opcode == CLOSE ==>
              HasClose(Messages(raw, WORD64)) && Reactions(Messages(raw, WORD64)) == Reactions(done) + React(m))
  {
    hide ParseWsFrame, React, HasClose;
    match ParseWsFrame(raw[offset..], WORD64)
    case None =>
    case Some(p) =>
      var m, rest := Message(p.opcode, p.payload), raw[offset + p.consumed..];
      assert raw[offset..][p.consumed..] == rest;
      assert done + ([m] + Messages(rest, WORD64)) == done + [m] + Messages(rest, WORD64);
      AddMessage(done, m);
      HasCloseAppend(done + [m], Messages(rest, WORD64));
      ReactionsAppend(done + [m], Messages(rest, WORD64));
  }

  lemma LoopEnd(raw: bytes, offset: nat, done: seq<Message>)
    requires offset <= |raw| && !HasClose(done)
    requires Messages(raw, WORD64) == done + Messages(raw[offset..], WORD64)
    ensures Messages(raw[offset..], WORD64) == [] ==> Messages(raw, WORD64) == done
    ensures offset == |raw| ==> Messages(raw[offset..], WORD64) == [] && Rest(raw[offset..], WORD64) == []
  {
    hide ParseWsFrame;
    if offset == |raw| {
      assert raw[offset..] == [];
      Empty();
    }
    assert done + [] == done;
  }

  class WsGrpcBridgeFilter {
    var phase: Phase
    var grpcStream: bool
    var grpcCallbacks: bool
    var pendingUpstreamData: bytes
    var frameRemainder: bytes
    var trace: seq<Event>

    function View(): State
      reads this
    {
      State(phase, grpcStream, grpcCallbacks, pendingUpstreamData, frameRemainder, trace)
    }

    constructor ()
      ensures View() == INITIAL
    {
      phase := Passthrough;
      grpcStream := false;
      grpcCallbacks := false;
      pendingUpstreamData := [];
      frameRemainder := [];
      trace := [];
    }

    /** `onDestroy`. */
    method OnDestroy()
      modifies this
      ensures View() == Destroy(old(View()))
    {
      if grpcStream {
        trace := trace + [ResetStream];
        grpcStream := false;
      }
      phase := Closed;
    }

    /**
     * `decodeHeaders` and `startGrpcStream`: `upgrade` is whether the request asks for a WebSocket
     * upgrade, `started` whether the client returned a stream.
     */
    method OnDecodeHeaders(upgrade: bool, started: bool)
      modifies this
      ensures View() == DecodeHeaders(old(View()), upgrade, started)
    {
      if !upgrade { return; }
      phase := Connecting;
      grpcCallbacks := true;
      trace := trace + [StartStream];
      grpcStream := started;
      if !grpcStream {
        phase := Closed;
        trace := trace + [LocalReply];
      }
    }

    /** `decodeData`. */
    method OnDecodeData(data: bytes, endStream: bool)
      requires Sound(View())
      modifies this
      ensures View() == DecodeData(old(View()), data, endStream)
    {
      match phase
      case Connecting =>
        pendingUpstreamData := pendingUpstreamData + data;
      case Active =>
        ProcessWebSocketData(data, endStream);
      case Passthrough =>
      case Closing =>
      case Closed =>
    }

    /** `onReceiveInitialMetadata`. */
    method OnReceiveInitialMetadata()
      requires Sound(View())
      modifies this
      ensures View() == InitialMetadata(old(View()))
    {
      if phase != Connecting { return; }
      phase := Active;
      if |pendingUpstreamData| > 0 {
        ProcessWebSocketData(pendingUpstreamData, false);
      }
    }

    /** `onReceiveMessage`. */
    method OnReceiveMessage(payload: Payload, binary: bool)
      modifies this
      ensures View() == ReceiveMessage(old(View()), payload, binary)
    {
      if phase != Active && phase != Closing { return; }
      var opcode: byte := if binary then 0x02 else 0x01;
      var frame := EncodeFrameNative(opcode, payload);
      trace := trace + [Relay(frame)];
    }

    /** `onRemoteClose`. */
    method OnRemoteClose()
      modifies this
      ensures View() == RemoteClose(old(View()))
    {
      if phase == Closed { return; }
      phase := Closed;
      grpcStream := false;
      var frame := BuildCloseFrame();
      trace := trace + [CloseFrame(frame)];
      trace := trace + [ResetDownstream];
    }

    /** `closeGrpcStream`. */
    method DoCloseGrpcStream()
      modifies this
      ensures View() == CloseGrpcStream(old(View()))
    {
      if phase != Active { return; }
      phase := Closing;
      if grpcStream {
        trace := trace + [HalfClose];
      }
    }

    /** The dispatch by opcode inside `processWebSocketData`. */
    method Dispatch(frame: WsFrame)
      requires phase == Active && grpcStream
      modifies this
      ensures var m := Message(frame.opcode, frame.payload);
        View() == old(View()).(phase := if m.opcode == CLOSE then Closing else Active, trace := old(trace) + React(m))
    {
      hide EncodeFrame;
      var opcode := frame.opcode;
      if opcode == 0x01 || opcode == 0x02 {
        trace := trace + [Send(frame.payload, opcode == 0x02)];
      } else if opcode == 0x09 {
        var pong := EncodeFrameNative(0x0A, frame.payload);
        trace := trace + [Pong(pong)];
      } else if opcode == 0x0A {
      } else if opcode == 0x08 {
        DoCloseGrpcStream();
      }
    }

    /** `processWebSocketData`. */
    method ProcessWebSocketData(data: bytes, endStream: bool)
      requires phase == Active && grpcStream
      modifies this
      ensures View() == Process(old(View()), data, endStream)
    {
      hide ParseWsFrame, React, Reactions, Messages, Rest, HasClose;
      var buf := data;
      if frameRemainder != [] {
        buf := frameRemainder + buf;
        frameRemainder := [];
      }
      ghost var was := old(View());
      assert buf == was.remainder + data;
      var total := |buf|;
      if total == 0 {
        Empty();
        assert was.trace + [] == was.trace;
        if endStream { DoCloseGrpcStream(); }
        return;
      }
      var linearizeLen := if total > UINT32_MAX then UINT32_MAX else total;
      var raw := buf[..linearizeLen];
      assert total <= UINT32_MAX ==> raw == buf;
      var offset := 0;
      ghost var done: seq<Message> := [];
      StartLoop(raw);
      assert was.trace + [] == was.trace;
      while offset < linearizeLen
        invariant offset <= linearizeLen == |raw| && frameRemainder == []
        invariant phase == Active && grpcStream && grpcCallbacks == was.callbacks && pendingUpstreamData == was.pending
        invariant Messages(raw, WORD64) == done + Messages(raw[offset..], WORD64)
        invariant Rest(raw, WORD64) == Rest(raw[offset..], WORD64)
        invariant !HasClose(done) && trace == was.trace + Reactions(done)
        decreases linearizeLen - offset
      {
        var frame := ParseFrame(raw[offset..linearizeLen]);
        assert raw[offset..linearizeLen] == raw[offset..];
        LoopStep(raw, offset, done);
        if !frame.complete {
          frameRemainder := raw[offset..];
          break;
        }
        offset := offset + frame.consumed;
        ghost var m := Message(frame.opcode, frame.payload);
        Dispatch(frame);
        assert was.trace + Reactions(done) + React(m) == was.trace + (Reactions(done) + React(m));
        done := done + [m];
        if phase != Active { return; }
      }
      LoopEnd(raw, offset, done);
      assert Messages(raw, WORD64) == done;
      assert frameRemainder == Rest(raw, WORD64);
      assert View() == Process(was, data, false);
      if endStream && phase == Active {
        DoCloseGrpcStream();
      }
    }

    /** `buildCloseFrame`. */
    static method BuildCloseFrame() returns (frame: bytes)
      ensures frame == EncodeFrame(CLOSE, [0x03, 0xe8])
    {
      frame := EncodeFrameNative(0x08, [1000 / 256 % 256, 1000 % 256]);
    }
  }
}
