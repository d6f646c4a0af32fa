/**
 * Whole connections of the WASM network filter, from its construction on: which client bytes
 * reach the frame parser, which are lost on the way, and what the filter sends.
 */
module WasmConnection {
  import opened Bytes
  import opened WsFrame
  import opened FrameStream
  import opened Search
  import opened WasmFilter
  import WasmRuns
  import UpgradeCapture

  /** Every callback; `granted` is what `open_grpc_stream` would return, `None` a failure. */
  datatype Call =
    | Stream(op: WasmRuns.Op)
    | Upstream(data: Option<bytes>, granted: Option<nat>)
    | StreamClosed

  /** The state that the constructor establishes. */
  const START := State(AwaitingUpgradeRequest, [], None, [], [])

  function Step(s: State, call: Call, token: nat): State {
    match call
    case Stream(op) => WasmRuns.Step(s, op, token)
    case Upstream(data, granted) => UpstreamData(s, data, granted)
    case StreamClosed => StreamClose(s)
  }

  function Run(s: State, calls: seq<Call>, token: nat): State
    decreases |calls|
  {
    if calls == [] then s else Run(Step(s, calls[0], token), calls[1..], token)
  }

  function BytesOf(call: Call): bytes {
    if call.Stream? then WasmRuns.BytesOf(call.op) else []
  }

  function Received(calls: seq<Call>): bytes {
    if calls == [] then [] else BytesOf(calls[0]) + Received(calls[1..])
  }

  /** The call brings the 101 line. */
  predicate Switches(call: Call) {
    call.Upstream? && call.data.Some? && Find(call.data.value, SWITCHING).Some?
  }

  /** gRPC callbacks come only behind the call that opens the stream, and opening it works. */
  predicate Allowed(s: State, call: Call, token: nat) {
    && (s.phase != Active ==> call.Upstream? || (call.Stream? && call.op.Data?))
    && (s.phase == AwaitingUpgradeResponse && Switches(call) ==> call.granted == Some(token))
    && !call.StreamClosed?
  }

  predicate AllowedRun(s: State, calls: seq<Call>, token: nat)
    decreases |calls|
  {
    calls == [] || (Allowed(s, calls[0], token) && AllowedRun(Step(s, calls[0], token), calls[1..], token))
  }

  // ---------------------------------------------------------------------------------------
  // What becomes of the client's bytes
  // ---------------------------------------------------------------------------------------

  /** The upgrade request, the bytes that nothing reads, and the bytes that are parsed as frames. */
  datatype Fate = Fate(request: bytes, lost: bytes, parsed: bytes)

  /**
   * Lost are the bytes behind CRLFCRLF in the call that completes the request, and those of the
   * calls between it and the 101 line. `got` is what arrived of the request so far.
   */
  function FateOf(phase: Phase, got: bytes, calls: seq<Call>): Fate
    decreases |calls|
  {
    if calls == [] then Fate(got, [], [])
    else
      var chunk := BytesOf(calls[0]);
      match phase
      case AwaitingUpgradeRequest =>
        (match Find(got + chunk, UpgradeCapture.CRLF2)
         case None => FateOf(phase, got + chunk, calls[1..])
         case Some(end) =>
           var later := FateOf(AwaitingUpgradeResponse, (got + chunk)[..end + 4], calls[1..]);
           later.(lost := (got + chunk)[end + 4..] + later.lost))
      case AwaitingUpgradeResponse =>
        var later := FateOf(if Switches(calls[0]) then Active else phase, got, calls[1..]);
        later.(lost := chunk + later.lost)
      case Active =>
        var later := FateOf(phase, got, calls[1..]);
        later.(parsed := chunk + later.parsed)
  }

  /** While active every byte is parsed. */
  lemma {:induction false} FateActive(got: bytes, calls: seq<Call>)
    ensures FateOf(Active, got, calls) == Fate(got, [], Received(calls))
    decreases |calls|
  {
    if calls != [] { FateActive(got, calls[1..]); }
  }

  /** Behind the request bytes are lost up to the 101 line and parsed behind it. */
  lemma {:induction false} FateWaiting(got: bytes, calls: seq<Call>)
    ensures var f := FateOf(AwaitingUpgradeResponse, got, calls);
      f.request == got && f.lost + f.parsed == Received(calls)
    decreases |calls|
  {
    hide Switches;
    if calls != [] {
      var chunk, tail := BytesOf(calls[0]), Received(calls[1..]);
      if Switches(calls[0]) {
        FateActive(got, calls[1..]);
        assert chunk + [] + tail == chunk + tail;
      } else {
        FateWaiting(got, calls[1..]);
        var later := FateOf(AwaitingUpgradeResponse, got, calls[1..]);
        assert chunk + later.lost + later.parsed == chunk + (later.lost + later.parsed);
      }
    }
  }

  lemma Joined(now: bytes, cut: nat, lost: bytes, parsed: bytes, tail: bytes)
    requires cut <= |now| && lost + parsed == tail
    ensures now[..cut] + (now[cut..] + lost + parsed) == now + tail
  {
    assert now[cut..] + lost + parsed == now[cut..] + (lost + parsed);
    assert now[..cut] + (now[cut..] + tail) == now[..cut] + now[cut..] + tail;
    assert now[..cut] + now[cut..] == now;
  }

  /** Every byte has one fate, and the three parts follow each other on the wire. */
  lemma {:induction false} FatePartition(got: bytes, calls: seq<Call>)
    ensures var f := FateOf(AwaitingUpgradeRequest, got, calls);
      f.request + (f.lost + f.parsed) == got + Received(calls)
    decreases |calls|
  {
    hide FindFrom;
    if calls != [] {
      var chunk, tail := BytesOf(calls[0]), Received(calls[1..]);
      var now := got + chunk;
      assert now + tail == got + (chunk + tail);
      if Find(now, UpgradeCapture.CRLF2) == None {
        FatePartition(now, calls[1..]);
      } else {
        var cut := Find(now, UpgradeCapture.CRLF2).value + 4;
        FateWaiting(now[..cut], calls[1..]);
        var later := FateOf(AwaitingUpgradeResponse, now[..cut], calls[1..]);
        Joined(now, cut, later.lost, later.parsed, tail);
      }
    }
  }

  // ---------------------------------------------------------------------------------------
  // Main result
  // ---------------------------------------------------------------------------------------

  /** What a connection has come to, by phase, in terms of the three parts. */
  ghost predicate Explained(end: State, fate: Fate, token: nat) {
    match end.phase
    case AwaitingUpgradeRequest =>
      end.buf == fate.request && fate.lost == [] && fate.parsed == [] && end.trace == []
    case AwaitingUpgradeResponse =>
      end.headers == UpgradeCapture.HeadersOf(fate.request) && fate.parsed == [] && end.trace == []
    case Active =>
      var ms := Messages(fate.parsed, WORD32);
      && end.headers == UpgradeCapture.HeadersOf(fate.request)
      && OpenStream(end.headers) in end.trace
      && WasmRuns.UpToHalfClose(WasmRuns.Client(end.trace)) == Reactions(Some(token), ThroughClose(ms))
      && (!HasClose(ms) ==>
            && WasmRuns.Client(end.trace) == Reactions(Some(token), ms)
            && end.buf == Rest(fate.parsed, WORD32))
  }

  /** The callbacks of an active connection without those of the upstream, which it ignores. */
  function Ops(calls: seq<Call>): seq<WasmRuns.Op> {
    if calls == [] then [] else (if calls[0].Stream? then [calls[0].op] else []) + Ops(calls[1..])
  }

  lemma ActiveStep(s: State, call: Call, token: nat)
    requires s.phase == Active
    ensures Step(s, call, token).phase == Active && Step(s, call, token).headers == s.headers
    ensures s.trace <= Step(s, call, token).trace
    ensures call.Upstream? ==> Step(s, call, token) == s
  {
    hide Left, Taken, Reactions, HasClose, FrameProto.Meaning, EncodeFrame;
  }

  lemma {:induction false} ActiveRun(s: State, calls: seq<Call>, token: nat)
    requires s.phase == Active && AllowedRun(s, calls, token)
    ensures var end := Run(s, calls, token);
      && end == WasmRuns.Run(s, Ops(calls), token) && end.phase == Active && end.headers == s.headers
      && s.trace <= end.trace
      && Received(calls) == WasmRuns.Received(Ops(calls))
    decreases |calls|
  {
    hide Switches, UpstreamData, DownstreamData, ServerMessage;
    if calls != [] {
      var next := Step(s, calls[0], token);
      ActiveStep(s, calls[0], token);
      ActiveRun(next, calls[1..], token);
      if calls[0].Stream? {
        assert Ops(calls)[1..] == Ops(calls[1..]);
      } else {
        assert Ops(calls) == [] + Ops(calls[1..]) == Ops(calls[1..]);
        assert [] + WasmRuns.Received(Ops(calls[1..])) == WasmRuns.Received(Ops(calls[1..]));
      }
    }
  }

  /** The stream has just been opened. */
  lemma OpenRun(s: State, request: bytes, calls: seq<Call>, token: nat)
    requires s.phase == Active && s.buf == [] && s.stream == Some(token) && s.trace == [OpenStream(s.headers)]
    requires s.headers == UpgradeCapture.HeadersOf(request) && AllowedRun(s, calls, token)
    ensures Explained(Run(s, calls, token), FateOf(Active, request, calls), token)
  {
    hide UpgradeCapture.HeadersOf, Messages, Rest, Reactions, HasClose, ThroughClose, WasmRuns.UpToHalfClose, Run,
         WasmRuns.Run,
         AllowedRun, Ops, Keep;
    ActiveRun(s, calls, token);
    FateActive(request, calls);
    KeepOne(WasmRuns.FromClient, OpenStream(s.headers));
    WasmRuns.SegmentationIndependence(s, Ops(calls), token);
    assert s.trace[0] in Run(s, calls, token).trace;
  }

  lemma WaitingStep(s: State, call: Call, token: nat)
    requires s.phase == AwaitingUpgradeResponse && s.trace == [] && Allowed(s, call, token)
    ensures Step(s, call, token) ==
      if Switches(call) then s.(phase := Active, stream := Some(token), trace := [OpenStream(s.headers)]) else s
  {
    hide FindFrom, Find;
    assert [] + [OpenStream(s.headers)] == [OpenStream(s.headers)];
  }

  lemma NothingMore(s: State, request: bytes, token: nat)
    requires s.phase == AwaitingUpgradeResponse && s.trace == [] && s.headers == UpgradeCapture.HeadersOf(request)
    ensures Explained(s, Fate(request, [], []), token)
  {
  }

  lemma MoreLost(end: State, fate: Fate, chunk: bytes, token: nat)
    requires Explained(end, fate, token) && end.phase != AwaitingUpgradeRequest
    ensures Explained(end, fate.(lost := chunk + fate.lost), token)
  {
  }

  lemma {:induction false} NotBack(s: State, calls: seq<Call>, token: nat)
    requires s.phase != AwaitingUpgradeRequest
    ensures Run(s, calls, token).phase != AwaitingUpgradeRequest
    decreases |calls|
  {
    hide Left, Taken, Reactions, HasClose, FrameProto.Meaning, EncodeFrame, Find;
    if calls != [] {
      assert Step(s, calls[0], token).phase != AwaitingUpgradeRequest;
      hide Step;
      NotBack(Step(s, calls[0], token), calls[1..], token);
    }
  }

  /** The request is captured, the 101 line has not come yet. */
  lemma {:induction false} WaitingRun(s: State, request: bytes, calls: seq<Call>, token: nat)
    requires s.phase == AwaitingUpgradeResponse && s.buf == [] && s.trace == []
    requires s.headers == UpgradeCapture.HeadersOf(request) && AllowedRun(s, calls, token)
    ensures Explained(Run(s, calls, token), FateOf(AwaitingUpgradeResponse, request, calls), token)
    decreases |calls|
  {
    hide UpgradeCapture.HeadersOf, Explained, Switches, Step, Allowed;
    if calls == [] {
      NothingMore(s, request, token);
    } else {
      var next := Step(s, calls[0], token);
      WaitingStep(s, calls[0], token);
      NotBack(next, calls[1..], token);
      if Switches(calls[0]) {
        OpenRun(next, request, calls[1..], token);
        MoreLost(Run(s, calls, token), FateOf(Active, request, calls[1..]), BytesOf(calls[0]), token);
      } else {
        WaitingRun(s, request, calls[1..], token);
        MoreLost(Run(s, calls, token), FateOf(AwaitingUpgradeResponse, request, calls[1..]), BytesOf(calls[0]), token);
      }
    }
  }

  lemma StillNothing(s: State, token: nat)
    requires s.phase == AwaitingUpgradeRequest && s.trace == []
    ensures Explained(s, Fate(s.buf, [], []), token)
  {
  }

  /** A call that brings bytes of the request, or none. */
  lemma RequestStep(s: State, call: Call, token: nat)
    requires s.phase == AwaitingUpgradeRequest && Find(s.buf, UpgradeCapture.CRLF2) == None
    requires Allowed(s, call, token)
    ensures var now := s.buf + BytesOf(call);
      Step(s, call, token) ==
        match Find(now, UpgradeCapture.CRLF2)
        case None => s.(buf := now)
        case Some(end) =>
          s.(buf := [], headers := UpgradeCapture.HeadersOf(now[..end + 4]), phase := AwaitingUpgradeResponse)
  {
    hide FindFrom, UpgradeCapture.HeadersOf;
    assert s.buf + [] == s.buf;
  }

  lemma {:induction false} RequestRun(s: State, calls: seq<Call>, token: nat)
    requires s.phase == AwaitingUpgradeRequest && s.trace == [] && Find(s.buf, UpgradeCapture.CRLF2) == None
    requires AllowedRun(s, calls, token)
    ensures Explained(Run(s, calls, token), FateOf(AwaitingUpgradeRequest, s.buf, calls), token)
    decreases |calls|
  {
    hide UpgradeCapture.HeadersOf, Explained, FindFrom, Step, Allowed;
    if calls == [] {
      StillNothing(s, token);
    } else {
      var now := s.buf + BytesOf(calls[0]);
      RequestStep(s, calls[0], token);
      match Find(now, UpgradeCapture.CRLF2) {
        case None => RequestRun(s.(buf := now), calls[1..], token);
        case Some(end) =>
          var next := Step(s, calls[0], token);
          WaitingRun(next, now[..end + 4], calls[1..], token);
          NotBack(next, calls[1..], token);
          var later := FateOf(AwaitingUpgradeResponse, now[..end + 4], calls[1..]);
          MoreLost(Run(s, calls, token), later, now[end + 4..], token);
      }
    }
  }

  /**
   * From construction on, whatever calls bring them: the upgrade request ends at the first
   * CRLFCRLF and gives the metadata of the stream, what follows it up to the 101 line is lost, and
   * the bytes behind that, and no others, decide what is sent. The parts make up all bytes.
   */
  lemma WholeConnection(calls: seq<Call>, token: nat)
    requires AllowedRun(START, calls, token)
    ensures var fate := FateOf(AwaitingUpgradeRequest, [], calls);
      && fate.request + (fate.lost + fate.parsed) == Received(calls)
      && Explained(Run(START, calls, token), fate, token)
  {
    hide Explained, AllowedRun, FateOf;
    FatePartition([], calls);
    assert [] + Received(calls) == Received(calls);
    WasmRuns.NothingCaptured();
    RequestRun(START, calls, token);
  }

  // ---------------------------------------------------------------------------------------
  // A stream that is closed, or was never opened
  // ---------------------------------------------------------------------------------------

  predicate NoMetadata(calls: seq<Call>) {
    forall call <- calls :: call != Stream(WasmRuns.Metadata)
  }

  /** Sends and half-closes, the events that need an open stream. */
  predicate NeedsStream(e: Event) {
    e.GrpcSend? || e.HalfClose?
  }

  lemma NothingKept()
    ensures Keep(NeedsStream, []) == []
  {
  }

  lemma {:induction false} NoneNeeded(ms: seq<Message>)
    ensures Keep(NeedsStream, Reactions(None, ms)) == [] && AfterAll(None, ms) == None
    decreases |ms|
  {
    hide EncodeFrame, Keep;
    if ms == [] {
      NothingKept();
    } else {
      NoneNeeded(ms[1..]);
      var r := React(None, ms[0]);
      KeepAppend(NeedsStream, r, Reactions(None, ms[1..]));
      if r == [] {
        NothingKept();
      } else {
        KeepOne(NeedsStream, r[0]);
        assert r == [r[0]];
      }
    }
  }

  lemma ClosedStep(s: State, call: Call, token: nat)
    requires s.phase == Active && s.stream == None && call != Stream(WasmRuns.Metadata)
    ensures var next := Step(s, call, token);
      && next.phase == Active && next.stream == None
      && Keep(NeedsStream, next.trace) == Keep(NeedsStream, s.trace)
  {
    hide Left, Taken, Reactions, HasClose, FrameProto.Meaning, EncodeFrame, Keep;
    var t := s.trace;
    assert Keep(NeedsStream, t) + [] == Keep(NeedsStream, t);
    match call
    case Stream(Data(chunk)) =>
      if chunk.Some? {
        var taken := Taken(s.buf + chunk.value);
        KeepAppend(NeedsStream, t, Reactions(None, taken));
        NoneNeeded(taken);
      }
    case Stream(Reply(data)) =>
      var relays := ServerMessage(s, data).trace;
      if relays != t {
        var e := relays[|t|];
        assert relays == t + [e];
        KeepAppend(NeedsStream, t, [e]);
        KeepOne(NeedsStream, e);
      }
    case Upstream(_, _) =>
    case StreamClosed =>
      var e := CloseNotice(EncodeFrame(CLOSE, NORMAL_CLOSURE));
      KeepAppend(NeedsStream, t, [e]);
      KeepOne(NeedsStream, e);
  }

  /**
   * Once the server has closed the stream, or if opening it failed, nothing is sent and nothing is
   * half-closed again, unless initial metadata arrives: data frames are dropped and only pings
   * are still answered.
   */
  lemma {:induction false} NothingSentWhenClosed(s: State, calls: seq<Call>, token: nat)
    requires s.phase == Active && s.stream == None && NoMetadata(calls)
    ensures Keep(NeedsStream, Run(s, calls, token).trace) == Keep(NeedsStream, s.trace)
    decreases |calls|
  {
    hide Step, Keep;
    if calls != [] {
      assert calls[0] in calls && forall call <- calls[1..] :: call in calls;
      ClosedStep(s, calls[0], token);
      NothingSentWhenClosed(Step(s, calls[0], token), calls[1..], token);
    }
  }

  /** What a call takes, and what more bytes make of the rest. */
  lemma TakenThen(buf: bytes, more: bytes)
    ensures Messages(buf + more, WORD32) == Taken(buf) + Messages(Left(buf) + more, WORD32)
  {
    hide Messages, Rest, Taken, Left;
    Split(buf, more, WORD32);
    Split(Left(buf), more, WORD32);
    TakenLeft(buf);
    var ms := Messages(Rest(buf, WORD32) + more, WORD32);
    assert Taken(buf) + Messages(Left(buf), WORD32) + ms == Taken(buf) + (Messages(Left(buf), WORD32) + ms);
  }

  lemma NoReaction()
    ensures Reactions(None, []) == []
    ensures forall ms: seq<Message> :: [] + ms == ms
  {
  }

  lemma NoticeClient(s: State)
    ensures WasmRuns.Client(StreamClose(s).trace) == WasmRuns.Client(s.trace)
  {
    hide Keep, EncodeFrame;
    var e := CloseNotice(EncodeFrame(CLOSE, NORMAL_CLOSURE));
    KeepAppend(WasmRuns.FromClient, s.trace, [e]);
    KeepOne(WasmRuns.FromClient, e);
    assert WasmRuns.Client(s.trace) + [] == WasmRuns.Client(s.trace);
  }

  /** What a call of a filter without stream takes, and that it reacts as without stream. */
  lemma ClosedTake(s: State, call: Call, token: nat) returns (taken: seq<Message>)
    requires s.phase == Active && s.stream == None && call != Stream(WasmRuns.Metadata)
    ensures var next := Step(s, call, token);
      && next.phase == Active && next.stream == None
      && WasmRuns.Client(next.trace) == WasmRuns.Client(s.trace) + Reactions(None, taken)
      && (forall more: bytes ::
            Messages(s.buf + BytesOf(call) + more, WORD32) == taken + Messages(next.buf + more, WORD32))
      && (Messages(s.buf, WORD32) == [] && !HasClose(taken) ==> Messages(next.buf, WORD32) == [])
  {
    hide Left, Taken, Reactions, HasClose, FrameProto.Meaning, EncodeFrame, Messages, Keep;
    taken := [];
    NoReaction();
    assert s.buf + [] == s.buf;
    assert WasmRuns.Client(s.trace) + [] == WasmRuns.Client(s.trace);
    match call
    case Stream(Data(chunk)) =>
      if chunk.Some? {
        taken := Taken(s.buf + chunk.value);
        WasmRuns.ClientReacts(s.trace, None, taken);
        TakenLeft(s.buf + chunk.value);
        forall more: bytes
          ensures Messages(s.buf + chunk.value + more, WORD32)
               == taken + Messages(Left(s.buf + chunk.value) + more, WORD32)
        {
          TakenThen(s.buf + chunk.value, more);
        }
      }
    case Stream(Reply(data)) => WasmRuns.ReplyClient(s, data);
    case Upstream(_, _) =>
    case StreamClosed => NoticeClient(s);
  }

  /** What a filter without stream takes over a run. */
  ghost predicate TakesClosed(s: State, later: bytes, taken: seq<Message>, end: State) {
    && WasmRuns.Client(end.trace) == WasmRuns.Client(s.trace) + Reactions(None, taken)
    && Messages(s.buf + later, WORD32) == taken + Messages(end.buf, WORD32)
    && (Messages(s.buf, WORD32) == [] && !HasClose(taken) ==> Messages(end.buf, WORD32) == [])
  }

  lemma {:induction false} ClosedRun(s: State, calls: seq<Call>, token: nat) returns (taken: seq<Message>)
    requires s.phase == Active && s.stream == None && NoMetadata(calls)
    ensures TakesClosed(s, Received(calls), taken, Run(s, calls, token))
    decreases |calls|
  {
    hide Step, Reactions, HasClose, Messages, Keep;
    if calls == [] {
      taken := [];
      NoReaction();
      assert s.buf + [] == s.buf;
      assert WasmRuns.Client(s.trace) + [] == WasmRuns.Client(s.trace);
    } else {
      assert calls[0] in calls && forall call <- calls[1..] :: call in calls;
      var first := ClosedTake(s, calls[0], token);
      var next := Step(s, calls[0], token);
      var rest := ClosedRun(next, calls[1..], token);
      taken := first + rest;
      ReactionsAppend(None, first, rest);
      HasCloseAppend(first, rest);
      var tail := Received(calls[1..]);
      assert s.buf + (BytesOf(calls[0]) + tail) == s.buf + BytesOf(calls[0]) + tail;
      var x, y := WasmRuns.Client(s.trace), Reactions(None, first);
      assert x + y + Reactions(None, rest) == x + (y + Reactions(None, rest));
      var end := Run(next, calls[1..], token);
      assert first + (rest + Messages(end.buf, WORD32)) == first + rest + Messages(end.buf, WORD32);
    }
  }

  lemma {:induction false} RunAppend(s: State, a: seq<Call>, b: seq<Call>, token: nat)
    ensures Run(s, a + b, token) == Run(Run(s, a, token), b, token)
    decreases |a|
  {
    hide Step;
    if a == [] {
      assert a + b == b;
    } else {
      assert (a + b)[1..] == a[1..] + b;
      RunAppend(Step(s, a[0], token), a[1..], b, token);
    }
  }

  lemma RunOne(s: State, call: Call, token: nat)
    ensures Run(s, [call], token) == Step(s, call, token)
  {
    hide Step;
    assert [call][1..] == [];
  }

  /**
   * When the server closes the stream of an active connection, the trace is the one explained so
   * far, followed by the reactions without stream to what is taken afterwards: pongs. What is
   * taken and what is still buffered are the messages of the buffer and all later bytes.
   */
  lemma ClosedByServer(before: seq<Call>, behind: seq<Call>, token: nat) returns (taken: seq<Message>)
    requires AllowedRun(START, before, token) && Run(START, before, token).phase == Active && NoMetadata(behind)
    ensures var s := Run(START, before, token);
      && Explained(s, FateOf(AwaitingUpgradeRequest, [], before), token)
      && TakesClosed(s, Received(behind), taken, Run(START, before + [StreamClosed] + behind, token))
  {
    hide Explained, AllowedRun, FateOf, NoMetadata, Reactions, HasClose, Messages, Keep, Run;
    WholeConnection(before, token);
    RunAppend(START, before + [StreamClosed], behind, token);
    RunAppend(START, before, [StreamClosed], token);
    var s := Run(START, before, token);
    RunOne(s, StreamClosed, token);
    NoticeClient(s);
    taken := ClosedRun(StreamClose(s), behind, token);
  }

  lemma NoTrace(s: State, fate: Fate, token: nat)
    requires Explained(s, fate, token) && s.phase == AwaitingUpgradeResponse
    ensures s.trace == []
  {
  }

  lemma AnswerFails(s: State, answer: Call, token: nat)
    requires s.phase == AwaitingUpgradeResponse && s.stream == None && s.trace == []
    requires Switches(answer) && answer.granted == None
    ensures Step(s, answer, token) == s.(phase := Active, trace := [OpenStream(s.headers)])
  {
    hide Find, FindFrom;
    assert [] + [OpenStream(s.headers)] == [OpenStream(s.headers)];
  }

  lemma {:induction false} StaysActive(s: State, calls: seq<Call>, token: nat)
    requires s.phase == Active
    ensures Run(s, calls, token).phase == Active
    decreases |calls|
  {
    if calls != [] {
      ActiveStep(s, calls[0], token);
      hide Step;
      StaysActive(Step(s, calls[0], token), calls[1..], token);
    }
  }

  lemma {:induction false} UnopenedFrom(s: State, calls: seq<Call>, token: nat)
    requires s.stream == None && (s.phase == AwaitingUpgradeResponse ==> s.buf == [])
    requires AllowedRun(s, calls, token) && Run(s, calls, token).phase != Active
    ensures var end := Run(s, calls, token);
      end.stream == None && (end.phase == AwaitingUpgradeResponse ==> end.buf == [])
    decreases |calls|
  {
    hide Find, FindFrom, UpgradeCapture.HeadersOf, ParseWsFrame, Taken, Left, Reactions, HasClose;
    if calls != [] {
      var next := Step(s, calls[0], token);
      if next.phase == Active { StaysActive(next, calls[1..], token); }
      UnopenedFrom(next, calls[1..], token);
    }
  }

  lemma Unopened(calls: seq<Call>, token: nat)
    requires AllowedRun(START, calls, token) && Run(START, calls, token).phase == AwaitingUpgradeResponse
    ensures Run(START, calls, token).stream == None && Run(START, calls, token).buf == []
  {
    UnopenedFrom(START, calls, token);
  }

  /** When opening the stream fails, the client gets pongs for what is taken, and nothing is sent. */
  lemma FailedOpen(before: seq<Call>, answer: Call, behind: seq<Call>, token: nat) returns (taken: seq<Message>)
    requires AllowedRun(START, before, token) && Run(START, before, token).phase == AwaitingUpgradeResponse
    requires Switches(answer) && answer.granted == None && NoMetadata(behind)
    ensures var end := Run(START, before + [answer] + behind, token);
      && WasmRuns.Client(end.trace) == Reactions(None, taken)
      && Messages(Received(behind), WORD32) == taken + Messages(end.buf, WORD32)
      && (!HasClose(taken) ==> Messages(end.buf, WORD32) == [])
  {
    hide AllowedRun, FateOf, NoMetadata, Reactions, HasClose, Keep, Run, Messages, Step, Switches, Explained;
    WholeConnection(before, token);
    Unopened(before, token);
    RunAppend(START, before + [answer], behind, token);
    RunAppend(START, before, [answer], token);
    var s := Run(START, before, token);
    NoTrace(s, FateOf(AwaitingUpgradeRequest, [], before), token);
    RunOne(s, answer, token);
    AnswerFails(s, answer, token);
    taken := ClosedRun(Step(s, answer, token), behind, token);
    KeepOne(WasmRuns.FromClient, OpenStream(s.headers));
    assert [] + Received(behind) == Received(behind) && [] + Reactions(None, taken) == Reactions(None, taken);
    EmptyStream(WORD32);
  }

  // ---------------------------------------------------------------------------------------
  // When lost bytes do no harm
  // ---------------------------------------------------------------------------------------

  /** Whole frames to which the filter never reacts. */
  predicate Harmless(lost: bytes) {
    Rest(lost, WORD32) == [] && forall m <- Messages(lost, WORD32) :: WasmRuns.Silent(m)
  }

  /** The client-driven trace of a stream through the first half-close. */
  function Sent(data: bytes, token: nat): seq<Event> {
    Reactions(Some(token), ThroughClose(Messages(data, WORD32)))
  }

  lemma SilentFirst(a: seq<Message>, b: seq<Message>, token: nat)
    requires forall m <- a :: WasmRuns.Silent(m)
    ensures Reactions(Some(token), ThroughClose(a + b)) == Reactions(Some(token), ThroughClose(b))
  {
    hide ThroughClose, Reactions;
    ThroughCloseAppend(a, b);
    assert !HasClose(a) by { assert forall i :: 0 <= i < |a| ==> WasmRuns.Silent(a[i]); }
    ReactionsAppend(Some(token), a, ThroughClose(b));
    WasmRuns.SilentReactions(Some(token), a);
    assert [] + Reactions(Some(token), ThroughClose(b)) == Reactions(Some(token), ThroughClose(b));
  }

  /** A ping without payload, and a text of one letter. */
  const PING_FRAME: bytes := [0x89, 0x00]
  const TEXT_FRAME: bytes := [0x81, 0x01, 0x41]

  lemma LongerThan(r: bytes, p: bytes)
    requires ParseWsFrame(r, WORD32) == None
    ensures ParseWsFrame(r + p, WORD32).Some? ==> ParseWsFrame(r + p, WORD32).value.consumed > |r|
  {
    hide ParseWsFrame;
    assert (r + p)[..|r|] == r;
    if ParseWsFrame(r + p, WORD32).Some? && ParseWsFrame(r + p, WORD32).value.consumed <= |r| {
      ParseWithin(r + p, |r|, WORD32);
    }
  }

  lemma OpcodeOf(buf: bytes)
    ensures ParseWsFrame(buf, WORD32).Some? ==> ParseWsFrame(buf, WORD32).value.opcode == buf[0] % 16
  {
    hide LengthFields, Mask;
  }

  /** Bytes behind an incomplete frame complete that frame, or nothing. */
  lemma Interrupted(r: bytes, p: bytes)
    requires r != [] && ParseWsFrame(r, WORD32) == None
    ensures Messages(r + p, WORD32) == [] || exists m: Message, n: nat ::
      0 < n <= |p| && m.opcode == r[0] % 16 && Messages(r + p, WORD32) == [m] + Messages(p[n..], WORD32)
  {
    hide ParseWsFrame;
    if ParseWsFrame(r + p, WORD32).Some? {
      var f := ParseWsFrame(r + p, WORD32).value;
      LongerThan(r, p);
      OpcodeOf(r + p);
      assert (r + p)[0] == r[0];
      var n := f.consumed - |r|;
      assert (r + p)[f.consumed..] == p[n..];
      var m := Message(f.opcode, f.payload);
      assert Messages(r + p, WORD32) == [m] + Messages(p[n..], WORD32);
    }
  }

  lemma OneSent(frame: bytes, m: Message, token: nat)
    requires ParseWsFrame(frame, WORD32) == Some(Parsed(m.opcode, m.payload, |frame|))
    ensures Sent(frame, token) == React(Some(token), m)
  {
    hide ParseWsFrame, React;
    assert frame[|frame|..] == [];
    EmptyStream(WORD32);
    assert Messages(frame, WORD32) == [m];
    assert ThroughClose([m]) == [m] by { assert [m][1..] == []; }
    assert [m][1..] == [] && Reactions(After(Some(token), m), []) == [];
    assert React(Some(token), m) + [] == React(Some(token), m);
  }

  lemma Probes(token: nat)
    ensures Sent(PING_FRAME, token) == [Pong(EncodeFrame(PONG, []))]
    ensures |Sent(TEXT_FRAME, token)| == 1 && Sent(TEXT_FRAME, token)[0].GrpcSend?
    ensures forall n: nat :: 0 < n <= 2 ==> Messages(PING_FRAME[n..], WORD32) == []
  {
    hide EncodeFrame, FrameProto.EncodeFrame;
    assert ParseWsFrame(PING_FRAME, WORD32) == Some(Parsed(9, [], 2)) by { assert PING_FRAME[2..2] == []; }
    assert ParseWsFrame(TEXT_FRAME, WORD32) == Some(Parsed(1, [0x41], 3)) by { assert TEXT_FRAME[2..3] == [0x41]; }
    forall n: nat | 0 < n <= 2 ensures Messages(PING_FRAME[n..], WORD32) == [] {
      assert ParseWsFrame(PING_FRAME[n..], WORD32) == None;
    }
    hide ParseWsFrame;
    OneSent(PING_FRAME, Message(PING, []), token);
    OneSent(TEXT_FRAME, Message(TEXT, [0x41]), token);
  }

  /** The first event of a list that starts with a message of the given opcode. */
  lemma StartsWith(m: Message, ms: seq<Message>, token: nat)
    ensures var r := Reactions(Some(token), ThroughClose([m] + ms));
      && (m.opcode == PING ==> r != [] && r[0].Pong?)
      && (m.opcode != PING && ms == [] ==> r == [] || !r[0].Pong?)
  {
    hide EncodeFrame, FrameProto.EncodeFrame;
    var t := ThroughClose([m] + ms);
    assert ([m] + ms)[1..] == ms && t[0] == m;
    assert t == [m] + t[1..];
    assert Reactions(Some(token), t) == React(Some(token), m) + Reactions(After(Some(token), m), t[1..]);
  }

  lemma NothingSent(token: nat)
    ensures Reactions(Some(token), ThroughClose([])) == []
  {
  }

  /** An incomplete frame in front spoils a continuation. */
  lemma Spoils(r: bytes, token: nat) returns (p: bytes)
    requires r != [] && ParseWsFrame(r, WORD32) == None
    ensures Sent(r + p, token) != Sent(p, token)
  {
    hide ParseWsFrame, Messages, Reactions, ThroughClose, EncodeFrame;
    Probes(token);
    p := if r[0] % 16 == PING then TEXT_FRAME else PING_FRAME;
    Interrupted(r, p);
    NothingSent(token);
    if Messages(r + p, WORD32) != [] {
      var m: Message, n: nat :|
        0 < n <= |p| && m.opcode == r[0] % 16 && Messages(r + p, WORD32) == [m] + Messages(p[n..], WORD32);
      StartsWith(m, Messages(p[n..], WORD32), token);
    }
  }

  lemma HarmlessLoss(lost: bytes, parsed: bytes, token: nat)
    requires Harmless(lost)
    ensures Sent(lost + parsed, token) == Sent(parsed, token)
  {
    hide Messages, Rest, Reactions, ThroughClose;
    Split(lost, parsed, WORD32);
    assert [] + parsed == parsed;
    SilentFirst(Messages(lost, WORD32), Messages(parsed, WORD32), token);
  }

  lemma RestIncomplete(buf: bytes)
    ensures ParseWsFrame(Rest(buf, WORD32), WORD32) == None
  {
    hide ParseWsFrame;
  }

  /** If some message is loud, one through the first close frame is. */
  lemma {:induction false} LoudThrough(ms: seq<Message>)
    requires exists m <- ms :: !WasmRuns.Silent(m)
    ensures exists m <- ThroughClose(ms) :: !WasmRuns.Silent(m)
  {
    var t := ThroughClose(ms);
    assert ms != [];
    assert t[0] == ms[0] && t[0] in t;
    if WasmRuns.Silent(ms[0]) {
      assert ms == [ms[0]] + ms[1..];
      LoudThrough(ms[1..]);
      assert t == [ms[0]] + ThroughClose(ms[1..]);
    }
  }

  lemma HarmfulLoss(lost: bytes, token: nat) returns (p: bytes)
    requires !Harmless(lost)
    ensures Sent(lost + p, token) != Sent(p, token)
  {
    hide Messages, Rest, Reactions, ThroughClose, WasmRuns.Silent;
    var ms, r := Messages(lost, WORD32), Rest(lost, WORD32);
    if forall m <- ms :: WasmRuns.Silent(m) {
      RestIncomplete(lost);
      p := Spoils(r, token);
      Split(lost, p, WORD32);
      SilentFirst(ms, Messages(r + p, WORD32), token);
    } else {
      p := [];
      assert lost + [] == lost;
      LoudThrough(ms);
      WasmRuns.LoudReactions(token, ms);
      EmptyStream(WORD32);
      NothingSent(token);
    }
  }

  /**
   * Losing bytes changes what is sent for no continuation of the stream if and only if the lost
   * bytes are whole frames to which the filter never reacts.
   */
  lemma LossHarmlessIff(lost: bytes, token: nat)
    ensures (forall parsed: bytes :: Sent(lost + parsed, token) == Sent(parsed, token)) <==> Harmless(lost)
  {
    hide Sent, Harmless;
    if Harmless(lost) {
      forall parsed: bytes ensures Sent(lost + parsed, token) == Sent(parsed, token) {
        HarmlessLoss(lost, parsed, token);
      }
    } else {
      var p := HarmfulLoss(lost, token);
    }
  }

  /** With harmless losses the trace is that of all bytes behind the request. */
  lemma NothingMissing(calls: seq<Call>, token: nat)
    requires AllowedRun(START, calls, token) && Run(START, calls, token).phase == Active
    requires Harmless(FateOf(AwaitingUpgradeRequest, [], calls).lost)
    ensures var fate := FateOf(AwaitingUpgradeRequest, [], calls);
      WasmRuns.UpToHalfClose(WasmRuns.Client(Run(START, calls, token).trace)) == Sent(fate.lost + fate.parsed, token)
  {
    hide AllowedRun, FateOf, Run, Harmless, Keep;
    WholeConnection(calls, token);
    var fate := FateOf(AwaitingUpgradeRequest, [], calls);
    HarmlessLoss(fate.lost, fate.parsed, token);
  }

  lemma {:induction false} ActiveAllowed(s: State, calls: seq<Call>, token: nat)
    requires s.phase == Active && forall call <- calls :: call.Stream?
    ensures AllowedRun(s, calls, token)
    decreases |calls|
  {
    if calls != [] {
      assert calls[0] in calls && forall call <- calls[1..] :: call in calls;
      ActiveStep(s, calls[0], token);
      hide Step;
      ActiveAllowed(Step(s, calls[0], token), calls[1..], token);
    }
  }

  /** The request in the first call, with `extra` bytes behind it, and then the 101 line. */
  function Opening(extra: bytes, token: nat): seq<Call> {
    [Stream(WasmRuns.Data(Some(UpgradeCapture.CRLF2 + extra))), Upstream(Some(SWITCHING), Some(token))]
  }

  lemma FirstRequest(extra: bytes)
    ensures Find(UpgradeCapture.CRLF2 + extra, UpgradeCapture.CRLF2) == Some(0)
    ensures Find(SWITCHING, SWITCHING).Some?
    ensures Find([], UpgradeCapture.CRLF2) == None
    ensures (UpgradeCapture.CRLF2 + extra)[..4] == UpgradeCapture.CRLF2 && (UpgradeCapture.CRLF2 + extra)[4..] == extra
  {
    hide FindFrom, Find;
    FindWritten([], UpgradeCapture.CRLF2, extra);
    FindWritten([], SWITCHING, []);
    assert [] + UpgradeCapture.CRLF2 + extra == UpgradeCapture.CRLF2 + extra && [] + SWITCHING + [] == SWITCHING;
    WasmRuns.NothingCaptured();
  }

  lemma OpeningFate(extra: bytes, calls: seq<Call>, token: nat)
    ensures FateOf(AwaitingUpgradeRequest, [], Opening(extra, token) + calls)
         == Fate(UpgradeCapture.CRLF2, extra, Received(calls))
  {
    hide Find, FindFrom;
    FirstRequest(extra);
    var all := Opening(extra, token) + calls;
    assert all[1..][1..] == calls;
    FateActive(UpgradeCapture.CRLF2, calls);
    assert [] + (UpgradeCapture.CRLF2 + extra) == UpgradeCapture.CRLF2 + extra && extra + [] == extra;
    assert FateOf(AwaitingUpgradeResponse, UpgradeCapture.CRLF2, all[1..])
        == Fate(UpgradeCapture.CRLF2, [] + [], Received(calls));
  }

  lemma OpeningAllowed(extra: bytes, calls: seq<Call>, token: nat)
    requires forall call <- calls :: call.Stream?
    ensures AllowedRun(START, Opening(extra, token) + calls, token)
    ensures Run(START, Opening(extra, token) + calls, token).phase == Active
  {
    hide Find, FindFrom, UpgradeCapture.HeadersOf;
    FirstRequest(extra);
    var all := Opening(extra, token) + calls;
    assert all[1..][1..] == calls && [] + (UpgradeCapture.CRLF2 + extra) == UpgradeCapture.CRLF2 + extra;
    var s1 := Step(START, all[0], token);
    assert Allowed(START, all[0], token) && s1.phase == AwaitingUpgradeResponse && s1.trace == [];
    var s2 := Step(s1, all[1], token);
    assert Allowed(s1, all[1], token) && s2.phase == Active;
    hide Step, Allowed;
    ActiveAllowed(s2, calls, token);
    StaysActive(s2, calls, token);
    assert AllowedRun(s1, all[1..], token);
    assert Run(START, all, token) == Run(s1, all[1..], token) == Run(s2, calls, token);
  }

  /** What an opening and the calls behind it send. */
  lemma OpeningSends(extra: bytes, calls: seq<Call>, token: nat)
    requires forall call <- calls :: call.Stream?
    ensures AllowedRun(START, Opening(extra, token) + calls, token)
    ensures WasmRuns.UpToHalfClose(WasmRuns.Client(Run(START, Opening(extra, token) + calls, token).trace))
         == Sent(Received(calls), token)
  {
    hide AllowedRun, FateOf, Run, Opening, Keep;
    OpeningAllowed(extra, calls, token);
    OpeningFate(extra, calls, token);
    WholeConnection(Opening(extra, token) + calls, token);
  }

  lemma OpeningBytes(extra: bytes, token: nat)
    ensures Received(Opening(extra, token)) == UpgradeCapture.CRLF2 + extra
  {
    var calls := Opening(extra, token);
    assert calls[1..][1..] == [];
    assert Received(calls[1..]) == [] + Received([]) == [];
    assert Received(calls) == UpgradeCapture.CRLF2 + extra + [];
  }

  lemma {:induction false} ReceivedAppend(a: seq<Call>, b: seq<Call>)
    ensures Received(a + b) == Received(a) + Received(b)
  {
    if a == [] {
      assert a + b == b;
    } else {
      assert (a + b)[1..] == a[1..] + b;
      ReceivedAppend(a[1..], b);
    }
  }

  /**
   * Losses that do harm: a text frame behind CRLFCRLF is lost when it comes in the same segment,
   * and sent when it comes in a call of its own behind the 101 line.
   */
  lemma PipelinedLost(token: nat)
    ensures var early := Opening(TEXT_FRAME, token) + [];
      var late := Opening([], token) + [Stream(WasmRuns.Data(Some(TEXT_FRAME)))];
      && AllowedRun(START, early, token) && AllowedRun(START, late, token)
      && Received(early) == Received(late)
      && WasmRuns.UpToHalfClose(WasmRuns.Client(Run(START, early, token).trace)) == []
      && WasmRuns.UpToHalfClose(WasmRuns.Client(Run(START, late, token).trace)) == Sent(TEXT_FRAME, token)
      && |Sent(TEXT_FRAME, token)| == 1
  {
    var text := Stream(WasmRuns.Data(Some(TEXT_FRAME)));
    hide AllowedRun, Run, Keep, Messages, Reactions, ThroughClose;
    OpeningSends(TEXT_FRAME, [], token);
    OpeningSends([], [text], token);
    Probes(token);
    EmptyStream(WORD32);
    NothingSent(token);
    OpeningBytes(TEXT_FRAME, token);
    OpeningBytes([], token);
    ReceivedAppend(Opening(TEXT_FRAME, token), []);
    ReceivedAppend(Opening([], token), [text]);
    assert [text][1..] == [];
    assert Received([text]) == TEXT_FRAME + [] == TEXT_FRAME;
    assert UpgradeCapture.CRLF2 + [] + (TEXT_FRAME + []) == UpgradeCapture.CRLF2 + TEXT_FRAME + [];
  }
}
