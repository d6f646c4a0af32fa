/**
 * Whole runs of the WASM network filter: the client's bytes, not the way TCP cuts them nor the
 * callbacks in between, decide what it sends.
 */
module WasmRuns {
  import opened Bytes
  import opened WsFrame
  import opened FrameStream
  import opened WasmFilter
  import UpgradeCapture

  /** A callback while the connection is active; `None` stands for a failed buffer read. */
  datatype Op = Data(chunk: Option<bytes>) | Metadata | Reply(data: Option<bytes>)

  /** `token` is the stream id that opening the stream returned and its metadata repeats. */
  function Step(s: State, op: Op, token: nat): State {
    match op
    case Data(chunk) => DownstreamData(s, chunk)
    case Metadata => s.(stream := Some(token))
    case Reply(data) => ServerMessage(s, data)
  }

  function Run(s: State, ops: seq<Op>, token: nat): State
    decreases |ops|
  {
    if ops == [] then s else Run(Step(s, ops[0], token), ops[1..], token)
  }

  function BytesOf(op: Op): bytes {
    if op.Data? && op.chunk.Some? then op.chunk.value else []
  }

  function Received(ops: seq<Op>): bytes {
    if ops == [] then [] else BytesOf(ops[0]) + Received(ops[1..])
  }

  /** The events the client's bytes cause, as opposed to relayed server messages. */
  predicate FromClient(e: Event) {
    e.GrpcSend? || e.HalfClose? || e.Pong?
  }

  function Client(trace: seq<Event>): seq<Event> {
    Keep(FromClient, trace)
  }

  lemma {:induction false} ReactionsFromClient(stream: Option<nat>, ms: seq<Message>)
    ensures forall e <- Reactions(stream, ms) :: FromClient(e)
    decreases |ms|
  {
    hide FrameProto.EncodeFrame, EncodeFrame;
    if ms != [] { ReactionsFromClient(After(stream, ms[0]), ms[1..]); }
  }

  /** What reactions add to the client-driven trace. */
  lemma ClientReacts(trace: seq<Event>, stream: Option<nat>, ms: seq<Message>)
    ensures Client(trace + Reactions(stream, ms)) == Client(trace) + Reactions(stream, ms)
  {
    hide Keep, Reactions;
    KeepAppend(FromClient, trace, Reactions(stream, ms));
    ReactionsFromClient(stream, ms);
    KeepAll(FromClient, Reactions(stream, ms));
  }

  /** A filter whose stream has just been opened. */
  ghost predicate Fresh(s: State, token: nat) {
    s.phase == Active && s.buf == [] && s.stream == Some(token) && Client(s.trace) == []
  }

  /** `seen` are the messages taken so far out of the bytes `all`. */
  ghost predicate Inv(s: State, all: bytes, seen: seq<Message>, token: nat) {
    && s.phase == Active
    && Messages(all, WORD32) == seen + Messages(s.buf, WORD32)
    && Rest(all, WORD32) == Rest(s.buf, WORD32)
    && Reactions(Some(token), ThroughClose(seen)) <= Client(s.trace)
    && (!HasClose(seen) ==>
          s.stream == Some(token) && Messages(s.buf, WORD32) == [] && Client(s.trace) == Reactions(Some(token), seen))
  }

  lemma ReactionsPrefix(token: nat, ms: seq<Message>)
    ensures Reactions(Some(token), ThroughClose(ms)) <= Reactions(Some(token), ms)
  {
    var t := ThroughClose(ms);
    assert ms == t + ms[|t|..];
    ReactionsAppend(Some(token), t, ms[|t|..]);
  }

  lemma DataInv(s: State, all: bytes, seen: seq<Message>, chunk: bytes, token: nat)
    requires Inv(s, all, seen, token)
    ensures Inv(DownstreamData(s, Some(chunk)), all + chunk, seen + Taken(s.buf + chunk), token)
  {
    hide Messages, Rest, Taken, Left, Reactions, HasClose, ThroughClose, React, Client;
    var buf, taken := s.buf + chunk, Taken(s.buf + chunk);
    Split(all, chunk, WORD32);
    Split(s.buf, chunk, WORD32);
    TakenLeft(buf);
    assert seen + (taken + Messages(Left(buf), WORD32)) == seen + taken + Messages(Left(buf), WORD32);
    assert seen + Messages(s.buf, WORD32) + Messages(Rest(s.buf, WORD32) + chunk, WORD32)
        == seen + (Messages(s.buf, WORD32) + Messages(Rest(s.buf, WORD32) + chunk, WORD32));
    ClientReacts(s.trace, s.stream, taken);
    ThroughCloseAppend(seen, taken);
    HasCloseAppend(seen, taken);
    if !HasClose(seen) {
      NoCloseWhole(seen);
      ReactionsAppend(Some(token), seen, taken);
      ReactionsPrefix(token, seen + taken);
    }
  }

  lemma ReplyClient(s: State, data: Option<bytes>)
    ensures Client(ServerMessage(s, data).trace) == Client(s.trace)
  {
    hide FrameProto.Meaning, EncodeFrame;
    var t := ServerMessage(s, data).trace;
    if t != s.trace { assert t[..|t| - 1] == s.trace; }
  }

  lemma StepInv(s: State, all: bytes, seen: seq<Message>, op: Op, token: nat) returns (now: seq<Message>)
    requires Inv(s, all, seen, token)
    ensures Inv(Step(s, op, token), all + BytesOf(op), now, token)
  {
    hide Messages, Rest, Reactions, HasClose, ThroughClose, Client, FrameProto.Meaning, EncodeFrame;
    now := seen;
    assert all + [] == all;
    match op
    case Data(chunk) =>
      if chunk.Some? {
        now := seen + Taken(s.buf + chunk.value);
        DataInv(s, all, seen, chunk.value, token);
      }
    case Metadata =>
    case Reply(data) =>
      ReplyClient(s, data);
  }

  lemma {:induction false} RunInv(s: State, all: bytes, seen: seq<Message>, ops: seq<Op>, token: nat)
    returns (now: seq<Message>)
    requires Inv(s, all, seen, token)
    ensures Inv(Run(s, ops, token), all + Received(ops), now, token)
    decreases |ops|
  {
    hide Inv, Step;
    if ops == [] {
      now := seen;
      assert all + [] == all;
    } else {
      var next := StepInv(s, all, seen, ops[0], token);
      now := RunInv(Step(s, ops[0], token), all + BytesOf(ops[0]), next, ops[1..], token);
      assert all + BytesOf(ops[0]) + Received(ops[1..]) == all + Received(ops);
    }
  }

  // ---------------------------------------------------------------------------------------
  // Cut at the first half-close
  // ---------------------------------------------------------------------------------------

  function UpToHalfClose(trace: seq<Event>): seq<Event> {
    if trace == [] then []
    else if trace[0].HalfClose? then [trace[0]]
    else [trace[0]] + UpToHalfClose(trace[1..])
  }

  lemma {:induction false} CutBehind(t: seq<Event>, u: seq<Event>)
    requires exists i :: 0 <= i < |t| && t[i].HalfClose?
    ensures UpToHalfClose(t + u) == UpToHalfClose(t)
  {
    if !t[0].HalfClose? {
      var i :| 0 <= i < |t| && t[i].HalfClose?;
      assert t[1..][i - 1].HalfClose?;
      assert (t + u)[1..] == t[1..] + u;
      CutBehind(t[1..], u);
    }
  }

  lemma ShiftHalfClose(r: seq<Event>, tail: seq<Event>)
    requires |r| <= 1 && (r != [] ==> !r[0].HalfClose?)
    ensures UpToHalfClose(r + tail) == r + UpToHalfClose(tail)
    ensures (exists i :: 0 <= i < |r + tail| && (r + tail)[i].HalfClose?)
       <==> exists i :: 0 <= i < |tail| && tail[i].HalfClose?
  {
    if r == [] {
      assert r + tail == tail;
    } else {
      assert (r + tail)[1..] == tail;
      if i :| 0 <= i < |tail| && tail[i].HalfClose? { assert (r + tail)[i + 1].HalfClose?; }
      if i :| 0 <= i < |r + tail| && (r + tail)[i].HalfClose? { assert tail[i - 1].HalfClose?; }
    }
  }

  lemma {:induction false} CutReactions(token: nat, ms: seq<Message>)
    ensures UpToHalfClose(Reactions(Some(token), ThroughClose(ms))) == Reactions(Some(token), ThroughClose(ms))
    ensures HasClose(ms) <==> exists i :: 0 <= i < |Reactions(Some(token), ThroughClose(ms))| &&
                                         Reactions(Some(token), ThroughClose(ms))[i].HalfClose?
  {
    hide FrameProto.EncodeFrame, EncodeFrame;
    if ms != [] {
      assert HasClose(ms) <==> ms[0].opcode == CLOSE || HasClose(ms[1..]) by {
        assert ms == [ms[0]] + ms[1..];
        HasCloseAppend([ms[0]], ms[1..]);
        assert HasClose([ms[0]]) <==> [ms[0]][0].opcode == CLOSE;
      }
      CutReactions(token, ms[1..]);
      var tail := Reactions(Some(token), ThroughClose(ms[1..]));
      if ms[0].opcode == CLOSE {
        assert ThroughClose(ms) == [ms[0]] && ThroughClose(ms)[1..] == [];
        assert Reactions(Some(token), ThroughClose(ms)) == [HalfClose(token)];
        assert [HalfClose(token)][0].HalfClose?;
      } else {
        var r := React(Some(token), ms[0]);
        assert ThroughClose(ms)[1..] == ThroughClose(ms[1..]);
        assert Reactions(Some(token), ThroughClose(ms)) == r + tail;
        ShiftHalfClose(r, tail);
      }
    }
  }

  // ---------------------------------------------------------------------------------------
  // Main results
  // ---------------------------------------------------------------------------------------

  lemma StartInv(s: State, token: nat)
    requires Fresh(s, token)
    ensures Inv(s, [], [], token)
  {
    assert Messages([], WORD32) == [];
    assert [] + Messages(s.buf, WORD32) == Messages(s.buf, WORD32);
  }

  lemma NothingComplete(buf: bytes)
    requires Messages(buf, WORD32) == []
    ensures ParseWsFrame(buf, WORD32) == None && Rest(buf, WORD32) == buf
  {
    hide ParseWsFrame;
  }

  /**
   * Segmentation independence. However the bytes are cut into calls, whenever initial metadata
   * repeats the stream id and server messages are relayed, the client-driven trace up to and
   * including the first half-close is that of the messages of all bytes; without a close frame
   * it is the whole trace, and the buffer is exactly the unparsed tail.
   */
  lemma SegmentationIndependence(s: State, ops: seq<Op>, token: nat)
    requires Fresh(s, token)
    ensures var all := Received(ops); var end := Run(s, ops, token); var ms := Messages(all, WORD32);
      && UpToHalfClose(Client(end.trace)) == Reactions(Some(token), ThroughClose(ms))
      && (!HasClose(ms) ==> Client(end.trace) == Reactions(Some(token), ms)
                            && end.buf == Rest(all, WORD32) && end.stream == Some(token))
      && (!HasClose(ms) ==> ParseWsFrame(end.buf, WORD32) == None)
  {
    hide ParseWsFrame, Reactions, HasClose, ThroughClose, UpToHalfClose, Run, Received, Messages, Rest, Fresh, Client;
    var all, end := Received(ops), Run(s, ops, token);
    assert Inv(s, [], [], token) by { StartInv(s, token); }
    var seen := RunInv(s, [], [], ops, token);
    assert [] + all == all;
    var ms := Messages(all, WORD32);
    HasCloseAppend(seen, Messages(end.buf, WORD32));
    ThroughCloseAppend(seen, Messages(end.buf, WORD32));
    CutReactions(token, ms);
    if HasClose(seen) {
      var r := Reactions(Some(token), ThroughClose(ms));
      assert Client(end.trace) == r + Client(end.trace)[|r|..];
      CutBehind(r, Client(end.trace)[|r|..]);
    } else {
      assert seen + [] == seen;
      NoCloseWhole(seen);
      NothingComplete(end.buf);
    }
  }

  // ---------------------------------------------------------------------------------------
  // The trace behind the first close frame
  // ---------------------------------------------------------------------------------------

  predicate PingBehindClose(ms: seq<Message>) {
    exists i :: |ThroughClose(ms)| <= i < |ms| && ms[i].opcode == PING
  }

  predicate NoMetadata(ops: seq<Op>) {
    forall op <- ops :: !op.Metadata?
  }

  /** Without initial metadata the whole trace is that of the messages taken so far. */
  ghost predicate Exact(s: State, seen: seq<Message>, token: nat) {
    Client(s.trace) == Reactions(Some(token), seen) && s.stream == AfterAll(Some(token), seen)
  }

  lemma ExactStep(s: State, seen: seq<Message>, chunk: bytes, token: nat)
    requires s.phase == Active && Exact(s, seen, token)
    ensures Exact(DownstreamData(s, Some(chunk)), seen + Taken(s.buf + chunk), token)
  {
    hide Taken, Left, Reactions, HasClose, Client;
    var taken := Taken(s.buf + chunk);
    ClientReacts(s.trace, s.stream, taken);
    ReactionsAppend(Some(token), seen, taken);
    HasCloseAppend(seen, taken);
  }

  lemma ExactOne(s: State, all: bytes, seen: seq<Message>, op: Op, token: nat) returns (now: seq<Message>)
    requires Inv(s, all, seen, token) && Exact(s, seen, token) && !op.Metadata?
    ensures Inv(Step(s, op, token), all + BytesOf(op), now, token)
    ensures Exact(Step(s, op, token), now, token)
  {
    hide Messages, Rest, Reactions, HasClose, ThroughClose, Taken, Left, Client, FrameProto.Meaning, EncodeFrame;
    now := seen;
    assert all + [] == all;
    match op
    case Data(chunk) =>
      if chunk.Some? {
        now := seen + Taken(s.buf + chunk.value);
        DataInv(s, all, seen, chunk.value, token);
        ExactStep(s, seen, chunk.value, token);
      }
    case Reply(data) => ReplyClient(s, data);
  }

  lemma {:induction false} ExactRun(s: State, all: bytes, seen: seq<Message>, ops: seq<Op>, token: nat)
    returns (now: seq<Message>)
    requires Inv(s, all, seen, token) && Exact(s, seen, token) && NoMetadata(ops)
    ensures Inv(Run(s, ops, token), all + Received(ops), now, token) && Exact(Run(s, ops, token), now, token)
    decreases |ops|
  {
    hide Inv, Exact, Step;
    now := seen;
    if ops == [] {
      assert all + [] == all;
    } else {
      assert !ops[0].Metadata?;
      var next := ExactOne(s, all, seen, ops[0], token);
      now := ExactRun(Step(s, ops[0], token), all + BytesOf(ops[0]), next, ops[1..], token);
      assert all + BytesOf(ops[0]) + Received(ops[1..]) == all + Received(ops);
    }
  }

  /** Behind a close frame only pings still cause an event. */
  lemma {:induction false} ClosedReactions(ms: seq<Message>)
    ensures Reactions(None, ms) == [] <==> forall m <- ms :: m.opcode != PING
    decreases |ms|
  {
    hide EncodeFrame;
    if ms != [] {
      ClosedReactions(ms[1..]);
      assert forall m :: m in ms <==> m == ms[0] || m in ms[1..] by { assert ms == [ms[0]] + ms[1..]; }
    }
  }

  lemma NothingReacts(token: nat)
    ensures Reactions(Some(token), []) == []
  {
  }

  lemma {:induction false} ThroughCloseHas(ms: seq<Message>)
    ensures HasClose(ms) ==> HasClose(ThroughClose(ms))
    ensures !HasClose(ThroughClose(ms)) ==> ThroughClose(ms) == ms
  {
    if ms != [] {
      if ms[0].opcode == CLOSE {
        assert ThroughClose(ms)[0].opcode == CLOSE;
      } else {
        ThroughCloseHas(ms[1..]);
        assert ms == [ms[0]] + ms[1..];
        HasCloseAppend([ms[0]], ms[1..]);
        HasCloseAppend([ms[0]], ThroughClose(ms[1..]));
      }
    }
  }

  lemma BehindClose(token: nat, ms: seq<Message>)
    ensures Reactions(Some(token), ms) == Reactions(Some(token), ThroughClose(ms)) <==> !PingBehindClose(ms)
  {
    hide React, Reactions, ThroughClose, HasClose;
    var t := ThroughClose(ms);
    var u := ms[|t|..];
    assert ms == t + u;
    ReactionsAppend(Some(token), t, u);
    ThroughCloseHas(ms);
    ClosedReactions(u);
    assert PingBehindClose(ms) <==> exists m <- u :: m.opcode == PING by {
      assert forall i :: |t| <= i < |ms| ==> ms[i] == u[i - |t|];
      if m :| m in u && m.opcode == PING {
        var i :| 0 <= i < |u| && u[i] == m;
        assert ms[|t| + i].opcode == PING;
      }
    }
    if !HasClose(t) {
      assert u == [];
      NothingReacts(token);
    }
    assert |Reactions(Some(token), ms)| == |Reactions(Some(token), t)| + |Reactions(AfterAll(Some(token), t), u)|;
  }

  /** Calls that bring no new byte still drain the buffer up to the next close frame. */
  function Drains(n: nat): (ops: seq<Op>)
    ensures NoMetadata(ops) && Received(ops) == []
  {
    if n == 0 then [] else [Data(Some([]))] + Drains(n - 1)
  }

  /** A call without new bytes. */
  lemma DrainOnce(s: State, all: bytes, seen: seq<Message>, token: nat)
    requires Inv(s, all, seen, token) && Exact(s, seen, token)
    ensures var next := DownstreamData(s, Some([]));
      && next.buf == Left(s.buf)
      && Inv(next, all, seen + Taken(s.buf), token) && Exact(next, seen + Taken(s.buf), token)
  {
    hide Messages, Rest, Reactions, HasClose, ThroughClose, Taken, Left, Client;
    DataInv(s, all, seen, [], token);
    ExactStep(s, seen, [], token);
    assert all + [] == all && s.buf + [] == s.buf;
  }

  lemma DrainsUnfold(s: State, k: nat, token: nat)
    ensures Run(s, Drains(k + 1), token) == Run(DownstreamData(s, Some([])), Drains(k), token)
  {
    hide DownstreamData;
    assert Drains(k + 1)[1..] == Drains(k);
  }

  lemma AllTaken(s: State, all: bytes, seen: seq<Message>, token: nat)
    requires Inv(s, all, seen, token) && Exact(s, seen, token) && Messages(s.buf, WORD32) == []
    ensures Client(Run(s, Drains(0), token).trace) == Reactions(Some(token), Messages(all, WORD32))
  {
    hide Messages, Reactions, Client;
    assert seen + [] == seen;
  }

  lemma LeftShorter(buf: bytes)
    requires Messages(buf, WORD32) != []
    ensures |Left(buf)| < |buf|
    decreases |buf|
  {
    hide ParseWsFrame;
    var p := ParseWsFrame(buf, WORD32).value;
    if p.opcode != CLOSE && Messages(buf[p.consumed..], WORD32) != [] {
      LeftShorter(buf[p.consumed..]);
    }
  }

  /** Enough empty calls take every message. */
  lemma {:induction false} DrainsAll(s: State, all: bytes, seen: seq<Message>, token: nat)
    returns (n: nat)
    requires Inv(s, all, seen, token) && Exact(s, seen, token)
    ensures Client(Run(s, Drains(n), token).trace) == Reactions(Some(token), Messages(all, WORD32))
    decreases |s.buf|
  {
    hide Inv, Exact, Messages, Reactions, Client, Run, DownstreamData, Left, Taken;
    if Messages(s.buf, WORD32) == [] {
      n := 0;
      AllTaken(s, all, seen, token);
    } else {
      DrainOnce(s, all, seen, token);
      LeftShorter(s.buf);
      var k := DrainsAll(DownstreamData(s, Some([])), all, seen + Taken(s.buf), token);
      n := k + 1;
      DrainsUnfold(s, k, token);
    }
  }

  lemma StartExact(s: State, token: nat)
    requires Fresh(s, token)
    ensures Exact(s, [], token)
  {
  }

  lemma DrainsAfter(s: State, all: bytes, token: nat) returns (n: nat)
    requires Inv(s, [], [], token) && Exact(s, [], token) && s.buf == []
    ensures Client(Run(s, [Data(Some(all))] + Drains(n), token).trace)
         == Reactions(Some(token), Messages(all, WORD32))
  {
    hide Messages, Rest, Reactions, HasClose, ThroughClose, Taken, Left;
    DataInv(s, [], [], all, token);
    ExactStep(s, [], all, token);
    assert [] + all == all;
    n := DrainsAll(DownstreamData(s, Some(all)), all, [] + Taken(s.buf + all), token);
    assert ([Data(Some(all))] + Drains(n))[1..] == Drains(n);
  }

  /** A run without close stops at the whole, one with a close stops between the two bounds. */
  lemma Between(token: nat, seen: seq<Message>, later: seq<Message>)
    requires !HasClose(seen) ==> later == []
    requires Reactions(Some(token), seen + later) == Reactions(Some(token), ThroughClose(seen + later))
    ensures Reactions(Some(token), seen) == Reactions(Some(token), ThroughClose(seen + later))
  {
    hide React;
    ThroughCloseAppend(seen, later);
    ReactionsPrefix(token, seen);
    ReactionsAppend(Some(token), seen, later);
    if !HasClose(seen) {
      NoCloseWhole(seen);
      assert seen + [] == seen;
    }
  }

  /**
   * Once initial metadata has arrived, the full trace does not depend on the cutting exactly when
   * no ping follows the first close frame: a later call resumes the parse that a close frame
   * interrupted.
   */
  lemma FullTraceIff(s: State, all: bytes, token: nat)
    requires Fresh(s, token)
    ensures var ms := Messages(all, WORD32);
      (forall ops | NoMetadata(ops) && Received(ops) == all ::
         Client(Run(s, ops, token).trace) == Reactions(Some(token), ThroughClose(ms)))
      <==> !PingBehindClose(ms)
  {
    hide Messages, Rest, Reactions, HasClose, ThroughClose, PingBehindClose, Run;
    var ms := Messages(all, WORD32);
    StartInv(s, token);
    StartExact(s, token);
    BehindClose(token, ms);
    if PingBehindClose(ms) {
      var n := DrainsAfter(s, all, token);
      var ops := [Data(Some(all))] + Drains(n);
      assert NoMetadata(ops) && Received(ops) == all by { assert ops[1..] == Drains(n); assert all + [] == all; }
    } else {
      forall ops | NoMetadata(ops) && Received(ops) == all
        ensures Client(Run(s, ops, token).trace) == Reactions(Some(token), ThroughClose(ms))
      {
        var seen := ExactRun(s, [], [], ops, token);
        assert [] + all == all;
        Between(token, seen, Messages(Run(s, ops, token).buf, WORD32));
      }
    }
  }

  // ---------------------------------------------------------------------------------------
  // Metadata behind the first close frame
  // ---------------------------------------------------------------------------------------

  /** A message to which the filter never reacts, whether its stream is open or not. */
  predicate Silent(m: Message) {
    !IsData(m) && m.opcode != CLOSE && m.opcode != PING
  }

  /** Only silent messages follow the first close frame. */
  predicate QuietBehindClose(ms: seq<Message>) {
    forall m <- ms[|ThroughClose(ms)|..] :: Silent(m)
  }

  /** The whole trace is that of the messages through the first close frame. */
  ghost predicate Settled(s: State, seen: seq<Message>, token: nat) {
    Client(s.trace) == Reactions(Some(token), ThroughClose(seen))
  }

  lemma {:induction false} SilentReactions(stream: Option<nat>, ms: seq<Message>)
    requires forall m <- ms :: Silent(m)
    ensures Reactions(stream, ms) == []
    decreases |ms|
  {
    if ms != [] {
      assert Silent(ms[0]);
      SilentReactions(stream, ms[1..]);
    }
  }

  /** An open stream reacts to a list without early close frame unless all of it is silent. */
  lemma {:induction false} LoudReactions(token: nat, ms: seq<Message>)
    ensures Reactions(Some(token), ThroughClose(ms)) == [] <==> forall m <- ThroughClose(ms) :: Silent(m)
    decreases |ms|
  {
    hide EncodeFrame, FrameProto.EncodeFrame;
    if ms != [] {
      LoudReactions(token, ms[1..]);
      var t := ThroughClose(ms);
      assert t[0] == ms[0];
      if Silent(ms[0]) {
        assert t == [ms[0]] + ThroughClose(ms[1..]);
        assert t[1..] == ThroughClose(ms[1..]);
      }
    }
  }

  lemma QuietPrefix(a: seq<Message>, b: seq<Message>)
    requires QuietBehindClose(a + b)
    ensures QuietBehindClose(a)
    ensures HasClose(a) ==> forall m <- b :: Silent(m)
  {
    hide HasClose, Silent;
    ThroughCloseAppend(a, b);
    var ms := a + b;
    if HasClose(a) {
      var n := |ThroughClose(a)|;
      assert ms[n..] == a[n..] + b;
      assert forall m :: m in a[n..] || m in b ==> m in ms[n..];
    } else {
      NoCloseWhole(a);
    }
  }

  lemma {:induction false} ThroughTwice(ms: seq<Message>)
    ensures ThroughClose(ThroughClose(ms)) == ThroughClose(ms)
  {
    if ms != [] && ms[0].opcode != CLOSE {
      ThroughTwice(ms[1..]);
      assert ThroughClose(ms)[1..] == ThroughClose(ms[1..]);
    }
  }

  /** What one call takes has no close frame but at its end. */
  lemma TakenWhole(buf: bytes)
    ensures ThroughClose(Taken(buf)) == Taken(buf)
  {
    hide Taken, Messages;
    TakenThroughClose(buf);
    ThroughTwice(Messages(buf, WORD32));
  }

  lemma DataSettled(s: State, all: bytes, seen: seq<Message>, chunk: bytes, token: nat)
    requires Inv(s, all, seen, token) && Settled(s, seen, token)
    requires QuietBehindClose(Messages(all + chunk, WORD32))
    ensures Settled(DownstreamData(s, Some(chunk)), seen + Taken(s.buf + chunk), token)
  {
    hide Messages, Rest, Taken, Left, Reactions, HasClose, ThroughClose, Client, QuietBehindClose;
    var taken := Taken(s.buf + chunk);
    DataInv(s, all, seen, chunk, token);
    QuietPrefix(seen + taken, Messages(Left(s.buf + chunk), WORD32));
    QuietPrefix(seen, taken);
    ThroughCloseAppend(seen, taken);
    ClientReacts(s.trace, s.stream, taken);
    if HasClose(seen) {
      SilentReactions(s.stream, taken);
    } else {
      TakenWhole(s.buf + chunk);
      NoCloseWhole(seen);
      ReactionsAppend(Some(token), seen, taken);
    }
  }

  lemma SettledOne(s: State, all: bytes, seen: seq<Message>, op: Op, token: nat) returns (now: seq<Message>)
    requires Inv(s, all, seen, token) && Settled(s, seen, token)
    requires QuietBehindClose(Messages(all + BytesOf(op), WORD32))
    ensures Inv(Step(s, op, token), all + BytesOf(op), now, token) && Settled(Step(s, op, token), now, token)
  {
    hide Messages, Rest, Reactions, HasClose, ThroughClose, Taken, Left, Client, FrameProto.Meaning, EncodeFrame,
         QuietBehindClose;
    now := seen;
    assert all + [] == all;
    match op
    case Data(chunk) =>
      if chunk.Some? {
        now := seen + Taken(s.buf + chunk.value);
        DataInv(s, all, seen, chunk.value, token);
        DataSettled(s, all, seen, chunk.value, token);
      }
    case Metadata =>
    case Reply(data) => ReplyClient(s, data);
  }

  lemma {:induction false} SettledRun(s: State, all: bytes, seen: seq<Message>, ops: seq<Op>, token: nat)
    returns (now: seq<Message>)
    requires Inv(s, all, seen, token) && Settled(s, seen, token)
    requires QuietBehindClose(Messages(all + Received(ops), WORD32))
    ensures Inv(Run(s, ops, token), all + Received(ops), now, token) && Settled(Run(s, ops, token), now, token)
    decreases |ops|
  {
    hide Inv, Settled, Step, Messages, QuietBehindClose;
    now := seen;
    if ops == [] {
      assert all + [] == all;
    } else {
      var before := all + BytesOf(ops[0]);
      assert all + Received(ops) == before + Received(ops[1..]);
      Split(before, Received(ops[1..]), WORD32);
      QuietPrefix(Messages(before, WORD32), Messages(Rest(before, WORD32) + Received(ops[1..]), WORD32));
      var next := SettledOne(s, all, seen, ops[0], token);
      now := SettledRun(Step(s, ops[0], token), before, next, ops[1..], token);
    }
  }

  /** Metadata and a call without new bytes, `n` times. */
  function Reopens(n: nat): (ops: seq<Op>)
    ensures Received(ops) == []
  {
    if n == 0 then [] else [Metadata, Data(Some([]))] + Reopens(n - 1)
  }

  lemma ReopenOnce(s: State, n: nat, token: nat)
    ensures Run(s, Reopens(n + 1), token)
         == Run(DownstreamData(s.(stream := Some(token)), Some([])), Reopens(n), token)
  {
    hide DownstreamData;
    var ops := Reopens(n + 1);
    assert ops[1..] == [Data(Some([]))] + Reopens(n) && ops[1..][1..] == Reopens(n);
    assert Run(s, ops, token) == Run(Step(s, Metadata, token), ops[1..], token);
  }

  lemma NoReopens(s: State, token: nat)
    ensures Run(s, Reopens(0), token) == s
  {
  }

  /** A message that is not silent is eventually reacted to when the stream is reopened. */
  lemma {:induction false} ReopenedReacts(s: State, token: nat) returns (n: nat)
    requires s.phase == Active && exists m <- Messages(s.buf, WORD32) :: !Silent(m)
    ensures |Client(Run(s, Reopens(n), token).trace)| > |Client(s.trace)|
    decreases |s.buf|
  {
    hide ParseWsFrame, React, Reactions, HasClose, ThroughClose, Taken, Left, Messages, Client, Silent, Run;
    var next := DownstreamData(s.(stream := Some(token)), Some([]));
    assert s.buf + [] == s.buf;
    ClientReacts(s.trace, Some(token), Taken(s.buf));
    TakenThroughClose(s.buf);
    LoudReactions(token, Messages(s.buf, WORD32));
    TakenLeft(s.buf);
    if exists m <- Taken(s.buf) :: !Silent(m) {
      n := 1;
      ReopenOnce(s, 0, token);
      NoReopens(next, token);
    } else {
      LeftShorter(s.buf);
      var k := ReopenedReacts(next, token);
      n := k + 1;
      ReopenOnce(s, k, token);
    }
  }

  /** The run that gives a loud message behind the close frame its reaction. */
  lemma LoudRun(s: State, all: bytes, token: nat) returns (ops: seq<Op>)
    requires Fresh(s, token) && !QuietBehindClose(Messages(all, WORD32))
    ensures Received(ops) == all
    ensures |Client(Run(s, ops, token).trace)| > |Reactions(Some(token), ThroughClose(Messages(all, WORD32)))|
  {
    hide Messages, Rest, Reactions, ThroughClose, Taken, Left, Client, Silent, HasClose;
    var ms := Messages(all, WORD32);
    var next := DownstreamData(s, Some(all));
    assert s.buf + all == all;
    ClientReacts(s.trace, s.stream, Taken(all));
    TakenThroughClose(all);
    TakenLeft(all);
    assert ms[|ThroughClose(ms)|..] == Messages(Left(all), WORD32);
    var n := ReopenedReacts(next, token);
    ops := [Data(Some(all))] + Reopens(n);
    assert ops[1..] == Reopens(n) && all + [] == all;
    assert [] + Reactions(Some(token), Taken(all)) == Reactions(Some(token), Taken(all));
  }

  lemma NoReactions(token: nat)
    ensures Reactions(Some(token), ThroughClose([])) == []
  {
  }

  lemma QuietTrace(s: State, ops: seq<Op>, token: nat)
    requires Fresh(s, token) && QuietBehindClose(Messages(Received(ops), WORD32))
    ensures Client(Run(s, ops, token).trace)
         == Reactions(Some(token), ThroughClose(Messages(Received(ops), WORD32)))
  {
    hide Messages, Rest, Reactions, HasClose, Run, Received, Client, QuietBehindClose;
    var all, end := Received(ops), Run(s, ops, token);
    StartInv(s, token);
    NoReactions(token);
    assert [] + all == all;
    hide ThroughClose;
    var seen := SettledRun(s, [], [], ops, token);
    ThroughCloseAppend(seen, Messages(end.buf, WORD32));
    if !HasClose(seen) {
      assert seen + [] == seen;
      NoCloseWhole(seen);
    }
  }

  /**
   * Over all runs, initial metadata and server messages included, the full trace is that of the
   * messages through the first close frame exactly when only silent messages follow it: neither
   * data nor a close frame, which are sent on once late metadata reopens the stream, nor a ping.
   */
  lemma EveryTraceIff(s: State, all: bytes, token: nat)
    requires Fresh(s, token)
    ensures var ms := Messages(all, WORD32);
      (forall ops | Received(ops) == all ::
         Client(Run(s, ops, token).trace) == Reactions(Some(token), ThroughClose(ms)))
      <==> forall m <- ms[|ThroughClose(ms)|..] :: !IsData(m) && m.opcode != CLOSE && m.opcode != PING
  {
    hide Messages, Rest, Reactions, ThroughClose, HasClose, Run, Received, Client, IsData;
    var ms := Messages(all, WORD32);
    if QuietBehindClose(ms) {
      forall ops | Received(ops) == all
        ensures Client(Run(s, ops, token).trace) == Reactions(Some(token), ThroughClose(ms))
      {
        QuietTrace(s, ops, token);
      }
    } else {
      var ops := LoudRun(s, all, token);
    }
  }

  lemma RunThree(s: State, a: Op, b: Op, c: Op, token: nat)
    ensures Run(s, [a, b, c], token) == Step(Step(Step(s, a, token), b, token), c, token)
  {
    hide Step;
    assert [a, b, c][1..] == [b, c] && [b, c][1..] == [c] && [c][1..] == [];
    assert Run(s, [a, b, c], token) == Run(Step(s, a, token), [b, c], token);
    assert Run(Step(s, a, token), [b, c], token) == Run(Step(Step(s, a, token), b, token), [c], token);
  }

  /** A call that brings exactly one frame. */
  lemma OneFrame(s: State, frame: bytes, m: Message)
    requires s.phase == Active && s.buf == []
    requires ParseWsFrame(frame, WORD32) == Some(Parsed(m.opcode, m.payload, |frame|))
    ensures DownstreamData(s, Some(frame)) == s.(stream := After(s.stream, m), trace := s.trace + React(s.stream, m))
  {
    hide ParseWsFrame, React;
    assert s.buf + frame == frame && frame[|frame|..] == [];
    EmptyStream(WORD32);
    assert Taken(frame) == [m] && Left(frame) == [];
    OneMore(s.stream, [], m);
    assert [] + [m] == [m] && [] + React(s.stream, m) == React(s.stream, m);
    assert HasClose([m]) <==> [m][0].opcode == CLOSE;
  }

  /**
   * An input on which it fails. Initial metadata arriving behind the close frame restores the
   * stream id: a data frame in a later call is sent after the half-close, though the same bytes
   * are dropped when the metadata comes first.
   */
  lemma LateMetadataReopens(token: nat)
    ensures var s := State(Active, [], Some(token), [], []);
      var close: bytes, text: bytes := [0x88, 0x00], [0x81, 0x01, 0x41];
      && Fresh(s, token)
      && Run(s, [Data(Some(close)), Metadata, Data(Some(text))], token).trace
        == [HalfClose(token), GrpcSend(token, FrameProto.EncodeFrame(FrameProto.Frame([0x41], false)))]
      && Run(s, [Metadata, Data(Some(close)), Data(Some(text))], token).trace == [HalfClose(token)]
  {
    var s := State(Active, [], Some(token), [], []);
    var close: bytes, text: bytes := [0x88, 0x00], [0x81, 0x01, 0x41];
    assert ParseWsFrame(close, WORD32) == Some(Parsed(8, [], 2)) by { assert close[2..2] == []; }
    assert ParseWsFrame(text, WORD32) == Some(Parsed(1, [0x41], 3)) by { assert text[2..3] == [0x41]; }
    hide ParseWsFrame;
    var mc, mt := Message(CLOSE, []), Message(TEXT, [0x41]);
    OneFrame(s, close, mc);
    var closed := s.(stream := None, trace := [HalfClose(token)]);
    assert DownstreamData(s, Some(close)) == closed;
    OneFrame(closed, text, mt);
    OneFrame(closed.(stream := Some(token)), text, mt);
    assert DownstreamData(closed, Some(text)) == closed;
    RunThree(s, Data(Some(close)), Metadata, Data(Some(text)), token);
    RunThree(s, Metadata, Data(Some(close)), Data(Some(text)), token);
  }

  lemma RunTwo(s: State, a: Op, b: Op, token: nat)
    ensures Run(s, [a, b], token) == Step(Step(s, a, token), b, token)
  {
    hide Step;
    assert [a, b][1..] == [b] && [b][1..] == [];
    assert Run(Step(s, a, token), [b], token) == Run(Step(Step(s, a, token), b, token), [], token);
  }

  lemma OneReaction(token: nat, mc: Message)
    requires mc.opcode == CLOSE
    ensures Reactions(Some(token), [mc]) == [HalfClose(token)]
  {
    assert [mc][1..] == [];
  }

  lemma RunOne(s: State, op: Op, token: nat)
    ensures Run(s, [op], token) == Step(s, op, token)
  {
    hide Step;
    assert [op][1..] == [];
  }

  lemma CloseThenPing(close: bytes, ping: bytes, mc: Message, mp: Message)
    requires mc.opcode == CLOSE && mp.opcode == PING
    requires ParseWsFrame(close, WORD32) == Some(Parsed(mc.opcode, mc.payload, |close|))
    requires ParseWsFrame(ping, WORD32) == Some(Parsed(mp.opcode, mp.payload, |ping|))
    ensures Taken(close + ping) == [mc] && PingBehindClose(Messages(close + ping, WORD32))
  {
    hide ParseWsFrame;
    ParseExtend(close, ping, WORD32);
    assert (close + ping)[|close|..] == ping && ping[|ping|..] == [];
    EmptyStream(WORD32);
    assert Messages([], WORD32) == [];
    assert Messages(ping, WORD32) == [mp];
    var ms := Messages(close + ping, WORD32);
    assert ms == [mc, mp];
    assert ThroughClose(ms) == [mc] && ms[1].opcode == PING;
  }

  lemma TogetherOrApart(s: State, close: bytes, ping: bytes, mc: Message, mp: Message, token: nat)
    requires s == State(Active, [], Some(token), [], []) && mc.opcode == CLOSE && mp.opcode == PING
    requires ParseWsFrame(close, WORD32) == Some(Parsed(mc.opcode, mc.payload, |close|))
    requires ParseWsFrame(ping, WORD32) == Some(Parsed(mp.opcode, mp.payload, |ping|))
    ensures Run(s, [Data(Some(close + ping))], token).trace == [HalfClose(token)]
    ensures Run(s, [Data(Some(close)), Data(Some(ping))], token).trace
         == [HalfClose(token), Pong(EncodeFrame(PONG, mp.payload))]
  {
    hide ParseWsFrame, EncodeFrame, Messages, Taken, Left, Run, Reactions, HasClose;
    OneFrame(s, close, mc);
    OneFrame(s.(stream := None, trace := [HalfClose(token)]), ping, mp);
    assert [] + [HalfClose(token)] == [HalfClose(token)];
    RunTwo(s, Data(Some(close)), Data(Some(ping)), token);
    CloseThenPing(close, ping, mc, mp);
    RunOne(s, Data(Some(close + ping)), token);
    assert s.buf + (close + ping) == close + ping;
    OneReaction(token, mc);
  }

  /**
   * An input on which the full trace depends on the cutting: the ping behind the close frame is
   * answered only if it comes in a call of its own.
   */
  lemma LatePong(token: nat)
    ensures var s := State(Active, [], Some(token), [], []);
      var close: bytes, ping: bytes := [0x88, 0x00], [0x89, 0x00];
      && Fresh(s, token) && PingBehindClose(Messages(close + ping, WORD32))
      && Run(s, [Data(Some(close + ping))], token).trace == [HalfClose(token)]
      && Run(s, [Data(Some(close)), Data(Some(ping))], token).trace == [HalfClose(token), Pong(EncodeFrame(PONG, []))]
  {
    var s := State(Active, [], Some(token), [], []);
    var close: bytes, ping: bytes := [0x88, 0x00], [0x89, 0x00];
    assert ParseWsFrame(close, WORD32) == Some(Parsed(8, [], 2)) by { assert close[2..2] == []; }
    assert ParseWsFrame(ping, WORD32) == Some(Parsed(9, [], 2)) by { assert ping[2..2] == []; }
    hide ParseWsFrame, EncodeFrame, PingBehindClose, Messages, Run;
    CloseThenPing(close, ping, Message(CLOSE, []), Message(PING, []));
    TogetherOrApart(s, close, ping, Message(CLOSE, []), Message(PING, []), token);
  }

  // ---------------------------------------------------------------------------------------
  // Capture of the upgrade request
  // ---------------------------------------------------------------------------------------

  function RunData(s: State, chunks: seq<bytes>): State
    decreases |chunks|
  {
    if chunks == [] then s else RunData(DownstreamData(s, Some(chunks[0])), chunks[1..])
  }

  lemma {:induction false} Ignored(s: State, chunks: seq<bytes>)
    requires s.phase == AwaitingUpgradeResponse
    ensures RunData(s, chunks) == s
    decreases |chunks|
  {
    if chunks != [] { Ignored(s, chunks[1..]); }
  }

  lemma {:induction false} CaptureFrom(s: State, chunks: seq<bytes>)
    requires s.phase == AwaitingUpgradeRequest && UpgradeCapture.Captured(s.buf) == None
    ensures var all := s.buf + Concat(chunks);
      RunData(s, chunks) == match UpgradeCapture.Captured(all)
        case None => s.(buf := all)
        case Some(headers) => s.(buf := [], headers := headers, phase := AwaitingUpgradeResponse)
    decreases |chunks|
  {
    hide UpgradeCapture.Captured, Taken, Left;
    if chunks == [] {
      assert s.buf + [] == s.buf;
    } else {
      var buf := s.buf + chunks[0];
      assert s.buf + Concat(chunks) == buf + Concat(chunks[1..]);
      if UpgradeCapture.Captured(buf) == None {
        CaptureFrom(DownstreamData(s, Some(chunks[0])), chunks[1..]);
      } else {
        UpgradeCapture.CapturedExtend(buf, Concat(chunks[1..]));
        Ignored(DownstreamData(s, Some(chunks[0])), chunks[1..]);
      }
    }
  }

  lemma NothingCaptured()
    ensures UpgradeCapture.Captured([]) == None
  {
  }

  /**
   * The captured header list depends only on the bytes through the first CRLFCRLF, and since this
   * holds for every list of chunks the state changes exactly in the call that completes it.
   */
  lemma CaptureSegmentation(chunks: seq<bytes>)
    ensures var s := State(AwaitingUpgradeRequest, [], None, [], []);
      RunData(s, chunks) == match UpgradeCapture.Captured(Concat(chunks))
        case None => s.(buf := Concat(chunks))
        case Some(headers) => s.(headers := headers, phase := AwaitingUpgradeResponse)
  {
    hide UpgradeCapture.Captured;
    var s := State(AwaitingUpgradeRequest, [], None, [], []);
    NothingCaptured();
    CaptureFrom(s, chunks);
    assert [] + Concat(chunks) == Concat(chunks);
  }
}
