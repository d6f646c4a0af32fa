/**
 * The whole echo: a client's bytes through the WASM filter to the echo server and back. The
 * filter may receive them in any segments, and the server's tasks may interleave in any way.
 */
module EchoSystem {
  import opened Bytes
  import opened WsFrame
  import opened FrameStream
  import FrameProto
  import Wasm = WasmFilter
  import WasmRuns
  import Server = WsBridge

  // ---------------------------------------------------------------------------------------
  // To the server
  // ---------------------------------------------------------------------------------------

  /** The data messages of a list. */
  function DataOf(ms: seq<Message>): seq<Message> {
    if ms == [] then [] else (if Wasm.IsData(ms[0]) then [ms[0]] else []) + DataOf(ms[1..])
  }

  /** The frames that the messages on the gRPC stream carry. */
  function Served(trace: seq<Wasm.Event>): seq<FrameProto.Frame> {
    if trace == [] then []
    else
      (match trace[0]
       case GrpcSend(_, message) =>
         (match FrameProto.Meaning(message) case None => [] case Some(f) => [f])
       case _ => []) + Served(trace[1..])
  }

  function AsFrame(m: Message): FrameProto.Frame {
    FrameProto.Frame(m.payload, m.opcode == BINARY)
  }

  function AsFrames(ms: seq<Message>): seq<FrameProto.Frame> {
    if ms == [] then [] else [AsFrame(ms[0])] + AsFrames(ms[1..])
  }

  lemma ServedFirst(token: nat, m: Message, tail: seq<Wasm.Event>)
    requires |m.payload| < WORD32
    ensures Served(Wasm.React(Some(token), m) + tail) == AsFrames(DataOf([m])) + Served(tail)
  {
    hide FrameProto.EncodeFrame, FrameProto.Meaning, EncodeFrame;
    FrameProto.RoundTripFrame(AsFrame(m));
    var r := Wasm.React(Some(token), m);
    assert [m][1..] == [];
    if r == [] {
      assert r + tail == tail;
      assert [] + Served(tail) == Served(tail);
    } else {
      assert (r + tail)[1..] == tail;
      if Wasm.IsData(m) {
        assert AsFrames([m]) == [AsFrame(m)] + [];
        assert DataOf([m]) == [m] + [];
      } else {
        assert DataOf([m]) == [] + [];
      }
    }
  }

  lemma SplitFirst(m: Message, ms: seq<Message>)
    ensures AsFrames(DataOf([m] + ms)) == AsFrames(DataOf([m])) + AsFrames(DataOf(ms))
  {
    assert ([m] + ms)[1..] == ms && [m][1..] == [];
    if Wasm.IsData(m) {
      assert DataOf([m] + ms) == [m] + DataOf(ms) && DataOf([m]) == [m] + [];
      assert ([m] + DataOf(ms))[1..] == DataOf(ms);
      assert AsFrames([m]) == [AsFrame(m)] + [];
    } else {
      assert DataOf([m] + ms) == [] + DataOf(ms) == DataOf(ms) && DataOf([m]) == [] + [] == [];
      assert AsFrames(DataOf([m])) == [];
    }
  }

  lemma NothingServed(token: nat)
    ensures Served(Wasm.Reactions(Some(token), ThroughClose([]))) == AsFrames(DataOf(ThroughClose([])))
  {
  }

  /** The server is sent the data messages through the first close frame. */
  lemma {:induction false} ServedIs(token: nat, ms: seq<Message>)
    requires forall m <- ms :: |m.payload| < WORD32
    ensures Served(Wasm.Reactions(Some(token), ThroughClose(ms))) == AsFrames(DataOf(ThroughClose(ms)))
  {
    hide Wasm.React, AsFrames, DataOf;
    if ms == [] {
      NothingServed(token);
    } else {
      var m, t := ms[0], ThroughClose(ms);
      if m.opcode == CLOSE {
        assert t == [m] + [] && t[1..] == [];
        ServedFirst(token, m, []);
        assert Wasm.Reactions(None, []) == [] && Served([]) == [];
        assert AsFrames(DataOf([m])) + [] == AsFrames(DataOf([m]));
        assert [m] + [] == [m];
      } else {
        ServedIs(token, ms[1..]);
        assert t[1..] == ThroughClose(ms[1..]) && t == [m] + ThroughClose(ms[1..]);
        ServedFirst(token, m, Wasm.Reactions(Some(token), ThroughClose(ms[1..])));
        SplitFirst(m, ThroughClose(ms[1..]));
      }
    }
  }

  // ---------------------------------------------------------------------------------------
  // Through the server
  // ---------------------------------------------------------------------------------------

  function ToServer(f: FrameProto.Frame): Server.Frame {
    Server.Frame(f.payload, f.binary)
  }

  function AllToServer(fs: seq<FrameProto.Frame>): seq<Server.Frame> {
    seq(|fs|, i requires 0 <= i < |fs| => ToServer(fs[i]))
  }

  lemma SamePrefixes(a: seq<FrameProto.Frame>, b: seq<FrameProto.Frame>)
    requires AllToServer(a) <= AllToServer(b)
    ensures a <= b
  {
    forall i | 0 <= i < |a| ensures a[i] == b[i] {
      assert AllToServer(a)[i] == AllToServer(b)[i];
    }
  }

  // ---------------------------------------------------------------------------------------
  // Back to the client
  // ---------------------------------------------------------------------------------------

  /** The frames of the server messages that reach the filter. */
  function Replied(ops: seq<WasmRuns.Op>): seq<FrameProto.Frame> {
    if ops == [] then []
    else
      (if ops[0].Reply? && ops[0].data.Some? && FrameProto.Meaning(ops[0].data.value).Some?
       then [FrameProto.Meaning(ops[0].data.value).value] else []) + Replied(ops[1..])
  }

  /** The bytes relayed to the client. */
  function Relayed(trace: seq<Wasm.Event>): bytes {
    if trace == [] then []
    else Relayed(trace[..|trace| - 1]) + if trace[|trace| - 1].Relay? then trace[|trace| - 1].frame else []
  }

  function Wire(fs: seq<FrameProto.Frame>): bytes {
    if fs == [] then [] else Wasm.RelayOf(fs[0]) + Wire(fs[1..])
  }

  lemma {:induction false} RelayedAppend(t: seq<Wasm.Event>, u: seq<Wasm.Event>)
    ensures Relayed(t + u) == Relayed(t) + Relayed(u)
  {
    if u == [] {
      assert t + u == t;
    } else {
      assert (t + u)[..|t + u| - 1] == t + u[..|u| - 1];
      RelayedAppend(t, u[..|u| - 1]);
    }
  }

  lemma {:induction false} NoneRelayed(stream: Option<nat>, ms: seq<Message>)
    ensures Relayed(Wasm.Reactions(stream, ms)) == []
    decreases |ms|
  {
    hide EncodeFrame, FrameProto.EncodeFrame;
    if ms != [] {
      var r := Wasm.React(stream, ms[0]);
      NoneRelayed(Wasm.After(stream, ms[0]), ms[1..]);
      RelayedAppend(r, Wasm.Reactions(Wasm.After(stream, ms[0]), ms[1..]));
      if r != [] { assert r[..0] == [] && Relayed(r) == [] + []; }
    }
  }

  lemma OneRelayed(trace: seq<Wasm.Event>, frame: bytes)
    ensures Relayed(trace + [Wasm.Relay(frame)]) == Relayed(trace) + frame
  {
    assert (trace + [Wasm.Relay(frame)])[..|trace|] == trace;
  }

  /** A call relays exactly the frame of the server message it brings, if any. */
  lemma RelayStep(s: Wasm.State, op: WasmRuns.Op, token: nat)
    requires s.phase == Wasm.Active
    ensures var t := WasmRuns.Step(s, op, token);
      t.phase == Wasm.Active && Relayed(t.trace) == Relayed(s.trace) + Wire(Replied([op]))
  {
    hide Wasm.Left, Wasm.Taken, Wasm.Reactions, HasClose, FrameProto.Meaning, EncodeFrame, Relayed;
    assert [op][1..] == [];
    assert Relayed(s.trace) + [] == Relayed(s.trace);
    match op
    case Data(chunk) =>
      if chunk.Some? {
        var taken := Wasm.Taken(s.buf + chunk.value);
        RelayedAppend(s.trace, Wasm.Reactions(s.stream, taken));
        NoneRelayed(s.stream, taken);
      }
    case Metadata =>
    case Reply(data) =>
      if data.Some? && FrameProto.Meaning(data.value).Some? {
        var f := FrameProto.Meaning(data.value).value;
        OneRelayed(s.trace, Wasm.RelayOf(f));
        assert Replied([op]) == [f] + [];
        assert [f][1..] == [] && Wire([f]) == Wasm.RelayOf(f) + [];
      }
  }

  lemma {:induction false} WireAppend(a: seq<FrameProto.Frame>, b: seq<FrameProto.Frame>)
    ensures Wire(a + b) == Wire(a) + Wire(b)
  {
    hide Wasm.RelayOf;
    if a == [] {
      assert a + b == b;
    } else {
      assert (a + b)[1..] == a[1..] + b;
      WireAppend(a[1..], b);
      assert Wasm.RelayOf(a[0]) + (Wire(a[1..]) + Wire(b)) == Wasm.RelayOf(a[0]) + Wire(a[1..]) + Wire(b);
    }
  }

  lemma WireNone()
    ensures Wire([]) == []
  {
  }

  lemma RepliedFirst(ops: seq<WasmRuns.Op>)
    requires ops != []
    ensures Replied(ops) == Replied([ops[0]]) + Replied(ops[1..])
  {
    hide FrameProto.Meaning;
    assert [ops[0]][1..] == [];
  }

  lemma {:induction false} RelayRun(s: Wasm.State, ops: seq<WasmRuns.Op>, token: nat)
    requires s.phase == Wasm.Active
    ensures Relayed(WasmRuns.Run(s, ops, token).trace) == Relayed(s.trace) + Wire(Replied(ops))
    decreases |ops|
  {
    hide WasmRuns.Step, Wire;
    if ops == [] {
      WireNone();
      assert Relayed(s.trace) + [] == Relayed(s.trace);
    } else {
      var next := WasmRuns.Step(s, ops[0], token);
      RelayStep(s, ops[0], token);
      RelayRun(next, ops[1..], token);
      RepliedFirst(ops);
      WireAppend(Replied([ops[0]]), Replied(ops[1..]));
      var x, y, z := Relayed(s.trace), Wire(Replied([ops[0]])), Wire(Replied(ops[1..]));
      assert x + y + z == x + (y + z);
    }
  }

  function AsMessages(fs: seq<FrameProto.Frame>): seq<Message> {
    seq(|fs|, i requires 0 <= i < |fs| => Message(if fs[i].binary then BINARY else TEXT, fs[i].payload))
  }

  /** The client parses relayed frames to their messages, with nothing left over. */
  lemma {:induction false} WireParses(fs: seq<FrameProto.Frame>)
    requires forall f <- fs :: |f.payload| < WORD32
    ensures Messages(Wire(fs), WORD32) == AsMessages(fs) && Rest(Wire(fs), WORD32) == []
  {
    hide ParseWsFrame, EncodeFrame;
    if fs == [] {
      EmptyStream(WORD32);
    } else {
      var f, tail := fs[0], Wire(fs[1..]);
      var opcode: byte := if f.binary then BINARY else TEXT;
      EncodeParse(opcode, f.payload, tail, WORD32);
      var frame := EncodeFrame(opcode, f.payload);
      assert (frame + tail)[|frame|..] == tail;
      WireParses(fs[1..]);
      assert AsMessages(fs) == [Message(opcode, f.payload)] + AsMessages(fs[1..]);
    }
  }

  /** Data messages survive the conversion to frames and back. */
  lemma {:induction false} ThereAndBack(ms: seq<Message>)
    ensures AsMessages(AsFrames(DataOf(ms))) == DataOf(ms)
  {
    if ms != [] {
      ThereAndBack(ms[1..]);
      var tail := DataOf(ms[1..]);
      if Wasm.IsData(ms[0]) {
        assert DataOf(ms)[1..] == tail;
        assert AsFrames(DataOf(ms)) == [AsFrame(ms[0])] + AsFrames(tail);
        assert AsMessages(AsFrames(DataOf(ms))) == [ms[0]] + AsMessages(AsFrames(tail));
      } else {
        assert DataOf(ms) == [] + tail == tail;
      }
    }
  }

  lemma {:induction false} DataSmall(ms: seq<Message>)
    requires forall m <- ms :: |m.payload| < WORD32
    ensures forall f <- AsFrames(DataOf(ms)) :: |f.payload| < WORD32
  {
    if ms != [] {
      DataSmall(ms[1..]);
      var tail := DataOf(ms[1..]);
      if Wasm.IsData(ms[0]) {
        assert DataOf(ms)[1..] == tail;
      } else {
        assert DataOf(ms) == [] + tail == tail;
      }
    }
  }

  // ---------------------------------------------------------------------------------------
  // The whole way
  // ---------------------------------------------------------------------------------------

  /** The data messages of a stream, through its first close frame. */
  function Asked(data: bytes): seq<Message> {
    DataOf(ThroughClose(Messages(data, WORD32)))
  }

  /** What the filter has sent to the server so far. */
  function ToEcho(w: Wasm.State, ops: seq<WasmRuns.Op>, token: nat): seq<FrameProto.Frame> {
    Served(WasmRuns.UpToHalfClose(WasmRuns.Client(WasmRuns.Run(w, ops, token).trace)))
  }

  lemma ToEchoIs(w: Wasm.State, ops: seq<WasmRuns.Op>, token: nat)
    requires WasmRuns.Fresh(w, token)
    ensures ToEcho(w, ops, token) == AsFrames(Asked(WasmRuns.Received(ops)))
    ensures forall f <- ToEcho(w, ops, token) :: |f.payload| < WORD32
  {
    hide Messages, Wasm.Reactions, Served, AsFrames, DataOf, ThroughClose, WasmRuns.Run, WasmRuns.UpToHalfClose, Keep;
    var ms := Messages(WasmRuns.Received(ops), WORD32);
    WasmRuns.SegmentationIndependence(w, ops, token);
    SmallPayloads(WasmRuns.Received(ops), WORD32);
    ServedIs(token, ms);
    MembersThrough(ms);
    DataSmall(ThroughClose(ms));
  }

  lemma AskedBack(data: bytes, served: seq<FrameProto.Frame>)
    requires served == AsFrames(Asked(data))
    ensures AsMessages(served) == Asked(data)
  {
    hide AsMessages, AsFrames, DataOf;
    ThereAndBack(ThroughClose(Messages(data, WORD32)));
  }

  lemma PrefixMessages(a: seq<FrameProto.Frame>, b: seq<FrameProto.Frame>)
    requires a <= b
    ensures AsMessages(a) <= AsMessages(b)
  {
  }

  /**
   * Over every segmentation of the client's bytes, with metadata and replies at any point, and
   * every interleaving of the echo server's tasks: if the replies that reached the filter are a
   * prefix of what the server yielded, then what is relayed to the client parses to a prefix of
   * its data messages, with nothing left over, and to all of them once the server has stopped
   * and its replies have arrived.
   */
  lemma EchoReturns(w: Wasm.State, ops: seq<WasmRuns.Op>, token: nat, steps: seq<Server.Step>, utf8: Server.Utf8)
    requires WasmRuns.Fresh(w, token) && Relayed(w.trace) == []
    requires var start := Server.Init(AllToServer(ToEcho(w, ops, token)));
      && Server.Possible(start, steps, utf8)
      && AllToServer(Replied(ops)) <= Server.Run(start, steps, utf8).yielded
    ensures var server := Server.Run(Server.Init(AllToServer(ToEcho(w, ops, token))), steps, utf8);
      var relayed := Relayed(WasmRuns.Run(w, ops, token).trace);
      var asked := Asked(WasmRuns.Received(ops));
      && Messages(relayed, WORD32) <= asked && Rest(relayed, WORD32) == []
      && (server.consumer == Server.Finished && AllToServer(Replied(ops)) == server.yielded ==>
            Messages(relayed, WORD32) == asked)
  {
    hide Messages, Rest, WasmRuns.Run, WasmRuns.Received, Server.Run, Server.Possible, Server.InFlight, Relayed, Wire,
         AsMessages, Asked, ToEcho, Replied, AllToServer, Keep;
    var served, replied := ToEcho(w, ops, token), Replied(ops);
    Server.EchoSafety(AllToServer(served), steps, utf8);
    SamePrefixes(replied, served);
    ToEchoIs(w, ops, token);
    RelayRun(w, ops, token);
    assert [] + Wire(replied) == Wire(replied);
    assert forall f <- replied :: f in served by { assert forall i :: 0 <= i < |replied| ==> replied[i] == served[i]; }
    WireParses(replied);
    AskedBack(WasmRuns.Received(ops), served);
    PrefixMessages(replied, served);
    if AllToServer(replied) == AllToServer(served) {
      SamePrefixes(served, replied);
      assert replied == served;
    }
  }

  lemma {:induction false} AllData(fs: seq<Frame>)
    requires forall f <- fs :: DataFrame(f)
    ensures ThroughClose(Carried(fs)) == Carried(fs) && DataOf(Carried(fs)) == Carried(fs)
  {
    if fs != [] {
      AllData(fs[1..]);
      assert DataFrame(fs[0]) && Carried(fs)[1..] == Carried(fs[1..]);
    }
  }

  /** From a stream of printed data frames, those frames' messages are asked for. */
  lemma AskedOfFrames(fs: seq<Frame>)
    requires forall f <- fs :: Fits(f, WORD32) && DataFrame(f)
    ensures Asked(PrintAll(fs, WORD32)) == Carried(fs)
  {
    hide Messages, Rest, PrintAll, Carried, DataOf, ThroughClose;
    PrintedFrames(fs, [], WORD32);
    EmptyStream(WORD32);
    assert PrintAll(fs, WORD32) + [] == PrintAll(fs, WORD32) && Carried(fs) + [] == Carried(fs);
    AllData(fs);
  }
}
