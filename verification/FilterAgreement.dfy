/**
 * The two filters against each other, and a whole round trip: what the client's frames become on
 * the gRPC stream and what an echo of it becomes on the WebSocket again.
 */
module FilterAgreement {
  import opened Bytes
  import opened WsFrame
  import opened FrameStream
  import FrameProto
  import Wasm = WasmFilter
  import WasmRuns
  import Native = NativeFilter
  import NativeRuns

  // ---------------------------------------------------------------------------------------
  // Same bytes, same behaviour
  // ---------------------------------------------------------------------------------------

  /**
   * Up to the first close frame, some frame declares more bytes than a 32-bit word holds, and the
   * bytes of its length modulo 2^32 are there.
   */
  predicate Truncates(buf: bytes)
    decreases |buf|
  {
    if DeclaresHuge(buf) then CutShort(buf)
    else
      match ParseWsFrame(buf, WORD64)
      case None => false
      case Some(p) => p.opcode != CLOSE && Truncates(buf[p.consumed..])
  }

  lemma SameTail(m: Message, a: seq<Message>, b: seq<Message>)
    ensures ThroughClose([m] + a) == ThroughClose([m] + b)
       <==> m.opcode == CLOSE || ThroughClose(a) == ThroughClose(b)
  {
    assert ([m] + a)[1..] == a && ([m] + b)[1..] == b;
    if m.opcode != CLOSE {
      assert ([m] + ThroughClose(a))[1..] == ThroughClose(a) && ([m] + ThroughClose(b))[1..] == ThroughClose(b);
    }
  }

  lemma FirstThrough(ms: seq<Message>)
    ensures ms == [] <==> ThroughClose(ms) == []
    ensures ms != [] ==> ThroughClose(ms)[0] == ms[0]
  {
  }

  /** A truncated frame gives the 32-bit parser a first message that the other one does not see. */
  lemma HugeMessages(buf: bytes)
    requires DeclaresHuge(buf)
    ensures ThroughClose(Messages(buf, WORD32)) == ThroughClose(Messages(buf, WORD64))
       <==> !CutShort(buf)
  {
    hide ParseWsFrame;
    HugeParse(buf);
    SmallPayload(buf, WORD32);
    var a, b := Messages(buf, WORD32), Messages(buf, WORD64);
    FirstThrough(a);
    FirstThrough(b);
    if ParseWsFrame(buf, WORD32).Some? && ParseWsFrame(buf, WORD64).Some? {
      assert |a[0].payload| != |b[0].payload|;
    }
  }

  /** Both parsers see the same messages through the first close frame, unless one is truncated. */
  lemma {:induction false} SameMessagesIff(buf: bytes)
    ensures ThroughClose(Messages(buf, WORD32)) == ThroughClose(Messages(buf, WORD64)) <==> !Truncates(buf)
    decreases |buf|
  {
    hide ParseWsFrame, DeclaresHuge;
    if DeclaresHuge(buf) {
      HugeMessages(buf);
    } else {
      ParsersAgree(buf);
      match ParseWsFrame(buf, WORD64)
      case None =>
      case Some(p) =>
        var m, rest := Message(p.opcode, p.payload), buf[p.consumed..];
        SameMessagesIff(rest);
        SameTail(m, Messages(rest, WORD32), Messages(rest, WORD64));
    }
  }

  /**
   * Up to the first close frame, some frame declares more bytes than a 32-bit word holds, and
   * what the 32-bit parser reads from there on contains data, a ping or a close frame.
   */
  predicate Diverges(buf: bytes)
    decreases |buf|
  {
    if DeclaresHuge(buf) then exists m <- Messages(buf, WORD32) :: !WasmRuns.Silent(m)
    else
      match ParseWsFrame(buf, WORD64)
      case None => false
      case Some(p) => p.opcode != CLOSE && Diverges(buf[p.consumed..])
  }

  /** An input on which the filters differ: an empty text frame that declares 2^32 bytes. */
  function HugeText(): Frame {
    Frame(0x81, Long(WORD32), None, [])
  }

  lemma HugeDeclared()
    ensures Fits(HugeText(), WORD32) && |Print(HugeText(), WORD32)| == 10
    ensures DeclaresHuge(Print(HugeText(), WORD32))
  {
    var buf := Print(HugeText(), WORD32);
    hide Pow256, ToBigEndian, BigEndian;
    Pow256Values();
    BigEndianOfBytes(WORD32, 8);
    assert buf[2..10] == ToBigEndian(WORD32, 8);
  }

  /** Ten bytes do not hold a frame of 2^32 bytes. */
  lemma NotEnough(buf: bytes)
    requires DeclaresHuge(buf) && |buf| == 10
    ensures Messages(buf, WORD64) == []
  {
    hide ParseWsFrame, DeclaresHuge, CutShort;
    HugeParse(buf);
    SmallPayload(buf, WORD64);
  }

  /** The 32-bit parser sees an empty text, the 64-bit parser waits for more. */
  lemma HugeTextDiverges()
    ensures Fits(HugeText(), WORD32)
    ensures var buf := Print(HugeText(), WORD32);
      && Diverges(buf)
      && Messages(buf, WORD32) == [Message(TEXT, [])] && Messages(buf, WORD64) == []
  {
    var buf := Print(HugeText(), WORD32);
    HugeDeclared();
    hide Print, Fits, DeclaresHuge, CutShort, ParseWsFrame;
    ParsePrinted(HugeText(), [], WORD32);
    assert buf + [] == buf && buf[|buf|..] == [];
    EmptyStream(WORD32);
    assert Messages(buf, WORD32) == [Message(TEXT, [])];
    assert Messages(buf, WORD32)[0] in Messages(buf, WORD32);
    NotEnough(buf);
  }

  lemma {:induction false} QuietIff(ms: seq<Message>)
    ensures Native.Reactions(ms) == [] <==> forall m <- ms :: WasmRuns.Silent(m)
  {
    hide EncodeFrame;
    if ms != [] {
      var r := Native.React(ms[0]);
      assert r == [] <==> WasmRuns.Silent(ms[0]);
      assert r + Native.Reactions(ms[1..]) == [] <==> r == [] && Native.Reactions(ms[1..]) == [];
      QuietIff(ms[1..]);
      assert forall m :: m in ms <==> m == ms[0] || m in ms[1..] by { assert ms == [ms[0]] + ms[1..]; }
    }
  }

  lemma FirstSmall(ms: seq<Message>)
    requires forall m <- ThroughClose(ms) :: |m.payload| < WORD32
    ensures ms != [] ==> |ms[0].payload| < WORD32
  {
    FirstThrough(ms);
    if ms != [] { assert ThroughClose(ms)[0] in ThroughClose(ms); }
  }

  lemma NotSeen(buf: bytes)
    requires DeclaresHuge(buf) && NativeRuns.SmallMessages(buf)
    ensures Native.Reactions(Messages(buf, WORD64)) == []
  {
    hide ParseWsFrame, DeclaresHuge, CutShort;
    HugeParse(buf);
    FirstSmall(Messages(buf, WORD64));
  }

  lemma FirstReaction(m: Message, ms: seq<Message>)
    ensures Native.Reactions([m] + ms) == Native.React(m) + if m.opcode == CLOSE then [] else Native.Reactions(ms)
  {
    hide Native.React;
    assert ([m] + ms)[1..] == ms;
  }

  lemma OneReaction(m: Message)
    ensures |Native.React(m)| <= 1
  {
  }

  lemma SmallTail(m: Message, ms: seq<Message>)
    requires m.opcode != CLOSE && forall x <- ThroughClose([m] + ms) :: |x.payload| < WORD32
    ensures forall x <- ThroughClose(ms) :: |x.payload| < WORD32
  {
    assert ([m] + ms)[1..] == ms;
    assert ThroughClose([m] + ms) == [m] + ThroughClose(ms);
  }

  /** When no message is huge, the filters react differently exactly to streams that diverge. */
  lemma {:induction false} ReactionsIff(buf: bytes)
    requires NativeRuns.SmallMessages(buf)
    ensures Native.Reactions(Messages(buf, WORD32)) == Native.Reactions(Messages(buf, WORD64)) <==> !Diverges(buf)
    decreases |buf|
  {
    hide ParseWsFrame, DeclaresHuge, CutShort, Native.React, WasmRuns.Silent;
    if DeclaresHuge(buf) {
      HugeParse(buf);
      QuietIff(Messages(buf, WORD32));
      NotSeen(buf);
    } else {
      ParsersAgree(buf);
      match ParseWsFrame(buf, WORD64)
      case None =>
      case Some(p) =>
        var m, rest := Message(p.opcode, p.payload), buf[p.consumed..];
        FirstReaction(m, Messages(rest, WORD32));
        FirstReaction(m, Messages(rest, WORD64));
        if p.opcode != CLOSE {
          SmallTail(m, Messages(rest, WORD64));
          ReactionsIff(rest);
          assert |Native.React(m)| <= 1 by { OneReaction(m); }
          var narrow, wide := Messages(rest, WORD32), Messages(rest, WORD64);
          SamePrefix(Native.React(m), Native.Reactions(narrow), Native.Reactions(wide));
        }
    }
  }

  /** A WASM filter event as the native filter would record it: messages are decoded. */
  function Translate(e: Wasm.Event): seq<Native.Event> {
    match e
    case GrpcSend(_, message) =>
      (match FrameProto.Meaning(message)
       case None => []
       case Some(f) => [Native.Send(f.payload, f.binary)])
    case HalfClose(_) => [Native.HalfClose]
    case Pong(frame) => [Native.Pong(frame)]
    case _ => []
  }

  function TranslateAll(trace: seq<Wasm.Event>): seq<Native.Event> {
    if trace == [] then [] else Translate(trace[0]) + TranslateAll(trace[1..])
  }

  lemma {:induction false} TranslateAppend(t: seq<Wasm.Event>, u: seq<Wasm.Event>)
    ensures TranslateAll(t + u) == TranslateAll(t) + TranslateAll(u)
  {
    hide Translate;
    if t == [] {
      assert t + u == u;
    } else {
      assert (t + u)[1..] == t[1..] + u;
      TranslateAppend(t[1..], u);
    }
  }

  lemma ReactSame(token: nat, m: Message)
    requires |m.payload| < WORD32
    ensures TranslateAll(Wasm.React(Some(token), m)) == Native.React(m)
  {
    hide FrameProto.EncodeFrame, FrameProto.Meaning, EncodeFrame;
    FrameProto.RoundTripFrame(FrameProto.Frame(m.payload, m.opcode == BINARY));
    var r := Wasm.React(Some(token), m);
    if r != [] {
      assert r[1..] == [];
      assert TranslateAll(r) == Translate(r[0]) + [];
    }
  }

  lemma {:induction false} ReactionsSame(token: nat, ms: seq<Message>)
    requires forall m <- ms :: |m.payload| < WORD32
    ensures TranslateAll(Wasm.Reactions(Some(token), ThroughClose(ms))) == Native.Reactions(ms)
  {
    hide Wasm.React, Native.React;
    if ms != [] {
      ReactSame(token, ms[0]);
      var t := ThroughClose(ms);
      if ms[0].opcode == CLOSE {
        assert t == [ms[0]] && t[1..] == [];
        assert Wasm.Reactions(None, []) == [];
        assert Wasm.React(Some(token), ms[0]) + [] == Wasm.React(Some(token), ms[0]);
      } else {
        assert t[1..] == ThroughClose(ms[1..]);
        ReactionsSame(token, ms[1..]);
        TranslateAppend(Wasm.React(Some(token), ms[0]), Wasm.Reactions(Some(token), t[1..]));
      }
    }
  }

  /** The half-close by which the native filter answers the end of the request. */
  function EndOf(inp: NativeRuns.Input): seq<Native.Event> {
    if inp.ended && !HasClose(Messages(inp.data, WORD64)) then [Native.HalfClose] else []
  }

  /**
   * When the two filters agree. On the same client bytes, cut in two unrelated ways and with
   * metadata and server messages arriving whenever they like, the native filter sends what the
   * WASM filter sends through its first half-close, messages decoded and pongs byte for byte, and
   * the half-close of an end of the request besides, if and only if the stream does not diverge.
   */
  lemma FiltersAgree(w: Wasm.State, wops: seq<WasmRuns.Op>, token: nat, n: Native.State, nops: seq<NativeRuns.Op>)
    requires WasmRuns.Fresh(w, token) && NativeRuns.Waiting(n)
    requires NativeRuns.CallsFit(n, nops) && forall op <- nops :: NativeRuns.Live(op)
    requires var inp := NativeRuns.FeedAll(NativeRuns.NOTHING, nops);
             inp.ready && inp.data == WasmRuns.Received(wops)
    ensures var inp := NativeRuns.FeedAll(NativeRuns.NOTHING, nops);
      var sent := TranslateAll(WasmRuns.UpToHalfClose(WasmRuns.Client(WasmRuns.Run(w, wops, token).trace)));
      NativeRuns.Client(NativeRuns.Run(n, nops).trace) == sent + EndOf(inp) <==> !Diverges(inp.data)
  {
    hide WasmRuns.Run, NativeRuns.Run, NativeRuns.FeedAll, NativeRuns.CallsFit, NativeRuns.SmallMessages, Messages,
         Diverges,
         Wasm.Reactions, Native.Reactions, TranslateAll, ThroughClose, WasmRuns.UpToHalfClose;
    var all := WasmRuns.Received(wops);
    var inp := NativeRuns.FeedAll(NativeRuns.NOTHING, nops);
    WasmRuns.SegmentationIndependence(w, wops, token);
    NativeRuns.SegmentationIndependence(n, nops);
    NativeRuns.WaitingSmall(n, nops);
    SmallPayloads(all, WORD32);
    ReactionsSame(token, Messages(all, WORD32));
    ReactionsIff(all);
    SameSuffix(Native.Reactions(Messages(all, WORD32)), Native.Reactions(Messages(all, WORD64)), EndOf(inp));
  }

  // ---------------------------------------------------------------------------------------
  // End to end
  // ---------------------------------------------------------------------------------------

  /** The bytes relayed downstream when the server sends `message`. */
  function Relayed(message: bytes): bytes {
    match FrameProto.Meaning(message)
    case None => []
    case Some(f) => Wasm.RelayOf(f)
  }

  function RelayedAll(sent: seq<Wasm.Event>): bytes {
    if sent == [] then []
    else (if sent[0].GrpcSend? then Relayed(sent[0].message) else []) + RelayedAll(sent[1..])
  }

  lemma {:induction false} EchoStep(f: Frame, rest: bytes, token: nat)
    requires Fits(f, WORD32) && DataFrame(f)
    ensures var r := Wasm.React(Some(token), MessageOf(f));
      && |r| == 1 && r[0].GrpcSend?
      && Messages(Relayed(r[0].message) + rest, WORD32) == [MessageOf(f)] + Messages(rest, WORD32)
      && Rest(Relayed(r[0].message) + rest, WORD32) == Rest(rest, WORD32)
  {
    hide ParseWsFrame, EncodeFrame, FrameProto.EncodeFrame, FrameProto.Meaning;
    var m := MessageOf(f);
    FrameProto.RoundTripFrame(FrameProto.Frame(m.payload, m.opcode == BINARY));
    EncodeParse(m.opcode, m.payload, rest, WORD32);
    var frame := EncodeFrame(m.opcode, m.payload);
    assert (frame + rest)[|frame|..] == rest;
  }

  lemma {:induction false} EchoAll(fs: seq<Frame>, token: nat)
    requires forall f <- fs :: Fits(f, WORD32) && DataFrame(f)
    ensures var sent := Wasm.Reactions(Some(token), Carried(fs));
      Messages(RelayedAll(sent), WORD32) == Carried(fs) && Rest(RelayedAll(sent), WORD32) == []
  {
    hide ParseWsFrame, Wasm.React, Relayed, Messages, Rest;
    if fs == [] {
      EmptyStream(WORD32);
    } else {
      var r := Wasm.React(Some(token), MessageOf(fs[0]));
      var tail := Wasm.Reactions(Some(token), Carried(fs[1..]));
      EchoStep(fs[0], RelayedAll(tail), token);
      EchoAll(fs[1..], token);
      assert Carried(fs)[1..] == Carried(fs[1..]);
      assert (r + tail)[1..] == tail;
    }
  }

  /**
   * Meaning is preserved end to end: parsing the client's data frames, encoding and decoding
   * each as a protobuf message, writing it as a server frame and parsing the concatenated bytes
   * gives back the same opcodes and payloads with nothing left over.
   */
  lemma {:induction false} EndToEnd(fs: seq<Frame>, token: nat)
    requires forall f <- fs :: Fits(f, WORD32) && DataFrame(f)
    ensures var sent := Wasm.Reactions(Some(token), Messages(PrintAll(fs, WORD32), WORD32));
      Messages(RelayedAll(sent), WORD32) == Carried(fs) && Rest(RelayedAll(sent), WORD32) == []
  {
    PrintedFrames(fs, [], WORD32);
    assert PrintAll(fs, WORD32) + [] == PrintAll(fs, WORD32);
    EmptyStream(WORD32);
    assert Carried(fs) + [] == Carried(fs);
    EchoAll(fs, token);
  }
}
