/**
 * Whole runs of the native filter: the trace does not depend on how the client's bytes are cut
 * nor on when the gRPC stream becomes ready, and its calls obey a life-cycle discipline under
 * every sequence of callbacks.
 */
module NativeRuns {
  import opened Bytes
  import opened WsFrame
  import opened FrameStream
  import opened NativeFilter

  datatype Op =
    | Headers(upgrade: bool, started: bool)
    | Data(chunk: bytes, endStream: bool)
    | Metadata
    | Reply(payload: Payload, binary: bool)
    | RemoteClosed
    | Destroyed

  function Step(s: State, op: Op): State {
    match op
    case Headers(upgrade, started) => DecodeHeaders(s, upgrade, started)
    case Data(chunk, endStream) => DecodeData(s, chunk, endStream)
    case Metadata => InitialMetadata(s)
    case Reply(payload, binary) => ReceiveMessage(s, payload, binary)
    case RemoteClosed => RemoteClose(s)
    case Destroyed => Destroy(s)
  }

  function Run(s: State, ops: seq<Op>): State
    decreases |ops|
  {
    if ops == [] then s else Run(Step(s, ops[0]), ops[1..])
  }

  lemma {:induction false} RunAppend(s: State, a: seq<Op>, b: seq<Op>)
    ensures Run(s, a + b) == Run(Run(s, a), b)
    decreases |a|
  {
    hide Step;
    if a == [] {
      assert a + b == b;
    } else {
      assert (a + b)[1..] == a[1..] + b;
      RunAppend(Step(s, a[0]), a[1..], b);
    }
  }

  // ---------------------------------------------------------------------------------------
  // Segmentation and metadata arrival
  // ---------------------------------------------------------------------------------------

  /** What the filter has been told: bytes, whether the stream is ready, whether the request ended. */
  datatype Input = Input(data: bytes, ready: bool, ended: bool)

  const NOTHING := Input([], false, false)

  /** `end_stream` counts only while the stream is ready; later bytes do not exist behind it. */
  function Feed(inp: Input, op: Op): Input {
    match op
    case Data(chunk, endStream) =>
      if inp.ended then inp else Input(inp.data + chunk, inp.ready, inp.ready && endStream)
    case Metadata => inp.(ready := true)
    case _ => inp
  }

  function FeedAll(inp: Input, ops: seq<Op>): Input
    decreases |ops|
  {
    if ops == [] then inp else FeedAll(Feed(inp, ops[0]), ops[1..])
  }

  lemma {:induction false} FeedAppend(inp: Input, a: seq<Op>, b: seq<Op>)
    ensures FeedAll(inp, a + b) == FeedAll(FeedAll(inp, a), b)
    decreases |a|
  {
    hide Feed;
    if a == [] {
      assert a + b == b;
    } else {
      assert (a + b)[1..] == a[1..] + b;
      FeedAppend(Feed(inp, a[0]), a[1..], b);
    }
  }

  /** The callbacks of a live stream: data, initial metadata and server messages. */
  predicate Live(op: Op) {
    op.Data? || op.Metadata? || op.Reply?
  }

  /** Every call looks at no more bytes than its 32-bit length holds. */
  predicate CallsFit(s: State, ops: seq<Op>)
    decreases |ops|
  {
    ops == [] || (
      && (ops[0].Data? && s.phase == Active ==> |s.remainder| + |ops[0].chunk| <= UINT32_MAX)
      && (ops[0].Metadata? && s.phase == Connecting ==> |s.pending| <= UINT32_MAX)
      && CallsFit(Step(s, ops[0]), ops[1..]))
  }

  predicate FromClient(e: Event) {
    e.Send? || e.Pong? || e.HalfClose?
  }

  function Client(trace: seq<Event>): seq<Event> {
    Keep(FromClient, trace)
  }

  lemma {:induction false} ReactionsFromClient(ms: seq<Message>)
    ensures forall e <- Reactions(ms) :: FromClient(e)
  {
    hide EncodeFrame;
    if ms != [] { ReactionsFromClient(ms[1..]); }
  }

  /** What reactions, and a half-close behind them, add to the client-driven trace. */
  lemma ClientReacts(trace: seq<Event>, ms: seq<Message>)
    ensures Client(trace + Reactions(ms)) == Client(trace) + Reactions(ms)
    ensures Client(trace + Reactions(ms) + [HalfClose]) == Client(trace) + Reactions(ms) + [HalfClose]
  {
    hide Keep, Reactions;
    KeepAppend(FromClient, trace, Reactions(ms));
    ReactionsFromClient(ms);
    KeepAll(FromClient, Reactions(ms));
    KeepAppend(FromClient, trace + Reactions(ms), [HalfClose]);
    KeepOne(FromClient, HalfClose);
  }

  /** The trace that the input means. */
  function Meaning(inp: Input): seq<Event> {
    if !inp.ready then []
    else
      var ms := Messages(inp.data, WORD64);
      Reactions(ms) + if inp.ended && !HasClose(ms) then [HalfClose] else []
  }

  /** The state agrees with the input. */
  ghost predicate Agrees(s: State, inp: Input) {
    && s.connected
    && Client(s.trace) == Meaning(inp)
    && (!inp.ready ==> s.phase == Connecting && s.pending == inp.data && s.remainder == [] && !inp.ended)
    && (inp.ready ==>
          if inp.ended || HasClose(Messages(inp.data, WORD64)) then s.phase == Closing
          else s.phase == Active && s.remainder == Rest(inp.data, WORD64))
  }

  lemma ProcessAgrees(s: State, before: bytes, data: bytes, endStream: bool)
    requires s.phase == Active && s.connected && s.remainder == Rest(before, WORD64)
    requires !HasClose(Messages(before, WORD64)) && Client(s.trace) == Reactions(Messages(before, WORD64))
    requires |s.remainder| + |data| <= UINT32_MAX
    ensures Agrees(Process(s, data, endStream), Input(before + data, true, endStream))
  {
    hide Messages, Rest, Reactions, HasClose, Client;
    var all := s.remainder + data;
    var earlier, later := Messages(before, WORD64), Messages(all, WORD64);
    Split(before, data, WORD64);
    HasCloseAppend(earlier, later);
    ReactionsAppend(earlier, later);
    ClientReacts(s.trace, later);
  }

  lemma DataAgrees(s: State, inp: Input, chunk: bytes, endStream: bool)
    requires Agrees(s, inp)
    requires s.phase == Active ==> |s.remainder| + |chunk| <= UINT32_MAX
    ensures Agrees(DecodeData(s, chunk, endStream), Feed(inp, Data(chunk, endStream)))
  {
    hide Messages, Rest, Reactions, HasClose, Process, Client;
    if inp.ready && !inp.ended {
      var ms := Messages(inp.data, WORD64);
      if HasClose(ms) {
        Split(inp.data, chunk, WORD64);
        HasCloseAppend(ms, Messages(Rest(inp.data, WORD64) + chunk, WORD64));
        ReactionsAppend(ms, Messages(Rest(inp.data, WORD64) + chunk, WORD64));
      } else {
        assert Reactions(ms) + [] == Reactions(ms);
        ProcessAgrees(s, inp.data, chunk, endStream);
      }
    }
  }

  lemma MetadataAgrees(s: State, inp: Input)
    requires Agrees(s, inp)
    requires s.phase == Connecting ==> |s.pending| <= UINT32_MAX
    ensures Agrees(InitialMetadata(s), inp.(ready := true))
  {
    hide Messages, Rest, Reactions, HasClose, Process, Client;
    if !inp.ready {
      Empty();
      if inp.data != [] {
        ProcessAgrees(s.(phase := Active), [], inp.data, false);
        assert [] + inp.data == inp.data;
      }
    }
  }

  lemma ReplyAgrees(s: State, inp: Input, payload: Payload, binary: bool)
    requires Agrees(s, inp)
    ensures Agrees(ReceiveMessage(s, payload, binary), inp)
  {
    hide Messages, Rest, Reactions, HasClose, EncodeFrame, Keep;
    var e := Relay(EncodeFrame(if binary then BINARY else TEXT, payload));
    KeepAppend(FromClient, s.trace, [e]);
    KeepOne(FromClient, e);
    assert Client(s.trace) + [] == Client(s.trace);
  }

  lemma StepAgrees(s: State, inp: Input, op: Op)
    requires Agrees(s, inp) && Live(op) && CallsFit(s, [op])
    ensures Agrees(Step(s, op), Feed(inp, op))
  {
    hide Agrees, DecodeData, InitialMetadata, ReceiveMessage;
    match op
    case Data(chunk, endStream) => DataAgrees(s, inp, chunk, endStream);
    case Metadata => MetadataAgrees(s, inp);
    case Reply(payload, binary) => ReplyAgrees(s, inp, payload, binary);
  }

  lemma OneFits(s: State, ops: seq<Op>)
    requires ops != [] && CallsFit(s, ops)
    ensures CallsFit(s, [ops[0]])
  {
    hide Step;
    assert [ops[0]][1..] == [];
  }

  lemma {:induction false} RunAgrees(s: State, inp: Input, ops: seq<Op>)
    requires Agrees(s, inp) && CallsFit(s, ops) && forall op <- ops :: Live(op)
    ensures Agrees(Run(s, ops), FeedAll(inp, ops))
    decreases |ops|
  {
    hide Agrees, Step, Feed;
    if ops != [] {
      OneFits(s, ops);
      StepAgrees(s, inp, ops[0]);
      RunAgrees(Step(s, ops[0]), Feed(inp, ops[0]), ops[1..]);
    }
  }

  /** Every message through the first close frame is shorter than 2^32 bytes. */
  ghost predicate SmallMessages(data: bytes) {
    forall m <- ThroughClose(Messages(data, WORD64)) :: |m.payload| < WORD32
  }

  lemma ShortIsSmall(data: bytes)
    requires |data| < WORD32
    ensures SmallMessages(data)
  {
    hide Messages;
    PayloadsWithin(data, WORD64);
    var ms := Messages(data, WORD64);
    assert forall m <- ThroughClose(ms) :: m in ms by { MembersThrough(ms); }
  }

  lemma SmallGrows(data: bytes, chunk: bytes)
    requires SmallMessages(data)
    requires HasClose(Messages(data, WORD64)) || |Rest(data, WORD64)| + |chunk| < WORD32
    ensures SmallMessages(data + chunk)
  {
    hide Messages, Rest, HasClose, ThroughClose;
    Split(data, chunk, WORD64);
    var earlier, later := Messages(data, WORD64), Messages(Rest(data, WORD64) + chunk, WORD64);
    ThroughCloseAppend(earlier, later);
    if !HasClose(earlier) {
      NoCloseWhole(earlier);
      ShortIsSmall(Rest(data, WORD64) + chunk);
    }
  }

  lemma StepSmall(s: State, inp: Input, op: Op)
    requires Agrees(s, inp) && Live(op) && CallsFit(s, [op]) && (inp.ready ==> SmallMessages(inp.data))
    ensures Feed(inp, op).ready ==> SmallMessages(Feed(inp, op).data)
  {
    hide Messages, Rest, HasClose, SmallMessages, Client, Meaning, Step;
    match op
    case Data(chunk, _) => if inp.ready && !inp.ended { SmallGrows(inp.data, chunk); }
    case Metadata => if !inp.ready { ShortIsSmall(inp.data); }
    case Reply(_, _) =>
  }

  /** Calls that fit complete no frame of 2^32 bytes before the filter closes. */
  lemma {:induction false} RunSmall(s: State, inp: Input, ops: seq<Op>)
    requires Agrees(s, inp) && CallsFit(s, ops) && (forall op <- ops :: Live(op))
    requires inp.ready ==> SmallMessages(inp.data)
    ensures FeedAll(inp, ops).ready ==> SmallMessages(FeedAll(inp, ops).data)
    decreases |ops|
  {
    hide Agrees, Step, Feed, SmallMessages;
    if ops != [] {
      OneFits(s, ops);
      StepAgrees(s, inp, ops[0]);
      StepSmall(s, inp, ops[0]);
      RunSmall(Step(s, ops[0]), Feed(inp, ops[0]), ops[1..]);
    }
  }

  /** A filter that has sent the upgrade on and waits for the stream. */
  ghost predicate Waiting(s: State) {
    s.phase == Connecting && s.connected && s.pending == [] && s.remainder == [] && Client(s.trace) == []
  }

  /**
   * Segmentation independence. However the bytes are cut into calls, and whenever initial
   * metadata arrives between them, the client-driven trace is that of parsing the whole stream
   * at once, and while active the unparsed tail is exactly the remainder.
   */
  lemma SegmentationIndependence(s: State, ops: seq<Op>)
    requires Waiting(s) && CallsFit(s, ops) && forall op <- ops :: Live(op)
    ensures var end := Run(s, ops); var inp := FeedAll(NOTHING, ops); var ms := Messages(inp.data, WORD64);
      && Client(end.trace) == Meaning(inp)
      && (end.phase == Active ==>
            end.remainder == Rest(inp.data, WORD64) && ParseWsFrame(end.remainder, WORD64) == None)
      && (end.phase == Active <==> inp.ready && !inp.ended && !HasClose(ms))
  {
    hide ParseWsFrame;
    RunAgrees(s, NOTHING, ops);
  }

  lemma WaitingSmall(s: State, ops: seq<Op>)
    requires Waiting(s) && CallsFit(s, ops) && forall op <- ops :: Live(op)
    ensures var inp := FeedAll(NOTHING, ops); inp.ready ==> SmallMessages(inp.data)
  {
    hide FeedAll, CallsFit, SmallMessages;
    RunSmall(s, NOTHING, ops);
  }

  // ---------------------------------------------------------------------------------------
  // Calls beyond the 32-bit length
  // ---------------------------------------------------------------------------------------

  /** What a live filter does for all messages of a call that may end the request. */
  function Told(ms: seq<Message>, ended: bool): seq<Event> {
    if ms == [] then if ended then [HalfClose] else []
    else React(ms[0]) + if ms[0].opcode == CLOSE then [] else Told(ms[1..], ended)
  }

  lemma {:induction false} ToldIs(ms: seq<Message>, ended: bool)
    ensures Told(ms, ended) == Reactions(ms) + if ended && !HasClose(ms) then [HalfClose] else []
  {
    hide React;
    if ms != [] {
      ToldIs(ms[1..], ended);
      assert ms == [ms[0]] + ms[1..];
      HasCloseAppend([ms[0]], ms[1..]);
      assert HasClose([ms[0]]) <==> [ms[0]][0].opcode == CLOSE;
    }
  }

  /** A message that makes a difference; a close frame does not when the request ends anyway. */
  predicate Reacting(m: Message, ended: bool) {
    m.opcode == TEXT || m.opcode == BINARY || m.opcode == PING || (m.opcode == CLOSE && !ended)
  }

  /** Some reacting message, up to the first close frame, ends behind byte `limit` of the stream. */
  predicate ReactsBehind(buf: bytes, limit: int, ended: bool)
    decreases |buf|
  {
    match ParseWsFrame(buf, WORD64)
    case None => false
    case Some(p) =>
      || (p.consumed > limit && Reacting(Message(p.opcode, p.payload), ended))
      || (p.opcode != CLOSE && ReactsBehind(buf[p.consumed..], limit - p.consumed, ended))
  }

  lemma ToldFirst(m: Message, ms: seq<Message>, ended: bool)
    ensures Told([m] + ms, ended) == React(m) + if m.opcode == CLOSE then [] else Told(ms, ended)
    ensures React(m) == [] ==> !Reacting(m, ended)
    ensures Reacting(m, ended) && m.opcode != CLOSE ==> |React(m)| == 1
    ensures m.opcode == CLOSE ==> React(m) == [HalfClose]
    ensures !Reacting(m, ended) && m.opcode != CLOSE ==> React(m) == []
  {
    hide EncodeFrame;
    assert ([m] + ms)[1..] == ms;
  }

  lemma ToldEnds(ms: seq<Message>)
    ensures |Told(ms, true)| >= 1
  {
    hide EncodeFrame;
    if ms != [] && ms[0].opcode != CLOSE { ToldEnds(ms[1..]); }
  }

  lemma ToldNone(ended: bool)
    ensures Told([], ended) == if ended then [HalfClose] else []
  {
  }

  /** If the first frame ends behind the limit, so do all. */
  lemma {:induction false} AllBehind(buf: bytes, limit: int, ended: bool)
    requires ParseWsFrame(buf, WORD64).Some? ==> limit < ParseWsFrame(buf, WORD64).value.consumed
    ensures Told(Messages(buf, WORD64), ended) == Told([], ended) <==> !ReactsBehind(buf, limit, ended)
    decreases |buf|
  {
    hide ParseWsFrame, React, Told;
    if ParseWsFrame(buf, WORD64).Some? {
      var p := ParseWsFrame(buf, WORD64).value;
      var m, rest := Message(p.opcode, p.payload), buf[p.consumed..];
      AllBehind(rest, limit - p.consumed, ended);
      ToldFirst(m, Messages(rest, WORD64), ended);
      ToldNone(ended);
      if ended { ToldEnds(Messages(rest, WORD64)); }
      assert [] + Told(Messages(rest, WORD64), ended) == Told(Messages(rest, WORD64), ended);
    }
  }

  lemma NothingWithin(buf: bytes, limit: nat)
    requires limit <= |buf|
    requires ParseWsFrame(buf, WORD64).Some? ==> limit < ParseWsFrame(buf, WORD64).value.consumed
    ensures Messages(buf[..limit], WORD64) == []
  {
    hide ParseWsFrame;
    assert buf[..limit] + buf[limit..] == buf;
    if ParseWsFrame(buf, WORD64).Some? {
      StrictPrefixIncomplete(buf, limit, WORD64);
    } else if ParseWsFrame(buf[..limit], WORD64).Some? {
      ParseExtend(buf[..limit], buf[limit..], WORD64);
    }
  }

  /** Cutting a stream at `limit` changes what is told exactly when a reacting message ends behind it. */
  lemma {:induction false} CutIff(buf: bytes, limit: nat, ended: bool)
    requires limit <= |buf|
    ensures Told(Messages(buf[..limit], WORD64), ended) == Told(Messages(buf, WORD64), ended)
       <==> !ReactsBehind(buf, limit, ended)
    decreases |buf|
  {
    hide ParseWsFrame, React, Told;
    var pre := buf[..limit];
    if ParseWsFrame(buf, WORD64).Some? && ParseWsFrame(buf, WORD64).value.consumed <= limit {
      var p := ParseWsFrame(buf, WORD64).value;
      var m, n := Message(p.opcode, p.payload), p.consumed;
      ParseWithin(buf, limit, WORD64);
      assert pre[n..] == buf[n..][..limit - n];
      CutIff(buf[n..], limit - n, ended);
      ToldFirst(m, Messages(pre[n..], WORD64), ended);
      ToldFirst(m, Messages(buf[n..], WORD64), ended);
      SamePrefix(React(m), Told(Messages(pre[n..], WORD64), ended), Told(Messages(buf[n..], WORD64), ended));
    } else {
      NothingWithin(buf, limit);
      AllBehind(buf, limit, ended);
    }
  }

  lemma Regrouped<T>(a: seq<T>, b: seq<T>, c: seq<T>)
    ensures a + b + c == a + (b + c)
  {
  }

  /**
   * One call of an active filter causes the events of all its bytes, unparsed tail included, if
   * and only if no reacting message ends behind the bytes that the 32-bit length lets it see.
   */
  lemma OversizeIff(s: State, data: bytes, endStream: bool)
    requires s.phase == Active && s.connected
    ensures var all := s.remainder + data; var ms := Messages(all, WORD64);
      Client(Process(s, data, endStream).trace)
        == Client(s.trace) + Reactions(ms) + (if endStream && !HasClose(ms) then [HalfClose] else [])
      <==> |all| <= UINT32_MAX || !ReactsBehind(all, UINT32_MAX, endStream)
  {
    hide Messages, Reactions, HasClose, Client, Told, ReactsBehind, Rest;
    var all := s.remainder + data;
    var seen := if |all| > UINT32_MAX then all[..UINT32_MAX] else all;
    var ms, now := Messages(all, WORD64), Messages(seen, WORD64);
    ClientReacts(s.trace, now);
    ToldIs(ms, endStream);
    ToldIs(now, endStream);
    var before := Client(s.trace);
    assert before + Reactions(ms) + [] == before + Reactions(ms);
    assert before + Reactions(now) + [] == before + Reactions(now);
    Regrouped(before, Reactions(ms), if endStream && !HasClose(ms) then [HalfClose] else []);
    Regrouped(before, Reactions(now), if endStream && !HasClose(now) then [HalfClose] else []);
    assert Client(Process(s, data, endStream).trace) == before + Told(now, endStream);
    SamePrefix(before, Told(now, endStream), Told(ms, endStream));
    if |all| > UINT32_MAX { CutIff(all, UINT32_MAX, endStream); }
  }

  /** A pong frame of as many bytes as one call looks at. */
  function LongPong(): Frame {
    var n: nat := UINT32_MAX - 10;
    Frame(0x8A, Long(n), None, seq(n, i => 0))
  }

  /** A text frame with the one letter A. */
  function ShortText(): Frame {
    Frame(0x81, Short, None, [0x41])
  }

  lemma LongFrames()
    ensures Fits(LongPong(), WORD64) && Fits(ShortText(), WORD64)
    ensures |Print(LongPong(), WORD64)| == UINT32_MAX && |Print(ShortText(), WORD64)| == 3
  {
  }

  lemma TwoMessages(pong: Message, text: Message)
    requires pong.opcode == PONG && text.opcode == TEXT
    ensures Reactions([pong] + []) == [] && !HasClose([pong] + [])
    ensures Reactions([pong] + ([text] + [])) == [Send(text.payload, false)]
  {
    assert [pong] + [] == [pong] && [text] + [] == [text];
    assert [pong][1..] == [] && ([pong] + [text])[1..] == [text] && [text][1..] == [];
  }

  lemma PongThenText()
    requires Fits(LongPong(), WORD64) && Fits(ShortText(), WORD64)
    ensures var pong, text := Print(LongPong(), WORD64), Print(ShortText(), WORD64);
      && Reactions(Messages(pong, WORD64)) == [] && Reactions(Messages(pong + text, WORD64)) == [Send([0x41], false)]
      && !HasClose(Messages(pong, WORD64)) && Rest(pong, WORD64) == []
  {
    hide Print, Fits, Messages, Rest, HasClose;
    var p, t := Print(LongPong(), WORD64), Print(ShortText(), WORD64);
    StreamHead(LongPong(), t, WORD64);
    StreamHead(LongPong(), [], WORD64);
    StreamHead(ShortText(), [], WORD64);
    Empty();
    assert p + [] == p && t + [] == t;
    var mp, mt := MessageOf(LongPong()), MessageOf(ShortText());
    TwoMessages(mp, mt);
  }

  lemma FitsOne(s: State, op: Op)
    ensures CallsFit(s, [op]) <==>
      && (op.Data? && s.phase == Active ==> |s.remainder| + |op.chunk| <= UINT32_MAX)
      && (op.Metadata? && s.phase == Connecting ==> |s.pending| <= UINT32_MAX)
  {
    hide Step;
    assert [op][1..] == [];
  }

  lemma FitsThree(s: State, a: Op, b: Op, c: Op)
    ensures CallsFit(s, [a, b, c]) <==>
      CallsFit(s, [a]) && CallsFit(Step(s, a), [b]) && CallsFit(Step(Step(s, a), b), [c])
  {
    hide Step;
    assert [a, b, c][1..] == [b, c] && [b, c][1..] == [c] && [a][1..] == [] && [b][1..] == [];
  }

  lemma FeedThree(inp: Input, a: Op, b: Op, c: Op)
    ensures FeedAll(inp, [a, b, c]) == Feed(Feed(Feed(inp, a), b), c)
  {
    hide Feed;
    assert [a, b, c][1..] == [b, c] && [b, c][1..] == [c] && [c][1..] == [];
    assert FeedAll(Feed(inp, a), [b, c]) == FeedAll(Feed(Feed(inp, a), b), [c]);
  }

  lemma InTwoCalls(s: State, pong: bytes, text: bytes)
    requires Waiting(s) && |pong| == UINT32_MAX && |text| == 3
    requires !HasClose(Messages(pong, WORD64)) && Rest(pong, WORD64) == []
    ensures Client(Run(s, [Metadata, Data(pong, false), Data(text, false)]).trace)
         == Reactions(Messages(pong + text, WORD64))
  {
    hide Messages, Rest, Reactions, HasClose, Client, Run, CallsFit, FeedAll;
    var ops := [Metadata, Data(pong, false), Data(text, false)];
    var next := InitialMetadata(s);
    assert [] + pong == pong;
    assert Step(next, ops[1]).remainder == [];
    FitsThree(s, ops[0], ops[1], ops[2]);
    FeedThree(NOTHING, ops[0], ops[1], ops[2]);
    FitsOne(s, ops[0]);
    FitsOne(next, ops[1]);
    FitsOne(Step(next, ops[1]), ops[2]);
    SegmentationIndependence(s, ops);
    assert Reactions(Messages(pong + text, WORD64)) + [] == Reactions(Messages(pong + text, WORD64));
  }

  lemma RunTwo(s: State, a: Op, b: Op)
    ensures Run(s, [a, b]) == Step(Step(s, a), b)
  {
    hide Step;
    assert [a, b][1..] == [b] && [b][1..] == [];
    assert Run(Step(s, a), [b]) == Run(Step(Step(s, a), b), []);
  }

  lemma InOneCall(s: State, pong: bytes, text: bytes)
    requires Waiting(s) && |pong| == UINT32_MAX && |text| == 3
    requires Reactions(Messages(pong, WORD64)) == [] && !HasClose(Messages(pong, WORD64))
    ensures Client(Run(s, [Metadata, Data(pong + text, false)]).trace) == []
  {
    hide Messages, Rest, Reactions, HasClose, Client, Run;
    RunTwo(s, Metadata, Data(pong + text, false));
    assert [] + (pong + text) == pong + text && (pong + text)[..UINT32_MAX] == pong;
    ClientReacts(s.trace, Messages(pong, WORD64));
  }

  /**
   * A stream on which the cutting shows: the text frame behind the long pong is sent when it
   * arrives in a call of its own, and lost when both arrive in one call.
   */
  lemma OversizeLost(s: State)
    requires Waiting(s)
    ensures Fits(LongPong(), WORD64) && Fits(ShortText(), WORD64)
    ensures var pong, text := Print(LongPong(), WORD64), Print(ShortText(), WORD64);
      && |pong| == 0xFFFF_FFFF && |text| == 3
      && Client(Run(s, [Metadata, Data(pong, false), Data(text, false)]).trace) == [Send([0x41], false)]
      && Client(Run(s, [Metadata, Data(pong + text, false)]).trace) == []
  {
    hide Print, Fits, LongPong, ShortText, Messages, Rest, Client, Waiting, Run, HasClose, Reactions;
    LongFrames();
    PongThenText();
    InTwoCalls(s, Print(LongPong(), WORD64), Print(ShortText(), WORD64));
    InOneCall(s, Print(LongPong(), WORD64), Print(ShortText(), WORD64));
  }

  lemma FitsTwo(s: State, a: Op, b: Op)
    ensures CallsFit(s, [a, b]) <==> CallsFit(s, [a]) && CallsFit(Step(s, a), [b])
  {
    hide Step;
    assert [a, b][1..] == [b] && [a][1..] == [];
  }

  // ---------------------------------------------------------------------------------------
  // end_stream while connecting
  // ---------------------------------------------------------------------------------------

  function Received(ops: seq<Op>): bytes {
    if ops == [] then [] else (if ops[0].Data? then ops[0].chunk else []) + Received(ops[1..])
  }

  lemma MetadataFirst(ops: seq<Op>)
    requires ops != []
    ensures Metadata in ops <==> Metadata == ops[0] || Metadata in ops[1..]
  {
    assert ops == [ops[0]] + ops[1..];
  }

  lemma {:induction false} FeedUnended(inp: Input, ops: seq<Op>)
    requires !inp.ended && forall op <- ops :: Live(op) && (op.Data? ==> !op.endStream)
    ensures FeedAll(inp, ops) == Input(inp.data + Received(ops), inp.ready || Metadata in ops, false)
    decreases |ops|
  {
    if ops == [] {
      assert inp.data + [] == inp.data;
    } else {
      var next := Feed(inp, ops[0]);
      FeedUnended(next, ops[1..]);
      MetadataFirst(ops);
      if ops[0].Data? {
        assert inp.data + ops[0].chunk + Received(ops[1..]) == inp.data + (ops[0].chunk + Received(ops[1..]));
      } else {
        assert [] + Received(ops[1..]) == Received(ops[1..]);
      }
    }
  }

  lemma {:induction false} FeedNoData(inp: Input, ops: seq<Op>)
    requires forall op <- ops :: Live(op) && !op.Data?
    ensures FeedAll(inp, ops) == inp.(ready := inp.ready || Metadata in ops)
    decreases |ops|
  {
    if ops != [] {
      FeedNoData(Feed(inp, ops[0]), ops[1..]);
      MetadataFirst(ops);
    }
  }

  /**
   * When the request ends with `end_stream` and the stream becomes ready at some point, the filter
   * half-closes exactly once with all messages sent if and only if a close frame did it or the
   * stream was ready when `end_stream` arrived: an end seen while connecting is forgotten.
   */
  lemma EndStreamIff(s: State, before: seq<Op>, last: bytes, behind: seq<Op>)
    requires Waiting(s) && CallsFit(s, before + [Data(last, true)] + behind)
    requires forall op <- before :: Live(op) && (op.Data? ==> !op.endStream)
    requires forall op <- behind :: Live(op) && !op.Data?
    requires Metadata in before || Metadata in behind
    ensures var ms := Messages(Received(before) + last, WORD64);
      Client(Run(s, before + [Data(last, true)] + behind).trace)
        == Reactions(ms) + (if HasClose(ms) then [] else [HalfClose])
      <==> HasClose(ms) || Metadata in before
  {
    hide Messages, Reactions, HasClose, CallsFit, Run, Received;
    var ops := before + [Data(last, true)] + behind;
    SegmentationIndependence(s, ops);
    FeedAppend(NOTHING, before + [Data(last, true)], behind);
    FeedAppend(NOTHING, before, [Data(last, true)]);
    FeedUnended(NOTHING, before);
    var mid := FeedAll(NOTHING, before);
    assert [] + Received(before) == Received(before);
    assert FeedAll(mid, [Data(last, true)]) == Feed(mid, Data(last, true)) by {
      assert [Data(last, true)][1..] == [];
    }
    FeedNoData(Feed(mid, Data(last, true)), behind);
    var ms := Messages(Received(before) + last, WORD64);
    assert |Reactions(ms) + [HalfClose]| != |Reactions(ms)|;
  }

  /** An input on which it fails: the end of the request comes before the stream is ready. */
  lemma EndForgotten(s: State)
    requires Waiting(s)
    ensures var early, late := [Data([], true), Metadata], [Metadata, Data([], true)];
      && CallsFit(s, early) && CallsFit(s, late)
      && Client(Run(s, early).trace) == [] && Client(Run(s, late).trace) == [HalfClose]
  {
    hide Client, Messages, Rest, Reactions, HasClose, CallsFit, Run;
    Empty();
    RunTwo(s, Data([], true), Metadata);
    RunTwo(s, Metadata, Data([], true));
    FitsTwo(s, Data([], true), Metadata);
    FitsTwo(s, Metadata, Data([], true));
    FitsOne(s, Metadata);
    FitsOne(s, Data([], true));
    FitsOne(Step(s, Data([], true)), Metadata);
    FitsOne(Step(s, Metadata), Data([], true));
    ClientReacts(s.trace, []);
    assert [] + [HalfClose] == [HalfClose] && s.trace + [] == s.trace;
  }

  // ---------------------------------------------------------------------------------------
  // Runs in which the server closes or the filter is destroyed
  // ---------------------------------------------------------------------------------------

  predicate NoHeaders(ops: seq<Op>) {
    forall op <- ops :: !op.Headers?
  }

  lemma {:induction false} NoneFromClient(t: seq<Event>)
    requires forall e <- t :: !FromClient(e)
    ensures Client(t) == []
  {
    hide FromClient;
    if t != [] { NoneFromClient(t[..|t| - 1]); }
  }

  lemma ClosingStep(s: State, op: Op)
    requires op.RemoteClosed? || op.Destroyed?
    requires s.phase != Closed || !s.connected
    ensures var t := Step(s, op); t.phase == Closed && !t.connected && Client(t.trace) == Client(s.trace)
  {
    hide Keep, EncodeFrame;
    var t := Step(s, op).trace;
    assert s.trace <= t;
    var u := t[|s.trace|..];
    assert t == s.trace + u;
    KeepAppend(FromClient, s.trace, u);
    NoneFromClient(u);
    assert Client(s.trace) + [] == Client(s.trace);
  }

  lemma {:induction false} ClosedRun(s: State, ops: seq<Op>)
    requires s.phase == Closed && !s.connected && NoHeaders(ops)
    ensures Client(Run(s, ops).trace) == Client(s.trace)
    decreases |ops|
  {
    hide Client;
    if ops != [] {
      assert !ops[0].Headers?;
      assert s.trace + [] == s.trace;
      ClosedRun(Step(s, ops[0]), ops[1..]);
    }
  }

  lemma WaitingAgrees(s: State)
    requires Waiting(s)
    ensures Agrees(s, NOTHING)
  {
  }

  lemma RunOne(s: State, op: Op)
    ensures Run(s, [op]) == Step(s, op)
  {
    hide Step;
    assert [op][1..] == [];
  }

  /**
   * What the filter does for the client is decided when the server closes the stream or the filter
   * is destroyed: it is the meaning of what came before, and no later callback adds to it.
   */
  lemma EndedRun(s: State, before: seq<Op>, last: Op, behind: seq<Op>)
    requires Waiting(s) && CallsFit(s, before) && forall op <- before :: Live(op)
    requires (last.RemoteClosed? || last.Destroyed?) && NoHeaders(behind)
    ensures Client(Run(s, before + [last] + behind).trace) == Meaning(FeedAll(NOTHING, before))
  {
    hide Client, Meaning, FeedAll, Run, CallsFit, Step, NoHeaders;
    WaitingAgrees(s);
    RunAgrees(s, NOTHING, before);
    RunAppend(s, before + [last], behind);
    RunAppend(s, before, [last]);
    var t := Run(s, before);
    RunOne(t, last);
    ClosingStep(t, last);
    ClosedRun(Step(t, last), behind);
  }

  // ---------------------------------------------------------------------------------------
  // Life cycle under every callback sequence
  // ---------------------------------------------------------------------------------------

  function Rank(p: Phase): nat {
    match p
    case Passthrough => 0
    case Connecting => 1
    case Active => 2
    case Closing => 3
    case Closed => 4
  }

  /** Request headers come once and first; gRPC callbacks need the callback object. */
  predicate Allowed(s: State, op: Op) {
    && (op.Headers? ==> s.phase == Passthrough)
    && (op.Metadata? || op.Reply? || op.RemoteClosed? ==> s.callbacks)
  }

  predicate AllowedRun(s: State, ops: seq<Op>)
    decreases |ops|
  {
    ops == [] || (Allowed(s, ops[0]) && AllowedRun(Step(s, ops[0]), ops[1..]))
  }

  predicate Write(e: Event) {
    e.Pong? || e.Relay? || e.CloseFrame? || e.LocalReply?
  }

  /** What may follow what: nothing is sent or half-closed behind a half-close, nothing is written
      downstream behind a close frame, and resets and local replies are final. */
  predicate Follows(a: Event, b: Event) {
    && (a.HalfClose? ==> !b.Send? && !b.HalfClose?)
    && (a.CloseFrame? ==> !Write(b))
    && !a.ResetStream? && !a.ResetDownstream? && !a.LocalReply?
  }

  predicate Disciplined(t: seq<Event>) {
    forall i, j :: 0 <= i < j < |t| ==> Follows(t[i], t[j])
  }

  /** Events after which everything but a further close frame is possible. */
  predicate Early(e: Event) {
    e.StartStream? || e.Send? || e.Pong? || e.Relay?
  }

  ghost predicate LifeInv(s: State) {
    && Disciplined(s.trace)
    && (s.connected <==> s.phase == Connecting || s.phase == Active || s.phase == Closing)
    && (s.phase == Passthrough ==> s.trace == [] && !s.callbacks)
    && (s.phase == Passthrough || s.phase == Connecting ==> s.remainder == [])
    && (s.phase == Connecting || s.phase == Active ==> forall e <- s.trace :: Early(e))
    && (s.phase == Closing ==> forall e <- s.trace :: Early(e) || e.HalfClose?)
  }

  lemma DisciplinedAppend(t: seq<Event>, u: seq<Event>)
    requires Disciplined(t) && Disciplined(u) && forall a <- t, b <- u :: Follows(a, b)
    ensures Disciplined(t + u)
  {
    var w := t + u;
    forall i, j | 0 <= i < j < |w| ensures Follows(w[i], w[j]) {
      if j < |t| {
      } else if i < |t| {
        assert w[i] in t && w[j] in u;
      } else {
        assert w[i] == u[i - |t|] && w[j] == u[j - |t|];
      }
    }
  }

  /** Reactions send and pong; a half-close is their last event and comes from a close frame. */
  lemma {:induction false} ReactionsShape(ms: seq<Message>)
    ensures Disciplined(Reactions(ms))
    ensures forall e <- Reactions(ms) :: Early(e) || (e.HalfClose? && HasClose(ms))
  {
    hide EncodeFrame;
    if ms != [] {
      ReactionsShape(ms[1..]);
      var r := React(ms[0]);
      var tail := if ms[0].opcode == CLOSE then [] else Reactions(ms[1..]);
      if ms[0].opcode == CLOSE { assert HasClose(ms); }
      if HasClose(ms[1..]) {
        var i :| 0 <= i < |ms[1..]| && ms[1..][i].opcode == CLOSE;
        assert ms[i + 1].opcode == CLOSE;
      }
      DisciplinedAppend(r, tail);
    }
  }

  lemma ProcessLife(s: State, data: bytes, endStream: bool)
    requires LifeInv(s) && s.phase == Active
    ensures var t := Process(s, data, endStream);
      LifeInv(t) && (t.phase == Active || t.phase == Closing) && s.trace <= t.trace
  {
    hide Messages, Rest, Reactions, HasClose;
    var all := s.remainder + data;
    var seen := if |all| > UINT32_MAX then all[..UINT32_MAX] else all;
    var r := Reactions(Messages(seen, WORD64));
    ReactionsShape(Messages(seen, WORD64));
    DisciplinedAppend(s.trace, r);
    if !HasClose(Messages(seen, WORD64)) {
      DisciplinedAppend(s.trace + r, [HalfClose]);
    }
  }

  lemma OneMore(t: seq<Event>, e: Event)
    requires Disciplined(t) && forall a <- t :: Follows(a, e)
    ensures Disciplined(t + [e])
  {
    DisciplinedAppend(t, [e]);
  }

  lemma StartLife()
    ensures LifeInv(INITIAL)
  {
  }

  lemma CallbackLife(s: State, op: Op)
    requires LifeInv(s) && Allowed(s, op) && !op.Data? && !op.Metadata?
    ensures LifeInv(Step(s, op))
    ensures Rank(s.phase) <= Rank(Step(s, op).phase) && s.trace <= Step(s, op).trace
  {
    hide EncodeFrame, Disciplined;
    match op
    case Headers(upgrade, started) =>
      if upgrade {
        OneMore([], StartStream) by { StartLife(); }
        assert [] + [StartStream] == [StartStream];
        if !started {
          OneMore([StartStream], LocalReply);
          assert s.trace + [StartStream, LocalReply] == [StartStream] + [LocalReply];
        }
      }
    case Reply(payload, binary) =>
      if s.phase == Active || s.phase == Closing {
        OneMore(s.trace, Relay(EncodeFrame(if binary then BINARY else TEXT, payload)));
      }
    case RemoteClosed =>
      if s.phase != Closed {
        var frame := CloseFrame(EncodeFrame(CLOSE, [0x03, 0xe8]));
        OneMore(s.trace, frame);
        OneMore(s.trace + [frame], ResetDownstream);
        assert s.trace + [frame, ResetDownstream] == s.trace + [frame] + [ResetDownstream];
      }
    case Destroyed =>
      if s.connected {
        OneMore(s.trace, ResetStream);
      } else {
        assert s.trace + [] == s.trace;
      }
  }

  lemma StepLife(s: State, op: Op)
    requires LifeInv(s) && Allowed(s, op)
    ensures LifeInv(Step(s, op))
    ensures Rank(s.phase) <= Rank(Step(s, op).phase)
    ensures s.trace <= Step(s, op).trace
  {
    hide Process, Disciplined;
    match op
    case Data(chunk, endStream) =>
      if s.phase == Active { ProcessLife(s, chunk, endStream); }
    case Metadata =>
      if s.phase == Connecting {
        var t := s.(phase := Active);
        if t.pending != [] { ProcessLife(t, t.pending, false); }
      }
    case _ => CallbackLife(s, op);
  }

  lemma {:induction false} RunLife(s: State, ops: seq<Op>)
    requires LifeInv(s) && AllowedRun(s, ops)
    ensures LifeInv(Run(s, ops))
    ensures Rank(s.phase) <= Rank(Run(s, ops).phase) && s.trace <= Run(s, ops).trace
    decreases |ops|
  {
    hide LifeInv, Step, Allowed;
    if ops != [] {
      StepLife(s, ops[0]);
      RunLife(Step(s, ops[0]), ops[1..]);
    }
  }

  lemma {:induction false} AllowedSplit(s: State, a: seq<Op>, b: seq<Op>)
    requires AllowedRun(s, a + b)
    ensures AllowedRun(s, a) && AllowedRun(Run(s, a), b)
    decreases |a|
  {
    hide Step, Allowed;
    if a == [] {
      assert a + b == b;
    } else {
      assert (a + b)[1..] == a[1..] + b;
      AllowedSplit(Step(s, a[0]), a[1..], b);
    }
  }

  lemma {:induction false} ClosedIsFinal(s: State, ops: seq<Op>)
    requires LifeInv(s) && s.phase == Closed && AllowedRun(s, ops)
    ensures Run(s, ops).trace == s.trace
    decreases |ops|
  {
    hide Disciplined;
    if ops != [] {
      StepLife(s, ops[0]);
      assert Step(s, ops[0]).trace + [] == s.trace;
      ClosedIsFinal(Step(s, ops[0]), ops[1..]);
    }
  }

  /**
   * Life cycle. Over every allowed run and every later point of it: the phase never goes back,
   * the trace only grows and stays disciplined, the stream pointer is set while active, and a
   * closed filter never does anything again.
   */
  lemma LifeCycle(a: seq<Op>, b: seq<Op>)
    requires AllowedRun(INITIAL, a + b)
    ensures var early := Run(INITIAL, a); var late := Run(INITIAL, a + b);
      && Rank(early.phase) <= Rank(late.phase)
      && early.trace <= late.trace
      && Disciplined(late.trace)
      && Sound(late)
      && (early.phase == Closed ==> late.trace == early.trace)
  {
    hide Step, Allowed, Disciplined;
    AllowedSplit(INITIAL, a, b);
    assert LifeInv(INITIAL) by { StartLife(); }
    RunLife(INITIAL, a);
    RunLife(Run(INITIAL, a), b);
    RunAppend(INITIAL, a, b);
    if Run(INITIAL, a).phase == Closed { ClosedIsFinal(Run(INITIAL, a), b); }
  }

  /**
   * Of any two events of any allowed run: there is one half-close at most and no message behind
   * it, and one close frame at most and no downstream write of any kind behind it.
   */
  lemma AtMostOnce(ops: seq<Op>, i: nat, j: nat)
    requires AllowedRun(INITIAL, ops) && i < j < |Run(INITIAL, ops).trace|
    ensures var a, b := Run(INITIAL, ops).trace[i], Run(INITIAL, ops).trace[j];
      && (a.HalfClose? ==> !b.HalfClose? && !b.Send?)
      && (a.CloseFrame? ==> !b.CloseFrame? && !b.Pong? && !b.Relay? && !b.LocalReply?)
  {
    hide Run, AllowedRun;
    assert ops + [] == ops;
    LifeCycle(ops, []);
    assert Follows(Run(INITIAL, ops).trace[i], Run(INITIAL, ops).trace[j]);
  }

  // ---------------------------------------------------------------------------------------
  // What the events say
  // ---------------------------------------------------------------------------------------

  /** What one message causes, by its opcode. */
  lemma ReactsByOpcode(opcode: byte, payload: Payload)
    ensures var r := React(Message(opcode, payload));
      && (opcode == 1 ==> r == [Send(payload, false)]) && (opcode == 2 ==> r == [Send(payload, true)])
      && (opcode == 8 ==> r == [HalfClose])
      && (opcode == 9 ==> |r| == 1 && r[0].Pong? && IsFrame(r[0].frame, 10, payload, WORD64))
      && (opcode != 1 && opcode != 2 && opcode != 8 && opcode != 9 ==> r == [])
  {
    hide EncodeFrame, IsFrame;
    EncodedFrame(10, payload, WORD64);
  }

  /** While active or closing, a message of the server is relayed as one binary or text frame. */
  lemma RelaysByFlag(s: State, payload: Payload, binary: bool)
    ensures var t := ReceiveMessage(s, payload, binary);
      if s.phase == Active || s.phase == Closing then
        exists frame: bytes :: IsFrame(frame, if binary then 2 else 1, payload, WORD64)
                               && t == s.(trace := s.trace + [Relay(frame)])
      else t == s
  {
    hide EncodeFrame, IsFrame;
    var opcode: byte := if binary then 2 else 1;
    EncodedFrame(opcode, payload, WORD64);
    var frame := EncodeFrame(opcode, payload);
    assert IsFrame(frame, if binary then 2 else 1, payload, WORD64);
    if s.phase == Active || s.phase == Closing {
      assert ReceiveMessage(s, payload, binary) == s.(trace := s.trace + [Relay(frame)]);
    }
  }

  /** A remote close writes one close frame (8) with code 1000, resets the client, and ends it all. */
  lemma RemoteCloseTells(s: State)
    ensures var t := RemoteClose(s);
      if s.phase == Closed then t == s
      else
        && t.phase == Closed && !t.connected
        && exists frame: bytes, code: Payload ::
             && IsFrame(frame, 8, code, WORD64) && |code| == 2 && Two(code[0], code[1]) == 1000
             && t.trace == s.trace + [CloseFrame(frame), ResetDownstream]
  {
    hide EncodeFrame;
    var code: bytes := [0x03, 0xe8];
    EncodedFrame(8, code, WORD64);
    hide IsFrame;
    var frame := EncodeFrame(8, code);
    assert Two(code[0], code[1]) == 1000;
    if s.phase != Closed { assert RemoteClose(s).trace == s.trace + [CloseFrame(frame), ResetDownstream]; }
  }

  /** Something ends a stream: its reset, the client's reset behind a remote close, or a failed start. */
  predicate Ends(e: Event) {
    e == ResetStream || e == ResetDownstream || e == LocalReply
  }

  ghost predicate NoLeakInv(s: State) {
    && (StartStream in s.trace && !s.connected ==> exists e <- s.trace :: Ends(e))
    && (s.connected ==> StartStream in s.trace)
  }

  lemma PrefixMembers(t: seq<Event>, u: seq<Event>)
    requires t <= u
    ensures forall e <- t :: e in u
  {
    assert forall i :: 0 <= i < |t| ==> u[i] == t[i];
  }

  lemma NoStart(ms: seq<Message>)
    ensures StartStream !in Reactions(ms)
  {
    ReactionsFromClient(ms);
  }

  lemma ConnectionKept(s: State, op: Op)
    requires op.Data? || op.Metadata? || op.Reply?
    ensures Step(s, op).connected == s.connected
    ensures StartStream in Step(s, op).trace <==> StartStream in s.trace
  {
    hide EncodeFrame, Messages, Rest, HasClose, Reactions;
    forall ms: seq<Message> ensures StartStream !in Reactions(ms) { NoStart(ms); }
  }

  lemma NoLeakStep(s: State, op: Op)
    requires NoLeakInv(s) && LifeInv(s) && Allowed(s, op)
    ensures NoLeakInv(Step(s, op))
  {
    hide EncodeFrame, Disciplined, Process;
    var t := Step(s, op);
    StepLife(s, op);
    PrefixMembers(s.trace, t.trace);
    if exists e <- s.trace :: Ends(e) {
      var e :| e in s.trace && Ends(e);
      assert e in t.trace;
    }
    match op
    case Headers(upgrade, started) =>
      if upgrade {
        assert t.trace[0] == StartStream && StartStream in t.trace;
        if !started { assert t.trace[1] == LocalReply && LocalReply in t.trace; }
      }
    case RemoteClosed =>
      if s.phase != Closed {
        assert t.trace[|t.trace| - 1] == ResetDownstream;
        assert ResetDownstream in t.trace && Ends(ResetDownstream);
      }
    case Destroyed =>
      assert s.trace + [] == s.trace;
      if s.connected {
        assert t.trace[|t.trace| - 1] == ResetStream;
        assert ResetStream in t.trace && Ends(ResetStream);
      }
    case _ => ConnectionKept(s, op);
  }

  lemma {:induction false} NoLeakRun(s: State, ops: seq<Op>)
    requires NoLeakInv(s) && LifeInv(s) && AllowedRun(s, ops)
    ensures NoLeakInv(Run(s, ops))
    decreases |ops|
  {
    hide NoLeakInv, LifeInv, Step, Allowed;
    if ops != [] {
      NoLeakStep(s, ops[0]);
      StepLife(s, ops[0]);
      NoLeakRun(Step(s, ops[0]), ops[1..]);
    }
  }

  /** In every allowed run that ends closed, a stream that was started has been ended or refused. */
  lemma NoStreamLeft(ops: seq<Op>)
    requires AllowedRun(INITIAL, ops) && Run(INITIAL, ops).phase == Closed
    requires StartStream in Run(INITIAL, ops).trace
    ensures exists e <- Run(INITIAL, ops).trace :: e == ResetStream || e == ResetDownstream || e == LocalReply
  {
    hide Run, AllowedRun;
    StartLife();
    NoLeakRun(INITIAL, ops);
    RunLife(INITIAL, ops);
  }

  /** Without an upgrade request the filter does nothing at all, whatever passes through it. */
  lemma {:induction false} PlainUntouched(s: State, ops: seq<Op>)
    requires s.trace == [] && (s.phase == Passthrough || s.phase == Closed) && !s.callbacks && !s.connected
    requires AllowedRun(s, ops) && forall op <- ops :: !(op.Headers? && op.upgrade)
    ensures Run(s, ops).trace == []
    decreases |ops|
  {
    if ops != [] {
      assert !(ops[0].Headers? && ops[0].upgrade);
      assert s.trace + [] == s.trace;
      PlainUntouched(Step(s, ops[0]), ops[1..]);
    }
  }

  /** An upgrade request starts one stream, and a failed start is answered and ends the filter. */
  lemma UpgradeStarts(started: bool)
    ensures var t := DecodeHeaders(INITIAL, true, started);
      && t.trace == (if started then [StartStream] else [StartStream, LocalReply])
      && t.connected == started && (t.phase == Closed <==> !started)
  {
  }
}
