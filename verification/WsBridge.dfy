/**
 * The WebSocket servicer with the echo application: a frame pump, the application task and the
 * consumer, joined by two unbounded FIFO queues. Runs are all interleavings of their steps.
 */
module WsBridge {
  import opened Bytes

  datatype Frame = Frame(payload: bytes, binary: bool)

  /** Events of the receive queue; a text is represented by its UTF-8 bytes. */
  datatype Received = Connect | ReceiveBytes(data: bytes) | ReceiveText(text: bytes) | Disconnect

  /** Entries of the send queue; absent keys of a send event are `None`. */
  datatype Sent = Accept | Send(text: Option<bytes>, data: Option<bytes>) | Close | Unknown | AppDone

  datatype Pump = Reading | AtEof | Crashed | PumpCancelled

  /** Where the echo application stands between two awaits. */
  datatype App = Starting | Accepting | Waiting | Holding(event: Received) | Returning | Gone

  datatype Consumer = Consuming | Finished | Cancelled

  /** Decides which byte strings decode as text. */
  type Utf8 = bytes -> bool

  datatype State = State(
    input: seq<Frame>,
    pump: Pump,
    receiveQueue: seq<Received>,
    app: App,
    sendQueue: seq<Sent>,
    consumer: Consumer,
    yielded: seq<Frame>)

  /** The receive queue is seeded with the connect event. */
  function Init(client: seq<Frame>): State {
    State(client, Reading, [Connect], Starting, [], Consuming, [])
  }

  datatype Step = PumpNext | AppGets | AppPuts | Consume | CancelCall | CancelPump | CancelApp

  predicate Enabled(s: State, step: Step) {
    match step
    case PumpNext => s.pump == Reading
    case AppGets => (s.app == Starting || s.app == Waiting) && s.receiveQueue != []
    case AppPuts => s.app == Accepting || s.app.Holding? || s.app == Returning
    case Consume => s.consumer == Consuming && s.sendQueue != []
    case CancelCall => s.consumer == Consuming
    case CancelPump => s.consumer != Consuming && s.pump == Reading
    case CancelApp => s.consumer != Consuming && s.app != Gone
  }

  /** The event a frame is pumped as. */
  function Pumped(f: Frame): Received {
    if f.binary then ReceiveBytes(f.payload) else ReceiveText(f.payload)
  }

  predicate Decodes(f: Frame, utf8: Utf8) {
    f.binary || utf8(f.payload)
  }

  /** The entries at which the consumer's loop breaks. */
  predicate Stops(e: Sent) {
    e == AppDone || e == Close
  }

  function SentFrame(e: Sent): seq<Frame> {
    match e
    case Send(Some(text), _) => [Frame(text, false)]
    case Send(None, Some(data)) => [Frame(data, true)]
    case _ => []
  }

  function Apply(s: State, step: Step, utf8: Utf8): State
    requires Enabled(s, step)
  {
    match step
    case PumpNext =>
      if s.input == [] then s.(receiveQueue := s.receiveQueue + [Disconnect], pump := AtEof)
      else if !Decodes(s.input[0], utf8) then s.(pump := Crashed)
      else s.(receiveQueue := s.receiveQueue + [Pumped(s.input[0])], input := s.input[1..])
    case AppGets =>
      var e := s.receiveQueue[0];
      s.(receiveQueue := s.receiveQueue[1..],
         app := if s.app == Starting then if e == Connect then Accepting else Returning
                else if e == Disconnect then Returning
                else if e == Connect then Waiting
                else Holding(e))
    case AppPuts =>
      (match s.app
       case Accepting => s.(sendQueue := s.sendQueue + [Accept], app := Waiting)
       case Holding(ReceiveBytes(data)) => s.(sendQueue := s.sendQueue + [Send(None, Some(data))], app := Waiting)
       case Holding(ReceiveText(text)) => s.(sendQueue := s.sendQueue + [Send(Some(text), None)], app := Waiting)
       case _ => s.(sendQueue := s.sendQueue + [AppDone], app := Gone))
    case Consume =>
      var e := s.sendQueue[0];
      s.(sendQueue := s.sendQueue[1..],
         yielded := s.yielded + SentFrame(e),
         consumer := if Stops(e) then Finished else Consuming)
    case CancelCall => s.(consumer := Cancelled)
    case CancelPump => s.(pump := PumpCancelled)
    case CancelApp => s.(app := Gone, sendQueue := s.sendQueue + [AppDone])
  }

  predicate Possible(s: State, steps: seq<Step>, utf8: Utf8)
    decreases |steps|
  {
    steps == [] || (Enabled(s, steps[0]) && Possible(Apply(s, steps[0], utf8), steps[1..], utf8))
  }

  function Run(s: State, steps: seq<Step>, utf8: Utf8): State
    requires Possible(s, steps, utf8)
    decreases |steps|
  {
    if steps == [] then s else Run(Apply(s, steps[0], utf8), steps[1..], utf8)
  }

  // ---------------------------------------------------------------------------------------
  // The servicer's queues, updated in place
  // ---------------------------------------------------------------------------------------

  class Connection {
    var input: seq<Frame>
    var pump: Pump
    var receiveQueue: seq<Received>
    var app: App
    var sendQueue: seq<Sent>
    var consumer: Consumer
    var yielded: seq<Frame>

    function View(): State
      reads this
    {
      State(input, pump, receiveQueue, app, sendQueue, consumer, yielded)
    }

    constructor (client: seq<Frame>)
      ensures View() == Init(client)
    {
      input, pump, receiveQueue := client, Reading, [Connect];
      app, sendQueue, consumer, yielded := Starting, [], Consuming, [];
    }

    /** One turn of `_pump_frames`. */
    method PumpFrames(utf8: Utf8)
      requires pump == Reading
      modifies this
      ensures View() == Apply(old(View()), PumpNext, utf8)
    {
      if input == [] {
        receiveQueue := receiveQueue + [Disconnect];
        pump := AtEof;
        return;
      }
      var frame := input[0];
      var event: Received;
      if frame.binary {
        event := ReceiveBytes(frame.payload);
      } else {
        if !utf8(frame.payload) {
          pump := Crashed;
          return;
        }
        event := ReceiveText(frame.payload);
      }
      receiveQueue := receiveQueue + [event];
      input := input[1..];
    }

    /** One turn of the consumer's loop. */
    method ConsumeOne(utf8: Utf8)
      requires consumer == Consuming && sendQueue != []
      modifies this
      ensures View() == Apply(old(View()), Consume, utf8)
    {
      var event := sendQueue[0];
      sendQueue := sendQueue[1..];
      match event
      case AppDone => consumer := Finished;
      case Accept =>
      case Send(text, data) =>
        if text.Some? {
          yielded := yielded + [Frame(text.value, false)];
        } else if data.Some? {
          yielded := yielded + [Frame(data.value, true)];
        }
      case Close => consumer := Finished;
      case Unknown =>
    }
  }

  // ---------------------------------------------------------------------------------------
  // Conservation
  // ---------------------------------------------------------------------------------------

  function SentFrames(es: seq<Sent>): seq<Frame> {
    if es == [] then [] else SentFrame(es[0]) + SentFrames(es[1..])
  }

  function ReceivedFrame(e: Received): seq<Frame> {
    match e
    case ReceiveBytes(data) => [Frame(data, true)]
    case ReceiveText(text) => [Frame(text, false)]
    case _ => []
  }

  function ReceivedFrames(es: seq<Received>): seq<Frame> {
    if es == [] then [] else ReceivedFrame(es[0]) + ReceivedFrames(es[1..])
  }

  lemma {:induction false} SentSnoc(es: seq<Sent>, e: Sent)
    ensures SentFrames(es + [e]) == SentFrames(es) + SentFrame(e)
  {
    hide SentFrame;
    if es == [] {
      assert es + [e] == [e] && [e][1..] == [];
    } else {
      assert (es + [e])[1..] == es[1..] + [e];
      SentSnoc(es[1..], e);
    }
  }

  lemma {:induction false} ReceivedSnoc(es: seq<Received>, e: Received)
    ensures ReceivedFrames(es + [e]) == ReceivedFrames(es) + ReceivedFrame(e)
  {
    hide ReceivedFrame;
    if es == [] {
      assert es + [e] == [e] && [e][1..] == [];
    } else {
      assert (es + [e])[1..] == es[1..] + [e];
      ReceivedSnoc(es[1..], e);
    }
  }

  function Held(app: App): seq<Frame> {
    if app.Holding? then ReceivedFrame(app.event) else []
  }

  /** Everything between the client and the yielded frames, oldest first. */
  function InFlight(s: State): seq<Frame> {
    SentFrames(s.sendQueue) + (Held(s.app) + (ReceivedFrames(s.receiveQueue) + s.input))
  }

  /** The queue of a live connection: connect first, disconnect last and behind all frames. */
  ghost predicate QueueInv(s: State) {
    && (s.app == Starting ==> s.receiveQueue != [] && s.receiveQueue[0] == Connect)
    && (forall i :: 0 <= i < |s.receiveQueue| ==> (s.receiveQueue[i] == Connect ==> s.app == Starting && i == 0))
    && (forall i :: 0 <= i < |s.receiveQueue| ==> (s.receiveQueue[i] == Disconnect ==> i == |s.receiveQueue| - 1))
    && (s.pump != AtEof ==> Disconnect !in s.receiveQueue)
    && (s.pump == AtEof ==> s.input == [])
    && (s.app.Holding? ==> s.app.event.ReceiveBytes? || s.app.event.ReceiveText?)
    && (s.app == Returning || s.app == Gone ==> s.pump == AtEof && s.receiveQueue == [])
    && (s.pump == AtEof && s.app != Returning && s.app != Gone ==> Disconnect in s.receiveQueue)
    && (forall i :: 0 <= i < |s.sendQueue| ==> (s.sendQueue[i] == AppDone ==> s.app == Gone && i == |s.sendQueue| - 1))
    && (s.app == Gone ==> AppDone in s.sendQueue)
    && Close !in s.sendQueue
  }

  /** While the consumer runs, frames are conserved. */
  ghost predicate Live(s: State, client: seq<Frame>) {
    s.yielded + InFlight(s) == client && QueueInv(s) && s.pump != PumpCancelled
  }

  ghost predicate InputInv(s: State, client: seq<Frame>, utf8: Utf8) {
    && |s.input| <= |client| && s.input == client[|client| - |s.input|..]
    && (forall i :: 0 <= i < |client| - |s.input| ==> Decodes(client[i], utf8))
    && (s.pump == AtEof ==> s.input == [])
    && (s.pump == Crashed ==> s.input != [] && !Decodes(s.input[0], utf8))
  }

  /** What holds in every reachable state. */
  ghost predicate Inv(s: State, client: seq<Frame>, utf8: Utf8) {
    && (s.consumer == Consuming ==> Live(s, client))
    && s.yielded <= client
    && (s.consumer == Finished ==> s.yielded == client && s.pump == AtEof)
    && InputInv(s, client, utf8)
  }

  lemma InputStep(s: State, step: Step, client: seq<Frame>, utf8: Utf8)
    requires InputInv(s, client, utf8) && Enabled(s, step)
    ensures InputInv(Apply(s, step, utf8), client, utf8)
  {
    hide Decodes;
    if step == PumpNext && s.input != [] && Decodes(s.input[0], utf8) {
      assert s.input[0] == client[|client| - |s.input|];
    }
  }

  lemma PumpLive(s: State, client: seq<Frame>, utf8: Utf8)
    requires Live(s, client) && s.pump == Reading
    ensures Live(Apply(s, PumpNext, utf8), client)
  {
    hide SentFrames, ReceivedFrames;
    if s.input == [] {
      ReceivedSnoc(s.receiveQueue, Disconnect);
      assert ReceivedFrames(s.receiveQueue) + [] == ReceivedFrames(s.receiveQueue);
    } else if Decodes(s.input[0], utf8) {
      var f := s.input[0];
      ReceivedSnoc(s.receiveQueue, Pumped(f));
      assert ReceivedFrame(Pumped(f)) == [f];
      assert s.input == [f] + s.input[1..];
      var r := ReceivedFrames(s.receiveQueue);
      assert r + ([f] + s.input[1..]) == r + [f] + s.input[1..];
    }
  }

  lemma GetsLive(s: State, client: seq<Frame>, utf8: Utf8)
    requires Live(s, client) && Enabled(s, AppGets)
    ensures Live(Apply(s, AppGets, utf8), client)
  {
    hide SentFrames;
    var t := Apply(s, AppGets, utf8);
    var e := s.receiveQueue[0];
    assert s.receiveQueue == [e] + s.receiveQueue[1..];
    var r := ReceivedFrames(s.receiveQueue[1..]);
    assert ReceivedFrames(s.receiveQueue) == ReceivedFrame(e) + r;
    assert ReceivedFrame(e) + r + s.input == ReceivedFrame(e) + (r + s.input);
    assert [] + (ReceivedFrame(e) + (r + s.input)) == ReceivedFrame(e) + (r + s.input);
    assert Held(t.app) == ReceivedFrame(e);
    assert InFlight(t) == InFlight(s);
    assert QueueInv(t);
  }

  lemma PutsLive(s: State, client: seq<Frame>, utf8: Utf8)
    requires Live(s, client) && Enabled(s, AppPuts)
    ensures Live(Apply(s, AppPuts, utf8), client)
  {
    hide SentFrames, ReceivedFrames;
    var t := Apply(s, AppPuts, utf8);
    var e := t.sendQueue[|s.sendQueue|];
    assert t.sendQueue == s.sendQueue + [e];
    SentSnoc(s.sendQueue, e);
    assert SentFrame(e) == Held(s.app) && Held(t.app) == [];
    var q, r := SentFrames(s.sendQueue), ReceivedFrames(s.receiveQueue) + s.input;
    assert q + (Held(s.app) + r) == q + Held(s.app) + ([] + r);
    assert e in t.sendQueue;
  }

  lemma NoFrames()
    ensures SentFrames([]) == [] && ReceivedFrames([]) == []
  {
  }

  lemma NoneHeld(app: App)
    ensures !app.Holding? ==> Held(app) == []
    ensures SentFrame(AppDone) == []
  {
  }

  lemma ConsumeLive(s: State, client: seq<Frame>, utf8: Utf8)
    requires Live(s, client) && Enabled(s, Consume)
    ensures var t := Apply(s, Consume, utf8);
      && (t.consumer == Consuming ==> Live(t, client))
      && (t.consumer == Finished ==> t.yielded == client && t.pump == AtEof)
      && t.yielded <= client
  {
    hide ReceivedFrames, SentFrame, Held;
    var t := Apply(s, Consume, utf8);
    var e := s.sendQueue[0];
    assert s.sendQueue == [e] + s.sendQueue[1..];
    NoneHeld(s.app);
    var q, r := SentFrames(s.sendQueue[1..]), Held(s.app) + (ReceivedFrames(s.receiveQueue) + s.input);
    assert s.yielded + (SentFrame(e) + q + r) == s.yielded + SentFrame(e) + (q + r);
    if e == AppDone {
      assert s.sendQueue[1..] == [];
      NoFrames();
      assert s.yielded + [] == s.yielded;
    }
  }

  lemma StepInv(s: State, step: Step, client: seq<Frame>, utf8: Utf8)
    requires Inv(s, client, utf8) && Enabled(s, step)
    ensures Inv(Apply(s, step, utf8), client, utf8)
  {
    hide Live, Decodes, InFlight, InputInv;
    InputStep(s, step, client, utf8);
    if s.consumer == Consuming {
      match step
      case PumpNext => PumpLive(s, client, utf8);
      case AppGets => GetsLive(s, client, utf8);
      case AppPuts => PutsLive(s, client, utf8);
      case Consume => ConsumeLive(s, client, utf8);
      case _ =>
    }
  }

  lemma {:induction false} RunInv(s: State, steps: seq<Step>, client: seq<Frame>, utf8: Utf8)
    requires Inv(s, client, utf8) && Possible(s, steps, utf8)
    ensures Inv(Run(s, steps, utf8), client, utf8)
    decreases |steps|
  {
    hide Inv, Enabled, Apply;
    if steps != [] {
      StepInv(s, steps[0], client, utf8);
      RunInv(Apply(s, steps[0], utf8), steps[1..], client, utf8);
    }
  }

  lemma InitInv(client: seq<Frame>, utf8: Utf8)
    ensures Inv(Init(client), client, utf8)
  {
    assert [Connect][1..] == [];
    assert ReceivedFrames([Connect]) == ReceivedFrame(Connect) + ReceivedFrames([]);
    assert InFlight(Init(client)) == client;
    assert [] + client == client;
  }

  // ---------------------------------------------------------------------------------------
  // Main results
  // ---------------------------------------------------------------------------------------

  /**
   * In every reachable state of every interleaving the yielded frames are a prefix of the client's
   * frames, and they are all of them when the consumer stops on the sentinel; while it runs no
   * frame is lost, duplicated or reordered.
   */
  lemma EchoSafety(client: seq<Frame>, steps: seq<Step>, utf8: Utf8)
    requires Possible(Init(client), steps, utf8)
    ensures var s := Run(Init(client), steps, utf8);
      && s.yielded <= client
      && (s.consumer == Consuming ==> s.yielded + InFlight(s) == client)
      && (s.consumer == Finished ==> s.yielded == client)
  {
    hide Run, Possible, InFlight;
    InitInv(client, utf8);
    RunInv(Init(client), steps, client, utf8);
  }

  /** Steps that are not cancellations. */
  predicate Forward(step: Step) {
    step == PumpNext || step == AppGets || step == AppPuts || step == Consume
  }

  /** Work left: how many awaits every frame and event still has to pass. */
  function Work(s: State): nat {
    4 * |s.input| + (if s.pump == Reading then 4 else 0) + 3 * |s.receiveQueue| +
    (if s.app == Accepting || s.app.Holding? || s.app == Returning then 2 else 0) + |s.sendQueue|
  }

  lemma {:induction false} ForwardRun(s: State, steps: seq<Step>, utf8: Utf8)
    requires Possible(s, steps, utf8) && s.consumer != Cancelled && forall step <- steps :: Forward(step)
    ensures |steps| + Work(Run(s, steps, utf8)) <= Work(s)
    ensures Run(s, steps, utf8).consumer != Cancelled
    decreases |steps|
  {
    if steps != [] {
      assert Forward(steps[0]);
      assert Work(Apply(s, steps[0], utf8)) < Work(s);
      ForwardRun(Apply(s, steps[0], utf8), steps[1..], utf8);
    }
  }

  /** No step but a cancellation is possible. */
  predicate Stuck(s: State) {
    forall step: Step :: Forward(step) ==> !Enabled(s, step)
  }

  lemma StuckMeansCrash(s: State, client: seq<Frame>)
    requires Live(s, client) && s.consumer == Consuming && Stuck(s)
    ensures s.pump == Crashed
  {
    hide InFlight;
    assert !Enabled(s, PumpNext) && !Enabled(s, AppGets) && !Enabled(s, AppPuts) && !Enabled(s, Consume);
  }

  lemma AtRest(s: State, client: seq<Frame>, utf8: Utf8)
    requires Inv(s, client, utf8) && s.consumer != Cancelled && Stuck(s)
    ensures s.consumer == Finished <==> forall i :: 0 <= i < |client| ==> Decodes(client[i], utf8)
  {
    hide Live, Stuck, Decodes;
    if s.consumer == Consuming {
      StuckMeansCrash(s, client);
      assert s.input[0] == client[|client| - |s.input|];
    }
  }

  lemma InitWork(client: seq<Frame>)
    ensures Work(Init(client)) == 4 * |client| + 7
  {
  }

  /**
   * Without cancellation every interleaving comes to rest within a bound given by the client's
   * frames, and at rest the echo is complete if and only if every text frame decodes: the first
   * one that does not kills the pump, and the connection hangs.
   */
  lemma CompletesIff(client: seq<Frame>, steps: seq<Step>, utf8: Utf8)
    requires Possible(Init(client), steps, utf8) && forall step <- steps :: Forward(step)
    ensures |steps| <= 4 * |client| + 7
    ensures var s := Run(Init(client), steps, utf8);
      Stuck(s) ==> (s.consumer == Finished <==> forall i :: 0 <= i < |client| ==> Decodes(client[i], utf8))
    ensures var s := Run(Init(client), steps, utf8);
      s.consumer == Finished ==> s.yielded == client
  {
    hide Inv, Run, Possible, Stuck, Work, Forward, Decodes;
    InitInv(client, utf8);
    InitWork(client);
    RunInv(Init(client), steps, client, utf8);
    ForwardRun(Init(client), steps, utf8);
    EchoSafety(client, steps, utf8);
    var s := Run(Init(client), steps, utf8);
    if Stuck(s) { AtRest(s, client, utf8); }
  }

  lemma StepsUnfold(s: State, step: Step, steps: seq<Step>, utf8: Utf8)
    requires Enabled(s, step) && Possible(Apply(s, step, utf8), steps, utf8)
    ensures Possible(s, [step] + steps, utf8)
    ensures Run(s, [step] + steps, utf8) == Run(Apply(s, step, utf8), steps, utf8)
  {
    hide Enabled, Apply;
    assert ([step] + steps)[1..] == steps;
  }

  /** The states a connection with one text frame that does not decode goes through. */
  lemma BadTextSteps(text: bytes, utf8: Utf8)
    requires !utf8(text)
    ensures var s0 := Init([Frame(text, false)]); var s1 := s0.(pump := Crashed);
      var s2 := s1.(receiveQueue := [], app := Accepting); var s3 := s2.(sendQueue := [Accept], app := Waiting);
      && Enabled(s0, PumpNext) && Apply(s0, PumpNext, utf8) == s1
      && Enabled(s1, AppGets) && Apply(s1, AppGets, utf8) == s2
      && Enabled(s2, AppPuts) && Apply(s2, AppPuts, utf8) == s3
      && Enabled(s3, Consume) && Apply(s3, Consume, utf8) == s3.(sendQueue := []) && Stuck(s3.(sendQueue := []))
  {
  }

  /** An input on which the connection hangs: a text frame that does not decode. */
  lemma BadTextHangs(text: bytes, utf8: Utf8)
    requires !utf8(text)
    ensures var steps := [PumpNext, AppGets, AppPuts, Consume];
      && Possible(Init([Frame(text, false)]), steps, utf8)
      && var s := Run(Init([Frame(text, false)]), steps, utf8);
         Stuck(s) && s.consumer == Consuming && s.yielded == []
  {
    hide Enabled, Apply, Stuck;
    BadTextSteps(text, utf8);
    var s0 := Init([Frame(text, false)]);
    var s1 := s0.(pump := Crashed);
    var s2 := s1.(receiveQueue := [], app := Accepting);
    var s3 := s2.(sendQueue := [Accept], app := Waiting);
    StepsUnfold(s3, Consume, [], utf8);
    StepsUnfold(s2, AppPuts, [Consume], utf8);
    StepsUnfold(s1, AppGets, [AppPuts, Consume], utf8);
    StepsUnfold(s0, PumpNext, [AppGets, AppPuts, Consume], utf8);
    assert [PumpNext] + [AppGets, AppPuts, Consume] == [PumpNext, AppGets, AppPuts, Consume];
    assert [AppGets] + [AppPuts, Consume] == [AppGets, AppPuts, Consume] && [AppPuts] + [Consume] == [AppPuts, Consume];
    assert [Consume] + [] == [Consume];
  }

  predicate FromClient(e: Received, client: seq<Frame>) {
    && (e.ReceiveText? ==> Frame(e.text, false) in client)
    && (e.ReceiveBytes? ==> Frame(e.data, true) in client)
  }

  predicate ForClient(e: Sent, client: seq<Frame>) {
    e.Send? ==>
      && (e.text.Some? != e.data.Some?)
      && (e.text.Some? ==> Frame(e.text.value, false) in client)
      && (e.data.Some? ==> Frame(e.data.value, true) in client)
  }

  /** Every entry of the queues is of the kind of the client's frame it came from. */
  ghost predicate KindsKept(s: State, client: seq<Frame>) {
    && (forall e <- s.receiveQueue :: FromClient(e, client))
    && (s.app.Holding? ==> FromClient(s.app.event, client))
    && (forall e <- s.sendQueue :: ForClient(e, client))
    && (forall f <- s.input :: f in client)
  }

  lemma KindsStep(s: State, step: Step, client: seq<Frame>, utf8: Utf8)
    requires KindsKept(s, client) && Enabled(s, step)
    ensures KindsKept(Apply(s, step, utf8), client)
  {
    hide SentFrame, Decodes;
    if step == PumpNext && s.input != [] {
      assert s.input[0] in s.input;
    } else if step == AppGets {
      assert s.receiveQueue[0] in s.receiveQueue;
    }
  }

  lemma {:induction false} KindsRun(s: State, steps: seq<Step>, client: seq<Frame>, utf8: Utf8)
    requires KindsKept(s, client) && Possible(s, steps, utf8)
    ensures KindsKept(Run(s, steps, utf8), client)
    decreases |steps|
  {
    hide KindsKept, Enabled, Apply;
    if steps != [] {
      KindsStep(s, steps[0], client, utf8);
      KindsRun(Apply(s, steps[0], utf8), steps[1..], client, utf8);
    }
  }

  /**
   * In every reachable state what the application receives as text came as a text frame, what it
   * receives as bytes came as a binary frame, and what it sends has exactly the key of its kind.
   */
  lemma TextStaysText(client: seq<Frame>, steps: seq<Step>, utf8: Utf8)
    requires Possible(Init(client), steps, utf8)
    ensures var s := Run(Init(client), steps, utf8);
      && (forall e <- s.receiveQueue ::
            (e.ReceiveText? ==> Frame(e.text, false) in client) && (e.ReceiveBytes? ==> Frame(e.data, true) in client))
      && (forall e <- s.sendQueue :: e.Send? ==>
            && (e.text.Some? != e.data.Some?)
            && (e.text.Some? ==> Frame(e.text.value, false) in client)
            && (e.data.Some? ==> Frame(e.data.value, true) in client))
  {
    hide Run, Possible;
    KindsRun(Init(client), steps, client, utf8);
  }

  /**
   * What the consumer makes of the first entry: text, if there is any, as a text frame, otherwise
   * bytes as a binary frame, anything else as none; the sentinel and a close event stop it.
   */
  lemma ConsumeYields(s: State, utf8: Utf8)
    requires Enabled(s, Consume)
    ensures var t, e := Apply(s, Consume, utf8), s.sendQueue[0];
      && t.sendQueue == s.sendQueue[1..]
      && (t.consumer == Finished <==> e == AppDone || e == Close)
      && (e.Send? && e.text != None ==> t.yielded == s.yielded + [Frame(e.text.value, false)])
      && (e.Send? && e.text == None && e.data != None ==> t.yielded == s.yielded + [Frame(e.data.value, true)])
      && (!e.Send? || (e.text == None && e.data == None) ==> t.yielded == s.yielded)
  {
    assert s.yielded + [] == s.yielded;
  }
}
