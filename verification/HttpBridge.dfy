/**
 * The streaming HTTP servicer: a pump task, the application task and the consumer, joined by two
 * unbounded FIFO queues. Every await point is a step, and runs are all interleavings of steps.
 */
module HttpBridge {
  import opened Bytes

  /** Messages of the request stream behind the request headers. */
  datatype Msg = BodyChunk(data: bytes, endOfStream: bool) | Other

  /** `http.request` events for the application. */
  datatype Request = Request(body: bytes, more: bool)

  /** Events the application sends; absent keys are `None`. */
  datatype Event =
    | Start(status: Option<nat>, headers: Option<seq<Header>>)
    | Body(data: Option<bytes>, more: Option<bool>)
    | Disconnect
    | Unknown

  /** Entries of the send queue: events or the sentinel. */
  datatype Item = App(event: Event) | AppDone

  datatype Chunk = ResponseHeaders(status: nat, headers: seq<Header>) | ResponseBody(data: bytes, endOfStream: bool)

  datatype Pump = Reading | AtEof | PumpStopped
  datatype Task = Running | Ended | Dropped
  datatype Consumer = Consuming | Finished | Cancelled

  /**
   * `taken`, `history`, `received` and `consumed` record what was read from the request stream,
   * put on the send queue, and got from the two queues.
   */
  datatype State = State(
    input: seq<Msg>,
    taken: seq<Msg>,
    pump: Pump,
    receiveQueue: seq<Request>,
    received: seq<Request>,
    app: Task,
    sendQueue: seq<Item>,
    history: seq<Item>,
    consumed: seq<Item>,
    consumer: Consumer,
    yielded: seq<Chunk>)

  function Init(input: seq<Msg>): State {
    State(input, [], Reading, [], [], Running, [], [], [], Consuming, [])
  }

  // ---------------------------------------------------------------------------------------
  // Steps
  // ---------------------------------------------------------------------------------------

  datatype Step =
    | PumpNext            // the pump reads one message, or the end of the stream
    | PumpStops           // the pump is cancelled or its stream fails
    | AppReceives
    | AppSends(event: Event)
    | AppEnds             // the application returns, raises or is cancelled
    | AppDropped          // the task is cancelled before it ever ran
    | Consume
    | Cancel              // the call is cancelled at an await of the consumer

  predicate Enabled(s: State, step: Step) {
    match step
    case PumpNext => s.pump == Reading
    case PumpStops => s.pump == Reading
    case AppReceives => s.app == Running && s.receiveQueue != []
    case AppSends(_) => s.app == Running
    case AppEnds => s.app == Running
    case AppDropped => s.app == Running && s.consumer != Consuming
    case Consume => s.consumer == Consuming && s.sendQueue != []
    case Cancel => s.consumer == Consuming
  }

  /** The entries at which the consumer's loop breaks. */
  predicate Stops(item: Item) {
    item.AppDone? || item.event.Disconnect? || (item.event.Body? && !item.event.more.GetOr(false))
  }

  /** What the consumer yields for one entry. */
  function Out(item: Item): seq<Chunk> {
    match item
    case App(Start(status, headers)) => [ResponseHeaders(status.GetOr(200), headers.GetOr([]))]
    case App(Body(data, more)) =>
      if data.GetOr([]) != [] || !more.GetOr(false)
      then [ResponseBody(data.GetOr([]), !more.GetOr(false))]
      else []
    case _ => []
  }

  function Apply(s: State, step: Step): State
    requires Enabled(s, step)
  {
    match step
    case PumpNext =>
      if s.input == [] then
        s.(pump := AtEof, receiveQueue := s.receiveQueue + [Request([], false)])
      else
        var m := s.input[0];
        var t := s.(input := s.input[1..], taken := s.taken + [m]);
        if m.Other? then t
        else t.(receiveQueue := t.receiveQueue + [Request(m.data, !m.endOfStream)],
                pump := if m.endOfStream then PumpStopped else Reading)
    case PumpStops => s.(pump := PumpStopped)
    case AppReceives =>
      s.(receiveQueue := s.receiveQueue[1..], received := s.received + [s.receiveQueue[0]])
    case AppSends(event) =>
      s.(sendQueue := s.sendQueue + [App(event)], history := s.history + [App(event)])
    case AppEnds =>
      s.(app := Ended, sendQueue := s.sendQueue + [AppDone], history := s.history + [AppDone])
    case AppDropped => s.(app := Dropped)
    case Consume =>
      var item := s.sendQueue[0];
      s.(sendQueue := s.sendQueue[1..], consumed := s.consumed + [item],
         yielded := s.yielded + Out(item),
         consumer := if Stops(item) then Finished else Consuming)
    case Cancel => s.(consumer := Cancelled)
  }

  predicate Possible(s: State, steps: seq<Step>)
    decreases |steps|
  {
    steps == [] || (Enabled(s, steps[0]) && Possible(Apply(s, steps[0]), steps[1..]))
  }

  function Run(s: State, steps: seq<Step>): State
    requires Possible(s, steps)
    decreases |steps|
  {
    if steps == [] then s else Run(Apply(s, steps[0]), steps[1..])
  }

  // ---------------------------------------------------------------------------------------
  // The servicer's queues, updated in place
  // ---------------------------------------------------------------------------------------

  class Process {
    var input: seq<Msg>
    var taken: seq<Msg>
    var pump: Pump
    var receiveQueue: seq<Request>
    var received: seq<Request>
    var app: Task
    var sendQueue: seq<Item>
    var history: seq<Item>
    var consumed: seq<Item>
    var consumer: Consumer
    var yielded: seq<Chunk>

    function View(): State
      reads this
    {
      State(input, taken, pump, receiveQueue, received, app, sendQueue, history, consumed, consumer, yielded)
    }

    constructor (messages: seq<Msg>)
      ensures View() == Init(messages)
    {
      input, taken, pump := messages, [], Reading;
      receiveQueue, received := [], [];
      app, sendQueue, history := Running, [], [];
      consumed, consumer, yielded := [], Consuming, [];
    }

    /** One turn of `_pump_body`. */
    method PumpBody()
      requires pump == Reading
      modifies this
      ensures View() == Apply(old(View()), PumpNext)
    {
      if input == [] {
        receiveQueue := receiveQueue + [Request([], false)];
        pump := AtEof;
        return;
      }
      var msg := input[0];
      input, taken := input[1..], taken + [msg];
      if msg.BodyChunk? {
        receiveQueue := receiveQueue + [Request(msg.data, !msg.endOfStream)];
        if msg.endOfStream { pump := PumpStopped; }
      }
    }

    /** `receive_queue.get`, called by the application. */
    method Receive() returns (event: Request)
      requires app == Running && receiveQueue != []
      modifies this
      ensures View() == Apply(old(View()), AppReceives) && event == old(receiveQueue)[0]
    {
      event := receiveQueue[0];
      receiveQueue := receiveQueue[1..];
      received := received + [event];
    }

    /** `send_queue.put`, called by the application. */
    method Send(event: Event)
      requires app == Running
      modifies this
      ensures View() == Apply(old(View()), AppSends(event))
    {
      sendQueue := sendQueue + [App(event)];
      history := history + [App(event)];
    }

    /** The `finally` of `_run_app`. */
    method FinishApp()
      requires app == Running
      modifies this
      ensures View() == Apply(old(View()), AppEnds)
    {
      app := Ended;
      sendQueue := sendQueue + [AppDone];
      history := history + [AppDone];
    }

    /** One turn of the consumer's loop. */
    method ConsumeOne()
      requires consumer == Consuming && sendQueue != []
      modifies this
      ensures View() == Apply(old(View()), Consume)
    {
      var item := sendQueue[0];
      sendQueue := sendQueue[1..];
      consumed := consumed + [item];
      if item.AppDone? {
        consumer := Finished;
        return;
      }
      var event := item.event;
      if event.Start? {
        yielded := yielded + [ResponseHeaders(event.status.GetOr(200), event.headers.GetOr([]))];
      } else if event.Body? {
        var data, more := event.data.GetOr([]), event.more.GetOr(false);
        if data != [] || !more {
          yielded := yielded + [ResponseBody(data, !more)];
        }
        if !more { consumer := Finished; }
      } else if event.Disconnect? {
        consumer := Finished;
      }
    }
  }

  // ---------------------------------------------------------------------------------------
  // Images
  // ---------------------------------------------------------------------------------------

  predicate HasStop(items: seq<Item>) {
    exists i :: 0 <= i < |items| && Stops(items[i])
  }

  /** What the response stream should carry: the entries' chunks through the first stop. */
  function Image(items: seq<Item>): seq<Chunk> {
    if items == [] then []
    else Out(items[0]) + if Stops(items[0]) then [] else Image(items[1..])
  }

  lemma HasStopAppend(a: seq<Item>, b: seq<Item>)
    ensures HasStop(a + b) <==> HasStop(a) || HasStop(b)
  {
    hide Stops;
    if i :| 0 <= i < |a| && Stops(a[i]) { assert Stops((a + b)[i]); }
    if i :| 0 <= i < |b| && Stops(b[i]) { assert Stops((a + b)[|a| + i]); }
    if i :| 0 <= i < |a + b| && Stops((a + b)[i]) {
      if i < |a| { assert Stops(a[i]); } else { assert Stops(b[i - |a|]); }
    }
  }

  lemma {:induction false} ImageAppend(a: seq<Item>, b: seq<Item>)
    ensures Image(a + b) == if HasStop(a) then Image(a) else Image(a) + Image(b)
  {
    hide Out, Stops;
    if a == [] {
      assert a + b == b;
    } else {
      assert a == [a[0]] + a[1..];
      assert (a + b)[1..] == a[1..] + b;
      HasStopAppend([a[0]], a[1..]);
      assert HasStop([a[0]]) <==> Stops([a[0]][0]);
      ImageAppend(a[1..], b);
    }
  }

  /** The bytes of the body events through the first stop. */
  function BodyBytes(items: seq<Item>): bytes {
    if items == [] then []
    else
      (if items[0].App? && items[0].event.Body? then items[0].event.data.GetOr([]) else []) +
      if Stops(items[0]) then [] else BodyBytes(items[1..])
  }

  function DataOf(chunks: seq<Chunk>): bytes {
    if chunks == [] then []
    else (if chunks[0].ResponseBody? then chunks[0].data else []) + DataOf(chunks[1..])
  }

  lemma {:induction false} DataAppend(a: seq<Chunk>, b: seq<Chunk>)
    ensures DataOf(a + b) == DataOf(a) + DataOf(b)
  {
    if a == [] {
      assert a + b == b;
    } else {
      assert (a + b)[1..] == a[1..] + b;
      DataAppend(a[1..], b);
    }
  }

  /** Body bytes are conserved although empty non-final chunks are dropped. */
  lemma {:induction false} BytesConserved(items: seq<Item>)
    ensures DataOf(Image(items)) == BodyBytes(items)
  {
    if items != [] {
      BytesConserved(items[1..]);
      var out := Out(items[0]);
      DataAppend(out, if Stops(items[0]) then [] else Image(items[1..]));
      if out != [] {
        assert out[1..] == [];
        assert DataOf(out) == (if out[0].ResponseBody? then out[0].data else []) + [];
      }
    }
  }

  /** No chunk but the last ends the stream. */
  predicate EndsOnce(chunks: seq<Chunk>) {
    forall i :: 0 <= i < |chunks| - 1 ==> !(chunks[i].ResponseBody? && chunks[i].endOfStream)
  }

  lemma {:induction false} ImageEndsOnce(items: seq<Item>)
    ensures EndsOnce(Image(items))
  {
    if items != [] {
      ImageEndsOnce(items[1..]);
      assert !Stops(items[0]) ==> Image(items) == Out(items[0]) + Image(items[1..]);
    }
  }

  /** The requests the application should see for the messages read. */
  function Requests(ms: seq<Msg>): seq<Request> {
    if ms == [] then []
    else
      var m := ms[|ms| - 1];
      Requests(ms[..|ms| - 1]) + if m.Other? then [] else [Request(m.data, !m.endOfStream)]
  }

  /** Only the last request can be final. */
  predicate FinalLast(rs: seq<Request>) {
    forall i :: 0 <= i < |rs| - 1 ==> rs[i].more
  }

  // ---------------------------------------------------------------------------------------
  // Invariant
  // ---------------------------------------------------------------------------------------

  ghost predicate ConsumerInv(s: State) {
    && s.history == s.consumed + s.sendQueue
    && s.yielded == Image(s.consumed)
    && (s.consumer == Consuming ==> !HasStop(s.consumed))
    && (s.consumer == Finished ==> HasStop(s.consumed))
    && (forall i :: 0 <= i < |s.consumed| - 1 ==> !Stops(s.consumed[i]))
    && (s.app == Running ==> AppDone !in s.history)
    && (s.app == Ended ==> s.history != [] && s.history[|s.history| - 1] == AppDone)
    && (s.app == Dropped ==> s.consumer != Consuming)
  }

  ghost predicate PumpInv(s: State, input: seq<Msg>) {
    && input == s.taken + s.input
    && s.received + s.receiveQueue == Requests(s.taken) + (if s.pump == AtEof then [Request([], false)] else [])
    && (s.pump == Reading || s.pump == AtEof ==> forall r <- Requests(s.taken) :: r.more)
    && FinalLast(s.received + s.receiveQueue)
    && (s.pump == AtEof ==> s.input == [])
  }

  lemma ImageOfOne(item: Item)
    ensures Image([item]) == Out(item) && (HasStop([item]) <==> Stops(item))
  {
    assert [item][1..] == [] && Out(item) + [] == Out(item);
    assert HasStop([item]) <==> Stops([item][0]);
  }

  /** Taking the first entry of the queue moves it behind the consumed ones. */
  lemma FirstMoved(consumed: seq<Item>, queue: seq<Item>)
    requires queue != []
    ensures consumed + queue == consumed + [queue[0]] + queue[1..]
  {
    assert queue == [queue[0]] + queue[1..];
  }

  lemma NoStopSoFar(items: seq<Item>)
    requires !HasStop(items)
    ensures forall i :: 0 <= i < |items| ==> !Stops(items[i])
  {
  }

  lemma ConsumeStep(s: State)
    requires ConsumerInv(s) && Enabled(s, Consume)
    ensures ConsumerInv(Apply(s, Consume))
  {
    hide Out, Stops, Image, HasStop;
    var item := s.sendQueue[0];
    ImageAppend(s.consumed, [item]);
    HasStopAppend(s.consumed, [item]);
    ImageOfOne(item);
    FirstMoved(s.consumed, s.sendQueue);
    NoStopSoFar(s.consumed);
  }

  lemma QueuedBehind(s: State, item: Item)
    requires s.history == s.consumed + s.sendQueue
    ensures s.history + [item] == s.consumed + (s.sendQueue + [item])
  {
  }

  lemma SendStep(s: State, event: Event)
    requires ConsumerInv(s) && s.app == Running
    ensures ConsumerInv(Apply(s, AppSends(event)))
  {
    hide Out, Stops, Image, HasStop;
    QueuedBehind(s, App(event));
  }

  lemma EndStep(s: State)
    requires ConsumerInv(s) && s.app == Running
    ensures ConsumerInv(Apply(s, AppEnds))
  {
    hide Out, Stops, Image, HasStop;
    QueuedBehind(s, AppDone);
  }

  /** A step that touches neither queue of the consumer. */
  lemma QuietStep(s: State, t: State)
    requires ConsumerInv(s)
    requires t.history == s.history && t.consumed == s.consumed && t.sendQueue == s.sendQueue && t.yielded == s.yielded
    requires t.app == s.app || (t.app == Dropped && s.consumer != Consuming)
    requires t.consumer == s.consumer || t.consumer == Cancelled
    ensures ConsumerInv(t)
  {
    hide Out, Stops, Image, HasStop;
  }

  lemma ConsumerStep(s: State, step: Step)
    requires ConsumerInv(s) && Enabled(s, step)
    ensures ConsumerInv(Apply(s, step))
  {
    hide ConsumerInv, Out, Stops, Image, HasStop;
    match step
    case Consume => ConsumeStep(s);
    case AppSends(event) => SendStep(s, event);
    case AppEnds => EndStep(s);
    case _ => QuietStep(s, Apply(s, step));
  }

  lemma RequestsSnoc(ms: seq<Msg>, m: Msg)
    ensures Requests(ms + [m]) == Requests(ms) + if m.Other? then [] else [Request(m.data, !m.endOfStream)]
  {
    assert (ms + [m])[..|ms|] == ms;
  }

  /** What is received and queued grows by one request at the end. */
  lemma QueueGrows(s: State, r: Request)
    ensures s.received + (s.receiveQueue + [r]) == (s.received + s.receiveQueue) + [r]
    ensures FinalLast(s.received + s.receiveQueue) && (forall q <- s.received + s.receiveQueue :: q.more) ==>
      FinalLast(s.received + s.receiveQueue + [r])
  {
    var all := s.received + s.receiveQueue;
    assert forall i :: 0 <= i < |all| ==> (all + [r])[i] in all;
  }

  lemma PumpReads(s: State, input: seq<Msg>)
    requires PumpInv(s, input) && s.pump == Reading && s.input != []
    ensures PumpInv(Apply(s, PumpNext), input)
  {
    hide Requests, FinalLast;
    var m := s.input[0];
    RequestsSnoc(s.taken, m);
    assert s.input == [m] + s.input[1..];
    assert s.taken + ([m] + s.input[1..]) == s.taken + [m] + s.input[1..];
    assert Requests(s.taken) + [] == Requests(s.taken);
    if m.BodyChunk? { QueueGrows(s, Request(m.data, !m.endOfStream)); }
  }

  lemma PumpEnds(s: State, input: seq<Msg>)
    requires PumpInv(s, input) && s.pump == Reading && s.input == []
    ensures PumpInv(Apply(s, PumpNext), input)
  {
    hide Requests, FinalLast;
    assert Requests(s.taken) + [] == Requests(s.taken);
    QueueGrows(s, Request([], false));
  }

  lemma PumpStep(s: State, step: Step, input: seq<Msg>)
    requires PumpInv(s, input) && Enabled(s, step)
    ensures PumpInv(Apply(s, step), input)
  {
    hide Out, Stops, Requests, FinalLast;
    match step
    case PumpNext => if s.input == [] { PumpEnds(s, input); } else { PumpReads(s, input); }
    case AppReceives =>
      assert s.receiveQueue == [s.receiveQueue[0]] + s.receiveQueue[1..];
      assert s.received + [s.receiveQueue[0]] + s.receiveQueue[1..] == s.received + s.receiveQueue;
    case PumpStops => assert Requests(s.taken) + [] == Requests(s.taken);
    case _ =>
  }

  lemma {:induction false} RunInv(s: State, steps: seq<Step>, input: seq<Msg>)
    requires ConsumerInv(s) && PumpInv(s, input) && Possible(s, steps)
    ensures ConsumerInv(Run(s, steps)) && PumpInv(Run(s, steps), input)
    decreases |steps|
  {
    hide ConsumerInv, PumpInv, Apply, Enabled;
    if steps != [] {
      ConsumerStep(s, steps[0]);
      PumpStep(s, steps[0], input);
      RunInv(Apply(s, steps[0]), steps[1..], input);
    }
  }

  lemma InitInv(input: seq<Msg>)
    ensures ConsumerInv(Init(input)) && PumpInv(Init(input), input)
  {
    assert [] + input == input;
  }

  // ---------------------------------------------------------------------------------------
  // Safety over all interleavings
  // ---------------------------------------------------------------------------------------

  /**
   * In every reachable state the yielded chunks are a prefix of the image of everything the
   * application has sent, cut at the first final body; they are all of it once the loop has
   * broken. One chunk at most ends the stream, as the last one, and body bytes are conserved.
   */
  lemma ResponseSafety(input: seq<Msg>, steps: seq<Step>)
    requires Possible(Init(input), steps)
    ensures var s := Run(Init(input), steps);
      && s.yielded <= Image(s.history)
      && (s.consumer == Finished ==> s.yielded == Image(s.history))
      && EndsOnce(s.yielded)
      && DataOf(s.yielded) == BodyBytes(s.consumed)
      && (s.consumer == Finished ==> DataOf(s.yielded) == BodyBytes(s.history))
  {
    hide Out, Stops, Image, BodyBytes, DataOf, EndsOnce, Run, Possible, HasStop;
    InitInv(input);
    RunInv(Init(input), steps, input);
    var s := Run(Init(input), steps);
    ImageAppend(s.consumed, s.sendQueue);
    ImageEndsOnce(s.consumed);
    BytesConserved(s.consumed);
    BytesConserved(s.history);
  }

  /**
   * In every reachable state the application has seen a prefix of the request chunks, in order;
   * only the last one can be final, and what it has not seen yet is queued.
   */
  lemma RequestSafety(input: seq<Msg>, steps: seq<Step>)
    requires Possible(Init(input), steps)
    ensures var s := Run(Init(input), steps);
      && s.taken <= input
      && s.received + s.receiveQueue == Requests(s.taken) + (if s.pump == AtEof then [Request([], false)] else [])
      && FinalLast(s.received) && FinalLast(s.received + s.receiveQueue)
      && (s.pump == AtEof ==> s.taken == input)
  {
    hide Run, Possible, Requests;
    InitInv(input);
    RunInv(Init(input), steps, input);
    var s := Run(Init(input), steps);
    assert s.taken + [] == s.taken;
    assert forall i :: 0 <= i < |s.received| ==> s.received[i] == (s.received + s.receiveQueue)[i];
  }

  // ---------------------------------------------------------------------------------------
  // Which entry gives which chunk
  // ---------------------------------------------------------------------------------------

  /** The chunk that answers a start or a body event; status 200 and emptiness where keys are absent. */
  predicate Answers(item: Item, chunk: Chunk) {
    item.App? &&
    match item.event
    case Start(status, headers) =>
      && chunk.ResponseHeaders?
      && chunk.status == (if status == None then 200 else status.value)
      && chunk.headers == (if headers == None then [] else headers.value)
    case Body(data, more) =>
      && chunk.ResponseBody?
      && chunk.data == (if data == None then [] else data.value)
      && (chunk.endOfStream <==> more != Some(true))
    case _ => false
  }

  /** Starts and final bodies are always answered, other bodies when they carry bytes. */
  predicate NeedsAnswer(item: Item) {
    item.App? &&
    match item.event
    case Start(_, _) => true
    case Body(data, more) => more != Some(true) || (data != None && data.value != [])
    case _ => false
  }

  /** Chunk `k` answers entry `origin[k]`, in order. */
  ghost predicate Origins(items: seq<Item>, chunks: seq<Chunk>, origin: seq<nat>) {
    && |origin| == |chunks|
    && (forall k :: 0 <= k < |origin| ==> origin[k] < |items| && Answers(items[origin[k]], chunks[k]))
    && (forall j, k :: 0 <= j < k < |origin| ==> origin[j] < origin[k])
  }

  /** Exactly the entries that need an answer have one. */
  ghost predicate Covered(items: seq<Item>, origin: seq<nat>) {
    forall i :: 0 <= i < |items| ==> (NeedsAnswer(items[i]) <==> i in origin)
  }

  ghost predicate Explained(items: seq<Item>, chunks: seq<Chunk>, origin: seq<nat>) {
    Origins(items, chunks, origin) && Covered(items, origin)
  }

  lemma OneAnswer(item: Item)
    ensures |Out(item)| == if NeedsAnswer(item) then 1 else 0
    ensures NeedsAnswer(item) ==> Answers(item, Out(item)[0])
  {
  }

  lemma NoneStops(items: seq<Item>)
    requires forall i :: 0 <= i < |items| ==> !Stops(items[i])
    ensures !HasStop(items)
  {
  }

  lemma OriginsSnoc(items: seq<Item>, chunks: seq<Chunk>, before: seq<nat>, last: Item, chunk: Chunk)
    requires Origins(items, chunks, before) && Answers(last, chunk)
    ensures Origins(items + [last], chunks + [chunk], before + [|items|])
  {
    hide Answers;
    var all, now := items + [last], before + [|items|];
    assert forall k :: 0 <= k < |before| ==> now[k] == before[k] && all[before[k]] == items[before[k]];
  }

  lemma OriginsSame(items: seq<Item>, chunks: seq<Chunk>, before: seq<nat>, last: Item)
    requires Origins(items, chunks, before)
    ensures Origins(items + [last], chunks, before)
  {
    hide Answers;
  }

  lemma CoveredSnoc(items: seq<Item>, chunks: seq<Chunk>, before: seq<nat>, last: Item)
    requires Covered(items, before) && Origins(items, chunks, before)
    ensures Covered(items + [last], if NeedsAnswer(last) then before + [|items|] else before)
  {
    hide Answers, NeedsAnswer;
    var all := items + [last];
    var now := if NeedsAnswer(last) then before + [|items|] else before;
    assert forall i <- before :: i < |items|;
    forall i | 0 <= i < |all| ensures NeedsAnswer(all[i]) <==> i in now {
      assert i in now <==> i in before || (NeedsAnswer(last) && i == |items|);
      if i < |items| { assert NeedsAnswer(items[i]) <==> i in before; }
    }
  }

  lemma ExplainedSnoc(items: seq<Item>, chunks: seq<Chunk>, before: seq<nat>, last: Item, out: seq<Chunk>)
    requires Explained(items, chunks, before)
    requires |out| == (if NeedsAnswer(last) then 1 else 0) && (NeedsAnswer(last) ==> Answers(last, out[0]))
    ensures Explained(items + [last], chunks + out, if NeedsAnswer(last) then before + [|items|] else before)
  {
    hide Answers, NeedsAnswer, Origins, Covered;
    CoveredSnoc(items, chunks, before, last);
    if NeedsAnswer(last) {
      assert out == [out[0]];
      OriginsSnoc(items, chunks, before, last, out[0]);
    } else {
      assert chunks + out == chunks;
      OriginsSame(items, chunks, before, last);
    }
  }

  lemma {:induction false} ExplainImage(items: seq<Item>) returns (origin: seq<nat>)
    requires forall i :: 0 <= i < |items| - 1 ==> !Stops(items[i])
    ensures Explained(items, Image(items), origin)
  {
    hide Out, Stops, Answers, NeedsAnswer;
    if items == [] {
      origin := [];
    } else {
      var init, last := items[..|items| - 1], items[|items| - 1];
      assert items == init + [last];
      var before := ExplainImage(init);
      NoneStops(init);
      ImageAppend(init, [last]);
      ImageOfOne(last);
      OneAnswer(last);
      origin := if NeedsAnswer(last) then before + [|init|] else before;
      ExplainedSnoc(init, Image(init), before, last, Out(last));
    }
  }

  /**
   * In every reachable state each chunk yielded answers an entry taken, in order, and every entry
   * taken that needs an answer has one: no start and no final body goes unanswered.
   */
  lemma ChunksExplained(input: seq<Msg>, steps: seq<Step>) returns (origin: seq<nat>)
    requires Possible(Init(input), steps)
    ensures Explained(Run(Init(input), steps).consumed, Run(Init(input), steps).yielded, origin)
  {
    hide Image, Run, Possible, Stops, HasStop, Explained, PumpInv;
    InitInv(input);
    RunInv(Init(input), steps, input);
    origin := ExplainImage(Run(Init(input), steps).consumed);
  }

  lemma NoIdleChunks(items: seq<Item>, chunks: seq<Chunk>, origin: seq<nat>)
    requires Explained(items, chunks, origin)
    ensures forall c <- chunks :: c.ResponseBody? ==> c.data != [] || c.endOfStream
  {
    forall c | c in chunks ensures c.ResponseBody? ==> c.data != [] || c.endOfStream {
      var k :| 0 <= k < |chunks| && chunks[k] == c;
      assert Answers(items[origin[k]], chunks[k]);
      assert origin[k] in origin;
      assert NeedsAnswer(items[origin[k]]);
    }
  }

  lemma LastAnswered(items: seq<Item>, chunks: seq<Chunk>, origin: seq<nat>)
    requires Explained(items, chunks, origin)
    ensures items != [] && NeedsAnswer(items[|items| - 1]) ==>
      chunks != [] && Answers(items[|items| - 1], chunks[|chunks| - 1])
  {
    hide Answers, NeedsAnswer;
    if items != [] && NeedsAnswer(items[|items| - 1]) {
      var n := |items| - 1;
      assert n in origin;
      var k :| 0 <= k < |origin| && origin[k] == n;
      var z := |origin| - 1;
      assert origin[z] < |items|;
      assert k == z;
    }
  }

  /**
   * In every reachable state body chunks carry bytes or end the stream, and a consumer that stopped
   * at a final body has yielded the chunk that ends the stream, with that body's bytes, last.
   */
  lemma FinalChunk(input: seq<Msg>, steps: seq<Step>)
    requires Possible(Init(input), steps)
    ensures var s := Run(Init(input), steps);
      && (forall c <- s.yielded :: c.ResponseBody? ==> c.data != [] || c.endOfStream)
      && (s.consumed != [] ==>
            match s.consumed[|s.consumed| - 1]
            case App(Body(data, more)) =>
              more != Some(true) ==>
                && s.yielded != []
                && s.yielded[|s.yielded| - 1] == ResponseBody(if data == None then [] else data.value, true)
            case _ => true)
  {
    hide Image, Run, Possible, PumpInv, Stops, Out, Explained;
    var origin := ChunksExplained(input, steps);
    var s := Run(Init(input), steps);
    NoIdleChunks(s.consumed, s.yielded, origin);
    LastAnswered(s.consumed, s.yielded, origin);
  }

  /**
   * In every reachable state the consumer has stopped on its own exactly if the last entry taken is
   * the sentinel, a disconnect, or a body without further ones announced, and no earlier one is.
   */
  lemma StopsWhere(input: seq<Msg>, steps: seq<Step>)
    requires Possible(Init(input), steps)
    ensures var s := Run(Init(input), steps);
      var ends := (item: Item) =>
        item == AppDone || item == App(Disconnect) || (item.App? && item.event.Body? && item.event.more != Some(true));
      && (s.consumer == Finished ==> s.consumed != [] && ends(s.consumed[|s.consumed| - 1]))
      && (s.consumer == Consuming ==> forall i :: 0 <= i < |s.consumed| ==> !ends(s.consumed[i]))
      && (forall i :: 0 <= i < |s.consumed| - 1 ==> !ends(s.consumed[i]))
  {
    hide Image, Run, Possible, PumpInv, Out;
    InitInv(input);
    RunInv(Init(input), steps, input);
  }

  predicate IsChunk(m: Msg) {
    m.BodyChunk?
  }

  lemma {:induction false} RequestsAre(ms: seq<Msg>)
    ensures var chunks := Keep(IsChunk, ms);
      && |Requests(ms)| == |chunks|
      && forall i :: 0 <= i < |chunks| ==>
           chunks[i].BodyChunk? && Requests(ms)[i] == Request(chunks[i].data, !chunks[i].endOfStream)
  {
    if ms != [] { RequestsAre(ms[..|ms| - 1]); }
  }

  /**
   * In every reachable state request event `i` of the application is body chunk `i` of the request,
   * its bytes and whether more follow; behind the last one there can be one empty final event.
   */
  lemma RequestsExplained(input: seq<Msg>, steps: seq<Step>)
    requires Possible(Init(input), steps)
    ensures var s := Run(Init(input), steps);
      var chunks := Keep(IsChunk, s.taken);
      && |s.received| <= |chunks| + 1
      && forall i :: 0 <= i < |s.received| ==>
           if i < |chunks| then
             && chunks[i].BodyChunk? && s.received[i].body == chunks[i].data
             && (s.received[i].more <==> !chunks[i].endOfStream)
           else s.received[i].body == [] && !s.received[i].more
  {
    hide Run, Possible, Requests, ConsumerInv, Keep;
    RequestSafety(input, steps);
    var s := Run(Init(input), steps);
    RequestsAre(s.taken);
    assert forall i :: 0 <= i < |s.received| ==> s.received[i] == (s.received + s.receiveQueue)[i];
  }

  function Consumes(steps: seq<Step>): nat {
    if steps == [] then 0 else (if steps[0] == Consume then 1 else 0) + Consumes(steps[1..])
  }

  lemma {:induction false} EndedQueue(s: State, steps: seq<Step>)
    requires ConsumerInv(s) && s.app == Ended && Possible(s, steps)
    ensures ConsumerInv(Run(s, steps)) && Run(s, steps).app == Ended
    ensures |Run(s, steps).sendQueue| + Consumes(steps) == |s.sendQueue|
    decreases |steps|
  {
    hide ConsumerInv;
    if steps != [] {
      ConsumerStep(s, steps[0]);
      EndedQueue(Apply(s, steps[0]), steps[1..]);
    }
  }

  /** A consumer that still runs after the end of the application has something to take. */
  lemma SentinelQueued(s: State)
    requires ConsumerInv(s) && s.app == Ended
    ensures s.consumer == Consuming ==> s.sendQueue != []
  {
    hide Image;
    assert Stops(s.history[|s.history| - 1]);
    assert s.consumed + [] == s.consumed;
  }

  /**
   * Once the application task has ended the consumer is never blocked, and it stops within the
   * length of the send queue, whatever else is interleaved.
   */
  lemma ConsumerStops(input: seq<Msg>, before: seq<Step>, behind: seq<Step>)
    requires Possible(Init(input), before) && Run(Init(input), before).app == Ended
    requires Possible(Run(Init(input), before), behind)
    ensures var s := Run(Init(input), before); var t := Run(s, behind);
      && Consumes(behind) <= |s.sendQueue|
      && (t.consumer == Consuming ==> Enabled(t, Consume) && Consumes(behind) < |s.sendQueue|)
  {
    hide ConsumerInv, PumpInv, Run, Possible;
    InitInv(input);
    RunInv(Init(input), before, input);
    var s := Run(Init(input), before);
    EndedQueue(s, behind);
    SentinelQueued(Run(s, behind));
  }

  // ---------------------------------------------------------------------------------------
  // The unary servicer
  // ---------------------------------------------------------------------------------------

  datatype Response = Response(status: nat, headers: seq<Header>, body: bytes)

  /** What the callbacks of the unary handler accumulate. */
  function Accumulate(r: Response, events: seq<Event>): Response
    decreases |events|
  {
    if events == [] then r
    else
      Accumulate(
        match events[0]
        case Start(status, headers) => r.(status := status.GetOr(200), headers := r.headers + headers.GetOr([]))
        case Body(data, _) => r.(body := r.body + data.GetOr([]))
        case _ => r,
        events[1..])
  }

  /**
   * `Handle`, for an application that sends `events` and then returns or raises; none stands for
   * an aborted call.
   */
  method Handle(events: seq<Event>, raises: bool) returns (response: Option<Response>)
    ensures response == if raises then None else Some(Accumulate(Response(200, [], []), events))
  {
    var status: nat, headers: seq<Header>, body: bytes := 200, [], [];
    assert events[0..] == events;
    for i := 0 to |events|
      invariant Accumulate(Response(status, headers, body), events[i..]) == Accumulate(Response(200, [], []), events)
    {
      var event := events[i];
      assert events[i..][0] == event && events[i..][1..] == events[i + 1..];
      if event.Start? {
        status := event.status.GetOr(200);
        headers := headers + event.headers.GetOr([]);
      } else if event.Body? {
        body := body + event.data.GetOr([]);
      }
    }
    if raises { return None; }
    assert events[|events|..] == [];
    response := Some(Response(status, headers, body));
  }

  /** The bytes of all body events. */
  function AllBodies(events: seq<Event>): bytes {
    if events == [] then []
    else
      AllBodies(events[..|events| - 1]) +
      match events[|events| - 1] case Body(Some(data), _) => data case _ => []
  }

  /** The headers of all start events. */
  function AllHeaders(events: seq<Event>): seq<Header> {
    if events == [] then []
    else
      AllHeaders(events[..|events| - 1]) +
      match events[|events| - 1] case Start(_, Some(headers)) => headers case _ => []
  }

  /** The status of the last start event; 200 without one, and where it names none. */
  function LastStatus(events: seq<Event>): nat {
    if events == [] then 200
    else
      match events[|events| - 1]
      case Start(Some(status), _) => status
      case Start(None, _) => 200
      case _ => LastStatus(events[..|events| - 1])
  }

  lemma AccumulateFirst(r: Response, events: seq<Event>)
    requires events != []
    ensures Accumulate(r, events) == Accumulate(Accumulate(r, [events[0]]), events[1..])
  {
    assert [events[0]][1..] == [];
  }

  lemma {:induction false} AccumulateSnoc(r: Response, events: seq<Event>, e: Event)
    ensures Accumulate(r, events + [e]) == Accumulate(Accumulate(r, events), [e])
    decreases |events|
  {
    if events == [] {
      assert events + [e] == [e];
    } else {
      AccumulateFirst(r, events);
      AccumulateFirst(r, events + [e]);
      assert (events + [e])[1..] == events[1..] + [e];
      AccumulateSnoc(Accumulate(r, [events[0]]), events[1..], e);
    }
  }

  /** The unary response has the last status, and all headers and body bytes in order. */
  lemma {:induction false} HandleGives(events: seq<Event>)
    ensures Accumulate(Response(200, [], []), events)
         == Response(LastStatus(events), AllHeaders(events), AllBodies(events))
    decreases |events|
  {
    if events != [] {
      var init, e := events[..|events| - 1], events[|events| - 1];
      assert events == init + [e] && [e][1..] == [];
      AccumulateSnoc(Response(200, [], []), init, e);
      HandleGives(init);
    }
  }

  /** The response a reader of the stream puts together. */
  function Assemble(r: Response, chunks: seq<Chunk>): Response
    decreases |chunks|
  {
    if chunks == [] then r
    else
      Assemble(
        match chunks[0]
        case ResponseHeaders(status, headers) => r.(status := status, headers := r.headers + headers)
        case ResponseBody(data, _) => r.(body := r.body + data),
        chunks[1..])
  }

  function Items(events: seq<Event>): seq<Item> {
    if events == [] then [] else [App(events[0])] + Items(events[1..])
  }

  /** The bytes of the bodies behind the first final one. */
  function Trailing(events: seq<Event>): bytes {
    if events == [] then []
    else if Stops(App(events[0])) then Accumulate(Response(200, [], []), events[1..]).body
    else Trailing(events[1..])
  }

  lemma {:induction false} BodiesOnly(r: Response, events: seq<Event>)
    requires forall e <- events :: e.Body?
    ensures var a := Accumulate(r, events);
      a == r.(body := r.body + Accumulate(Response(200, [], []), events).body)
    decreases |events|
  {
    if events == [] {
      assert r.body + [] == r.body;
    } else {
      var d := events[0].data.GetOr([]);
      var zero := Response(200, [], []);
      BodiesOnly(r.(body := r.body + d), events[1..]);
      BodiesOnly(zero.(body := zero.body + d), events[1..]);
      var tail := Accumulate(zero, events[1..]).body;
      assert r.body + d + tail == r.body + ([] + d + tail);
    }
  }

  lemma OneBody(r: Response, e: Event, tail: seq<Chunk>)
    requires e.Body?
    ensures Assemble(r, Out(App(e)) + tail) == Assemble(r.(body := r.body + e.data.GetOr([])), tail)
  {
    var out := Out(App(e));
    if out == [] {
      assert out + tail == tail;
      assert r.body + [] == r.body;
    } else {
      assert (out + tail)[1..] == tail;
    }
  }

  /** On body events the streamed response lacks exactly the bodies behind the first final one. */
  lemma {:induction false} StreamedBodies(r: Response, events: seq<Event>)
    requires forall e <- events :: e.Body?
    ensures var streamed := Assemble(r, Image(Items(events)));
      Accumulate(r, events) == streamed.(body := streamed.body + Trailing(events))
    decreases |events|
  {
    if events == [] {
      assert r.body + [] == r.body;
    } else {
      var e, rest := events[0], events[1..];
      var items := Items(events);
      assert items[0] == App(e) && items[1..] == Items(rest);
      var d := e.data.GetOr([]);
      var next := r.(body := r.body + d);
      var tail := if Stops(App(e)) then [] else Image(Items(rest));
      OneBody(r, e, tail);
      if Stops(App(e)) {
        BodiesOnly(next, rest);
      } else {
        StreamedBodies(next, rest);
      }
    }
  }

  /** An application script: one response start, then bodies. */
  predicate Script(events: seq<Event>) {
    events != [] && events[0].Start? && forall e <- events[1..] :: e.Body?
  }

  /**
   * Streaming and buffering agree on a script exactly when no body bytes follow the first final
   * body: the unary handler keeps appending them, the streaming one has stopped.
   */
  lemma UnaryAgreesIff(events: seq<Event>)
    requires Script(events)
    ensures Assemble(Response(200, [], []), Image(Items(events))) == Accumulate(Response(200, [], []), events)
       <==> Trailing(events[1..]) == []
  {
    var zero := Response(200, [], []);
    var start := events[0];
    var r := zero.(status := start.status.GetOr(200), headers := [] + start.headers.GetOr([]));
    var items := Items(events);
    assert items[0] == App(start) && items[1..] == Items(events[1..]);
    var tail := Image(Items(events[1..]));
    assert Image(items) == Out(App(start)) + tail;
    assert (Out(App(start)) + tail)[1..] == tail;
    StreamedBodies(r, events[1..]);
    var streamed := Assemble(r, tail);
    assert Accumulate(zero, events) == Accumulate(r, events[1..]);
    assert |streamed.body + Trailing(events[1..])| == |streamed.body| + |Trailing(events[1..])|;
    if Trailing(events[1..]) == [] { assert streamed.body + [] == streamed.body; }
  }

  lemma BodiesInTurn(b: Event, c: Event, x: bytes, y: bytes)
    requires b == Body(Some(x), None) && c == Body(Some(y), None)
    ensures Accumulate(Response(200, [], []), [b, c]) == Response(200, [], x + y)
    ensures Trailing([b, c]) == y
    ensures Image(Items([b, c])) == [ResponseBody(x, true)]
    ensures Assemble(Response(200, [], []), [ResponseBody(x, true)]) == Response(200, [], x)
  {
    assert [b, c][1..] == [c] && [c][1..] == [] && [] + x == x && [] + y == y;
    assert Accumulate(Response(200, [], x), [c]) == Accumulate(Response(200, [], x + y), []);
    assert Accumulate(Response(200, [], []), [c]) == Accumulate(Response(200, [], y), []);
    assert Items([b, c])[0] == App(b) && Stops(App(b));
    assert Out(App(b)) + [] == [ResponseBody(x, true)];
    assert [ResponseBody(x, true)][1..] == [];
  }

  /** An input on which they differ: body bytes follow the final body. */
  lemma TrailingBody()
    ensures var events := [Start(None, None), Body(Some([1]), None), Body(Some([2]), None)];
      && Script(events) && Trailing(events[1..]) == [2]
      && Assemble(Response(200, [], []), Image(Items(events))) == Response(200, [], [1])
      && Accumulate(Response(200, [], []), events) == Response(200, [], [1, 2])
  {
    var a, b, c := Start(None, None), Body(Some([1]), None), Body(Some([2]), None);
    BodiesInTurn(b, c, [1], [2]);
    var zero := Response(200, [], []);
    assert [a, b, c][1..] == [b, c];
    assert Accumulate(zero, [a, b, c]) == Accumulate(zero, [b, c]) by { assert zero.headers + [] == zero.headers; }
    var head := ResponseHeaders(200, []);
    assert Items([a, b, c])[1..] == Items([b, c]);
    assert Image(Items([a, b, c])) == [head] + [ResponseBody([1], true)];
    assert ([head] + [ResponseBody([1], true)])[1..] == [ResponseBody([1], true)];
  }

  /** A script whose last body is final and no other is. */
  predicate Proper(events: seq<Event>) {
    && Script(events) && |events| > 1
    && (forall i :: 1 <= i < |events| - 1 ==> !Stops(App(events[i])))
    && Stops(App(events[|events| - 1]))
  }

  lemma {:induction false} NothingTrails(events: seq<Event>)
    requires forall i :: 0 <= i < |events| - 1 ==> !Stops(App(events[i]))
    ensures Trailing(events) == []
  {
    if events != [] { NothingTrails(events[1..]); }
  }

  lemma {:induction false} ItemsAre(events: seq<Event>)
    ensures |Items(events)| == |events| && forall i :: 0 <= i < |events| ==> Items(events)[i] == App(events[i])
  {
    if events != [] { ItemsAre(events[1..]); }
  }

  lemma StopAt(consumed: seq<Item>, items: seq<Item>)
    requires HasStop(consumed) && consumed <= items + [AppDone] && items != []
    requires Stops(items[|items| - 1]) && forall i :: 0 <= i < |items| - 1 ==> !Stops(items[i])
    ensures |consumed| >= |items| && HasStop(items)
  {
    hide Stops;
    var i :| 0 <= i < |consumed| && Stops(consumed[i]);
    assert consumed[i] == (items + [AppDone])[i];
  }

  lemma PrefixHolds<T>(a: seq<T>, b: seq<T>, x: T)
    requires a <= b + [x] && |a| >= |b|
    ensures a == b + a[|b|..]
  {
    assert a[..|b|] == (b + [x])[..|b|] == b;
  }

  /** The entries of a proper script stop the consumer with the last one. */
  lemma StopsLast(script: seq<Event>)
    requires Proper(script)
    ensures var items := Items(script);
      && |items| == |script| > 0
      && Stops(items[|items| - 1]) && forall i :: 0 <= i < |items| - 1 ==> !Stops(items[i])
  {
    ItemsAre(script);
    assert !Stops(App(script[0]));
  }

  /** A consumer that stopped on a proper script has consumed all of it. */
  lemma ConsumedScript(consumed: seq<Item>, script: seq<Event>)
    requires Proper(script) && HasStop(consumed) && consumed <= Items(script) + [AppDone]
    ensures |consumed| >= |script| && consumed == Items(script) + consumed[|script|..]
    ensures HasStop(Items(script))
  {
    hide Items, Stops, Proper, HasStop;
    StopsLast(script);
    StopAt(consumed, Items(script));
    PrefixHolds(consumed, Items(script), AppDone);
  }

  /**
   * Streaming refines unary: if the application follows a proper script and returns, every
   * interleaving of `Process` whose loop has broken yields the status, headers and body that
   * `Handle` returns.
   */
  lemma StreamingRefinesUnary(input: seq<Msg>, steps: seq<Step>, script: seq<Event>)
    requires Possible(Init(input), steps) && Proper(script)
    requires var s := Run(Init(input), steps);
      s.consumer == Finished && s.history <= Items(script) + [AppDone]
    ensures Assemble(Response(200, [], []), Run(Init(input), steps).yielded)
         == Accumulate(Response(200, [], []), script)
  {
    hide Run, Possible, Image, Assemble, Accumulate, Trailing, Out, Stops, Items, HasStop, PumpInv;
    InitInv(input);
    RunInv(Init(input), steps, input);
    var s := Run(Init(input), steps);
    assert s.consumed <= Items(script) + [AppDone];
    ConsumedScript(s.consumed, script);
    ImageAppend(Items(script), s.consumed[|script|..]);
    NothingTrails(script[1..]);
    UnaryAgreesIff(script);
  }
}
