/**
 * When a streaming call comes to rest finished, for an application that follows a script of
 * receives and sends.
 */
module HttpLiveness {
  import opened Bytes
  import opened HttpBridge

  /** What the application awaits next. */
  datatype Action = Get | Put(event: Event)

  /** A call whose application still has `todo` to do and then returns. */
  datatype Call = Call(s: State, todo: seq<Action>)

  datatype Move = PumpMove | AppMove | ConsumeMove

  /** The step of the servicer that a move is. */
  function StepOf(c: Call, move: Move): Step {
    match move
    case PumpMove => PumpNext
    case AppMove =>
      if c.todo == [] then AppEnds else if c.todo[0] == Get then AppReceives else AppSends(c.todo[0].event)
    case ConsumeMove => Consume
  }

  predicate CanMove(c: Call, move: Move) {
    Enabled(c.s, StepOf(c, move))
  }

  function Moved(c: Call, move: Move): Call
    requires CanMove(c, move)
  {
    Call(Apply(c.s, StepOf(c, move)), if move == AppMove && c.todo != [] then c.todo[1..] else c.todo)
  }

  predicate CanRun(c: Call, moves: seq<Move>)
    decreases |moves|
  {
    moves == [] || (CanMove(c, moves[0]) && CanRun(Moved(c, moves[0]), moves[1..]))
  }

  function RunMoves(c: Call, moves: seq<Move>): Call
    requires CanRun(c, moves)
    decreases |moves|
  {
    if moves == [] then c else RunMoves(Moved(c, moves[0]), moves[1..])
  }

  function Begin(input: seq<Msg>, script: seq<Action>): Call {
    Call(Init(input), script)
  }

  // ---------------------------------------------------------------------------------------
  // Supply and demand
  // ---------------------------------------------------------------------------------------

  /** How many request events the pump makes of a request stream. */
  function Offered(input: seq<Msg>): nat {
    if input == [] then 1
    else if input[0].Other? then Offered(input[1..])
    else if input[0].endOfStream then 1
    else 1 + Offered(input[1..])
  }

  /** How many of them the application asks for before it sends an event that ends the response. */
  function Asked(script: seq<Action>): nat {
    if script == [] then 0
    else match script[0]
      case Get => 1 + Asked(script[1..])
      case Put(event) => if Stops(App(event)) then 0 else Asked(script[1..])
  }

  function Gets(script: seq<Action>): nat {
    if script == [] then 0 else (if script[0] == Get then 1 else 0) + Gets(script[1..])
  }

  function Puts(script: seq<Action>): seq<Item> {
    if script == [] then [] else (if script[0].Put? then [App(script[0].event)] else []) + Puts(script[1..])
  }

  lemma OneStop(item: Item)
    ensures HasStop([item]) <==> Stops(item)
  {
    assert [item][0] == item;
  }

  lemma {:induction false} Append(a: seq<Action>, b: seq<Action>)
    ensures Gets(a + b) == Gets(a) + Gets(b) && Puts(a + b) == Puts(a) + Puts(b)
    ensures Asked(a + b) == if HasStop(Puts(a)) then Asked(a) else Gets(a) + Asked(b)
    ensures Asked(a) <= Gets(a)
  {
    hide Stops;
    if a == [] {
      assert a + b == b;
    } else {
      assert (a + b)[1..] == a[1..] + b;
      Append(a[1..], b);
      var first := if a[0].Put? then [App(a[0].event)] else [];
      assert first + Puts(a[1..]) + Puts(b) == first + (Puts(a[1..]) + Puts(b));
      HasStopAppend(first, Puts(a[1..]));
      if a[0].Put? { OneStop(App(a[0].event)); }
    }
  }

  // ---------------------------------------------------------------------------------------
  // Invariant
  // ---------------------------------------------------------------------------------------

  /** `done` is what the application has done of its script. */
  ghost predicate CallInv(c: Call, input: seq<Msg>, script: seq<Action>, done: seq<Action>) {
    && ConsumerInv(c.s) && c.s.consumer != Cancelled && c.s.app != Dropped
    && script == done + c.todo
    && |c.s.received| == Gets(done)
    && c.s.history == Puts(done) + (if c.s.app == Ended then [AppDone] else [])
    && (c.s.app == Ended ==> c.todo == [])
    && |c.s.received| + |c.s.receiveQueue| + (if c.s.pump == Reading then Offered(c.s.input) else 0) == Offered(input)
  }

  lemma BeginInv(input: seq<Msg>, script: seq<Action>)
    ensures CallInv(Begin(input, script), input, script, [])
  {
    InitInv(input);
    assert [] + script == script;
  }

  lemma AppInv(c: Call, input: seq<Msg>, script: seq<Action>, done: seq<Action>) returns (now: seq<Action>)
    requires CallInv(c, input, script, done) && CanMove(c, AppMove)
    ensures CallInv(Moved(c, AppMove), input, script, now)
  {
    hide ConsumerInv, Offered, Asked;
    ConsumerStep(c.s, StepOf(c, AppMove));
    if c.todo == [] {
      now := done;
      assert Puts(done) + [] == Puts(done);
    } else {
      var action := c.todo[0];
      now := done + [action];
      assert script == now + c.todo[1..];
      Append(done, [action]);
      assert [action][1..] == [];
      assert Puts(done) + [] == Puts(done);
      assert Puts(now) + [] == Puts(now);
    }
  }

  lemma MoveInv(c: Call, move: Move, input: seq<Msg>, script: seq<Action>, done: seq<Action>)
    returns (now: seq<Action>)
    requires CallInv(c, input, script, done) && CanMove(c, move)
    ensures CallInv(Moved(c, move), input, script, now)
  {
    hide ConsumerInv, Asked, Gets, Puts;
    match move
    case AppMove =>
      now := AppInv(c, input, script, done);
    case PumpMove =>
      now := done;
      ConsumerStep(c.s, PumpNext);
    case ConsumeMove =>
      now := done;
      ConsumerStep(c.s, Consume);
  }

  lemma {:induction false} MovesInv(c: Call, moves: seq<Move>, input: seq<Msg>, script: seq<Action>, done: seq<Action>)
    returns (now: seq<Action>)
    requires CallInv(c, input, script, done) && CanRun(c, moves)
    ensures CallInv(RunMoves(c, moves), input, script, now)
    decreases |moves|
  {
    hide CallInv, CanMove, Moved;
    now := done;
    if moves != [] {
      var next := MoveInv(c, moves[0], input, script, done);
      now := MovesInv(Moved(c, moves[0]), moves[1..], input, script, next);
    }
  }

  /** Work left: how many awaits every message, action and entry still has to pass. */
  function Work(c: Call): nat {
    |c.s.input| + (if c.s.pump == Reading then 1 else 0) + 2 * |c.todo| + (if c.s.app == Running then 2 else 0) +
    |c.s.sendQueue|
  }

  lemma {:induction false} MovesWork(c: Call, moves: seq<Move>)
    requires CanRun(c, moves)
    ensures |moves| + Work(RunMoves(c, moves)) <= Work(c)
    decreases |moves|
  {
    if moves != [] {
      assert Work(Moved(c, moves[0])) < Work(c);
      MovesWork(Moved(c, moves[0]), moves[1..]);
    }
  }

  // ---------------------------------------------------------------------------------------
  // At rest
  // ---------------------------------------------------------------------------------------

  predicate AtRest(c: Call) {
    !CanMove(c, PumpMove) && !CanMove(c, AppMove) && !CanMove(c, ConsumeMove)
  }

  lemma StuckMeansAsked(c: Call, input: seq<Msg>, script: seq<Action>, done: seq<Action>)
    requires CallInv(c, input, script, done) && AtRest(c) && c.s.consumer == Consuming
    ensures Asked(script) > Offered(input)
  {
    hide Offered, Image;
    assert c.s.sendQueue == [] && c.s.pump != Reading;
    assert c.s.consumed + [] == c.s.consumed;
    assert !HasStop(c.s.history);
    HasStopAppend(Puts(done), if c.s.app == Ended then [AppDone] else []);
    OneStop(AppDone);
    assert c.s.app == Running;
    assert c.todo != [] && c.todo[0] == Get && c.s.receiveQueue == [];
    Append(done, c.todo);
  }

  lemma NoStop()
    ensures !HasStop([])
  {
  }

  lemma FinishedMeansServed(c: Call, input: seq<Msg>, script: seq<Action>, done: seq<Action>)
    requires CallInv(c, input, script, done) && c.s.consumer == Finished
    ensures Asked(script) <= Offered(input)
  {
    hide Image, Stops;
    HasStopAppend(c.s.consumed, c.s.sendQueue);
    HasStopAppend(Puts(done), if c.s.app == Ended then [AppDone] else []);
    Append(done, c.todo);
    if !HasStop(Puts(done)) {
      assert c.s.app == Ended by { NoStop(); }
      assert c.todo == [] && Asked([]) == 0;
    }
  }

  lemma NotCancelled(c: Call, input: seq<Msg>, script: seq<Action>, done: seq<Action>)
    requires CallInv(c, input, script, done)
    ensures c.s.consumer != Cancelled
  {
  }

  /**
   * Without cancellation every interleaving comes to rest within a bound given by request and
   * script, and at rest the call is finished if and only if the application asks for no more
   * request events than the request has, before it ends the response: behind the last one nothing
   * queues a disconnect, so a further receive waits forever.
   */
  lemma FinishesIff(input: seq<Msg>, script: seq<Action>, moves: seq<Move>)
    requires CanRun(Begin(input, script), moves)
    ensures |moves| <= |input| + 2 * |script| + 3
    ensures var end := RunMoves(Begin(input, script), moves);
      AtRest(end) ==> (end.s.consumer == Finished <==> Asked(script) <= Offered(input))
  {
    hide CallInv, AtRest, Asked, Offered, RunMoves, CanRun;
    BeginInv(input, script);
    var done := MovesInv(Begin(input, script), moves, input, script, []);
    MovesWork(Begin(input, script), moves);
    var end := RunMoves(Begin(input, script), moves);
    NotCancelled(end, input, script, done);
    if AtRest(end) && end.s.consumer == Consuming { StuckMeansAsked(end, input, script, done); }
    if end.s.consumer == Finished { FinishedMeansServed(end, input, script, done); }
  }

  /** A call that hangs: a second receive on a request without body. */
  lemma SecondReceiveHangs()
    ensures var script := [Get, Get, Put(Start(None, None)), Put(Body(None, None))];
      && Asked(script) == 2 && Offered([]) == 1
      && CanRun(Begin([], script), [PumpMove, AppMove])
      && var end := RunMoves(Begin([], script), [PumpMove, AppMove]);
         AtRest(end) && end.s.consumer == Consuming && end.s.yielded == []
  {
    var start, body := Put(Start(None, None)), Put(Body(None, None));
    var script := [Get, Get, start, body];
    assert script[1..] == [Get, start, body] && [Get, start, body][1..] == [start, body];
    assert [start, body][1..] == [body];
    assert Asked([body]) == 0 && Asked([start, body]) == 0 && Asked([Get, start, body]) == 1;
    var c0 := Begin([], script);
    var c1 := Moved(c0, PumpMove);
    var c2 := Moved(c1, AppMove);
    assert [PumpMove, AppMove][1..] == [AppMove] && [AppMove][1..] == [];
    assert CanRun(c1, [AppMove]);
    assert RunMoves(c1, [AppMove]) == RunMoves(c2, []) == c2;
  }
}
