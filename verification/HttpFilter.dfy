/** The HTTP filter object: request headers and body callbacks lead to at most one unary call. */
module HttpFilter {
  import opened Bytes
  import opened HttpProto

  datatype Action = Continue | Pause

  datatype State = State(
    headers: seq<Header>,
    body: bytes,
    bodyPending: bool,
    passthrough: bool,
    callToken: Option<nat>,
    dispatched: seq<bytes>)

  const INITIAL := State([], [], false, false, None, [])

  /** "upgrade" and "websocket". */
  const UPGRADE: bytes := [117, 112, 103, 114, 97, 100, 101]
  const WEBSOCKET: bytes := [119, 101, 98, 115, 111, 99, 107, 101, 116]

  predicate UpgradeHeader(h: Header) {
    Lower(h.0) == UPGRADE && Lower(h.1) == WEBSOCKET
  }

  predicate IsUpgrade(headers: seq<Header>) {
    exists i :: 0 <= i < |headers| && UpgradeHeader(headers[i])
  }

  /** `token` is the host's answer: none when the call could not be dispatched. */
  function Dispatch(s: State, token: Option<nat>): State
    requires InMemory(s.headers, s.body)
  {
    var t := s.(dispatched := s.dispatched + [EncodeRequest(s.headers, s.body)]);
    if token.Some? then t.(callToken := token) else t.(passthrough := true)
  }

  function RequestHeaders(s: State, headers: seq<Header>, end: bool, token: Option<nat>): State
    requires InMemory(headers, s.body)
  {
    if IsUpgrade(headers) then s.(passthrough := true)
    else if end then Dispatch(s.(headers := headers), token)
    else s.(headers := headers, bodyPending := true)
  }

  function RequestBody(s: State, chunk: Option<bytes>, end: bool, token: Option<nat>): State
    requires InMemory(s.headers, s.body + chunk.GetOr([]))
  {
    if s.passthrough || !s.bodyPending then s
    else
      var t := s.(body := s.body + chunk.GetOr([]));
      if end then Dispatch(t.(bodyPending := false), token) else t
  }

  class HttpBridgeFilter {
    var callToken: Option<nat>
    var reqHeaders: seq<Header>
    var reqBody: bytes
    var passthrough: bool
    var bodyPending: bool
    var dispatched: seq<bytes>

    function View(): State
      reads this
    {
      State(reqHeaders, reqBody, bodyPending, passthrough, callToken, dispatched)
    }

    constructor ()
      ensures View() == INITIAL
    {
      callToken := None;
      reqHeaders := [];
      reqBody := [];
      passthrough := false;
      bodyPending := false;
      dispatched := [];
    }

    /** `dispatch_handle`. */
    method DispatchHandle(token: Option<nat>)
      requires InMemory(reqHeaders, reqBody)
      modifies this
      ensures View() == Dispatch(old(View()), token)
    {
      var msg := EncodeHttpRequest(reqHeaders, reqBody);
      dispatched := dispatched + [msg];
      if token.Some? {
        callToken := token;
      } else {
        passthrough := true;
      }
    }

    /** `on_http_request_headers`; `headers` is what the host returns. */
    method OnHttpRequestHeaders(headers: seq<Header>, endOfStream: bool, token: Option<nat>)
      returns (action: Action)
      requires InMemory(headers, reqBody)
      modifies this
      ensures View() == RequestHeaders(old(View()), headers, endOfStream, token)
      ensures action == Pause <==> !IsUpgrade(headers) && endOfStream && !View().passthrough
    {
      for i := 0 to |headers|
        invariant View() == old(View())
        invariant forall j :: 0 <= j < i ==> !UpgradeHeader(headers[j])
      {
        var (k, v) := headers[i];
        if Lower(k) == UPGRADE && Lower(v) == WEBSOCKET {
          assert UpgradeHeader(headers[i]);
          passthrough := true;
          return Continue;
        }
      }
      reqHeaders := headers;
      if endOfStream {
        DispatchHandle(token);
        return if passthrough then Continue else Pause;
      } else {
        bodyPending := true;
        return Continue;
      }
    }

    /** `on_http_request_body`; `chunk` is what the host returns for the body buffer. */
    method OnHttpRequestBody(chunk: Option<bytes>, endOfStream: bool, token: Option<nat>) returns (action: Action)
      requires InMemory(reqHeaders, reqBody + chunk.GetOr([]))
      modifies this
      ensures View() == RequestBody(old(View()), chunk, endOfStream, token)
      ensures action == Pause <==>
        !old(passthrough) && old(bodyPending) && endOfStream && !View().passthrough
    {
      if passthrough { return Continue; }
      if !bodyPending { return Continue; }
      if chunk.Some? {
        reqBody := reqBody + chunk.value;
      } else {
        assert reqBody + [] == reqBody;
      }
      if endOfStream {
        bodyPending := false;
        DispatchHandle(token);
        return if passthrough then Continue else Pause;
      } else {
        return Continue;
      }
    }
  }

  // ---------------------------------------------------------------------------------------
  // Runs
  // ---------------------------------------------------------------------------------------

  /** One body callback. */
  datatype Op = Body(chunk: Option<bytes>, end: bool, token: Option<nat>)

  /** The bytes of the callbacks through the one that ends the stream. */
  function BodyOf(ops: seq<Op>): bytes {
    if ops == [] then []
    else ops[0].chunk.GetOr([]) + if ops[0].end then [] else BodyOf(ops[1..])
  }

  predicate Ended(ops: seq<Op>) {
    exists i :: 0 <= i < |ops| && ops[i].end
  }

  /** All chunks, also those behind the end of the stream. */
  function AllBytes(ops: seq<Op>): bytes {
    if ops == [] then [] else ops[0].chunk.GetOr([]) + AllBytes(ops[1..])
  }

  function Run(s: State, ops: seq<Op>): State
    requires InMemory(s.headers, s.body) && |s.body| + |AllBytes(ops)| < WORD32
    decreases |ops|
  {
    if ops == [] then s
    else Run(RequestBody(s, ops[0].chunk, ops[0].end, ops[0].token), ops[1..])
  }

  lemma {:induction false} IdleRun(s: State, ops: seq<Op>)
    requires InMemory(s.headers, s.body) && |s.body| + |AllBytes(ops)| < WORD32
    requires s.passthrough || !s.bodyPending
    ensures Run(s, ops).dispatched == s.dispatched
    decreases |ops|
  {
    hide EncodeRequest;
    if ops != [] { IdleRun(s, ops[1..]); }
  }

  lemma NoBody(s: State)
    requires InMemory(s.headers, s.body)
    ensures Run(s, []) == s
  {
  }

  lemma RunTurn(s: State, ops: seq<Op>)
    requires ops != [] && InMemory(s.headers, s.body) && |s.body| + |AllBytes(ops)| < WORD32
    ensures Run(s, ops) == Run(RequestBody(s, ops[0].chunk, ops[0].end, ops[0].token), ops[1..])
  {
  }

  lemma EndedTail(ops: seq<Op>)
    requires ops != [] && !ops[0].end
    ensures Ended(ops) <==> Ended(ops[1..])
  {
    if i :| 0 <= i < |ops| && ops[i].end { assert ops[1..][i - 1].end; }
    if i :| 0 <= i < |ops[1..]| && ops[1..][i].end { assert ops[i + 1].end; }
  }

  lemma {:induction false} PendingRun(s: State, ops: seq<Op>)
    requires InMemory(s.headers, s.body) && |s.body| + |AllBytes(ops)| < WORD32
    requires s.bodyPending && !s.passthrough
    ensures |BodyOf(ops)| <= |AllBytes(ops)|
    ensures Run(s, ops).dispatched
         == s.dispatched + if Ended(ops) then [EncodeRequest(s.headers, s.body + BodyOf(ops))] else []
    decreases |ops|
  {
    hide EncodeRequest, Run;
    if ops == [] {
      NoBody(s);
      assert s.dispatched + [] == s.dispatched;
    } else {
      var t := RequestBody(s, ops[0].chunk, ops[0].end, ops[0].token);
      RunTurn(s, ops);
      if ops[0].end {
        assert Ended(ops);
        assert s.body + (ops[0].chunk.GetOr([]) + []) == s.body + ops[0].chunk.GetOr([]);
        IdleRun(t, ops[1..]);
      } else {
        PendingRun(t, ops[1..]);
        EndedTail(ops);
        assert s.body + (ops[0].chunk.GetOr([]) + BodyOf(ops[1..])) == t.body + BodyOf(ops[1..]);
      }
    }
  }

  lemma SizeOfBody(ops: seq<Op>)
    ensures |BodyOf(ops)| <= |AllBytes(ops)|
  {
  }

  /**
   * After one headers callback and any number of body callbacks at most one call has been
   * dispatched; its bytes encode the headers with the body through the end of the stream, so a
   * reader gets both back, and the cutting into chunks leaves no trace.
   */
  lemma DispatchOnce(headers: seq<Header>, end: bool, token: Option<nat>, ops: seq<Op>)
    requires InMemory(headers, []) && |AllBytes(ops)| < WORD32
    ensures var final := Run(RequestHeaders(INITIAL, headers, end, token), ops);
      var body := if end then [] else BodyOf(ops);
      && InMemory(headers, body)
      && final.dispatched ==
           (if !IsUpgrade(headers) && (end || Ended(ops)) then [EncodeRequest(headers, body)] else [])
      && (final.dispatched != [] ==> DecodeRequest(final.dispatched[0]) == Some((headers, body)))
  {
    hide EncodeRequest, DecodeRequest, IsUpgrade, Run;
    var s := RequestHeaders(INITIAL, headers, end, token);
    if IsUpgrade(headers) || end {
      IdleRun(s, ops);
      SizeOfBody(ops);
    } else {
      PendingRun(s, ops);
      assert [] + BodyOf(ops) == BodyOf(ops);
    }
    RequestRoundTrip(headers, if end then [] else BodyOf(ops));
  }

  /** The names that mark an upgrade, spelled out. */
  lemma Spelled()
    ensures UPGRADE == Ascii("upgrade") && WEBSOCKET == Ascii("websocket")
  {
  }

  /** A WebSocket upgrade is recognised in any case of its letters, and nothing else is one. */
  lemma UpgradeIff(headers: seq<Header>)
    ensures IsUpgrade(headers) <==>
      exists h <- headers :: Lower(h.0) == Ascii("upgrade") && Lower(h.1) == Ascii("websocket")
  {
    Spelled();
    hide Lower, UPGRADE, WEBSOCKET;
    if IsUpgrade(headers) {
      var i :| 0 <= i < |headers| && UpgradeHeader(headers[i]);
      assert headers[i] in headers;
    }
    if exists h <- headers :: Lower(h.0) == Ascii("upgrade") && Lower(h.1) == Ascii("websocket") {
      var h :| h in headers && Lower(h.0) == Ascii("upgrade") && Lower(h.1) == Ascii("websocket");
      var i :| 0 <= i < |headers| && headers[i] == h;
      assert UpgradeHeader(headers[i]);
    }
  }

  /** What the host answered to the callback that ended the request. */
  function Answered(end: bool, token: Option<nat>, ops: seq<Op>): Option<nat>
    decreases |ops|
  {
    if end then token
    else if ops == [] then None
    else if ops[0].end then ops[0].token else Answered(false, None, ops[1..])
  }

  lemma {:induction false} IdleKeeps(s: State, ops: seq<Op>)
    requires InMemory(s.headers, s.body) && |s.body| + |AllBytes(ops)| < WORD32
    requires s.passthrough || !s.bodyPending
    ensures Run(s, ops) == s
    decreases |ops|
  {
    if ops != [] { IdleKeeps(s, ops[1..]); }
  }

  lemma {:induction false} PendingOutcome(s: State, ops: seq<Op>)
    requires InMemory(s.headers, s.body) && |s.body| + |AllBytes(ops)| < WORD32
    requires s.bodyPending && !s.passthrough && s.callToken == None && Ended(ops)
    ensures var answer := Answered(false, None, ops);
      Run(s, ops).callToken == answer && (Run(s, ops).passthrough <==> answer == None)
    decreases |ops|
  {
    hide EncodeRequest, Run;
    var t := RequestBody(s, ops[0].chunk, ops[0].end, ops[0].token);
    RunTurn(s, ops);
    if ops[0].end {
      IdleKeeps(t, ops[1..]);
    } else {
      EndedTail(ops);
      PendingOutcome(t, ops[1..]);
    }
  }

  /** Once the request has ended, the filter holds the token of its call, or lets the request pass. */
  lemma CallOrPass(headers: seq<Header>, end: bool, token: Option<nat>, ops: seq<Op>)
    requires InMemory(headers, []) && |AllBytes(ops)| < WORD32
    ensures var final := Run(RequestHeaders(INITIAL, headers, end, token), ops);
      var answer := Answered(end, token, ops);
      && (IsUpgrade(headers) ==> final.passthrough && final.callToken == None)
      && (!IsUpgrade(headers) && (end || Ended(ops)) ==>
            final.callToken == answer && (final.passthrough <==> answer == None))
  {
    hide EncodeRequest, IsUpgrade, Run;
    var s := RequestHeaders(INITIAL, headers, end, token);
    if IsUpgrade(headers) || end {
      IdleKeeps(s, ops);
    } else if Ended(ops) {
      PendingOutcome(s, ops);
    }
  }
}
