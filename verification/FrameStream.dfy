/** The message list of a byte stream: the meaning both incremental deframers are held to. */
module FrameStream {
  import opened Bytes
  import opened WsFrame

  datatype Message = Message(opcode: byte, payload: Payload)

  /** The messages of all complete frames at the front of `buf`. */
  function Messages(buf: bytes, word: Word): seq<Message>
    decreases |buf|
  {
    match ParseWsFrame(buf, word)
    case None => []
    case Some(p) => [Message(p.opcode, p.payload)] + Messages(buf[p.consumed..], word)
  }

  /** What is left of `buf` behind its complete frames. */
  function Rest(buf: bytes, word: Word): (r: bytes)
    ensures ParseWsFrame(r, word) == None
    decreases |buf|
  {
    match ParseWsFrame(buf, word)
    case None => buf
    case Some(p) => Rest(buf[p.consumed..], word)
  }

  lemma ParsedSize(buf: bytes, word: Word)
    ensures ParseWsFrame(buf, word).Some? ==> 2 <= ParseWsFrame(buf, word).value.consumed <= |buf|
  {
  }

  lemma Unfold(buf: bytes, word: Word)
    ensures match ParseWsFrame(buf, word)
      case None => Messages(buf, word) == [] && Rest(buf, word) == buf
      case Some(p) =>
        && 2 <= p.consumed <= |buf|
        && Messages(buf, word) == [Message(p.opcode, p.payload)] + Messages(buf[p.consumed..], word)
        && Rest(buf, word) == Rest(buf[p.consumed..], word)
  {
    hide ParseWsFrame;
    ParsedSize(buf, word);
  }

  /** Parsing in two instalments, keeping the tail in between, is parsing at once. */
  lemma {:induction false} Split(a: bytes, b: bytes, word: Word)
    ensures Messages(a + b, word) == Messages(a, word) + Messages(Rest(a, word) + b, word)
    ensures Rest(a + b, word) == Rest(Rest(a, word) + b, word)
    decreases |a|
  {
    hide ParseWsFrame, Messages, Rest;
    Unfold(a, word);
    if ParseWsFrame(a, word) == None {
      assert [] + Messages(a + b, word) == Messages(a + b, word);
    } else {
      var p := ParseWsFrame(a, word).value;
      ParseExtend(a, b, word);
      Unfold(a + b, word);
      assert (a + b)[p.consumed..] == a[p.consumed..] + b;
      Split(a[p.consumed..], b, word);
      var m, x := [Message(p.opcode, p.payload)], Messages(a[p.consumed..], word);
      var y := Messages(Rest(a, word) + b, word);
      assert m + x + y == m + (x + y);
    }
  }

  /** No payload is longer than the bytes it came from. */
  lemma {:induction false} PayloadsWithin(buf: bytes, word: Word)
    ensures forall m <- Messages(buf, word) :: |m.payload| <= |buf|
    decreases |buf|
  {
    hide LengthFields, Mask;
    match ParseWsFrame(buf, word)
    case None =>
    case Some(p) => PayloadsWithin(buf[p.consumed..], word);
  }

  lemma {:induction false} SmallPayloads(buf: bytes, word: Word)
    ensures forall m <- Messages(buf, word) :: |m.payload| < word
    decreases |buf|
  {
    hide ParseWsFrame;
    SmallPayload(buf, word);
    match ParseWsFrame(buf, word)
    case None =>
    case Some(p) => SmallPayloads(buf[p.consumed..], word);
  }

  lemma EmptyStream(word: Word)
    ensures ParseWsFrame([], word) == None && Messages([], word) == [] && Rest([], word) == []
  {
  }

  /** A text or binary frame, masked or not. */
  predicate DataFrame(f: Frame) {
    f.first % 16 == TEXT || f.first % 16 == BINARY
  }

  function MessageOf(f: Frame): Message {
    Message(f.first % 16, f.payload)
  }

  function Carried(fs: seq<Frame>): seq<Message> {
    if fs == [] then [] else [MessageOf(fs[0])] + Carried(fs[1..])
  }

  lemma NoFrames(tail: bytes, word: Word)
    ensures PrintAll([], word) + tail == tail
    ensures Carried([]) + Messages(tail, word) == Messages(tail, word)
  {
    hide Messages;
  }

  lemma FirstFrame(fs: seq<Frame>, tail: bytes, ms: seq<Message>, word: Word)
    requires fs != [] && forall f <- fs :: Fits(f, word)
    ensures PrintAll(fs, word) + tail == Print(fs[0], word) + (PrintAll(fs[1..], word) + tail)
    ensures Carried(fs) + ms == [MessageOf(fs[0])] + (Carried(fs[1..]) + ms)
  {
    hide Print, Fits;
    var a, b := Print(fs[0], word), PrintAll(fs[1..], word);
    assert a + b + tail == a + (b + tail);
  }

  lemma StreamHead(f: Frame, rest: bytes, word: Word)
    requires Fits(f, word)
    ensures Messages(Print(f, word) + rest, word) == [MessageOf(f)] + Messages(rest, word)
    ensures Rest(Print(f, word) + rest, word) == Rest(rest, word)
  {
    ParsePrinted(f, rest, word);
    assert (Print(f, word) + rest)[|Print(f, word)|..] == rest;
  }

  /** A stream of printed frames carries exactly their messages, in order. */
  lemma {:induction false} PrintedFrames(fs: seq<Frame>, tail: bytes, word: Word)
    requires forall f <- fs :: Fits(f, word)
    ensures Messages(PrintAll(fs, word) + tail, word)
         == Carried(fs) + Messages(tail, word)
    ensures Rest(PrintAll(fs, word) + tail, word) == Rest(tail, word)
  {
    hide Messages, Rest, Print, PrintAll, Carried, Fits;
    NoFrames(tail, word);
    if fs != [] {
      FirstFrame(fs, tail, Messages(tail, word), word);
      StreamHead(fs[0], PrintAll(fs[1..], word) + tail, word);
      PrintedFrames(fs[1..], tail, word);
    }
  }

  /** Bytes received = frames consumed ++ remainder, with the consumed frames exhibited. */
  lemma {:induction false} Conservation(buf: bytes, word: Word) returns (fs: seq<Frame>)
    ensures forall f <- fs :: Fits(f, word)
    ensures buf == PrintAll(fs, word) + Rest(buf, word)
    ensures Messages(buf, word) == Carried(fs)
    decreases |buf|
  {
    hide ParseWsFrame, Print, Fits, Unparse;
    match ParseWsFrame(buf, word)
    case None =>
      fs := [];
    case Some(p) =>
      var tl := Conservation(buf[p.consumed..], word);
      UnparseSound(buf, word);
      var f := Unparse(buf, word);
      fs := [f] + tl;
      assert fs[1..] == tl;
      assert buf == buf[..p.consumed] + buf[p.consumed..];
  }

  // ---------------------------------------------------------------------------------------
  // Close frames
  // ---------------------------------------------------------------------------------------

  /** The messages up to and including the first close frame. */
  function ThroughClose(ms: seq<Message>): (r: seq<Message>)
    ensures r <= ms
  {
    if ms == [] || ms[0].opcode == CLOSE then ms[..if ms == [] then 0 else 1]
    else [ms[0]] + ThroughClose(ms[1..])
  }

  lemma MembersThrough(ms: seq<Message>)
    ensures forall m <- ThroughClose(ms) :: m in ms
  {
    var t := ThroughClose(ms);
    assert forall i :: 0 <= i < |t| ==> t[i] == ms[i];
  }

  predicate HasClose(ms: seq<Message>) {
    exists i :: 0 <= i < |ms| && ms[i].opcode == CLOSE
  }

  lemma {:induction false} ThroughCloseAppend(a: seq<Message>, b: seq<Message>)
    ensures ThroughClose(a + b) == if HasClose(a) then ThroughClose(a) else a + ThroughClose(b)
  {
    if a == [] {
      assert a + b == b;
    } else if a[0].opcode == CLOSE {
      assert (a + b)[..1] == a[..1];
    } else {
      assert (a + b)[1..] == a[1..] + b;
      assert HasClose(a) <==> HasClose(a[1..]) by {
        if HasClose(a) {
          var i :| 0 <= i < |a| && a[i].opcode == CLOSE;
          assert a[1..][i - 1].opcode == CLOSE;
        }
      }
      ThroughCloseAppend(a[1..], b);
    }
  }

  lemma NoCloseWhole(ms: seq<Message>)
    requires !HasClose(ms)
    ensures ThroughClose(ms) == ms
  {
    ThroughCloseAppend(ms, []);
    assert ms + [] == ms;
  }

  lemma HasCloseAppend(a: seq<Message>, b: seq<Message>)
    ensures HasClose(a + b) <==> HasClose(a) || HasClose(b)
  {
    if HasClose(a) {
      var i :| 0 <= i < |a| && a[i].opcode == CLOSE;
      assert (a + b)[i].opcode == CLOSE;
    }
    if HasClose(b) {
      var i :| 0 <= i < |b| && b[i].opcode == CLOSE;
      assert (a + b)[|a| + i].opcode == CLOSE;
    }
  }
}
