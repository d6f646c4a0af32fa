/** Capture and parsing of the HTTP upgrade request by the network filter. */
module UpgradeCapture {
  import opened Bytes
  import opened Search

  const CRLF: bytes := [13, 10]
  const CRLF2: bytes := [13, 10, 13, 10]
  const SPACE: bytes := [32]
  const COLON: bytes := [58]

  /** ":method" and ":path". */
  const METHOD: bytes := [58, 109, 101, 116, 104, 111, 100]
  const PATH: bytes := [58, 112, 97, 116, 104]

  // ---------------------------------------------------------------------------------------
  // Text helpers (ASCII)
  // ---------------------------------------------------------------------------------------

  predicate IsText(s: bytes) {
    forall i :: 0 <= i < |s| ==> s[i] < 128
  }

  predicate IsSpace(b: byte) {
    9 <= b <= 13 || b == 32
  }

  function TrimStart(s: bytes): bytes {
    if s != [] && IsSpace(s[0]) then TrimStart(s[1..]) else s
  }

  function TrimEnd(s: bytes): bytes {
    if s != [] && IsSpace(s[|s| - 1]) then TrimEnd(s[..|s| - 1]) else s
  }

  function Trim(s: bytes): bytes {
    TrimEnd(TrimStart(s))
  }

  /** `text.split("\r\n")`. */
  function Lines(s: bytes): (r: seq<bytes>)
    ensures |r| > 0
    decreases |s|
  {
    match Find(s, CRLF)
    case None => [s]
    case Some(i) => [s[..i]] + Lines(s[i + 2..])
  }

  /** The part before the first space, and the part behind it if there is a space. */
  function Word1(line: bytes): bytes {
    match Find(line, SPACE) case None => line case Some(i) => line[..i]
  }

  function AfterWord1(line: bytes): bytes {
    match Find(line, SPACE) case None => [] case Some(i) => line[i + 1..]
  }

  /** One turn of the header loop: split at the first colon, trim both sides, lower the name. */
  function FieldOf(line: bytes): seq<Header> {
    match Find(line, COLON)
    case None => []
    case Some(i) => [(Lower(Trim(line[..i])), Trim(line[i + 1..]))]
  }

  /** The headers of the lines before the first empty one. */
  function Fields(lines: seq<bytes>): seq<Header> {
    if lines == [] || lines[0] == [] then [] else FieldOf(lines[0]) + Fields(lines[1..])
  }

  /** Meaning of a captured block. Blocks that are not ASCII text count as undecodable. */
  function HeadersOf(block: bytes): seq<Header> {
    if !IsText(block) then [] else
    var lines := Lines(block);
    [(METHOD, Word1(lines[0])), (PATH, Word1(AfterWord1(lines[0])))] + Fields(lines[1..])
  }

  lemma FieldsTurn(out: seq<Header>, lines: seq<bytes>, i: nat)
    requires i < |lines|
    ensures lines[i] == [] ==> Fields(lines[i..]) == []
    ensures lines[i] != [] ==> out + Fields(lines[i..]) == out + FieldOf(lines[i]) + Fields(lines[i + 1..])
  {
    hide FieldOf;
    assert lines[i..][0] == lines[i] && lines[i..][1..] == lines[i + 1..];
  }

  lemma EmptyFields(lines: seq<bytes>)
    ensures lines == [] ==> Fields(lines) == []
  {
  }

  /** The header loop of `parse_http_request_headers`. */
  method ParseFields(lines: seq<bytes>) returns (out: seq<Header>)
    ensures out == Fields(lines)
  {
    hide Fields, FieldOf;
    out := [];
    var i := 0;
    assert lines[0..] == lines && out + Fields(lines[0..]) == Fields(lines);
    while i < |lines|
      invariant i <= |lines| && out + Fields(lines[i..]) == Fields(lines)
      decreases |lines| - i
    {
      FieldsTurn(out, lines, i);
      if lines[i] == [] { return; }
      out := out + FieldOf(lines[i]);
      i := i + 1;
    }
    EmptyFields(lines[i..]);
  }

  /** `parse_http_request_headers`. */
  method ParseHttpRequestHeaders(block: bytes) returns (headers: seq<Header>)
    ensures headers == HeadersOf(block)
  {
    hide Lines, Word1, AfterWord1, Fields;
    if !IsText(block) { return []; }
    var lines := Lines(block);
    var requestLine := lines[0];
    headers := [(METHOD, Word1(requestLine))];
    headers := headers + [(PATH, Word1(AfterWord1(requestLine)))];
    var fields := ParseFields(lines[1..]);
    headers := headers + fields;
  }

  // ---------------------------------------------------------------------------------------
  // Capture over segments
  // ---------------------------------------------------------------------------------------

  /** The request is complete with its first CRLFCRLF; what it says depends on no later byte. */
  function Captured(all: bytes): Option<seq<Header>> {
    match Find(all, CRLF2)
    case None => None
    case Some(end) => Some(HeadersOf(all[..end + 4]))
  }

  lemma CapturedExtend(a: bytes, b: bytes)
    requires Captured(a).Some?
    ensures Captured(a + b) == Captured(a)
  {
    FindExtend(a, b, CRLF2);
    var end := Find(a, CRLF2).value;
    assert (a + b)[..end + 4] == a[..end + 4];
  }

  // ---------------------------------------------------------------------------------------
  // Well-formed requests
  // ---------------------------------------------------------------------------------------

  datatype Request = Request(target: bytes, path: bytes, version: bytes, headers: seq<Header>)

  predicate Clean(s: bytes) {
    forall i :: 0 <= i < |s| ==> s[i] < 128 && s[i] != 13
  }

  predicate Trimmed(s: bytes) {
    s != [] ==> !IsSpace(s[0]) && !IsSpace(s[|s| - 1])
  }

  predicate GoodHeader(h: Header) {
    && Clean(h.0) && Clean(h.1) && Trimmed(h.0) && Trimmed(h.1) && h.0 != []
    && 58 !in h.0
  }

  predicate Good(r: Request) {
    && Clean(r.target) && Clean(r.path) && Clean(r.version) && 32 !in r.target && 32 !in r.path
    && r.target != []
    && forall h <- r.headers :: GoodHeader(h)
  }

  function PrintHeaders(hs: seq<Header>): bytes {
    if hs == [] then CRLF else hs[0].0 + [58, 32] + hs[0].1 + CRLF + PrintHeaders(hs[1..])
  }

  function PrintRequest(r: Request): bytes {
    r.target + SPACE + r.path + SPACE + r.version + CRLF + PrintHeaders(r.headers)
  }

  function LowerNames(hs: seq<Header>): seq<Header> {
    if hs == [] then [] else [(Lower(hs[0].0), hs[0].1)] + LowerNames(hs[1..])
  }

  /** A needle whose first element does not occur in `a` is first found right behind `a`. */
  lemma FindBehindClean(a: bytes, needle: bytes, b: bytes)
    requires needle != [] && needle[0] !in a
    ensures Find(a + needle + b, needle) == Some(|a|)
  {
    var s := a + needle;
    forall j: nat | j < |a| ensures !OccursAt(s, needle, j) {
      assert s[j] == a[j] && a[j] in a;
      assert j + |needle| <= |s| ==> s[j..j + |needle|][0] == s[j];
    }
    FindWritten(a, needle, b);
  }

  lemma FirstLine(line: bytes, rest: bytes)
    requires Clean(line)
    ensures Lines(line + CRLF + rest) == [line] + Lines(rest)
  {
    var s := line + CRLF + rest;
    FindBehindClean(line, CRLF, rest);
    assert s[..|line|] == line && s[|line| + 2..] == rest;
  }

  lemma TrimTrimmed(s: bytes)
    requires Trimmed(s)
    ensures Trim(s) == s && Trim([32] + s) == s
  {
    assert ([32] + s)[1..] == s;
    assert TrimStart(s) == s && TrimStart([32] + s) == s;
  }

  lemma HeaderLine(h: Header)
    requires GoodHeader(h)
    ensures FieldOf(h.0 + [58, 32] + h.1) == [(Lower(h.0), h.1)]
  {
    var line := h.0 + [58, 32] + h.1;
    FindBehindClean(h.0, COLON, [32] + h.1);
    assert line == h.0 + COLON + ([32] + h.1);
    assert line[..|h.0|] == h.0 && line[|h.0| + 1..] == [32] + h.1;
    TrimTrimmed(h.0);
    TrimTrimmed(h.1);
  }

  lemma {:induction false} HeaderLines(hs: seq<Header>)
    requires forall h <- hs :: GoodHeader(h)
    ensures Fields(Lines(PrintHeaders(hs))) == LowerNames(hs)
  {
    hide FieldOf;
    if hs == [] {
      FirstLine([], []);
      assert [] + CRLF + [] == CRLF;
      assert Lines(CRLF)[0] == [];
    } else {
      var line := hs[0].0 + [58, 32] + hs[0].1;
      assert GoodHeader(hs[0]);
      FirstLine(line, PrintHeaders(hs[1..]));
      HeaderLine(hs[0]);
      HeaderLines(hs[1..]);
      var ls := Lines(PrintHeaders(hs));
      assert ls == [line] + Lines(PrintHeaders(hs[1..]));
      assert ls[1..] == Lines(PrintHeaders(hs[1..]));
    }
  }

  lemma RequestLine(target: bytes, path: bytes, version: bytes)
    requires 32 !in target && 32 !in path
    ensures Word1(target + SPACE + path + SPACE + version) == target
    ensures Word1(AfterWord1(target + SPACE + path + SPACE + version)) == path
  {
    var line := target + SPACE + path + SPACE + version;
    var rest := path + SPACE + version;
    assert line == target + SPACE + rest;
    FindBehindClean(target, SPACE, rest);
    FindBehindClean(path, SPACE, version);
    assert line[..|target|] == target && line[|target| + 1..] == rest && rest[..|path|] == path;
  }

  lemma {:induction false} TextHeaders(hs: seq<Header>)
    requires forall h <- hs :: GoodHeader(h)
    ensures IsText(PrintHeaders(hs))
  {
    if hs != [] {
      assert GoodHeader(hs[0]);
      TextHeaders(hs[1..]);
    }
  }

  /** Parsing a printed well-formed request returns method, path and headers, in order. */
  lemma PrintedRequest(r: Request)
    requires Good(r)
    ensures HeadersOf(PrintRequest(r)) == [(METHOD, r.target), (PATH, r.path)] + LowerNames(r.headers)
  {
    hide Fields, Word1, AfterWord1, PrintHeaders, LowerNames, GoodHeader;
    var line := r.target + SPACE + r.path + SPACE + r.version;
    TextHeaders(r.headers);
    FirstLine(line, PrintHeaders(r.headers));
    RequestLine(r.target, r.path, r.version);
    HeaderLines(r.headers);
    var ls := Lines(PrintRequest(r));
    assert ls == [line] + Lines(PrintHeaders(r.headers));
    assert ls[0] == line && ls[1..] == Lines(PrintHeaders(r.headers));
  }

  // ---------------------------------------------------------------------------------------
  // Pieces of a block
  // ---------------------------------------------------------------------------------------

  /** The separators and pseudo-headers, spelled out. */
  lemma Spelled()
    ensures CRLF == Ascii("\r\n") && CRLF2 == Ascii("\r\n\r\n") && SPACE == Ascii(" ") && COLON == Ascii(":")
    ensures METHOD == Ascii(":method") && PATH == Ascii(":path")
  {
  }

  function JoinLines(lines: seq<bytes>): bytes
    requires lines != []
  {
    if |lines| == 1 then lines[0] else lines[0] + CRLF + JoinLines(lines[1..])
  }

  lemma LineCut(s: bytes, i: nat)
    requires Find(s, CRLF) == Some(i)
    ensures i + 2 <= |s| && s == s[..i] + CRLF + s[i + 2..] && Find(s[..i], CRLF) == None
  {
    hide FindFrom;
    assert s[i..i + 2] == CRLF;
    if Find(s[..i], CRLF).Some? {
      var k := Find(s[..i], CRLF).value;
      assert s == s[..i] + s[i..];
      OccursExtend(s[..i], s[i..], CRLF, k);
    }
  }

  /** Splitting at CRLF: the pieces hold none, and joined by it they are the text. */
  lemma {:induction false} LinesJoin(s: bytes)
    ensures JoinLines(Lines(s)) == s
    ensures forall line <- Lines(s) :: Find(line, CRLF) == None
    decreases |s|
  {
    hide FindFrom, Find;
    if Find(s, CRLF).Some? {
      var i := Find(s, CRLF).value;
      LineCut(s, i);
      LinesJoin(s[i + 2..]);
      assert Lines(s)[1..] == Lines(s[i + 2..]);
    } else {
      assert Lines(s) == [s];
    }
  }

  lemma {:induction false} TrimStartIs(s: bytes) returns (a: bytes)
    ensures s == a + TrimStart(s) && (forall b <- a :: IsSpace(b))
    ensures TrimStart(s) != [] ==> !IsSpace(TrimStart(s)[0])
  {
    if s != [] && IsSpace(s[0]) {
      var rest := TrimStartIs(s[1..]);
      a := [s[0]] + rest;
      assert s == [s[0]] + s[1..];
      assert [s[0]] + (rest + TrimStart(s[1..])) == a + TrimStart(s[1..]);
    } else {
      a := [];
    }
  }

  lemma {:induction false} TrimEndIs(s: bytes) returns (b: bytes)
    ensures s == TrimEnd(s) + b && (forall x <- b :: IsSpace(x)) && TrimEnd(s) <= s
    ensures TrimEnd(s) != [] ==> !IsSpace(TrimEnd(s)[|TrimEnd(s)| - 1])
  {
    if s != [] && IsSpace(s[|s| - 1]) {
      var front, last := s[..|s| - 1], [s[|s| - 1]];
      var rest := TrimEndIs(front);
      b := rest + last;
      assert s == front + last;
      assert TrimEnd(front) + rest + last == TrimEnd(front) + b;
    } else {
      b := [];
    }
  }

  /** Trimming takes blanks, tabs and line ends off both ends, and nothing else. */
  lemma TrimIs(s: bytes) returns (a: bytes, b: bytes)
    ensures s == a + Trim(s) + b
    ensures forall x <- a + b :: x in {9, 10, 11, 12, 13, 32}
    ensures Trim(s) != [] ==>
      Trim(s)[0] !in {9, 10, 11, 12, 13, 32} && Trim(s)[|Trim(s)| - 1] !in {9, 10, 11, 12, 13, 32}
  {
    a := TrimStartIs(s);
    b := TrimEndIs(TrimStart(s));
    assert a + (Trim(s) + b) == a + Trim(s) + b;
    assert forall x: byte :: IsSpace(x) <==> x in {9, 10, 11, 12, 13, 32};
  }

  lemma ColonAt(s: bytes, p: nat)
    ensures OccursAt(s, COLON, p) ==> p < |s| && s[p] == ':' as int
  {
    if p + 1 <= |s| { assert s[p..p + 1] == [s[p]]; }
  }

  lemma NotFound(name: bytes)
    requires ':' as int !in name
    ensures Find(name, COLON) == None
  {
    hide FindFrom;
    forall p: nat ensures !OccursAt(name, COLON, p) {
      ColonAt(name, p);
    }
  }

  /** A field line is split at its first colon; a line without colon is no field. */
  lemma FieldAt(name: bytes, value: bytes)
    requires ':' as int !in name
    ensures FieldOf(name + [':' as int] + value) == [(Lower(Trim(name)), Trim(value))]
    ensures FieldOf(name) == []
  {
    hide Trim, Lower, FindFrom;
    FindBehindClean(name, COLON, value);
    var line := name + COLON + value;
    assert line[..|name|] == name && line[|name| + 1..] == value;
    NotFound(name);
  }

  /** Nothing behind the first empty line is read. */
  lemma {:induction false} FieldsStop(lines: seq<bytes>, behind: seq<bytes>)
    requires forall line <- lines :: line != []
    ensures Fields(lines + [[]] + behind) == Fields(lines)
    decreases |lines|
  {
    hide FieldOf;
    var all := lines + [[]] + behind;
    if lines == [] {
      assert all[0] == [];
    } else {
      assert all[0] == lines[0] && all[1..] == lines[1..] + [[]] + behind;
      assert forall line <- lines[1..] :: line in lines;
      FieldsStop(lines[1..], behind);
    }
  }
}
