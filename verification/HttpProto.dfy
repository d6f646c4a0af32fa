/**
 * The hand-written request encoder and response decoder of the HTTP filter. Header names and
 * values are valid UTF-8 byte strings, on which decoding is the identity.
 */
module HttpProto {
  import opened Bytes
  import opened Varint
  import opened ProtoRecords

  // ---------------------------------------------------------------------------------------
  // HttpRequest { headers = 1 (repeated Header), body = 2 (bytes) }, Header { key = 1, value = 2 }
  // ---------------------------------------------------------------------------------------

  function LenField(field: nat, data: bytes): bytes
    requires field < 16 && |data| < WORD32
  {
    Encode(field * 8 + 2) + Encode(|data|) + data
  }

  /** `push_len_field`. */
  method PushLenField(field: nat, data: bytes, buf: bytes) returns (r: bytes)
    requires field < 16 && |data| < WORD32
    ensures r == buf + LenField(field, data)
  {
    var tag := field * 8 + 2;
    r := WriteVarint(buf, tag);
    r := WriteVarint(r, |data|);
    r := r + data;
  }

  function HeaderSize(h: Header): nat {
    |h.0| + |h.1| + 22
  }

  /** Everything the encoder builds has a length that a 32-bit word holds. */
  predicate InMemory(headers: seq<Header>, body: bytes) {
    |body| < WORD32 && forall h <- headers :: HeaderSize(h) < WORD32
  }

  lemma ShortTag(field: nat)
    requires 1 <= field < 3
    ensures Encode(field * 8 + 2) == [field * 8 + 2]
  {
  }

  function EncodeHeader(h: Header): (r: bytes)
    requires HeaderSize(h) < WORD32
    ensures |r| < WORD32
  {
    ShortTag(1);
    ShortTag(2);
    EncodeAtMostTen(|h.0|);
    EncodeAtMostTen(|h.1|);
    LenField(1, h.0) + LenField(2, h.1)
  }

  function EncodeHeaders(headers: seq<Header>): bytes
    requires forall h <- headers :: HeaderSize(h) < WORD32
  {
    if headers == [] then []
    else LenField(1, EncodeHeader(headers[0])) + EncodeHeaders(headers[1..])
  }

  function EncodeRequest(headers: seq<Header>, body: bytes): bytes
    requires InMemory(headers, body)
  {
    EncodeHeaders(headers) + if body == [] then [] else LenField(2, body)
  }

  lemma Flatten(a: bytes, b: bytes)
    ensures [] + a + b == a + b
  {
  }

  lemma Associate(a: bytes, b: bytes, c: bytes)
    ensures a + b + c == a + (b + c)
  {
  }

  /** `encode_http_request`. */
  method EncodeHttpRequest(headers: seq<Header>, body: bytes) returns (out: bytes)
    requires InMemory(headers, body)
    ensures out == EncodeRequest(headers, body)
  {
    hide LenField;
    out := [];
    assert headers[0..] == headers;
    assert [] + EncodeHeaders(headers) == EncodeHeaders(headers);
    for i := 0 to |headers|
      invariant out + EncodeHeaders(headers[i..]) == EncodeHeaders(headers)
    {
      var (k, v) := headers[i];
      assert HeaderSize(headers[i]) < WORD32;
      var h := PushLenField(1, k, []);
      h := PushLenField(2, v, h);
      assert h == EncodeHeader(headers[i]) by { Flatten(LenField(1, k), LenField(2, v)); }
      assert headers[i..][0] == headers[i] && headers[i..][1..] == headers[i + 1..];
      var before := out;
      out := PushLenField(1, h, out);
      Associate(before, LenField(1, h), EncodeHeaders(headers[i + 1..]));
    }
    assert headers[|headers|..] == [] && out + [] == out;
    if body != [] {
      out := PushLenField(2, body, out);
    }
  }

  lemma LenFits(field: nat, data: bytes)
    requires 1 <= field < 3 && |data| < WORD32
    ensures var r := Delimited(Encode(field * 8 + 2), Encode(|data|), data);
      WellFormed(r) && Field(r) == field && PrintRec(r) == LenField(field, data)
  {
    hide IsVarint, ValueOf, Encode;
    EncodedIsVarint(field * 8 + 2);
    EncodedIsVarint(|data|);
    assert (field * 8 + 2) % 8 == 2 && (field * 8 + 2) / 8 == field;
    assert |data| % WORD32 == |data|;
    Associate(Encode(field * 8 + 2), Encode(|data|), data);
  }

  /** The record a length-delimited field is. */
  function LenRec(field: nat, data: bytes): (r: Record)
    requires 1 <= field < 3 && |data| < WORD32
    ensures Field(r) == field && r.Delimited? && r.data == data && PrintRec(r) == LenField(field, data)
  {
    LenFits(field, data);
    Delimited(Encode(field * 8 + 2), Encode(|data|), data)
  }

  // ---------------------------------------------------------------------------------------
  // A specification decoder of requests
  // ---------------------------------------------------------------------------------------

  function DecodeRequestHeader(data: bytes): Option<Header> {
    match Records(data)
    case None => None
    case Some(rs) =>
      if |rs| == 2 && rs[0].Delimited? && Field(rs[0]) == 1 && rs[1].Delimited? && Field(rs[1]) == 2
      then Some((rs[0].data, rs[1].data)) else None
  }

  function DecodeRecords(rs: seq<Record>): Option<(seq<Header>, bytes)> {
    if rs == [] then Some(([], []))
    else if rs[0].Delimited? && Field(rs[0]) == 1 then
      match (DecodeRequestHeader(rs[0].data), DecodeRecords(rs[1..]))
      case (Some(h), Some((hs, body))) => Some(([h] + hs, body))
      case _ => None
    else if rs[0].Delimited? && Field(rs[0]) == 2 && |rs| == 1 then Some(([], rs[0].data))
    else None
  }

  function DecodeRequest(raw: bytes): Option<(seq<Header>, bytes)> {
    match Records(raw)
    case None => None
    case Some(rs) => DecodeRecords(rs)
  }

  lemma HeaderRoundTrip(h: Header)
    requires HeaderSize(h) < WORD32
    ensures DecodeRequestHeader(EncodeHeader(h)) == Some(h)
  {
    hide WellFormed, LenField, PrintRec, Records;
    assert h == (h.0, h.1);
    var a, b := LenRec(1, h.0), LenRec(2, h.1);
    PrintTwo(a, b);
    RecordsIff(EncodeHeader(h), [a, b]);
  }

  function RequestRecs(headers: seq<Header>, body: bytes): seq<Record>
    requires InMemory(headers, body)
  {
    if headers == [] then if body == [] then [] else [LenRec(2, body)]
    else [LenRec(1, EncodeHeader(headers[0]))] + RequestRecs(headers[1..], body)
  }

  lemma {:induction false} RequestRecords(headers: seq<Header>, body: bytes)
    requires InMemory(headers, body)
    ensures PrintRecs(RequestRecs(headers, body)) == EncodeRequest(headers, body)
    ensures DecodeRecords(RequestRecs(headers, body)) == Some((headers, body))
  {
    hide WellFormed, LenField, PrintRec, EncodeHeader, DecodeRequestHeader;
    var rs := RequestRecs(headers, body);
    if headers == [] {
      if body != [] {
        assert rs[1..] == [];
        assert PrintRec(rs[0]) + [] == PrintRec(rs[0]);
        assert [] + LenField(2, body) == LenField(2, body);
      }
    } else {
      RequestRecords(headers[1..], body);
      HeaderRoundTrip(headers[0]);
      assert rs[1..] == RequestRecs(headers[1..], body);
      Associate(LenField(1, EncodeHeader(headers[0])), EncodeHeaders(headers[1..]),
                if body == [] then [] else LenField(2, body));
      assert headers == [headers[0]] + headers[1..];
    }
  }

  /** The specification decoder inverts the encoder, through two nested levels of fields. */
  lemma RequestRoundTrip(headers: seq<Header>, body: bytes)
    requires InMemory(headers, body)
    ensures DecodeRequest(EncodeRequest(headers, body)) == Some((headers, body))
  {
    hide WellFormed, EncodeRequest, RequestRecs, DecodeRecords, Records;
    RequestRecords(headers, body);
    RecordsIff(EncodeRequest(headers, body), RequestRecs(headers, body));
  }

  /** Distinct requests never share bytes. */
  lemma RequestInjective(h1: seq<Header>, b1: bytes, h2: seq<Header>, b2: bytes)
    requires InMemory(h1, b1) && InMemory(h2, b2)
    ensures EncodeRequest(h1, b1) == EncodeRequest(h2, b2) <==> h1 == h2 && b1 == b2
  {
    hide EncodeRequest, DecodeRequest;
    RequestRoundTrip(h1, b1);
    RequestRoundTrip(h2, b2);
  }

  // ---------------------------------------------------------------------------------------
  // HttpResponse { status = 1 (uint32), headers = 2 (repeated Header), body = 3 (bytes) }
  // ---------------------------------------------------------------------------------------

  datatype Response = Response(status: nat, headers: seq<Header>, body: bytes)

  const DEFAULT := Response(200, [], [])

  /** Results of the decoder; `Panicked` stands for a slice out of range. */
  datatype Outcome = Decoded(response: Response) | Rejected | Panicked

  datatype HeaderOutcome = Parsed(header: Header) | NoHeader | HeaderPanicked

  /** A header message is a record list. */
  predicate IsMessage(data: bytes) {
    Records(data).Some?
  }

  predicate Plain(r: Record) {
    r.VarintRec? || r.Delimited?
  }

  /** The records in front of the first fixed-width one, at which the header decoder stops. */
  function PlainPart(rs: seq<Record>): (r: seq<Record>)
    ensures r <= rs
  {
    if rs == [] || !Plain(rs[0]) then [] else [rs[0]] + PlainPart(rs[1..])
  }

  lemma {:induction false} PlainPartIs(rs: seq<Record>, back: seq<Record>)
    requires forall r <- rs :: Plain(r)
    requires back == [] || !Plain(back[0])
    ensures PlainPart(rs + back) == rs
  {
    hide WellFormed;
    if rs == [] {
      assert rs + back == back;
    } else {
      assert Plain(rs[0]) && (rs + back)[1..] == rs[1..] + back;
      PlainPartIs(rs[1..], back);
    }
  }

  /** The last key and the last value count. */
  function ApplyHeader(h: Header, r: Record): Header {
    if r.Delimited? && Field(r) == 1 then (r.data, h.1)
    else if r.Delimited? && Field(r) == 2 then (h.0, r.data)
    else h
  }

  function FoldHeader(h: Header, rs: seq<Record>): Header
    decreases |rs|
  {
    if rs == [] then h else ApplyHeader(FoldHeader(h, rs[..|rs| - 1]), rs[|rs| - 1])
  }

  /** The header that the plain records of a message denote: none when the key is empty. */
  function HeaderMeaning(data: bytes): seq<Header>
    requires IsMessage(data)
  {
    var h := FoldHeader(([], []), PlainPart(Records(data).value));
    if h.0 == [] then [] else [h]
  }

  predicate IsHeader(r: Record) {
    r.Delimited? && Field(r) == 2
  }

  /** Every header record holds a record list. */
  predicate Readable(rs: seq<Record>) {
    forall r <- rs :: IsHeader(r) ==> IsMessage(r.data)
  }

  function ApplyRec(p: Response, r: Record): Response
    requires IsHeader(r) ==> IsMessage(r.data)
  {
    if r.VarintRec? && Field(r) == 1 then p.(status := ValueOf(r.val) % WORD32)
    else if IsHeader(r) then p.(headers := p.headers + HeaderMeaning(r.data))
    else if r.Delimited? && Field(r) == 3 then p.(body := p.body + r.data)
    else p
  }

  /** Meaning of a record list, in any order: last status, headers in order, bodies appended. */
  function FoldResponse(p: Response, rs: seq<Record>): Response
    requires Readable(rs)
    decreases |rs|
  {
    if rs == [] then p else ApplyRec(FoldResponse(p, rs[..|rs| - 1]), rs[|rs| - 1])
  }

  /** The end of the body of wire type `wire` at `j`, as the decoders advance their cursor. */
  function CursorEnd(data: bytes, j: nat, wire: nat): nat
    requires j <= |data| && (wire == 0 || wire == 2 ==> Decode(data[j..]).Some?)
  {
    if wire == 0 then j + Decode(data[j..]).value.size
    else if wire == 2 then j + Decode(data[j..]).value.size + Decode(data[j..]).value.value % WORD32
    else if wire == 1 then j + 8
    else j + 4
  }

  /** `r` is the record of `data` whose body of the given field and wire type starts at `j`. */
  ghost predicate AtCursor(data: bytes, j: nat, field: nat, wire: nat, r: Record)
    requires j <= |data|
  {
    && Wire(r) == wire && Field(r) == field
    && (wire == 0 || wire == 2 ==> Decode(data[j..]).Some?)
    && CursorEnd(data, j, wire) <= |data|
    && (wire == 0 ==> Decode(data[j..]).value.value == ValueOf(r.val))
    && (wire == 2 ==> r.data == data[j + Decode(data[j..]).value.size..CursorEnd(data, j, 2)])
  }

  /** `r` is the record at cursor `i`, and reading goes on behind it. */
  ghost predicate Turned(data: bytes, i: nat, rs: seq<Record>, r: Record)
    requires i <= |data|
  {
    && Decode(data[i..]).Some?
    && var tag := Decode(data[i..]).value;
    && i + tag.size <= |data|
    && AtCursor(data, i + tag.size, (tag.value / 8) % WORD32, tag.value % 8, r)
    && ReadTo(data, CursorEnd(data, i + tag.size, tag.value % 8), rs + [r])
  }

  lemma CursorIsSkip(data: bytes, j: nat, wire: nat)
    requires j <= |data| && SkipField(data, j, wire).Some?
    ensures wire == 0 || wire == 2 ==> Decode(data[j..]).Some?
    ensures CursorEnd(data, j, wire) == SkipField(data, j, wire).value
  {
    hide Decode;
  }

  lemma HasRecord(data: bytes, i: nat, rs: seq<Record>)
    requires Records(data).Some? && ReadTo(data, i, rs) && i < |data|
    ensures ReadRec(data[i..]).Some? && Decode(data[i..]).Some?
    ensures rs + [ReadRec(data[i..]).value.0] <= Records(data).value
  {
    hide Decode;
    var r := ReadRec(data[i..]).value.0;
    assert Records(data[i..]).value[0] == r;
  }

  lemma PrefixMember(rs: seq<Record>, r: Record, all: seq<Record>)
    requires rs + [r] <= all
    ensures r in all
  {
    assert all[|rs|] == (rs + [r])[|rs|];
  }

  /** What a decoder's turn meets in a message that is a record list. */
  lemma Turn(data: bytes, i: nat, rs: seq<Record>) returns (r: Record)
    requires Records(data).Some? && ReadTo(data, i, rs) && i < |data|
    ensures Turned(data, i, rs, r)
    ensures rs + [r] <= Records(data).value && r in Records(data).value
  {
    hide Decode, WellFormed, Records, ReadRec, ReadTo, Field, ValueOf, IsVarint, SkipField, CursorEnd;
    ReadStep(data, i, rs);
    HasRecord(data, i, rs);
    RecordAt(data, i);
    r := ReadRec(data[i..]).value.0;
    CursorIsSkip(data, i + Decode(data[i..]).value.size, Decode(data[i..]).value.value % 8);
    PrefixMember(rs, r, Records(data).value);
  }

  lemma FoldTurns(rs: seq<Record>, r: Record)
    ensures FoldHeader(([], []), rs + [r]) == ApplyHeader(FoldHeader(([], []), rs), r)
    ensures Readable(rs + [r]) ==>
      Readable(rs) && FoldResponse(DEFAULT, rs + [r]) == ApplyRec(FoldResponse(DEFAULT, rs), r)
  {
    hide ApplyHeader, ApplyRec, IsHeader, IsMessage;
    assert (rs + [r])[..|rs|] == rs;
    assert (rs + [r])[|rs|] == r;
    assert forall x <- rs :: x in rs + [r];
  }

  lemma ReadablePrefix(rs: seq<Record>, all: seq<Record>)
    requires Readable(all) && rs <= all
    ensures Readable(rs)
  {
    hide IsHeader, IsMessage;
    assert forall x <- rs :: x in all;
  }

  /** The plain part goes up to the first record of fixed width. */
  lemma {:induction false} PlainPartEnds(rs: seq<Record>)
    ensures PlainPart(rs) <= rs && forall r <- PlainPart(rs) :: r.VarintRec? || r.Delimited?
    ensures |PlainPart(rs)| < |rs| ==> rs[|PlainPart(rs)|].Fixed32? || rs[|PlainPart(rs)|].Fixed64?
  {
    hide WellFormed;
    if rs != [] { PlainPartEnds(rs[1..]); }
  }

  lemma Stopped(rs: seq<Record>, r: Record, all: seq<Record>)
    requires (forall x <- rs :: Plain(x)) && !Plain(r) && rs + [r] <= all
    ensures PlainPart(all) == rs
  {
    hide WellFormed;
    var back := all[|rs|..];
    assert all == rs + back && back[0] == (rs + [r])[|rs|];
    PlainPartIs(rs, back);
  }

  lemma FoldsNothing()
    ensures FoldHeader(([], []), []) == ([], [])
    ensures Readable([]) && FoldResponse(DEFAULT, []) == DEFAULT
  {
  }

  /** `decode_header`. */
  method DecodeHeader(msg: bytes) returns (r: HeaderOutcome)
    ensures IsMessage(msg) ==> r == (if HeaderMeaning(msg) == [] then NoHeader else Parsed(HeaderMeaning(msg)[0]))
  {
    hide Decode, ReadRec, WellFormed, IsVarint, ValueOf, Field, Records, ReadTo, FoldHeader, PlainPart;
    var key: bytes, val: bytes := [], [];
    var pos: nat := 0;
    ghost var ok := IsMessage(msg);
    ghost var rs: seq<Record> := [];
    FirstReading(msg);
    FoldsNothing();
    while pos < |msg|
      invariant ok ==> pos <= |msg| && ReadTo(msg, pos, rs) && FoldHeader(([], []), rs) == (key, val)
      invariant forall r <- rs :: Plain(r)
      decreases |msg| - pos
    {
      if ok {
        var r := Turn(msg, pos, rs);
        FoldTurns(rs, r);
        if Plain(r) {
          rs := rs + [r];
        } else {
          Stopped(rs, r, Records(msg).value);
        }
      }
      var tag := ReadVarintSlice(msg[pos..]);
      if tag == None { return NoHeader; }
      pos := pos + tag.value.size;
      var field := (tag.value.value / 8) % WORD32;
      var wire := tag.value.value % 8;
      if wire == 2 {
        var l := ReadVarintSlice(msg[pos..]);
        if l == None { return NoHeader; }
        pos := pos + l.value.size;
        var len := l.value.value % WORD32;
        if field == 1 || field == 2 {
          if pos + len > |msg| { return HeaderPanicked; }
          if field == 1 { key := msg[pos..pos + len]; } else { val := msg[pos..pos + len]; }
        }
        pos := pos + len;
      } else if wire == 0 {
        var v := ReadVarintSlice(msg[pos..]);
        if v == None { return NoHeader; }
        pos := pos + v.value.size;
      } else {
        return if key == [] then NoHeader else Parsed((key, val));
      }
    }
    if ok {
      LastReading(msg, rs);
      PlainPartIs(rs, []);
      assert rs + [] == rs;
    }
    return if key == [] then NoHeader else Parsed((key, val));
  }

  /** The effect of a record by field and wire type. */
  lemma ApplyCases(p: Response, r: Record)
    requires IsHeader(r) ==> IsMessage(r.data)
    ensures Wire(r) == 0 ==> ApplyRec(p, r) == (if Field(r) == 1 then p.(status := ValueOf(r.val) % WORD32) else p)
    ensures Wire(r) == 2 && Field(r) == 2 ==>
      IsMessage(r.data) && ApplyRec(p, r) == p.(headers := p.headers + HeaderMeaning(r.data))
    ensures Wire(r) == 2 && Field(r) == 3 ==> ApplyRec(p, r) == p.(body := p.body + r.data)
    ensures Wire(r) == 2 && Field(r) != 2 && Field(r) != 3 ==> ApplyRec(p, r) == p
    ensures Wire(r) == 1 || Wire(r) == 5 ==> ApplyRec(p, r) == p
  {
    hide ValueOf, IsMessage, HeaderMeaning, WellFormed;
  }

  lemma PlainOf(rs: seq<Record>, r: Record)
    requires Readable(rs) && r in rs
    ensures IsHeader(r) ==> IsMessage(r.data)
  {
  }

  lemma OneOrNone(data: bytes)
    requires IsMessage(data)
    ensures HeaderMeaning(data) == [] || HeaderMeaning(data) == [HeaderMeaning(data)[0]]
  {
  }

  /** What a turn of the response decoder meets, and what the record there does to the response. */
  lemma ResponseTurn(raw: bytes, pos: nat, rs: seq<Record>) returns (r: Record)
    requires Records(raw).Some? && Readable(Records(raw).value)
    requires ReadTo(raw, pos, rs) && Readable(rs) && pos < |raw|
    ensures Turned(raw, pos, rs, r) && Readable(rs + [r])
    ensures var p, q := FoldResponse(DEFAULT, rs), FoldResponse(DEFAULT, rs + [r]);
      && (Wire(r) == 0 ==> q == if Field(r) == 1 then p.(status := ValueOf(r.val) % WORD32) else p)
      && (Wire(r) == 2 && Field(r) == 2 ==> IsMessage(r.data) && q == p.(headers := p.headers + HeaderMeaning(r.data)))
      && (Wire(r) == 2 && Field(r) == 3 ==> q == p.(body := p.body + r.data))
      && (Wire(r) == 2 && Field(r) != 2 && Field(r) != 3 ==> q == p)
      && (Wire(r) == 1 || Wire(r) == 5 ==> q == p)
  {
    hide Decode, WellFormed, ValueOf, Field, Records, ReadTo, IsMessage, HeaderMeaning, FoldResponse, Readable,
         ApplyRec, IsHeader, Turned;
    r := Turn(raw, pos, rs);
    ReadablePrefix(rs + [r], Records(raw).value);
    FoldTurns(rs, r);
    PlainOf(Records(raw).value, r);
    ApplyCases(FoldResponse(DEFAULT, rs), r);
  }

  /** `decode_http_response`. */
  method DecodeHttpResponse(raw: bytes) returns (r: Outcome)
    ensures Records(raw).Some? && Readable(Records(raw).value) ==>
      r == Decoded(FoldResponse(DEFAULT, Records(raw).value))
  {
    hide Decode, ReadRec, WellFormed, IsVarint, ValueOf, Field, Records, ReadTo, IsMessage, HeaderMeaning, FoldResponse,
         Readable, ApplyRec, IsHeader;
    var status: nat, headers: seq<Header>, body: bytes := 200, [], [];
    var pos: nat := 0;
    ghost var ok := Records(raw).Some? && Readable(Records(raw).value);
    ghost var rs: seq<Record> := [];
    FirstReading(raw);
    FoldsNothing();
    while pos < |raw|
      invariant ok ==> pos <= |raw| && ReadTo(raw, pos, rs) && Readable(rs)
      invariant ok ==> FoldResponse(DEFAULT, rs) == Response(status, headers, body)
      decreases |raw| - pos
    {
      ghost var rec: Rec;
      if ok {
        var r := ResponseTurn(raw, pos, rs);
        rs := rs + [r];
        rec := r;
      }
      var tag := ReadVarintSlice(raw[pos..]);
      if tag == None { return Rejected; }
      pos := pos + tag.value.size;
      var field := (tag.value.value / 8) % WORD32;
      var wire := tag.value.value % 8;
      if wire == 0 {
        var v := ReadVarintSlice(raw[pos..]);
        if v == None { return Rejected; }
        pos := pos + v.value.size;
        if field == 1 { status := v.value.value % WORD32; }
      } else if wire == 2 {
        var l := ReadVarintSlice(raw[pos..]);
        if l == None { return Rejected; }
        pos := pos + l.value.size;
        var len := l.value.value % WORD32;
        if field == 2 {
          if pos + len > |raw| { return Panicked; }
          var h := DecodeHeader(raw[pos..pos + len]);
          if h.HeaderPanicked? { return Panicked; }
          if h.Parsed? { headers := headers + [h.header]; }
          if ok { OneOrNone(rec.data); }
        } else if field == 3 {
          if pos + len > |raw| { return Panicked; }
          body := body + raw[pos..pos + len];
        }
        pos := pos + len;
      } else if wire == 5 {
        pos := pos + 4;
      } else if wire == 1 {
        pos := pos + 8;
      } else {
        break;
      }
    }
    if ok { LastReading(raw, rs); }
    return Decoded(Response(status, headers, body));
  }

  // ---------------------------------------------------------------------------------------
  // Record order
  // ---------------------------------------------------------------------------------------

  /** The values of all status records, in order. */
  function Statuses(rs: seq<Record>): seq<nat> {
    if rs == [] then [] else
    var r := rs[|rs| - 1];
    Statuses(rs[..|rs| - 1]) + if r.VarintRec? && Field(r) == 1 then [ValueOf(r.val) % WORD32] else []
  }

  /** The headers of all header records, in order. */
  function HeadersIn(rs: seq<Record>): seq<Header>
    requires Readable(rs)
  {
    if rs == [] then [] else
    var r := rs[|rs| - 1];
    HeadersIn(rs[..|rs| - 1]) + if IsHeader(r) then HeaderMeaning(r.data) else []
  }

  /** The contents of all body records, in order. */
  function Bodies(rs: seq<Record>): seq<bytes> {
    if rs == [] then [] else
    var r := rs[|rs| - 1];
    Bodies(rs[..|rs| - 1]) + if r.Delimited? && Field(r) == 3 then [r.data] else []
  }

  /** How the three subsequences and the fold grow by one record. */
  lemma Grow(front: seq<Record>, r: Record)
    requires Readable(front + [r])
    ensures Readable(front) && (IsHeader(r) ==> IsMessage(r.data))
    ensures Statuses(front + [r]) ==
      Statuses(front) + if Wire(r) == 0 && Field(r) == 1 then [ValueOf(r.val) % WORD32] else []
    ensures HeadersIn(front + [r]) == HeadersIn(front) + if IsHeader(r) then HeaderMeaning(r.data) else []
    ensures Bodies(front + [r]) == Bodies(front) + if Wire(r) == 2 && Field(r) == 3 then [r.data] else []
    ensures FoldResponse(DEFAULT, front + [r]) == ApplyRec(FoldResponse(DEFAULT, front), r)
  {
    hide WellFormed, Field, ValueOf, IsHeader, IsMessage, HeaderMeaning, ApplyRec;
    var rs := front + [r];
    assert rs[..|rs| - 1] == front && rs[|rs| - 1] == r && r in rs;
    ReadablePrefix(front, rs);
  }

  lemma NothingAdded(statuses: seq<nat>, headers: seq<Header>, bodies: seq<bytes>)
    ensures statuses + [] == statuses && headers + [] == headers && bodies + [] == bodies
  {
  }

  lemma NoFields()
    ensures Statuses([]) == [] && HeadersIn([]) == [] && Bodies([]) == []
  {
  }

  /**
   * For records in any order and any encoding, interleaved with unknown ones, the response has
   * the last status (200 without one), the headers in order, and the bodies joined.
   */
  lemma {:induction false} AnyOrder(rs: seq<Record>)
    requires Readable(rs)
    ensures Records(PrintRecs(rs)) == Some(rs)
    ensures FoldResponse(DEFAULT, rs) == Response(
              if Statuses(rs) == [] then 200 else Statuses(rs)[|Statuses(rs)| - 1], HeadersIn(rs), Concat(Bodies(rs)))
  {
    hide WellFormed, Field, ValueOf, IsMessage, HeaderMeaning, Records, ApplyRec, Statuses, HeadersIn, Bodies,
         FoldResponse, Readable;
    RecordsIff(PrintRecs(rs), rs);
    if rs == [] {
      FoldsNothing();
      NoFields();
    } else {
      var front, r := rs[..|rs| - 1], rs[|rs| - 1];
      assert rs == front + [r];
      Grow(front, r);
      AnyOrder(front);
      ApplyCases(FoldResponse(DEFAULT, front), r);
      if Wire(r) == 2 { ConcatSnoc(Bodies(front), r.data); }
      NothingAdded(Statuses(front), HeadersIn(front), Bodies(front));
    }
  }

  /** A record that is neither status, nor header, nor body. */
  predicate IsUnknown(r: Record) {
    !IsHeader(r) && !(r.VarintRec? && Field(r) == 1) && !(r.Delimited? && Field(r) == 3)
  }

  /** Dropping records keeps a list readable. */
  lemma ReadableSubset(rs: seq<Record>, some: seq<Record>)
    requires Readable(rs) && forall r <- some :: r in rs
    ensures Readable(some)
  {
    hide IsHeader, IsMessage;
  }

  lemma MembersOfThree(front: seq<Record>, r: Record, back: seq<Record>)
    ensures forall x <- front + back :: x in front + [r] + back
    ensures forall x <- front + [r] :: x in front + [r] + back
    ensures forall x <- front :: x in front + [r] + back
  {
    hide WellFormed;
  }

  lemma UnknownApplies(p: Response, r: Record)
    requires IsUnknown(r)
    ensures ApplyRec(p, r) == p
  {
  }

  /** A record the decoder does not know, of any wire type and at any place, changes nothing. */
  lemma {:induction false} UnknownIgnored(front: seq<Record>, r: Record, back: seq<Record>)
    requires Readable(front + [r] + back) && IsUnknown(r)
    ensures Readable(front + back)
    ensures FoldResponse(DEFAULT, front + [r] + back) == FoldResponse(DEFAULT, front + back)
    decreases |back|
  {
    hide WellFormed, IsHeader, IsMessage, HeaderMeaning, FoldResponse, Readable, ApplyRec;
    MembersOfThree(front, r, back);
    ReadableSubset(front + [r] + back, front + back);
    if back == [] {
      assert front + [r] + back == front + [r] && front + back == front;
      FoldTurns(front, r);
      UnknownApplies(FoldResponse(DEFAULT, front), r);
    } else {
      var init, last := back[..|back| - 1], back[|back| - 1];
      assert back == init + [last];
      assert front + [r] + back == front + [r] + init + [last] && front + back == front + init + [last];
      FoldTurns(front + [r] + init, last);
      FoldTurns(front + init, last);
      UnknownIgnored(front, r, init);
    }
  }

  // ---------------------------------------------------------------------------------------
  // Which record is which
  // ---------------------------------------------------------------------------------------

  predicate HasField(rs: seq<Record>, number: nat) {
    exists r <- rs :: r.Delimited? && Field(r) == number
  }

  lemma {:induction false} FoldHeaderKeeps(front: seq<Record>, back: seq<Record>)
    ensures var h, g := FoldHeader(([], []), front), FoldHeader(([], []), front + back);
      && (!HasField(back, 1) ==> g.0 == h.0)
      && (!HasField(back, 2) ==> g.1 == h.1)
    decreases |back|
  {
    hide WellFormed, Field, FoldHeader;
    if back == [] {
      assert front + back == front;
    } else {
      var init, last := back[..|back| - 1], back[|back| - 1];
      assert back == init + [last] && front + back == front + init + [last];
      FoldHeaderKeeps(front, init);
      FoldTurns(front + init, last);
      assert last in back && forall r <- init :: r in back;
    }
  }

  /** The key is the data of the last length-delimited record with number 1. */
  lemma LastKey(front: seq<Record>, r: Record, back: seq<Record>)
    requires r.Delimited? && Field(r) == 1 && !HasField(back, 1)
    ensures FoldHeader(([], []), front + [r] + back).0 == r.data
  {
    hide WellFormed, Field, FoldHeader, HasField;
    FoldHeaderKeeps(front + [r], back);
    FoldTurns(front, r);
  }

  /** The value is the data of the last length-delimited record with number 2. */
  lemma LastValue(front: seq<Record>, r: Record, back: seq<Record>)
    requires r.Delimited? && Field(r) == 2 && !HasField(back, 2)
    ensures FoldHeader(([], []), front + [r] + back).1 == r.data
  {
    hide WellFormed, Field, FoldHeader, HasField;
    FoldHeaderKeeps(front + [r], back);
    FoldTurns(front, r);
  }

  /** Without such records key and value are empty. */
  lemma NoKeyNoValue(rs: seq<Record>)
    ensures !HasField(rs, 1) ==> FoldHeader(([], []), rs).0 == []
    ensures !HasField(rs, 2) ==> FoldHeader(([], []), rs).1 == []
  {
    hide WellFormed, Field, FoldHeader, HasField;
    FoldHeaderKeeps([], rs);
    FoldsNothing();
    assert [] + rs == rs;
  }

  /** Of the plain part of a header message the last key and the last value count. */
  lemma HeaderMeaningIs(data: bytes, front: seq<Record>, r: Record, back: seq<Record>)
    requires IsMessage(data) && PlainPart(Records(data).value) == front + [r] + back && r.Delimited?
    ensures Field(r) == 1 && !HasField(back, 1) ==>
      if r.data == [] then HeaderMeaning(data) == []
      else |HeaderMeaning(data)| == 1 && HeaderMeaning(data)[0].0 == r.data
    ensures Field(r) == 2 && !HasField(back, 2) && HeaderMeaning(data) != [] ==> HeaderMeaning(data)[0].1 == r.data
  {
    hide WellFormed, Field, FoldHeader, HasField, PlainPart, Records;
    if Field(r) == 1 && !HasField(back, 1) { LastKey(front, r, back); }
    if Field(r) == 2 && !HasField(back, 2) { LastValue(front, r, back); }
  }

  lemma OneField(r: Record, number: nat)
    requires r.Delimited? && Field(r) == number
    ensures forall n: nat :: n != number ==> !HasField([r], n)
  {
    hide WellFormed, Field;
  }

  lemma NoFieldLeft()
    ensures forall n: nat :: !HasField([], n)
  {
    hide WellFormed, Field;
  }

  /** What the encoder writes for a header, the decoder reads as that header. */
  lemma HeaderReadBack(h: Header)
    requires HeaderSize(h) < WORD32
    ensures IsMessage(EncodeHeader(h))
    ensures HeaderMeaning(EncodeHeader(h)) == if h.0 == [] then [] else [h]
  {
    hide WellFormed, LenField, PrintRec, Records, Field, FoldHeader, PlainPart;
    var a, b := LenRec(1, h.0), LenRec(2, h.1);
    PrintTwo(a, b);
    RecordsIff(EncodeHeader(h), [a, b]);
    PlainPartIs([a, b], []);
    assert [a, b] + [] == [a, b] && [] + [a] + [b] == [a, b] && [a] + [b] + [] == [a, b];
    OneField(b, 2);
    NoFieldLeft();
    LastKey([], a, [b]);
    LastValue([a], b, []);
    assert h == (h.0, h.1);
  }

  lemma {:induction false} RequestSize(headers: seq<Header>, body: bytes)
    requires InMemory(headers, body)
    ensures |RequestRecs(headers, body)| == |headers| + (if body == [] then 0 else 1)
  {
    hide EncodeHeader, WellFormed, Field;
    if headers != [] { RequestSize(headers[1..], body); }
  }

  lemma RecsTail(headers: seq<Header>, body: bytes)
    requires InMemory(headers, body) && headers != []
    ensures InMemory(headers[1..], body)
    ensures var rs, tail := RequestRecs(headers, body), RequestRecs(headers[1..], body);
      forall k :: 0 < k < |rs| ==> k - 1 < |tail| && rs[k] == tail[k - 1]
  {
    hide EncodeHeader, WellFormed, Field;
  }

  lemma RecsHead(headers: seq<Header>, body: bytes)
    requires InMemory(headers, body) && headers != []
    ensures HeaderSize(headers[0]) < WORD32 && RequestRecs(headers, body) != []
    ensures var r := RequestRecs(headers, body)[0];
      r.Delimited? && Field(r) == 1 && r.data == EncodeHeader(headers[0])
  {
    hide EncodeHeader, WellFormed, Field;
  }

  lemma {:induction false} HeaderRecAt(headers: seq<Header>, body: bytes, i: nat)
    requires InMemory(headers, body) && i < |headers|
    ensures HeaderSize(headers[i]) < WORD32 && i < |RequestRecs(headers, body)|
    ensures var r := RequestRecs(headers, body)[i];
      r.Delimited? && Field(r) == 1 && r.data == EncodeHeader(headers[i])
  {
    hide EncodeHeader, WellFormed, Field, RequestRecs, InMemory;
    if i == 0 {
      RecsHead(headers, body);
    } else {
      RecsTail(headers, body);
      HeaderRecAt(headers[1..], body, i - 1);
      assert headers[1..][i - 1] == headers[i];
      RequestSize(headers, body);
    }
  }

  lemma {:induction false} BodyRecLast(headers: seq<Header>, body: bytes)
    requires InMemory(headers, body) && body != []
    ensures |headers| < |RequestRecs(headers, body)|
    ensures var r := RequestRecs(headers, body)[|headers|];
      r.Delimited? && Field(r) == 2 && r.data == body
  {
    hide EncodeHeader, WellFormed, Field;
    RequestSize(headers, body);
    if headers != [] {
      BodyRecLast(headers[1..], body);
      RecsTail(headers, body);
    }
  }

  /**
   * An encoded request holds, in order, a record with number 1 for every header, which reads back
   * as that header, and a record with number 2 for a body that is not empty.
   */
  lemma RequestHolds(headers: seq<Header>, body: bytes)
    requires InMemory(headers, body)
    ensures Records(EncodeRequest(headers, body)).Some?
    ensures var rs := Records(EncodeRequest(headers, body)).value;
      && |rs| == |headers| + (if body == [] then 0 else 1)
      && (forall i :: 0 <= i < |headers| ==>
            && rs[i].Delimited? && Field(rs[i]) == 1 && IsMessage(rs[i].data)
            && HeaderMeaning(rs[i].data) == if headers[i].0 == [] then [] else [headers[i]])
      && (body != [] ==> rs[|headers|].Delimited? && Field(rs[|headers|]) == 2 && rs[|headers|].data == body)
  {
    hide EncodeHeader, WellFormed, Field, EncodeRequest, RequestRecs, Records, IsMessage, HeaderMeaning;
    RequestRecords(headers, body);
    RecordsIff(EncodeRequest(headers, body), RequestRecs(headers, body));
    RequestSize(headers, body);
    var rs := RequestRecs(headers, body);
    forall i | 0 <= i < |headers|
      ensures rs[i].Delimited? && Field(rs[i]) == 1 && IsMessage(rs[i].data)
      ensures HeaderMeaning(rs[i].data) == if headers[i].0 == [] then [] else [headers[i]]
    {
      HeaderRecAt(headers, body, i);
      HeaderReadBack(headers[i]);
    }
    if body != [] { BodyRecLast(headers, body); }
  }

  function PrintResponseHeaders(headers: seq<Header>): bytes
    requires forall h <- headers :: HeaderSize(h) < WORD32
  {
    if headers == [] then []
    else [0x12] + Encode(|EncodeHeader(headers[0])|) + EncodeHeader(headers[0]) + PrintResponseHeaders(headers[1..])
  }

  /** A response as a writer of the message definition prints it, tags written out. */
  function PrintResponse(p: Response): bytes
    requires p.status < WORD32 && InMemory(p.headers, p.body)
  {
    [0x08] + Encode(p.status) + PrintResponseHeaders(p.headers) + ([0x1a] + Encode(|p.body|) + p.body)
  }

  /** The record with a one-byte tag and length-delimited data. */
  function Tagged(tag: byte, data: bytes): (r: Record)
    requires tag < 128 && tag % 8 == 2 && |data| < WORD32
    ensures r.Delimited? && Field(r) == tag / 8 && r.data == data && PrintRec(r) == [tag] + Encode(|data|) + data
  {
    SmallVarint(tag);
    EncodedIsVarint(|data|);
    assert |data| % WORD32 == |data|;
    assert [tag] + (Encode(|data|) + data) == [tag] + Encode(|data|) + data;
    Delimited([tag], Encode(|data|), data)
  }

  function StatusRec(status: nat): (r: Record)
    requires status < WORD32
    ensures r.VarintRec? && Field(r) == 1 && ValueOf(r.val) == status && PrintRec(r) == [0x08] + Encode(status)
  {
    SmallVarint(0x08);
    EncodedIsVarint(status);
    VarintRec([0x08], Encode(status))
  }

  function HeaderRecs(headers: seq<Header>): (rs: seq<Record>)
    requires forall h <- headers :: HeaderSize(h) < WORD32
  {
    if headers == [] then [] else [Tagged(0x12, EncodeHeader(headers[0]))] + HeaderRecs(headers[1..])
  }

  lemma {:induction false} HeaderRecsPrint(headers: seq<Header>, tail: seq<Record>)
    requires forall h <- headers :: HeaderSize(h) < WORD32
    ensures PrintRecs(HeaderRecs(headers) + tail) == PrintResponseHeaders(headers) + PrintRecs(tail)
  {
    hide WellFormed, PrintRec, EncodeHeader, Encode, Field;
    if headers == [] {
      assert HeaderRecs(headers) + tail == tail;
      assert [] + PrintRecs(tail) == PrintRecs(tail);
    } else {
      var r := Tagged(0x12, EncodeHeader(headers[0]));
      var rest := HeaderRecs(headers[1..]) + tail;
      HeaderRecsPrint(headers[1..], tail);
      assert HeaderRecs(headers) + tail == [r] + rest;
      assert ([r] + rest)[1..] == rest;
      Associate(PrintRec(r), PrintResponseHeaders(headers[1..]), PrintRecs(tail));
    }
  }

  lemma {:induction false} HeaderRecsSnoc(headers: seq<Header>, h: Header)
    requires HeaderSize(h) < WORD32 && forall g <- headers :: HeaderSize(g) < WORD32
    ensures forall g <- headers + [h] :: HeaderSize(g) < WORD32
    ensures HeaderRecs(headers + [h]) == HeaderRecs(headers) + [Tagged(0x12, EncodeHeader(h))]
  {
    hide WellFormed, EncodeHeader, Encode, Field;
    assert h in headers + [h] && forall g <- headers + [h] :: g == h || g in headers;
    if headers == [] {
      assert headers + [h] == [h] && [h][1..] == [];
      assert HeaderRecs([]) + [Tagged(0x12, EncodeHeader(h))] == [Tagged(0x12, EncodeHeader(h))] + HeaderRecs([]);
    } else {
      var first, rest := Tagged(0x12, EncodeHeader(headers[0])), HeaderRecs(headers[1..]);
      assert (headers + [h])[1..] == headers[1..] + [h] && (headers + [h])[0] == headers[0];
      HeaderRecsSnoc(headers[1..], h);
      assert [first] + (rest + [Tagged(0x12, EncodeHeader(h))]) == [first] + rest + [Tagged(0x12, EncodeHeader(h))];
    }
  }

  lemma OneMoreReadable(rs: seq<Record>, r: Record)
    requires Readable(rs) && (IsHeader(r) ==> IsMessage(r.data))
    ensures Readable(rs + [r])
  {
    hide IsMessage, WellFormed, Field;
  }

  lemma OneHeaderMore(rs: seq<Record>, h: Header)
    requires Readable(rs) && HeaderSize(h) < WORD32 && h.0 != []
    ensures var now, p := rs + [Tagged(0x12, EncodeHeader(h))], FoldResponse(DEFAULT, rs);
      Readable(now) && FoldResponse(DEFAULT, now) == p.(headers := p.headers + [h])
  {
    hide WellFormed, EncodeHeader, Encode, Field, FoldResponse, Readable, IsMessage, HeaderMeaning, ApplyRec;
    var r := Tagged(0x12, EncodeHeader(h));
    HeaderReadBack(h);
    OneMoreReadable(rs, r);
    FoldTurns(rs, r);
    ApplyCases(FoldResponse(DEFAULT, rs), r);
  }

  lemma HeaderRecsMore(front: seq<Record>, init: seq<Header>, last: Header)
    requires forall h <- init :: HeaderSize(h) < WORD32
    requires HeaderSize(last) < WORD32 && last.0 != [] && Readable(front + HeaderRecs(init))
    ensures forall h <- init + [last] :: HeaderSize(h) < WORD32
    ensures Readable(front + HeaderRecs(init + [last]))
    ensures var p := FoldResponse(DEFAULT, front + HeaderRecs(init));
      FoldResponse(DEFAULT, front + HeaderRecs(init + [last])) == p.(headers := p.headers + [last])
  {
    hide WellFormed, EncodeHeader, Encode, Field, FoldResponse, Readable, HeaderRecs;
    HeaderRecsSnoc(init, last);
    OneHeaderMore(front + HeaderRecs(init), last);
    var r := Tagged(0x12, EncodeHeader(last));
    assert front + (HeaderRecs(init) + [r]) == front + HeaderRecs(init) + [r];
  }

  lemma FoldNoHeaders(front: seq<Record>)
    requires Readable(front)
    ensures front + HeaderRecs([]) == front
    ensures var p := FoldResponse(DEFAULT, front); p == p.(headers := p.headers + [])
  {
    hide FoldResponse, Readable;
    var p := FoldResponse(DEFAULT, front);
    assert p.headers + [] == p.headers;
  }

  /** Folding header records appends the headers. */
  lemma {:induction false} HeaderRecsFold(front: seq<Record>, headers: seq<Header>)
    requires Readable(front)
    requires forall h <- headers :: HeaderSize(h) < WORD32 && h.0 != []
    ensures Readable(front + HeaderRecs(headers))
    ensures var p := FoldResponse(DEFAULT, front);
      FoldResponse(DEFAULT, front + HeaderRecs(headers)) == p.(headers := p.headers + headers)
    decreases |headers|
  {
    hide WellFormed, EncodeHeader, Encode, Field, FoldResponse, Readable, HeaderRecs;
    if headers == [] {
      FoldNoHeaders(front);
    } else {
      var init, last := headers[..|headers| - 1], headers[|headers| - 1];
      assert headers == init + [last] && last in headers;
      HeaderRecsFold(front, init);
      var p := FoldResponse(DEFAULT, front);
      assert p.headers + init + [last] == p.headers + headers;
      HeaderRecsMore(front, init, last);
    }
  }

  lemma PrintedParts(a: Record, middle: seq<Record>, b: Record, p: Response)
    requires p.status < WORD32 && InMemory(p.headers, p.body)
    requires a == StatusRec(p.status) && middle == HeaderRecs(p.headers) && b == Tagged(0x1a, p.body)
    ensures PrintRecs([a] + middle + [b]) == PrintResponse(p)
  {
    hide WellFormed, EncodeHeader, Encode, Field, PrintRec, ValueOf;
    HeaderRecsPrint(p.headers, [b]);
    PrintTwo(a, b);
    assert [a] + middle + [b] == [a] + (middle + [b]);
    assert ([a] + (middle + [b]))[1..] == middle + [b];
    Associate(PrintRec(a), PrintResponseHeaders(p.headers), PrintRec(b));
  }

  /** Folding a status record, header records and a body record. */
  lemma PartsFold(p: Response)
    requires p.status < WORD32 && InMemory(p.headers, p.body) && forall h <- p.headers :: h.0 != []
    ensures var rs := [StatusRec(p.status)] + HeaderRecs(p.headers) + [Tagged(0x1a, p.body)];
      Readable(rs) && FoldResponse(DEFAULT, rs) == p
  {
    hide WellFormed, EncodeHeader, Encode, Field, FoldResponse, Readable, IsMessage, HeaderMeaning, ApplyRec, PrintRec,
         ValueOf, HeaderRecs;
    var a, b := StatusRec(p.status), Tagged(0x1a, p.body);
    FoldsNothing();
    OneMoreReadable([], a);
    assert [] + [a] == [a];
    FoldTurns([], a);
    ApplyCases(DEFAULT, a);
    HeaderRecsFold([a], p.headers);
    var front := [a] + HeaderRecs(p.headers);
    OneMoreReadable(front, b);
    FoldTurns(front, b);
    ApplyCases(FoldResponse(DEFAULT, front), b);
    assert [] + p.headers == p.headers && [] + p.body == p.body;
  }

  /**
   * Decoding a printed response gives it back: status, headers and body each from the record with
   * their number, keys as keys and values as values.
   */
  lemma ResponseRoundTrip(p: Response)
    requires p.status < WORD32 && InMemory(p.headers, p.body) && forall h <- p.headers :: h.0 != []
    ensures Records(PrintResponse(p)).Some? && Readable(Records(PrintResponse(p)).value)
    ensures FoldResponse(DEFAULT, Records(PrintResponse(p)).value) == p
  {
    hide FoldResponse, Readable, Records, PrintResponse, HeaderRecs;
    var a, middle, b := StatusRec(p.status), HeaderRecs(p.headers), Tagged(0x1a, p.body);
    PrintedParts(a, middle, b, p);
    RecordsIff(PrintResponse(p), [a] + middle + [b]);
    PartsFold(p);
  }
}
