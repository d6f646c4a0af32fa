/**
 * The protobuf wire grammar: a message is a sequence of tagged records. Tags, values and lengths
 * may use any accepted varint encoding, not only the shortest one.
 */
module ProtoRecords {
  import opened Bytes
  import opened Varint

  datatype Rec =
    | VarintRec(tag: bytes, val: bytes)
    | Fixed64(tag: bytes, data: bytes)
    | Delimited(tag: bytes, len: bytes, data: bytes)
    | Fixed32(tag: bytes, data: bytes)

  /** `e` is one complete varint encoding. */
  predicate IsVarint(e: bytes) {
    Decode(e).Some? && Decode(e).value.size == |e|
  }

  function ValueOf(e: bytes): u64
    requires IsVarint(e)
  {
    Decode(e).value.value
  }

  function Wire(r: Rec): nat {
    match r
    case VarintRec(_, _) => 0
    case Fixed64(_, _) => 1
    case Delimited(_, _, _) => 2
    case Fixed32(_, _) => 5
  }

  /** Lengths are cast to the 32-bit `usize` of the wasm32 targets. */
  predicate BodyFits(r: Rec) {
    match r
    case VarintRec(_, val) => IsVarint(val)
    case Fixed64(_, data) => |data| == 8
    case Delimited(_, len, data) => IsVarint(len) && |data| == ValueOf(len) % WORD32
    case Fixed32(_, data) => |data| == 4
  }

  predicate WellFormed(r: Rec) {
    IsVarint(r.tag) && ValueOf(r.tag) % 8 == Wire(r) && BodyFits(r)
  }

  lemma ZeroRecord()
    ensures WellFormed(VarintRec([0], [0]))
  {
    assert [0][..1] == [0] && GroupSum([0]) == 0;
  }

  type Record = r: Rec | WellFormed(r) ghost witness (ZeroRecord(); VarintRec([0], [0]))

  /** The field number, cast to 32 bits as both decoders cast it. */
  function Field(r: Record): nat {
    (ValueOf(r.tag) / 8) % WORD32
  }

  function Body(r: Rec): bytes {
    match r
    case VarintRec(_, val) => val
    case Fixed64(_, data) => data
    case Delimited(_, len, data) => len + data
    case Fixed32(_, data) => data
  }

  function PrintRec(r: Rec): bytes {
    r.tag + Body(r)
  }

  function PrintRecs(rs: seq<Record>): bytes {
    if rs == [] then [] else PrintRec(rs[0]) + PrintRecs(rs[1..])
  }

  lemma PrintTwo(a: Record, b: Record)
    ensures PrintRecs([a]) == PrintRec(a) && PrintRecs([b]) == PrintRec(b)
    ensures PrintRecs([a, b]) == PrintRec(a) + PrintRec(b)
    ensures [a] + [b] == [a, b] && [a] + [] == [a] && [] + [b] == [b]
  {
    hide PrintRec, WellFormed;
    assert [a][1..] == [] && [b][1..] == [] && [a, b][1..] == [b];
    assert PrintRec(a) + [] == PrintRec(a) && PrintRec(b) + [] == PrintRec(b);
  }

  lemma VarintPrefix(s: bytes)
    requires Decode(s).Some?
    ensures IsVarint(s[..Decode(s).value.size])
    ensures ValueOf(s[..Decode(s).value.size]) == Decode(s).value.value
  {
    var n := Decode(s).value.size;
    SizeBeyond(s[..n], n - 1);
    assert s[..n][..n] == s[..n];
  }

  lemma SmallVarint(b: byte)
    requires b < 128
    ensures IsVarint([b]) && ValueOf([b]) == b
  {
    assert [b][..1] == [b];
    assert GroupSum([b]) == b;
  }

  lemma EncodedIsVarint(v: u64)
    ensures IsVarint(Encode(v)) && ValueOf(Encode(v)) == v
  {
    RoundTrip(v, []);
    assert Encode(v) + [] == Encode(v);
  }

  /** Size of the body of wire type `wire` at the front of `s`, if it is complete. */
  function BodySize(s: bytes, wire: nat): (r: Option<nat>)
    ensures r.Some? ==> r.value <= |s|
  {
    match wire
    case 0 => (match Decode(s) case None => None case Some(v) => Some(v.size))
    case 1 => if |s| < 8 then None else Some(8)
    case 2 =>
      (match Decode(s)
       case None => None
       case Some(l) => if l.size + l.value % WORD32 > |s| then None else Some(l.size + l.value % WORD32))
    case 5 => if |s| < 4 then None else Some(4)
    case _ => None
  }

  /** The record with a given tag and body. */
  function MakeRec(tag: bytes, body: bytes, wire: nat): Rec {
    match wire
    case 0 => VarintRec(tag, body)
    case 1 => Fixed64(tag, body)
    case 2 =>
      var n := match Decode(body) case None => 0 case Some(l) => l.size;
      Delimited(tag, body[..n], body[n..])
    case _ => Fixed32(tag, body)
  }

  lemma MadeFits(tag: bytes, s: bytes, wire: nat)
    requires BodySize(s, wire).Some?
    ensures var body := s[..BodySize(s, wire).value]; var r := MakeRec(tag, body, wire);
            r.tag == tag && Body(r) == body && Wire(r) == wire && BodyFits(r)
  {
    hide Decode;
    if wire == 0 || wire == 2 {
      var n, k := Decode(s).value.size, BodySize(s, wire).value;
      VarintPrefix(s);
      DecodeExtend(s[..n], s[..k][n..]);
      assert s[..n] + s[..k][n..] == s[..k];
      assert s[..k][..n] == s[..n];
    }
  }

  lemma ReadFits(s: bytes)
    requires Decode(s).Some?
    requires var tag := Decode(s).value; BodySize(s[tag.size..], tag.value % 8).Some?
    ensures var tag := Decode(s).value; var k := BodySize(s[tag.size..], tag.value % 8).value;
      var r := MakeRec(s[..tag.size], s[tag.size..][..k], tag.value % 8);
      WellFormed(r) && PrintRec(r) == s[..tag.size + k]
  {
    hide Decode, BodySize, MakeRec, Body, BodyFits, IsVarint, ValueOf, Wire;
    var tag := Decode(s).value;
    var k := BodySize(s[tag.size..], tag.value % 8).value;
    VarintPrefix(s);
    MadeFits(s[..tag.size], s[tag.size..], tag.value % 8);
    SliceJoin(s, 0, tag.size, tag.size + k);
  }

  /** The record at the front of `s` and its size, if there is one. */
  function ReadRec(s: bytes): (r: Option<(Record, nat)>)
    ensures r.Some? ==> 0 < r.value.1 <= |s| && PrintRec(r.value.0) == s[..r.value.1]
  {
    match Decode(s)
    case None => None
    case Some(tag) =>
      match BodySize(s[tag.size..], tag.value % 8)
      case None => None
      case Some(k) =>
        ReadFits(s);
        Some((MakeRec(s[..tag.size], s[tag.size..][..k], tag.value % 8), tag.size + k))
  }

  /** The records of a message, or none if the bytes are not a sequence of records. */
  function Records(s: bytes): Option<seq<Record>>
    decreases |s|
  {
    if s == [] then Some([]) else
    match ReadRec(s)
    case None => None
    case Some((r, n)) =>
      match Records(s[n..])
      case None => None
      case Some(rs) => Some([r] + rs)
  }

  /** `skip_field`; the sum of cursor and length is taken without wrap-around. */
  function SkipField(buf: bytes, i: nat, wire: nat): (r: Option<nat>)
    requires i <= |buf|
    ensures r == match BodySize(buf[i..], wire) case None => None case Some(k) => Some(i + k)
  {
    match wire
    case 0 => (match Decode(buf[i..]) case None => None case Some(v) => Some(i + v.size))
    case 1 => if i + 8 > |buf| then None else Some(i + 8)
    case 2 =>
      (match Decode(buf[i..])
       case None => None
       case Some(l) =>
         var j := i + l.size;
         var len := l.value % WORD32;
         if j + len > |buf| then None else Some(j + len))
    case 5 => if i + 4 > |buf| then None else Some(i + 4)
    case _ => None
  }

  // ---------------------------------------------------------------------------------------
  // Reading decides the grammar
  // ---------------------------------------------------------------------------------------

  lemma BodyPrinted(r: Rec, rest: bytes)
    requires BodyFits(r)
    ensures BodySize(Body(r) + rest, Wire(r)) == Some(|Body(r)|)
    ensures MakeRec(r.tag, Body(r), Wire(r)) == r
  {
    hide Decode;
    match r
    case VarintRec(_, val) =>
      DecodeExtend(val, rest);
    case Delimited(_, len, data) =>
      DecodeExtend(len, data);
      DecodeExtend(len, data + rest);
      assert len + (data + rest) == Body(r) + rest;
      assert Body(r)[..|len|] == len && Body(r)[|len|..] == data;
    case Fixed64(_, _) =>
    case Fixed32(_, _) =>
  }

  /** A printed record is read back, whatever follows it. */
  lemma ReadPrinted(r: Record, rest: bytes)
    ensures ReadRec(PrintRec(r) + rest) == Some((r, |PrintRec(r)|)) && |PrintRec(r)| > 0
  {
    hide Decode, BodySize, MakeRec, Body, BodyFits, Wire;
    var s := PrintRec(r) + rest;
    assert s == r.tag + (Body(r) + rest);
    DecodeExtend(r.tag, Body(r) + rest);
    assert s[..|r.tag|] == r.tag && s[|r.tag|..] == Body(r) + rest;
    BodyPrinted(r, rest);
    assert s[|r.tag|..][..|Body(r)|] == Body(r);
  }

  lemma {:induction false} RecordsSound(s: bytes)
    requires Records(s).Some?
    ensures PrintRecs(Records(s).value) == s
    decreases |s|
  {
    hide WellFormed, PrintRec, ReadRec;
    if s != [] {
      var (r, n) := ReadRec(s).value;
      RecordsSound(s[n..]);
      assert Records(s).value[1..] == Records(s[n..]).value;
      assert s == s[..n] + s[n..];
    }
  }

  lemma ReadFirst(r: Record, tail: bytes)
    ensures Records(PrintRec(r) + tail)
         == match Records(tail) case None => None case Some(rs) => Some([r] + rs)
  {
    hide WellFormed, PrintRec, ReadRec;
    ReadPrinted(r, tail);
    assert (PrintRec(r) + tail)[|PrintRec(r)|..] == tail;
  }

  /** Behind printed records, acceptance and reading depend on the rest alone. */
  lemma {:induction false} ReadBehind(xs: seq<Record>, y: bytes)
    ensures Records(PrintRecs(xs) + y) == match Records(y) case None => None case Some(rs) => Some(xs + rs)
  {
    hide WellFormed, PrintRec, ReadRec;
    if xs == [] {
      assert PrintRecs(xs) + y == y;
      if Records(y).Some? { assert xs + Records(y).value == Records(y).value; }
    } else {
      ReadFirst(xs[0], PrintRecs(xs[1..]) + y);
      assert PrintRecs(xs) + y == PrintRec(xs[0]) + (PrintRecs(xs[1..]) + y);
      ReadBehind(xs[1..], y);
      if Records(y).Some? { assert xs + Records(y).value == [xs[0]] + (xs[1..] + Records(y).value); }
    }
  }

  /** Reading decides the grammar, and a message has one reading only. */
  lemma RecordsIff(s: bytes, rs: seq<Record>)
    ensures Records(s) == Some(rs) <==> s == PrintRecs(rs)
  {
    hide WellFormed;
    if Records(s) == Some(rs) { RecordsSound(s); }
    if s == PrintRecs(rs) {
      ReadBehind(rs, []);
      assert PrintRecs(rs) + [] == s && rs + [] == rs;
    }
  }

  lemma RecordsAppend(x: bytes, y: bytes)
    requires Records(x).Some?
    ensures Records(x + y) == match Records(y) case None => None case Some(rs) => Some(Records(x).value + rs)
  {
    hide WellFormed;
    RecordsSound(x);
    ReadBehind(Records(x).value, y);
  }

  // ---------------------------------------------------------------------------------------
  // Reading with a cursor
  // ---------------------------------------------------------------------------------------

  /** `r` is the record from `i` to `end`, in the terms of the decoder's cursor reads. */
  ghost predicate SeenRecord(data: bytes, i: nat, r: Record, end: nat) {
    && i <= end <= |data| && Decode(data[i..]).Some?
    && var tag := Decode(data[i..]).value;
    && var j := i + tag.size;
    && j <= end
    && Wire(r) == tag.value % 8
    && Field(r) == (tag.value / 8) % WORD32
    && (r.VarintRec? ==> IsVarint(r.val) && Decode(data[j..]) == Some(Read(ValueOf(r.val), end - j)))
    && (r.Delimited? ==> Decode(data[j..]).Some? && j + Decode(data[j..]).value.size <= end &&
                         r.data == data[j + Decode(data[j..]).value.size..end])
  }

  /** The varint inside a record's body is the one at the front of the body. */
  lemma VarintPrefixOf(s: bytes, r: Rec, k: nat)
    requires k <= |s| && BodySize(s, Wire(r)) == Some(k) && r == MakeRec(r.tag, s[..k], Wire(r))
    ensures r.VarintRec? ==> IsVarint(r.val) && Decode(s) == Some(Read(ValueOf(r.val), k))
    ensures r.Delimited? ==> Decode(s).Some? && Decode(s).value.size <= k && r.data == s[Decode(s).value.size..k]
  {
    hide Decode;
    if r.VarintRec? || r.Delimited? {
      MadeFits(r.tag, s, Wire(r));
      VarintPrefix(s);
      var n := Decode(s).value.size;
      DecodeExtend(s[..n], s[n..k]);
      assert s[..n] + s[n..k] == s[..k];
    }
  }

  /** What one turn of the decoder's loop sees of the record at the cursor. */
  lemma RecordAt(data: bytes, i: nat)
    requires i <= |data| && Decode(data[i..]).Some?
    ensures SkipField(data, i + Decode(data[i..]).value.size, Decode(data[i..]).value.value % 8)
         == match ReadRec(data[i..]) case None => None case Some((_, n)) => Some(i + n)
    ensures ReadRec(data[i..]).Some? ==> SeenRecord(data, i, ReadRec(data[i..]).value.0, i + ReadRec(data[i..]).value.1)
  {
    hide Decode, BodyFits, Body;
    var s := data[i..];
    var tag := Decode(s).value;
    assert data[i + tag.size..] == s[tag.size..];
    if ReadRec(s).Some? {
      var (r, n) := ReadRec(s).value;
      VarintPrefix(s);
      MadeFits(r.tag, s[tag.size..], tag.value % 8);
      VarintPrefixOf(s[tag.size..], r, n - tag.size);
    }
  }

  /** The reading of `data` when `rs` are the records before `i`. */
  ghost predicate ReadTo(data: bytes, i: nat, rs: seq<Record>) {
    && i <= |data|
    && Records(data) == match Records(data[i..]) case None => None case Some(ts) => Some(rs + ts)
  }

  lemma RecordsUnfold(s: bytes)
    requires s != []
    ensures ReadRec(s) == None ==> Records(s) == None
    ensures ReadRec(s).Some? ==> 0 < ReadRec(s).value.1 <= |s|
    ensures ReadRec(s).Some? ==> var tail := Records(s[ReadRec(s).value.1..]);
      Records(s) == if tail == None then None else Some([ReadRec(s).value.0] + tail.value)
  {
    hide WellFormed, PrintRec, Decode, BodySize;
  }

  lemma ReadStep(data: bytes, i: nat, rs: seq<Record>)
    requires ReadTo(data, i, rs) && i < |data|
    ensures ReadRec(data[i..]) == None ==> Records(data) == None
    ensures ReadRec(data[i..]).Some? ==>
      ReadTo(data, i + ReadRec(data[i..]).value.1, rs + [ReadRec(data[i..]).value.0])
  {
    hide ReadRec, WellFormed, PrintRec, Records;
    RecordsUnfold(data[i..]);
    if ReadRec(data[i..]).Some? {
      var (r, n) := ReadRec(data[i..]).value;
      assert data[i..][n..] == data[i + n..];
      if Records(data[i + n..]).Some? {
        var ts := Records(data[i + n..]).value;
        assert rs + ([r] + ts) == rs + [r] + ts;
      }
    }
  }

  lemma FirstReading(data: bytes)
    ensures ReadTo(data, 0, [])
  {
    hide ReadRec;
    assert data[0..] == data;
    if Records(data).Some? { assert [] + Records(data).value == Records(data).value; }
  }

  lemma LastReading(data: bytes, rs: seq<Record>)
    requires ReadTo(data, |data|, rs)
    ensures Records(data) == Some(rs)
  {
    assert data[|data|..] == [];
    assert rs + [] == rs;
  }

  lemma NoTag(s: bytes)
    requires Decode(s) == None
    ensures ReadRec(s) == None
  {
  }

  /** The four kinds of records by the number in the low bits of their tag, and their bodies. */
  lemma RecordShape(r: Record)
    ensures var w := ValueOf(r.tag) % 8;
      && (w == 0 || w == 1 || w == 2 || w == 5)
      && (w == 0 <==> r.VarintRec?) && (w == 1 <==> r.Fixed64?) && (w == 2 <==> r.Delimited?)
      && (w == 1 ==> |PrintRec(r)| == |r.tag| + 8)
      && (w == 2 ==> |PrintRec(r)| == |r.tag| + |r.len| + ValueOf(r.len) % 0x1_0000_0000)
      && (w == 5 ==> |PrintRec(r)| == |r.tag| + 4)
      && Field(r) == ValueOf(r.tag) / 8 % 0x1_0000_0000
  {
    hide ValueOf, IsVarint;
  }
}
