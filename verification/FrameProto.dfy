/** The hand-written codec of the `Frame` message (payload = 1, binary = 2) of the network filter. */
module FrameProto {
  import opened Bytes
  import opened Varint
  import opened ProtoRecords

  datatype Frame = Frame(payload: Payload, binary: bool)

  const EMPTY := Frame([], false)

  predicate IsPayload(r: Record) {
    Field(r) == 1 && r.Delimited?
  }

  predicate IsBinary(r: Record) {
    Field(r) == 2 && r.VarintRec?
  }

  /** The effect of one record: a known field replaces its value, any other record is ignored. */
  function Apply(f: Frame, r: Record): Frame {
    if IsPayload(r) then f.(payload := r.data)
    else if IsBinary(r) then f.(binary := ValueOf(r.val) != 0)
    else f
  }

  function Fold(f: Frame, rs: seq<Record>): Frame
    decreases |rs|
  {
    if rs == [] then f else Fold(Apply(f, rs[0]), rs[1..])
  }

  /** Meaning of the bytes of a message: the last record of each field counts. */
  function Meaning(data: bytes): Option<Frame> {
    match Records(data)
    case None => None
    case Some(rs) => Some(Fold(EMPTY, rs))
  }

  // ---------------------------------------------------------------------------------------
  // Decoding
  // ---------------------------------------------------------------------------------------

  lemma {:induction false} FoldSnoc(f: Frame, rs: seq<Record>, r: Record)
    ensures Fold(f, rs + [r]) == Apply(Fold(f, rs), r)
    decreases |rs|
  {
    hide WellFormed, Apply;
    if rs == [] {
      assert rs + [r] == [r];
    } else {
      assert (rs + [r])[1..] == rs[1..] + [r];
      FoldSnoc(Apply(f, rs[0]), rs[1..], r);
    }
  }

  /** The explicit length check of the payload branch is the one `skip_field` makes. */
  lemma LengthCheck(data: bytes, j: nat, wire: nat)
    requires j <= |data|
    ensures wire == 2 ==> SkipField(data, j, 2) == match Decode(data[j..])
      case None => None
      case Some(l) => if j + l.size + l.value % WORD32 > |data| then None else Some(j + l.size + l.value % WORD32)
    ensures wire == 0 ==> (SkipField(data, j, 0) == None <==> Decode(data[j..]) == None)
  {
    hide Decode;
  }

  lemma FoldNone(f: Frame)
    ensures Fold(f, []) == f
  {
  }

  /** `decode_frame_proto`. */
  method DecodeFrameProto(data: bytes) returns (r: Option<Frame>)
    ensures r == Meaning(data)
  {
    hide Decode, ReadRec, WellFormed, BodyFits, IsVarint, ValueOf, BodySize, SkipField, Fold, Records;
    var frame := EMPTY;
    var i := 0;
    ghost var rs: seq<Record> := [];
    FirstReading(data);
    FoldNone(EMPTY);
    while i < |data|
      invariant ReadTo(data, i, rs) && Fold(EMPTY, rs) == frame
      decreases |data| - i
    {
      ReadStep(data, i, rs);
      var tag := ReadVarintAt(data, i);
      if tag == None {
        NoTag(data[i..]);
        return None;
      }
      RecordAt(data, i);
      var start := i;
      i := i + tag.value.size;
      var wireType := tag.value.value % 8;
      var fieldNumber := (tag.value.value / 8) % WORD32;
      var end := SkipField(data, i, wireType);
      if end.Some? {
        FoldSnoc(EMPTY, rs, ReadRec(data[start..]).value.0);
      }
      LengthCheck(data, i, wireType);
      if fieldNumber == 1 && wireType == 2 {
        var l := ReadVarintAt(data, i);
        if l == None { return None; }
        i := i + l.value.size;
        var len := l.value.value % WORD32;
        if i + len > |data| { return None; }
        frame := frame.(payload := data[i..i + len]);
        i := i + len;
      } else if fieldNumber == 2 && wireType == 0 {
        var v := ReadVarintAt(data, i);
        if v == None { return None; }
        i := i + v.value.size;
        frame := frame.(binary := v.value.value != 0);
      } else {
        if end == None { return None; }
        i := end.value;
      }
      rs := rs + [ReadRec(data[start..]).value.0];
    }
    LastReading(data, rs);
    return Some(frame);
  }

  // ---------------------------------------------------------------------------------------
  // Encoding
  // ---------------------------------------------------------------------------------------

  lemma KnownRecords(payload: bytes)
    requires |payload| < WORD32
    ensures var p := Delimited([0x0a], Encode(|payload|), payload); WellFormed(p) && IsPayload(p) && !IsBinary(p)
    ensures var b := VarintRec([0x10], [0x01]); WellFormed(b) && !IsPayload(b) && IsBinary(b) && ValueOf(b.val) == 1
  {
    hide IsVarint, ValueOf, Encode;
    SmallVarint(0x0a);
    SmallVarint(0x10);
    SmallVarint(0x01);
    EncodedIsVarint(|payload|);
    assert 0x0a % 8 == 2 && 0x0a / 8 == 1 && 0x10 % 8 == 0 && 0x10 / 8 == 2;
    assert |payload| % WORD32 == |payload|;
  }

  /** The records the encoder writes: default values are left out. */
  function FrameRecs(f: Frame): (rs: seq<Record>)
    requires |f.payload| < WORD32
  {
    KnownRecords(f.payload);
    (if f.payload == [] then [] else [Delimited([0x0a], Encode(|f.payload|), f.payload)]) +
    (if f.binary then [VarintRec([0x10], [0x01])] else [])
  }

  function EncodeFrame(f: Frame): bytes {
    (if f.payload == [] then [] else [0x0a] + Encode(|f.payload|) + f.payload) +
    (if f.binary then [0x10, 0x01] else [])
  }

  /** `encode_frame_proto`: bare message bytes, without the 5-byte gRPC prefix. */
  method EncodeFrameProto(payload: Payload, binary: bool) returns (proto: bytes)
    ensures proto == EncodeFrame(Frame(payload, binary))
  {
    hide Encode;
    proto := [];
    if payload != [] {
      proto := proto + [0x0a];
      proto := WriteVarint(proto, |payload|);
      proto := proto + payload;
    }
    if binary {
      proto := proto + [0x10];
      proto := proto + [0x01];
    }
  }

  lemma EncodedRecords(f: Frame)
    requires |f.payload| < WORD32
    ensures PrintRecs(FrameRecs(f)) == EncodeFrame(f)
  {
    hide WellFormed, IsPayload, IsBinary, Encode;
    KnownRecords(f.payload);
    PrintTwo(Delimited([0x0a], Encode(|f.payload|), f.payload), VarintRec([0x10], [0x01]));
  }

  lemma FoldTwo(f: Frame, a: Record, b: Record)
    ensures Fold(f, [a]) == Apply(f, a)
    ensures Fold(f, [a, b]) == Apply(Apply(f, a), b)
  {
    hide Apply;
    assert [a][1..] == [] && [a, b][1..] == [b] && [b][1..] == [];
    assert Fold(Apply(f, a), [b]) == Fold(Apply(Apply(f, a), b), []);
  }

  lemma FrameRecsMeaning(f: Frame)
    requires |f.payload| < WORD32
    ensures Fold(EMPTY, FrameRecs(f)) == f
  {
    hide WellFormed, Fold, IsPayload, IsBinary;
    KnownRecords(f.payload);
    var p: Record, b: Record := Delimited([0x0a], Encode(|f.payload|), f.payload), VarintRec([0x10], [0x01]);
    PrintTwo(p, b);
    FoldTwo(EMPTY, p, b);
    FoldTwo(EMPTY, b, p);
    FoldNone(EMPTY);
    if f.payload == [] && !f.binary {
      assert FrameRecs(f) == [];
    } else if f.payload == [] {
      assert FrameRecs(f) == [b];
    } else if f.binary {
      assert FrameRecs(f) == [p, b];
    } else {
      assert FrameRecs(f) == [p];
    }
  }

  /** Decoding what was encoded gives the frame back. */
  lemma RoundTripFrame(f: Frame)
    requires |f.payload| < WORD32
    ensures Meaning(EncodeFrame(f)) == Some(f)
  {
    hide WellFormed, FrameRecs, Fold;
    FrameRecsMeaning(f);
    EncodedRecords(f);
    RecordsIff(EncodeFrame(f), FrameRecs(f));
  }

  // ---------------------------------------------------------------------------------------
  // Concatenation is merge
  // ---------------------------------------------------------------------------------------

  predicate CarriesPayload(rs: seq<Record>) {
    exists r <- rs :: IsPayload(r)
  }

  predicate CarriesBinary(rs: seq<Record>) {
    exists r <- rs :: IsBinary(r)
  }

  /** A fold takes each field from its records when they carry it and otherwise keeps it. */
  lemma {:induction false} FoldTakes(f: Frame, rs: seq<Record>)
    ensures Fold(f, rs) == Frame(
              if CarriesPayload(rs) then Fold(EMPTY, rs).payload else f.payload,
              if CarriesBinary(rs) then Fold(EMPTY, rs).binary else f.binary)
    decreases |rs|
  {
    hide WellFormed;
    if rs != [] {
      var tl := rs[1..];
      assert forall r :: r in rs <==> r == rs[0] || r in tl by { assert rs == [rs[0]] + tl; }
      FoldTakes(Apply(f, rs[0]), tl);
      FoldTakes(Apply(EMPTY, rs[0]), tl);
    }
  }

  lemma {:induction false} FoldAppend(f: Frame, a: seq<Record>, b: seq<Record>)
    ensures Fold(f, a + b) == Fold(Fold(f, a), b)
    decreases |a|
  {
    hide WellFormed, Apply;
    if a == [] {
      assert a + b == b;
    } else {
      assert (a + b)[1..] == a[1..] + b;
      FoldAppend(Apply(f, a[0]), a[1..], b);
    }
  }

  /**
   * Behind an accepted message `x`, the concatenation is accepted exactly when `y` is, and takes
   * each field from `y` when `y` carries it and otherwise from `x`.
   */
  lemma MergeLaw(x: bytes, y: bytes)
    requires Meaning(x).Some?
    ensures Meaning(x + y).Some? <==> Meaning(y).Some?
    ensures Meaning(y).Some? ==>
      Meaning(x + y) == Some(Frame(
        if CarriesPayload(Records(y).value) then Meaning(y).value.payload else Meaning(x).value.payload,
        if CarriesBinary(Records(y).value) then Meaning(y).value.binary else Meaning(x).value.binary))
  {
    hide WellFormed, CarriesPayload, CarriesBinary, Fold, Records;
    RecordsAppend(x, y);
    if Records(y).Some? {
      FoldAppend(EMPTY, Records(x).value, Records(y).value);
      FoldTakes(Meaning(x).value, Records(y).value);
    }
  }

  /** Records of other fields, or of the known fields with another wire type, inserted anywhere
      between records never change the result, nor whether there is one. */
  lemma UnknownIgnored(x: bytes, unknown: seq<Record>, y: bytes)
    requires Meaning(x).Some?
    requires forall r <- unknown :: !IsPayload(r) && !IsBinary(r)
    ensures Meaning(x + PrintRecs(unknown) + y) == Meaning(x + y)
  {
    hide WellFormed, Records, PrintRecs, Fold, IsPayload, IsBinary;
    var u := PrintRecs(unknown);
    RecordsIff(u, unknown);
    MergeLaw(x, u);
    assert Meaning(x + u) == Meaning(x);
    RecordsAppend(x, u);
    MergeLaw(x + u, y);
    MergeLaw(x, y);
  }

  // ---------------------------------------------------------------------------------------
  // Which record counts
  // ---------------------------------------------------------------------------------------

  /** The payload is the data of the last length-delimited record with number 1, or empty. */
  lemma LastPayload(front: seq<Record>, r: Record, back: seq<Record>)
    requires r.Delimited? && Field(r) == 1
    requires forall x <- back :: !(x.Delimited? && Field(x) == 1)
    ensures Meaning(PrintRecs(front + [r] + back)).Some?
    ensures Meaning(PrintRecs(front + [r] + back)).value.payload == r.data
  {
    hide WellFormed, Records, PrintRecs, Fold, Field, ValueOf;
    RecordsIff(PrintRecs(front + [r] + back), front + [r] + back);
    FoldAppend(EMPTY, front + [r], back);
    FoldSnoc(EMPTY, front, r);
    FoldTakes(Fold(EMPTY, front + [r]), back);
  }

  /** The flag is set exactly if the last varint record with number 2 is not zero. */
  lemma LastFlag(front: seq<Record>, r: Record, back: seq<Record>)
    requires r.VarintRec? && Field(r) == 2
    requires forall x <- back :: !(x.VarintRec? && Field(x) == 2)
    ensures Meaning(PrintRecs(front + [r] + back)).Some?
    ensures Meaning(PrintRecs(front + [r] + back)).value.binary <==> ValueOf(r.val) != 0
  {
    hide WellFormed, Records, PrintRecs, Fold, Field, ValueOf;
    RecordsIff(PrintRecs(front + [r] + back), front + [r] + back);
    FoldAppend(EMPTY, front + [r], back);
    FoldSnoc(EMPTY, front, r);
    FoldTakes(Fold(EMPTY, front + [r]), back);
  }

  /** Without such records the payload is empty and the flag is not set. */
  lemma Defaults(rs: seq<Record>)
    ensures Meaning(PrintRecs(rs)).Some?
    ensures (forall x <- rs :: !(x.Delimited? && Field(x) == 1)) ==> Meaning(PrintRecs(rs)).value.payload == []
    ensures (forall x <- rs :: !(x.VarintRec? && Field(x) == 2)) ==> !Meaning(PrintRecs(rs)).value.binary
  {
    hide WellFormed, Records, PrintRecs, Fold, Field, ValueOf;
    RecordsIff(PrintRecs(rs), rs);
    FoldTakes(EMPTY, rs);
  }
}
