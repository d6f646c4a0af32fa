/**
 * The WebSocket frame codec of section 5.2 and 5.3 of RFC 6455, once as a grammar (a frame and
 * the bytes it is printed as), once as the parser and encoder of the WASM network filter, and
 * once as the loops of the native filter.
 */
module WsFrame {
  import opened Arithmetic
  import opened Bytes
  import opened Bits

  const TEXT: byte := 0x01
  const BINARY: byte := 0x02
  const CLOSE: byte := 0x08
  const PING: byte := 0x09
  const PONG: byte := 0x0A

  // ---------------------------------------------------------------------------------------
  // Masking (section 5.3)
  // ---------------------------------------------------------------------------------------

  type Key = k: bytes | |k| == 4 witness [0, 0, 0, 0]

  function Mask(key: Key, data: bytes): (r: bytes)
    ensures |r| == |data|
  {
    seq(|data|, i requires 0 <= i < |data| => XorByte(data[i], key[i % 4]))
  }

  lemma MaskInvolution(key: Key, data: bytes)
    ensures Mask(key, Mask(key, data)) == data
  {
    forall i | 0 <= i < |data| ensures Mask(key, Mask(key, data))[i] == data[i] {
      XorInvolution(data[i], key[i % 4]);
    }
  }

  lemma MaskZero(data: bytes)
    ensures Mask([0, 0, 0, 0], data) == data
  {
    forall i | 0 <= i < |data| ensures Mask([0, 0, 0, 0], data)[i] == data[i] {
      XorZero(data[i]);
    }
  }

  // ---------------------------------------------------------------------------------------
  // Grammar (section 5.2)
  // ---------------------------------------------------------------------------------------

  /** The three length forms. `Long` carries the declared 64-bit number. */
  datatype LengthForm = Short | Medium | Long(declared: nat)

  datatype Frame = Frame(first: byte, form: LengthForm, key: Option<Key>, payload: Payload)

  /**
   * A frame as a reader whose words hold `word` values sees it: the payload has the declared
   * length, reduced to a word in the 64-bit form.
   */
  predicate Fits(f: Frame, word: Word)
  {
    match f.form
    case Short => |f.payload| < 126
    case Medium => |f.payload| < 0x1_0000
    case Long(declared) => declared < WORD64 && declared % word == |f.payload|
  }

  function Indicator(f: Frame, word: Word): (r: nat)
    requires Fits(f, word)
    ensures r < 128
  {
    match f.form
    case Short => |f.payload|
    case Medium => 126
    case Long(_) => 127
  }

  function ExtendedLength(f: Frame): bytes {
    match f.form
    case Short => []
    case Medium => ToBigEndian(|f.payload|, 2)
    case Long(declared) => ToBigEndian(declared, 8)
  }

  function KeyAndPayload(f: Frame): bytes {
    match f.key
    case None => f.payload
    case Some(key) => key + Mask(key, f.payload)
  }

  function Print(f: Frame, word: Word): (r: bytes)
    requires Fits(f, word)
    ensures |r| >= 2
  {
    [f.first, Indicator(f, word) + if f.key.Some? then 128 else 0] + ExtendedLength(f) + KeyAndPayload(f)
  }

  function PrintAll(fs: seq<Frame>, word: Word): bytes
    requires forall f <- fs :: Fits(f, word)
  {
    if fs == [] then [] else Print(fs[0], word) + PrintAll(fs[1..], word)
  }

  // ---------------------------------------------------------------------------------------
  // The parser of the WASM network filter
  // ---------------------------------------------------------------------------------------

  datatype Parsed = Parsed(opcode: byte, payload: Payload, consumed: nat)

  /**
   * The length fields of a buffer of at least two bytes: payload length and offset of what
   * follows them. The 64-bit length is cast to a word, which keeps it modulo `word`.
   */
  function LengthFields(buf: bytes, word: Word): (r: Option<(nat, nat)>)
    requires |buf| >= 2
    ensures r.Some? ==> r.value.0 < word && 2 <= r.value.1 <= |buf|
  {
    var indicator := buf[1] % 128;
    if indicator == 126 then
      if |buf| < 4 then None else
      BigEndianBound(buf[2..4]);
      Pow256Values();
      Some((BigEndian(buf[2..4]), 4))
    else if indicator == 127 then
      if |buf| < 10 then None else Some((BigEndian(buf[2..10]) % word, 10))
    else Some((indicator, 2))
  }

  /** `parse_ws_frame`; `word` is the number of values of `usize`. */
  function ParseWsFrame(buf: bytes, word: Word): (r: Option<Parsed>)
    ensures r.Some? ==> 2 <= r.value.consumed <= |buf| && |r.value.payload| < word
  {
    if |buf| < 2 then None else
    var opcode := buf[0] % 16;
    var masked := buf[1] >= 128;
    match LengthFields(buf, word)
    case None => None
    case Some((payloadLen, maskOffset)) =>
      var payloadOffset := if masked then maskOffset + 4 else maskOffset;
      var total := payloadOffset + payloadLen;
      if |buf| < total then None else
      var raw := buf[payloadOffset..total];
      var payload := if masked then Mask(buf[maskOffset..maskOffset + 4], raw) else raw;
      Some(Parsed(opcode, payload, total))
  }

  /** The length fields stay as they are when more bytes follow. */
  lemma LengthExtend(a: bytes, b: bytes, word: Word)
    requires |a| >= 2 && LengthFields(a, word).Some?
    ensures LengthFields(a + b, word) == LengthFields(a, word)
  {
    hide BigEndian;
    if |a| >= 4 { assert (a + b)[2..4] == a[2..4]; }
    if |a| >= 10 { assert (a + b)[2..10] == a[2..10]; }
  }

  /** The outcome of a parse, from where the length ends, the payload starts and ends. */
  function ParsedAt(buf: bytes, off: nat, start: nat, end: nat): Parsed
    requires 2 <= off <= start <= end <= |buf| && end - start < WORD64 && (buf[1] >= 128 ==> start == off + 4)
  {
    var raw := buf[start..end];
    Parsed(buf[0] % 16, if buf[1] >= 128 then Mask(buf[off..start], raw) else raw, end)
  }

  /** What remains of a parse once the length is known. */
  lemma ParseKnown(buf: bytes, word: Word)
    ensures |buf| < 2 || LengthFields(buf, word) == None ==> ParseWsFrame(buf, word) == None
    ensures |buf| >= 2 && LengthFields(buf, word).Some? ==>
      (var (len, off) := LengthFields(buf, word).value;
       var start := if buf[1] >= 128 then off + 4 else off;
       && (|buf| < start + len ==> ParseWsFrame(buf, word) == None)
       && (|buf| >= start + len ==> ParseWsFrame(buf, word) == Some(ParsedAt(buf, off, start, start + len))))
  {
    hide LengthFields, Mask;
  }

  lemma ParsedAtExtend(a: bytes, b: bytes, off: nat, start: nat, end: nat)
    requires 2 <= off <= start <= end <= |a| && end - start < WORD64 && (a[1] >= 128 ==> start == off + 4)
    ensures ParsedAt(a + b, off, start, end) == ParsedAt(a, off, start, end)
  {
    hide Mask;
    assert (a + b)[start..end] == a[start..end];
    if a[1] >= 128 { assert (a + b)[off..off + 4] == a[off..off + 4]; }
  }

  /** A parsed frame stays parsed, identically, whatever bytes arrive after it. */
  lemma ParseExtend(a: bytes, b: bytes, word: Word)
    requires ParseWsFrame(a, word).Some?
    ensures ParseWsFrame(a + b, word) == ParseWsFrame(a, word)
  {
    hide ParseWsFrame, LengthFields, ParsedAt;
    ParseKnown(a, word);
    ParseKnown(a + b, word);
    LengthExtend(a, b, word);
    var (len, off) := LengthFields(a, word).value;
    var start := if a[1] >= 128 then off + 4 else off;
    ParsedAtExtend(a, b, off, start, start + len);
  }

  /** Every strict prefix of a frame is incomplete. */
  lemma StrictPrefixIncomplete(buf: bytes, k: nat, word: Word)
    requires ParseWsFrame(buf, word).Some?
    requires k < ParseWsFrame(buf, word).value.consumed
    ensures ParseWsFrame(buf[..k], word) == None
  {
    assert buf[..k] + buf[k..] == buf;
    if ParseWsFrame(buf[..k], word).Some? {
      ParseExtend(buf[..k], buf[k..], word);
    }
  }

  /** The length fields of a prefix that holds them. */
  lemma LengthWithin(buf: bytes, k: nat, word: Word)
    requires |buf| >= 2 && LengthFields(buf, word).Some? && LengthFields(buf, word).value.1 <= k <= |buf|
    ensures k >= 2 && LengthFields(buf[..k], word) == LengthFields(buf, word)
  {
    hide BigEndian;
    if k >= 4 { assert buf[..k][2..4] == buf[2..4]; }
    if k >= 10 { assert buf[..k][2..10] == buf[2..10]; }
  }

  /** What a parser reads of a frame in a prefix: the first two bytes, the key and the payload. */
  lemma SlicesWithin(buf: bytes, k: nat, off: nat, n: nat)
    requires 2 <= off <= n <= k <= |buf|
    ensures buf[..k][0] == buf[0] && buf[..k][1] == buf[1] && buf[..k][off..n] == buf[off..n]
    ensures off + 4 <= n ==> buf[..k][off..off + 4] == buf[off..off + 4] && buf[..k][off + 4..n] == buf[off + 4..n]
  {
  }

  /** A prefix that holds the whole frame parses the same. */
  lemma ParseWithin(buf: bytes, k: nat, word: Word)
    requires ParseWsFrame(buf, word).Some? && ParseWsFrame(buf, word).value.consumed <= k <= |buf|
    ensures ParseWsFrame(buf[..k], word) == ParseWsFrame(buf, word)
  {
    hide LengthFields, Mask;
    LengthWithin(buf, k, word);
    SlicesWithin(buf, k, LengthFields(buf, word).value.1, ParseWsFrame(buf, word).value.consumed);
  }

  // ---------------------------------------------------------------------------------------
  // The parser decides the grammar
  // ---------------------------------------------------------------------------------------

  function Outcome(f: Frame, word: Word): Parsed
    requires Fits(f, word)
  {
    Parsed(f.first % 16, f.payload, |Print(f, word)|)
  }

  /** Bytes of the extended length that follow a 7-bit length indicator. */
  function ExtensionSize(indicator: nat): nat {
    if indicator == 126 then 2 else if indicator == 127 then 8 else 0
  }

  lemma LengthParts(first: byte, second: byte, ext: bytes, tail: bytes, word: Word)
    requires |ext| == ExtensionSize(second % 128)
    ensures LengthFields([first, second] + ext + tail, word) == Some((
              if |ext| == 0 then second % 128 else if |ext| == 2 then BigEndian(ext) else BigEndian(ext) % word,
              2 + |ext|))
  {
    var p := [first, second] + ext + tail;
    assert p[2..2 + |ext|] == ext;
  }

  /** What the parser does with a buffer already cut into header, extended length and tail. */
  lemma ParseParts(first: byte, second: byte, ext: bytes, tail: bytes, len: nat, word: Word)
    requires len < WORD64 && LengthFields([first, second] + ext + tail, word) == Some((len, 2 + |ext|))
    requires |tail| == len + if second >= 128 then 4 else 0
    ensures ParseWsFrame([first, second] + ext + tail, word) == Some(Parsed(first % 16,
              if second >= 128 then Mask(tail[..4], tail[4..]) else tail, 2 + |ext| + |tail|))
  {
    hide LengthFields, Mask;
    var p := [first, second] + ext + tail;
    var off := 2 + |ext|;
    assert p[off..] == tail;
    if second >= 128 {
      assert p[off..off + 4] == tail[..4];
      assert p[off + 4..off + 4 + len] == tail[4..];
    } else {
      assert p[off..off + len] == tail;
    }
  }

  /** The extended length of a frame that fits denotes the payload length. */
  lemma ExtendedLengthValue(f: Frame, word: Word)
    requires Fits(f, word)
    ensures |ExtendedLength(f)| == ExtensionSize(Indicator(f, word))
    ensures |f.payload| == if |ExtendedLength(f)| == 0 then Indicator(f, word)
                           else if |ExtendedLength(f)| == 2 then BigEndian(ExtendedLength(f))
                           else BigEndian(ExtendedLength(f)) % word
  {
    Pow256Values();
    if f.form.Medium? { BigEndianOfBytes(|f.payload|, 2); }
    if f.form.Long? { BigEndianOfBytes(f.form.declared, 8); }
  }

  lemma PrintParts(f: Frame, word: Word)
    requires Fits(f, word)
    ensures Print(f, word) ==
      [f.first, Indicator(f, word) + if f.key.Some? then 128 else 0] + ExtendedLength(f) + KeyAndPayload(f)
  {
  }

  /** Unmasking the masked payload behind the key gives the payload. */
  lemma TailParts(f: Frame)
    ensures var tail := KeyAndPayload(f);
      && |tail| == |f.payload| + (if f.key.Some? then 4 else 0)
      && (if f.key.Some? then Mask(tail[..4], tail[4..]) else tail) == f.payload
  {
    hide Mask;
    if f.key.Some? {
      var tail, masked := KeyAndPayload(f), Mask(f.key.value, f.payload);
      assert tail[..4] == f.key.value && tail[4..] == masked;
      MaskInvolution(f.key.value, f.payload);
    }
  }

  /** Completeness: a printed frame parses to its opcode, unmasked payload and length. */
  lemma ParsePrinted(f: Frame, rest: bytes, word: Word)
    requires Fits(f, word)
    ensures ParseWsFrame(Print(f, word) + rest, word) == Some(Outcome(f, word))
  {
    hide ParseWsFrame, LengthFields, Mask, ExtendedLength, Indicator, Fits, Print, KeyAndPayload, BigEndian;
    var ext, tail := ExtendedLength(f), KeyAndPayload(f);
    var second := Indicator(f, word) + if f.key.Some? then 128 else 0;
    ExtendedLengthValue(f, word);
    LengthParts(f.first, second, ext, tail, word);
    TailParts(f);
    ParseParts(f.first, second, ext, tail, |f.payload|, word);
    PrintParts(f, word);
    ParseExtend(Print(f, word), rest, word);
  }

  /** The length form that a 7-bit indicator and the bytes behind it denote. */
  function FormOf(buf: bytes): LengthForm
    requires |buf| >= 2
  {
    var indicator := buf[1] % 128;
    if indicator == 126 then Medium
    else if indicator == 127 && |buf| >= 10 then Long(BigEndian(buf[2..10]))
    else Short
  }

  /** The frame a successful parse read. */
  function Unparse(buf: bytes, word: Word): Frame
    requires ParseWsFrame(buf, word).Some?
  {
    var off := LengthFields(buf, word).value.1;
    Frame(buf[0], FormOf(buf), if buf[1] >= 128 then Some(buf[off..off + 4]) else None,
          ParseWsFrame(buf, word).value.payload)
  }

  /** The length fields a parse read are the ones the grammar prints for its form. */
  lemma LengthSound(buf: bytes, f: Frame, word: Word)
    requires |buf| >= 2 && LengthFields(buf, word).Some?
    requires f.form == FormOf(buf) && |f.payload| == LengthFields(buf, word).value.0
    ensures Fits(f, word) && Indicator(f, word) == buf[1] % 128
    ensures ExtendedLength(f) == buf[2..LengthFields(buf, word).value.1]
  {
    Pow256Values();
    var indicator := buf[1] % 128;
    if indicator == 126 { BigEndianBound(buf[2..4]); BytesOfBigEndian(buf[2..4]); }
    if indicator == 127 { BigEndianBound(buf[2..10]); BytesOfBigEndian(buf[2..10]); }
  }

  lemma Cut(buf: bytes, off: nat, n: nat)
    requires 2 <= off <= n <= |buf|
    ensures buf[..n] == [buf[0], buf[1]] + buf[2..off] + buf[off..n]
  {
  }

  /** Where a masked frame has its payload; key and payload masked again are what stands in the buffer. */
  lemma MaskedParts(buf: bytes, off: nat, start: nat, end: nat, key: Key, raw: bytes)
    requires 2 <= off < start <= end <= |buf| && end - start < WORD64 && buf[1] >= 128 && start == off + 4
    requires key == buf[off..start] && raw == buf[start..end]
    ensures ParsedAt(buf, off, start, end) == Parsed(buf[0] % 16, Mask(key, raw), end)
    ensures key + Mask(key, Mask(key, raw)) == buf[off..end]
  {
    hide Mask;
    MaskInvolution(key, raw);
    SliceJoin(buf, off, start, end);
  }

  lemma PlainParts(buf: bytes, off: nat, end: nat)
    requires 2 <= off <= end <= |buf| && end - off < WORD64 && buf[1] < 128
    ensures ParsedAt(buf, off, off, end) == Parsed(buf[0] % 16, buf[off..end], end)
  {
  }

  /** The frame a parse read has the key and payload that stand in the buffer. */
  lemma UnparseParts(buf: bytes, word: Word)
    requires ParseWsFrame(buf, word).Some?
    ensures |buf| >= 2 && LengthFields(buf, word).Some?
    ensures var f, n := Unparse(buf, word), ParseWsFrame(buf, word).value.consumed;
      var (len, off) := LengthFields(buf, word).value;
      && 2 <= off <= n <= |buf| && |f.payload| == len
      && f.first == buf[0] && f.form == FormOf(buf) && (f.key.Some? <==> buf[1] >= 128)
      && KeyAndPayload(f) == buf[off..n]
      && ParseWsFrame(buf, word).value.opcode == f.first % 16 && ParseWsFrame(buf, word).value.payload == f.payload
  {
    hide ParseWsFrame, LengthFields, FormOf, ParsedAt, Mask;
    ParseKnown(buf, word);
    var (len, off) := LengthFields(buf, word).value;
    var start := if buf[1] >= 128 then off + 4 else off;
    var end := start + len;
    if buf[1] >= 128 {
      MaskedParts(buf, off, start, end, buf[off..start], buf[start..end]);
    } else {
      PlainParts(buf, off, end);
    }
  }

  /** Soundness: the bytes a successful parse consumed are the print of the frame it reports. */
  lemma UnparseSound(buf: bytes, word: Word)
    requires ParseWsFrame(buf, word).Some?
    ensures Fits(Unparse(buf, word), word)
    ensures Print(Unparse(buf, word), word) == buf[..ParseWsFrame(buf, word).value.consumed]
    ensures Outcome(Unparse(buf, word), word) == ParseWsFrame(buf, word).value
  {
    hide ParseWsFrame, LengthFields, FormOf, ExtendedLength, Indicator, Fits, Print, Mask, KeyAndPayload, Unparse;
    UnparseParts(buf, word);
    var f := Unparse(buf, word);
    LengthSound(buf, f, word);
    PrintParts(f, word);
    Cut(buf, LengthFields(buf, word).value.1, ParseWsFrame(buf, word).value.consumed);
  }

  /**
   * The parser accepts exactly the buffers that start with a frame of the grammar, and reports
   * that frame.
   */
  lemma ParseIffGrammar(buf: bytes, r: Parsed, word: Word)
    ensures ParseWsFrame(buf, word) == Some(r) <==>
            exists f: Frame :: Fits(f, word) && Print(f, word) <= buf && Outcome(f, word) == r
  {
    hide ParseWsFrame, Fits, Print, Outcome, Unparse;
    if ParseWsFrame(buf, word) == Some(r) {
      UnparseSound(buf, word);
      assert Print(Unparse(buf, word), word) <= buf;
    }
    if f: Frame :| Fits(f, word) && Print(f, word) <= buf && Outcome(f, word) == r {
      ParsePrinted(f, buf[|Print(f, word)|..], word);
      assert buf == Print(f, word) + buf[|Print(f, word)|..];
    }
  }

  // ---------------------------------------------------------------------------------------
  // The parser byte by byte
  // ---------------------------------------------------------------------------------------

  /** Bytes in front of key and payload. */
  function LengthEnd(buf: bytes): nat
    requires |buf| >= 2
  {
    if buf[1] % 128 == 126 then 4 else if buf[1] % 128 == 127 then 10 else 2
  }

  /** The length that the second byte and those behind it declare. */
  function Declared(buf: bytes): nat
    requires |buf| >= 2 && |buf| >= LengthEnd(buf)
  {
    if buf[1] % 128 == 126 then Two(buf[2], buf[3])
    else if buf[1] % 128 == 127 then Eight(buf[2], buf[3], buf[4], buf[5], buf[6], buf[7], buf[8], buf[9])
    else buf[1] % 128
  }

  lemma LengthByBytes(buf: bytes, word: Word)
    requires |buf| >= 2
    ensures |buf| < LengthEnd(buf) ==> LengthFields(buf, word) == None
    ensures |buf| >= LengthEnd(buf) ==>
      LengthFields(buf, word)
      == Some((if buf[1] % 128 == 127 then Declared(buf) % word else Declared(buf), LengthEnd(buf)))
  {
    hide BigEndian;
    if |buf| >= 4 { BigEndianDigits(buf[2..4]); }
    if |buf| >= 10 { BigEndianDigits(buf[2..10]); }
  }

  /** Byte `i` of the data is combined with byte `i` modulo 4 of the key. */
  lemma MaskByte(key: Key, data: bytes, i: nat)
    requires i < |data|
    ensures Mask(key, data)[i] == Xor(data[i], key[i % 4])
  {
  }

  lemma ParsedAtBytes(buf: bytes, off: nat, start: nat, end: nat)
    requires 2 <= off <= start <= end <= |buf| && end - start < WORD64 && (buf[1] >= 128 ==> start == off + 4)
    ensures var p := ParsedAt(buf, off, start, end);
      && p.opcode == buf[0] % 16 && p.consumed == end && |p.payload| == end - start
      && forall i :: 0 <= i < |p.payload| ==>
           p.payload[i] == if buf[1] >= 128 then Xor(buf[start + i], buf[start - 4 + i % 4]) else buf[start + i]
  {
    hide Mask, Xor;
    var p := ParsedAt(buf, off, start, end);
    if buf[1] >= 128 {
      forall i | 0 <= i < |p.payload| ensures p.payload[i] == Xor(buf[start + i], buf[off + i % 4]) {
        MaskByte(buf[off..start], buf[start..end], i);
      }
    }
  }

  /**
   * What a parse tells of every byte of the buffer: the opcode is in the low bits of the first, the
   * declared length in the second and those behind it, and byte `i` of a masked payload is
   * combined with byte `i` modulo 4 of the four bytes in front of the payload.
   */
  lemma ParseByBytes(buf: bytes, word: Word)
    requires ParseWsFrame(buf, word).Some?
    ensures |buf| >= 2 && |buf| >= LengthEnd(buf)
    ensures var p := ParseWsFrame(buf, word).value;
      var off := p.consumed - |p.payload|;
      && p.opcode == buf[0] % 16
      && |p.payload| == (if buf[1] % 128 == 127 then Declared(buf) % word else Declared(buf))
      && off == LengthEnd(buf) + (if buf[1] >= 128 then 4 else 0)
      && (forall i :: 0 <= i < |p.payload| ==>
            p.payload[i] == if buf[1] >= 128 then Xor(buf[off + i], buf[off - 4 + i % 4]) else buf[off + i])
  {
    hide ParseWsFrame, LengthFields, ParsedAt, Xor, Declared;
    ParseKnown(buf, word);
    LengthByBytes(buf, word);
    var (len, off) := LengthFields(buf, word).value;
    var start := if buf[1] >= 128 then off + 4 else off;
    ParsedAtBytes(buf, off, start, start + len);
  }

  lemma UnmaskedByBytes(buf: bytes)
    requires ParseWsFrame(buf, WORD64).Some? && buf[1] >= 128
    ensures var p := ParseWsFrame(buf, WORD64).value;
      var off := p.consumed - |p.payload|;
      off >= 4 && forall i :: 0 <= i < |p.payload| ==> p.payload[i] == Xor(buf[off + i], buf[off - 4 + i % 4])
  {
    hide ParseWsFrame, Xor;
    ParseByBytes(buf, WORD64);
  }

  /** A buffer parses exactly when it holds its length bytes, its key and its declared payload. */
  lemma ParseIffPresent(buf: bytes, word: Word)
    ensures ParseWsFrame(buf, word).Some? <==>
      && |buf| >= 2 && |buf| >= LengthEnd(buf)
      && |buf| >= LengthEnd(buf) + (if buf[1] >= 128 then 4 else 0)
                  + (if buf[1] % 128 == 127 then Declared(buf) % word else Declared(buf))
  {
    hide ParseWsFrame, LengthFields, ParsedAt, Declared;
    ParseKnown(buf, word);
    if |buf| >= 2 { LengthByBytes(buf, word); }
  }

  // ---------------------------------------------------------------------------------------
  // Server frames
  // ---------------------------------------------------------------------------------------

  /** The unmasked final frame both filters write, in the form they choose. */
  function ServerFrame(opcode: byte, payload: Payload): Frame {
    var n := |payload|;
    Frame(128 + opcode % 16, if n < 126 then Short else if n < 0x1_0000 then Medium else Long(n), None, payload)
  }

  function EncodeFrame(opcode: byte, payload: Payload): bytes {
    Print(ServerFrame(opcode, payload), WORD64)
  }

  /** Writing then reading gives the low opcode bits and the payload, in every length class. */
  lemma EncodeParse(opcode: byte, payload: Payload, rest: bytes, word: Word)
    requires |payload| < word
    ensures ParseWsFrame(EncodeFrame(opcode, payload) + rest, word)
         == Some(Parsed(opcode % 16, payload, |EncodeFrame(opcode, payload)|))
  {
    hide ParseWsFrame, ExtendedLength;
    var f := ServerFrame(opcode, payload);
    assert Fits(f, word) && Fits(f, WORD64) by {
      Remainder(|payload|, word);
      Remainder(|payload|, WORD64);
    }
    ParsePrinted(f, rest, word);
  }

  /** The first byte of a server frame has the final bit and the opcode, the second no mask bit. */
  lemma EncodeHead(opcode: byte, payload: Payload)
    ensures |EncodeFrame(opcode, payload)| >= 2
    ensures EncodeFrame(opcode, payload)[0] == 128 + opcode % 16 && EncodeFrame(opcode, payload)[1] < 128
  {
    hide ExtendedLength;
  }

  /** The bytes are one whole frame with this opcode and payload, final and not masked. */
  predicate IsFrame(frame: bytes, opcode: byte, payload: Payload, word: Word) {
    && ParseWsFrame(frame, word) == Some(Parsed(opcode, payload, |frame|))
    && |frame| >= 2 && frame[0] == 128 + opcode % 16 && frame[1] < 128
  }

  lemma EncodedFrame(opcode: byte, payload: Payload, word: Word)
    requires opcode < 16 && |payload| < word
    ensures IsFrame(EncodeFrame(opcode, payload), opcode, payload, word)
  {
    hide ParseWsFrame, EncodeFrame;
    EncodeParse(opcode, payload, [], word);
    EncodeHead(opcode, payload);
    assert EncodeFrame(opcode, payload) + [] == EncodeFrame(opcode, payload);
  }

  lemma EncodeSize(opcode: byte, payload: Payload)
    ensures |EncodeFrame(opcode, payload)| ==
      (if |payload| < 126 then 2 else if |payload| < 65536 then 4 else 10) + |payload|
  {
  }

  lemma DeclaredSmall(buf: bytes)
    requires |buf| >= 2 && |buf| >= LengthEnd(buf)
    ensures Declared(buf) < WORD64 && Declared(buf) % WORD64 == Declared(buf)
  {
  }

  /** The bytes behind them declare the payload's length and end with the payload. */
  lemma EncodeByBytes(opcode: byte, payload: Payload)
    ensures var e := EncodeFrame(opcode, payload);
      && |e| >= 2 && |e| >= LengthEnd(e) && Declared(e) == |payload|
      && |e| == (if |payload| < 126 then 2 else if |payload| < 65536 then 4 else 10) + |payload|
      && e[|e| - |payload|..] == payload
  {
    hide EncodeFrame, ParseWsFrame;
    var e := EncodeFrame(opcode, payload);
    EncodeParse(opcode, payload, [], WORD64);
    assert e + [] == e;
    ParseByBytes(e, WORD64);
    EncodeHead(opcode, payload);
    EncodeSize(opcode, payload);
    DeclaredSmall(e);
    var off := |e| - |payload|;
    assert forall i :: 0 <= i < |payload| ==> e[off..][i] == payload[i];
  }

  /** The chosen length form is the shortest the payload allows, as section 5.2 requires. */
  lemma EncodeShortest(opcode: byte, payload: Payload, f: Frame)
    requires Fits(f, WORD64) && f.key == None && f.payload == payload
    ensures |EncodeFrame(opcode, payload)| <= |Print(f, WORD64)|
    ensures |EncodeFrame(opcode, payload)| == |Print(f, WORD64)| ==> f.form == ServerFrame(opcode, payload).form
  {
  }

  /** `encode_ws_frame`. */
  method EncodeWsFrame(opcode: byte, payload: Payload) returns (frame: bytes)
    requires |payload| < WORD32
    ensures frame == EncodeFrame(opcode, payload)
  {
    frame := [];
    frame := frame + [128 + opcode % 16];
    var len := |payload|;
    if len < 126 {
      frame := frame + [len];
    } else if len <= 0xFFFF {
      frame := frame + [126];
      frame := frame + ToBigEndian(len % 0x1_0000, 2);
    } else {
      frame := frame + [127];
      frame := frame + ToBigEndian(len, 8);
    }
    frame := frame + payload;
  }

  // ---------------------------------------------------------------------------------------
  // The native filter's codec
  // ---------------------------------------------------------------------------------------

  /** The result record of the native parser; `complete` is false on truncated input. */
  datatype WsFrame = WsFrame(fin: bool, opcode: byte, payload: Payload, consumed: nat, complete: bool)

  lemma BigEndianPrefix(data: bytes, lo: nat, i: nat)
    requires lo + i < |data|
    ensures BigEndian(data[lo..lo + i + 1]) == BigEndian(data[lo..lo + i]) * 256 + data[lo + i]
  {
    var s := data[lo..lo + i + 1];
    assert s[..|s| - 1] == data[lo..lo + i];
  }

  /** The part of `parseFrame` that reads the length, with its byte loop. */
  method ReadLength(data: bytes) returns (r: Option<(nat, nat)>)
    requires |data| >= 2
    ensures r == LengthFields(data, WORD64)
    ensures r.Some? ==> r.value.0 < WORD64
  {
    var len7 := data[1] % 128;
    if len7 < 126 { return Some((len7, 2)); }
    var payloadLen: nat := 0;
    if len7 == 126 {
      if |data| < 2 + 2 { return None; }
      var hi: nat, lo: nat := data[2], data[3];
      payloadLen := hi * 256 + lo;
      BigEndianPrefix(data, 2, 0);
      BigEndianPrefix(data, 2, 1);
      return Some((payloadLen, 4));
    }
    if |data| < 2 + 8 { return None; }
    for i := 0 to 8
      invariant payloadLen == BigEndian(data[2..2 + i])
    {
      payloadLen := payloadLen * 256 + data[2 + i];
      BigEndianPrefix(data, 2, i);
    }
    BigEndianBound(data[2..10]);
    Pow256Values();
    return Some((payloadLen, 10));
  }

  /** The loop of `parseFrame` that unmasks the payload byte by byte. */
  method Unmask(src: Payload, maskKey: Key) returns (payload: Payload)
    ensures payload == Mask(maskKey, src)
  {
    payload := [];
    for i := 0 to |src|
      invariant |payload| == i && payload == Mask(maskKey, src)[..i] && |payload| == i
    {
      payload := payload + [XorByte(src[i], maskKey[i % 4])];
    }
  }

  /** The payload of a masked frame with the key spelled out, and of one that is not masked. */
  lemma ParsedAtKey(buf: bytes, off: nat, end: nat)
    requires 2 <= off <= end <= |buf| && end - off < WORD64 + (if buf[1] >= 128 then 4 else 0)
    ensures buf[1] < 128 ==>
      ParsedAt(buf, off, off, end) == Parsed(buf[0] % 16, Mask([0, 0, 0, 0], buf[off..end]), end)
    ensures buf[1] >= 128 && off + 4 <= end ==>
      ParsedAt(buf, off, off + 4, end)
      == Parsed(buf[0] % 16, Mask([buf[off], buf[off + 1], buf[off + 2], buf[off + 3]], buf[off + 4..end]), end)
  {
    hide Mask;
    if buf[1] < 128 {
      MaskZero(buf[off..end]);
    } else if off + 4 <= end {
      assert buf[off..off + 4] == [buf[off], buf[off + 1], buf[off + 2], buf[off + 3]];
    }
  }

  /**
   * `parseFrame`: same frames as the grammar, hence as the WASM parser on a 64-bit word. The sum
   * of header and payload length is taken without wrap-around.
   */
  method ParseFrame(data: bytes) returns (result: WsFrame)
    ensures result.complete <==> ParseWsFrame(data, WORD64).Some?
    ensures result.complete ==>
      Parsed(result.opcode, result.payload, result.consumed) == ParseWsFrame(data, WORD64).value
    ensures result.complete ==> result.fin == (data[0] >= 128) && result.opcode == data[0] % 16
    ensures result.complete && data[1] >= 128 ==>
      (var off := result.consumed - |result.payload|;
       forall i :: 0 <= i < |result.payload| ==> result.payload[i] == Xor(data[off + i], data[off - 4 + i % 4]))
    ensures !result.complete ==> result.consumed == 0 && result.payload == []
  {
    hide ParseWsFrame, LengthFields, ParsedAt, Mask, Xor;
    ParseKnown(data, WORD64);
    result := WsFrame(false, 0, [], 0, false);
    if |data| < 2 { return; }
    result := result.(fin := data[0] >= 128, opcode := data[0] % 16);
    var masked := data[1] >= 128;
    var length := ReadLength(data);
    if length == None { return; }
    var (payloadLen, headerLen) := length.value;
    ghost var off := headerLen;
    var maskKey: Key := [0, 0, 0, 0];
    if masked {
      if |data| < headerLen + 4 { return; }
      maskKey := [data[headerLen], data[headerLen + 1], data[headerLen + 2], data[headerLen + 3]];
      headerLen := headerLen + 4;
    }
    var frameTotal := headerLen + payloadLen;
    if |data| < frameTotal { return; }
    ParsedAtKey(data, off, frameTotal);
    var payload := Unmask(data[headerLen..frameTotal], maskKey);
    result := result.(payload := payload, consumed := frameTotal, complete := true);
    if masked { UnmaskedByBytes(data); }
  }

  lemma {:induction false} ToBigEndianByte(v: nat, n: nat, i: nat)
    requires i < n
    ensures ToBigEndian(v, n)[i] == (v / Pow256(n - 1 - i)) % 256
  {
    if i < n - 1 {
      ToBigEndianByte(v / 256, n - 1, i);
      DivDiv(v, Pow256(n - 2 - i));
    }
  }

  /** `encodeFrame`: the same bytes as the WASM encoder. */
  method EncodeFrameNative(opcode: byte, payload: Payload) returns (buf: bytes)
    ensures buf == EncodeFrame(opcode, payload)
  {
    buf := [128 + opcode % 16];
    var len := |payload|;
    if len < 126 {
      buf := buf + [len];
    } else if len < 65536 {
      buf := buf + [0x7E, (len / 256) % 256, len % 256];
      ToBigEndianByte(len, 2, 0);
      ToBigEndianByte(len, 2, 1);
      assert [(len / 256) % 256, len % 256] == ToBigEndian(len, 2);
    } else {
      var lenBytes: bytes := [0x7F];
      for i := 0 to 8
        invariant lenBytes == [0x7F] + ToBigEndian(len, 8)[..i]
      {
        lenBytes := lenBytes + [(len / Pow256(7 - i)) % 256];
        ToBigEndianByte(len, 8, i);
      }
      buf := buf + lenBytes;
    }
    if len > 0 {
      buf := buf + payload;
    }
  }

  /** What the native encoder writes, the native parser reads as a final frame. */
  method EncodeThenParse(opcode: byte, payload: Payload) returns (result: WsFrame)
    ensures result.complete && result.fin && result.opcode == opcode % 16 && result.payload == payload
  {
    hide EncodeFrame, ParseWsFrame;
    var data := EncodeFrameNative(opcode, payload);
    EncodeParse(opcode, payload, [], WORD64);
    EncodeHead(opcode, payload);
    assert data + [] == data;
    result := ParseFrame(data);
  }

  // ---------------------------------------------------------------------------------------
  // When the two parsers agree
  // ---------------------------------------------------------------------------------------

  /** The 64-bit form declares more than a 32-bit word holds. */
  predicate DeclaresHuge(buf: bytes) {
    |buf| >= 10 && buf[1] % 128 == 127 && BigEndian(buf[2..10]) >= WORD32
  }

  /** The parsers agree on every frame whose declared length fits a 32-bit word. */
  lemma ParsersAgree(buf: bytes)
    requires !DeclaresHuge(buf)
    ensures ParseWsFrame(buf, WORD32) == ParseWsFrame(buf, WORD64)
  {
    if |buf| >= 2 {
      assert LengthFields(buf, WORD32) == LengthFields(buf, WORD64) by {
        if |buf| >= 10 && buf[1] % 128 == 127 {
          Remainder(BigEndian(buf[2..10]), WORD32);
          Remainder(BigEndian(buf[2..10]), WORD64);
        }
      }
    }
  }

  /** Such a frame is present with the length that is left when the declared one is cut to 32 bits. */
  predicate CutShort(buf: bytes) {
    DeclaresHuge(buf) && 10 + (if buf[1] >= 128 then 4 else 0) + BigEndian(buf[2..10]) % WORD32 <= |buf|
  }

  /** What the two parsers make of a huge frame. */
  lemma HugeParse(buf: bytes)
    requires DeclaresHuge(buf)
    ensures ParseWsFrame(buf, WORD32).Some? <==> CutShort(buf)
    ensures ParseWsFrame(buf, WORD64).Some? ==> CutShort(buf)
    ensures ParseWsFrame(buf, WORD64).Some? ==> |ParseWsFrame(buf, WORD64).value.payload| >= WORD32
  {
    hide Mask;
    BigEndianBound(buf[2..10]);
    Pow256Values();
    Remainder(BigEndian(buf[2..10]), WORD64);
    assert LengthFields(buf, WORD64) == Some((BigEndian(buf[2..10]), 10));
    assert LengthFields(buf, WORD32) == Some((BigEndian(buf[2..10]) % WORD32, 10));
  }

  lemma SmallPayload(buf: bytes, word: Word)
    ensures ParseWsFrame(buf, word).Some? ==>
      |ParseWsFrame(buf, word).value.payload| < word && |ParseWsFrame(buf, word).value.payload| <= |buf|
  {
  }

  /**
   * The 32-bit WASM parser and the 64-bit native parser disagree on exactly the frames whose
   * declared length does not fit a 32-bit word and whose length modulo 2^32 is already present.
   */
  lemma ParsersAgreeIff(buf: bytes)
    ensures ParseWsFrame(buf, WORD32) == ParseWsFrame(buf, WORD64) <==> !CutShort(buf)
  {
    hide ParseWsFrame;
    if DeclaresHuge(buf) {
      HugeParse(buf);
      SmallPayload(buf, WORD32);
    } else {
      ParsersAgree(buf);
    }
  }
}
