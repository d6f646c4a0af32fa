/**
 * Protobuf base-128 varints on 64-bit words: the writer both WASM crates share, the two crates'
 * readers, and the meaning of an encoding as the sum of its 7-bit groups.
 */
module Varint {
  import opened Arithmetic
  import opened Bits
  import opened Bytes

  type u64 = v: int | 0 <= v < WORD64

  datatype Read = Read(value: u64, size: nat)

  /** Sum of the 7-bit groups of an encoding, least significant first. */
  function GroupSum(e: bytes): nat {
    if e == [] then 0 else e[0] % 128 + 128 * GroupSum(e[1..])
  }

  /** Length of the encoding at the front of `s`: through the first byte without continuation bit. */
  function EncodingSize(s: bytes): (n: nat)
    ensures n > 0 && (n <= |s| || n == |s| + 1)
    ensures n <= |s| ==> s[n - 1] < 128
    ensures forall i :: 0 <= i < n - 1 ==> s[i] >= 128
  {
    if s == [] then 1 else if s[0] < 128 then 1 else 1 + EncodingSize(s[1..])
  }

  /** Meaning of reading a varint: at most ten bytes, the group sum modulo 2^64. */
  function Decode(s: bytes): (r: Option<Read>)
    ensures r.Some? ==> 1 <= r.value.size <= |s| && r.value.size <= 10
  {
    var n := EncodingSize(s);
    if n > |s| || n > 10 then None else Some(Read(GroupSum(s[..n]) % WORD64, n))
  }

  function Encode(v: u64): (e: bytes)
    ensures |e| >= 1
    decreases v
  {
    if v < 128 then [v] else [v % 128 + 128] + Encode(v / 128)
  }

  // ---------------------------------------------------------------------------------------
  // Writing
  // ---------------------------------------------------------------------------------------

  /** `write_varint`, the same loop in both crates. */
  method WriteVarint(buf: bytes, v: u64) returns (r: bytes)
    ensures r == buf + Encode(v)
  {
    r := buf;
    var rest := v;
    while true
      invariant r + Encode(rest) == buf + Encode(v)
      decreases rest
    {
      var b := rest % 128;
      var before := rest;
      rest := rest / 128;
      if rest == 0 {
        r := r + [b];
        assert Encode(before) == [b];
        break;
      } else {
        assert r + ([b + 128] + Encode(rest)) == r + [b + 128] + Encode(rest);
        r := r + [b + 128];
      }
    }
  }

  lemma PowStep(n: nat)
    requires n > 0
    ensures Pow2(7 * n) == 128 * Pow2(7 * (n - 1))
  {
    Pow2Values();
    Pow2Add(7, 7 * (n - 1));
  }

  /** An encoding is as long as its value has 7-bit groups, between one and ten. */
  lemma {:induction false} EncodeLength(v: u64, cap: nat)
    requires v < Pow2(7 * cap) && cap >= 1
    ensures 1 <= |Encode(v)| <= cap
    ensures v < Pow2(7 * |Encode(v)|)
    ensures |Encode(v)| > 1 ==> v >= Pow2(7 * (|Encode(v)| - 1))
    decreases v
  {
    Pow2Values();
    if v >= 128 {
      hide Pow2;
      PowStep(cap);
      EncodeLength(v / 128, cap - 1);
      PowStep(|Encode(v)|);
      PowStep(|Encode(v / 128)|);
    }
  }

  lemma EncodeAtMostTen(v: u64)
    ensures 1 <= |Encode(v)| <= 10
    ensures v < Pow2(7 * |Encode(v)|)
    ensures |Encode(v)| > 1 ==> v >= Pow2(7 * (|Encode(v)| - 1))
  {
    Pow2Values();
    Pow2Add(64, 6);
    EncodeLength(v, 10);
  }

  lemma {:induction false} EncodeShape(v: u64)
    ensures EncodingSize(Encode(v)) == |Encode(v)| && GroupSum(Encode(v)) == v
    decreases v
  {
    if v >= 128 { EncodeShape(v / 128); }
  }

  lemma {:induction false} SizeExtend(s: bytes, t: bytes)
    requires EncodingSize(s) <= |s|
    ensures EncodingSize(s + t) == EncodingSize(s)
  {
    if s[0] >= 128 {
      assert (s + t)[1..] == s[1..] + t;
      SizeExtend(s[1..], t);
    }
  }

  /** A complete encoding reads the same whatever follows it. */
  lemma DecodeExtend(s: bytes, t: bytes)
    requires Decode(s).Some?
    ensures Decode(s + t) == Decode(s)
  {
    SizeExtend(s, t);
    assert (s + t)[..EncodingSize(s)] == s[..EncodingSize(s)];
  }

  /** Reading what was written gives the value and the length, whatever follows. */
  lemma RoundTrip(v: u64, rest: bytes)
    ensures Decode(Encode(v) + rest) == Some(Read(v, |Encode(v)|))
  {
    hide Encode, GroupSum, EncodingSize, Pow2;
    EncodeShape(v);
    EncodeAtMostTen(v);
    Remainder(v, WORD64);
    assert Encode(v)[..|Encode(v)|] == Encode(v);
    DecodeExtend(Encode(v), rest);
  }

  // ---------------------------------------------------------------------------------------
  // Reading: 64-bit shifts and ors against the group sum
  // ---------------------------------------------------------------------------------------

  /** `x << s` on a 64-bit word. */
  function Shl64(x: nat, s: nat): u64
    requires s < 64
  {
    Pow2Values();
    (x * Pow2(s)) % WORD64
  }

  lemma Associate(a: nat, b: nat, c: nat)
    ensures a * (b * c) == b * (a * c)
  {
  }

  lemma {:induction false} GroupSumSnoc(e: bytes, b: byte)
    ensures GroupSum(e + [b]) == GroupSum(e) + (b % 128) * Pow2(7 * |e|)
    ensures GroupSum(e) < Pow2(7 * |e|)
  {
    Pow2Values();
    if e == [] {
      assert e + [b] == [b];
      assert GroupSum([b]) == b % 128;
    } else {
      hide Pow2;
      assert (e + [b])[1..] == e[1..] + [b];
      GroupSumSnoc(e[1..], b);
      Pow2Add(7, 7 * (|e| - 1));
      Associate(128, b % 128, Pow2(7 * (|e| - 1)));
    }
  }

  /** Or-ing a shifted word into lower bits adds it modulo 2^64. */
  lemma OrShifted(g: nat, x: nat, s: nat)
    requires s < 64 && g < Pow2(s)
    ensures Or(g, Shl64(x, s)) == (g + x * Pow2(s)) % WORD64
  {
    hide Or, Pow2;
    var m, p := Pow2(64 - s), Pow2(s);
    assert m * p == WORD64 by {
      Pow2Values();
      Pow2Add(64 - s, s);
    }
    AddShifted(0, x, m, p, WORD64);
    AddShifted(g, x, m, p, WORD64);
    OrDisjoint(g, x % m, s);
  }

  /** One turn of a reader's loop. */
  lemma OrGroup(e: bytes, b: byte)
    requires |e| < 10
    ensures Or(GroupSum(e), Shl64(b % 128, 7 * |e|)) == GroupSum(e + [b]) % WORD64
  {
    hide Or, Pow2, GroupSum, Shl64;
    GroupSumSnoc(e, b);
    OrShifted(GroupSum(e), b % 128, 7 * |e|);
  }

  lemma SumBelowWord(e: bytes)
    requires |e| <= 9
    ensures GroupSum(e) < Pow2(63) < WORD64
  {
    Pow2Values();
    hide Pow2, GroupSum;
    GroupSumSnoc(e, 0);
    Pow2Add(7 * |e|, 63 - 7 * |e|);
    Product(1, Pow2(63 - 7 * |e|), Pow2(7 * |e|));
  }

  lemma {:induction false} SizeBeyond(s: bytes, k: nat)
    requires k <= |s| && forall i :: 0 <= i < k ==> s[i] >= 128
    ensures EncodingSize(s) > k
    ensures k < |s| && s[k] < 128 ==> EncodingSize(s) == k + 1
  {
    if k > 0 { SizeBeyond(s[1..], k - 1); }
  }

  /** The same, with the accumulator of a loop that has read `k` bytes of `s`. */
  lemma LoopTurn(s: bytes, k: nat)
    requires k < |s| && k < 10 && forall i :: 0 <= i < k ==> s[i] >= 128
    ensures Or(GroupSum(s[..k]), Shl64(s[k] % 128, 7 * k)) == GroupSum(s[..k + 1]) % WORD64
    ensures s[k] < 128 ==> Decode(s) == Some(Read(GroupSum(s[..k + 1]) % WORD64, k + 1))
    ensures s[k] >= 128 && k == 9 ==> Decode(s) == None
    ensures k < 9 ==> GroupSum(s[..k + 1]) % WORD64 == GroupSum(s[..k + 1])
  {
    hide Or, Pow2, Shl64, GroupSum, EncodingSize;
    assert s[..k + 1] == s[..k] + [s[k]];
    OrGroup(s[..k], s[k]);
    SizeBeyond(s, k);
    if s[k] >= 128 { SizeBeyond(s, k + 1); }
    if k < 9 {
      SumBelowWord(s[..k + 1]);
      Remainder(GroupSum(s[..k + 1]), WORD64);
    }
  }

  lemma EmptySum(s: bytes)
    ensures s[..0] == [] && GroupSum(s[..0]) == 0
  {
  }

  /** Continuation bits up to the end of the buffer. */
  lemma Unended(s: bytes)
    requires forall i :: 0 <= i < |s| ==> s[i] >= 128
    ensures Decode(s) == None
  {
    hide GroupSum;
    SizeBeyond(s, |s|);
  }

  /** `read_varint` of the network filter: a cursor loop from `offset`. */
  method ReadVarintAt(buf: bytes, offset: nat) returns (r: Option<Read>)
    ensures r == if offset <= |buf| then Decode(buf[offset..]) else None
  {
    hide Decode, GroupSum, EncodingSize, Shl64, Or, Pow2;
    var result: u64 := 0;
    var shift := 0;
    var i := offset;
    if offset > |buf| { return None; }
    ghost var s := buf[offset..];
    EmptySum(s);
    while true
      invariant offset <= i <= |buf| && i - offset <= 9 && shift == 7 * (i - offset)
      invariant forall k :: 0 <= k < i - offset ==> s[k] >= 128
      invariant result == GroupSum(s[..i - offset])
      decreases |buf| - i
    {
      if i >= |buf| {
        Unended(s);
        return None;
      }
      LoopTurn(s, i - offset);
      var b := buf[i];
      i := i + 1;
      result := Or(result, Shl64(b % 128, shift));
      if b < 128 { return Some(Read(result, i - offset)); }
      shift := shift + 7;
      if shift >= 64 { return None; }
    }
  }

  /** `read_varint` of the HTTP filter: an enumeration of the slice. */
  method ReadVarintSlice(buf: bytes) returns (r: Option<Read>)
    ensures r == Decode(buf)
  {
    hide Decode, GroupSum, EncodingSize, Shl64, Or, Pow2;
    EmptySum(buf);
    var val: u64 := 0;
    var shift := 0;
    for i := 0 to |buf|
      invariant i <= 9 && shift == 7 * i
      invariant forall k :: 0 <= k < i ==> buf[k] >= 128
      invariant val == GroupSum(buf[..i])
    {
      LoopTurn(buf, i);
      var b := buf[i];
      val := Or(val, Shl64(b % 128, shift));
      if b < 128 { return Some(Read(val, i + 1)); }
      shift := shift + 7;
      if shift >= 64 { return None; }
    }
    Unended(buf);
    return None;
  }

  /** The two crates' readers agree on every buffer and in-range offset. */
  method ReadBoth(buf: bytes, offset: nat) returns (a: Option<Read>, b: Option<Read>)
    requires offset <= |buf|
    ensures a == b == Decode(buf[offset..])
  {
    a := ReadVarintAt(buf, offset);
    b := ReadVarintSlice(buf[offset..]);
  }

  /**
   * What the readers accept: at most ten bytes, all but the last with the continuation bit; the
   * value is the sum of the 7-bit groups modulo 2^64.
   */
  lemma DecodeIff(s: bytes, r: Read)
    ensures Decode(s) == Some(r) <==>
      && 1 <= r.size <= 10 && r.size <= |s| && s[r.size - 1] < 128
      && (forall k :: 0 <= k < r.size - 1 ==> s[k] >= 128)
      && r.value == GroupSum(s[..r.size]) % WORD64
  {
    if 1 <= r.size <= |s| && s[r.size - 1] < 128 && forall k :: 0 <= k < r.size - 1 ==> s[k] >= 128 {
      SizeBeyond(s, r.size - 1);
    }
  }
}
