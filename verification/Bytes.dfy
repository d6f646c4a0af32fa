/** Bytes, machine-word limits and the small sequence vocabulary every other module shares. */
module Bytes {

  type byte = b: int | 0 <= b < 256

  type bytes = seq<byte>

  /** Number of values of a 32-bit word: `usize` of the wasm32 targets and `uint32_t` of the native filter. */
  const WORD32: nat := 0x1_0000_0000

  /** Number of values of a 64-bit word. */
  const WORD64: nat := 0x1_0000_0000_0000_0000

  /** Number of values of a machine word that holds lengths. */
  type Word = w: nat | 0x1_0000 <= w <= WORD64 witness WORD32

  /** A byte string whose length a 64-bit word holds. */
  type Payload = p: bytes | |p| < WORD64

  /** A header name and its value. */
  type Header = (bytes, bytes)

  datatype Option<+T> = None | Some(value: T) {
    function GetOr(default: T): T {
      match this
      case Some(v) => v
      case None => default
    }
  }

  /** Concatenation of a list of byte strings, or of lists in general. */
  function Concat<T>(parts: seq<seq<T>>): seq<T> {
    if parts == [] then [] else parts[0] + Concat(parts[1..])
  }

  lemma {:induction false} ConcatAppend<T>(a: seq<seq<T>>, b: seq<seq<T>>)
    ensures Concat(a + b) == Concat(a) + Concat(b)
  {
    if a == [] {
      assert a + b == b;
    } else {
      assert (a + b)[1..] == a[1..] + b;
      ConcatAppend(a[1..], b);
    }
  }

  lemma ConcatSnoc<T>(a: seq<seq<T>>, x: seq<T>)
    ensures Concat(a + [x]) == Concat(a) + x
  {
    ConcatAppend(a, [x]);
    assert Concat([x]) == x + Concat<T>([]);
  }

  /** The elements of `t` that satisfy `p`, in order. */
  function Keep<T>(p: T -> bool, t: seq<T>): seq<T> {
    if t == [] then [] else Keep(p, t[..|t| - 1]) + if p(t[|t| - 1]) then [t[|t| - 1]] else []
  }

  lemma {:induction false} KeepAppend<T>(p: T -> bool, t: seq<T>, u: seq<T>)
    ensures Keep(p, t + u) == Keep(p, t) + Keep(p, u)
  {
    if u == [] {
      assert t + u == t;
    } else {
      assert (t + u)[..|t + u| - 1] == t + u[..|u| - 1];
      KeepAppend(p, t, u[..|u| - 1]);
    }
  }

  lemma KeepOne<T>(p: T -> bool, x: T)
    ensures Keep(p, [x]) == if p(x) then [x] else []
  {
    assert [x][..0] == [];
  }

  lemma {:induction false} KeepAll<T>(p: T -> bool, t: seq<T>)
    requires forall x <- t :: p(x)
    ensures Keep(p, t) == t
  {
    if t != [] {
      KeepAll(p, t[..|t| - 1]);
      assert t == t[..|t| - 1] + [t[|t| - 1]];
    }
  }

  lemma SamePrefix<T>(p: seq<T>, a: seq<T>, b: seq<T>)
    ensures p + a == p + b <==> a == b
  {
    assert (p + a)[|p|..] == a && (p + b)[|p|..] == b;
  }

  lemma SameSuffix<T>(a: seq<T>, b: seq<T>, e: seq<T>)
    ensures a + e == b + e <==> a == b
  {
    if a + e == b + e {
      assert |a| == |b|;
      assert (a + e)[..|a|] == a && (b + e)[..|b|] == b;
    }
  }

  lemma SliceJoin<T>(s: seq<T>, a: nat, b: nat, c: nat)
    requires a <= b <= c <= |s|
    ensures s[a..c] == s[a..b] + s[b..c]
  {
  }

  /** Value of a big-endian byte string. */
  function BigEndian(s: bytes): (v: nat) {
    if s == [] then 0 else BigEndian(s[..|s| - 1]) * 256 + s[|s| - 1]
  }

  /** The `n` low bytes of `v`, most significant first. */
  function ToBigEndian(v: nat, n: nat): (s: bytes)
    ensures |s| == n
  {
    if n == 0 then [] else ToBigEndian(v / 256, n - 1) + [v % 256]
  }

  function Pow256(n: nat): (p: nat)
    ensures p > 0
  {
    if n == 0 then 1 else 256 * Pow256(n - 1)
  }

  lemma {:induction false} BigEndianBound(s: bytes)
    ensures BigEndian(s) < Pow256(|s|)
  {
    if s != [] { BigEndianBound(s[..|s| - 1]); }
  }

  lemma BigEndianSnoc(s: bytes, b: byte)
    ensures BigEndian(s + [b]) == BigEndian(s) * 256 + b
  {
    assert (s + [b])[..|s|] == s;
  }

  /** The number that eight digits of base 256 write, most significant first. */
  function Eight(a: nat, b: nat, c: nat, d: nat, e: nat, f: nat, g: nat, h: nat): nat {
    ((((((a * 256 + b) * 256 + c) * 256 + d) * 256 + e) * 256 + f) * 256 + g) * 256 + h
  }

  function Two(a: nat, b: nat): nat {
    a * 256 + b
  }

  lemma NoDigits()
    ensures BigEndian([]) == 0
  {
  }

  /** Two and eight big-endian bytes, written out. */
  lemma BigEndianDigits(s: bytes)
    ensures |s| == 2 ==> BigEndian(s) == Two(s[0], s[1])
    ensures |s| == 8 ==> BigEndian(s) == Eight(s[0], s[1], s[2], s[3], s[4], s[5], s[6], s[7])
  {
    hide BigEndian;
    NoDigits();
    forall i | 0 <= i < |s| ensures BigEndian(s[..i + 1]) == BigEndian(s[..i]) * 256 + s[i] {
      BigEndianSnoc(s[..i], s[i]);
      assert s[..i + 1] == s[..i] + [s[i]];
    }
    assert s[..0] == [] && s[..|s|] == s;
    if |s| == 8 {
      var a: nat := BigEndian(s[..4]);
      assert a == BigEndian(s[..3]) * 256 + s[3] && BigEndian(s[..1]) == s[0];
      assert BigEndian(s[..6]) == (a * 256 + s[4]) * 256 + s[5];
      assert BigEndian(s[..7]) == BigEndian(s[..6]) * 256 + s[6];
    }
  }

  lemma {:induction false} BigEndianOfBytes(v: nat, n: nat)
    requires v < Pow256(n)
    ensures BigEndian(ToBigEndian(v, n)) == v
  {
    if n > 0 {
      BigEndianOfBytes(v / 256, n - 1);
      BigEndianSnoc(ToBigEndian(v / 256, n - 1), v % 256);
    }
  }

  lemma {:induction false} BytesOfBigEndian(s: bytes)
    ensures ToBigEndian(BigEndian(s), |s|) == s
  {
    if s != [] {
      var front: bytes, last: nat := s[..|s| - 1], s[|s| - 1];
      BytesOfBigEndian(front);
      assert s == front + [s[|s| - 1]];
      BigEndianSnoc(front, s[|s| - 1]);
      assert (BigEndian(front) * 256 + last) / 256 == BigEndian(front);
      assert (BigEndian(front) * 256 + last) % 256 == last;
      hide BigEndian;
    }
  }

  lemma Pow256Values()
    ensures Pow256(1) == 256 && Pow256(2) == 0x1_0000 && Pow256(8) == WORD64
  {
    assert Pow256(4) == WORD32;
    assert Pow256(6) == 0x1_0000_0000_0000;
  }

  /** ASCII lower-casing. */
  function Lower(s: bytes): (r: bytes)
    ensures |r| == |s|
  {
    seq(|s|, i requires 0 <= i < |s| => if 65 <= s[i] <= 90 then s[i] + 32 else s[i])
  }

  /** The codes of ASCII characters. */
  function Ascii(s: string): bytes
    requires forall i :: 0 <= i < |s| ==> s[i] < 128 as char
  {
    seq(|s|, i requires 0 <= i < |s| => s[i] as int)
  }

  /** Lower-casing maps each letter of the upper alphabet to the same one of the lower, and keeps the rest. */
  lemma LowerLetters(s: bytes, i: nat, k: nat)
    requires i < |s| && k < 26
    ensures s[i] == 'A' as int + k ==> Lower(s)[i] == 'a' as int + k
    ensures s[i] < 'A' as int || s[i] > 'Z' as int ==> Lower(s)[i] == s[i]
  {
  }
}
