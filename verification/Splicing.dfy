/**
 * Splicing text between markers: every region from a begin marker to the next end marker is
 * refilled. What a second pass finds, and how the regions of two kinds of markers affect each
 * other.
 */
module Splicing {
  import opened Bytes
  import opened Search

  /** What delimits a region and what goes between the delimiters. */
  datatype Marker = Marker(begin: string, end: string, mid: string)

  function Fill(m: Marker): string {
    m.begin + m.mid + m.end
  }

  /** The first begin marker, and the first end marker behind it. */
  function Match(text: string, m: Marker): (r: Option<(nat, nat)>)
    ensures r.Some? ==> r.value.0 + |m.begin| <= r.value.1 && r.value.1 + |m.end| <= |text|
  {
    match Find(text, m.begin)
    case None => None
    case Some(i) =>
      match FindFrom(text, m.end, i + |m.begin|)
      case None => None
      case Some(j) => Some((i, j))
  }

  /** `pattern.sub`: every region from a begin marker to the next end marker is refilled. */
  function Sub(text: string, m: Marker): string
    requires m.begin != []
    decreases |text|
  {
    match Match(text, m)
    case None => text
    case Some((i, j)) => text[..i] + Fill(m) + Sub(text[j + |m.end|..], m)
  }

  /** `splice`; none where it exits because the markers are missing. */
  function Splice(text: string, m: Marker): Option<string>
    requires m.begin != []
  {
    if Match(text, m) == None then None else Some(Sub(text, m))
  }

  predicate MarkerLike(needle: string) {
    '\n' !in needle && 'D' in needle
  }

  predicate Filling(mid: string) {
    |mid| >= 2 && mid[0] == '\n' && mid[|mid| - 1] == '\n' && 'D' !in mid
  }

  /**
   * The filling sits on lines of its own, each marker within one line, and a letter of both
   * markers never occurs in the filling.
   */
  predicate Good(m: Marker) {
    MarkerLike(m.begin) && MarkerLike(m.end) && Filling(m.mid)
  }

  lemma GoodParts(m: Marker)
    requires Good(m)
    ensures m.begin != [] && m.end != []
  {
  }

  /** What occurs within a middle part has its characters from there. */
  lemma OccursWithin(a: string, mid: string, z: string, needle: string, p: nat, x: char)
    requires OccursAt(a + mid + z, needle, p) && x in needle
    requires |a| <= p && p + |needle| <= |a| + |mid|
    ensures x in mid
  {
    assert (a + mid + z)[p..p + |needle|] == mid[p - |a|..p - |a| + |needle|];
  }

  /** No occurrence of a marker-like string touches a filling. */
  lemma NotInFilling(a: string, mid: string, z: string, needle: string, p: nat)
    requires MarkerLike(needle) && Filling(mid)
    requires |a| < p + |needle| && p < |a| + |mid|
    ensures !OccursAt(a + mid + z, needle, p)
  {
    var text, last := a + mid + z, |a| + |mid| - 1;
    assert text[|a|] == '\n' && text[last] == '\n';
    if OccursAt(text, needle, p) {
      if p <= |a| {
        NoOccurrenceAcross(text, needle, p, |a|);
      } else if last < p + |needle| {
        NoOccurrenceAcross(text, needle, p, last);
      } else {
        OccursWithin(a, mid, z, needle, p, 'D');
      }
    }
  }

  /** `e` is found at `at` and not between `from` and `at`. */
  ghost predicate First(text: string, e: string, from: nat, at: nat) {
    OccursAt(text, e, at) && forall p: nat :: from <= p < at ==> !OccursAt(text, e, p)
  }

  /** Behind a filling the end marker is the first one. */
  lemma FilledEnd(front: string, mid: string, end: string, z: string)
    requires MarkerLike(end) && Filling(mid)
    ensures First(front + mid + (end + z), end, |front|, |front| + |mid|)
  {
    var back := end + z;
    var text := front + mid + back;
    assert OccursAt(text, end, |front| + |mid|) by {
      assert back[0..|end|] == end;
      OccursBehind(front + mid, back, end, 0);
    }
    forall p: nat | |front| <= p < |front| + |mid| ensures !OccursAt(text, end, p) {
      NotInFilling(front, mid, back, end, p);
    }
  }

  lemma FilledBegin(a: string, begin: string, behind: string)
    requires forall p: nat :: p < |a| ==> !OccursAt(a + begin, begin, p)
    ensures First(a + begin + behind, begin, 0, |a|)
  {
    var front := a + begin;
    assert front[|a|..|front|] == begin;
    forall p: nat | p <= |a| ensures OccursAt(front + behind, begin, p) <==> OccursAt(front, begin, p) {
      OccursExtend(front, behind, begin, p);
    }
  }

  /** Where the first begin marker is followed by the first end marker behind it. */
  lemma MatchIs(text: string, m: Marker, i: nat, j: nat)
    requires First(text, m.begin, 0, i) && i + |m.begin| <= j && First(text, m.end, i + |m.begin|, j)
    ensures Match(text, m) == Some((i, j))
  {
    hide OccursAt;
    FindIs(text, m.begin, 0, i);
    FindIs(text, m.end, i + |m.begin|, j);
  }

  /** The region that a substitution writes is the first match of its own result. */
  lemma FilledMatch(a: string, z: string, m: Marker)
    requires Good(m) && forall p: nat :: p < |a| ==> !OccursAt(a + m.begin, m.begin, p)
    ensures Match(a + Fill(m) + z, m) == Some((|a|, |a| + |m.begin| + |m.mid|))
  {
    hide Match, First, MarkerLike, Filling;
    var front := a + m.begin;
    var text := a + Fill(m) + z;
    assert text == front + (m.mid + m.end + z) && text == front + m.mid + (m.end + z);
    FilledBegin(a, m.begin, m.mid + m.end + z);
    FilledEnd(front, m.mid, m.end, z);
    MatchIs(text, m, |a|, |front| + |m.mid|);
  }

  /** No begin marker starts in front of the matched one, also in the cut text. */
  lemma NoneBefore(text: string, m: Marker)
    requires Match(text, m).Some?
    ensures var i := Match(text, m).value.0;
      i + |m.begin| <= |text| && forall p: nat :: p < i ==> !OccursAt(text[..i] + m.begin, m.begin, p)
  {
    var i := Find(text, m.begin).value;
    var front := text[..i + |m.begin|];
    assert front == text[..i] + m.begin && text == front + text[|front|..];
    forall p: nat | p < i ensures !OccursAt(front, m.begin, p) {
      OccursExtend(front, text[|front|..], m.begin, p);
    }
  }

  lemma SubUnfolds(text: string, m: Marker, i: nat, j: nat)
    requires m.begin != [] && Match(text, m) == Some((i, j))
    ensures Sub(text, m) == text[..i] + Fill(m) + Sub(text[j + |m.end|..], m)
  {
    hide Match;
  }

  /** One step of a substitution that starts at a filled region. */
  lemma SubFilled(a: string, z: string, m: Marker)
    requires m.begin != [] && m.end != []
    requires Match(a + Fill(m) + z, m) == Some((|a|, |a| + |m.begin| + |m.mid|))
    ensures Sub(a + Fill(m) + z, m) == a + Fill(m) + Sub(z, m)
  {
    hide Match;
    var out := a + Fill(m) + z;
    assert out[..|a|] == a && out[|a| + |m.begin| + |m.mid| + |m.end|..] == z;
  }

  /** Splicing is idempotent, and the result has markers again. */
  lemma {:induction false} SubIdempotent(text: string, m: Marker)
    requires Good(m)
    ensures Sub(Sub(text, m), m) == Sub(text, m)
    ensures Match(text, m).Some? ==> Match(Sub(text, m), m).Some?
    decreases |text|
  {
    GoodParts(m);
    if Match(text, m).Some? {
      var (i, j) := Match(text, m).value;
      var tail := text[j + |m.end|..];
      SubUnfolds(text, m, i, j);
      var a, z := text[..i], Sub(tail, m);
      SubIdempotent(tail, m);
      NoneBefore(text, m);
      hide Good, Find, FindFrom, OccursAt, Sub, Match, Fill;
      FilledMatch(a, z, m);
      SubFilled(a, z, m);
    }
  }

  /** `splice` succeeds on its own result and returns it unchanged. */
  lemma SpliceIdempotent(text: string, m: Marker)
    requires Good(m) && Splice(text, m).Some?
    ensures Splice(Splice(text, m).value, m) == Splice(text, m)
  {
    SubIdempotent(text, m);
  }

  // ---------------------------------------------------------------------------------------
  // Two kinds of regions in one file
  // ---------------------------------------------------------------------------------------

  /** Two spaces open a marker, it has no other two adjacent spaces and ends in a letter. */
  predicate Indented(s: string) {
    && |s| > 2 && s[0] == ' ' && s[1] == ' ' && s[|s| - 1] != ' '
    && forall i :: 1 <= i < |s| - 1 ==> s[i] != ' ' || s[i + 1] != ' '
  }

  predicate Distinct(a: string, b: string) {
    Indented(a) && Indented(b) && exists i :: 0 <= i < |a| && i < |b| && a[i] != b[i]
  }

  lemma OccursChar(text: string, needle: string, p: nat, d: nat)
    requires OccursAt(text, needle, p) && d < |needle|
    ensures text[p + d] == needle[d]
  {
    assert text[p..p + |needle|][d] == needle[d];
  }

  lemma StartsBehind(text: string, a: string, p: nat, b: string, q: nat)
    requires Indented(a) && Indented(b) && OccursAt(text, a, p) && OccursAt(text, b, q) && p < q
    ensures p + |a| <= q
  {
    OccursChar(text, b, q, 0);
    OccursChar(text, b, q, 1);
    if q < p + |a| {
      OccursChar(text, a, p, q - p);
      if q + 1 < p + |a| { OccursChar(text, a, p, q + 1 - p); }
    }
  }

  lemma SameStart(text: string, a: string, b: string, p: nat)
    requires OccursAt(text, a, p) && OccursAt(text, b, p)
    ensures forall d :: 0 <= d < |a| && d < |b| ==> a[d] == b[d]
  {
    forall d | 0 <= d < |a| && d < |b| ensures a[d] == b[d] {
      OccursChar(text, a, p, d);
      OccursChar(text, b, p, d);
    }
  }

  /** Different markers never overlap. */
  lemma NoOverlap(text: string, a: string, p: nat, b: string, q: nat)
    requires Distinct(a, b) && OccursAt(text, a, p) && OccursAt(text, b, q)
    ensures p + |a| <= q || q + |b| <= p
  {
    if p < q {
      StartsBehind(text, a, p, b, q);
    } else if q < p {
      StartsBehind(text, b, q, a, p);
    } else {
      SameStart(text, a, b, p);
    }
  }

  lemma Elsewhere(text: string, a: string, p: nat, b: string, q: nat)
    requires Distinct(a, b) && OccursAt(text, a, p)
    ensures OccursAt(text, b, q) ==> p + |a| <= q || q + |b| <= p
  {
    hide Distinct;
    if OccursAt(text, b, q) { NoOverlap(text, a, p, b, q); }
  }

  /** `needle` is a marker, different from both markers of `m`. */
  predicate Foreign(needle: string, m: Marker) {
    MarkerLike(needle) && Distinct(m.begin, needle) && Distinct(m.end, needle)
  }

  /** The markers of `m` and `k` differ from each other. */
  predicate Pair(m: Marker, k: Marker) {
    && Good(m) && Good(k)
    && Foreign(m.begin, k) && Foreign(m.end, k) && Foreign(k.begin, m) && Foreign(k.end, m)
  }

  /** A marker not behind another one lies in front of it. */
  lemma ApartInFront(a: string, begin: string, behind: string, needle: string, p: nat)
    requires Distinct(begin, needle) && OccursAt(a + begin + behind, needle, p)
    requires p + |needle| <= |a| + |begin|
    ensures p + |needle| <= |a| && OccursAt(a, needle, p)
  {
    var text := a + begin + behind;
    assert text[|a|..|a| + |begin|] == begin && |needle| > 0;
    NoOverlap(text, begin, |a|, needle, p);
    hide Distinct;
    assert text == a + (begin + behind);
    OccursExtend(a, begin + behind, needle, p);
  }

  /** A marker not in front of another one lies behind it. */
  lemma ApartBehind(front: string, end: string, z: string, needle: string, p: nat)
    requires Distinct(end, needle) && OccursAt(front + end + z, needle, p) && p >= |front|
    ensures p >= |front| + |end| && OccursAt(z, needle, p - |front| - |end|)
  {
    var text := front + end + z;
    assert text[|front|..|front| + |end|] == end && |needle| > 0;
    NoOverlap(text, end, |front|, needle, p);
    hide Distinct;
    OccursBehind(front + end, z, needle, p - |front| - |end|);
  }

  /** A foreign marker lies in front of or behind a filled region. */
  lemma FilledApart(a: string, m: Marker, z: string, needle: string, p: nat)
    requires Good(m) && Foreign(needle, m) && OccursAt(a + Fill(m) + z, needle, p)
    ensures (p + |needle| <= |a| && OccursAt(a, needle, p))
         || (p >= |a| + |Fill(m)| && OccursAt(z, needle, p - |a| - |Fill(m)|))
  {
    hide MarkerLike, Filling, Distinct, OccursAt;
    var front, back := a + m.begin, m.end + z;
    var text := front + m.mid + back;
    assert a + Fill(m) + z == text && text == front + (m.mid + back) && text == front + m.mid + m.end + z;
    if |front| < p + |needle| && p < |front| + |m.mid| {
      NotInFilling(front, m.mid, back, needle, p);
    } else if p < |front| + |m.mid| {
      ApartInFront(a, m.begin, m.mid + back, needle, p);
    } else {
      ApartBehind(front + m.mid, m.end, z, needle, p);
    }
  }

  ghost predicate Absent(text: string, needle: string) {
    forall p: nat :: !OccursAt(text, needle, p)
  }

  /** Every region of `m` in `text` is filled. */
  predicate Stable(text: string, m: Marker)
    requires m.begin != []
  {
    Sub(text, m) == text
  }

  lemma FilledRest(text: string, a: string, m: Marker, z: string)
    requires text == a + Fill(m) + z
    ensures text[|a| + |m.begin| + |m.mid| + |m.end|..] == z
  {
  }

  /** The first region of a stable text, and the stable text behind it. */
  lemma StableParts(text: string, m: Marker, i: nat, j: nat)
    requires Good(m) && m.begin != [] && Stable(text, m) && Match(text, m) == Some((i, j))
    ensures j == i + |m.begin| + |m.mid|
    ensures var rest := text[j + |m.end|..];
      text == text[..i] + Fill(m) + rest && Stable(rest, m)
  {
    SubUnfolds(text, m, i, j);
    var rest := text[j + |m.end|..];
    NoneBefore(text, m);
    hide Good, Match, Sub, Fill;
    FilledMatch(text[..i], Sub(rest, m), m);
    FilledRest(text, text[..i], m, Sub(rest, m));
  }

  /** A filled region in front of a stable text, when nothing in front of it opens another one. */
  lemma FilledStable(a: string, m: Marker, z: string)
    requires Good(m) && m.begin != [] && Stable(z, m)
    requires forall p: nat :: p < |a| ==> !OccursAt(a + m.begin, m.begin, p)
    ensures Match(a + Fill(m) + z, m).Some? && Stable(a + Fill(m) + z, m)
  {
    GoodParts(m);
    hide Match, Sub, Good, Fill;
    FilledMatch(a, z, m);
    SubFilled(a, z, m);
  }

  lemma FindSkips(text: string, needle: string, from: nat, to: nat)
    requires from <= to && forall p :: from <= p < to ==> !OccursAt(text, needle, p)
    ensures FindFrom(text, needle, from) == FindFrom(text, needle, to)
  {
    if FindFrom(text, needle, to).Some? { FindIs(text, needle, from, FindFrom(text, needle, to).value); }
  }

  function Shift(r: Option<nat>, offset: nat): Option<nat> {
    match r case None => None case Some(i) => Some(offset + i)
  }

  lemma OccursFits(text: string, needle: string, i: nat)
    ensures OccursAt(text, needle, i) ==> i + |needle| <= |text|
  {
  }

  lemma FindBehindStep(pre: string, z: string, needle: string, from: nat)
    requires forall p: nat :: OccursAt(pre + z, needle, |pre| + p) <==> OccursAt(z, needle, p)
    ensures FindFrom(pre + z, needle, |pre| + from) == Shift(FindFrom(z, needle, from), |pre|)
  {
    hide OccursAt;
    var x, y := FindFrom(z, needle, from), FindFrom(pre + z, needle, |pre| + from);
    if x.Some? {
      forall q | |pre| + from <= q < |pre| + x.value ensures !OccursAt(pre + z, needle, q) {
        assert OccursAt(pre + z, needle, |pre| + (q - |pre|)) <==> OccursAt(z, needle, q - |pre|);
      }
      FindIs(pre + z, needle, |pre| + from, |pre| + x.value);
    } else if y.Some? {
      OccursBehind(pre, z, needle, y.value - |pre|);
      OccursFits(z, needle, y.value - |pre|);
    }
  }

  lemma FindBehind(pre: string, z: string, needle: string, from: nat)
    ensures FindFrom(pre + z, needle, |pre| + from) == Shift(FindFrom(z, needle, from), |pre|)
  {
    hide FindFrom;
    forall p: nat ensures OccursAt(pre + z, needle, |pre| + p) <==> OccursAt(z, needle, p) {
      OccursBehind(pre, z, needle, p);
    }
    FindBehindStep(pre, z, needle, from);
  }

  lemma SlicesBehind(pre: string, z: string, i: nat, e: nat)
    requires i <= |z| && e <= |z|
    ensures (pre + z)[..|pre| + i] == pre + z[..i] && (pre + z)[|pre| + e..] == z[e..]
  {
  }

  lemma Regroup(a: string, b: string, c: string, d: string)
    ensures a + b + c + d == a + (b + c + d)
  {
  }

  lemma SomeBehind(text: string, pre: string, z: string, m: Marker, i: nat, j: nat)
    requires m.begin != [] && i <= j && j + |m.end| <= |z| && |pre| + j + |m.end| <= |text|
    requires text[..|pre| + i] == pre + z[..i] && text[|pre| + j + |m.end|..] == z[j + |m.end|..]
    requires Match(z, m) == Some((i, j)) && Match(text, m) == Some((|pre| + i, |pre| + j))
    ensures Sub(text, m) == pre + Sub(z, m)
  {
    hide Match, Sub, Fill;
    SubUnfolds(z, m, i, j);
    SubUnfolds(text, m, |pre| + i, |pre| + j);
    Regroup(pre, z[..i], Fill(m), Sub(z[j + |m.end|..], m));
  }

  lemma SubNone(text: string, k: Marker)
    requires k.begin != [] && Match(text, k) == None
    ensures Sub(text, k) == text
  {
  }

  lemma MatchBehind(pre: string, z: string, m: Marker)
    requires m.begin != []
    requires Match(pre + z, m) ==
      (match Match(z, m) case None => None case Some((i, j)) => Some((|pre| + i, |pre| + j)))
    ensures Sub(pre + z, m) == pre + Sub(z, m)
  {
    hide Find, FindFrom, OccursAt;
    if Match(z, m) == None {
      SubNone(z, m);
      SubNone(pre + z, m);
    } else {
      var (i, j) := Match(z, m).value;
      SlicesBehind(pre, z, i, j + |m.end|);
      SomeBehind(pre + z, pre, z, m, i, j);
    }
  }

  /** Where no region opens in front of `z`, the matches are those of `z`. */
  lemma SubBehind(pre: string, z: string, m: Marker)
    requires m.begin != [] && forall p: nat :: OccursAt(pre + z, m.begin, p) ==> p >= |pre|
    ensures Match(pre + z, m).Some? <==> Match(z, m).Some?
    ensures Sub(pre + z, m) == pre + Sub(z, m)
  {
    hide FindFrom, OccursAt;
    FindSkips(pre + z, m.begin, 0, |pre|);
    FindBehind(pre, z, m.begin, 0);
    if Find(z, m.begin).Some? {
      FindBehind(pre, z, m.end, Find(z, m.begin).value + |m.begin|);
    }
    MatchBehind(pre, z, m);
  }

  /** A text without a region has none behind any point of it. */
  lemma NoMatchBehind(pre: string, z: string, m: Marker)
    requires m.begin != [] && Match(pre + z, m) == None
    ensures Match(z, m) == None
  {
    if Match(z, m).Some? {
      var (i, j) := Match(z, m).value;
      OccursBehind(pre, z, m.begin, i);
      OccursBehind(pre, z, m.end, j);
    }
  }

  lemma NoneStable(text: string, m: Marker)
    requires m.begin != [] && Match(text, m) == None
    ensures Stable(text, m)
  {
  }

  lemma FilledSuffix(a: string, filled: string, rest: string, q: nat)
    requires q <= |a|
    ensures (a + filled + rest)[q..] == a[q..] + filled + rest
  {
  }

  lemma FillSize(m: Marker)
    ensures |Fill(m)| == |m.begin| + |m.mid| + |m.end|
  {
  }

  lemma BeforeBehind(a: string, begin: string, q: nat)
    requires q <= |a| && forall p: nat :: p < |a| ==> !OccursAt(a + begin, begin, p)
    ensures forall p: nat :: p < |a[q..]| ==> !OccursAt(a[q..] + begin, begin, p)
  {
    assert a + begin == a[..q] + (a[q..] + begin);
    forall p: nat | p < |a[q..]| ensures !OccursAt(a[q..] + begin, begin, p) {
      OccursBehind(a[..q], a[q..] + begin, begin, p);
    }
  }

  lemma MatchParts(text: string, k: Marker, x: nat, y: nat)
    requires Match(text, k) == Some((x, y))
    ensures x + |k.begin| <= y && OccursAt(text, k.begin, x)
    ensures y + |k.end| <= |text| && text == text[..x] + k.begin + text[x + |k.begin|..]
    ensures OccursAt(text, k.end, y)
  {
    assert text[x..x + |k.begin|] == k.begin;
  }

  /** What lies behind a foreign marker in a stable text is stable. */
  lemma {:induction false} SuffixStable(text: string, m: Marker, needle: string, p: nat)
    requires Good(m) && m.begin != [] && Foreign(needle, m) && Stable(text, m) && OccursAt(text, needle, p)
    ensures Stable(text[p + |needle|..], m)
    decreases |text|
  {
    hide Good, Foreign, FindFrom, Find, Match, Sub, Fill, Stable, OccursAt;
    GoodParts(m);
    OccursFits(text, needle, p);
    var q := p + |needle|;
    var z := text[q..];
    if Match(text, m) == None {
      assert text == text[..q] + z;
      NoMatchBehind(text[..q], z, m);
      NoneStable(z, m);
    } else {
      var (i, j) := Match(text, m).value;
      MatchParts(text, m, i, j);
      var a, rest := text[..i], text[j + |m.end|..];
      StableParts(text, m, i, j);
      NoneBefore(text, m);
      FilledApart(a, m, rest, needle, p);
      if q <= i {
        BeforeBehind(a, m.begin, q);
        FilledStable(a[q..], m, rest);
        FilledSuffix(a, Fill(m), rest, q);
      } else {
        var e := j + |m.end|;
        FillSize(m);
        SuffixStable(rest, m, needle, p - e);
        assert rest[q - e..] == z;
      }
    }
  }

  lemma AbsentBehind(text: string, needle: string, q: nat)
    requires q <= |text| && Absent(text, needle)
    ensures Absent(text[q..], needle)
  {
    assert text == text[..q] + text[q..];
    forall p: nat ensures !OccursAt(text[q..], needle, p) {
      OccursBehind(text[..q], text[q..], needle, p);
    }
  }

  /** Substitution creates no foreign marker. */
  lemma {:induction false} AbsentAfter(text: string, k: Marker, needle: string)
    requires Good(k) && k.begin != [] && Foreign(needle, k) && Absent(text, needle)
    ensures Absent(Sub(text, k), needle)
    decreases |text|
  {
    hide Good, Foreign;
    if Match(text, k).Some? {
      var (x, y) := Match(text, k).value;
      var a, z := text[..x], text[y + |k.end|..];
      SubUnfolds(text, k, x, y);
      hide Match, Sub, Find, FindFrom;
      AbsentBehind(text, needle, y + |k.end|);
      AbsentAfter(z, k, needle);
      forall p: nat | OccursAt(Sub(text, k), needle, p) ensures OccursAt(text, needle, p) {
        FilledApart(a, k, Sub(z, k), needle, p);
        OccursExtend(a, text[x..], needle, p);
        assert text == a + text[x..];
      }
    }
  }

  lemma NoBeginNoMatch(a: string, m: Marker)
    requires Absent(a, m.begin) || Absent(a, m.end)
    ensures Match(a, m) == None
  {
    hide OccursAt;
  }

  /** No region of `m` opens in `a`: the matches of the new text are those of `v`. */
  lemma JoinUnopened(m: Marker, k: Marker, a: string, v: string)
    requires Pair(m, k) && m.begin != [] && Stable(v, m) && Absent(a, m.begin)
    ensures Stable(a + Fill(k) + v, m)
    ensures Match(a, m) == None && (Match(a + Fill(k) + v, m).Some? <==> Match(v, m).Some?)
  {
    hide FindFrom, Find, Sub, OccursAt, Good, Foreign;
    assert Match(a, m) == None by { NoBeginNoMatch(a, m); }
    forall p: nat | OccursAt(a + Fill(k) + v, m.begin, p) ensures p >= |a + Fill(k)| {
      FilledApart(a, k, v, m.begin, p);
    }
    hide Match;
    SubBehind(a + Fill(k), v, m);
  }

  /** A region of `m` opens in `a` and no end marker follows. */
  lemma JoinUnclosed(m: Marker, k: Marker, a: string, v: string, i: nat)
    requires Pair(m, k) && m.begin != [] && Find(a, m.begin) == Some(i)
    requires Absent(v, m.end) && forall p: nat :: p >= i + |m.begin| ==> !OccursAt(a, m.end, p)
    ensures Match(a, m) == None && Match(v, m) == None && Match(a + Fill(k) + v, m) == None
    ensures Stable(a + Fill(k) + v, m)
  {
    NoBeginNoMatch(v, m);
    var u := a + Fill(k) + v;
    assert u == a + (Fill(k) + v);
    FindExtend(a, Fill(k) + v, m.begin);
    hide Good, Foreign, Find;
    var r := FindFrom(u, m.end, i + |m.begin|);
    assert Match(a, m) == None;
    hide FindFrom;
    if Match(u, m).Some? {
      assert OccursAt(u, m.end, Match(u, m).value.1) && Match(u, m).value.1 >= i + |m.begin|;
      FilledApart(a, k, v, m.end, Match(u, m).value.1);
    }
  }

  lemma Cut(a: string, behind: string, head: string, filled: string, rest: string)
    requires a + behind == head + filled + rest && |head| + |filled| <= |a|
    ensures var e := |head| + |filled|;
      a == head + filled + a[e..] && rest == a[e..] + behind
  {
    var e := |head| + |filled|;
    var text := a + behind;
    assert text[..e] == head + filled && text[e..] == rest;
    assert a[..e] == text[..e] && a == a[..e] + a[e..];
  }

  lemma FindFits(text: string, needle: string)
    ensures Find(text, needle).Some? ==> Find(text, needle).value + |needle| <= |text|
  {
  }

  lemma OccursInFront(a: string, behind: string, needle: string, p: nat)
    ensures OccursAt(a, needle, p) ==> OccursAt(a + behind, needle, p)
  {
    if p + |needle| <= |a| { OccursExtend(a, behind, needle, p); }
  }

  lemma JoinNoMatch(m: Marker, k: Marker, a: string, behind: string, v: string)
    requires Pair(m, k) && m.begin != [] && Match(a + k.begin + behind, m) == None && Stable(v, m)
    requires Absent(behind, m.end) ==> Absent(v, m.end)
    ensures Stable(a + Fill(k) + v, m)
    ensures Match(a + Fill(k) + v, m).Some? <==> Match(a, m).Some? || Match(v, m).Some?
  {
    var text := a + k.begin + behind;
    assert text == a + (k.begin + behind);
    hide FindFrom, OccursAt, Pair, Stable;
    if Find(a, m.begin) == None {
      JoinUnopened(m, k, a, v);
    } else {
      var i := Find(a, m.begin).value;
      assert i + |m.begin| <= |a| by { FindFits(a, m.begin); }
      FindExtend(a, k.begin + behind, m.begin);
      forall p: nat ensures !OccursAt(behind, m.end, p) {
        OccursBehind(a + k.begin, behind, m.end, p);
        assert FindFrom(text, m.end, i + |m.begin|) == None;
      }
      forall p: nat | p >= i + |m.begin| ensures !OccursAt(a, m.end, p) {
        OccursInFront(a, k.begin + behind, m.end, p);
        assert FindFrom(text, m.end, i + |m.begin|) == None;
      }
      JoinUnclosed(m, k, a, v, i);
    }
  }

  lemma Nest(a: string, b: string, c: string, d: string, e: string)
    ensures (a + b + c) + d + e == a + b + (c + d + e)
  {
  }

  lemma BeginsAt(a: string, needle: string, behind: string)
    ensures OccursAt(a + needle + behind, needle, |a|)
  {
    assert (a + needle + behind)[|a|..|a| + |needle|] == needle;
  }

  lemma NotFirst(text: string, m: Marker, p: nat)
    requires Match(text, m).Some? && p < Match(text, m).value.0
    ensures !OccursAt(text, m.begin, p)
  {
  }

  lemma NoneWithin(text: string, a: string, tail: string, m: Marker)
    requires text == a + tail && Match(text, m).Some? && |a| <= Match(text, m).value.0 && m.begin != []
    ensures Absent(a, m.begin)
  {
    hide Match;
    forall p: nat ensures !OccursAt(a, m.begin, p) {
      OccursInFront(a, tail, m.begin, p);
      OccursFits(a, m.begin, p);
      if p < Match(text, m).value.0 { NotFirst(text, m, p); }
    }
  }

  /** The first region of a stable text `a + k.begin + behind` lies within `a` or behind it. */
  lemma FirstRegion(m: Marker, k: Marker, a: string, behind: string) returns (e: nat)
    requires Good(m) && Foreign(k.begin, m) && m.begin != []
    requires Stable(a + k.begin + behind, m) && Match(a + k.begin + behind, m).Some?
    ensures e > 0 && (e > |a| ==> Absent(a, m.begin))
    ensures e <= |a| ==> |Fill(m)| <= e && var head := a[..e - |Fill(m)|];
      && a == head + Fill(m) + a[e..]
      && (forall p: nat :: p < |head| ==> !OccursAt(head + m.begin, m.begin, p))
      && Stable(a[e..] + k.begin + behind, m)
  {
    hide Good, Foreign, Stable, Sub, Match, Absent, Fill, OccursAt;
    var text, tail := a + k.begin + behind, k.begin + behind;
    assert text == a + tail;
    var (i, j) := Match(text, m).value;
    MatchParts(text, m, i, j);
    StableParts(text, m, i, j);
    NoneBefore(text, m);
    FillSize(m);
    e := j + |m.end|;
    var head, rest := text[..i], text[e..];
    BeginsAt(a, k.begin, behind);
    FilledApart(head, m, rest, k.begin, |a|);
    if e <= |a| {
      Cut(a, tail, head, Fill(m), rest);
      assert a[..i] == head;
      assert a[e..] + tail == a[e..] + k.begin + behind;
    } else {
      NoneWithin(text, a, tail, m);
    }
  }

  lemma PairParts(m: Marker, k: Marker)
    requires Pair(m, k)
    ensures Good(m) && Good(k) && Foreign(m.begin, k) && Foreign(m.end, k) && Foreign(k.begin, m) && Foreign(k.end, m)
  {
    hide Good, Foreign;
  }

  /**
   * Of a text `a + k.begin + behind`, stable for `m`, the part `a` is kept, followed by a filled
   * region of `k` and another stable text `v`: the result is stable, and its regions are those of
   * `a` and of `v`.
   */
  lemma {:induction false} JoinStable(m: Marker, k: Marker, a: string, behind: string, v: string)
    requires Pair(m, k) && m.begin != [] && Stable(a + k.begin + behind, m) && Stable(v, m)
    requires Absent(behind, m.end) ==> Absent(v, m.end)
    ensures Stable(a + Fill(k) + v, m)
    ensures Match(a + Fill(k) + v, m).Some? <==> Match(a, m).Some? || Match(v, m).Some?
    decreases |a|
  {
    hide Pair, Good, Foreign, Stable, Sub, Match, Absent, Fill;
    PairParts(m, k);
    var text := a + k.begin + behind;
    if Match(text, m) == None {
      JoinNoMatch(m, k, a, behind, v);
    } else {
      var e := FirstRegion(m, k, a, behind);
      if e <= |a| {
        var head := a[..e - |Fill(m)|];
        JoinStable(m, k, a[e..], behind, v);
        FilledStable(head, m, a[e..] + Fill(k) + v);
        FilledMatch(head, a[e..], m);
        Nest(head, Fill(m), a[e..], Fill(k), v);
      } else {
        JoinUnopened(m, k, a, v);
      }
    }
  }

  lemma ForeignParts(needle: string, m: Marker)
    requires Foreign(needle, m)
    ensures Distinct(m.begin, needle) && Distinct(m.end, needle)
  {
    hide Distinct;
  }

  /** Some region of `m` lies outside the regions of `k`. */
  predicate Kept(text: string, m: Marker, k: Marker)
    requires k.end != []
    decreases |text|
  {
    match Match(text, k)
    case None => Match(text, m).Some?
    case Some((x, y)) => Match(text[..x], m).Some? || Kept(text[y + |k.end|..], m, k)
  }

  /**
   * Refilling the regions of `k` leaves those of `m` filled, and leaves one at all exactly when
   * one lies outside the regions of `k`.
   */
  lemma {:induction false} Interplay(text: string, m: Marker, k: Marker)
    requires Pair(m, k) && m.begin != [] && k.begin != [] && k.end != [] && Stable(text, m)
    ensures Stable(Sub(text, k), m)
    ensures Match(Sub(text, k), m).Some? <==> Kept(text, m, k)
    decreases |text|
  {
    hide Pair, Good, Foreign, Stable, Sub, Find, FindFrom, Absent, OccursAt;
    if Match(text, k) == None {
      SubNone(text, k);
    } else {
      PairParts(m, k);
      var (x, y) := Match(text, k).value;
      var a, behind, z := text[..x], text[x + |k.begin|..], text[y + |k.end|..];
      MatchParts(text, k, x, y);
      hide Match;
      SubUnfolds(text, k, x, y);
      SuffixStable(text, m, k.end, y);
      Interplay(z, m, k);
      if Absent(behind, m.end) {
        AbsentBehind(behind, m.end, y + |k.end| - x - |k.begin|);
        assert behind[y + |k.end| - x - |k.begin|..] == z;
        AbsentAfter(z, k, m.end);
      }
      JoinStable(m, k, a, behind, Sub(z, k));
    }
  }

  /** Splicing at the regions of `m` and then at those of `k`; both must be there. */
  function SpliceBoth(text: string, m: Marker, k: Marker): Option<string>
    requires m.begin != [] && k.begin != []
  {
    match Splice(text, m)
    case None => None
    case Some(t) => Splice(t, k)
  }

  /** Once the regions of `m` are refilled, some of them lies outside the regions of `k`. */
  predicate Survives(text: string, m: Marker, k: Marker)
    requires m.begin != [] && k.end != []
  {
    Kept(Sub(text, m), m, k)
  }

  /** Splicing the result of both splices again is the identity, if a region of `m` is left at all. */
  lemma SpliceBothAgain(text: string, m: Marker, k: Marker)
    requires Pair(m, k) && m.begin != [] && k.begin != [] && k.end != []
    requires SpliceBoth(text, m, k).Some?
    ensures var u := SpliceBoth(text, m, k).value;
      SpliceBoth(u, m, k) == if Survives(text, m, k) then Some(u) else None
  {
    PairParts(m, k);
    hide Pair, Good, Sub, Match, Kept;
    SubIdempotent(text, m);
    var t := Sub(text, m);
    SubIdempotent(t, k);
    Interplay(t, m, k);
  }

  /** Both splices leave a text as it is exactly when it has regions of both kinds, all filled. */
  lemma SpliceBothFixed(text: string, m: Marker, k: Marker)
    requires Pair(m, k) && m.begin != [] && k.begin != [] && k.end != []
    ensures SpliceBoth(text, m, k) == Some(text) <==>
      Match(text, m).Some? && Match(text, k).Some? && Stable(text, m) && Stable(text, k)
  {
    hide Pair, Good, Sub, Match, Kept;
    PairParts(m, k);
    SubIdempotent(text, m);
    var t := Sub(text, m);
    SubIdempotent(t, k);
    Interplay(t, m, k);
  }

  /** A begin marker stands at `i`, and the first end marker behind it at `j`. */
  ghost predicate RegionAt(text: string, begin: string, end: string, i: nat, j: nat) {
    OccursAt(text, begin, i) && i + |begin| <= j && First(text, end, i + |begin|, j)
  }

  /** Every region, from its begin marker through its end marker, reads `filling`. */
  ghost predicate AllRegions(text: string, begin: string, end: string, filling: string) {
    forall i: nat, j: nat :: RegionAt(text, begin, end, i, j) ==>
      j + |end| <= |text| && text[i..j + |end|] == filling
  }

  ghost predicate AllFilled(text: string, m: Marker) {
    AllRegions(text, m.begin, m.end, Fill(m))
  }

  lemma MarkerFacts(m: Marker)
    requires Good(m) && Distinct(m.begin, m.end)
    ensures Indented(m.begin) && |m.begin| > 2 && |Fill(m)| == |m.begin| + |m.mid| + |m.end|
  {
    hide MarkerLike, Filling;
  }

  lemma FilledParts(a: string, m: Marker, rest: string)
    ensures a + Fill(m) + rest == (a + m.begin) + m.mid + (m.end + rest)
    ensures OccursAt(a + Fill(m) + rest, m.begin, |a|)
    ensures OccursAt(a + Fill(m) + rest, m.end, |a| + |m.begin| + |m.mid|)
  {
    var text, front := a + Fill(m) + rest, a + m.begin;
    assert text == front + m.mid + (m.end + rest);
    assert text[|a|..|front|] == m.begin;
    assert text[|front| + |m.mid|..|front| + |m.mid| + |m.end|] == m.end;
  }

  lemma NotWithin(front: string, m: Marker, back: string, i: nat)
    requires Good(m) && |front| <= i
    ensures i < |front| + |m.mid| ==> !OccursAt(front + m.mid + back, m.begin, i)
  {
    GoodParts(m);
    hide MarkerLike, Filling, OccursAt;
    if i < |front| + |m.mid| { NotInFilling(front, m.mid, back, m.begin, i); }
  }

  lemma Swapped(a: string, b: string)
    requires Distinct(a, b)
    ensures Distinct(b, a)
  {
  }

  lemma StartsAgain(text: string, a: string, p: nat, q: nat)
    requires Indented(a) && OccursAt(text, a, p) && p < q
    ensures OccursAt(text, a, q) ==> p + |a| <= q
  {
    hide Indented;
    if OccursAt(text, a, q) { StartsBehind(text, a, p, a, q); }
  }

  /** A second begin marker behind the first region of a stable text lies behind all of it. */
  lemma NextBegin(a: string, m: Marker, rest: string, i: nat)
    requires Good(m) && Distinct(m.begin, m.end) && OccursAt(a + Fill(m) + rest, m.begin, i) && i > |a|
    ensures i >= |a| + |Fill(m)|
  {
    hide Good, Distinct, Indented;
    var text, front, back := a + Fill(m) + rest, a + m.begin, m.end + rest;
    FilledParts(a, m, rest);
    Swapped(m.begin, m.end);
    MarkerFacts(m);
    hide OccursAt, Fill;
    StartsAgain(text, m.begin, |a|, i);
    NotWithin(front, m, back, i);
    Elsewhere(text, m.end, |front| + |m.mid|, m.begin, i);
  }

  /** What is found behind a front part, found in the whole. */
  lemma FirstShifts(front: string, rest: string, e: string, from: nat, at: nat)
    requires from <= at
    ensures First(rest, e, from, at) <==> First(front + rest, e, |front| + from, |front| + at)
  {
    forall p: nat ensures OccursAt(front + rest, e, |front| + p) <==> OccursAt(rest, e, p) {
      OccursBehind(front, rest, e, p);
    }
    if First(rest, e, from, at) {
      forall q: nat | |front| + from <= q < |front| + at ensures !OccursAt(front + rest, e, q) {
        assert !OccursAt(rest, e, q - |front|);
        assert OccursAt(front + rest, e, |front| + (q - |front|)) <==> OccursAt(rest, e, q - |front|);
      }
    }
    if First(front + rest, e, |front| + from, |front| + at) {
      forall p: nat | from <= p < at ensures !OccursAt(rest, e, p) {
        assert !OccursAt(front + rest, e, |front| + p);
      }
    }
  }

  lemma FirstUnique(text: string, e: string, from: nat, x: nat, y: nat)
    requires First(text, e, from, x) && First(text, e, from, y) && from <= x && from <= y
    ensures x == y
  {
    hide OccursAt;
  }

  /** The first match of a text, in terms of occurrences. */
  lemma MatchFirst(text: string, m: Marker)
    ensures Match(text, m).Some? ==> (var (i, j) := Match(text, m).value;
      && OccursAt(text, m.begin, i) && First(text, m.end, i + |m.begin|, j)
      && (forall p: nat :: p < i ==> !OccursAt(text, m.begin, p)))
    ensures Match(text, m) == None ==> forall i: nat, j: nat ::
      OccursAt(text, m.begin, i) && i + |m.begin| <= j ==> !OccursAt(text, m.end, j)
  {
    hide OccursAt;
    forall i: nat, j: nat | Match(text, m) == None && OccursAt(text, m.begin, i) && i + |m.begin| <= j
      ensures !OccursAt(text, m.end, j)
    {
      OccursFits(text, m.begin, i);
      OccursFits(text, m.end, j);
    }
  }

  /** In a filled text a region behind the first one is a region of what follows it. */
  lemma RegionBehind(a: string, m: Marker, rest: string, i: nat, j: nat)
    requires Good(m) && Distinct(m.begin, m.end) && i > |a|
    requires RegionAt(a + Fill(m) + rest, m.begin, m.end, i, j)
    ensures var e := |a| + |Fill(m)|;
      i >= e && j >= e && RegionAt(rest, m.begin, m.end, i - e, j - e)
  {
    hide Good, Distinct, Fill, First, OccursAt;
    NextBegin(a, m, rest, i);
    var e := |a| + |Fill(m)|;
    OccursBehind(a + Fill(m), rest, m.begin, i - e);
    FirstShifts(a + Fill(m), rest, m.end, i - e + |m.begin|, j - e);
  }

  lemma ThreeParts(text: string, x: nat, y: nat)
    requires x <= y <= |text|
    ensures text == text[..x] + text[x..y] + text[y..]
  {
  }

  lemma NoRegions(text: string, m: Marker)
    requires forall i: nat, j: nat :: OccursAt(text, m.begin, i) && i + |m.begin| <= j ==> !OccursAt(text, m.end, j)
    ensures AllFilled(text, m)
  {
    hide OccursAt;
  }

  lemma SliceBehind(front: string, rest: string, i: nat, j: nat)
    requires i <= j <= |rest|
    ensures (front + rest)[|front| + i..|front| + j] == rest[i..j]
  {
  }

  lemma FilledAll(text: string, m: Marker, a: string, rest: string, x: nat, y: nat)
    requires Good(m) && Distinct(m.begin, m.end) && m.begin != []
    requires text == a + Fill(m) + rest && x == |a| && y == x + |m.begin| + |m.mid|
    requires First(text, m.end, x + |m.begin|, y) && forall p: nat :: p < x ==> !OccursAt(text, m.begin, p)
    requires AllFilled(rest, m)
    ensures AllFilled(text, m)
  {
    hide Good, Distinct, Fill, First, OccursAt;
    FillSize(m);
    var e := |a| + |Fill(m)|;
    forall i: nat, j: nat | RegionAt(text, m.begin, m.end, i, j)
      ensures j + |m.end| <= |text| && text[i..j + |m.end|] == Fill(m)
    {
      if i == x {
        FirstUnique(text, m.end, x + |m.begin|, y, j);
        assert text[x..e] == Fill(m);
      } else {
        RegionBehind(a, m, rest, i, j);
        assert rest[i - e..j - e + |m.end|] == Fill(m);
        SliceBehind(a + Fill(m), rest, i - e, j - e + |m.end|);
      }
    }
  }

  lemma FilledRests(a: string, m: Marker, rest: string)
    requires AllFilled(a + Fill(m) + rest, m)
    ensures AllFilled(rest, m)
  {
    hide Fill, First, OccursAt;
    var front := a + Fill(m);
    forall i: nat, j: nat | RegionAt(rest, m.begin, m.end, i, j)
      ensures j + |m.end| <= |rest| && rest[i..j + |m.end|] == Fill(m)
    {
      OccursBehind(front, rest, m.begin, i);
      FirstShifts(front, rest, m.end, i + |m.begin|, j);
      assert RegionAt(front + rest, m.begin, m.end, |front| + i, |front| + j);
      SliceBehind(front, rest, i, j + |m.end|);
    }
  }

  /** A text is stable exactly when every region in it is the filling. */
  lemma {:induction false} StableIff(text: string, m: Marker)
    requires Good(m) && m.begin != [] && m.end != [] && Distinct(m.begin, m.end)
    ensures Stable(text, m) <==> AllFilled(text, m)
    decreases |text|
  {
    hide Good, Distinct, Match, Sub, OccursAt, First, Fill;
    MatchFirst(text, m);
    if Match(text, m) == None {
      SubNone(text, m);
      NoRegions(text, m);
    } else {
      var (x, y) := Match(text, m).value;
      MatchParts(text, m, x, y);
      var a, rest := text[..x], text[y + |m.end|..];
      StableIff(rest, m);
      if Stable(text, m) {
        StableParts(text, m, x, y);
        FilledAll(text, m, a, rest, x, y);
      } else if AllFilled(text, m) {
        assert RegionAt(text, m.begin, m.end, x, y);
        assert text[x..y + |m.end|] == Fill(m);
        ThreeParts(text, x, y + |m.end|);
        FilledRests(a, m, rest);
        SubUnfolds(text, m, x, y);
      }
    }
  }

  lemma MatchIffRegion(text: string, m: Marker)
    ensures Match(text, m).Some? <==> exists i: nat, j: nat :: RegionAt(text, m.begin, m.end, i, j)
  {
    MatchFirst(text, m);
    if Match(text, m).Some? {
      var (i, j) := Match(text, m).value;
      assert RegionAt(text, m.begin, m.end, i, j);
    }
  }

  /** What a text holds outside its regions. */
  function Outside(text: string, m: Marker): string
    requires m.begin != []
    decreases |text|
  {
    match Match(text, m)
    case None => text
    case Some((i, j)) => text[..i] + Outside(text[j + |m.end|..], m)
  }

  lemma FilledHead(a: string, filled: string, z: string)
    ensures (a + filled + z)[..|a|] == a
  {
  }

  /** Splicing changes nothing outside the regions. */
  lemma {:induction false} OutsideKept(text: string, m: Marker)
    requires Good(m) && m.begin != [] && m.end != []
    ensures Outside(Sub(text, m), m) == Outside(text, m)
    decreases |text|
  {
    hide Good, Match, Sub, Fill;
    if Match(text, m) == None {
      SubNone(text, m);
    } else {
      var (i, j) := Match(text, m).value;
      MatchParts(text, m, i, j);
      var a, tail := text[..i], text[j + |m.end|..];
      SubUnfolds(text, m, i, j);
      OutsideKept(tail, m);
      NoneBefore(text, m);
      FilledMatch(a, Sub(tail, m), m);
      var out := a + Fill(m) + Sub(tail, m);
      FilledRest(out, a, m, Sub(tail, m));
      FilledHead(a, Fill(m), Sub(tail, m));
    }
  }

  /** After both splices every region of both kinds is filled. */
  lemma BothStable(text: string, m: Marker, k: Marker)
    requires Pair(m, k) && m.begin != [] && k.begin != [] && k.end != []
    requires SpliceBoth(text, m, k).Some?
    ensures Stable(SpliceBoth(text, m, k).value, m) && Stable(SpliceBoth(text, m, k).value, k)
  {
    hide Pair, Good, Sub, Match, Kept;
    PairParts(m, k);
    SubIdempotent(text, m);
    var t := Sub(text, m);
    SubIdempotent(t, k);
    Interplay(t, m, k);
  }

  /** The first region of `m` ends in front of every begin marker of `k`. */
  predicate InFront(text: string, m: Marker, k: Marker) {
    match (Match(text, m), Find(text, k.begin))
    case (Some((_, j)), Some(x)) => j + |m.end| <= x
    case (Some(_), None) => true
    case _ => false
  }

  lemma Prefix(front: string, v: string, x: nat)
    requires |front| <= x <= |front + v|
    ensures (front + v)[..x] == front + (front + v)[|front|..x]
  {
  }

  lemma FirstBehind(text: string, m: Marker, k: Marker, i: nat, j: nat, v: string, x: nat)
    requires Pair(m, k) && InFront(text, m, k) && Match(text, m) == Some((i, j)) && i <= j && i <= |text|
    requires k.begin != []
    requires OccursAt(text[..i] + Fill(m) + v, k.begin, x)
    ensures x >= i + |Fill(m)|
  {
    hide Pair, Good, Foreign, FindFrom, Match, Fill;
    PairParts(m, k);
    FilledApart(text[..i], m, v, k.begin, x);
    OccursInFront(text[..i], text[i..], k.begin, x);
    assert text == text[..i] + text[i..];
  }

  /** Such a region survives. */
  lemma InFrontSurvives(text: string, m: Marker, k: Marker)
    requires Pair(m, k) && m.begin != [] && k.begin != [] && k.end != [] && InFront(text, m, k)
    ensures Survives(text, m, k)
  {
    hide Pair, Good, Foreign, Sub, FindFrom, Find, OccursAt, Match, Fill;
    PairParts(m, k);
    var (i, j) := Match(text, m).value;
    MatchParts(text, m, i, j);
    SubUnfolds(text, m, i, j);
    NoneBefore(text, m);
    SubIdempotent(text, m);
    var a, v := text[..i], Sub(text[j + |m.end|..], m);
    var t := a + Fill(m) + v;
    if Match(t, k).Some? {
      var (x, y) := Match(t, k).value;
      MatchParts(t, k, x, y);
      FirstBehind(text, m, k, i, j, v, x);
      Prefix(a + Fill(m), v, x);
      FilledMatch(a, t[|a + Fill(m)|..x], m);
    }
  }

  // ---------------------------------------------------------------------------------------
  // Survival does not depend on the fillings
  // ---------------------------------------------------------------------------------------

  predicate SameMarks(m: Marker, n: Marker) {
    m.begin == n.begin && m.end == n.end
  }

  lemma SameMarkers(text: string, m: Marker, n: Marker)
    requires SameMarks(m, n)
    ensures Match(text, m) == Match(text, n)
  {
  }

  /** What replaces a filled region when it is refilled with something else. */
  lemma RefillFilled(a: string, m: Marker, n: Marker, z: string)
    requires Good(m) && SameMarks(m, n) && m.begin != [] && m.end != []
    requires forall p: nat :: p < |a| ==> !OccursAt(a + m.begin, m.begin, p)
    ensures Sub(a + Fill(m) + z, n) == a + Fill(n) + Sub(z, n)
    ensures Match(a + Fill(m) + z, n).Some?
  {
    hide Good, Match, Sub, Fill;
    FilledMatch(a, z, m);
    var text := a + Fill(m) + z;
    SameMarkers(text, m, n);
    SubUnfolds(text, n, |a|, |a| + |m.begin| + |m.mid|);
    FilledHead(a, Fill(m), z);
    FilledRest(text, a, m, z);
  }

  /** Refilling refilled regions with something else is refilling them with that. */
  lemma {:induction false} Refilled(text: string, m: Marker, n: Marker)
    requires Good(m) && SameMarks(m, n) && m.begin != []
    ensures Sub(Sub(text, m), n) == Sub(text, n)
    decreases |text|
  {
    hide Good, Match, Sub, Fill;
    GoodParts(m);
    SameMarkers(text, m, n);
    if Match(text, m) == None {
      SubNone(text, m);
    } else {
      var (i, j) := Match(text, m).value;
      MatchParts(text, m, i, j);
      var tail := text[j + |m.end|..];
      SubUnfolds(text, m, i, j);
      SubUnfolds(text, n, i, j);
      NoneBefore(text, m);
      RefillFilled(text[..i], m, n, Sub(tail, m));
      Refilled(tail, m, n);
    }
  }

  lemma NoMatchInFront(a: string, tail: string, m: Marker)
    requires Match(a + tail, m) == None
    ensures Match(a, m) == None
  {
    hide FindFrom;
    if Match(a, m).Some? {
      var (_, j) := Match(a, m).value;
      FindExtend(a, tail, m.begin);
      OccursInFront(a, tail, m.end, j);
    }
  }

  lemma Chain(a: string, b: string, c: string, d: string, e: string)
    ensures a + b + (c + d + e) == (a + b + c) + d + e
  {
  }

  lemma CutAt(text: string, needle: string, p: nat)
    requires OccursAt(text, needle, p)
    ensures p + |needle| <= |text| && text == text[..p] + needle + text[p + |needle|..]
  {
  }

  lemma RefillNone(a: string, needle: string, z: string, m: Marker, n: Marker)
    requires SameMarks(m, n) && m.begin != [] && Match(a + needle + z, m) == None
    ensures Sub(a + needle + z, n) == Sub(a, n) + needle + Sub(z, n)
  {
    hide Match, Sub;
    var text := a + needle + z;
    assert text == a + (needle + z);
    NoMatchInFront(a, needle + z, m);
    NoMatchBehind(a + needle, z, m);
    SameMarkers(text, m, n);
    SameMarkers(a, m, n);
    SameMarkers(z, m, n);
    SubNone(text, n);
    SubNone(a, n);
    SubNone(z, n);
  }

  lemma UnopenedPrefix(a: string, m: Marker, p: nat)
    requires m.begin != [] && p <= |a| && forall x: nat :: x < |a| ==> !OccursAt(a + m.begin, m.begin, x)
    ensures Match(a[..p], m) == None
  {
    assert a + m.begin == a[..p] + (a[p..] + m.begin);
    forall x: nat ensures !OccursAt(a[..p], m.begin, x) {
      OccursInFront(a[..p], a[p..] + m.begin, m.begin, x);
      OccursFits(a[..p], m.begin, x);
    }
    NoBeginNoMatch(a[..p], m);
  }

  /** The marker in front of the first region. */
  lemma RefillBehind(a: string, m: Marker, n: Marker, rest: string, needle: string, p: nat)
    requires Good(m) && SameMarks(m, n) && m.begin != [] && m.end != []
    requires OccursAt(a, needle, p) && forall x: nat :: x < |a| ==> !OccursAt(a + m.begin, m.begin, x)
    ensures var text, q := a + Fill(m) + rest, p + |needle|;
      && q <= |text|
      && a + Fill(n) + Sub(rest, n) == Sub(text[..p], n) + needle + Sub(text[q..], n)
  {
    hide Good, Match, Sub, Fill, OccursAt;
    CutAt(a, needle, p);
    var q := p + |needle|;
    var text := a + Fill(m) + rest;
    BeforeBehind(a, m.begin, q);
    RefillFilled(a[q..], m, n, rest);
    FilledSuffix(a, Fill(m), rest, q);
    assert text[..p] == a[..p];
    UnopenedPrefix(a, m, p);
    SameMarkers(a[..p], m, n);
    SubNone(a[..p], n);
    assert a + Fill(n) + Sub(rest, n) == a[..p] + needle + (a[q..] + Fill(n) + Sub(rest, n));
  }

  /** A foreign marker cuts a stable text into parts that are refilled one by one. */
  lemma {:induction false} RefillSplits(text: string, m: Marker, n: Marker, needle: string, p: nat)
    requires Good(m) && SameMarks(m, n) && m.begin != [] && m.end != []
    requires Foreign(needle, m) && Stable(text, m) && OccursAt(text, needle, p)
    ensures p + |needle| <= |text|
    ensures Sub(text, n) == Sub(text[..p], n) + needle + Sub(text[p + |needle|..], n)
    decreases |text|
  {
    hide Good, Foreign, Stable, Match, Sub, Fill, OccursAt;
    CutAt(text, needle, p);
    var q := p + |needle|;
    if Match(text, m) == None {
      RefillNone(text[..p], needle, text[q..], m, n);
    } else {
      var (i, j) := Match(text, m).value;
      MatchParts(text, m, i, j);
      StableParts(text, m, i, j);
      NoneBefore(text, m);
      var a, rest := text[..i], text[j + |m.end|..];
      RefillFilled(a, m, n, rest);
      FilledApart(a, m, rest, needle, p);
      if q <= i {
        RefillBehind(a, m, n, rest, needle, p);
      } else {
        FillSize(m);
        var e := j + |m.end|;
        RefillSplits(rest, m, n, needle, p - e);
        assert text[..p] == a + Fill(m) + rest[..p - e] && text[q..] == rest[q - e..];
        RefillFilled(a, m, n, rest[..p - e]);
        Chain(a, Fill(n), Sub(rest[..p - e], n), needle, Sub(rest[q - e..], n));
      }
    }
  }

  lemma NotAcross(b: string, needle: string, p: nat)
    requires Indented(needle) && Absent(b, needle) && p < |b|
    ensures !OccursAt(b + needle, needle, p)
  {
    assert (b + needle)[|b|..|b| + |needle|] == needle;
    if OccursAt(b + needle, needle, p) {
      StartsBehind(b + needle, needle, p, needle, |b|);
      OccursExtend(b, needle, needle, p);
    }
  }

  /** A marker first found behind `a` is first found behind the refilled `a`. */
  lemma FirstKept(a: string, n: Marker, needle: string, behind: string)
    requires Good(n) && n.begin != [] && Foreign(needle, n)
    requires forall p: nat :: p < |a| ==> !OccursAt(a + needle, needle, p)
    ensures Find(Sub(a, n) + needle + behind, needle) == Some(|Sub(a, n)|)
  {
    hide Good, Sub, FindFrom, Find;
    assert needle != [] && Indented(needle);
    hide Foreign, Indented;
    forall p: nat ensures !OccursAt(a, needle, p) {
      OccursInFront(a, needle, needle, p);
      OccursFits(a, needle, p);
    }
    AbsentAfter(a, n, needle);
    var b := Sub(a, n);
    forall p: nat | p < |b| ensures !OccursAt(b + needle, needle, p) {
      NotAcross(b, needle, p);
    }
    FindWritten(b, needle, behind);
  }

  lemma FirstFound(t: string, needle: string, x: nat)
    requires Find(t, needle) == Some(x)
    ensures OccursAt(t, needle, x) && x + |needle| <= |t|
    ensures forall p: nat :: p < x ==> !OccursAt(t[..x] + needle, needle, p)
  {
    hide FindFrom;
    CutAt(t, needle, x);
    var pre := t[..x] + needle;
    forall p: nat | p < x ensures !OccursAt(pre, needle, p) {
      OccursInFront(pre, t[x + |needle|..], needle, p);
    }
  }

  /** The first begin marker of `k` and what follows it, before and after refilling. */
  lemma BeginKept(t: string, m: Marker, n: Marker, k: Marker, x: nat)
    requires Pair(m, k) && Pair(n, k) && SameMarks(m, n) && m.begin != [] && m.end != []
    requires Stable(t, m) && Find(t, k.begin) == Some(x)
    ensures x + |k.begin| <= |t|
    ensures var a, behind := t[..x], t[x + |k.begin|..];
      && Sub(t, n) == Sub(a, n) + k.begin + Sub(behind, n)
      && Find(Sub(t, n), k.begin) == Some(|Sub(a, n)|)
      && Stable(behind, m)
  {
    hide Pair, Good, Foreign, Stable, Sub, FindFrom;
    PairParts(m, k);
    PairParts(n, k);
    FirstFound(t, k.begin, x);
    hide Find;
    RefillSplits(t, m, n, k.begin, x);
    SuffixStable(t, m, k.begin, x);
    FirstKept(t[..x], n, k.begin, Sub(t[x + |k.begin|..], n));
  }

  /** The first end marker of `k` and what follows it, before and after refilling. */
  lemma EndKept(behind: string, m: Marker, n: Marker, k: Marker)
    requires Pair(m, k) && Pair(n, k) && SameMarks(m, n) && m.begin != [] && m.end != []
    requires Stable(behind, m)
    ensures Find(behind, k.end) == None ==> Find(Sub(behind, n), k.end) == None
    ensures match Find(behind, k.end)
      case None => true
      case Some(y) =>
        && y + |k.end| <= |behind|
        && var r, z := behind[..y], behind[y + |k.end|..];
           && Sub(behind, n) == Sub(r, n) + k.end + Sub(z, n)
           && Find(Sub(behind, n), k.end) == Some(|Sub(r, n)|)
           && Stable(z, m)
  {
    hide Pair, Good, Foreign, Stable, Sub, FindFrom;
    PairParts(m, k);
    PairParts(n, k);
    match Find(behind, k.end)
    case None =>
      AbsentAfter(behind, n, k.end);
    case Some(y) =>
      FirstFound(behind, k.end, y);
      RefillSplits(behind, m, n, k.end, y);
      SuffixStable(behind, m, k.end, y);
      FirstKept(behind[..y], n, k.end, Sub(behind[y + |k.end|..], n));
  }

  /** A match, as the search for its end marker behind its begin marker. */
  lemma MatchSplits(t: string, k: Marker, x: nat, a: string, behind: string)
    requires t == a + k.begin + behind && x == |a| && Find(t, k.begin) == Some(x)
    ensures Match(t, k) == match Find(behind, k.end)
      case None => None
      case Some(y) => Some((x, x + |k.begin| + y))
  {
    hide FindFrom;
    FindBehind(a + k.begin, behind, k.end, 0);
  }

  lemma SomeRegionKept(a: string, m: Marker, n: Marker)
    requires Good(n) && SameMarks(m, n) && m.begin != []
    ensures Match(Sub(a, n), n).Some? <==> Match(a, m).Some?
  {
    hide Good, Match, Sub;
    SameMarkers(a, m, n);
    if Match(a, n) == None { SubNone(a, n); } else { SubIdempotent(a, n); }
  }

  lemma BeginFirst(t: string, needle: string, x: nat)
    requires Find(t, needle) == Some(x)
    ensures x + |needle| <= |t| && t == t[..x] + needle + t[x + |needle|..]
  {
    hide FindFrom;
    CutAt(t, needle, x);
  }

  lemma EndFirst(t: string, k: Marker, x: nat, y: nat)
    requires x + |k.begin| <= |t| && t == t[..x] + k.begin + t[x + |k.begin|..]
    requires Find(t[x + |k.begin|..], k.end) == Some(y)
    ensures var behind := t[x + |k.begin|..];
      && y + |k.end| <= |behind|
      && t == t[..x] + k.begin + (behind[..y] + k.end + behind[y + |k.end|..])
  {
    hide FindFrom;
    CutAt(t[x + |k.begin|..], k.end, y);
  }

  lemma NeverBegun(t: string, n: Marker, k: Marker)
    requires Good(n) && n.begin != [] && Foreign(k.begin, n) && Find(t, k.begin) == None
    ensures Match(t, k) == None && Match(Sub(t, n), k) == None
  {
    hide Good, Foreign, Sub, FindFrom;
    AbsentAfter(t, n, k.begin);
    NoBeginNoMatch(t, k);
    NoBeginNoMatch(Sub(t, n), k);
  }

  lemma KeptNone(t: string, m: Marker, k: Marker)
    requires k.end != [] && Match(t, k) == None
    ensures Kept(t, m, k) == Match(t, m).Some?
  {
    hide Match;
  }

  lemma KeptSome(t: string, m: Marker, k: Marker, a: string, r: string, z: string)
    requires k.end != [] && t == a + k.begin + (r + k.end + z)
    requires Match(t, k) == Some((|a|, |a| + |k.begin| + |r|))
    ensures Kept(t, m, k) == (Match(a, m).Some? || Kept(z, m, k))
  {
    hide Match;
    assert t[..|a|] == a && t[|a| + |k.begin| + |r| + |k.end|..] == z;
  }

  /** Refilling the regions of `m` with something else changes nothing about which ones survive. */
  lemma {:induction false} KeptRefilled(t: string, m: Marker, n: Marker, k: Marker)
    requires Pair(m, k) && Pair(n, k) && SameMarks(m, n) && m.begin != [] && m.end != [] && k.begin != [] && k.end != []
    requires Stable(t, m)
    ensures Kept(Sub(t, n), n, k) == Kept(t, m, k)
    decreases |t|
  {
    hide Pair, Good, Foreign, Stable, Sub, FindFrom, Find, Match, Kept;
    PairParts(n, k);
    SomeRegionKept(t, m, n);
    if Find(t, k.begin) == None {
      NeverBegun(t, n, k);
      KeptNone(t, m, k);
      KeptNone(Sub(t, n), n, k);
    } else {
      var x := Find(t, k.begin).value;
      BeginKept(t, m, n, k, x);
      var a, behind := t[..x], t[x + |k.begin|..];
      EndKept(behind, m, n, k);
      BeginFirst(t, k.begin, x);
      MatchSplits(t, k, x, a, behind);
      MatchSplits(Sub(t, n), k, |Sub(a, n)|, Sub(a, n), Sub(behind, n));
      if Find(behind, k.end) == None {
        KeptNone(t, m, k);
        KeptNone(Sub(t, n), n, k);
      } else {
        var y := Find(behind, k.end).value;
        var r, z := behind[..y], behind[y + |k.end|..];
        EndFirst(t, k, x, y);
        SomeRegionKept(a, m, n);
        KeptRefilled(z, m, n, k);
        KeptSome(t, m, k, a, r, z);
        KeptSome(Sub(t, n), n, k, Sub(a, n), Sub(r, n), Sub(z, n));
      }
    }
  }

  /** `Kept` looks at the markers only. */
  lemma {:induction false} KeptMarks(t: string, m: Marker, n: Marker, k: Marker, l: Marker)
    requires SameMarks(m, n) && SameMarks(k, l) && k.end != []
    ensures Kept(t, m, k) == Kept(t, n, l)
    decreases |t|
  {
    hide Match;
    SameMarkers(t, k, l);
    if Match(t, k) == None {
      SameMarkers(t, m, n);
    } else {
      var (x, y) := Match(t, k).value;
      MatchParts(t, k, x, y);
      SameMarkers(t[..x], m, n);
      KeptMarks(t[y + |k.end|..], m, n, k, l);
    }
  }

  /** Whether a region survives depends on the text and the markers alone. */
  lemma SurvivesMarks(text: string, m: Marker, n: Marker, k: Marker, l: Marker)
    requires Pair(m, k) && Pair(n, k) && SameMarks(m, n) && SameMarks(k, l)
    requires m.begin != [] && m.end != [] && k.begin != [] && k.end != []
    ensures Survives(text, m, k) == Survives(text, n, l)
  {
    hide Pair, Good, Sub, Kept;
    PairParts(m, k);
    SubIdempotent(text, m);
    Refilled(text, m, n);
    KeptRefilled(Sub(text, m), m, n, k);
    KeptMarks(Sub(text, n), n, n, k, l);
  }

  // ---------------------------------------------------------------------------------------
  // One region inside another
  // ---------------------------------------------------------------------------------------

  /** A region of `m`, on lines of its own, inside a region of `k`. */
  function Nested(m: Marker, k: Marker, inside: string): string {
    k.begin + "\n" + (m.begin + inside + m.end) + ("\n" + k.end)
  }

  lemma NestedMarks(m: Marker, n: Marker, k: Marker, l: Marker, inside: string)
    requires SameMarks(m, n) && SameMarks(k, l)
    ensures Nested(m, k, inside) == Nested(n, l, inside)
  {
  }

  lemma NotAtLine(needle: string, z: string)
    requires Indented(needle)
    ensures !OccursAt("\n" + z, needle, 0)
  {
    var text := "\n" + z;
    assert text[0] == '\n';
    if |needle| <= |text| { assert text[..|needle|][0] == text[0]; }
  }

  /** No marker but `own` itself starts in `own` or at the line break behind it. */
  lemma NoneInLine(own: string, z: string, needle: string, p: nat)
    requires Distinct(own, needle) && OccursAt(own + "\n" + z, needle, p)
    ensures p > |own|
  {
    var text := own + "\n" + z;
    assert text[0..|own|] == own && text == own + ("\n" + z);
    OccursBehind(own, "\n" + z, needle, 0);
    NotAtLine(needle, z);
    NoOverlap(text, own, 0, needle, p);
  }

  lemma OnlyOwn(own: string, needle: string)
    requires Distinct(own, needle)
    ensures Absent("\n" + own, needle)
  {
    var z := "\n" + own;
    assert z[1..1 + |own|] == own && |needle| > 2;
    hide Distinct;
    forall p: nat ensures !OccursAt(z, needle, p) {
      Elsewhere(z, own, 1, needle, p);
      OccursFits(z, needle, p);
    }
  }

  lemma LineUnchanged(m: Marker, line: string)
    requires m.begin != [] && Distinct(line, m.begin)
    ensures Sub("\n" + line, m) == "\n" + line
  {
    OnlyOwn(line, m.begin);
    NoBeginNoMatch("\n" + line, m);
    SubNone("\n" + line, m);
  }

  lemma BlankGood(m: Marker)
    requires Good(m)
    ensures Good(Marker(m.begin, m.end, "\n\n"))
  {
  }

  lemma OwnFirst(own: string, needle: string)
    requires Distinct(own, needle)
    ensures forall p: nat :: p < |own + "\n"| ==> !OccursAt(own + "\n" + needle, needle, p)
  {
    forall p: nat | p < |own + "\n"| ensures !OccursAt(own + "\n" + needle, needle, p) {
      if OccursAt(own + "\n" + needle, needle, p) { NoneInLine(own, needle, needle, p); }
    }
  }

  lemma NestedMatch(m: Marker, k: Marker)
    requires Good(m) && Distinct(k.begin, m.begin)
    ensures var i := |k.begin| + 1;
      Match(Nested(m, k, "\n\n"), m) == Some((i, i + |m.begin| + 2))
  {
    hide OccursAt, Good, Distinct, FindFrom, Find, Match;
    var plain := Marker(m.begin, m.end, "\n\n");
    BlankGood(m);
    OwnFirst(k.begin, m.begin);
    FilledMatch(k.begin + "\n", "\n" + k.end, plain);
    SameMarkers(Nested(m, k, "\n\n"), m, plain);
  }

  lemma FilledTail(a: string, r: string, z: string)
    ensures (a + r + z)[|a| + |r|..] == z
  {
  }

  lemma NestedParts(m: Marker, k: Marker)
    ensures var text, i := Nested(m, k, "\n\n"), |k.begin| + 1;
      && i + |m.begin| + 2 + |m.end| <= |text|
      && text[..i] == k.begin + "\n" && text[i + |m.begin| + 2 + |m.end|..] == "\n" + k.end
  {
    var a, z, r := k.begin + "\n", "\n" + k.end, m.begin + "\n\n" + m.end;
    FilledHead(a, r, z);
    FilledTail(a, r, z);
  }

  lemma NestedFilled(text: string, a: string, z: string, m: Marker, i: nat, j: nat)
    requires m.begin != [] && Sub(z, m) == z && Match(text, m) == Some((i, j))
    requires i <= j && j + |m.end| <= |text| && text[..i] == a && text[j + |m.end|..] == z
    ensures Splice(text, m) == Some(a + Fill(m) + z)
  {
    hide Match, Sub;
    SubUnfolds(text, m, i, j);
  }

  lemma NestedFill(m: Marker, k: Marker)
    ensures Nested(m, k, m.mid) == (k.begin + "\n") + Fill(m) + ("\n" + k.end)
  {
  }

  /** The first splice refills the inner region. */
  lemma NestedFirst(m: Marker, k: Marker)
    requires Pair(m, k) && m.begin != []
    ensures Splice(Nested(m, k, "\n\n"), m) == Some(Nested(m, k, m.mid))
  {
    hide OccursAt, Pair, Good, Foreign, Distinct, Nested, Match, Sub, Splice, Fill;
    PairParts(m, k);
    ForeignParts(m.begin, k);
    NestedMatch(m, k);
    LineUnchanged(m, k.end);
    NestedParts(m, k);
    NestedFill(m, k);
    NestedFilled(Nested(m, k, "\n\n"), k.begin + "\n", "\n" + k.end, m, |k.begin| + 1, |k.begin| + 1 + |m.begin| + 2);
  }

  lemma Wrapped(begin: string, middle: string, end: string)
    ensures var t := begin + "\n" + middle + ("\n" + end);
      OccursAt(t, begin, 0) && OccursAt(t, end, |begin| + |middle| + 2)
  {
    var t := begin + "\n" + middle + ("\n" + end);
    assert t[0..|begin|] == begin;
    assert t[|begin| + |middle| + 2..] == end;
  }

  lemma NoEndInside(a: string, m: Marker, z: string, end: string, p: nat)
    requires Good(m) && Foreign(end, m) && |a| <= p + 1 <= |a| + |Fill(m)| + 1 && z == "\n" + end
    ensures !OccursAt(a + Fill(m) + z, end, p)
  {
    assert |end| > 2;
    if OccursAt(a + Fill(m) + z, end, p) {
      NotAtLine(end, end);
      FilledApart(a, m, z, end, p);
    }
  }

  lemma NestedEnd(m: Marker, begin: string, end: string)
    requires Good(m) && Foreign(end, m)
    ensures First(begin + "\n" + Fill(m) + ("\n" + end), end, |begin|, |begin| + |Fill(m)| + 2)
  {
    hide Good, Foreign, Fill;
    Wrapped(begin, Fill(m), end);
    forall p: nat | |begin| <= p < |begin| + |Fill(m)| + 2
      ensures !OccursAt(begin + "\n" + Fill(m) + ("\n" + end), end, p)
    {
      hide OccursAt;
      NoEndInside(begin + "\n", m, "\n" + end, end, p);
    }
  }

  lemma NestedSize(m: Marker, k: Marker)
    ensures |Nested(m, k, m.mid)| == |k.begin| + |Fill(m)| + 2 + |k.end|
  {
  }

  lemma NestedBegin(begin: string, middle: string, end: string)
    ensures First(begin + "\n" + middle + ("\n" + end), begin, 0, 0)
  {
    Wrapped(begin, middle, end);
  }

  /** The second splice then finds its region around the inner one. */
  lemma NestedSecond(m: Marker, k: Marker)
    requires Pair(m, k)
    ensures var t := Nested(m, k, m.mid);
      Match(t, k) == Some((0, |t| - |k.end|))
  {
    hide Pair, Good, Foreign, OccursAt, Match, Fill, Nested, First;
    PairParts(m, k);
    NestedSize(m, k);
    NestedEnd(m, k.begin, k.end);
    NestedBegin(k.begin, Fill(m), k.end);
    NestedFill(m, k);
    MatchIs(Nested(m, k, m.mid), k, 0, |k.begin| + |Fill(m)| + 2);
  }

  lemma KeptEmpty(t: string, m: Marker, k: Marker)
    requires m.begin != [] && k.begin != [] && k.end != []
    requires |k.end| <= |t| && Match(t, k) == Some((0, |t| - |k.end|))
    ensures !Kept(t, m, k)
  {
    assert Match([], m) == None && Match([], k) == None;
    assert t[..0] == [] && t[|t|..] == [];
    hide Match;
  }

  /** Both splices find their markers, and the inner region is then lost. */
  lemma NestedLost(m: Marker, k: Marker)
    requires Pair(m, k) && m.begin != [] && k.begin != [] && k.end != []
    ensures SpliceBoth(Nested(m, k, "\n\n"), m, k).Some? && !Survives(Nested(m, k, "\n\n"), m, k)
  {
    hide Pair, Match, Kept, Nested;
    NestedFirst(m, k);
    NestedSecond(m, k);
    KeptEmpty(Nested(m, k, m.mid), m, k);
  }
}
