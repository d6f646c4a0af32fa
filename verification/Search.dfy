/** First-occurrence search in sequences. */
module Search {
  import opened Bytes

  predicate OccursAt<T(==)>(hay: seq<T>, needle: seq<T>, i: nat) {
    i + |needle| <= |hay| && hay[i..i + |needle|] == needle
  }

  /** First occurrence at or after `from`. */
  function FindFrom<T(==)>(hay: seq<T>, needle: seq<T>, from: nat): (r: Option<nat>)
    ensures r.Some? ==> from <= r.value && OccursAt(hay, needle, r.value)
    ensures forall j :: from <= j < (if r.Some? then r.value else |hay| + 1) ==> !OccursAt(hay, needle, j)
    decreases |hay| - from
  {
    if from + |needle| > |hay| then None
    else if hay[from..from + |needle|] == needle then Some(from)
    else FindFrom(hay, needle, from + 1)
  }

  /** `find_subsequence`: the first window equal to `needle`. */
  function Find<T(==)>(hay: seq<T>, needle: seq<T>): (r: Option<nat>)
    ensures r.Some? ==> OccursAt(hay, needle, r.value)
    ensures forall j: nat :: j < (if r.Some? then r.value else |hay| + 1) ==> !OccursAt(hay, needle, j)
  {
    FindFrom(hay, needle, 0)
  }

  /** The first occurrence is the only one without an earlier one. */
  lemma FindIs<T>(hay: seq<T>, needle: seq<T>, from: nat, i: nat)
    requires from <= i && OccursAt(hay, needle, i)
    requires forall j :: from <= j < i ==> !OccursAt(hay, needle, j)
    ensures FindFrom(hay, needle, from) == Some(i)
  {
  }

  lemma OccursExtend<T>(a: seq<T>, b: seq<T>, needle: seq<T>, i: nat)
    requires i + |needle| <= |a|
    ensures OccursAt(a + b, needle, i) <==> OccursAt(a, needle, i)
  {
    assert (a + b)[i..i + |needle|] == a[i..i + |needle|];
  }

  lemma OccursBehind<T>(a: seq<T>, b: seq<T>, needle: seq<T>, i: nat)
    ensures OccursAt(a + b, needle, |a| + i) <==> OccursAt(b, needle, i)
  {
    if i + |needle| <= |b| {
      assert (a + b)[|a| + i..|a| + i + |needle|] == b[i..i + |needle|];
    }
  }

  /** A first occurrence stays the first when the sequence grows. */
  lemma FindExtend<T>(a: seq<T>, b: seq<T>, needle: seq<T>)
    requires Find(a, needle).Some?
    ensures Find(a + b, needle) == Find(a, needle)
  {
    var i := Find(a, needle).value;
    forall j: nat | j <= i ensures OccursAt(a + b, needle, j) <==> OccursAt(a, needle, j) {
      OccursExtend(a, b, needle, j);
    }
    FindIs(a + b, needle, 0, i);
  }

  /** In `a + needle + b` the first occurrence is the written one if none starts inside `a`. */
  lemma FindWritten<T>(a: seq<T>, needle: seq<T>, b: seq<T>)
    requires forall j: nat :: j < |a| ==> !OccursAt(a + needle, needle, j)
    ensures Find(a + needle + b, needle) == Some(|a|)
  {
    var s := a + needle;
    assert s[|a|..|a| + |needle|] == needle;
    FindIs(s, needle, 0, |a|);
    FindExtend(s, b, needle);
  }

  /** If `x` is not in `needle`, no occurrence covers a position holding `x`. */
  lemma NoOccurrenceAcross<T>(hay: seq<T>, needle: seq<T>, i: nat, k: nat)
    requires OccursAt(hay, needle, i) && i <= k < i + |needle|
    ensures hay[k] in needle
  {
    assert hay[k] == hay[i..i + |needle|][k - i];
  }
}
