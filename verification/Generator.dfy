/** The generator of the header table: `write` and `check` on a proto file and a registry. */
module Generator {
  import opened Bytes
  import opened Search
  import opened HeaderTable
  import opened Splicing

  function Begin(d: Direction): string {
    "  // BEGIN GENERATED" + " " + UpperName(d) + " " + "HEADER TABLE"
  }

  function End(d: Direction): string {
    "  // END GENERATED" + " " + UpperName(d) + " " + "HEADER TABLE"
  }

  /** The markers of a direction, around a rendered block on lines of its own. */
  function MarkerOf(d: Direction, block: string): Marker {
    Marker(Begin(d), End(d), "\n" + block + "\n")
  }

  /** The tables of both directions. */
  datatype Tables = Tables(request: Table, response: Table)

  /** The filled marker of a direction; none where its block cannot be rendered. */
  function MarkerFor(d: Direction, t: Table): (r: Option<Marker>)
    ensures r.Some? ==> r.value.begin != [] && r.value.end != []
  {
    match Block(d, t)
    case None => None
    case Some(block) => Some(MarkerOf(d, block))
  }

  /** The two splices of `main`, request first, then response; none where one of them stops. */
  function Generate(proto: string, ts: Tables): Option<string> {
    match (MarkerFor(Request, ts.request), MarkerFor(Response, ts.response))
    case (Some(m), Some(k)) => SpliceBoth(proto, m, k)
    case _ => None
  }

  datatype Files = Files(proto: string, registry: Option<string>)

  datatype Mode = Check | Write

  /** `main`: exit code and files afterwards, given the rendered registry. */
  function Run(mode: Mode, files: Files, ts: Tables, registry: string): (nat, Files) {
    match Generate(files.proto, ts)
    case None => (1, files)
    case Some(proto) =>
      if mode == Write then (0, Files(proto, Some(registry)))
      else (if proto == files.proto && files.registry == Some(registry) then 0 else 1, files)
  }

  lemma MarkerParts(left: string, name: string, right: string, d: nat)
    requires '\n' !in left && '\n' !in name && '\n' !in right && d < |left| && left[d] == 'D'
    ensures MarkerLike(left + " " + name + " " + right)
  {
    assert (left + " " + name + " " + right)[d] == 'D';
  }

  lemma GoodBegin(d: Direction)
    ensures MarkerLike(Begin(d))
  {
    MarkerParts("  // BEGIN GENERATED", UpperName(d), "HEADER TABLE", 19);
  }

  lemma GoodEnd(d: Direction)
    ensures MarkerLike(End(d))
  {
    MarkerParts("  // END GENERATED", UpperName(d), "HEADER TABLE", 7);
  }

  lemma GoodFilling(block: string)
    requires 'D' !in block
    ensures Filling("\n" + block + "\n")
  {
    var mid := "\n" + block + "\n";
    assert mid[|mid| - 1] == '\n';
  }

  lemma GoodMarker(d: Direction, block: string)
    requires 'D' !in block
    ensures Good(MarkerOf(d, block))
  {
    hide MarkerLike, Filling, Begin, End;
    GoodBegin(d);
    GoodEnd(d);
    GoodFilling(block);
  }

  /** Neither end is a space, and no two spaces are adjacent. */
  predicate SingleSpaced(s: string) {
    && s != [] && s[0] != ' ' && s[|s| - 1] != ' '
    && forall i :: 0 <= i < |s| - 1 ==> s[i] != ' ' || s[i + 1] != ' '
  }

  /** Three pieces of text with single spaces inside make an indented line. */
  lemma IndentedParts(left: string, name: string, right: string)
    requires Indented(left) && SingleSpaced(name) && SingleSpaced(right)
    ensures Indented(left + " " + name + " " + right)
  {
    var s := left + " " + name + " " + right;
    var n, k := |left|, |left| + 1 + |name|;
    forall i | 1 <= i < |s| - 1 ensures s[i] != ' ' || s[i + 1] != ' ' {
      if i < n {
        assert s[i] == left[i];
      } else if n < i < k {
        assert s[i] == name[i - n - 1];
      } else if k < i {
        assert s[i] == right[i - k - 1];
      } else if i == n {
        assert s[i + 1] == name[0];
      } else {
        assert s[i + 1] == right[0];
      }
      if i + 1 < n {
        assert s[i + 1] == left[i + 1];
      } else if n < i && i + 1 < k {
        assert s[i + 1] == name[i - n];
      } else if k < i {
        assert s[i + 1] == right[i - k];
      }
    }
  }

  lemma BeginIndented(d: Direction)
    ensures Indented(Begin(d))
  {
    IndentedParts("  // BEGIN GENERATED", UpperName(d), "HEADER TABLE");
  }

  lemma EndIndented(d: Direction)
    ensures Indented(End(d))
  {
    IndentedParts("  // END GENERATED", UpperName(d), "HEADER TABLE");
  }

  lemma BeginsDiffer()
    ensures |Begin(Request)| > 23 && Begin(Request)[23] == 'Q'
    ensures |Begin(Response)| > 23 && Begin(Response)[23] == 'S'
  {
  }

  lemma EndsDiffer()
    ensures |End(Request)| > 21 && End(Request)[21] == 'Q'
    ensures |End(Response)| > 21 && End(Response)[21] == 'S'
  {
  }

  lemma LetterAt(left: string, name: string, right: string, i: nat)
    requires i < |left|
    ensures (left + " " + name + " " + right)[i] == left[i]
  {
  }

  lemma BeginIsNotEnd(c: Direction, d: Direction)
    ensures |Begin(c)| > 5 && |End(d)| > 5 && Begin(c)[5] == 'B' && End(d)[5] == 'E'
  {
    LetterAt("  // BEGIN GENERATED", UpperName(c), "HEADER TABLE", 5);
    LetterAt("  // END GENERATED", UpperName(d), "HEADER TABLE", 5);
  }

  lemma DistinctAt(a: string, b: string, i: nat)
    requires Indented(a) && Indented(b) && i < |a| && i < |b| && a[i] != b[i]
    ensures Distinct(a, b)
  {
  }

  /** The markers of two directions all differ. */
  lemma AllDistinct(c: Direction, d: Direction)
    requires c != d
    ensures Distinct(Begin(c), Begin(d)) && Distinct(End(c), End(d))
    ensures Distinct(Begin(c), End(d)) && Distinct(End(c), Begin(d))
  {
    hide Indented, Distinct, Begin, End;
    BeginIndented(c);
    BeginIndented(d);
    EndIndented(c);
    EndIndented(d);
    BeginsDiffer();
    EndsDiffer();
    BeginIsNotEnd(c, d);
    BeginIsNotEnd(d, c);
    DistinctAt(Begin(c), Begin(d), 23);
    DistinctAt(End(c), End(d), 21);
    DistinctAt(Begin(c), End(d), 5);
    DistinctAt(End(c), Begin(d), 5);
  }

  /** The markers of both directions around clean blocks. */
  lemma MarkersPair(request: string, response: string)
    requires 'D' !in request && 'D' !in response
    ensures Pair(MarkerOf(Request, request), MarkerOf(Response, response))
  {
    hide MarkerLike, Filling, Distinct, Begin, End;
    GoodMarker(Request, request);
    GoodMarker(Response, response);
    AllDistinct(Request, Response);
    AllDistinct(Response, Request);
  }

  /** The markers of a direction around an empty block. */
  function Bare(d: Direction): (m: Marker)
    ensures m.begin != [] && m.end != []
  {
    MarkerOf(d, [])
  }

  lemma FilledMarker(d: Direction, t: Table) returns (block: string)
    requires Clean(t) && Block(d, t).Some?
    ensures MarkerFor(d, t) == Some(MarkerOf(d, block)) && 'D' !in block && SameMarks(MarkerOf(d, block), Bare(d))
    ensures MarkerOf(d, block).begin != [] && MarkerOf(d, block).end != []
    ensures Bare(d).begin != [] && Bare(d).end != []
  {
    hide Clean, Block;
    BlockClean(d, t);
    block := Block(d, t).value;
  }

  /** A request region inside the response region. */
  function NestedFile(): string {
    Nested(Bare(Request), Bare(Response), "\n\n")
  }

  /** The markers of renderable clean tables, among each other and against the bare ones. */
  lemma MarkersFor(ts: Tables)
    requires Clean(ts.request) && Clean(ts.response)
    requires Block(Request, ts.request).Some? && Block(Response, ts.response).Some?
    ensures var m, k := MarkerFor(Request, ts.request), MarkerFor(Response, ts.response);
      && m.Some? && k.Some? && Pair(m.value, k.value) && Pair(Bare(Request), k.value)
      && SameMarks(m.value, Bare(Request)) && SameMarks(k.value, Bare(Response))
      && Bare(Request).begin != [] && Bare(Request).end != [] && Bare(Response).begin != [] && Bare(Response).end != []
      && Nested(m.value, k.value, "\n\n") == NestedFile()
  {
    hide Clean, Block, Pair, MarkerFor, MarkerOf, Nested;
    var x := FilledMarker(Request, ts.request);
    var y := FilledMarker(Response, ts.response);
    MarkersPair(x, y);
    MarkersPair([], y);
    NestedMarks(MarkerOf(Request, x), Bare(Request), MarkerOf(Response, y), Bare(Response), "\n\n");
  }

  /**
   * Some request region of the file lies outside the response regions; what is inside a request
   * region, were it a marker, is disregarded.
   */
  predicate RequestSurvives(proto: string) {
    Survives(proto, Bare(Request), Bare(Response))
  }

  /** What the generator makes of its own result. */
  lemma GenerateAgain(proto: string, ts: Tables)
    requires Clean(ts.request) && Clean(ts.response) && Generate(proto, ts).Some?
    ensures var u := Generate(proto, ts).value;
      Generate(u, ts) == if RequestSurvives(proto) then Some(u) else None
  {
    assert Block(Request, ts.request).Some? && Block(Response, ts.response).Some?;
    hide Clean, Block, Pair, MarkerFor, SpliceBoth, Survives, NestedFile, Nested, Bare;
    MarkersFor(ts);
    var m, k := MarkerFor(Request, ts.request).value, MarkerFor(Response, ts.response).value;
    SpliceBothAgain(proto, m, k);
    SurvivesMarks(proto, m, Bare(Request), k, Bare(Response));
  }

  /**
   * After `write`, `check` succeeds, and a second `write` changes nothing, exactly when a request
   * region lies outside the response regions; otherwise both stop because markers are missing.
   */
  lemma CheckAfterWrite(files: Files, ts: Tables, registry: string)
    requires Clean(ts.request) && Clean(ts.response)
    requires Run(Write, files, ts, registry).0 == 0
    ensures var written := Run(Write, files, ts, registry).1;
      && (Run(Check, written, ts, registry).0 == 0 <==> RequestSurvives(files.proto))
      && (Run(Write, written, ts, registry).0 == 0 <==> RequestSurvives(files.proto))
      && Run(Check, written, ts, registry).1 == written
      && Run(Write, written, ts, registry).1 == written
  {
    hide Generate, RequestSurvives;
    GenerateAgain(files.proto, ts);
  }

  function TableOf(ts: Tables, d: Direction): Table {
    match d case Request => ts.request case Response => ts.response
  }

  /** Every region of a direction, markers included, reads as the markers around its block. */
  ghost predicate HoldsBlock(proto: string, d: Direction, t: Table)
    requires Block(d, t).Some?
  {
    AllRegions(proto, Begin(d), End(d), Begin(d) + "\n" + Block(d, t).value + "\n" + End(d))
  }

  /** There is a region of the direction. */
  ghost predicate HasRegion(proto: string, d: Direction) {
    exists i: nat, j: nat :: RegionAt(proto, Begin(d), End(d), i, j)
  }

  ghost predicate Current(proto: string, d: Direction, t: Table) {
    Block(d, t).Some? && HasRegion(proto, d) && HoldsBlock(proto, d, t)
  }

  /** Both tables can be rendered, both kinds of regions are there, and all hold their block. */
  ghost predicate UpToDate(proto: string, ts: Tables) {
    Current(proto, Request, ts.request) && Current(proto, Response, ts.response)
  }

  lemma BeginDiffersFromEnd(d: Direction)
    ensures Distinct(Begin(d), End(d))
  {
    hide Indented, Distinct, Begin, End;
    BeginIndented(d);
    EndIndented(d);
    BeginIsNotEnd(d, d);
    DistinctAt(Begin(d), End(d), 5);
  }

  lemma MarkerFill(d: Direction, block: string)
    ensures Fill(MarkerOf(d, block)) == Begin(d) + "\n" + block + "\n" + End(d)
    ensures MarkerOf(d, block).begin == Begin(d) && MarkerOf(d, block).end == End(d)
    ensures Begin(d) != [] && End(d) != []
  {
    var b, e := Begin(d), End(d);
    assert b != [] && e != [];
    hide Begin, End;
    assert b + ("\n" + block + "\n") + e == b + "\n" + block + "\n" + e;
  }

  /** Stability at a direction's marker is holding its block. */
  lemma HoldsIff(proto: string, d: Direction, t: Table)
    requires Clean(t) && Block(d, t).Some?
    ensures var m := MarkerFor(d, t).value;
      && m.begin != [] && m.end != []
      && (Stable(proto, m) <==> HoldsBlock(proto, d, t))
      && (Match(proto, m).Some? <==> HasRegion(proto, d))
  {
    hide Clean, Block, Begin, End, AllRegions, RegionAt, Stable, Match;
    BlockClean(d, t);
    var block := Block(d, t).value;
    var m := MarkerOf(d, block);
    GoodMarker(d, block);
    BeginDiffersFromEnd(d);
    MarkerFill(d, block);
    StableIff(proto, m);
    MatchIffRegion(proto, m);
  }

  lemma GeneratedStable(proto: string, ts: Tables)
    requires Clean(ts.request) && Clean(ts.response) && Generate(proto, ts).Some?
    ensures Block(Request, ts.request).Some? && Block(Response, ts.response).Some?
    ensures MarkerFor(Request, ts.request).Some? && MarkerFor(Response, ts.response).Some?
    ensures var u := Generate(proto, ts).value;
      && Stable(u, MarkerFor(Request, ts.request).value) && Stable(u, MarkerFor(Response, ts.response).value)
  {
    assert Block(Request, ts.request).Some? && Block(Response, ts.response).Some?;
    hide Clean, Block, Pair, SpliceBoth, NestedFile, Nested, Bare, Stable, Match, MarkerOf;
    MarkersFor(ts);
    BothStable(proto, MarkerFor(Request, ts.request).value, MarkerFor(Response, ts.response).value);
  }

  /** Once `write` has succeeded, every region of the written file holds the rendered block. */
  lemma WrittenRegions(files: Files, ts: Tables, registry: string, d: Direction)
    requires Clean(ts.request) && Clean(ts.response)
    requires Run(Write, files, ts, registry).0 == 0
    ensures Block(d, TableOf(ts, d)).Some?
    ensures HoldsBlock(Run(Write, files, ts, registry).1.proto, d, TableOf(ts, d))
  {
    hide Clean, Block, Generate, Stable, HoldsBlock, MarkerFor;
    GeneratedStable(files.proto, ts);
    HoldsIff(Generate(files.proto, ts).value, d, TableOf(ts, d));
  }

  lemma UpToDateIff(proto: string, ts: Tables)
    requires Clean(ts.request) && Clean(ts.response)
    ensures Generate(proto, ts) == Some(proto) <==> UpToDate(proto, ts)
  {
    hide Clean, Pair, SpliceBoth, NestedFile, Nested, Bare, Stable, Match, MarkerOf, HoldsBlock, HasRegion, Block;
    if Block(Request, ts.request).Some? && Block(Response, ts.response).Some? {
      MarkersFor(ts);
      HoldsIff(proto, Request, ts.request);
      HoldsIff(proto, Response, ts.response);
      SpliceBothFixed(proto, MarkerFor(Request, ts.request).value, MarkerFor(Response, ts.response).value);
    }
  }

  /**
   * `check` succeeds exactly when `write` would succeed and change nothing; for clean tables, when
   * the registry is current, regions of both directions are there and each holds its block.
   */
  lemma CheckIff(files: Files, ts: Tables, registry: string)
    ensures Run(Check, files, ts, registry).0 == 0 <==> Run(Write, files, ts, registry) == (0, files)
    ensures Clean(ts.request) && Clean(ts.response) ==>
      (Run(Check, files, ts, registry).0 == 0 <==> files.registry == Some(registry) && UpToDate(files.proto, ts))
  {
    hide Generate, UpToDate, Clean;
    if Clean(ts.request) && Clean(ts.response) { UpToDateIff(files.proto, ts); }
  }

  /** Without a request region, or a table that can be rendered, both modes stop with an error. */
  lemma Stops(mode: Mode, files: Files, ts: Tables, registry: string)
    requires Clean(ts.request)
    requires Block(Request, ts.request) == None || Block(Response, ts.response) == None
             || !HasRegion(files.proto, Request)
    ensures Run(mode, files, ts, registry) == (1, files)
  {
    hide Clean, HasRegion, HoldsBlock, Match, Stable, Block, MarkerOf;
    if Block(Request, ts.request).Some? && Block(Response, ts.response).Some? {
      HoldsIff(files.proto, Request, ts.request);
    }
  }

  /** The markers, spelled out. */
  lemma RequestMarkers()
    ensures Begin(Request) == "  // BEGIN GENERATED REQUEST HEADER TABLE"
    ensures End(Request) == "  // END GENERATED REQUEST HEADER TABLE"
  {
  }

  lemma ResponseMarkers()
    ensures Begin(Response) == "  // BEGIN GENERATED RESPONSE HEADER TABLE"
    ensures End(Response) == "  // END GENERATED RESPONSE HEADER TABLE"
  {
  }

  // ---------------------------------------------------------------------------------------
  // Files that survive, and one that does not
  // ---------------------------------------------------------------------------------------

  /** The first request region ends in front of every response begin marker. */
  predicate RequestFirst(proto: string) {
    InFront(proto, Bare(Request), Bare(Response))
  }

  lemma FirstSurvives(proto: string)
    requires RequestFirst(proto)
    ensures RequestSurvives(proto)
  {
    MarkersPair([], []);
    hide Pair, InFront, Survives;
    InFrontSurvives(proto, Bare(Request), Bare(Response));
  }

  /** On such a file, if `write` succeeds, so does `check` afterwards. */
  lemma CheckAfterWriteInOrder(files: Files, ts: Tables, registry: string)
    requires Clean(ts.request) && Clean(ts.response)
    requires Run(Write, files, ts, registry).0 == 0 && RequestFirst(files.proto)
    ensures var written := Run(Write, files, ts, registry).1;
      Run(Check, written, ts, registry) == (0, written)
  {
    hide Clean, Generate, RequestSurvives, RequestFirst;
    FirstSurvives(files.proto);
    CheckAfterWrite(files, ts, registry);
  }

  /** One hot header per direction. */
  const SMALL := Tables(Table(15, ["te"], map[], []), Table(15, ["age"], map[], []))

  lemma PlainNumber(n: nat, header: string)
    ensures PlainRow(n, header).number == n
  {
  }

  lemma OneHotHeader(d: Direction, header: string)
    ensures Block(d, Table(15, [header], map[], [])).Some?
  {
    hide PlainRow, Join;
    assert [header][1..] == [];
    assert HotRows(16, [], map[]) == Some([]);
    assert HotRows(15, [header], map[]) == Some([PlainRow(15, header)] + []);
    PlainNumber(15, header);
  }

  lemma OneCleanHeader(header: string)
    requires 'D' !in header
    ensures Clean(Table(15, [header], map[], []))
  {
  }

  lemma SmallTables()
    ensures Clean(SMALL.request) && Clean(SMALL.response)
    ensures Block(Request, SMALL.request).Some? && Block(Response, SMALL.response).Some?
  {
    hide Clean, Block;
    OneHotHeader(Request, "te");
    OneHotHeader(Response, "age");
    OneCleanHeader("te");
    OneCleanHeader("age");
  }

  /** The same for every pair of tables. */
  lemma NestedFails(ts: Tables, registry: string)
    requires Clean(ts.request) && Clean(ts.response)
    requires Block(Request, ts.request).Some? && Block(Response, ts.response).Some?
    ensures var (code, written) := Run(Write, Files(NestedFile(), None), ts, registry);
      code == 0 && Run(Check, written, ts, registry).0 == 1
  {
    hide Clean, Block, Pair, MarkerFor, SpliceBoth, Survives, NestedFile, Nested, Bare;
    MarkersFor(ts);
    var m, k := MarkerFor(Request, ts.request).value, MarkerFor(Response, ts.response).value;
    NestedLost(m, k);
    SurvivesMarks(NestedFile(), m, Bare(Request), k, Bare(Response));
    assert Generate(NestedFile(), ts).Some? && !RequestSurvives(NestedFile());
    hide Generate, RequestSurvives;
    CheckAfterWrite(Files(NestedFile(), None), ts, registry);
  }

  /** On the nested file `write` succeeds and erases the request region; `check` then fails. */
  lemma NestedCheckFails(registry: string)
    ensures var (code, written) := Run(Write, Files(NestedFile(), None), SMALL, registry);
      code == 0 && Run(Check, written, SMALL, registry).0 == 1
  {
    hide Clean, Block, NestedFile;
    SmallTables();
    NestedFails(SMALL, registry);
  }
}
