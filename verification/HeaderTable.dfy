/**
 * The frozen header table: field-number layout and rendered blocks. Table contents are
 * parameters.
 */
module HeaderTable {
  import opened Bytes

  datatype Direction = Request | Response

  datatype Row = Row(number: nat, header: string, decl: string)

  /** The tables of one direction; `typed` maps a number to a header name and a declaration. */
  datatype Table = Table(hotStart: nat, hot: seq<string>, typed: map<nat, (string, string)>, rest: seq<string>)

  const HOT_END: nat := 15
  const REST_START: nat := 16
  const REST_END: nat := 199

  // ---------------------------------------------------------------------------------------
  // Layout
  // ---------------------------------------------------------------------------------------

  function Decimal(n: nat): string {
    if n < 10 then ["0123456789"[n]] else Decimal(n / 10) + ["0123456789"[n % 10]]
  }

  function FieldName(header: string): string {
    seq(|header|, i requires 0 <= i < |header| => if header[i] == '-' then '_' else header[i])
  }

  function PlainRow(n: nat, header: string): Row {
    Row(n, header, "repeated bytes " + FieldName(header) + " = " + Decimal(n) + ";")
  }

  function TypedRow(n: nat, entry: (string, string)): Row {
    Row(n, entry.0, entry.1 + " = " + Decimal(n) + ";")
  }

  /** The rows up to 15; none if hot headers are left over. */
  function HotRows(n: nat, hot: seq<string>, typed: map<nat, (string, string)>): Option<seq<Row>>
    decreases HOT_END + 1 - n
  {
    if n > HOT_END then if hot == [] then Some([]) else None
    else if n in typed then
      match HotRows(n + 1, hot, typed)
      case None => None
      case Some(rows) => Some([TypedRow(n, typed[n])] + rows)
    else if hot == [] then Some([])
    else
      match HotRows(n + 1, hot[1..], typed)
      case None => None
      case Some(rows) => Some([PlainRow(n, hot[0])] + rows)
  }

  /** The rows from 16 on; none if the range overflows. */
  function RestRows(n: nat, rest: seq<string>): Option<seq<Row>>
    decreases |rest|
  {
    if rest == [] then Some([])
    else if n > REST_END then None
    else
      match RestRows(n + 1, rest[1..])
      case None => None
      case Some(rows) => Some([PlainRow(n, rest[0])] + rows)
  }

  function Rows(t: Table): Option<seq<Row>> {
    match (HotRows(t.hotStart, t.hot, t.typed), RestRows(REST_START, t.rest))
    case (Some(a), Some(b)) => Some(a + b)
    case _ => None
  }

  function Append(rows: seq<Row>, more: Option<seq<Row>>): Option<seq<Row>> {
    match more case None => None case Some(ms) => Some(rows + ms)
  }

  lemma AppendCons(rows: seq<Row>, row: Row, more: Option<seq<Row>>)
    ensures Append(rows, match more case None => None case Some(ms) => Some([row] + ms)) == Append(rows + [row], more)
  {
    if more.Some? { assert rows + ([row] + more.value) == rows + [row] + more.value; }
  }

  lemma AppendNone(more: Option<seq<Row>>)
    ensures Append([], more) == more
  {
    if more.Some? { assert [] + more.value == more.value; }
  }

  /** `layout`; none where one of its assertions fails. */
  method Layout(t: Table) returns (r: Option<seq<Row>>)
    ensures r == Rows(t)
  {
    hide PlainRow, TypedRow;
    var out: seq<Row> := [];
    var n: nat := t.hotStart;
    var next: nat := 0;
    assert t.hot[0..] == t.hot;
    AppendNone(HotRows(n, t.hot, t.typed));
    while n <= HOT_END
      invariant next <= |t.hot|
      invariant Append(out, HotRows(n, t.hot[next..], t.typed)) == HotRows(t.hotStart, t.hot, t.typed)
      decreases HOT_END + 1 - n
    {
      if n in t.typed {
        AppendCons(out, TypedRow(n, t.typed[n]), HotRows(n + 1, t.hot[next..], t.typed));
        out := out + [TypedRow(n, t.typed[n])];
      } else {
        if next == |t.hot| { break; }
        assert t.hot[next..][1..] == t.hot[next + 1..];
        AppendCons(out, PlainRow(n, t.hot[next]), HotRows(n + 1, t.hot[next + 1..], t.typed));
        out := out + [PlainRow(n, t.hot[next])];
        next := next + 1;
      }
      n := n + 1;
    }
    if next < |t.hot| { return None; }
    assert t.hot[next..] == [] && out + [] == out;
    var hot := out;
    n := REST_START;
    next := 0;
    assert t.rest[0..] == t.rest;
    assert Append(hot, RestRows(n, t.rest)) == Rows(t);
    while next < |t.rest|
      invariant next <= |t.rest| && Append(out, RestRows(n, t.rest[next..])) == Rows(t)
      decreases |t.rest| - next
    {
      if n > REST_END { return None; }
      assert t.rest[next..][1..] == t.rest[next + 1..];
      AppendCons(out, PlainRow(n, t.rest[next]), RestRows(n + 1, t.rest[next + 1..]));
      out := out + [PlainRow(n, t.rest[next])];
      n := n + 1;
      next := next + 1;
    }
    assert t.rest[next..] == [] && out + [] == out;
    return Some(out);
  }

  predicate Increasing(rows: seq<Row>) {
    forall i, j :: 0 <= i < j < |rows| ==> rows[i].number < rows[j].number
  }

  lemma {:induction false} HotNumbers(n: nat, hot: seq<string>, typed: map<nat, (string, string)>)
    requires HotRows(n, hot, typed).Some?
    ensures var rows := HotRows(n, hot, typed).value;
      && (forall i :: 0 <= i < |rows| ==> rows[i].number == n + i)
      && (rows != [] ==> n + |rows| <= HOT_END + 1)
    decreases HOT_END + 1 - n
  {
    if n <= HOT_END {
      if n in typed {
        HotNumbers(n + 1, hot, typed);
      } else if hot != [] {
        HotNumbers(n + 1, hot[1..], typed);
      }
    }
  }

  lemma {:induction false} RestNumbers(n: nat, rest: seq<string>)
    requires REST_START <= n <= REST_END + 1
    ensures RestRows(n, rest).Some? <==> n + |rest| <= REST_END + 1
    ensures RestRows(n, rest).Some? ==>
      var rows := RestRows(n, rest).value;
      |rows| == |rest| && forall i :: 0 <= i < |rows| ==> rows[i].number == n + i && rows[i].header == rest[i]
    decreases |rest|
  {
    if rest != [] && n <= REST_END { RestNumbers(n + 1, rest[1..]); }
  }

  /** The number behind which the rendered block reserves everything up to 199. */
  function LastNumber(rows: seq<Row>): nat
    requires rows != []
  {
    rows[|rows| - 1].number
  }

  predicate Uses(rows: seq<Row>, k: nat) {
    exists i :: 0 <= i < |rows| && rows[i].number == k
  }

  /**
   * Numbers are strictly increasing, and the two-byte range 16..199 is split exactly into the
   * numbers of the rest headers and the reserved range behind the last number.
   */
  lemma LayoutPartition(t: Table)
    requires Rows(t).Some? && Rows(t).value != []
    ensures var rows := Rows(t).value;
      && Increasing(rows)
      && |t.rest| <= 184
      && forall k :: 16 <= k <= 199 ==>
           (Uses(rows, k) <==> k < 16 + |t.rest|) && (Uses(rows, k) <==> !(LastNumber(rows) < k <= 199))
  {
    HotNumbers(t.hotStart, t.hot, t.typed);
    RestNumbers(REST_START, t.rest);
    var a, b := HotRows(t.hotStart, t.hot, t.typed).value, RestRows(REST_START, t.rest).value;
    var rows := a + b;
    forall k | REST_START <= k < REST_START + |t.rest| ensures Uses(rows, k) {
      assert rows[|a| + (k - REST_START)].number == k;
    }
  }

  // ---------------------------------------------------------------------------------------
  // Rendered block
  // ---------------------------------------------------------------------------------------

  function Name(d: Direction): string {
    match d case Request => "request" case Response => "response"
  }

  function UpperName(d: Direction): string {
    match d case Request => "REQUEST" case Response => "RESPONSE"
  }

  function TitleLine(d: Direction): string {
    "  // Frozen header table (" + Name(d) + "). Generated by " + "docs/spec/tools/header_table.py."
  }

  function RuleLine(): string {
    "  // Every value of a header named " + "here MUST be carried in " + "its field, never in"
  }

  function OrderLine(): string {
    "  // `headers`. Order among values " + "of one name is significant " + "and preserved."
  }

  function Intro(d: Direction): seq<string> {
    [TitleLine(d), RuleLine(), OrderLine()]
  }

  function RemainderLine(): string {
    "  // Remainder of the table, " + "alphabetical. Two-byte tags."
  }

  function ReservedLine(): string {
    "  // Permanently reserved. The table " + "is frozen; new names use `headers`."
  }

  function RowLines(row: Row): seq<string> {
    (if row.number == REST_START then ["", RemainderLine()] else []) + ["  " + row.decl + "  // " + row.header]
  }

  function AllRowLines(rows: seq<Row>): seq<string> {
    if rows == [] then [] else AllRowLines(rows[..|rows| - 1]) + RowLines(rows[|rows| - 1])
  }

  function Reserved(last: nat): seq<string> {
    if last < REST_END then
      ["", ReservedLine(), "  reserved " + Decimal(last + 1) + " to " + Decimal(REST_END) + ";"]
    else []
  }

  /** `"\n".join(lines)`. */
  function Join(lines: seq<string>): string {
    if lines == [] then [] else if |lines| == 1 then lines[0] else lines[0] + "\n" + Join(lines[1..])
  }

  function BlockLines(d: Direction, rows: seq<Row>): seq<string>
    requires rows != []
  {
    Intro(d) + AllRowLines(rows) + Reserved(LastNumber(rows))
  }

  /** The block of a table; none where the generator stops with an error. */
  function Block(d: Direction, t: Table): Option<string> {
    match Rows(t)
    case None => None
    case Some(rows) =>
      if rows == [] || rows[0].number > HOT_END then None else Some(Join(BlockLines(d, rows)))
  }

  lemma RowsIncrease(t: Table)
    requires Rows(t).Some?
    ensures Increasing(Rows(t).value)
  {
    if Rows(t).value != [] { LayoutPartition(t); }
  }

  /** `render_block`; its maximum over the one-byte rows needs at least one of them. */
  method RenderBlock(d: Direction, t: Table) returns (r: Option<string>)
    ensures r == Block(d, t)
  {
    hide Intro, RowLines, Reserved, Join, Rows;
    var rows := Layout(t);
    if rows == None { return None; }
    var oneByte := false;
    for i := 0 to |rows.value|
      invariant oneByte <==> exists j :: 0 <= j < i && rows.value[j].number <= HOT_END
    {
      oneByte := oneByte || rows.value[i].number <= HOT_END;
    }
    RowsIncrease(t);
    if !oneByte { return None; }
    var lines := Intro(d);
    for i := 0 to |rows.value|
      invariant lines == Intro(d) + AllRowLines(rows.value[..i])
    {
      lines := lines + RowLines(rows.value[i]);
      assert rows.value[..i + 1][..i] == rows.value[..i];
      assert Intro(d) + AllRowLines(rows.value[..i]) + RowLines(rows.value[i])
          == Intro(d) + (AllRowLines(rows.value[..i]) + RowLines(rows.value[i]));
    }
    assert rows.value[..|rows.value|] == rows.value;
    lines := lines + Reserved(LastNumber(rows.value));
    return Some(Join(lines));
  }

  // ---------------------------------------------------------------------------------------
  // Letters of a block
  // ---------------------------------------------------------------------------------------

  /** No header and no declaration of the table holds the letter D of BEGIN and END. */
  predicate Clean(t: Table) {
    && (forall h | h in t.hot :: 'D' !in h)
    && (forall h | h in t.rest :: 'D' !in h)
    && (forall n | n in t.typed :: 'D' !in t.typed[n].0 && 'D' !in t.typed[n].1)
  }

  predicate CleanRow(row: Row) {
    'D' !in row.header && 'D' !in row.decl
  }

  lemma {:induction false} DecimalClean(n: nat)
    ensures 'D' !in Decimal(n)
  {
    if n >= 10 { DecimalClean(n / 10); }
  }

  lemma PlainRowClean(n: nat, header: string)
    requires 'D' !in header
    ensures CleanRow(PlainRow(n, header))
  {
    DecimalClean(n);
    assert 'D' !in "repeated bytes " && 'D' !in " = " && 'D' !in ";";
    assert 'D' !in FieldName(header);
  }

  lemma TypedRowClean(n: nat, entry: (string, string))
    requires 'D' !in entry.0 && 'D' !in entry.1
    ensures CleanRow(TypedRow(n, entry))
  {
    DecimalClean(n);
  }

  lemma {:induction false} HotRowsClean(n: nat, hot: seq<string>, typed: map<nat, (string, string)>)
    requires HotRows(n, hot, typed).Some?
    requires forall h | h in hot :: 'D' !in h
    requires forall k | k in typed :: 'D' !in typed[k].0 && 'D' !in typed[k].1
    ensures forall row | row in HotRows(n, hot, typed).value :: CleanRow(row)
    decreases HOT_END + 1 - n
  {
    hide PlainRow, TypedRow, CleanRow;
    if n <= HOT_END {
      if n in typed {
        TypedRowClean(n, typed[n]);
        HotRowsClean(n + 1, hot, typed);
      } else if hot != [] {
        PlainRowClean(n, hot[0]);
        HotRowsClean(n + 1, hot[1..], typed);
      }
    }
  }

  lemma {:induction false} RestRowsClean(n: nat, rest: seq<string>)
    requires RestRows(n, rest).Some? && forall h | h in rest :: 'D' !in h
    ensures forall row | row in RestRows(n, rest).value :: CleanRow(row)
    decreases |rest|
  {
    hide PlainRow, CleanRow;
    if rest != [] {
      PlainRowClean(n, rest[0]);
      RestRowsClean(n + 1, rest[1..]);
    }
  }

  predicate CleanLines(lines: seq<string>) {
    forall i :: 0 <= i < |lines| ==> 'D' !in lines[i]
  }

  lemma {:induction false} JoinClean(lines: seq<string>)
    requires CleanLines(lines)
    ensures 'D' !in Join(lines)
  {
    if |lines| > 1 { JoinClean(lines[1..]); }
  }

  lemma TitleClean(d: Direction)
    ensures 'D' !in TitleLine(d)
  {
    var name, tail := Name(d), "docs/spec/tools/header_table.py.";
    assert 'D' !in name && 'D' !in tail;
  }

  lemma RuleClean()
    ensures 'D' !in RuleLine()
  {
    var a, b, c := "  // Every value of a header named ", "here MUST be carried in ", "its field, never in";
    assert 'D' !in a && 'D' !in b && 'D' !in c;
  }

  lemma OrderClean()
    ensures 'D' !in OrderLine()
  {
    var a, b, c := "  // `headers`. Order among values ", "of one name is significant ", "and preserved.";
    assert 'D' !in a && 'D' !in b && 'D' !in c;
  }

  lemma IntroClean(d: Direction)
    ensures CleanLines(Intro(d))
  {
    hide TitleLine, RuleLine, OrderLine;
    TitleClean(d);
    RuleClean();
    OrderClean();
  }

  lemma RowLinesClean(row: Row)
    requires CleanRow(row)
    ensures CleanLines(RowLines(row))
  {
    assert 'D' !in RemainderLine();
    hide RemainderLine;
  }

  lemma {:induction false} AllRowLinesClean(rows: seq<Row>)
    requires forall row | row in rows :: CleanRow(row)
    ensures CleanLines(AllRowLines(rows))
  {
    hide CleanRow, RowLines;
    if rows != [] {
      AllRowLinesClean(rows[..|rows| - 1]);
      RowLinesClean(rows[|rows| - 1]);
    }
  }

  lemma ReservedLineClean()
    ensures 'D' !in ReservedLine()
  {
    var a, b := "  // Permanently reserved. The table ", "is frozen; new names use `headers`.";
    assert 'D' !in a && 'D' !in b;
  }

  lemma ReservedClean(last: nat)
    ensures CleanLines(Reserved(last))
  {
    DecimalClean(last + 1);
    DecimalClean(REST_END);
    ReservedLineClean();
    hide ReservedLine, Decimal;
  }

  /** The block of a clean table never holds a marker. */
  lemma BlockClean(d: Direction, t: Table)
    requires Clean(t) && Block(d, t).Some?
    ensures 'D' !in Block(d, t).value
  {
    hide CleanRow, HotRows, RestRows, AllRowLines, Intro, Reserved, Join;
    HotRowsClean(t.hotStart, t.hot, t.typed);
    RestRowsClean(REST_START, t.rest);
    var rows := Rows(t).value;
    AllRowLinesClean(rows);
    IntroClean(d);
    ReservedClean(LastNumber(rows));
    JoinClean(BlockLines(d, rows));
  }
}
