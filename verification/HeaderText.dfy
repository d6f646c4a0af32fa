/** What the rendered block of a header table says, line by line and number by number. */
module HeaderText {
  import opened Bytes
  import opened Search
  import opened HeaderTable

  // ---------------------------------------------------------------------------------------
  // Numbers
  // ---------------------------------------------------------------------------------------

  /** The number that a string of digits denotes. */
  function Value(s: string): nat {
    if s == [] then 0 else
    var c := s[|s| - 1];
    10 * Value(s[..|s| - 1]) + if '0' <= c <= '9' then (c - '0') as nat else 0
  }

  lemma DigitAt(k: nat)
    requires k < 10
    ensures '0' <= "0123456789"[k] <= '9' && ("0123456789"[k] - '0') as nat == k
  {
  }

  /** Written numbers read back, in digits, without leading zeros. */
  lemma {:induction false} DecimalReads(n: nat)
    ensures Value(Decimal(n)) == n && Decimal(n) != []
    ensures forall c <- Decimal(n) :: '0' <= c <= '9'
    ensures Decimal(n)[0] == '0' ==> n == 0
  {
    DigitAt(n % 10);
    if n < 10 {
      assert Decimal(n) == [Decimal(n)[0]] && Decimal(n)[..0] == [];
    } else {
      DecimalReads(n / 10);
      var front := Decimal(n / 10);
      assert Decimal(n) == front + ["0123456789"[n % 10]];
      assert Decimal(n)[..|front|] == front;
    }
  }

  // ---------------------------------------------------------------------------------------
  // Rows
  // ---------------------------------------------------------------------------------------

  /** `name` is `header` with underscores for hyphens. */
  predicate Underscored(header: string, name: string) {
    && |name| == |header|
    && forall i :: 0 <= i < |header| ==> name[i] == if header[i] == '-' then '_' else header[i]
  }

  /** The declaration of a field: type and name, the number in digits, and a semicolon. */
  ghost predicate Declares(row: Row, typed: map<nat, (string, string)>) {
    exists field: string, digits: string ::
      && row.decl == field + " = " + digits + ";" && Value(digits) == row.number
      && if row.number <= 15 && row.number in typed then
           field == typed[row.number].1 && row.header == typed[row.number].0
         else exists name: string :: field == "repeated bytes " + name && Underscored(row.header, name)
  }

  lemma PlainDeclares(n: nat, header: string, typed: map<nat, (string, string)>)
    requires n <= 15 ==> n !in typed
    ensures Declares(PlainRow(n, header), typed)
  {
    DecimalReads(n);
    var name := FieldName(header);
    assert Underscored(header, name);
    var field := "repeated bytes " + name;
    assert PlainRow(n, header).decl == field + " = " + Decimal(n) + ";";
  }

  lemma TypedDeclares(n: nat, typed: map<nat, (string, string)>)
    requires n <= 15 && n in typed
    ensures Declares(TypedRow(n, typed[n]), typed)
  {
    DecimalReads(n);
    assert TypedRow(n, typed[n]).decl == typed[n].1 + " = " + Decimal(n) + ";";
  }

  /** The headers of the rows that are not typed. */
  function PlainHeaders(rows: seq<Row>, typed: map<nat, (string, string)>): seq<string> {
    if rows == [] then []
    else (if rows[0].number <= 15 && rows[0].number in typed then [] else [rows[0].header])
         + PlainHeaders(rows[1..], typed)
  }

  lemma TypedIs(n: nat, typed: map<nat, (string, string)>)
    requires n in typed
    ensures TypedRow(n, typed[n]).number == n
  {
  }

  lemma PlainIs(n: nat, header: string)
    ensures PlainRow(n, header).number == n && PlainRow(n, header).header == header
  {
  }

  lemma {:induction false} HotDeclared(n: nat, hot: seq<string>, typed: map<nat, (string, string)>)
    requires HotRows(n, hot, typed).Some?
    ensures var rows := HotRows(n, hot, typed).value;
      && (forall row <- rows :: Declares(row, typed)) && PlainHeaders(rows, typed) == hot
      && (forall row <- rows :: row.number <= 15)
    decreases 16 - n
  {
    hide PlainRow, TypedRow, Declares;
    if n <= 15 && n in typed {
      HotDeclared(n + 1, hot, typed);
      TypedDeclares(n, typed);
      TypedIs(n, typed);
      var tail := HotRows(n + 1, hot, typed).value;
      assert HotRows(n, hot, typed).value[1..] == tail;
      assert [] + PlainHeaders(tail, typed) == PlainHeaders(tail, typed);
    } else if n <= 15 && hot != [] {
      HotDeclared(n + 1, hot[1..], typed);
      PlainDeclares(n, hot[0], typed);
      PlainIs(n, hot[0]);
      var tail := HotRows(n + 1, hot[1..], typed).value;
      assert HotRows(n, hot, typed).value[1..] == tail;
      assert hot == [hot[0]] + hot[1..];
    }
  }

  lemma {:induction false} RestDeclared(n: nat, rest: seq<string>, typed: map<nat, (string, string)>)
    requires n >= 16 && RestRows(n, rest).Some?
    ensures var rows := RestRows(n, rest).value;
      (forall row <- rows :: Declares(row, typed)) && PlainHeaders(rows, typed) == rest
    decreases |rest|
  {
    hide PlainRow, Declares;
    if rest != [] {
      RestDeclared(n + 1, rest[1..], typed);
      PlainDeclares(n, rest[0], typed);
      PlainIs(n, rest[0]);
      assert RestRows(n, rest).value[1..] == RestRows(n + 1, rest[1..]).value;
      assert rest == [rest[0]] + rest[1..];
    }
  }

  lemma {:induction false} PlainHeadersAppend(a: seq<Row>, b: seq<Row>, typed: map<nat, (string, string)>)
    ensures PlainHeaders(a + b, typed) == PlainHeaders(a, typed) + PlainHeaders(b, typed)
  {
    if a == [] {
      assert a + b == b;
    } else {
      assert (a + b)[1..] == a[1..] + b;
      PlainHeadersAppend(a[1..], b, typed);
    }
  }

  /**
   * Every row declares its header under its number, a typed row as its table entry says; the other
   * headers are the hot ones and then the rest, in order.
   */
  lemma RowsDeclared(t: Table)
    requires Rows(t).Some?
    ensures forall row <- Rows(t).value :: Declares(row, t.typed)
    ensures PlainHeaders(Rows(t).value, t.typed) == t.hot + t.rest
  {
    hide Declares;
    HotDeclared(t.hotStart, t.hot, t.typed);
    RestDeclared(16, t.rest, t.typed);
    PlainHeadersAppend(HotRows(t.hotStart, t.hot, t.typed).value, RestRows(16, t.rest).value, t.typed);
  }

  /** How many numbers from `n` through 15 are not typed. */
  function Slots(n: nat, typed: map<nat, (string, string)>): nat
    decreases 16 - n
  {
    if n > 15 then 0 else (if n in typed then 0 else 1) + Slots(n + 1, typed)
  }

  lemma {:induction false} HotFits(n: nat, hot: seq<string>, typed: map<nat, (string, string)>)
    ensures HotRows(n, hot, typed).Some? <==> |hot| <= Slots(n, typed)
    decreases 16 - n
  {
    hide PlainRow, TypedRow;
    if n <= 15 {
      if n in typed {
        HotFits(n + 1, hot, typed);
      } else if hot != [] {
        HotFits(n + 1, hot[1..], typed);
      }
    }
  }

  /** The layout exists exactly when the hot headers fit up to 15 and the rest fits 16 through 199. */
  lemma LayoutIff(t: Table)
    ensures Rows(t).Some? <==> |t.hot| <= Slots(t.hotStart, t.typed) && |t.rest| <= 184
  {
    hide HotRows, RestRows;
    HotFits(t.hotStart, t.hot, t.typed);
    RestNumbers(16, t.rest);
  }

  // ---------------------------------------------------------------------------------------
  // Lines
  // ---------------------------------------------------------------------------------------

  /** The lines of a text. */
  function LinesOf(text: string): (r: seq<string>)
    ensures |r| > 0
    decreases |text|
  {
    match Find(text, "\n")
    case None => [text]
    case Some(i) => [text[..i]] + LinesOf(text[i + 1..])
  }

  lemma FirstLine(line: string, rest: string)
    requires '\n' !in line
    ensures LinesOf(line + "\n" + rest) == [line] + LinesOf(rest)
  {
    hide FindFrom;
    var text := line + "\n" + rest;
    forall p: nat | p < |line| ensures !OccursAt(line + "\n", "\n", p) {
      assert (line + "\n")[p] == line[p];
      assert p + 1 <= |line + "\n"| ==> (line + "\n")[p..p + 1][0] == line[p];
    }
    FindWritten(line, "\n", rest);
    assert text[..|line|] == line && text[|line| + 1..] == rest;
  }

  lemma BreakAt(line: string, p: nat)
    ensures OccursAt(line, "\n", p) ==> p < |line| && line[p] == '\n'
  {
    if p + 1 <= |line| { assert line[p..p + 1] == [line[p]]; }
  }

  lemma OnlyLine(line: string)
    requires '\n' !in line
    ensures LinesOf(line) == [line]
  {
    hide FindFrom;
    forall p: nat ensures !OccursAt(line, "\n", p) {
      BreakAt(line, p);
    }
  }

  /** Joined lines are the lines of the text. */
  lemma {:induction false} JoinedLines(lines: seq<string>)
    requires lines != [] && forall line <- lines :: '\n' !in line
    ensures LinesOf(Join(lines)) == lines
  {
    hide LinesOf;
    if |lines| == 1 {
      OnlyLine(lines[0]);
    } else {
      FirstLine(lines[0], Join(lines[1..]));
      JoinedLines(lines[1..]);
      assert lines == [lines[0]] + lines[1..];
    }
  }

  // ---------------------------------------------------------------------------------------
  // The block
  // ---------------------------------------------------------------------------------------

  /** Where the line of row `i` stands: behind three lines, and two more from number 16 on. */
  function LineOfRow(rows: seq<Row>, i: nat): nat
    requires i < |rows|
  {
    3 + i + if rows[i].number >= 16 then 2 else 0
  }

  /** Numbers start at 16 again behind the one-byte rows. */
  predicate Layered(rows: seq<Row>) {
    && Increasing(rows)
    && forall i :: 0 <= i < |rows| && rows[i].number > 16 ==> i > 0 && rows[i - 1].number >= 16
  }

  lemma RowLinesAre(row: Row)
    ensures var lines := RowLines(row);
      && |lines| == (if row.number == 16 then 3 else 1)
      && lines[|lines| - 1] == "  " + row.decl + "  // " + row.header
      && (row.number == 16 ==> lines[0] == "" && lines[1] == RemainderLine())
  {
    hide RemainderLine;
  }

  lemma Shorter(rows: seq<Row>)
    requires rows != [] && Layered(rows)
    ensures Layered(rows[..|rows| - 1])
    ensures var n := rows[|rows| - 1].number;
      var before := if |rows| > 1 then rows[|rows| - 2].number else 0;
      (n <= 16 ==> before < 16) && (n > 16 ==> before >= 16)
  {
  }

  lemma {:induction false} LineCount(rows: seq<Row>)
    requires Layered(rows)
    ensures |AllRowLines(rows)| == |rows| + (if rows != [] && rows[|rows| - 1].number >= 16 then 2 else 0)
  {
    hide RowLines, Layered;
    if rows != [] {
      Shorter(rows);
      LineCount(rows[..|rows| - 1]);
      RowLinesAre(rows[|rows| - 1]);
    }
  }

  /** The line of a row, and the heading in front of the row with number 16. */
  lemma {:induction false} RowAt(rows: seq<Row>, i: nat)
    requires Layered(rows) && i < |rows|
    ensures var lines := AllRowLines(rows);
      && LineOfRow(rows, i) - 3 < |lines|
      && lines[LineOfRow(rows, i) - 3] == "  " + rows[i].decl + "  // " + rows[i].header
      && (rows[i].number == 16 ==> lines[i] == "" && lines[i + 1] == RemainderLine())
  {
    hide RowLines, Layered, RemainderLine;
    var init, last := rows[..|rows| - 1], rows[|rows| - 1];
    Shorter(rows);
    RowLinesAre(last);
    LineCount(init);
    if i < |init| {
      RowAt(init, i);
    }
  }

  lemma RowsLayered(t: Table)
    requires Rows(t).Some?
    ensures Layered(Rows(t).value)
  {
    RowsIncrease(t);
    HotNumbers(t.hotStart, t.hot, t.typed);
    RestNumbers(16, t.rest);
  }

  /** What the lines of the block of a table are. */
  ghost predicate Describes(lines: seq<string>, d: Direction, rows: seq<Row>)
    requires rows != []
  {
    var last := rows[|rows| - 1].number;
    var body := |rows| + if last >= 16 then 2 else 0;
    && |lines| == 3 + body + (if last < 199 then 3 else 0)
    && lines[..3] == Intro(d)
    && (forall i :: 0 <= i < |rows| ==>
          lines[LineOfRow(rows, i)] == "  " + rows[i].decl + "  // " + rows[i].header)
    && (forall i :: 0 <= i < |rows| && rows[i].number == 16 ==> lines[3 + i] == "" && lines[4 + i] == RemainderLine())
    && (last < 199 ==>
          && lines[3 + body] == "" && lines[4 + body] == ReservedLine()
          && exists from: string, to: string ::
               && lines[5 + body] == "  reserved " + from + " to " + to + ";"
               && Value(from) == last + 1 && Value(to) == 199)
  }

  lemma Middle(a: seq<string>, b: seq<string>, c: seq<string>, k: nat)
    requires k < |b|
    ensures (a + b + c)[|a| + k] == b[k]
  {
  }

  lemma IntroSize(d: Direction)
    ensures |Intro(d)| == 3
  {
    hide TitleLine, RuleLine, OrderLine;
  }

  lemma ReservedAre(last: nat)
    ensures last >= 199 ==> Reserved(last) == []
    ensures last < 199 ==> var lines := Reserved(last);
      && |lines| == 3 && lines[0] == "" && lines[1] == ReservedLine()
      && exists from: string, to: string ::
           lines[2] == "  reserved " + from + " to " + to + ";" && Value(from) == last + 1 && Value(to) == 199
  {
    hide ReservedLine, Decimal;
    if last < 199 {
      DecimalReads(last + 1);
      DecimalReads(199);
      var from, to := Decimal(last + 1), Decimal(199);
      assert Reserved(last)[2] == "  reserved " + from + " to " + to + ";";
    }
  }

  lemma BlockDescribed(d: Direction, rows: seq<Row>)
    requires rows != [] && Layered(rows)
    ensures Describes(BlockLines(d, rows), d, rows)
  {
    hide RemainderLine, ReservedLine, AllRowLines, RowLines, Intro, Layered, Reserved;
    var last := LastNumber(rows);
    var a, b, c := Intro(d), AllRowLines(rows), Reserved(last);
    var lines := BlockLines(d, rows);
    IntroSize(d);
    LineCount(rows);
    ReservedAre(last);
    assert lines == a + b + c && lines[..3] == a;
    forall i | 0 <= i < |rows|
      ensures LineOfRow(rows, i) < |a + b|
      ensures lines[LineOfRow(rows, i)] == "  " + rows[i].decl + "  // " + rows[i].header
      ensures rows[i].number == 16 ==> lines[3 + i] == "" && lines[4 + i] == RemainderLine()
    {
      RowAt(rows, i);
      Middle(a, b, c, LineOfRow(rows, i) - 3);
      if rows[i].number == 16 {
        Middle(a, b, c, i);
        Middle(a, b, c, i + 1);
      }
    }
    if last < 199 {
      assert forall k :: 0 <= k < 3 ==> lines[|a| + |b| + k] == c[k];
    }
  }

  /** The numbers of the two-byte range that no row has are exactly those the block reserves. */
  lemma ReservedExactly(t: Table, k: nat)
    requires Rows(t).Some? && Rows(t).value != [] && 16 <= k <= 199
    ensures var rows := Rows(t).value;
      (exists i :: 0 <= i < |rows| && rows[i].number == k)
      <==> !(rows[|rows| - 1].number + 1 <= k <= 199)
  {
    LayoutPartition(t);
    assert Uses(Rows(t).value, k) <==> !(LastNumber(Rows(t).value) < k <= 199);
  }

  /**
   * The block that the generator renders is made of lines that name every row's declaration and
   * header, in order, and reserve the numbers behind the last one through 199.
   */
  lemma BlockSays(d: Direction, t: Table)
    requires Block(d, t).Some?
    ensures Rows(t).Some? && Rows(t).value != []
    ensures Block(d, t).value == Join(BlockLines(d, Rows(t).value))
    ensures Describes(BlockLines(d, Rows(t).value), d, Rows(t).value)
  {
    hide Describes, Join, BlockLines, Layered;
    RowsLayered(t);
    BlockDescribed(d, Rows(t).value);
  }
}
