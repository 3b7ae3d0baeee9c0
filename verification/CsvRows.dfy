/** Reading of comma-separated values, `csvRows` (packages/desktop-host/src/phase2/documents.ts), against tables
    written as in section 2 of RFC 4180. */
module CsvRows {
  import opened Prelude

  type Row = seq<string>

  const QUOTE := '\"'

  /** The variables of the reader. */
  datatype Scanner = Scanner(rows: seq<Row>, row: Row, cell: string, quoted: bool)

  const START := Scanner([], [], "", false)

  predicate HasText(row: Row) {
    exists i | 0 <= i < |row| :: row[i] != ""
  }

  /** At a line end; rows without text are dropped as long as no row is kept. */
  function EndRow(s: Scanner): Scanner {
    var row := s.row + [s.cell];
    Scanner(if HasText(row) || |s.rows| > 0 then s.rows + [row] else s.rows, [], "", false)
  }

  /** What the loop over `text` makes of the variables. */
  function Scan(s: Scanner, text: string, maxRows: nat): Scanner
    decreases |text|
  {
    if text == "" then s
    else if s.quoted then
      if text[0] == QUOTE && |text| > 1 && text[1] == QUOTE then Scan(s.(cell := s.cell + [QUOTE]), text[2..], maxRows)
      else if text[0] == QUOTE then Scan(s.(quoted := false), text[1..], maxRows)
      else Scan(s.(cell := s.cell + [text[0]]), text[1..], maxRows)
    else if text[0] == QUOTE && s.cell == "" then Scan(s.(quoted := true), text[1..], maxRows)
    else if text[0] == ',' then Scan(s.(row := s.row + [s.cell], cell := ""), text[1..], maxRows)
    else if text[0] == '\n' || text[0] == '\r' then
      var ended := EndRow(s);
      if |ended.rows| >= maxRows then ended
      else Scan(ended, if text[0] == '\r' && |text| > 1 && text[1] == '\n' then text[2..] else text[1..], maxRows)
    else Scan(s.(cell := s.cell + [text[0]]), text[1..], maxRows)
  }

  function Finish(s: Scanner): seq<Row> {
    if s.cell != "" || |s.row| > 0 then s.rows + [s.row + [s.cell]] else s.rows
  }

  function Rows(text: string, maxRows: nat): seq<Row> {
    Finish(Scan(START, text, maxRows))
  }

  method CsvRows(value: string, maxRows: nat) returns (rows: seq<Row>)
    ensures rows == Rows(value, maxRows)
  {
    rows := [];
    var row: Row, cell, quoted, index := [], "", false, 0;
    assert value[0..] == value;
    while index < |value|
      invariant index <= |value|
      invariant Scan(Scanner(rows, row, cell, quoted), value[index..], maxRows) == Scan(START, value, maxRows)
      decreases |value| - index
    {
      var c := value[index];
      var twice := index + 1 < |value|
                  && ((quoted && value[index + 1] == QUOTE) || (!quoted && value[index + 1] == '\n'));
      Suffix(value, index);
      if quoted {
        if c == QUOTE && twice {
          cell, index := cell + [QUOTE], index + 1;
        } else if c == QUOTE {
          quoted := false;
        } else {
          cell := cell + [c];
        }
      } else if c == QUOTE && cell == "" {
        quoted := true;
      } else if c == ',' {
        row, cell := row + [cell], "";
      } else if c == '\n' || c == '\r' {
        if c == '\r' && twice {
          index := index + 1;
        }
        row, cell := row + [cell], "";
        if HasText(row) || |rows| > 0 {
          rows := rows + [row];
        }
        row := [];
        if |rows| >= maxRows {
          break;
        }
      } else {
        cell := cell + [c];
      }
      index := index + 1;
    }
    if cell != "" || |row| > 0 {
      rows := rows + [row + [cell]];
    }
  }

  lemma Suffix(value: string, index: nat)
    requires index < |value|
    ensures value[index..][0] == value[index] && value[index..][1..] == value[index + 1..]
    ensures index + 1 < |value| ==> value[index..][1] == value[index + 1] && value[index..][2..] == value[index + 2..]
  {
  }

  // ----- Writing -----

  datatype Field = Plain(text: string) | Quoted(text: string)

  datatype Ending = Lf | CrLf

  datatype Line = Line(fields: seq<Field>, ending: Ending)

  predicate Separator(c: char) {
    c == ',' || c == '\n' || c == '\r'
  }

  /** A field may go unquoted when it holds no separator and does not begin with a quote. */
  predicate ValidField(f: Field) {
    match f
    case Plain(text) => (text == "" || text[0] != QUOTE) && forall i | 0 <= i < |text| :: !Separator(text[i])
    case Quoted(_) => true
  }

  predicate ValidFields(fields: seq<Field>) {
    fields != [] && forall i | 0 <= i < |fields| :: ValidField(fields[i])
  }

  function Doubled(text: string): string {
    if text == "" then "" else (if text[0] == QUOTE then [QUOTE, QUOTE] else [text[0]]) + Doubled(text[1..])
  }

  function FieldText(f: Field): string {
    match f
    case Plain(text) => text
    case Quoted(text) => [QUOTE] + Doubled(text) + [QUOTE]
  }

  /** What has no double quote in it is written as it stands. */
  lemma {:induction false} DoubledBefore(text: string, rest: string, all: string)
    requires '\"' !in text && all == text + rest
    ensures Doubled(all) == text + Doubled(rest)
  {
    if text == "" {
      assert all == rest;
    } else {
      DoubledBefore(text[1..], rest, all[1..]);
      assert text == [text[0]] + text[1..];
    }
  }

  /** A quoted text stands between double quotes, and a double quote in it is doubled. */
  lemma {:induction false} QuotedText(text: string, more: string)
    requires '\"' !in text
    ensures FieldText(Quoted(text)) == "\"" + text + "\""
    ensures Doubled(text + ("\"" + more)) == text + ("\"\"" + Doubled(more))
  {
    DoubledBefore(text, "", text);
    assert ("\"" + more)[1..] == more;
    DoubledBefore(text, "\"" + more, text + ("\"" + more));
  }

  function FieldsText(fields: seq<Field>): string {
    if fields == [] then ""
    else FieldText(fields[0]) + (if |fields| == 1 then "" else "," + FieldsText(fields[1..]))
  }

  function EndingText(e: Ending): string {
    match e
    case Lf => "\n"
    case CrLf => "\r\n"
  }

  function Encode(table: seq<Line>): string {
    if table == [] then ""
    else FieldsText(table[0].fields) + (EndingText(table[0].ending) + Encode(table[1..]))
  }

  predicate ValidTable(table: seq<Line>) {
    forall i | 0 <= i < |table| :: ValidFields(table[i].fields)
  }

  function Values(fields: seq<Field>): Row {
    if fields == [] then [] else [fields[0].text] + Values(fields[1..])
  }

  function TableValues(table: seq<Line>): seq<Row> {
    if table == [] then [] else [Values(table[0].fields)] + TableValues(table[1..])
  }

  /** Without the leading rows that hold nothing. */
  function DropEmpty(rows: seq<Row>): seq<Row> {
    if rows != [] && !HasText(rows[0]) then DropEmpty(rows[1..]) else rows
  }

  function Cut(rows: seq<Row>, n: nat): seq<Row> {
    if |rows| <= n then rows else rows[..n]
  }

  // ----- Reading what is written -----

  lemma {:induction false} ScanPlain(s: Scanner, t: string, rest: string, text: string, maxRows: nat)
    requires text == t + rest && !s.quoted
    requires forall i | 0 <= i < |t| :: !Separator(t[i])
    requires s.cell != "" || t == "" || t[0] != QUOTE
    ensures Scan(s, text, maxRows) == Scan(s.(cell := s.cell + t), rest, maxRows)
    decreases |t|
  {
    if t == "" {
      assert text == rest && s.cell + t == s.cell;
    } else {
      var next := s.(cell := s.cell + [t[0]]);
      assert text[1..] == t[1..] + rest;
      ScanPlain(next, t[1..], rest, text[1..], maxRows);
      assert next.cell + t[1..] == s.cell + t;
    }
  }

  lemma {:induction false} ScanQuotedChar(s: Scanner, c: char, tail: string, text: string, maxRows: nat)
    requires s.quoted && text == (if c == QUOTE then [QUOTE, QUOTE] else [c]) + tail
    ensures Scan(s, text, maxRows) == Scan(s.(cell := s.cell + [c]), tail, maxRows)
  {
    assert text[if c == QUOTE then 2 else 1..] == tail;
  }

  lemma {:induction false} ScanClosing(s: Scanner, rest: string, text: string, maxRows: nat)
    requires s.quoted && text == [QUOTE] + rest && (rest == "" || rest[0] != QUOTE)
    ensures Scan(s, text, maxRows) == Scan(s.(quoted := false), rest, maxRows)
  {
    assert text[1..] == rest;
  }

  lemma {:induction false} ScanQuoted(s: Scanner, t: string, closing: string, rest: string, text: string, maxRows: nat)
    requires s.quoted && text == Doubled(t) + closing && closing == [QUOTE] + rest && (rest == "" || rest[0] != QUOTE)
    ensures Scan(s, text, maxRows) == Scan(s.(cell := s.cell + t, quoted := false), rest, maxRows)
    decreases |t|
  {
    if t == "" {
      assert text == closing && s.cell + t == s.cell;
      ScanClosing(s, rest, text, maxRows);
    } else {
      var next := s.(cell := s.cell + [t[0]]);
      var tail := Doubled(t[1..]) + closing;
      Regroup(if t[0] == QUOTE then [QUOTE, QUOTE] else [t[0]], Doubled(t[1..]), closing);
      ScanQuotedChar(s, t[0], tail, text, maxRows);
      ScanQuoted(next, t[1..], closing, rest, tail, maxRows);
      Regroup(s.cell, [t[0]], t[1..]);
      assert t == [t[0]] + t[1..];
    }
  }

  predicate EndsField(rest: string) {
    rest == "" || Separator(rest[0])
  }

  lemma {:induction false} ScanOpening(s: Scanner, rest: string, text: string, maxRows: nat)
    requires text == [QUOTE] + rest && !s.quoted && s.cell == ""
    ensures Scan(s, text, maxRows) == Scan(s.(quoted := true), rest, maxRows)
  {
    assert text[1..] == rest;
  }

  lemma {:induction false} ScanComma(s: Scanner, rest: string, text: string, maxRows: nat)
    requires text == [','] + rest && !s.quoted
    ensures Scan(s, text, maxRows) == Scan(s.(row := s.row + [s.cell], cell := ""), rest, maxRows)
  {
    assert text[1..] == rest;
  }

  lemma {:induction false} ScanField(s: Scanner, f: Field, rest: string, text: string, maxRows: nat)
    requires ValidField(f) && text == FieldText(f) + rest && EndsField(rest)
    requires s.cell == "" && !s.quoted
    ensures Scan(s, text, maxRows) == Scan(s.(cell := f.text), rest, maxRows)
  {
    assert s.cell + f.text == f.text;
    match f
    case Plain(t) => ScanPlain(s, t, rest, text, maxRows);
    case Quoted(t) =>
      var closing := [QUOTE] + rest;
      var content := Doubled(t) + closing;
      assert text == [QUOTE] + content;
      ScanOpening(s, content, text, maxRows);
      ScanQuoted(s.(quoted := true), t, closing, rest, content, maxRows);
  }

  lemma FieldsParts(fields: seq<Field>, rest: string, text: string) returns (tail: string, more: string)
    requires |fields| > 1 && text == FieldsText(fields) + rest
    ensures text == FieldText(fields[0]) + more && more == [','] + tail && tail == FieldsText(fields[1..]) + rest
  {
    tail := FieldsText(fields[1..]) + rest;
    more := [','] + tail;
    Nest(FieldText(fields[0]), [','], FieldsText(fields[1..]), rest);
  }

  /** After the fields of a row, all but the last are in the row and the last is in the cell. */
  lemma {:induction false} ScanFields(s: Scanner, fields: seq<Field>, rest: string, text: string, maxRows: nat)
    returns (last: Scanner)
    requires ValidFields(fields) && text == FieldsText(fields) + rest && EndsField(rest)
    requires s.cell == "" && !s.quoted
    ensures last.rows == s.rows && !last.quoted && last.row + [last.cell] == s.row + Values(fields)
    ensures Scan(s, text, maxRows) == Scan(last, rest, maxRows)
    decreases |fields|
  {
    if |fields| == 1 {
      last := ScanLastField(s, fields, rest, text, maxRows);
    } else {
      var f := fields[0];
      var tail, more := FieldsParts(fields, rest, text);
      var next := s.(row := s.row + [f.text]);
      last := ScanFields(next, fields[1..], rest, tail, maxRows);
      ScanFieldAndComma(s, f, next, tail, more, text, maxRows);
      Regroup(s.row, [f.text], Values(fields[1..]));
    }
  }

  lemma ScanLastField(s: Scanner, fields: seq<Field>, rest: string, text: string, maxRows: nat) returns (last: Scanner)
    requires |fields| == 1 && ValidField(fields[0]) && text == FieldsText(fields) + rest && EndsField(rest)
    requires s.cell == "" && !s.quoted
    ensures last == s.(cell := fields[0].text) && Values(fields) == [last.cell]
    ensures Scan(s, text, maxRows) == Scan(last, rest, maxRows)
  {
    last := s.(cell := fields[0].text);
    assert Values(fields) == [last.cell];
    assert FieldsText(fields) == FieldText(fields[0]);
    ScanField(s, fields[0], rest, text, maxRows);
  }

  lemma {:induction false} ScanFieldAndComma(s: Scanner, f: Field, next: Scanner, tail: string, more: string,
                                             text: string, maxRows: nat)
    requires ValidField(f) && text == FieldText(f) + more && more == [','] + tail
    requires s.cell == "" && !s.quoted && next == s.(row := s.row + [f.text])
    ensures Scan(s, text, maxRows) == Scan(next, tail, maxRows)
  {
    ScanField(s, f, more, text, maxRows);
    ScanComma(s.(cell := f.text), tail, more, maxRows);
  }

  /** What a row adds at its end. */
  function WithRow(rows: seq<Row>, row: Row): seq<Row> {
    if HasText(row) || |rows| > 0 then rows + [row] else rows
  }

  lemma {:induction false} ScanLine(rows: seq<Row>, line: Line, next: seq<Row>, rest: string, text: string,
                                    maxRows: nat)
    requires ValidFields(line.fields) && text == FieldsText(line.fields) + (EndingText(line.ending) + rest)
    requires next == WithRow(rows, Values(line.fields))
    ensures Scan(Scanner(rows, [], "", false), text, maxRows)
         == if |next| >= maxRows then Scanner(next, [], "", false)
            else Scan(Scanner(next, [], "", false), rest, maxRows)
  {
    var more := EndingText(line.ending) + rest;
    var last := ScanFields(Scanner(rows, [], "", false), line.fields, more, text, maxRows);
    assert last.row + [last.cell] == Values(line.fields);
    assert line.ending.Lf? ==> more[1..] == rest;
    assert line.ending.CrLf? ==> more[2..] == rest;
  }

  /** The rows kept after a table, when some were kept before it. */
  function Kept(before: seq<Row>, table: seq<Line>): seq<Row> {
    before + (if before == [] then DropEmpty(TableValues(table)) else TableValues(table))
  }

  lemma {:induction false} ScanTable(rows: seq<Row>, table: seq<Line>, kept: seq<Row>, rest: string, text: string,
                                     maxRows: nat)
    requires ValidTable(table) && text == Encode(table) + rest && |rows| < maxRows && kept == Kept(rows, table)
    ensures Scan(Scanner(rows, [], "", false), text, maxRows)
         == if |kept| >= maxRows then Scanner(kept[..maxRows], [], "", false)
            else Scan(Scanner(kept, [], "", false), rest, maxRows)
    decreases |table|
  {
    if table == [] {
      assert text == rest && kept == rows;
    } else {
      var others := TableParts(table, rest, text);
      var next := KeptAfterRow(rows, table, kept);
      ScanLine(rows, table[0], next, others, text, maxRows);
      if |next| < maxRows {
        ScanTable(next, table[1..], kept, rest, others, maxRows);
      } else {
        assert kept[..maxRows] == next;
      }
    }
  }

  lemma Nest<T>(a: seq<T>, b: seq<T>, c: seq<T>, d: seq<T>)
    ensures a + (b + c) + d == a + (b + (c + d))
  {
  }

  lemma TableParts(table: seq<Line>, rest: string, text: string) returns (others: string)
    requires table != [] && text == Encode(table) + rest
    ensures others == Encode(table[1..]) + rest
    ensures text == FieldsText(table[0].fields) + (EndingText(table[0].ending) + others)
  {
    others := Encode(table[1..]) + rest;
    Nest(FieldsText(table[0].fields), EndingText(table[0].ending), Encode(table[1..]), rest);
  }

  lemma KeptAfterRow(rows: seq<Row>, table: seq<Line>, kept: seq<Row>) returns (next: seq<Row>)
    requires table != [] && kept == Kept(rows, table)
    ensures next == WithRow(rows, Values(table[0].fields))
    ensures kept == Kept(next, table[1..]) && |next| <= |kept| && next == kept[..|next|] && |next| <= |rows| + 1
  {
    var values, others := Values(table[0].fields), TableValues(table[1..]);
    next := WithRow(rows, values);
    assert TableValues(table)[1..] == others;
    if rows != [] || HasText(values) {
      Regroup(rows, [values], others);
      assert kept == next + others;
    } else {
      assert kept == DropEmpty(others);
    }
  }

  /** A table is read back, with its leading empty rows dropped, and cut at `maxRows`. */
  lemma {:induction false} TableIsReadBack(table: seq<Line>, maxRows: nat)
    requires ValidTable(table) && maxRows > 0
    ensures Rows(Encode(table), maxRows) == Cut(DropEmpty(TableValues(table)), maxRows)
  {
    var text := Encode(table);
    assert text == text + "";
    var kept := DropEmpty(TableValues(table));
    assert Kept([], table) == kept;
    ScanTable([], table, kept, "", text, maxRows);
  }

  function SeenAtEnd(fields: seq<Field>): seq<Row> {
    if Values(fields) == [""] then [] else [Values(fields)]
  }

  /** The last row may lack its line end; then a row of one empty field is not seen, and any other is kept. */
  lemma {:induction false} LastRowNeedsNoEnd(table: seq<Line>, last: seq<Field>, maxRows: nat)
    requires ValidTable(table) && ValidFields(last) && maxRows > 0
    ensures Rows(Encode(table) + FieldsText(last), maxRows)
          == Cut(DropEmpty(TableValues(table)) + SeenAtEnd(last), maxRows)
  {
    var kept, rest := DropEmpty(TableValues(table)), FieldsText(last);
    var text := Encode(table) + rest;
    assert Kept([], table) == kept;
    ScanTable([], table, kept, rest, text, maxRows);
    if |kept| >= maxRows {
      assert (kept + SeenAtEnd(last))[..maxRows] == kept[..maxRows];
    } else {
      LastRow(kept, last, rest, maxRows);
    }
  }

  lemma {:induction false} LastRow(kept: seq<Row>, last: seq<Field>, rest: string, maxRows: nat)
    requires ValidFields(last) && rest == FieldsText(last)
    ensures Finish(Scan(Scanner(kept, [], "", false), rest, maxRows)) == kept + SeenAtEnd(last)
  {
    assert rest == rest + "";
    var s := ScanFields(Scanner(kept, [], "", false), last, "", rest, maxRows);
    assert s.row + [s.cell] == Values(last);
    assert s.row == [] ==> Values(last) == [s.cell];
  }

  /** With a limit of zero rows the reader still reads the first row. */
  lemma {:induction false} FirstRowIsRead(table: seq<Line>, text: string, first: seq<Row>)
    requires table != [] && ValidTable(table) && text == Encode(table)
    requires first == WithRow([], Values(table[0].fields))
    ensures Rows(text, 0) == first
  {
    assert text == text + "";
    var others := TableParts(table, "", text);
    ScanLine([], table[0], first, others, text, 0);
  }

  /** With a limit of zero rows nothing is returned exactly when the first row has no text. */
  lemma {:induction false} ZeroRowsExactly(table: seq<Line>)
    requires ValidTable(table)
    ensures Rows(Encode(table), 0) == [] <==> table == [] || !HasText(Values(table[0].fields))
  {
    if table != [] {
      FirstRowIsRead(table, Encode(table), WithRow([], Values(table[0].fields)));
    }
  }

  /** On any text at all, no more than `maxRows` rows come out, and none is without a cell. */
  lemma RowsAreLimited(text: string, maxRows: nat)
    requires maxRows > 0
    ensures |Rows(text, maxRows)| <= maxRows
    ensures forall row | row in Rows(text, maxRows) :: row != []
  {
    ScanIsLimited(START, text, maxRows);
  }

  lemma {:induction false} ScanIsLimited(s: Scanner, text: string, maxRows: nat)
    requires |s.rows| < maxRows && forall i | 0 <= i < |s.rows| :: s.rows[i] != []
    ensures |Finish(Scan(s, text, maxRows))| <= maxRows
    ensures forall row | row in Finish(Scan(s, text, maxRows)) :: row != []
    decreases |text|
  {
    if text != "" {
      if s.quoted && text[0] == QUOTE && |text| > 1 && text[1] == QUOTE {
        ScanIsLimited(s.(cell := s.cell + [QUOTE]), text[2..], maxRows);
      } else if s.quoted && text[0] == QUOTE {
        ScanIsLimited(s.(quoted := false), text[1..], maxRows);
      } else if !s.quoted && text[0] == QUOTE && s.cell == "" {
        ScanIsLimited(s.(quoted := true), text[1..], maxRows);
      } else if s.quoted || !Separator(text[0]) {
        ScanIsLimited(s.(cell := s.cell + [text[0]]), text[1..], maxRows);
      } else if text[0] == ',' {
        ScanIsLimited(s.(row := s.row + [s.cell], cell := ""), text[1..], maxRows);
      } else if |EndRow(s).rows| < maxRows {
        var n := if text[0] == '\r' && |text| > 1 && text[1] == '\n' then 2 else 1;
        ScanIsLimited(EndRow(s), text[n..], maxRows);
      }
    }
  }
}
