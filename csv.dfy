/**
 * The CSV writing used by the roster export in components/Members.tsx: a
 * cell holding a comma, a double quote or a line feed is wrapped in double
 * quotes with its own double quotes doubled; cells are joined with commas and
 * records with line feeds. `ParseCsv` is a reader in the style of section 2
 * of RFC 4180 (with bare line feeds as record separators); the lemmas show
 * that it recovers every table the writer is given.
 */
module Csv {

  /** `stringData.includes(',') || ... includes('"') || ... includes('\n')`. */
  predicate NeedsQuoting(s: string)
  {
    ',' in s || '"' in s || '\n' in s
  }

  /** `replace(/"/g, '""')`. */
  function DoubleQuotes(s: string): (r: string)
    ensures |r| >= |s|
  {
    if s == [] then []
    else if s[0] == '"' then "\"\"" + DoubleQuotes(s[1..])
    else [s[0]] + DoubleQuotes(s[1..])
  }

  /**
   * Every double quote becomes two and every other character stays: the
   * result is one character longer per quote, and holds twice as many quotes.
   */
  lemma {:induction false} DoubleQuotesCounts(s: string)
    ensures |DoubleQuotes(s)| == |s| + multiset(s)['"']
    ensures multiset(DoubleQuotes(s))['"'] == 2 * multiset(s)['"']
    ensures forall ch :: ch != '"' ==> multiset(DoubleQuotes(s))[ch] == multiset(s)[ch]
    decreases |s|
  {
    if s != [] {
      DoubleQuotesCounts(s[1..]);
      assert s == [s[0]] + s[1..];
      assert multiset(s) == multiset{s[0]} + multiset(s[1..]);
    }
  }

  /** A text without double quotes is left as it is. */
  lemma {:induction false} DoubleQuotesQuoteFree(s: string)
    requires '"' !in s
    ensures DoubleQuotes(s) == s
    decreases |s|
  {
    if s != [] {
      assert s[0] in s;
      assert forall ch :: ch in s[1..] ==> ch in s;
      DoubleQuotesQuoteFree(s[1..]);
      assert [s[0]] + s[1..] == s;
    }
  }

  /** `escapeCsvCell` on a cell already converted to a string. */
  function EscapeCell(s: string): (r: string)
    ensures NeedsQuoting(s) ==> |r| >= 2 && r[0] == '"' && r[|r| - 1] == '"'
    ensures !NeedsQuoting(s) ==> r == s
  {
    if NeedsQuoting(s) then "\"" + DoubleQuotes(s) + "\"" else s
  }

  function EscapeCells(cells: seq<string>): (r: seq<string>)
    ensures |r| == |cells| && forall i :: 0 <= i < |cells| ==> r[i] == EscapeCell(cells[i])
  {
    seq(|cells|, i requires 0 <= i < |cells| => EscapeCell(cells[i]))
  }

  /** Cells that need no quoting are written as they are. */
  lemma EscapeCellsClean(cells: seq<string>)
    requires forall i :: 0 <= i < |cells| ==> !NeedsQuoting(cells[i])
    ensures EscapeCells(cells) == cells
  {
  }

  /** `cells.join(',')`. */
  function JoinCells(cells: seq<string>): string
  {
    if cells == [] then ""
    else if |cells| == 1 then cells[0]
    else cells[0] + "," + JoinCells(cells[1..])
  }

  /** `lines.join('\n')`. */
  function JoinLines(lines: seq<string>): string
  {
    if lines == [] then ""
    else if |lines| == 1 then lines[0]
    else lines[0] + "\n" + JoinLines(lines[1..])
  }

  /** One record: its cells escaped and joined. */
  function Line(cells: seq<string>): string
  {
    JoinCells(EscapeCells(cells))
  }

  function Lines(records: seq<seq<string>>): (r: seq<string>)
    ensures |r| == |records| && forall i :: 0 <= i < |records| ==> r[i] == Line(records[i])
  {
    seq(|records|, i requires 0 <= i < |records| => Line(records[i]))
  }

  /** The document the writer produces for `records`. */
  function Write(records: seq<seq<string>>): string
  {
    JoinLines(Lines(records))
  }

  /** Reads a quoted cell's body, `s` starting after the opening quote: the cell and what follows the closing quote. */
  function ReadQuoted(s: string): (r: (string, string))
    ensures |r.1| < |s| || s == []
    decreases |s|
  {
    if s == [] then ("", "")
    else if s[0] == '"' then
      if |s| >= 2 && s[1] == '"' then
        var (c, rest) := ReadQuoted(s[2..]);
        (['"'] + c, rest)
      else ("", s[1..])
    else
      var (c, rest) := ReadQuoted(s[1..]);
      ([s[0]] + c, rest)
  }

  /** Reads an unquoted cell: everything up to the next comma or line feed. */
  function ReadPlain(s: string): (r: (string, string))
    ensures |r.1| <= |s|
  {
    if s == [] || s[0] == ',' || s[0] == '\n' then ("", s)
    else
      var (c, rest) := ReadPlain(s[1..]);
      ([s[0]] + c, rest)
  }

  function ReadCell(s: string): (r: (string, string))
    ensures |r.1| <= |s|
  {
    if s != [] && s[0] == '"' then ReadQuoted(s[1..]) else ReadPlain(s)
  }

  /** Reads the cells of one record, up to the line feed (or whatever else) that ends it. */
  function ReadRecord(s: string): (r: (seq<string>, string))
    ensures |r.1| <= |s| && |r.0| >= 1
    decreases |s|
  {
    var (c, rest) := ReadCell(s);
    if rest != [] && rest[0] == ',' then
      var (cs, after) := ReadRecord(rest[1..]);
      ([c] + cs, after)
    else ([c], rest)
  }

  /** Reads a whole document: one record, then one more after each line feed. */
  function ParseCsv(s: string): (records: seq<seq<string>>)
    ensures |records| >= 1
    decreases |s|
  {
    var (rec, rest) := ReadRecord(s);
    if rest != [] && rest[0] == '\n' then [rec] + ParseCsv(rest[1..]) else [rec]
  }

  /**
   * A doubled body followed by the closing quote (the first character of
   * `u`) reads back as the original cell, leaving what follows that quote.
   */
  lemma {:induction false} ReadQuotedDoubled(c: string, u: string)
    requires u != [] && u[0] == '"'
    requires u[1..] == [] || u[1] != '"'
    ensures ReadQuoted(DoubleQuotes(c) + u) == (c, u[1..])
    decreases |c|
  {
    if c == [] {
      assert DoubleQuotes(c) + u == u;
      ReadQuotedClose(u);
    } else {
      var rest := DoubleQuotes(c[1..]) + u;
      ReadQuotedDoubled(c[1..], u);
      assert ReadQuoted(rest) == (c[1..], u[1..]);
      if c[0] == '"' {
        DoubleQuotesQuoteStep(c, u);
        ReadQuotedQuotePair(rest);
      } else {
        DoubleQuotesCharStep(c, u);
        ReadQuotedPlainChar(c[0], rest);
      }
      assert [c[0]] + c[1..] == c;
    }
  }

  /** One step of `DoubleQuotes` on a leading quote, with a suffix `u` carried along. */
  lemma DoubleQuotesQuoteStep(c: string, u: string)
    requires c != [] && c[0] == '"'
    ensures DoubleQuotes(c) + u == "\"\"" + (DoubleQuotes(c[1..]) + u)
  {
    var d := DoubleQuotes(c[1..]);
    assert DoubleQuotes(c) == "\"\"" + d;
  }

  /** One step of `DoubleQuotes` on any other character, with a suffix `u` carried along. */
  lemma DoubleQuotesCharStep(c: string, u: string)
    requires c != [] && c[0] != '"'
    ensures DoubleQuotes(c) + u == [c[0]] + (DoubleQuotes(c[1..]) + u)
  {
    var d := DoubleQuotes(c[1..]);
    assert DoubleQuotes(c) == [c[0]] + d;
  }

  /** A lone quote closes the cell. */
  lemma ReadQuotedClose(u: string)
    requires u != [] && u[0] == '"'
    requires u[1..] == [] || u[1] != '"'
    ensures ReadQuoted(u) == ("", u[1..])
  {
  }

  /** A doubled quote reads as one quote of the cell. */
  lemma ReadQuotedQuotePair(u: string)
    ensures ReadQuoted("\"\"" + u) == (['"'] + ReadQuoted(u).0, ReadQuoted(u).1)
  {
    var s := "\"\"" + u;
    assert s[0] == '"' && s[1] == '"' && s[2..] == u;
  }

  /** Any other character reads as itself. */
  lemma ReadQuotedPlainChar(ch: char, u: string)
    requires ch != '"'
    ensures ReadQuoted([ch] + u) == ([ch] + ReadQuoted(u).0, ReadQuoted(u).1)
  {
    var s := [ch] + u;
    assert s[0] == ch && s[1..] == u;
  }

  /** A cell free of commas and line feeds reads back up to the delimiter that follows it. */
  lemma {:induction false} ReadPlainClean(c: string, t: string)
    requires ',' !in c && '\n' !in c
    requires t == [] || t[0] == ',' || t[0] == '\n'
    ensures ReadPlain(c + t) == (c, t)
  {
    if c == [] {
      assert c + t == t;
    } else {
      assert (c + t)[1..] == c[1..] + t;
      ReadPlainClean(c[1..], t);
      assert [c[0]] + c[1..] == c;
    }
  }

  /** An escaped cell followed by a delimiter (or nothing) reads back as the cell. */
  lemma CellRoundTrip(c: string, t: string)
    requires t == [] || t[0] == ',' || t[0] == '\n'
    ensures ReadCell(EscapeCell(c) + t) == (c, t)
  {
    if NeedsQuoting(c) {
      QuotedCellRoundTrip(c, t);
    } else {
      PlainCellRoundTrip(c, t);
    }
  }

  lemma QuotedCellRoundTrip(c: string, t: string)
    requires t == [] || t[0] == ',' || t[0] == '\n'
    ensures ReadCell("\"" + DoubleQuotes(c) + "\"" + t) == (c, t)
  {
    var u := "\"" + t;
    var body := DoubleQuotes(c) + u;
    var x := "\"" + DoubleQuotes(c) + "\"" + t;
    assert x == "\"" + body;
    assert x[0] == '"' && x[1..] == body;
    assert u[0] == '"' && u[1..] == t;
    ReadQuotedDoubled(c, u);
  }

  lemma PlainCellRoundTrip(c: string, t: string)
    requires ',' !in c && '"' !in c && '\n' !in c
    requires t == [] || t[0] == ',' || t[0] == '\n'
    ensures ReadCell(c + t) == (c, t)
  {
    if c != [] {
      assert (c + t)[0] == c[0] && c[0] in c;
    } else {
      assert c + t == t;
    }
    ReadPlainClean(c, t);
  }

  /** A written record followed by a line feed (or nothing) reads back cell for cell. */
  lemma {:induction false} RecordRoundTrip(cells: seq<string>, t: string)
    requires |cells| >= 1
    requires t == [] || t[0] == '\n'
    ensures ReadRecord(Line(cells) + t) == (cells, t)
    decreases |cells|
  {
    if |cells| == 1 {
      RecordRoundTripSingle(cells, t);
    } else {
      RecordRoundTrip(cells[1..], t);
      RecordRoundTripStep(cells, t);
    }
  }

  /** A one-cell record reads back. */
  lemma RecordRoundTripSingle(cells: seq<string>, t: string)
    requires |cells| == 1
    requires t == [] || t[0] == '\n'
    ensures ReadRecord(Line(cells) + t) == (cells, t)
  {
    LineSingle(cells);
    CellRoundTrip(cells[0], t);
    ReadRecordLast(Line(cells) + t, cells[0], t);
    assert [cells[0]] == cells;
  }

  /** A longer record reads back when the record of its remaining cells does. */
  lemma RecordRoundTripStep(cells: seq<string>, t: string)
    requires |cells| >= 2
    requires ReadRecord(Line(cells[1..]) + t) == (cells[1..], t)
    ensures ReadRecord(Line(cells) + t) == (cells, t)
  {
    var tail := Line(cells[1..]) + t;
    LineStep(cells, t);
    CellRoundTrip(cells[0], "," + tail);
    ReadRecordStep(Line(cells) + t, cells[0], tail);
    assert [cells[0]] + cells[1..] == cells;
  }

  /** The line of a one-cell record is that cell escaped. */
  lemma LineSingle(cells: seq<string>)
    requires |cells| == 1
    ensures Line(cells) == EscapeCell(cells[0])
  {
    assert EscapeCells(cells)[0] == EscapeCell(cells[0]);
  }

  /** The line of a longer record is its first cell escaped, a comma, and the line of the rest. */
  lemma LineStep(cells: seq<string>, t: string)
    requires |cells| >= 2
    ensures Line(cells) + t == EscapeCell(cells[0]) + ("," + (Line(cells[1..]) + t))
  {
    var e := EscapeCells(cells);
    assert EscapeCells(cells[1..]) == e[1..];
    assert Line(cells) == e[0] + "," + JoinCells(e[1..]);
  }

  /** A cell followed by something other than a comma ends the record. */
  lemma ReadRecordLast(s: string, c: string, t: string)
    requires ReadCell(s) == (c, t) && (t == [] || t[0] != ',')
    ensures ReadRecord(s) == ([c], t)
  {
  }

  /** A cell followed by a comma starts a record that continues after the comma. */
  lemma ReadRecordStep(s: string, c: string, tail: string)
    requires ReadCell(s) == (c, "," + tail)
    ensures ReadRecord(s) == ([c] + ReadRecord(tail).0, ReadRecord(tail).1)
  {
    assert ("," + tail)[0] == ',' && ("," + tail)[1..] == tail;
  }

  /** The writer and the reader are inverse: every non-empty table of non-empty records is recovered. */
  lemma {:induction false} WriteThenParse(records: seq<seq<string>>)
    requires |records| >= 1
    requires forall i :: 0 <= i < |records| ==> |records[i]| >= 1
    ensures ParseCsv(Write(records)) == records
    decreases |records|
  {
    if |records| == 1 {
      WriteThenParseSingle(records);
    } else {
      WriteThenParse(records[1..]);
      WriteThenParseStep(records);
    }
  }

  /** A one-record document reads back. */
  lemma WriteThenParseSingle(records: seq<seq<string>>)
    requires |records| == 1 && |records[0]| >= 1
    ensures ParseCsv(Write(records)) == records
  {
    assert Write(records) == Line(records[0]) + "";
    RecordRoundTrip(records[0], "");
    ParseLast(Write(records), records[0]);
    assert [records[0]] == records;
  }

  /** A longer document reads back when the document of its remaining records does. */
  lemma WriteThenParseStep(records: seq<seq<string>>)
    requires |records| >= 2 && |records[0]| >= 1
    requires ParseCsv(Write(records[1..])) == records[1..]
    ensures ParseCsv(Write(records)) == records
  {
    var tail := Write(records[1..]);
    WriteStep(records);
    RecordRoundTrip(records[0], "\n" + tail);
    ParseStep(Write(records), records[0], tail);
    assert [records[0]] + records[1..] == records;
  }

  /** A document of several records is the first line, a line feed, and the document of the rest. */
  lemma WriteStep(records: seq<seq<string>>)
    requires |records| >= 2
    ensures Write(records) == Line(records[0]) + ("\n" + Write(records[1..]))
  {
    var ls := Lines(records);
    assert Lines(records[1..]) == ls[1..];
    assert Write(records) == ls[0] + "\n" + JoinLines(ls[1..]);
  }

  /** A record followed by nothing ends the document. */
  lemma ParseLast(s: string, rec: seq<string>)
    requires ReadRecord(s + "") == (rec, "")
    ensures ParseCsv(s) == [rec]
  {
    assert s + "" == s;
  }

  /** A record followed by a line feed is followed by the records after it. */
  lemma ParseStep(s: string, rec: seq<string>, tail: string)
    requires ReadRecord(s) == (rec, "\n" + tail)
    ensures ParseCsv(s) == [rec] + ParseCsv(tail)
  {
    assert ("\n" + tail)[0] == '\n' && ("\n" + tail)[1..] == tail;
  }
}
