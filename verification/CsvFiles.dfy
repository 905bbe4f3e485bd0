/** Whole files: all records of csv:rows() over an input given line by line. */
module CsvFiles {
  import opened CsvMachine
  import opened CsvPrint
  import opened CsvRow
  import opened CsvRows
  import opened CsvSplit

  /** All rows, and whether the input ended between records. */
  datatype Rows<T> = Rows(rows: seq<T>, whole: bool)

  function AllRows(d: Dialect, lines: seq<string>): Rows<seq<Field>>
    decreases |lines|
  {
    var r := NextRow(d, lines);
    if r.Found? then Behind(r.row, AllRows(d, lines[r.used..])) else Rows([], r.NoMore?)
  }

  function Behind<T>(row: T, r: Rows<T>): Rows<T> {
    Rows([row] + r.rows, r.whole)
  }

  function Tables(rows: seq<seq<Field>>): seq<Table> {
    if rows == [] then [] else [TableOf(rows[0])] + Tables(rows[1..])
  }

  lemma AllRowsFrom(d: Dialect, lines: seq<string>)
    ensures var r, all := NextRow(d, lines), AllRows(d, lines);
            && (r.Found? ==>
                  && Tables(all.rows) == [TableOf(r.row)] + Tables(AllRows(d, lines[r.used..]).rows)
                  && all.whole == AllRows(d, lines[r.used..]).whole)
            && (!r.Found? ==> Tables(all.rows) == [] && all.whole == r.NoMore?)
  {
    hide NextRow, TableOf;
    var r := NextRow(d, lines);
    if r.Found? {
      assert AllRows(d, lines).rows[1..] == AllRows(d, lines[r.used..]).rows;
    }
  }

  /** A loop over csv:rows(): every call goes on behind the lines of the last one. */
  method ReadAll(d: Dialect, lines: seq<string>) returns (r: Rows<Table>)
    requires Usable(d) && NulFreeLines(lines)
    ensures r == Rows(Tables(AllRows(d, lines).rows), AllRows(d, lines).whole)
  {
    hide Usable, TableOf, NextRow, AllRows;
    var tables, at: nat := [], 0;
    assert lines[0..] == lines;
    while true
      invariant at <= |lines|
      invariant tables + Tables(AllRows(d, lines[at..]).rows) == Tables(AllRows(d, lines).rows)
      invariant AllRows(d, lines[at..]).whole == AllRows(d, lines).whole
      decreases |lines| - at
    {
      ghost var rest := lines[at..];
      var next := NextRecord(d, lines[at..]);
      AllRowsFrom(d, rest);
      match next {
        case NoMore => return Rows(tables, true);
        case CutShort => return Rows(tables, false);
        case Found(table, used) =>
          assert rest[used..] == lines[at + used..];
          tables, at := tables + [table], at + used;
      }
    }
  }

  // ---- Files of printed rows ----

  /** A text that a line feed, and nothing before it, makes a complete record with these fields. */
  ghost predicate Completes(d: Dialect, p: string, fs: seq<Field>) {
    var g := FeedAll(d, Begin([]), p + "\n");
    FeedAll(d, Begin([]), p).ste != RecDne && g.ste == RecDne && g.out == fs
  }

  lemma PrintedCompletes(d: Dialect, row: seq<Padded>)
    requires Usable(d) && row != [] && forall p | p in row :: Printable(d, p.cell)
    ensures Completes(d, PrintRow(d, row), Values(row))
  {
    hide FeedAll, PrintRow, Values;
    ParsePrinted(d, row, "");
    assert PrintRow(d, row) + "\n" + "" == PrintRow(d, row) + "\n";
    RowFed(d, row);
  }

  predicate NoneEmpty(rows: seq<seq<Padded>>) {
    forall i | 0 <= i < |rows| :: rows[i] != []
  }

  predicate AllPrintable(d: Dialect, rows: seq<seq<Padded>>) {
    forall i, j | 0 <= i < |rows| && 0 <= j < |rows[i]| :: Printable(d, rows[i][j].cell)
  }

  /** The file: every row with a line feed behind it. */
  function FileOf(d: Dialect, rows: seq<seq<Padded>>): string
    requires NoneEmpty(rows)
  {
    if rows == [] then "" else PrintRow(d, rows[0]) + "\n" + FileOf(d, rows[1..])
  }

  /** The fields of the rows that do not print as an empty line. */
  function RowValues(d: Dialect, rows: seq<seq<Padded>>): seq<seq<Field>>
    requires NoneEmpty(rows)
  {
    if rows == [] then []
    else (if PrintRow(d, rows[0]) == "" then [] else [Values(rows[0])]) + RowValues(d, rows[1..])
  }

  predicate NoBreaks(lines: seq<string>) {
    forall i | 0 <= i < |lines| :: '\n' !in lines[i]
  }

  lemma {:induction false} JoinedConcat(a: seq<string>, b: seq<string>)
    ensures Joined(a + b) == Joined(a) + Joined(b)
  {
    if a == [] {
      assert a + b == b;
    } else {
      assert (a + b)[1..] == a[1..] + b;
      JoinedConcat(a[1..], b);
    }
  }

  lemma JoinedFrom(lines: seq<string>, n: nat)
    requires n <= |lines|
    ensures Joined(lines) == Joined(lines[..n]) + Joined(lines[n..])
  {
    hide Joined;
    assert lines == lines[..n] + lines[n..];
    JoinedConcat(lines[..n], lines[n..]);
  }

  lemma JoinedLast(lines: seq<string>, n: nat)
    requires 0 < n <= |lines|
    ensures Joined(lines[..n]) == Joined(lines[..n - 1]) + lines[n - 1] + "\n"
  {
    hide Joined;
    assert lines[..n] == lines[..n - 1] + [lines[n - 1]];
    JoinedConcat(lines[..n - 1], [lines[n - 1]]);
    JoinedOne(lines[n - 1]);
  }

  lemma JoinedOne(line: string)
    ensures Joined([line]) == line + "\n"
  {
    assert Joined([line]) == line + "\n" + Joined([]);
  }

  /** Once complete, a record stays complete. */
  lemma StaysComplete(d: Dialect, s: string, t: string)
    requires s <= t && FeedAll(d, Begin([]), s).ste == RecDne
    ensures FeedAll(d, Begin([]), t) == FeedAll(d, Begin([]), s)
  {
    hide Feed, FeedAll;
    assert t == s + t[|s|..];
    FeedAllConcat(d, Begin([]), s, t[|s|..]);
    FeedDone(d, FeedAll(d, Begin([]), s), t[|s|..]);
  }

  /** The lines that the next record takes are the lines of the first text. */
  lemma FirstRecord(d: Dialect, p: string, fs: seq<Field>, rest: string, lines: seq<string>)
    requires Usable(d) && Completes(d, p, fs) && p != ""
    requires NoBreaks(lines) && Joined(lines) == p + "\n" + rest
    ensures var r := NextRow(d, lines);
            r.Found? && r.row == fs && Joined(lines[r.used..]) == rest
  {
    hide Feed, FeedAll, NextRow, Joined;
    FirstLine(d, p, fs, rest, lines);
    NextRowIsOneShot(d, lines);
    StaysComplete(d, p + "\n", Joined(lines));
    var u := NextRow(d, lines).used;
    JoinedFrom(lines, u);
    JoinedLast(lines, u);
    var a, line := Joined(lines[..u - 1]), lines[u - 1];
    var taken := a + line + "\n";
    assert taken + Joined(lines[u..]) == p + "\n" + rest;
    assert |taken| > |p| by {
      if |taken| <= |p| {
        Prefix(taken, Joined(lines[u..]), p, "\n" + rest);
        StaysComplete(d, taken, p);
      }
    }
    assert |a| <= |p| by {
      if |a| > |p| {
        Prefix(p + "\n", rest, a, line + "\n" + Joined(lines[u..]));
        StaysComplete(d, p + "\n", a);
      }
    }
    BreakIsLast(p, rest, a, line, Joined(lines[u..]));
  }

  /** The first of two splits of one text is a prefix of the longer first part. */
  lemma Prefix(s: string, s': string, t: string, t': string)
    requires s + s' == t + t' && |s| <= |t|
    ensures s <= t
  {
    assert (s + s')[..|s|] == s;
    assert (t + t')[..|s|] == t[..|s|];
  }

  /** The line feed behind `p` can only be the one that ends the line. */
  lemma BreakIsLast(p: string, rest: string, a: string, line: string, more: string)
    requires '\n' !in line && p + "\n" + rest == a + line + "\n" + more && |a| <= |p| < |a| + |line| + 1
    ensures p == a + line && rest == more
  {
    var s, t := p + "\n" + rest, a + line + "\n" + more;
    var i := |p| - |a|;
    assert s[|p|] == '\n' && t[|a| + i] == (line + "\n")[i];
    OnlyBreak(line, i);
    assert s[..|p|] == p && t[..|a| + |line|] == a + line;
    assert s[|p| + 1..] == rest && t[|a| + |line| + 1..] == more;
  }

  lemma OnlyBreak(line: string, i: nat)
    requires '\n' !in line && i <= |line|
    ensures (line + "\n")[i] == '\n' <==> i == |line|
  {
    if i < |line| {
      assert line[i] in line && (line + "\n")[i] == line[i];
    }
  }

  lemma FirstLine(d: Dialect, p: string, fs: seq<Field>, rest: string, lines: seq<string>)
    requires Usable(d) && Completes(d, p, fs) && p != "" && Joined(lines) == p + "\n" + rest
    ensures lines != [] && lines[0] != ""
  {
    hide Feed, FeedAll;
    if lines[0] == "" {
      assert p[0] == Joined(lines)[0] == '\n';
      BlankCompletes(d);
      StaysComplete(d, "\n", p);
    }
  }

  lemma BlankCompletes(d: Dialect)
    requires Usable(d)
    ensures FeedAll(d, Begin([]), "\n").ste == RecDne
  {
    FeedOne(d, Begin([]), '\n');
  }

  lemma BlankFirst(rest: string, lines: seq<string>)
    requires NoBreaks(lines) && Joined(lines) == "\n" + rest
    ensures lines != [] && lines[0] == "" && Joined(lines[1..]) == rest
  {
    var first, more := lines[0] + "\n", Joined(lines[1..]);
    assert Joined(lines) == first + more;
    assert first[0] == (first + more)[0] == ("\n" + rest)[0];
    OnlyBreak(lines[0], 0);
    assert (first + more)[1..] == more && ("\n" + rest)[1..] == rest;
  }

  /**
    * Reading a file of printed rows line by line, whatever line breaks their texts hold, gives back the fields of
    * all rows in order; only rows that print as an empty line are skipped.
    */
  lemma {:induction false} FileRoundTrip(d: Dialect, rows: seq<seq<Padded>>, lines: seq<string>)
    requires Usable(d) && NoneEmpty(rows) && AllPrintable(d, rows)
    requires NoBreaks(lines) && Joined(lines) == FileOf(d, rows)
    ensures AllRows(d, lines) == Rows(RowValues(d, rows), true)
    decreases |rows|
  {
    hide PrintRow, Values, NextRow, Completes, Usable, Printable;
    if rows == [] {
      NoLines(d, lines);
    } else {
      var row, rest := rows[0], FileOf(d, rows[1..]);
      if PrintRow(d, row) == "" {
        assert FileOf(d, rows) == "\n" + rest;
        BlankFirst(rest, lines);
        SkipBlank(d, lines);
        FileRoundTrip(d, rows[1..], lines[1..]);
      } else {
        PrintedCompletes(d, row);
        FirstRecord(d, PrintRow(d, row), Values(row), rest, lines);
        FileRoundTrip(d, rows[1..], lines[NextRow(d, lines).used..]);
      }
    }
  }

  lemma NoLines(d: Dialect, lines: seq<string>)
    requires Joined(lines) == ""
    ensures AllRows(d, lines) == Rows([], true)
  {
  }

  lemma SkipBlank(d: Dialect, lines: seq<string>)
    requires lines != [] && lines[0] == ""
    ensures AllRows(d, lines) == AllRows(d, lines[1..])
  {
    var r := NextRow(d, lines[1..]);
    if r.Found? {
      assert lines[r.used + 1..] == lines[1..][r.used..];
    }
  }

  // ---- From the file to its lines and back ----

  /** The lines of a file without their line feeds. */
  function LinesOf(s: string): (lines: seq<string>)
    ensures NoBreaks(lines) && (NUL !in s ==> NulFreeLines(lines))
  {
    if s == "" then []
    else
      var more := LinesOf(s[1..]);
      if s[0] == '\n' then [""] + more
      else if more == [] then [[s[0]]]
      else [[s[0]] + more[0]] + more[1..]
  }

  predicate Terminated(s: string) {
    s == "" || s[|s| - 1] == '\n'
  }

  lemma {:induction false} LinesJoined(s: string)
    requires Terminated(s)
    ensures Joined(LinesOf(s)) == s
  {
    if s != "" {
      LinesJoined(s[1..]);
      assert s == [s[0]] + s[1..];
      var more := LinesOf(s[1..]);
      if s[0] == '\n' {
        assert ([""] + more)[1..] == more;
      } else {
        assert LinesOf(s)[1..] == more[1..];
      }
    }
  }

  lemma {:induction false} FileText(d: Dialect, rows: seq<seq<Padded>>)
    requires Usable(d) && NoneEmpty(rows) && forall i | 0 <= i < |rows| :: NulFree(rows[i])
    ensures Terminated(FileOf(d, rows)) && NUL !in FileOf(d, rows)
  {
    hide PrintRow, Usable, NulFree;
    if rows != [] {
      FileText(d, rows[1..]);
      PrintedNulFree(d, rows[0]);
    }
  }

  /** Rows written to a file and read back through csv:rows(). */
  method WriteThenRead(d: Dialect, rows: seq<seq<Padded>>) returns (r: Rows<Table>)
    requires Usable(d) && NoneEmpty(rows) && AllPrintable(d, rows)
    requires forall i | 0 <= i < |rows| :: NulFree(rows[i])
    ensures r == Rows(Tables(RowValues(d, rows)), true)
  {
    FileText(d, rows);
    var lines := LinesOf(FileOf(d, rows));
    LinesJoined(FileOf(d, rows));
    FileRoundTrip(d, rows, lines);
    r := ReadAll(d, lines);
  }

  // ---- The same through Csv.split ----

  lemma {:induction false} JoinJoined(lines: seq<string>)
    requires lines != []
    ensures Joined(lines) == Join(lines, "\n") + "\n"
  {
    if |lines| > 1 {
      JoinJoined(lines[1..]);
    } else {
      JoinedOne(lines[0]);
      assert lines == [lines[0]];
    }
  }

  /** What the joined lines do not hold, no line holds. */
  lemma {:induction false} JoinedWithout(lines: seq<string>, c: char)
    requires c !in Joined(lines)
    ensures forall i | 0 <= i < |lines| :: c !in lines[i]
  {
    if lines != [] {
      var first, more := lines[0] + "\n", Joined(lines[1..]);
      assert forall x | x in first || x in more :: x in first + more;
      assert forall x | x in lines[0] :: x in first;
      JoinedWithout(lines[1..], c);
    }
  }

  /** The tokens between line feeds are lines; behind the last line feed there is one more. */
  lemma SplitIsLines(s: string)
    ensures var lines := Tokens(s, "\n", false, 0);
            NoBreaks(lines) && Joined(lines) == s + "\n" && (NUL !in s ==> NulFreeLines(lines))
  {
    hide Tokens, Joined, Join, Restartable, Contains;
    var lines := Tokens(s, "\n", false, 0);
    SplitConserves(s, "\n", 0);
    assert s[0..] == s;
    JoinJoined(lines);
    UniqueFirst("\n");
    forall i | 0 <= i < |lines|
      ensures '\n' !in lines[i]
    {
      TokensAreFree(s, "\n", 0, i);
      BreakContained(lines[i]);
    }
    if NUL !in s {
      JoinedWithout(lines, NUL);
    }
  }

  lemma BreakContained(s: string)
    ensures '\n' in s ==> Contains(s, "\n")
  {
    if '\n' in s {
      var i :| 0 <= i < |s| && s[i] == '\n';
      assert s[i..i + 1] == "\n" == "\n"[..1];
      assert Ends(s, "\n", i + 1, 1);
    }
  }

  const Blank := Padded(0, Empty, 0)

  /** The text behind the last line feed is one more row, and it prints as nothing. */
  lemma {:induction false} BlankAppended(d: Dialect, rows: seq<seq<Padded>>)
    requires NoneEmpty(rows)
    ensures NoneEmpty(rows + [[Blank]])
    ensures FileOf(d, rows + [[Blank]]) == FileOf(d, rows) + "\n"
    ensures RowValues(d, rows + [[Blank]]) == RowValues(d, rows)
  {
    if rows == [] {
      BlankAlone(d);
    } else {
      hide PrintRow, Values;
      assert (rows + [[Blank]])[1..] == rows[1..] + [[Blank]];
      BlankAppended(d, rows[1..]);
    }
  }

  lemma BlankAlone(d: Dialect)
    ensures FileOf(d, [[Blank]]) == "\n" && RowValues(d, [[Blank]]) == []
  {
    assert PrintRow(d, [Blank]) == "";
    assert [[Blank]][1..] == [];
  }

  lemma BlankPrintable(d: Dialect, rows: seq<seq<Padded>>)
    requires AllPrintable(d, rows)
    ensures AllPrintable(d, rows + [[Blank]])
  {
    assert Printable(d, Blank.cell);
  }

  /** The tokens of a file of printed rows read back as exactly their fields, in order. */
  lemma SplitRoundTrip(d: Dialect, rows: seq<seq<Padded>>)
    requires Usable(d) && NoneEmpty(rows) && AllPrintable(d, rows)
    ensures AllRows(d, Tokens(FileOf(d, rows), "\n", false, 0)) == Rows(RowValues(d, rows), true)
  {
    hide AllRows, Tokens, FileOf, RowValues, Usable, Printable;
    BlankAppended(d, rows);
    BlankPrintable(d, rows);
    SplitIsLines(FileOf(d, rows));
    FileRoundTrip(d, rows + [[Blank]], Tokens(FileOf(d, rows), "\n", false, 0));
  }

  /** Rows written to a text, split by Csv.split at its line feeds and read back through csv:rows(). */
  method WriteSplitRead(d: Dialect, rows: seq<seq<Padded>>) returns (r: Rows<Table>)
    requires Usable(d) && NoneEmpty(rows) && AllPrintable(d, rows)
    requires forall i | 0 <= i < |rows| :: NulFree(rows[i])
    ensures r == Rows(Tables(RowValues(d, rows)), true)
  {
    hide AllRows, Tokens, FileOf, RowValues, Usable, Printable, NulFree, Tables, NulFreeLines, NoBreaks;
    FileText(d, rows);
    SplitIsLines(FileOf(d, rows));
    SplitRoundTrip(d, rows);
    var lines := SplitAll(FileOf(d, rows), "\n", false);
    r := ReadAll(d, lines);
  }
}
