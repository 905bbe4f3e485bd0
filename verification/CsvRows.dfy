/** Whole records: printing and parsing through parseLine, and the record iterator of csv:rows(). */
module CsvRows {
  import opened CsvMachine
  import opened CsvPrint
  import opened CsvRow

  lemma {:induction false} CStringWhole(line: string)
    requires NUL !in line
    ensures CString(line) == line
  {
    if line != "" {
      CStringWhole(line[1..]);
      assert line == [line[0]] + line[1..];
    }
  }

  // ---- Round trip ----

  ghost predicate NulFree(row: seq<Padded>) {
    forall p | p in row && !p.cell.Empty? :: NUL !in p.cell.text
  }

  lemma {:induction false} DoubleNulFree(s: string, q: char)
    requires NUL !in s && q != NUL
    ensures NUL !in Double(s, q)
    decreases |s|
  {
    if s != "" {
      DoubleNulFree(s[..|s| - 1], q);
    }
  }

  lemma PaddedNulFree(d: Dialect, p: Padded)
    requires d.qte != NUL && (!p.cell.Empty? ==> NUL !in p.cell.text)
    ensures NUL !in PrintPadded(d, p)
  {
    hide Double, Spaces;
    AllSpaces(p.lead);
    AllSpaces(p.trail);
    if p.cell.Quoted? {
      DoubleNulFree(p.cell.text, d.qte);
    }
  }

  lemma {:induction false} PrintedNulFree(d: Dialect, row: seq<Padded>)
    requires Usable(d) && row != [] && NulFree(row)
    ensures NUL !in PrintRow(d, row) && |Values(row)| == |row|
    decreases |row|
  {
    var n := |row| - 1;
    var p := row[n];
    assert d.dlm != NUL;
    PaddedNulFree(d, p);
    hide PrintPadded, Usable;
    if n == 0 {
      assert Values(row) == Values(row[..0]) + [Value(p.cell)];
    } else {
      PrintedNulFree(d, row[..n]);
    }
  }

  /** Printing a row and parsing the line gives back the fields: at the indices behind `count`, and counted. */
  method PrintThenParse(d: Dialect, row: seq<Padded>, tbl: Table, count: int)
    returns (complete: bool, cnt: int, table: Table)
    requires Usable(d) && row != [] && NulFree(row) && forall p | p in row :: Printable(d, p.cell)
    ensures complete && cnt == count + |row| && table == Fill(tbl, count, Values(row))
  {
    hide FeedAll, PrintRow, Values, Fill;
    var line := PrintRow(d, row) + "\n";
    PrintedNulFree(d, row);
    CStringWhole(line);
    ParsePrinted(d, row, "");
    assert line + "" == line;
    var tail;
    complete, tail, cnt, table := ParseLine(d, line, tbl, count);
  }

  // ---- The record iterator ----

  /** The next row and the lines it took, the end of the input, or an end inside a record. */
  datatype Reading<T> = Found(row: T, used: nat) | NoMore | CutShort

  /** Blank lines between records are skipped; a record goes on over as many lines as it takes. */
  function NextRow(d: Dialect, lines: seq<string>): (r: Reading<seq<Field>>)
    ensures r.Found? ==> 0 < r.used <= |lines|
  {
    if lines == [] then NoMore
    else if lines[0] == "" then More(NextRow(d, lines[1..]), 1)
    else Outcome(ReadRecord(d, [], "", lines))
  }

  function Outcome(r: Record): Reading<seq<Field>> {
    if r.done then Found(r.fields, r.used) else CutShort
  }

  /** `n` lines have gone before. */
  function More<T>(r: Reading<T>, n: nat): Reading<T> {
    if r.Found? then Found(r.row, r.used + n) else r
  }

  /**
    * Behind the blank lines, the next record is what parsing all remaining lines at once gives, and it takes the
    * fewest lines.
    */
  lemma NextRowIsOneShot(d: Dialect, lines: seq<string>)
    requires lines != [] && lines[0] != ""
    ensures var g, r := FeedAll(d, Begin([]), Joined(lines)), NextRow(d, lines);
            && (g.ste == RecDne <==> r.Found?) && (g.ste != RecDne <==> r == CutShort)
            && (r.Found? ==>
                  && r.row == g.out
                  && FeedAll(d, Begin([]), Joined(lines[..r.used])).ste == RecDne
                  && FeedAll(d, Begin([]), Joined(lines[..r.used - 1])).ste != RecDne)
  {
    hide Feed, Joined;
    ReadRecordIsOneShot(d, [], "", lines);
    ReadRecordUses(d, [], "", lines);
    assert "" + Joined(lines) == Joined(lines);
    assert FeedAll(d, Begin([]), "") == Begin([]);
    var r := ReadRecord(d, [], "", lines);
    if r.done {
      assert "" + Joined(lines[..r.used]) == Joined(lines[..r.used]);
      assert "" + Joined(lines[..r.used - 1]) == Joined(lines[..r.used - 1]);
    }
  }

  /** The text handed back is made of characters that were read, and there is some after an unfinished line. */
  lemma {:induction false} TailIsText(d: Dialect, s: string)
    ensures NUL !in s ==> NUL !in FeedAll(d, Begin([]), s).fld
    ensures FeedAll(d, Begin([]), s).ste != FldBeg ==> FeedAll(d, Begin([]), s).fld != ""
    decreases |s|
  {
    if s != "" {
      TailIsText(d, s[..|s| - 1]);
      FeedFld(d, FeedAll(d, Begin([]), s[..|s| - 1]), s[|s| - 1]);
    }
  }

  lemma FeedFld(d: Dialect, g: Config, c: char)
    requires InField(g)
    ensures var h := Feed(d, g, c);
            h.fld == "" || h.fld == g.fld || h.fld == [c] || h.fld == g.fld + [c]
    ensures (g.ste != FldBeg ==> g.fld != "") ==> (Feed(d, g, c).ste != FldBeg ==> Feed(d, g, c).fld != "")
  {
  }

  lemma LineEndsInside(d: Dialect, g: Config)
    requires Usable(d) && InField(g)
    ensures Feed(d, g, '\n').ste != FldBeg
  {
  }

  /** What an unfinished line leaves to put in front of the next one. */
  lemma TailOfLine(d: Dialect, line: string)
    requires Usable(d) && NUL !in line
    ensures CString(line + "\n") == line + "\n"
    ensures var g := FeedAll(d, Begin([]), line + "\n");
            g.ste != RecDne ==> Tail(g) != "" && NUL !in Tail(g)
  {
    hide Feed;
    CStringWhole(line + "\n");
    TailIsText(d, line + "\n");
    assert (line + "\n")[..|line|] == line;
    LineEndsInside(d, FeedAll(d, Begin([]), line));
  }

  /** A row as the table that the caller sees. */
  function TableOf(fs: seq<Field>): Table {
    Fill(map[], 0, fs)
  }

  function AsTable(r: Reading<seq<Field>>): Reading<Table> {
    match r
    case Found(fs, used) => Found(TableOf(fs), used)
    case NoMore => NoMore
    case CutShort => CutShort
  }

  /** The next parseLine call fills on where the last one stopped. */
  lemma FillOn(fs: seq<Field>, more: seq<Field>)
    ensures Fill(TableOf(fs), |fs|, more) == TableOf(fs + more)
  {
    hide Fill;
    FillConcat(map[], 0, fs, more);
  }

  lemma EmptyTables()
    ensures TableOf([]) == map[] && TableOf([Null]) == map[]
  {
    assert [Null][..0] == [];
  }

  ghost predicate NulFreeLines(lines: seq<string>) {
    forall i | 0 <= i < |lines| :: NUL !in lines[i]
  }

  /** Where the iterator stands: `line` is the last of the `used` fetched lines behind the text that was handed back. */
  ghost predicate Stands(d: Dialect, lines: seq<string>, used: nat, line: string, pending: string, fields: seq<Field>) {
    && 1 <= used <= |lines| && line == pending + lines[used - 1] && NUL !in line
    && var rest := lines[used - 1..];
       if pending == "" then fields == [] && More(NextRow(d, rest), used - 1) == NextRow(d, lines)
       else More(Outcome(ReadRecord(d, fields, pending, rest)), used - 1) == NextRow(d, lines)
  }

  lemma StandsFirst(d: Dialect, lines: seq<string>)
    requires lines != [] && NulFreeLines(lines)
    ensures Stands(d, lines, 1, lines[0], "", [])
  {
    hide NextRow;
    assert lines[0..] == lines && "" + lines[0] == lines[0];
  }

  lemma StandsOn(d: Dialect, lines: seq<string>, used: nat, line: string, pending: string, fields: seq<Field>)
    requires Stands(d, lines, used, line, pending, fields)
    ensures 1 <= used <= |lines| && NUL !in line && (pending == "" ==> fields == [])
  {
  }

  /** The loop passes over an empty line. */
  lemma StandsBlank(d: Dialect, lines: seq<string>, used: nat, pending: string, fields: seq<Field>)
    requires Stands(d, lines, used, "", pending, fields) && NulFreeLines(lines)
    ensures pending == ""
    ensures if used == |lines| then NextRow(d, lines) == NoMore else Stands(d, lines, used + 1, lines[used], "", [])
  {
    assert |pending + lines[used - 1]| == 0;
    assert lines[used - 1..][1..] == lines[used..];
    if used < |lines| {
      assert "" + lines[used] == lines[used];
    }
  }

  /** A complete line ends the record; the record of an unfinished one goes on with the next line, if there is one. */
  lemma StandsLine(d: Dialect, lines: seq<string>, used: nat, line: string, pending: string, fields: seq<Field>)
    requires Usable(d) && Stands(d, lines, used, line, pending, fields) && line != "" && NulFreeLines(lines)
    ensures var g := FeedAll(d, Begin([]), line + "\n");
            if g.ste == RecDne then NextRow(d, lines) == Found(fields + g.out, used)
            else if used == |lines| then NextRow(d, lines) == CutShort
            else Stands(d, lines, used + 1, Tail(g) + lines[used], Tail(g), fields + g.out)
  {
    TailOfLine(d, line);
    hide FeedAll, Tail, Usable;
    var rest := lines[used - 1..];
    assert rest[0] == lines[used - 1] && rest[1..] == lines[used..];
    assert "" + rest[0] == rest[0];
  }

  lemma Converted()
    ensures AsTable(NoMore) == NoMore && AsTable(CutShort) == CutShort
    ensures forall fs, n :: AsTable(Found(fs, n)) == Found(TableOf(fs), n)
  {
    hide TableOf;
  }

  /** The parseLine call of the iterator, for the part of a record behind `fields`. */
  method ParsePart(d: Dialect, line: string, tbl: Table, count: int, ghost fields: seq<Field>)
    returns (rowdone: bool, field: string, fldCnt: int, parsed: Table)
    requires Usable(d) && NUL !in line && tbl == TableOf(fields) && count == |fields|
    ensures var g := FeedAll(d, Begin([]), line + "\n");
            && rowdone == (g.ste == RecDne) && (!rowdone ==> field == Tail(g) && field != "" && NUL !in field)
            && fldCnt == |fields + g.out| && parsed == TableOf(fields + g.out)
  {
    assert NotNul(d);
    hide *;
    TailOfLine(d, line);
    FillOn(fields, FeedAll(d, Begin([]), line + "\n").out);
    rowdone, field, fldCnt, parsed := ParseLine(d, line + "\n", tbl, count);
  }

  /**
    * The iterator function of csv:rows() up to its next result. The count handed back by parseLine is where the
    * next part of a record goes in the table; running out of lines inside a record is an error there.
    */
  method NextRecord(d: Dialect, lines: seq<string>) returns (r: Reading<Table>)
    requires Usable(d) && NulFreeLines(lines)
    ensures r == AsTable(NextRow(d, lines))
  {
    if lines == [] {
      return NoMore;
    }
    hide *;
    Converted();
    StandsFirst(d, lines);
    EmptyTables();
    var parsed, rowdone, fldCnt := map[], true, 0;
    var line, used := lines[0], 1;
    ghost var pending, fields := "", [];
    while true
      invariant Stands(d, lines, used, line, pending, fields)
      invariant rowdone == (pending == "") && parsed == TableOf(fields) && (!rowdone ==> fldCnt == |fields|)
      decreases |lines| - used
    {
      StandsOn(d, lines, used, line, pending, fields);
      ghost var g := FeedAll(d, Begin([]), line + "\n");
      var field;
      rowdone, field, fldCnt, parsed := ParsePart(d, line, parsed, if rowdone then 0 else fldCnt, fields);
      if line == "" {
        BlankLine(d);
        StandsBlank(d, lines, used, pending, fields);
        if used == |lines| {
          return NoMore;
        }
        line := lines[used];
      } else {
        StandsLine(d, lines, used, line, pending, fields);
        if rowdone {
          return Found(parsed, used);
        }
        if used == |lines| {
          return CutShort;
        }
        line, pending, fields := field + lines[used], field, fields + g.out;
      }
      used := used + 1;
    }
  }

  /** A blank line is one null field: it leaves no trace in the table. */
  lemma BlankLine(d: Dialect)
    requires Usable(d)
    ensures FeedAll(d, Begin([]), "" + "\n") == Done("\n", [Null]) && TableOf([] + [Null]) == map[] == TableOf([])
  {
    FeedOne(d, Begin([]), '\n');
    EmptyTables();
    assert "" + "\n" == "\n";
    assert [] + [Null] == [Null];
  }
}
