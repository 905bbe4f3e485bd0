/** Printing rows and parsing them back. */
module CsvPrint {
  import opened CsvMachine

  /** A field as a writer puts it down: nothing, its bare text, or its text in quotes. */
  datatype Cell = Empty | Bare(text: string) | Quoted(text: string)

  /** A cell with spaces around it. */
  datatype Padded = Padded(lead: nat, cell: Cell, trail: nat)

  predicate Printable(d: Dialect, c: Cell) {
    c.Bare? ==>
      && c.text != "" && c.text[0] != d.qte && c.text[0] != ' ' && c.text[|c.text| - 1] != ' '
      && d.dlm !in c.text && '\n' !in c.text
  }

  function Print(d: Dialect, c: Cell): string {
    match c
    case Empty => ""
    case Bare(t) => t
    case Quoted(t) => [d.qte] + Double(t, d.qte) + [d.qte]
  }

  function PrintPadded(d: Dialect, p: Padded): string {
    Spaces(p.lead) + Print(d, p.cell) + Spaces(p.trail)
  }

  /** The cells with a delimiter in front of each but the first. */
  function PrintRow(d: Dialect, row: seq<Padded>): string
    requires row != []
  {
    if |row| == 1 then PrintPadded(d, row[0])
    else PrintRow(d, row[..|row| - 1]) + [d.dlm] + PrintPadded(d, row[|row| - 1])
  }

  /** What a cell stands for; carriage returns at the end of a text do not survive. */
  function Value(c: Cell): Field {
    match c
    case Empty => Null
    case Bare(t) => Text(StripCr(t))
    case Quoted(t) => Text(StripCr(t))
  }

  function Values(row: seq<Padded>): seq<Field> {
    if row == [] then [] else Values(row[..|row| - 1]) + [Value(row[|row| - 1].cell)]
  }

  // ---- Doubling and halving quotes ----

  lemma {:induction false} DoubleConcat(a: string, b: string, q: char)
    ensures Double(a + b, q) == Double(a, q) + Double(b, q)
    decreases |b|
  {
    if b == "" {
      assert a + b == a;
    } else {
      assert (a + b)[..|a + b| - 1] == a + b[..|b| - 1];
      DoubleConcat(a, b[..|b| - 1], q);
    }
  }

  lemma DoubleOne(c: char, q: char)
    ensures Double([c], q) == if c == q then [q, q] else [c]
  {
    assert [c][..0] == "";
    assert Double("", q) == "";
  }

  /** Halving undoes doubling, with a single quote behind it or not. */
  lemma {:induction false} HalveDouble(s: string, q: char, rest: string)
    requires q !in rest || (|rest| > 0 && rest[0] == q && q !in rest[1..])
    ensures Halve(Double(s, q) + rest, q) == s + rest
    decreases |s|
  {
    if s == "" {
      HalveKeeps(rest, q);
      assert Double(s, q) + rest == rest == s + rest;
    } else {
      assert s == [s[0]] + s[1..];
      DoubleConcat([s[0]], s[1..], q);
      DoubleOne(s[0], q);
      HalveDouble(s[1..], q, rest);
      var more := Double(s[1..], q) + rest;
      assert Double(s, q) + rest == Double([s[0]], q) + more;
      if s[0] == q {
        assert ([q, q] + more)[2..] == more;
      } else {
        assert ([s[0]] + more)[1..] == more;
        HalveCons(s[0], more, q);
      }
    }
  }

  lemma HalveCons(c: char, s: string, q: char)
    requires c != q
    ensures Halve([c] + s, q) == [c] + Halve(s, q)
  {
    assert ([c] + s)[1..] == s;
  }

  lemma {:induction false} HalveKeeps(s: string, q: char)
    requires q !in s || (|s| > 0 && s[0] == q && q !in s[1..])
    ensures Halve(s, q) == s
    decreases |s|
  {
    if |s| >= 2 {
      assert s == [s[0]] + s[1..];
      HalveKeeps(s[1..], q);
    }
  }

  function Run(n: nat, q: char): string {
    if n == 0 then "" else [q] + Run(n - 1, q)
  }

  /** Of a run of quotes every second one goes, and a single one at its end stays. */
  lemma {:induction false} HalveRun(n: nat, s: string, q: char)
    requires s == "" || s[0] != q
    ensures Halve(Run(n, q) + s, q) == Run((n + 1) / 2, q) + Halve(s, q)
    decreases n
  {
    hide Halve;
    if n == 0 {
      assert Run(0, q) + s == s;
    } else if n == 1 {
      HalveOne(s, q);
      assert Run(1, q) == [q];
    } else {
      var more := Run(n - 2, q) + s;
      assert Run(n, q) + s == [q, q] + more;
      HalveTwo(more, q);
      HalveRun(n - 2, s, q);
      assert Run((n + 1) / 2, q) == [q] + Run((n - 1) / 2, q);
    }
  }

  lemma HalveOne(s: string, q: char)
    requires s == "" || s[0] != q
    ensures Halve([q] + s, q) == [q] + Halve(s, q)
  {
    assert ([q] + s)[1..] == s;
  }

  lemma HalveTwo(s: string, q: char)
    ensures Halve([q, q] + s, q) == [q] + Halve(s, q)
  {
    assert ([q, q] + s)[2..] == s;
  }

  lemma {:induction false} DoubleStrips(s: string, q: char)
    requires q != '\r'
    ensures StripCr(Double(s, q)) == Double(StripCr(s), q)
    decreases |s|
  {
    if s != "" && s[|s| - 1] == '\r' {
      DoubleStrips(s[..|s| - 1], q);
      var more := Double(s[..|s| - 1], q);
      assert Double(s, q)[..|Double(s, q)| - 1] == more;
    }
  }

  lemma {:induction false} DoublePlain(s: string, q: char)
    requires q !in s
    ensures Double(s, q) == s
    decreases |s|
  {
    if s != "" {
      DoublePlain(s[..|s| - 1], q);
    }
  }

  lemma StripKeepsQuotes(s: string, q: char)
    requires q != '\r'
    ensures q in StripCr(s) <==> q in s
  {
  }

  /** Whether or not a quote was seen, the raw text of a quoted field becomes its text. */
  lemma PushedIsText(d: Dialect, t: string, seen: string)
    requires Usable(d) && Double(t, d.qte) <= seen
    ensures Pushed(d, seen, |Double(t, d.qte)|, d.qte in t) == Text(StripCr(t))
  {
    hide Halve, StripCr, Double;
    assert seen[..|Double(t, d.qte)|] == Double(t, d.qte);
    DoubleStrips(t, d.qte);
    var kept := StripCr(t);
    StripKeepsQuotes(t, d.qte);
    if d.qte in t {
      HalveDouble(kept, d.qte, "");
      assert Double(kept, d.qte) + "" == Double(kept, d.qte) && kept + "" == kept;
    } else {
      DoublePlain(kept, d.qte);
    }
  }

  // ---- One field ----

  lemma {:induction false} LeadingSpaces(d: Dialect, out: seq<Field>, n: nat)
    requires Usable(d)
    ensures FeedAll(d, Begin(out), Spaces(n)) == Begin(out)
  {
    if n > 0 {
      LeadingSpaces(d, out, n - 1);
      hide FeedAll;
      FeedAllConcat(d, Begin(out), Spaces(n - 1), " ");
      FeedOne(d, Begin(out), ' ');
      assert Spaces(n)[..|Spaces(n)| - 1] == Spaces(n - 1);
    }
  }

  /** The index of the last character that is no space. */
  function Ink(s: string): (i: nat)
    requires s != ""
    ensures i < |s|
  {
    if |s| == 1 then 0 else if s[|s| - 1] != ' ' then |s| - 1 else Ink(s[..|s| - 1])
  }

  lemma NakedStep(d: Dialect, g: Config, c: char)
    requires InField(g) && g.ste == DatNkd && !EndsField(d, c)
    ensures Feed(d, g, c)
            == Config(DatNkd, g.seen + [c], if c == ' ' then g.len else |g.seen|, g.hdb, g.fld + [c], g.out)
  {
  }

  lemma {:induction false} BareFed(d: Dialect, out: seq<Field>, s: string)
    requires Usable(d) && s != "" && s[0] != d.qte && s[0] != ' ' && d.dlm !in s && '\n' !in s
    ensures FeedAll(d, Begin(out), s) == Config(DatNkd, s, Ink(s), false, s, out)
    decreases |s|
  {
    hide Feed, FeedAll;
    if |s| == 1 {
      assert s == [s[0]];
      FeedOne(d, Begin(out), s[0]);
      NakedFirst(d, out, s[0]);
    } else {
      var init, c := s[..|s| - 1], s[|s| - 1];
      assert s == init + [c];
      BareFed(d, out, init);
      FeedAllConcat(d, Begin(out), init, [c]);
      FeedOne(d, FeedAll(d, Begin(out), init), c);
      NakedStep(d, FeedAll(d, Begin(out), init), c);
    }
  }

  lemma NakedFirst(d: Dialect, out: seq<Field>, c: char)
    requires c != d.qte && c != ' ' && !EndsField(d, c)
    ensures Feed(d, Begin(out), c) == Config(DatNkd, [c], 0, false, [c], out)
  {
  }

  lemma {:induction false} InkOfPadded(t: string, n: nat)
    requires t != "" && t[|t| - 1] != ' '
    ensures Ink(t + Spaces(n)) == |t| - 1
  {
    if n == 0 {
      assert t + Spaces(0) == t;
    } else {
      InkOfPadded(t, n - 1);
      assert (t + Spaces(n))[..|t + Spaces(n)| - 1] == t + Spaces(n - 1);
    }
  }

  lemma {:induction false} AllSpaces(n: nat)
    ensures |Spaces(n)| == n && forall i | 0 <= i < n :: Spaces(n)[i] == ' '
  {
    if n > 0 {
      AllSpaces(n - 1);
    }
  }

  /** Inside the quotes: after the opening quote and part of the doubled text. */
  ghost predicate Inside(d: Dialect, g: Config, out: seq<Field>, p: string)
    requires p != ""
  {
    && InField(g)
    && g.seen == Double(p, d.qte) && g.fld == [d.qte] + Double(p, d.qte) && g.out == out
    && (if p[|p| - 1] == d.qte then g.ste == QteTwo else g.ste == DatQte && g.hdb == (d.qte in p))
  }

  lemma {:induction false} QuotedFed(d: Dialect, out: seq<Field>, p: string)
    requires Usable(d) && p != ""
    ensures Inside(d, FeedAll(d, Begin(out), [d.qte] + Double(p, d.qte)), out, p)
    decreases |p|
  {
    hide Feed, Inside;
    var q, n := d.qte, |p| - 1;
    var c := p[n];
    var dbl := if c == q then [q, q] else [c];
    var before := [q] + Double(p[..n], q);
    assert [q] + Double(p, q) == before + dbl;
    FeedAllConcat(d, Begin(out), before, dbl);
    var g := FeedAll(d, Begin(out), before);
    FeedDouble(d, g, c);
    if n == 0 {
      assert before == [q] && p == [c];
      FeedOne(d, Begin(out), q);
      InsideFirst(d, out, c);
    } else {
      QuotedFed(d, out, p[..n]);
      assert p == p[..n] + [c];
      InsideNext(d, g, out, p[..n], c);
    }
  }

  lemma InsideFirst(d: Dialect, out: seq<Field>, c: char)
    requires Usable(d)
    ensures var g := Feed(d, Begin(out), d.qte);
            Inside(d, if c == d.qte then Feed(d, Feed(d, g, c), c) else Feed(d, g, c), out, [c])
  {
    DoubleOne(c, d.qte);
  }

  lemma InsideNext(d: Dialect, g: Config, out: seq<Field>, p: string, c: char)
    requires Usable(d) && p != "" && Inside(d, g, out, p)
    ensures Inside(d, if c == d.qte then Feed(d, Feed(d, g, c), c) else Feed(d, g, c), out, p + [c])
  {
    DoubleConcat(p, [c], d.qte);
    DoubleOne(c, d.qte);
    hide Double;
    if c == d.qte {
      assert g.seen + [c] + [c] == g.seen + [c, c] && g.fld + [c] + [c] == [d.qte] + (g.seen + [c, c]);
    }
  }

  lemma FeedDouble(d: Dialect, g: Config, c: char)
    requires InField(g)
    ensures FeedAll(d, g, if c == d.qte then [d.qte, d.qte] else [c])
         == if c == d.qte then Feed(d, Feed(d, g, c), c) else Feed(d, g, c)
  {
    FeedOne(d, g, c);
    if c == d.qte {
      assert [c, c] == [c] + [c];
      FeedAllConcat(d, g, [c], [c]);
      FeedOne(d, Feed(d, g, c), c);
    }
  }

  /** Behind the closing quote: everything but the text has been put aside. */
  lemma QuoteClosed(d: Dialect, out: seq<Field>, t: string)
    requires Usable(d) && t != ""
    ensures FeedAll(d, Begin(out), [d.qte] + Double(t, d.qte) + [d.qte])
         == Config(QteOne, Double(t, d.qte) + [d.qte], |Double(t, d.qte)|, d.qte in t,
                   [d.qte] + Double(t, d.qte) + [d.qte], out)
  {
    QuotedFed(d, out, t);
    var before := [d.qte] + Double(t, d.qte);
    FeedAllConcat(d, Begin(out), before, [d.qte]);
    FeedOne(d, FeedAll(d, Begin(out), before), d.qte);
  }

  lemma EmptyQuotes(d: Dialect, out: seq<Field>)
    requires Usable(d)
    ensures FeedAll(d, Begin(out), [d.qte] + Double("", d.qte) + [d.qte])
         == Config(Qte2nd, [d.qte], 0, false, [d.qte, d.qte], out)
  {
    var q := d.qte;
    FeedOne(d, Begin(out), q);
    FeedAllConcat(d, Begin(out), [q], [q]);
    FeedOne(d, Feed(d, Begin(out), q), q);
    assert [q] + Double("", q) + [q] == [q] + [q] == [q, q];
  }

  /** Spaces behind a closing quote change nothing that is pushed. */
  lemma {:induction false} TrailingSpaces(d: Dialect, g: Config, n: nat)
    requires Usable(d) && InField(g) && (g.ste == QteOne || g.ste == Qte2nd)
    ensures FeedAll(d, g, Spaces(n)) == Config(g.ste, g.seen + Spaces(n), g.len, g.hdb, g.fld + Spaces(n), g.out)
    decreases n
  {
    if n == 0 {
      assert g.seen + "" == g.seen && g.fld + "" == g.fld;
    } else {
      TrailingSpaces(d, g, n - 1);
      assert Spaces(n)[..|Spaces(n)| - 1] == Spaces(n - 1);
      assert g.seen + Spaces(n - 1) + " " == g.seen + Spaces(n);
      assert g.fld + Spaces(n - 1) + " " == g.fld + Spaces(n);
    }
  }

  /** The next delimiter pushes `v`, and so does the next line feed. */
  ghost predicate EndsAs(d: Dialect, g: Config, out: seq<Field>, v: Field) {
    && InField(g)
    && Feed(d, g, d.dlm) == Begin(out + [v])
    && Feed(d, g, '\n') == Done(Tail(g) + "\n", out + [v])
  }

  lemma CellFed(d: Dialect, out: seq<Field>, c: Cell, trail: nat)
    requires Usable(d) && Printable(d, c)
    ensures EndsAs(d, FeedAll(d, Begin(out), Print(d, c) + Spaces(trail)), out, Value(c))
  {
    match c {
      case Empty =>
        assert Print(d, c) + Spaces(trail) == Spaces(trail);
        LeadingSpaces(d, out, trail);
      case Bare(t) =>
        BareEnds(d, out, t, trail);
      case Quoted(t) =>
        FeedAllConcat(d, Begin(out), Print(d, c), Spaces(trail));
        QuotedEnds(d, out, t, trail);
    }
  }

  lemma BareEnds(d: Dialect, out: seq<Field>, t: string, trail: nat)
    requires Usable(d) && Printable(d, Bare(t))
    ensures EndsAs(d, FeedAll(d, Begin(out), t + Spaces(trail)), out, Text(StripCr(t)))
  {
    AllSpaces(trail);
    BareFed(d, out, t + Spaces(trail));
    InkOfPadded(t, trail);
    assert (t + Spaces(trail))[..|t|] == t;
  }

  lemma QuotedEnds(d: Dialect, out: seq<Field>, t: string, trail: nat)
    requires Usable(d)
    ensures EndsAs(d, FeedAll(d, FeedAll(d, Begin(out), Print(d, Quoted(t))), Spaces(trail)), out, Text(StripCr(t)))
  {
    hide Double, StripCr, Halve, Spaces, Feed, EndsAs, Pushed;
    var closed := FeedAll(d, Begin(out), Print(d, Quoted(t)));
    if t == "" {
      EmptyQuotes(d, out);
      PushedNothing(d, [d.qte] + Spaces(trail));
    } else {
      QuoteClosed(d, out, t);
      PushedIsText(d, t, Double(t, d.qte) + [d.qte] + Spaces(trail));
    }
    TrailingSpaces(d, closed, trail);
    QuoteEnds(d, FeedAll(d, closed, Spaces(trail)));
  }

  lemma PushedNothing(d: Dialect, seen: string)
    ensures Pushed(d, seen, 0, false) == Text(StripCr(""))
  {
    assert seen[..0] == "";
  }

  lemma QuoteEnds(d: Dialect, g: Config)
    requires Usable(d) && InField(g) && (g.ste == QteOne || g.ste == Qte2nd)
    ensures EndsAs(d, g, g.out, Pushed(d, g.seen, g.len, g.hdb))
  {
  }

  // ---- Rows ----

  lemma PaddedFed(d: Dialect, out: seq<Field>, p: Padded)
    requires Usable(d) && Printable(d, p.cell)
    ensures EndsAs(d, FeedAll(d, Begin(out), PrintPadded(d, p)), out, Value(p.cell))
  {
    hide Feed, EndsAs;
    var rest := Print(d, p.cell) + Spaces(p.trail);
    assert PrintPadded(d, p) == Spaces(p.lead) + rest;
    FeedAllConcat(d, Begin(out), Spaces(p.lead), rest);
    LeadingSpaces(d, out, p.lead);
    CellFed(d, out, p.cell, p.trail);
  }

  lemma {:induction false} RowFed(d: Dialect, row: seq<Padded>)
    requires Usable(d) && row != [] && forall p | p in row :: Printable(d, p.cell)
    ensures EndsAs(d, FeedAll(d, Begin([]), PrintRow(d, row)), Values(row[..|row| - 1]), Value(row[|row| - 1].cell))
    decreases |row|
  {
    hide Feed;
    var n := |row| - 1;
    if n == 0 {
      PaddedFed(d, [], row[0]);
    } else {
      var init := row[..n];
      RowFed(d, init);
      var g := FeedAll(d, Begin([]), PrintRow(d, init));
      FeedAllConcat(d, Begin([]), PrintRow(d, init), [d.dlm]);
      FeedOne(d, g, d.dlm);
      FeedAllConcat(d, Begin([]), PrintRow(d, init) + [d.dlm], PrintPadded(d, row[n]));
      PaddedFed(d, Values(init), row[n]);
    }
  }

  /**
    * Parsing undoes printing: a printed row with a line feed is complete and gives back its fields,
    * whatever follows. Null fields, empty texts, doubled quotes, embedded delimiters and line feeds survive.
    */
  lemma ParsePrinted(d: Dialect, row: seq<Padded>, rest: string)
    requires Usable(d) && row != [] && forall p | p in row :: Printable(d, p.cell)
    ensures var g := FeedAll(d, Begin([]), PrintRow(d, row) + "\n" + rest);
            g.ste == RecDne && g.out == Values(row)
  {
    hide Feed;
    RowFed(d, row);
    var g := FeedAll(d, Begin([]), PrintRow(d, row));
    FeedAllConcat(d, Begin([]), PrintRow(d, row), "\n");
    FeedOne(d, g, '\n');
    FeedAllConcat(d, Begin([]), PrintRow(d, row) + "\n", rest);
    FeedDone(d, FeedAll(d, Begin([]), PrintRow(d, row) + "\n"), rest);
  }

  /** A text comes back unchanged if and only if it does not end in a carriage return. */
  lemma ValueIsText(c: Cell)
    requires !c.Empty?
    ensures Value(c) == Text(c.text) <==> (c.text == "" || c.text[|c.text| - 1] != '\r')
  {
  }

  // ---- Lines that end in CR LF ----

  /** What becomes of the last cell of a line that ends in CR LF. */
  function CrlfValue(d: Dialect, c: Cell, trail: nat): Field {
    match c
    case Empty => Text("")
    case Bare(t) => Text(StripCr(t + Spaces(trail)))
    case Quoted(t) => Text(if t == "" then "" else t + [d.qte] + Spaces(trail))
  }

  /** The cell, its padding and the carriage return have been read; the line feed is next. */
  ghost predicate EndsLine(d: Dialect, g: Config, out: seq<Field>, v: Field) {
    InField(g) && Feed(d, g, '\n').ste == RecDne && Feed(d, g, '\n').out == out + [v]
  }

  lemma CrlfCell(d: Dialect, out: seq<Field>, c: Cell, trail: nat)
    requires Usable(d) && Printable(d, c) && d.dlm != '\r'
    ensures EndsLine(d, FeedAll(d, Begin(out), Print(d, c) + Spaces(trail) + "\r"), out, CrlfValue(d, c, trail))
  {
    hide Feed, EndsLine, Double, StripCr;
    match c {
      case Empty =>
        assert Print(d, c) + Spaces(trail) == Spaces(trail);
        LeadingSpaces(d, out, trail);
        FeedAllConcat(d, Begin(out), Spaces(trail), "\r");
        FeedOne(d, Begin(out), '\r');
        CrlfEmpty(d, out);
      case Bare(t) =>
        CrlfBare(d, out, t, trail);
      case Quoted(t) =>
        var printed := Print(d, c);
        FeedAllConcat(d, Begin(out), printed, Spaces(trail));
        FeedAllConcat(d, Begin(out), printed + Spaces(trail), "\r");
        FeedOne(d, FeedAll(d, Begin(out), printed + Spaces(trail)), '\r');
        CrlfQuoted(d, out, t, trail);
    }
  }

  lemma CrlfEmpty(d: Dialect, out: seq<Field>)
    requires Usable(d) && d.dlm != '\r'
    ensures EndsLine(d, Feed(d, Begin(out), '\r'), out, Text(""))
  {
    assert "\r"[..0] == "";
    assert StripCr("\r") == "";
  }

  lemma StripOne(s: string)
    ensures StripCr(s + "\r") == StripCr(s)
  {
    assert (s + "\r")[..|s|] == s;
  }

  lemma CrlfBare(d: Dialect, out: seq<Field>, t: string, trail: nat)
    requires Usable(d) && Printable(d, Bare(t)) && d.dlm != '\r'
    ensures EndsLine(d, FeedAll(d, Begin(out), t + Spaces(trail) + "\r"), out, CrlfValue(d, Bare(t), trail))
  {
    hide StripCr, Spaces, Feed, EndsLine;
    var s := t + Spaces(trail) + "\r";
    AllSpaces(trail);
    BareFed(d, out, s);
    NakedEnds(d, FeedAll(d, Begin(out), s));
    assert Ink(s) == |s| - 1 && s[..|s|] == s;
    StripOne(t + Spaces(trail));
  }

  lemma NakedEnds(d: Dialect, g: Config)
    requires Usable(d) && InField(g) && g.ste == DatNkd
    ensures EndsLine(d, g, g.out, Pushed(d, g.seen, g.len + 1, g.hdb))
  {
  }

  lemma CrlfQuoted(d: Dialect, out: seq<Field>, t: string, trail: nat)
    requires Usable(d) && d.dlm != '\r'
    ensures var g := FeedAll(d, FeedAll(d, Begin(out), Print(d, Quoted(t))), Spaces(trail));
            EndsLine(d, Feed(d, g, '\r'), out, CrlfValue(d, Quoted(t), trail))
  {
    hide Feed, StripCr, EndsLine, Double, Spaces, Halve;
    var closed := FeedAll(d, Begin(out), Print(d, Quoted(t)));
    if t == "" {
      EmptyQuotes(d, out);
      TrailingSpaces(d, closed, trail);
      CrlfOutside(d, FeedAll(d, closed, Spaces(trail)), out);
    } else {
      QuoteClosed(d, out, t);
      TrailingSpaces(d, closed, trail);
      CrlfKept(d, FeedAll(d, closed, Spaces(trail)));
      AllSpaces(trail);
      StripNothing(Double(t, d.qte) + [d.qte] + Spaces(trail));
      CrlfRaw(d, t, trail);
    }
  }

  lemma CrlfOutside(d: Dialect, g: Config, out: seq<Field>)
    requires Usable(d) && d.dlm != '\r' && InField(g) && g.ste == Qte2nd && g.len == 0 && !g.hdb && g.out == out
    ensures EndsLine(d, Feed(d, g, '\r'), out, Text(""))
  {
  }

  /** Behind a closing quote a carriage return makes everything in front of it part of the field. */
  lemma CrlfKept(d: Dialect, g: Config)
    requires Usable(d) && d.dlm != '\r' && InField(g) && g.ste == QteOne
    ensures EndsLine(d, Feed(d, g, '\r'), g.out, Pushed(d, g.seen, |g.seen|, g.hdb))
  {
    assert (g.seen + "\r")[..|g.seen|] == g.seen == g.seen[..|g.seen|];
  }

  lemma StripNothing(s: string)
    requires s != "" && s[|s| - 1] != '\r'
    ensures StripCr(s[..|s|]) == s
  {
    assert s[..|s|] == s;
  }

  lemma CrlfRaw(d: Dialect, t: string, trail: nat)
    requires Usable(d)
    ensures var raw := Double(t, d.qte) + [d.qte] + Spaces(trail);
            (if d.qte in t then Halve(raw, d.qte) else raw) == t + [d.qte] + Spaces(trail)
  {
    AllSpaces(trail);
    var end := [d.qte] + Spaces(trail);
    assert end[1..] == Spaces(trail);
    assert Double(t, d.qte) + [d.qte] + Spaces(trail) == Double(t, d.qte) + end;
    assert t + [d.qte] + Spaces(trail) == t + end;
    if d.qte in t {
      HalveDouble(t, d.qte, end);
    } else {
      DoublePlain(t, d.qte);
    }
  }

  /** A row whose line ends in CR LF: every field but the last is right. */
  lemma ParseCrlf(d: Dialect, row: seq<Padded>)
    requires Usable(d) && row != [] && d.dlm != '\r' && forall p | p in row :: Printable(d, p.cell)
    ensures var g := FeedAll(d, Begin([]), PrintRow(d, row) + "\r\n");
            var last := row[|row| - 1];
            g.ste == RecDne && g.out == Values(row[..|row| - 1]) + [CrlfValue(d, last.cell, last.trail)]
  {
    hide Feed, CrlfValue, Print, PrintRow, Values, Spaces;
    var n := |row| - 1;
    var p := row[n];
    var out, before := Values(row[..n]), BeforeLast(d, row);
    var cell := Print(d, p.cell) + Spaces(p.trail) + "\r";
    BeforeLastFed(d, row);
    LineSplit(d, row);
    FeedAllConcat(d, Begin([]), before, Spaces(p.lead));
    LeadingSpaces(d, out, p.lead);
    FeedAllConcat(d, Begin([]), before + Spaces(p.lead), cell + "\n");
    FeedAllConcat(d, Begin(out), cell, "\n");
    CrlfCell(d, out, p.cell, p.trail);
    FeedOne(d, FeedAll(d, Begin(out), cell), '\n');
  }

  /** Everything in front of the last cell. */
  function BeforeLast(d: Dialect, row: seq<Padded>): string
    requires row != []
  {
    if |row| == 1 then "" else PrintRow(d, row[..|row| - 1]) + [d.dlm]
  }

  lemma LineSplit(d: Dialect, row: seq<Padded>)
    requires row != []
    ensures PrintRow(d, row) + "\r\n"
         == (BeforeLast(d, row) + Spaces(row[|row| - 1].lead))
            + ((Print(d, row[|row| - 1].cell) + Spaces(row[|row| - 1].trail) + "\r") + "\n")
  {
    hide Print, Spaces;
    assert PrintRow(d, row) == BeforeLast(d, row) + PrintPadded(d, row[|row| - 1]);
    assert "\r\n" == "\r" + "\n";
  }

  lemma BeforeLastFed(d: Dialect, row: seq<Padded>)
    requires Usable(d) && row != [] && forall p | p in row :: Printable(d, p.cell)
    ensures FeedAll(d, Begin([]), BeforeLast(d, row)) == Begin(Values(row[..|row| - 1]))
  {
    hide Feed, PrintRow;
    var n := |row| - 1;
    if n > 0 {
      var init := row[..n];
      RowFed(d, init);
      FeedAllConcat(d, Begin([]), PrintRow(d, init), [d.dlm]);
      FeedOne(d, FeedAll(d, Begin([]), PrintRow(d, init)), d.dlm);
    }
  }

  /** The last field of a CR LF line is right if and only if it is the empty quoted text or bare without padding. */
  lemma CrlfRightWhen(d: Dialect, c: Cell, trail: nat)
    requires Usable(d) && Printable(d, c)
    ensures CrlfValue(d, c, trail) == Value(c) <==> (c.Bare? && trail == 0) || c == Quoted("")
  {
    AllSpaces(trail);
    match c {
      case Empty =>
      case Bare(t) =>
        if trail == 0 {
          assert t + Spaces(0) == t;
        } else {
          assert StripCr(t + Spaces(trail)) == t + Spaces(trail);
        }
      case Quoted(t) =>
    }
  }

  /** A quoted last field keeps its closing quote, and an empty last field is no longer null. */
  lemma CrlfBreaks()
    ensures var d := Dialect(',', '"');
            && FeedAll(d, Begin([]), "\"a\"\r\n").out == [Text("a\"")]
            && FeedAll(d, Begin([]), "a,\r\n").out == [Text("a"), Text("")]
  {
    CrlfBreaksQuoted();
    CrlfBreaksEmpty();
  }

  lemma CrlfBreaksQuoted()
    ensures FeedAll(Dialect(',', '"'), Begin([]), "\"a\"\r\n").out == [Text("a\"")]
  {
    hide Feed, FeedAll, StripCr, Halve;
    var d, row := Dialect(',', '"'), [Padded(0, Quoted("a"), 0)];
    ParseCrlf(d, row);
    hide Usable, Printable;
    DoublePlain("a", '"');
    assert PrintPadded(d, row[0]) == "\"a\"";
    assert "\"a\"" + "\r\n" == "\"a\"\r\n";
    assert row[..0] == [];
    assert "a" + ['"'] + "" == "a\"";
  }

  lemma CrlfBreaksEmpty()
    ensures FeedAll(Dialect(',', '"'), Begin([]), "a,\r\n").out == [Text("a"), Text("")]
  {
    hide Feed, FeedAll;
    var d, bare, empty := Dialect(',', '"'), Padded(0, Bare("a"), 0), Padded(0, Empty, 0);
    var row := [bare, empty];
    assert row[..1] == [bare] && [bare][..0] == [];
    assert PrintRow(d, row) == "a,";
    assert PrintRow(d, row) + "\r\n" == "a,\r\n";
    assert StripCr("a") == "a";
    ParseCrlf(d, row);
  }
}
