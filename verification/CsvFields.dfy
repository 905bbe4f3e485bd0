/** Every record, well-formed or not: where its fields end and what each of them is worth. */
module CsvFields {
  import opened CsvMachine
  import opened CsvPrint

  function Quotes(s: string, q: char): nat {
    if s == "" then 0 else Quotes(s[..|s| - 1], q) + if s[|s| - 1] == q then 1 else 0
  }

  function Lead(f: string): (n: nat)
    ensures n <= |f|
  {
    if f != "" && f[0] == ' ' then 1 + Lead(f[1..]) else 0
  }

  function Body(f: string): string {
    f[Lead(f)..]
  }

  /** Behind an opening quote delimiters and line feeds stand only where the number of further quotes is even. */
  predicate Enclosed(d: Dialect, s: string) {
    forall i | 0 <= i < |s| && (s[i] == d.dlm || s[i] == '\n') :: Quotes(s[..i], d.qte) % 2 == 0
  }

  /** The text of a field so far. */
  predicate Partial(d: Dialect, f: string) {
    var b := Body(f);
    b != "" ==> if b[0] == d.qte then Enclosed(d, b[1..]) else d.dlm !in b && '\n' !in b
  }

  /** A delimiter or line feed now would be part of the field. */
  predicate Open(d: Dialect, f: string) {
    var b := Body(f);
    b != "" && b[0] == d.qte && Quotes(b[1..], d.qte) % 2 == 0
  }

  predicate FieldText(d: Dialect, f: string) {
    Partial(d, f) && !Open(d, f)
  }

  /**
    * What is pushed for the text between two delimiters. Of a quoted text it is what lies behind the opening quote
    * without the spaces at the end and without one more character, whether that is the closing quote or not.
    */
  function Worth(d: Dialect, f: string): Field
    requires FieldText(d, f)
  {
    var b := Body(f);
    if b == "" then Null
    else if b[0] != d.qte then Text(StripCr(b[..Ink(b) + 1]))
    else
      var s := b[1..];
      Text(Unquoted(d.qte, s))
  }

  function Unquoted(q: char, s: string): string
    requires s != ""
  {
    var n := Quotes(s, q);
    var raw := StripCr(if n == 1 && s[0] == q then "" else s[..Ink(s)]);
    if n > 1 then Halve(raw, q) else raw
  }

  // ---- One field ----

  /** Where the machine is behind an opening quote and `s`. */
  ghost predicate Behind(d: Dialect, g: Config, out: seq<Field>, s: string) {
    var n := Quotes(s, d.qte);
    && InField(g) && g.seen == s && g.fld == [d.qte] + s && g.out == out
    && if s == "" then g.ste == Qte1st && !g.hdb
       else if n == 1 && s[0] == d.qte then g.ste == Qte2nd && g.len == 0 && !g.hdb
       else if n % 2 == 1 then g.ste == QteOne && g.len == Ink(s) && g.hdb == (n > 1)
       else if s[|s| - 1] == d.qte then g.ste == QteTwo
       else g.ste == DatQte && g.hdb == (n > 0)
  }

  lemma QuotesFirst(s: string, q: char)
    requires s != ""
    ensures s[0] == q ==> Quotes(s, q) > 0
    decreases |s|
  {
    if |s| > 1 {
      QuotesFirst(s[..|s| - 1], q);
    }
  }

  lemma BehindNext(d: Dialect, g: Config, out: seq<Field>, s: string, c: char)
    requires Usable(d) && Behind(d, g, out, s)
    requires Quotes(s, d.qte) % 2 == 1 ==> c != d.dlm && c != '\n'
    ensures Behind(d, Feed(d, g, c), out, s + [c])
  {
    assert (s + [c])[..|s|] == s;
    assert [d.qte] + s + [c] == [d.qte] + (s + [c]);
    if s != "" {
      QuotesFirst(s, d.qte);
    }
  }

  lemma {:induction false} BehindQuote(d: Dialect, out: seq<Field>, s: string)
    requires Usable(d) && Enclosed(d, s)
    ensures Behind(d, FeedAll(d, Begin(out), [d.qte] + s), out, s)
    decreases |s|
  {
    hide Feed;
    if s == "" {
      OpeningQuote(d, out);
      assert [d.qte] + s == [d.qte];
    } else {
      var n := |s| - 1;
      EnclosedPrefix(d, s, n);
      BehindQuote(d, out, s[..n]);
      assert ([d.qte] + s)[..n + 1] == [d.qte] + s[..n] && s == s[..n] + [s[n]];
      hide Behind, Enclosed;
      BehindNext(d, FeedAll(d, Begin(out), [d.qte] + s[..n]), out, s[..n], s[n]);
    }
  }

  lemma EnclosedPrefix(d: Dialect, s: string, n: nat)
    requires Enclosed(d, s) && n < |s|
    ensures Enclosed(d, s[..n])
    ensures s[n] == d.dlm || s[n] == '\n' ==> Quotes(s[..n], d.qte) % 2 == 0
  {
    forall i | 0 <= i < n && (s[i] == d.dlm || s[i] == '\n')
      ensures Quotes(s[..n][..i], d.qte) % 2 == 0
    {
      assert s[..n][..i] == s[..i];
    }
  }

  lemma OpeningQuote(d: Dialect, out: seq<Field>)
    requires Usable(d)
    ensures Behind(d, FeedAll(d, Begin(out), [d.qte]), out, "")
  {
    FeedOne(d, Begin(out), d.qte);
  }

  lemma {:induction false} LeadIsSpaces(f: string)
    ensures f[..Lead(f)] == Spaces(Lead(f))
    ensures Body(f) != "" ==> Body(f)[0] != ' '
  {
    if f != "" && f[0] == ' ' {
      LeadIsSpaces(f[1..]);
      SpacesFront(Lead(f[1..]));
      assert f[..Lead(f)] == " " + f[1..][..Lead(f[1..])];
      assert Body(f) == Body(f[1..]);
    }
  }

  lemma {:induction false} SpacesFront(n: nat)
    ensures " " + Spaces(n) == Spaces(n + 1)
  {
    if n > 0 {
      SpacesFront(n - 1);
    }
  }

  /** Spaces in front of a field leave no trace. */
  lemma FromBody(d: Dialect, out: seq<Field>, f: string)
    requires Usable(d)
    ensures FeedAll(d, Begin(out), f) == FeedAll(d, Begin(out), Body(f))
  {
    hide FeedAll;
    LeadIsSpaces(f);
    LeadingSpaces(d, out, Lead(f));
    FeedAllConcat(d, Begin(out), f[..Lead(f)], Body(f));
    assert f == f[..Lead(f)] + Body(f);
  }

  /** A field text, and no other part of a field, ends at the next delimiter or line feed, and is worth its value. */
  lemma FieldEnds(d: Dialect, out: seq<Field>, f: string)
    requires Usable(d) && Partial(d, f)
    ensures !Open(d, f) ==> EndsAs(d, FeedAll(d, Begin(out), f), out, Worth(d, f))
    ensures Open(d, f) ==>
              var g := FeedAll(d, Begin(out), f);
              InField(g) && g.out == out && Feed(d, g, d.dlm).out == out && Feed(d, g, '\n').out == out
              && Feed(d, g, '\n').ste != RecDne
  {
    hide FeedAll, Feed, Partial, Open, Worth, EndsAs;
    FromBody(d, out, f);
    LeadIsSpaces(f);
    var b := Body(f);
    if b == "" {
      BlankEnds(d, out, f);
    } else if b[0] != d.qte {
      BareFieldEnds(d, out, f);
    } else {
      QuotedFieldFed(d, out, f);
    }
  }

  lemma BlankEnds(d: Dialect, out: seq<Field>, f: string)
    requires Usable(d) && Body(f) == ""
    ensures !Open(d, f) && Partial(d, f) && Worth(d, f) == Null
    ensures EndsAs(d, FeedAll(d, Begin(out), ""), out, Null)
  {
    NothingFed(d, out);
  }

  lemma BareFieldEnds(d: Dialect, out: seq<Field>, f: string)
    requires Usable(d) && Partial(d, f)
    requires Body(f) != "" && Body(f)[0] != d.qte && Body(f)[0] != ' '
    ensures !Open(d, f) && EndsAs(d, FeedAll(d, Begin(out), Body(f)), out, Worth(d, f))
  {
    hide FeedAll, Body, StripCr;
    BareFed(d, out, Body(f));
  }

  lemma QuotedFieldFed(d: Dialect, out: seq<Field>, f: string)
    requires Usable(d) && Partial(d, f) && Body(f) != "" && Body(f)[0] == d.qte
    ensures var g := FeedAll(d, Begin(out), Body(f));
            if !Open(d, f) then EndsAs(d, g, out, Worth(d, f))
            else
              && g.out == out && Feed(d, g, d.dlm).out == out && Feed(d, g, '\n').out == out
              && Feed(d, g, '\n').ste != RecDne
  {
    hide FeedAll, Feed, Body, Unquoted, EndsAs, Behind, Enclosed;
    var b := Body(f);
    assert b == [d.qte] + b[1..];
    BehindQuote(d, out, b[1..]);
    QuotedFieldEnds(d, FeedAll(d, Begin(out), b), out, b[1..]);
  }

  lemma NothingFed(d: Dialect, out: seq<Field>)
    ensures FeedAll(d, Begin(out), "") == Begin(out)
  {
  }

  lemma QuotedFieldEnds(d: Dialect, g: Config, out: seq<Field>, s: string)
    requires Usable(d) && Behind(d, g, out, s)
    ensures Quotes(s, d.qte) % 2 == 1 ==> s != "" && EndsAs(d, g, out, Text(Unquoted(d.qte, s)))
    ensures Quotes(s, d.qte) % 2 == 0 ==>
              && g.out == out && Feed(d, g, d.dlm).out == out && Feed(d, g, '\n').out == out
              && Feed(d, g, '\n').ste != RecDne
  {
    hide StripCr, Halve;
    assert s[..0] == "";
  }

  // ---- Whole records ----

  predicate AllFieldTexts(d: Dialect, fs: seq<string>) {
    forall i | 0 <= i < |fs| :: FieldText(d, fs[i])
  }

  /** The texts with a delimiter behind each. */
  function Closed(d: Dialect, fs: seq<string>): string {
    if fs == [] then "" else Closed(d, fs[..|fs| - 1]) + fs[|fs| - 1] + [d.dlm]
  }

  /** The texts with a delimiter between them. */
  function LineOf(d: Dialect, fs: seq<string>): string
    requires fs != []
  {
    Closed(d, fs[..|fs| - 1]) + fs[|fs| - 1]
  }

  function Worths(d: Dialect, fs: seq<string>): seq<Field>
    requires AllFieldTexts(d, fs)
  {
    if fs == [] then [] else Worths(d, fs[..|fs| - 1]) + [Worth(d, fs[|fs| - 1])]
  }

  lemma FeedMore(d: Dialect, g: Config, s: string, c: char)
    requires InField(g)
    ensures FeedAll(d, g, s + [c]) == Feed(d, FeedAll(d, g, s), c)
  {
    assert (s + [c])[..|s|] == s;
  }

  lemma {:induction false} ClosedFed(d: Dialect, fs: seq<string>)
    requires Usable(d) && AllFieldTexts(d, fs)
    ensures FeedAll(d, Begin([]), Closed(d, fs)) == Begin(Worths(d, fs))
    decreases |fs|
  {
    hide Feed, Worth, FieldText, Open, Partial;
    if fs == [] {
      NothingFed(d, []);
    } else {
      var init, f := fs[..|fs| - 1], fs[|fs| - 1];
      ClosedFed(d, init);
      assert FieldText(d, f);
      LastFed(d, init, f);
      FeedMore(d, Begin([]), Closed(d, init) + f, d.dlm);
    }
  }

  lemma LastFed(d: Dialect, init: seq<string>, f: string)
    requires Usable(d) && AllFieldTexts(d, init) && FieldText(d, f)
    requires FeedAll(d, Begin([]), Closed(d, init)) == Begin(Worths(d, init))
    ensures EndsAs(d, FeedAll(d, Begin([]), Closed(d, init) + f), Worths(d, init), Worth(d, f))
  {
    hide FeedAll, Feed, Worth, Worths, Partial, Open, EndsAs;
    FeedAllConcat(d, Begin([]), Closed(d, init), f);
    FieldEnds(d, Worths(d, init), f);
  }

  /** Main result: field texts between delimiters, with a line feed behind them, are a record of their values. */
  lemma FieldsRead(d: Dialect, fs: seq<string>)
    requires Usable(d) && AllFieldTexts(d, fs) && fs != []
    ensures var g := FeedAll(d, Begin([]), LineOf(d, fs) + "\n");
            g.ste == RecDne && g.out == Worths(d, fs)
  {
    hide FeedAll, Feed, Worth, FieldText;
    var init, f := fs[..|fs| - 1], fs[|fs| - 1];
    assert FieldText(d, f);
    ClosedFed(d, init);
    LastFed(d, init, f);
    FeedMore(d, Begin([]), LineOf(d, fs), '\n');
  }

  lemma PartialMore(d: Dialect, f: string, c: char)
    requires Usable(d) && Partial(d, f)
    requires Open(d, f) || (c != d.dlm && c != '\n')
    ensures Partial(d, f + [c])
  {
    BodyMore(f, c);
    var b := Body(f);
    if b != "" && b[0] == d.qte {
      assert (b + [c])[1..] == b[1..] + [c];
      EnclosedMore(d, b[1..], c);
    }
  }

  lemma EnclosedMore(d: Dialect, s: string, c: char)
    requires Enclosed(d, s) && (c == d.dlm || c == '\n' ==> Quotes(s, d.qte) % 2 == 0)
    ensures Enclosed(d, s + [c])
  {
    assert (s + [c])[..|s|] == s;
    forall i | 0 <= i < |s| && (s[i] == d.dlm || s[i] == '\n')
      ensures Quotes((s + [c])[..i], d.qte) % 2 == 0
    {
      assert (s + [c])[..i] == s[..i];
    }
  }

  lemma {:induction false} BodyMore(f: string, c: char)
    ensures Body(f + [c]) == if Body(f) == "" then (if c == ' ' then "" else [c]) else Body(f) + [c]
  {
    if f != "" && f[0] == ' ' {
      assert (f + [c])[1..] == f[1..] + [c];
      BodyMore(f[1..], c);
    } else if f == "" {
      assert f + [c] == [c];
    }
  }

  /** Every unfinished text is closed fields and part of one more. */
  lemma {:induction false} Fielded(d: Dialect, s: string) returns (fs: seq<string>, cur: string)
    requires Usable(d) && FeedAll(d, Begin([]), s).ste != RecDne
    ensures ReadAs(d, s, fs, cur)
    decreases |s|
  {
    hide Feed, Open, Worth, EndsAs;
    if s == "" {
      fs, cur := [], "";
      NothingPartial(d);
    } else {
      var n := |s| - 1;
      var c := s[n];
      DoneStays(d, FeedAll(d, Begin([]), s[..n]), c);
      fs, cur := Fielded(d, s[..n]);
      assert s == s[..n] + [c];
      FieldedNext(d, s[..n], fs, cur, c);
      fs, cur := if c == d.dlm && !Open(d, cur) then fs + [cur] else fs,
                 if c == d.dlm && !Open(d, cur) then "" else cur + [c];
    }
  }

  /** What has been read is the texts `fs` and part of one more. */
  ghost predicate ReadAs(d: Dialect, s: string, fs: seq<string>, cur: string) {
    && AllFieldTexts(d, fs) && Partial(d, cur) && s == Closed(d, fs) + cur
    && FeedAll(d, Begin([]), s) == FeedAll(d, Begin(Worths(d, fs)), cur)
  }

  lemma FieldedNext(d: Dialect, s: string, fs: seq<string>, cur: string, c: char)
    requires Usable(d) && ReadAs(d, s, fs, cur) && FeedAll(d, Begin([]), s + [c]).ste != RecDne
    ensures if c == d.dlm && !Open(d, cur) then ReadAs(d, s + [c], fs + [cur], "")
            else ReadAs(d, s + [c], fs, cur + [c])
  {
    hide FeedAll, Feed, Partial, Open, Worth, EndsAs;
    var w := Worths(d, fs);
    FieldEnds(d, w, cur);
    FeedMore(d, Begin([]), s, c);
    FeedMore(d, Begin(w), cur, c);
    StillReading(d, FeedAll(d, Begin(w), cur), w, cur, c);
    if c == d.dlm && !Open(d, cur) {
      assert (fs + [cur])[..|fs|] == fs;
      NothingFed(d, w + [Worth(d, cur)]);
      NothingPartial(d);
      assert Closed(d, fs + [cur]) + "" == s + [c];
    } else {
      PartialMore(d, cur, c);
    }
  }

  lemma NothingPartial(d: Dialect)
    ensures Partial(d, "")
  {
  }

  lemma DoneStays(d: Dialect, g: Config, c: char)
    requires InField(g) && Feed(d, g, c).ste != RecDne
    ensures g.ste != RecDne
  {
  }

  lemma StillReading(d: Dialect, g: Config, w: seq<Field>, cur: string, c: char)
    requires InField(g) && Feed(d, g, c).ste != RecDne && Partial(d, cur)
    requires !Open(d, cur) ==> EndsAs(d, g, w, Worth(d, cur))
    ensures !Open(d, cur) ==> c != '\n' && Feed(d, g, d.dlm) == Begin(w + [Worth(d, cur)])
  {
    hide Feed, Partial, Open, Worth;
  }

  /** Main result: every record that a line feed, and nothing before it, completes is made of field texts alone. */
  lemma RecordRead(d: Dialect, s: string) returns (fs: seq<string>)
    requires Usable(d) && FeedAll(d, Begin([]), s).ste != RecDne && FeedAll(d, Begin([]), s + "\n").ste == RecDne
    ensures fs != [] && AllFieldTexts(d, fs) && s == LineOf(d, fs)
    ensures FeedAll(d, Begin([]), s + "\n").out == Worths(d, fs)
  {
    hide FeedAll, Feed, Partial, Open, Worth, EndsAs;
    var cur;
    fs, cur := Fielded(d, s);
    FieldEnds(d, Worths(d, fs), cur);
    FeedMore(d, Begin([]), s, '\n');
    assert (fs + [cur])[..|fs|] == fs;
    fs := fs + [cur];
    FieldsRead(d, fs);
  }
}
