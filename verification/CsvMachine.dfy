/** The state machine of the CSV row parser over the characters of the current field. */
module CsvMachine {
  /** enum t_csv_ste; the source never enters T_CSV_EMPTY. */
  datatype Ste = FldBeg | DatQte | DatNkd | Qte1st | Qte2nd | QteOne | QteTwo | RecDne

  datatype Dialect = Dialect(dlm: char, qte: char)

  const NUL := '\0'

  /** The two characters differ from each other and from those with a fixed meaning. */
  predicate Usable(d: Dialect) {
    && d.dlm != d.qte
    && d.dlm != ' ' && d.dlm != '\n' && d.dlm != NUL
    && d.qte != ' ' && d.qte != '\n' && d.qte != NUL && d.qte != '\r'
  }

  datatype Field = Null | Text(text: string)

  /**
    * Where the parser stands: its state, the characters since `beg`, `len`, `hdb`, the characters since `fld`
    * and the fields pushed so far. At the beginning of a field nothing but the pushed fields matters.
    */
  datatype Config = Config(ste: Ste, seen: string, len: nat, hdb: bool, fld: string, out: seq<Field>)

  function Begin(out: seq<Field>): Config {
    Config(FldBeg, "", 0, false, "", out)
  }

  function Done(fld: string, out: seq<Field>): Config {
    Config(RecDne, "", 0, false, fld, out)
  }

  predicate InField(g: Config) {
    && (g.ste == DatNkd ==> g.len < |g.seen|)
    && g.len <= |g.seen|
  }

  // ---- Text helpers ----

  /** Without carriage returns at the end. */
  function StripCr(s: string): (r: string)
    ensures r <= s && (r == [] || r[|r| - 1] != '\r')
    ensures forall i | |r| <= i < |s| :: s[i] == '\r'
  {
    if s != "" && s[|s| - 1] == '\r' then StripCr(s[..|s| - 1]) else s
  }

  /** luaL_gsub of two quotes by one. */
  function Halve(s: string, q: char): string {
    if |s| < 2 then s else if s[0] == q && s[1] == q then [q] + Halve(s[2..], q) else [s[0]] + Halve(s[1..], q)
  }

  /** Every quote written twice. */
  function Double(s: string, q: char): string {
    if s == "" then "" else Double(s[..|s| - 1], q) + (if s[|s| - 1] == q then [q, q] else [s[|s| - 1]])
  }

  function Spaces(n: nat): string {
    if n == 0 then "" else Spaces(n - 1) + " "
  }

  // ---- The machine ----

  /** What t_csv_pushfield makes of the first `len` characters. */
  function Pushed(d: Dialect, seen: string, len: nat, hdb: bool): Field
    requires len <= |seen|
  {
    var raw := StripCr(seen[..len]);
    Text(if hdb then Halve(raw, d.qte) else raw)
  }

  /** A field that ends at the delimiter or at the line feed. */
  function EndField(d: Dialect, g: Config, len: nat, c: char): Config
    requires len <= |g.seen|
  {
    var out := g.out + [Pushed(d, g.seen, len, g.hdb)];
    if c == d.dlm then Begin(out) else Done(g.fld + [c], out)
  }

  predicate EndsField(d: Dialect, c: char) {
    c == d.dlm || c == '\n'
  }

  /** One character, as the switch of t_csv_parse treats it. */
  function Feed(d: Dialect, g: Config, c: char): (r: Config)
    requires InField(g)
    ensures InField(r)
  {
    var seen, fld := g.seen + [c], g.fld + [c];
    match g.ste
    case FldBeg =>
      if c == d.qte then Config(Qte1st, "", 0, false, [c], g.out)
      else if c == ' ' then g
      else if c == d.dlm then Begin(g.out + [Null])
      else if c == '\n' then Done([c], g.out + [Null])
      else Config(DatNkd, [c], 0, false, [c], g.out)
    case DatNkd =>
      if EndsField(d, c) then EndField(d, g, g.len + 1, c)
      else Config(DatNkd, seen, if c == ' ' then g.len else |g.seen|, g.hdb, fld, g.out)
    case Qte1st => Config(if c == d.qte then Qte2nd else DatQte, [c], 0, g.hdb, fld, g.out)
    case Qte2nd =>
      if EndsField(d, c) then EndField(d, g, g.len, c)
      else Config(if c == d.qte then QteTwo else Qte2nd, seen, g.len, g.hdb, fld, g.out)
    case DatQte => Config(if c == d.qte then QteOne else DatQte, seen, |g.seen|, g.hdb, fld, g.out)
    case QteOne =>
      if EndsField(d, c) then EndField(d, g, g.len, c)
      else if c == d.qte then Config(QteTwo, seen, g.len, g.hdb, fld, g.out)
      else Config(QteOne, seen, if c == ' ' then g.len else |g.seen|, g.hdb, fld, g.out)
    case QteTwo => Config(if c == d.qte then QteOne else DatQte, seen, |g.seen|, true, fld, g.out)
    case RecDne => g
  }

  function FeedAll(d: Dialect, g: Config, s: string): (r: Config)
    requires InField(g)
    ensures InField(r)
    decreases |s|
  {
    if s == "" then g else Feed(d, FeedAll(d, g, s[..|s| - 1]), s[|s| - 1])
  }

  /** The text of the unfinished field, which parseLine hands back. */
  function Tail(g: Config): string {
    if g.ste == FldBeg then "" else g.fld
  }

  lemma {:induction false} FeedAllConcat(d: Dialect, g: Config, a: string, b: string)
    requires InField(g)
    ensures FeedAll(d, g, a + b) == FeedAll(d, FeedAll(d, g, a), b)
    decreases |b|
  {
    hide Feed;
    if b == "" {
      assert a + b == a;
    } else {
      var n := |b| - 1;
      assert (a + b)[..|a + b| - 1] == a + b[..n];
      FeedAllConcat(d, g, a, b[..n]);
    }
  }

  lemma FeedOne(d: Dialect, g: Config, c: char)
    requires InField(g)
    ensures FeedAll(d, g, [c]) == Feed(d, g, c)
  {
    assert [c][..0] == "";
    assert FeedAll(d, g, "") == g;
  }

  lemma {:induction false} FeedDone(d: Dialect, g: Config, s: string)
    requires InField(g) && g.ste == RecDne
    ensures FeedAll(d, g, s) == g
    decreases |s|
  {
    if s != "" {
      FeedDone(d, g, s[..|s| - 1]);
    }
  }

  // ---- Restart ----

  /** An unfinished parse has learned no more than the pushed fields and the text handed back. */
  lemma {:induction false} TailDetermines(d: Dialect, out: seq<Field>, s: string)
    ensures var g := FeedAll(d, Begin(out), s);
            g.ste != RecDne ==> g == FeedAll(d, Begin(g.out), Tail(g))
    decreases |s|
  {
    if s != "" {
      var n := |s| - 1;
      TailDetermines(d, out, s[..n]);
      var g := FeedAll(d, Begin(out), s[..n]);
      TailStep(d, g, s[n]);
    }
  }

  lemma TailStep(d: Dialect, g: Config, c: char)
    requires InField(g) && (g.ste == FldBeg ==> g == Begin(g.out))
    requires g.ste != RecDne ==> g == FeedAll(d, Begin(g.out), Tail(g))
    ensures var h := Feed(d, g, c);
            h.ste != RecDne ==> h == FeedAll(d, Begin(h.out), Tail(h))
  {
    var h := Feed(d, g, c);
    if h.ste == FldBeg {
    } else if g.ste == FldBeg {
      FeedOne(d, Begin(g.out), c);
    } else if h.ste != RecDne {
      FeedAllConcat(d, Begin(g.out), g.fld, [c]);
      FeedOne(d, g, c);
    }
  }

  /** Fields pushed before have no influence. */
  lemma {:induction false} OutShift(d: Dialect, out: seq<Field>, s: string)
    ensures var g, h := FeedAll(d, Begin(out), s), FeedAll(d, Begin([]), s);
            g == h.(out := out + h.out)
    decreases |s|
  {
    if s != "" {
      OutShift(d, out, s[..|s| - 1]);
      var h := FeedAll(d, Begin([]), s[..|s| - 1]);
      ShiftStep(d, h, s[|s| - 1], out);
    }
  }

  lemma ShiftStep(d: Dialect, h: Config, c: char, out: seq<Field>)
    requires InField(h)
    ensures Feed(d, h.(out := out + h.out), c) == Feed(d, h, c).(out := out + Feed(d, h, c).out)
  {
    hide StripCr, Halve;
    assert forall f: Field :: out + (h.out + [f]) == (out + h.out) + [f];
  }

  /**
    * Restart equals one shot: when `s1` ends inside a row, parsing the text handed back followed by `s2`
    * gives the remaining fields and the same flag as parsing `s1 + s2` at once.
    */
  lemma RestartIsOneShot(d: Dialect, s1: string, s2: string)
    requires FeedAll(d, Begin([]), s1).ste != RecDne
    ensures var first := FeedAll(d, Begin([]), s1);
            var again := FeedAll(d, Begin([]), Tail(first) + s2);
            FeedAll(d, Begin([]), s1 + s2) == again.(out := first.out + again.out)
  {
    hide Feed;
    var first := FeedAll(d, Begin([]), s1);
    FeedAllConcat(d, Begin([]), s1, s2);
    TailDetermines(d, [], s1);
    FeedAllConcat(d, Begin(first.out), Tail(first), s2);
    OutShift(d, first.out, Tail(first) + s2);
  }

  // ---- Records over several lines ----

  /** Whether the record is complete, its fields, and the lines it took. */
  datatype Record = Record(done: bool, fields: seq<Field>, used: nat)

  /** The iterator of csv:rows() from one record on: an unfinished line is continued with the next one. */
  function ReadRecord(d: Dialect, fields: seq<Field>, pending: string, lines: seq<string>): (r: Record)
    ensures r.used <= |lines| && (r.done ==> r.used > 0)
    decreases |lines|
  {
    if lines == [] then Record(false, fields, 0)
    else
      var g := FeedAll(d, Begin([]), pending + lines[0] + "\n");
      if g.ste == RecDne then Record(true, fields + g.out, 1)
      else
        var r := ReadRecord(d, fields + g.out, Tail(g), lines[1..]);
        r.(used := r.used + 1)
  }

  function Joined(lines: seq<string>): string {
    if lines == [] then "" else lines[0] + "\n" + Joined(lines[1..])
  }

  /** Reading line by line, with every restart in between, is parsing the joined lines at once. */
  lemma {:induction false} ReadRecordIsOneShot(d: Dialect, fields: seq<Field>, pending: string, lines: seq<string>)
    requires FeedAll(d, Begin([]), pending).ste != RecDne && FeedAll(d, Begin([]), pending).out == []
    ensures var g := FeedAll(d, Begin([]), pending + Joined(lines));
            ReadRecord(d, fields, pending, lines).done == (g.ste == RecDne)
            && ReadRecord(d, fields, pending, lines).fields == fields + g.out
    decreases |lines|
  {
    hide Feed, FeedAll;
    if lines == [] {
      assert pending + Joined(lines) == pending;
      assert fields + [] == fields;
    } else {
      var head := pending + lines[0] + "\n";
      var g := FeedAll(d, Begin([]), head);
      var more := Joined(lines[1..]);
      assert pending + Joined(lines) == head + more;
      FeedAllConcat(d, Begin([]), head, more);
      if g.ste == RecDne {
        FeedDone(d, g, more);
      } else {
        RestartIsOneShot(d, head, more);
        TailDetermines(d, [], head);
        OutShift(d, g.out, Tail(g));
        var h := FeedAll(d, Begin([]), Tail(g));
        assert |g.out| == |g.out + h.out|;
        ReadRecordIsOneShot(d, fields + g.out, Tail(g), lines[1..]);
        var again := FeedAll(d, Begin([]), Tail(g) + more);
        assert fields + g.out + again.out == fields + (g.out + again.out);
      }
    }
  }

  /** A tail is where its field begins: nothing has been pushed from it. */
  lemma TailPushesNothing(d: Dialect, s: string)
    requires FeedAll(d, Begin([]), s).ste != RecDne
    ensures var h := FeedAll(d, Begin([]), Tail(FeedAll(d, Begin([]), s)));
            h.ste != RecDne && h.out == []
  {
    hide Feed, FeedAll;
    var g := FeedAll(d, Begin([]), s);
    TailDetermines(d, [], s);
    OutShift(d, g.out, Tail(g));
    var h := FeedAll(d, Begin([]), Tail(g));
    assert |g.out| == |g.out + h.out|;
  }

  /** A record takes the fewest lines that complete it. */
  lemma {:induction false} ReadRecordUses(d: Dialect, fields: seq<Field>, pending: string, lines: seq<string>)
    requires FeedAll(d, Begin([]), pending).ste != RecDne && FeedAll(d, Begin([]), pending).out == []
    ensures var r := ReadRecord(d, fields, pending, lines);
            r.done ==>
              && FeedAll(d, Begin([]), pending + Joined(lines[..r.used])).ste == RecDne
              && FeedAll(d, Begin([]), pending + Joined(lines[..r.used - 1])).ste != RecDne
    decreases |lines|
  {
    hide Feed, FeedAll;
    if lines != [] {
      var head := pending + lines[0] + "\n";
      var g := FeedAll(d, Begin([]), head);
      assert lines[..1][1..] == [] && Joined([]) == "";
      assert pending + Joined(lines[..0]) == pending && pending + Joined(lines[..1]) == head;
      if g.ste != RecDne {
        TailPushesNothing(d, head);
        ReadRecordUses(d, fields + g.out, Tail(g), lines[1..]);
        var r := ReadRecord(d, fields + g.out, Tail(g), lines[1..]);
        if r.done {
          JoinedSplit(lines, r.used + 1);
          JoinedSplit(lines, r.used);
          RestartIsOneShot(d, head, Joined(lines[1..][..r.used]));
          RestartIsOneShot(d, head, Joined(lines[1..][..r.used - 1]));
          assert pending + Joined(lines[..r.used + 1]) == head + Joined(lines[1..][..r.used]);
          assert pending + Joined(lines[..r.used]) == head + Joined(lines[1..][..r.used - 1]);
        }
      }
    }
  }

  lemma JoinedSplit(lines: seq<string>, n: nat)
    requires 0 < n <= |lines|
    ensures Joined(lines[..n]) == lines[0] + "\n" + Joined(lines[1..][..n - 1])
  {
    assert lines[..n][1..] == lines[1..][..n - 1];
  }
}
