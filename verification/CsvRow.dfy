/** The row parser of the source: registers that walk over the line, against the state machine. */
module CsvRow {
  import opened CsvMachine

  /** What the C code sees of a line: it ends at the first NUL. */
  function CString(line: string): (s: string)
    ensures s <= line && NUL !in s
    ensures |s| < |line| ==> line[|s|] == NUL
  {
    if line == "" || line[0] == NUL then "" else [line[0]] + CString(line[1..])
  }

  /** Neither character of the dialect is the end of the string. */
  predicate NotNul(d: Dialect) {
    d.dlm != NUL && d.qte != NUL
  }

  // ---- The result table ----

  /** A Lua table of strings; a null field is nil, which no table holds. */
  type Table = map<int, string>

  function Put(t: Table, k: int, f: Field): Table {
    if f.Null? then t - {k} else t[k := f.text]
  }

  /** The fields at the indices from `k` + 1 on. */
  function Fill(t: Table, k: int, fs: seq<Field>): Table {
    if fs == [] then t else Put(Fill(t, k, fs[..|fs| - 1]), k + |fs|, fs[|fs| - 1])
  }

  lemma {:induction false} FillAt(t: Table, k: int, fs: seq<Field>, i: int)
    ensures i in Fill(t, k, fs) <==> if k < i <= k + |fs| then fs[i - k - 1].Text? else i in t
    ensures i in Fill(t, k, fs) ==> Fill(t, k, fs)[i] == if k < i <= k + |fs| then fs[i - k - 1].text else t[i]
    decreases |fs|
  {
    if fs != [] {
      FillAt(t, k, fs[..|fs| - 1], i);
    }
  }

  lemma FillSnoc(t: Table, k: int, fs: seq<Field>, f: Field)
    ensures Fill(t, k, fs + [f]) == Put(Fill(t, k, fs), k + |fs| + 1, f)
  {
    assert (fs + [f])[..|fs|] == fs;
  }

  lemma FillMore(t: Table, k: int, before: seq<Field>, after: seq<Field>)
    requires |after| == |before| + 1 ==> after[..|before|] == before
    ensures |after| == |before| + 1 ==>
              Fill(t, k, after) == Put(Fill(t, k, before), k + |after|, after[|before|])
  {
    if |after| == |before| + 1 {
      assert after == before + [after[|before|]];
      FillSnoc(t, k, before, after[|before|]);
    }
  }

  /** Filling on from the returned count is filling at once. */
  lemma {:induction false} FillConcat(t: Table, k: int, a: seq<Field>, b: seq<Field>)
    ensures Fill(t, k, a + b) == Fill(Fill(t, k, a), k + |a|, b)
    decreases |b|
  {
    if b == [] {
      assert a + b == a;
    } else {
      assert (a + b)[..|a + b| - 1] == a + b[..|b| - 1];
      FillConcat(t, k, a, b[..|b| - 1]);
    }
  }

  /** struct t_csv_row; `run`, `beg` and `fld` point into `line`. */
  class Row {
    const line: string
    const dialect: Dialect
    var ste: Ste
    var run: nat
    var beg: nat
    var len: nat
    var fld: nat
    var hdb: bool
    var cnt: int
    var table: Table
    /** The fields pushed by this call. */
    ghost var fields: seq<Field>

    constructor (d: Dialect, lne: string, tbl: Table, count: int)
      ensures Tracks(Begin([]), 0) && line == CString(lne) && dialect == d
      ensures run == 0 && cnt == count && table == tbl
    {
      line, dialect := CString(lne), d;
      ste, run, beg, len, fld, hdb, cnt, table, fields := FldBeg, 0, 0, 0, 0, false, count, tbl, [];
    }

    /** The registers say what the configuration after the first `at` characters says. */
    ghost predicate Tracks(g: Config, at: nat)
      reads this`ste, this`beg, this`len, this`fld, this`hdb, this`fields
    {
      && ste == g.ste && fields == g.out && fld <= at <= |line| && InField(g)
      && (ste == FldBeg ==> g == Begin(g.out))
      && (ste != FldBeg ==> g.fld == line[fld..at])
      && (ste == Qte1st ==> g.len == len == 0 && g.hdb == hdb)
      && (ste != FldBeg && ste != RecDne && ste != Qte1st ==> beg <= at && Holds(g, line[beg..at], len, hdb))
    }

    /** *(row->run); behind the last character there is the terminating NUL. */
    function Chr(): char
      requires run <= |line|
      reads this
    {
      if run < |line| then line[run] else NUL
    }

    /** The loop of t_csv_pushfield that drops carriage returns. */
    method DropReturns(ghost seen: string)
      requires Reads(line, beg, len, seen)
      modifies this`len
      ensures beg + len <= |line| && old(len) <= |seen| && line[beg..beg + len] == StripCr(seen[..old(len)])
    {
      hide StripCr, Reads;
      ghost var n := len;
      StripStep(line, beg, seen, len);
      while len > 0 && line[beg + len - 1] == '\r'
        invariant beg + len <= |line| && len <= n <= |seen| && Reads(line, beg, len, seen)
        invariant StripCr(seen[..len]) == StripCr(seen[..n])
      {
        StripStep(line, beg, seen, len);
        len := len - 1;
      }
      StripStep(line, beg, seen, len);
    }

    /** t_csv_pushfield */
    method PushField(next: Ste, ghost seen: string)
      requires Reads(line, beg, len, seen)
      modifies this`len, this`cnt, this`table, this`fields, this`ste
      ensures ste == next && Counted()
      ensures fields == old(fields) + [if old(len) == 0 && old(ste) == FldBeg then Null
                                       else Pushed(dialect, seen, old(len), hdb)]
    {
      hide StripCr, Halve;
      var value;
      if len == 0 && ste == FldBeg {
        value := Null;
      } else {
        DropReturns(seen);
        var raw := line[beg..beg + len];
        value := Text(if hdb then Halve(raw, dialect.qte) else raw);
      }
      fields := fields + [value];
      cnt := cnt + 1;
      table := Put(table, cnt, value);
      ste := next;
    }

    /** What the turn at the end of the line leaves for parseLine to hand back. */
    twostate predicate AtEnd(g: Config)
      reads this
    {
      HandsBack(g) && cnt == old(cnt) && table == old(table)
    }

    /** case T_CSV_FLDBEG */
    method FieldBegin(ghost g: Config)
      requires NotNul(dialect) && ste == FldBeg && Tracks(g, run)
      modifies this`ste, this`beg, this`len, this`fld, this`hdb, this`cnt, this`table, this`fields
      ensures run < |line| ==> Tracks(Feed(dialect, g, line[run]), run + 1) && Counted()
      ensures run == |line| ==> AtEnd(g)
    {
      hide StripCr, Halve;
      assert run < |line| ==> line[run..run + 1] == [line[run]];
      beg, fld := run, run;
      hdb, len := false, 0;
      if dialect.qte == Chr() {
        ste := Qte1st;
      } else if ' ' == Chr() {
      } else if dialect.dlm == Chr() {
        PushField(FldBeg, g.seen);
      } else if '\n' == Chr() {
        PushField(RecDne, g.seen);
      } else {
        ste := DatNkd;
      }
    }

    /** Nothing was pushed, or one field, which is in the table at the new count. */
    twostate predicate Counted()
      reads this
    {
      var n := |old(fields)|;
      if |fields| == n then fields == old(fields) && cnt == old(cnt) && table == old(table)
      else
        && |fields| == n + 1 && fields[..n] == old(fields)
        && cnt == old(cnt) + 1 && table == Put(old(table), cnt, fields[n])
    }

    /** The two branches that end a field, at the delimiter and at the line feed. */
    method FieldEnd(ghost g: Config)
      requires NotNul(dialect) && InField(g) && run < |line| && EndsField(dialect, line[run])
      requires ste == g.ste && (ste == DatNkd || ste == QteOne || ste == Qte2nd)
      requires hdb == g.hdb && fields == g.out && fld <= run && g.fld == line[fld..run]
      requires len == (if ste == DatNkd then g.len + 1 else g.len) && Reads(line, beg, len, g.seen)
      modifies this`ste, this`len, this`cnt, this`table, this`fields
      ensures Tracks(Feed(dialect, g, line[run]), run + 1) && Counted() && (ste == FldBeg || ste == RecDne)
    {
      hide StripCr, Halve, Pushed;
      Grow(line, beg, fld, run);
      if ste == DatNkd {
        FeedNaked(dialect, g, line[run]);
      } else {
        FeedQuoted(dialect, g, line[run]);
      }
      hide Feed, InField, Reads;
      PushField(if dialect.dlm == Chr() then FldBeg else RecDne, g.seen);
    }

    /** case T_CSV_DATNKD */
    method DataNaked(ghost g: Config)
      requires NotNul(dialect) && ste == DatNkd && Tracks(g, run)
      modifies this`ste, this`len, this`cnt, this`table, this`fields
      ensures run < |line| ==> Tracks(Feed(dialect, g, line[run]), run + 1) && Counted()
      ensures run == |line| ==> AtEnd(g)
    {
      hide StripCr, Halve, Pushed, Feed;
      Grow(line, beg, fld, run);
      if run < |line| {
        FeedNaked(dialect, g, line[run]);
      }
      PrefixOf(line, beg, run, len + 1);
      if dialect.dlm == Chr() || '\n' == Chr() {
        len := len + 1;
        FieldEnd(g);
      }
      len := if ' ' == Chr() then len else run - beg;
    }

    /** case T_CSV_QTEONE */
    method QuotesOne(ghost g: Config)
      requires NotNul(dialect) && ste == QteOne && Tracks(g, run)
      modifies this`ste, this`len, this`cnt, this`table, this`fields
      ensures run < |line| ==> Tracks(Feed(dialect, g, line[run]), run + 1) && Counted()
      ensures run == |line| ==> AtEnd(g)
    {
      hide StripCr, Halve, Pushed, Feed;
      Grow(line, beg, fld, run);
      PrefixOf(line, beg, run, len);
      if dialect.dlm == Chr() || '\n' == Chr() {
        FieldEnd(g);
      } else {
        if run < |line| {
          FeedQuoted(dialect, g, line[run]);
        }
        hide InField;
        if dialect.qte == Chr() {
          ste := QteTwo;
        } else {
          len := if ' ' == Chr() then len else run - beg;
        }
      }
    }

    /** case T_CSV_QTE2ND */
    method Quotes2nd(ghost g: Config)
      requires NotNul(dialect) && ste == Qte2nd && Tracks(g, run)
      modifies this`ste, this`len, this`cnt, this`table, this`fields
      ensures run < |line| ==> Tracks(Feed(dialect, g, line[run]), run + 1) && Counted()
      ensures run == |line| ==> AtEnd(g)
    {
      hide StripCr, Halve, Pushed, Feed;
      Grow(line, beg, fld, run);
      PrefixOf(line, beg, run, len);
      if dialect.dlm == Chr() || '\n' == Chr() {
        FieldEnd(g);
      } else {
        if run < |line| {
          FeedQuoted(dialect, g, line[run]);
        }
        hide InField;
        if dialect.qte == Chr() {
          ste := QteTwo;
        }
      }
    }

    /** case T_CSV_DATQTE */
    method DataQuoted(ghost g: Config)
      requires NotNul(dialect) && ste == DatQte && Tracks(g, run)
      modifies this`ste, this`len
      ensures run < |line| ==> Tracks(Feed(dialect, g, line[run]), run + 1) && Counted()
      ensures run == |line| ==> AtEnd(g)
    {
      hide StripCr, Halve, Pushed;
      Grow(line, beg, fld, run);
      len := run - beg;
      if dialect.qte == Chr() {
        ste := QteOne;
      }
    }

    /** case T_CSV_QTETWO */
    method QuotesTwo(ghost g: Config)
      requires NotNul(dialect) && ste == QteTwo && Tracks(g, run)
      modifies this`ste, this`len, this`hdb
      ensures run < |line| ==> Tracks(Feed(dialect, g, line[run]), run + 1) && Counted()
      ensures run == |line| ==> AtEnd(g)
    {
      hide StripCr, Halve, Pushed;
      Grow(line, beg, fld, run);
      hdb := true;
      ste := if dialect.qte == Chr() then QteOne else DatQte;
      len := run - beg;
    }

    /** case T_CSV_QTE1ST */
    method Quotes1st(ghost g: Config)
      requires NotNul(dialect) && ste == Qte1st && Tracks(g, run)
      modifies this`ste, this`beg
      ensures run < |line| ==> Tracks(Feed(dialect, g, line[run]), run + 1) && Counted()
      ensures run == |line| ==> AtEnd(g)
    {
      hide StripCr, Halve, Pushed;
      Grow(line, beg, fld, run);
      assert run < |line| ==> line[run..run + 1] == [line[run]];
      beg := run;
      ste := if dialect.qte == Chr() then Qte2nd else DatQte;
    }

    /** The fields of this call stand in the table from the count it started with. */
    ghost predicate Filled(t: Table, k: int)
      reads this`cnt, this`table, this`fields
    {
      cnt == k + |fields| && table == Fill(t, k, fields)
    }

    /** The switch. */
    method Switch(ghost g: Config)
      requires NotNul(dialect) && ste != RecDne && Tracks(g, run)
      modifies this`ste, this`beg, this`len, this`fld, this`hdb, this`cnt, this`table, this`fields
      ensures run < |line| ==> Tracks(Feed(dialect, g, line[run]), run + 1) && Counted()
      ensures run == |line| ==> AtEnd(g)
    {
      hide *;
      match ste {
        case FldBeg => FieldBegin(g);
        case DatNkd => DataNaked(g);
        case QteOne => QuotesOne(g);
        case Qte2nd => Quotes2nd(g);
        case DatQte => DataQuoted(g);
        case QteTwo => QuotesTwo(g);
        case Qte1st => Quotes1st(g);
      }
    }

    lemma FieldsOf(g: Config)
      requires Tracks(g, run)
      ensures fields == g.out
    {
    }

    /** The registers at the end of an unfinished line. */
    ghost predicate HandsBack(g: Config)
      reads this
    {
      g.ste != RecDne && ste != RecDne && fields == g.out && fld <= run <= |line| && line[fld..] == Tail(g)
    }

    /** One turn; at the end of the line it leaves what parseLine hands back. */
    method Turn(ghost g: Config, ghost t: Table, ghost k: int)
      requires NotNul(dialect) && ste != RecDne && Tracks(g, run) && Filled(t, k)
      modifies this`ste, this`beg, this`len, this`fld, this`hdb, this`cnt, this`table, this`fields
      ensures Filled(t, k)
      ensures run < |line| ==> Tracks(Feed(dialect, g, line[run]), run + 1)
      ensures run == |line| ==> HandsBack(g)
    {
      FieldsOf(g);
      hide Feed, Tracks, Fill, Put, HandsBack, NotNul, InField;
      ghost var before := fields;
      Switch(g);
      FillMore(t, k, before, fields);
    }

    lemma Terminator()
      requires run <= |line| && NUL !in line
      ensures Chr() == NUL <==> run == |line|
    {
    }

    lemma NoFields(t: Table, k: int)
      requires Tracks(Begin([]), 0)
      ensures fields == [] && Fill(t, k, []) == t
    {
    }

    lemma Finished(g: Config)
      requires Tracks(g, run) && ste == RecDne
      ensures g.ste == RecDne && fields == g.out && fld <= |line| && g.fld <= line[fld..]
    {
    }

    /** t_csv_parse on a fresh row. */
    method Loop(ghost t: Table, ghost k: int) returns (ghost g: Config)
      requires NotNul(dialect) && run == 0 && Tracks(Begin([]), 0) && NUL !in line && Filled(t, k)
      modifies this
      ensures Filled(t, k) && Fed(dialect, line, g, |line|)
      ensures (ste == RecDne && Tracks(g, run)) || (run == |line| && HandsBack(g))
    {
      g := Begin([]);
      FedStart(dialect, line);
      hide *;
      while ste != RecDne
        invariant run <= |line| && Fed(dialect, line, g, run)
        invariant Tracks(g, run) && Filled(t, k)
        decreases |line| - run
      {
        Turn(g, t, k);
        Terminator();
        if Chr() == NUL {
          return g;
        }
        FedStep(dialect, line, g, run);
        g := Feed(dialect, g, line[run]);
        run := run + 1;
      }
      Finished(g);
      FedEnd(dialect, line, g, run);
    }

    /** What lt_csv_ParseLine returns. */
    method Parse() returns (complete: bool, tail: string)
      requires NotNul(dialect) && run == 0 && Tracks(Begin([]), 0) && NUL !in line
      modifies this
      ensures var g := FeedAll(dialect, Begin([]), line);
              && complete == (g.ste == RecDne)
              && cnt == old(cnt) + |g.out| && table == Fill(old(table), old(cnt), g.out)
              && (if complete then g.fld <= tail else tail == Tail(g))
    {
      NoFields(table, cnt);
      hide Tracks, Fill, FeedAll;
      ghost var g := Loop(table, cnt);
      assert line[..|line|] == line;
      if ste == RecDne {
        Finished(g);
      }
      complete := ste == RecDne;
      tail := line[fld..];
    }
  }

  /** `g` is where the parser stands after `n` characters. */
  ghost predicate Fed(d: Dialect, line: string, g: Config, n: nat) {
    n <= |line| && g == FeedAll(d, Begin([]), line[..n])
  }

  lemma FedStart(d: Dialect, line: string)
    ensures Fed(d, line, Begin([]), 0)
  {
  }

  lemma FedStep(d: Dialect, line: string, g: Config, n: nat)
    requires Fed(d, line, g, n) && n < |line|
    ensures InField(g) && Fed(d, line, Feed(d, g, line[n]), n + 1)
  {
    hide Feed;
    assert line[..n + 1][..n] == line[..n];
  }

  /** A finished row does not look at the rest of the line. */
  lemma FedEnd(d: Dialect, line: string, g: Config, n: nat)
    requires Fed(d, line, g, n) && g.ste == RecDne
    ensures Fed(d, line, g, |line|)
  {
    hide Feed, FeedAll;
    assert line[..|line|] == line[..n] + line[n..];
    FeedAllConcat(d, Begin([]), line[..n], line[n..]);
    FeedDone(d, g, line[n..]);
  }

  lemma FeedNaked(d: Dialect, g: Config, c: char)
    requires InField(g) && g.ste == DatNkd
    ensures InField(Feed(d, g, c)) && g.len < |g.seen|
    ensures c == d.dlm ==> Feed(d, g, c) == Begin(g.out + [Pushed(d, g.seen, g.len + 1, g.hdb)])
    ensures c == '\n' != d.dlm ==> Feed(d, g, c) == Done(g.fld + [c], g.out + [Pushed(d, g.seen, g.len + 1, g.hdb)])
    ensures !EndsField(d, c) ==>
              Feed(d, g, c)
              == Config(DatNkd, g.seen + [c], if c == ' ' then g.len else |g.seen|, g.hdb, g.fld + [c], g.out)
  {
  }

  lemma FeedQuoted(d: Dialect, g: Config, c: char)
    requires InField(g) && (g.ste == QteOne || g.ste == Qte2nd)
    ensures InField(Feed(d, g, c)) && g.len <= |g.seen|
    ensures c == d.dlm ==> Feed(d, g, c) == Begin(g.out + [Pushed(d, g.seen, g.len, g.hdb)])
    ensures c == '\n' != d.dlm ==> Feed(d, g, c) == Done(g.fld + [c], g.out + [Pushed(d, g.seen, g.len, g.hdb)])
    ensures !EndsField(d, c) && c == d.qte ==>
              Feed(d, g, c) == Config(QteTwo, g.seen + [c], g.len, g.hdb, g.fld + [c], g.out)
    ensures !EndsField(d, c) && c != d.qte && g.ste == QteOne ==>
              Feed(d, g, c)
              == Config(QteOne, g.seen + [c], if c == ' ' then g.len else |g.seen|, g.hdb, g.fld + [c], g.out)
    ensures !EndsField(d, c) && c != d.qte && g.ste == Qte2nd ==>
              Feed(d, g, c) == Config(Qte2nd, g.seen + [c], g.len, g.hdb, g.fld + [c], g.out)
  {
  }

  /** The `len` characters from `beg` on are the first ones of `seen`. */
  ghost predicate Reads(line: string, beg: nat, len: nat, seen: string) {
    beg + len <= |line| && len <= |seen| && line[beg..beg + len] == seen[..len]
  }

  /** One turn of the loop that drops carriage returns, and its end. */
  lemma StripStep(line: string, beg: nat, seen: string, len: nat)
    requires Reads(line, beg, len, seen)
    ensures beg + len <= |line| && len <= |seen|
    ensures if len > 0 && line[beg + len - 1] == '\r'
            then Reads(line, beg, len - 1, seen) && StripCr(seen[..len]) == StripCr(seen[..len - 1])
            else StripCr(seen[..len]) == line[beg..beg + len]
  {
    if len > 0 {
      assert seen[..len][len - 1] == line[beg..beg + len][len - 1] == line[beg + len - 1];
      assert seen[..len][..len - 1] == seen[..len - 1];
      assert line[beg..beg + len - 1] == line[beg..beg + len][..len - 1];
    }
  }

  lemma PrefixOf(line: string, beg: nat, run: nat, n: nat)
    requires beg + n <= run <= |line|
    ensures line[beg..run][..n] == line[beg..beg + n]
  {
  }

  lemma Grow(line: string, beg: nat, fld: nat, run: nat)
    ensures beg <= run < |line| ==> line[beg..run] + [line[run]] == line[beg..run + 1]
    ensures fld <= run < |line| ==> line[fld..run] + [line[run]] == line[fld..run + 1]
  {
  }

  ghost predicate Holds(g: Config, seen: string, len: nat, hdb: bool) {
    g.seen == seen && g.len == len && g.hdb == hdb
  }

  /** lt_csv_ParseLine: the completeness flag, the text to start from again, the count, and the table filled on. */
  method ParseLine(d: Dialect, lne: string, tbl: Table, count: int)
    returns (complete: bool, tail: string, cnt: int, table: Table)
    requires NotNul(d)
    ensures var g := FeedAll(d, Begin([]), CString(lne));
            && complete == (g.ste == RecDne)
            && cnt == count + |g.out| && table == Fill(tbl, count, g.out)
            && (if complete then g.fld <= tail else tail == Tail(g))
  {
    hide FeedAll, Feed, Tail, Fill;
    var row := new Row(d, lne, tbl, count);
    complete, tail := row.Parse();
    cnt, table := row.cnt, row.table;
  }
}
