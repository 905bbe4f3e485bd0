/** The token iterator of Csv.split. */
module CsvSplit {
  datatype Option<T> = None | Some(value: T)

  /** The matcher of t_csv_split: on a mismatch it goes back to one character or to none. */
  function Advance(dlm: string, itd: nat, c: char): (r: nat)
    requires itd < |dlm|
    ensures r <= itd + 1
  {
    if c == dlm[itd] then itd + 1 else if c == dlm[0] then 1 else 0
  }

  /** The index at which the delimiter has been matched, or the end of the text; an empty one matches at once. */
  function Scan(str: string, dlm: string, its: nat, itd: nat): (e: nat)
    requires its <= |str| && (itd < |dlm| || dlm == "")
    ensures its <= e <= |str|
    decreases |str| - its
  {
    if its == |str| || dlm == "" then its
    else
      var n := Advance(dlm, itd, str[its]);
      if n == |dlm| then its else Scan(str, dlm, its + 1, n)
  }

  /** All tokens from index `from` on. */
  function Tokens(str: string, dlm: string, keep: bool, from: nat): seq<string>
    decreases |str| + 1 - from
  {
    if from > |str| then []
    else
      ScanBehindToken(str, dlm, from);
      var e := Scan(str, dlm, from, 0);
      if e == |str| then [str[from..]]
      else [str[from..if keep then e + 1 else e + 1 - |dlm|]] + Tokens(str, dlm, keep, e + 1)
  }

  /** The last `itd` characters read are the first ones of the delimiter. */
  ghost predicate Matched(str: string, dlm: string, tkn: nat, its: nat, itd: nat) {
    tkn <= its <= |str| && itd < |dlm| && itd <= its - tkn && str[its - itd..its] == dlm[..itd]
  }

  /** Where the scan stops before the end, a whole delimiter of the token has just been read. */
  lemma {:induction false} ScanMatches(str: string, dlm: string, tkn: nat, its: nat, itd: nat)
    requires Matched(str, dlm, tkn, its, itd)
    ensures var e := Scan(str, dlm, its, itd);
            e < |str| ==> tkn <= e + 1 - |dlm| && str[e + 1 - |dlm|..e + 1] == dlm
    decreases |str| - its
  {
    if its < |str| {
      MatchStep(str, dlm, tkn, its, itd);
      var n := Advance(dlm, itd, str[its]);
      if n == |dlm| {
        assert dlm[..n] == dlm;
      } else {
        ScanMatches(str, dlm, tkn, its + 1, n);
      }
    }
  }

  lemma MatchStep(str: string, dlm: string, tkn: nat, its: nat, itd: nat)
    requires Matched(str, dlm, tkn, its, itd) && its < |str|
    ensures var n := Advance(dlm, itd, str[its]);
            n <= its + 1 - tkn && str[its + 1 - n..its + 1] == dlm[..n]
  {
    if str[its] == dlm[itd] {
      assert str[its - itd..its + 1] == str[its - itd..its] + [str[its]];
      assert dlm[..itd + 1] == dlm[..itd] + [dlm[itd]];
    }
  }

  /** The first token and the others. */
  lemma TokensFrom(str: string, dlm: string, keep: bool, from: nat)
    ensures from > |str| <==> Tokens(str, dlm, keep, from) == []
    ensures from <= |str| ==>
              var e, rest := Scan(str, dlm, from, 0), Tokens(str, dlm, keep, from);
              && rest[1..] == Tokens(str, dlm, keep, e + 1)
              && (e == |str| ==> rest[0] == str[from..])
              && (e < |str| ==> from + |dlm| <= e + 1 && rest[0] == str[from..if keep then e + 1 else e + 1 - |dlm|])
  {
    hide Scan;
    if from <= |str| {
      ScanBehindToken(str, dlm, from);
    }
  }

  lemma ScanBehindToken(str: string, dlm: string, from: nat)
    requires from <= |str|
    ensures Scan(str, dlm, from, 0) < |str| ==>
              var e := Scan(str, dlm, from, 0);
              from + |dlm| <= e + 1 && str[e + 1 - |dlm|..e + 1] == dlm
  {
    if dlm != "" {
      hide Scan;
      ScanMatches(str, dlm, from, from, 0);
    }
  }

  /** With the empty delimiter every character is a token, and the empty token follows. */
  lemma {:induction false} EmptyDelimiter(str: string, keep: bool, from: nat)
    requires from <= |str|
    ensures Tokens(str, "", keep, from) == Singles(str[from..]) + [""]
    decreases |str| - from
  {
    TokensFrom(str, "", keep, from);
    if from < |str| {
      EmptyDelimiter(str, keep, from + 1);
      TokensFrom(str, "", keep, from + 1);
      assert str[from..][1..] == str[from + 1..] && str[from..from + 1] == [str[from]];
    } else {
      assert str[from..] == "";
      assert Tokens(str, "", keep, from + 1) == [];
    }
  }

  function Singles(s: string): seq<string> {
    if s == "" then [] else [[s[0]]] + Singles(s[1..])
  }

  // ---- Conservation ----

  function Join(tokens: seq<string>, dlm: string): string {
    if tokens == [] then "" else if |tokens| == 1 then tokens[0] else tokens[0] + dlm + Join(tokens[1..], dlm)
  }

  function Concat(tokens: seq<string>): string {
    if tokens == [] then "" else tokens[0] + Concat(tokens[1..])
  }

  /** Joining the tokens with the delimiter gives back the text; kept delimiters need no joining. */
  lemma {:induction false} SplitConserves(str: string, dlm: string, from: nat)
    requires from <= |str|
    ensures Tokens(str, dlm, false, from) != [] && Join(Tokens(str, dlm, false, from), dlm) == str[from..]
    ensures Concat(Tokens(str, dlm, true, from)) == str[from..]
    ensures |Tokens(str, dlm, true, from)| == |Tokens(str, dlm, false, from)| <= |str| - from + 1
    decreases |str| - from
  {
    hide Scan, Tokens;
    TokensFrom(str, dlm, false, from);
    TokensFrom(str, dlm, true, from);
    TokensFrom(str, dlm, false, |str| + 1);
    TokensFrom(str, dlm, true, |str| + 1);
    ScanBehindToken(str, dlm, from);
    var e := Scan(str, dlm, from, 0);
    if e < |str| {
      SplitConserves(str, dlm, e + 1);
      assert str[from..] == str[from..e + 1 - |dlm|] + str[e + 1 - |dlm|..e + 1] + str[e + 1..];
      assert str[from..] == str[from..e + 1] + str[e + 1..];
    }
  }

  // ---- When no token contains the delimiter ----

  /** The first `b` characters of the delimiter end at index `i`. */
  ghost predicate Ends(s: string, dlm: string, i: nat, b: nat) {
    b <= i <= |s| && b <= |dlm| && s[i - b..i] == dlm[..b]
  }

  ghost predicate Contains(s: string, dlm: string) {
    exists i: nat :: Ends(s, dlm, i, |dlm|)
  }

  /** Behind `k` characters of the delimiter the first `b - 1` characters of it have just been read as well. */
  ghost predicate Overlap(dlm: string, k: nat, b: nat) {
    2 <= b <= k < |dlm| && dlm[k - b + 1..k] == dlm[..b - 1]
  }

  /**
    * Going back to one character or none loses nothing: wherever the delimiter overlaps itself, a mismatch
    * of the longer part is also one of the shorter part.
    */
  ghost predicate Restartable(dlm: string) {
    forall k: nat, b: nat | Overlap(dlm, k, b) :: dlm[b - 1] == dlm[k]
  }

  /** No longer prefix of the delimiter ends here within the token. */
  ghost predicate Longest(str: string, dlm: string, tkn: nat, its: nat, itd: nat) {
    forall b: nat | Ends(str, dlm, its, b) && b <= its - tkn :: b <= itd
  }

  lemma EndsBefore(str: string, dlm: string, its: nat, b: nat)
    requires Ends(str, dlm, its + 1, b) && b > 0
    ensures Ends(str, dlm, its, b - 1) && str[its] == dlm[b - 1]
  {
    var s := str[its + 1 - b..its + 1];
    assert s[b - 1] == str[its] && dlm[..b][b - 1] == dlm[b - 1];
    assert s[..b - 1] == str[its - (b - 1)..its] && dlm[..b][..b - 1] == dlm[..b - 1];
  }

  lemma OverlapOf(str: string, dlm: string, its: nat, itd: nat, b: nat)
    requires 2 <= b <= itd < |dlm| && Ends(str, dlm, its, itd) && Ends(str, dlm, its, b - 1)
    ensures Overlap(dlm, itd, b)
  {
    assert str[its - itd..its][itd - b + 1..] == str[its - (b - 1)..its];
    assert dlm[..itd][itd - b + 1..] == dlm[itd - b + 1..itd];
  }

  lemma LongestStep(str: string, dlm: string, tkn: nat, its: nat, itd: nat)
    requires Restartable(dlm) && Matched(str, dlm, tkn, its, itd) && its < |str|
    requires Longest(str, dlm, tkn, its, itd)
    ensures Longest(str, dlm, tkn, its + 1, Advance(dlm, itd, str[its]))
  {
    var next := its + 1;
    forall b: nat | Ends(str, dlm, next, b) && b <= next - tkn
      ensures b <= Advance(dlm, itd, str[its])
    {
      if b > 0 {
        EndsBefore(str, dlm, its, b);
        assert b - 1 <= itd;
        if 2 <= b <= itd {
          OverlapOf(str, dlm, its, itd, b);
        }
      }
    }
  }

  /** The scan stops at the first delimiter. */
  lemma {:induction false} ScanFindsFirst(str: string, dlm: string, tkn: nat, its: nat, itd: nat, p: nat)
    requires Restartable(dlm) && Matched(str, dlm, tkn, its, itd) && Longest(str, dlm, tkn, its, itd)
    requires its <= p <= Scan(str, dlm, its, itd) && tkn + |dlm| <= p
    ensures !Ends(str, dlm, p, |dlm|)
    decreases |str| - its
  {
    if p > its {
      MatchStep(str, dlm, tkn, its, itd);
      LongestStep(str, dlm, tkn, its, itd);
      ScanFindsFirst(str, dlm, tkn, its + 1, Advance(dlm, itd, str[its]), p);
    }
  }

  lemma SliceOfSlice(s: string, from: nat, to: nat, i: nat, j: nat)
    requires i <= j && from + j <= to <= |s|
    ensures s[from..to][i..j] == s[from + i..from + j]
  {
    var x, y := s[from..to][i..j], s[from + i..from + j];
    forall k | 0 <= k < j - i
      ensures x[k] == y[k]
    {
      assert x[k] == s[from..to][i + k] == s[from + i + k];
    }
  }

  /** With such a delimiter no token contains it. */
  lemma {:induction false} TokensAreFree(str: string, dlm: string, from: nat, i: nat)
    requires dlm != "" && Restartable(dlm) && from <= |str| && i < |Tokens(str, dlm, false, from)|
    ensures !Contains(Tokens(str, dlm, false, from)[i], dlm)
    decreases |str| - from
  {
    hide Scan;
    ScanMatches(str, dlm, from, from, 0);
    var e := Scan(str, dlm, from, 0);
    if i > 0 {
      TokensAreFree(str, dlm, e + 1, i - 1);
    } else {
      TokensFrom(str, dlm, false, from);
      hide Tokens;
      var token := Tokens(str, dlm, false, from)[0];
      var end := if e == |str| then e else e + 1 - |dlm|;
      assert token == str[from..end];
      forall j: nat | |dlm| <= j <= |token|
        ensures !Ends(token, dlm, j, |dlm|)
      {
        ScanFindsFirst(str, dlm, from, from, 0, from + j);
        SliceOfSlice(str, from, end, j - |dlm|, j);
      }
    }
  }

  /** With any other delimiter there is a text that is one token although it contains the delimiter. */
  lemma TokenCanContain(dlm: string, k: nat, b: nat)
    requires Overlap(dlm, k, b) && dlm[b - 1] != dlm[k]
    ensures var str := dlm[..k] + dlm[b - 1..];
            Tokens(str, dlm, false, 0) == [str] && Contains(str, dlm)
  {
    var str := dlm[..k] + dlm[b - 1..];
    ScanPrefix(str, dlm, 0, k);
    assert str[k] == dlm[b - 1];
    ScanShort(str, dlm, k + 1, Advance(dlm, k, str[k]));
    assert str[0..] == str;
    assert str[k - b + 1..] == dlm[..b - 1] + dlm[b - 1..] == dlm;
    assert str[|str| - |dlm|..|str|] == dlm == dlm[..|dlm|];
    assert Ends(str, dlm, |str|, |dlm|);
  }

  lemma {:induction false} ScanPrefix(str: string, dlm: string, i: nat, k: nat)
    requires i <= k < |dlm| && k < |str| && str[..k] == dlm[..k]
    ensures Scan(str, dlm, i, i) == Scan(str, dlm, k, k)
    decreases k - i
  {
    if i < k {
      assert str[i] == str[..k][i] == dlm[i];
      ScanPrefix(str, dlm, i + 1, k);
    }
  }

  /** Too few characters are left to complete the delimiter. */
  lemma {:induction false} ScanShort(str: string, dlm: string, its: nat, itd: nat)
    requires its <= |str| && itd + (|str| - its) < |dlm|
    ensures Scan(str, dlm, its, itd) == |str|
    decreases |str| - its
  {
    if its < |str| {
      ScanShort(str, dlm, its + 1, Advance(dlm, itd, str[its]));
    }
  }

  /** No token of any text contains the delimiter if and only if the delimiter is restartable. */
  lemma SplitsAllIff(dlm: string)
    requires dlm != ""
    ensures Restartable(dlm) <==>
            forall str: string, i | 0 <= i < |Tokens(str, dlm, false, 0)| ::
              !Contains(Tokens(str, dlm, false, 0)[i], dlm)
  {
    if Restartable(dlm) {
      forall str: string, i | 0 <= i < |Tokens(str, dlm, false, 0)|
        ensures !Contains(Tokens(str, dlm, false, 0)[i], dlm)
      {
        TokensAreFree(str, dlm, 0, i);
      }
    } else {
      var k: nat, b: nat :| Overlap(dlm, k, b) && dlm[b - 1] != dlm[k];
      TokenCanContain(dlm, k, b);
      var str := dlm[..k] + dlm[b - 1..];
      assert Tokens(str, dlm, false, 0)[0] == str;
    }
  }

  /** A delimiter whose first character does not come again is restartable. */
  lemma UniqueFirst(dlm: string)
    requires dlm != "" && dlm[0] !in dlm[1..]
    ensures Restartable(dlm)
  {
    forall k: nat, b: nat
      ensures Overlap(dlm, k, b) ==> dlm[0] in dlm[1..]
    {
      if Overlap(dlm, k, b) {
        OverlapRecurs(dlm, k, b);
      }
    }
  }

  lemma OverlapRecurs(dlm: string, k: nat, b: nat)
    requires Overlap(dlm, k, b)
    ensures dlm[0] in dlm[1..]
  {
    assert dlm[k - b + 1..k][0] == dlm[..b - 1][0] == dlm[0];
    assert dlm[1..][k - b] == dlm[0];
  }

  /** "aab" is not: in "aaab" it goes unnoticed. */
  lemma MissedDelimiter()
    ensures Tokens("aaab", "aab", false, 0) == ["aaab"] && Contains("aaab", "aab")
  {
    var dlm := "aab";
    assert dlm[1..2] == dlm[..1];
    TokenCanContain(dlm, 2, 2);
    assert dlm[..2] + dlm[1..] == "aaab";
  }

  // ---- The iterator ----

  /** The closure of lt_csv_Split with its upvalues. */
  class Splitter {
    const str: string
    const dlm: string
    const keep: bool
    var its: nat
    var cnt: nat

    constructor (text: string, delimiter: string, keepDelimiter: bool)
      ensures str == text && dlm == delimiter && keep == keepDelimiter
      ensures its == 0 && cnt == 0
    {
      str, dlm, keep, its, cnt := text, delimiter, keepDelimiter, 0, 0;
    }

    /** dlm[itd]; behind the last character there is the terminating NUL. */
    function DlmChar(itd: nat): char
      requires itd <= |dlm|
    {
      if itd < |dlm| then dlm[itd] else '\0'
    }

    /** t_csv_split: the next token with its number, or nil for ever. */
    method Next() returns (token: Option<string>)
      requires dlm != "" || '\0' !in str
      modifies this
      ensures var rest := Tokens(str, dlm, keep, old(its));
              if rest == [] then token == None && its == old(its) && cnt == old(cnt)
              else token == Some(rest[0]) && Tokens(str, dlm, keep, its) == rest[1..] && cnt == old(cnt) + 1
    {
      hide Tokens;
      TokensFrom(str, dlm, keep, its);
      if its > |str| {
        return None;
      }
      var tkn, i, itd := its, its, 0;
      ScanBehindToken(str, dlm, tkn);
      while i < |str|
        invariant tkn <= i <= |str| && (itd < |dlm| || (dlm == "" && itd == 0)) && its == old(its) && cnt == old(cnt)
        invariant Scan(str, dlm, i, itd) == Scan(str, dlm, tkn, 0)
      {
        var matched := if str[i] == DlmChar(itd) then itd + 1 else if str[i] == DlmChar(0) then 1 else 0;
        assert dlm != "" ==> matched == Advance(dlm, itd, str[i]);
        assert dlm == "" ==> str[i] in str && matched == 0;
        if matched == |dlm| {
          break;
        }
        i, itd := i + 1, matched;
      }
      assert i == Scan(str, dlm, tkn, 0);
      var length := i - tkn - (if i < |str| then if keep then -1 else |dlm| - 1 else 0);
      assert i == |str| ==> str[tkn..tkn + length] == str[tkn..];
      token := Some(str[tkn..tkn + length]);
      its := i + 1;
      cnt := cnt + 1;
    }
  }

  /** A loop over the iterator. */
  method SplitAll(text: string, dlm: string, keep: bool) returns (tokens: seq<string>)
    requires dlm != "" || '\0' !in text
    ensures tokens == Tokens(text, dlm, keep, 0)
  {
    hide Tokens;
    tokens := [];
    var splitter := new Splitter(text, dlm, keep);
    while true
      invariant fresh(splitter) && splitter.str == text && splitter.dlm == dlm && splitter.keep == keep
      invariant tokens + Tokens(text, dlm, keep, splitter.its) == Tokens(text, dlm, keep, 0)
      decreases |Tokens(text, dlm, keep, splitter.its)|
    {
      var token := splitter.Next();
      if token.None? {
        return tokens;
      }
      tokens := tokens + [token.value];
    }
  }
}
