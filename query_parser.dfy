/** `parse_search_query` of the command-line front end: splits a search
    string into the query text and the number of results wanted. */
module QueryParser {
  import opened Wrappers
  import opened Text

  const DefaultCount: int := 10

  /** The parsed query: the words kept, joined by single spaces, and the count. */
  datatype Query = Query(text: string, count: int)

  /** The words that announce a count in the next token. */
  predicate IsCountFlag(t: string) {
    t == "-count" || t == "--count" || t == "-c" || t == "--c"
  }

  /** A token that is itself a count: `--`, any further dashes, then digits. */
  predicate IsDashCount(t: string) {
    StartsWith(t, "--") && IsDigits(StripDashes(t[2..]))
  }

  function DashCountValue(t: string): nat
    requires IsDashCount(t)
  {
    DigitsValue(StripDashes(t[2..]))
  }

  /** The scan from token `i` on, with the words kept so far and the current
      count, as the loop of `parse_search_query` performs it; `read` is how
      the token after a flag word is turned into a count. */
  function ScanFrom(parts: seq<string>, i: nat, kept: seq<string>, count: int,
                    read: string -> Option<int>): (seq<string>, int)
    requires i <= |parts|
    decreases |parts| - i
  {
    if i == |parts| then (kept, count)
    else if IsCountFlag(parts[i]) && i + 1 < |parts| && read(parts[i + 1]).Some? then
      ScanFrom(parts, i + 2, kept, read(parts[i + 1]).value, read)
    else if !IsCountFlag(parts[i]) && IsDashCount(parts[i]) then
      ScanFrom(parts, i + 1, kept, DashCountValue(parts[i]), read)
    else ScanFrom(parts, i + 1, kept + [parts[i]], count, read)
  }

  /** The scan as written: the token after a flag word must be an `int()` literal. */
  function Scan(parts: seq<string>): (seq<string>, int) {
    ScanFrom(parts, 0, [], DefaultCount, ParseInt)
  }

  /** What `parse_search_query(s)` returns. */
  function ParseSpec(s: string): Query {
    var r := Scan(SplitWhitespace(s));
    Query(Join(" ", r.0), r.1)
  }

  /** `parse_search_query` */
  method ParseSearchQuery(s: string) returns (q: Query)
    ensures q == ParseSpec(s)
  {
    var parts := SplitWhitespace(s);
    var kept: seq<string> := [];
    var count := DefaultCount;
    var i := 0;
    while i < |parts|
      invariant i <= |parts|
      invariant ScanFrom(parts, i, kept, count, ParseInt) == Scan(parts)
      decreases |parts| - i
    {
      var part := parts[i];
      if IsCountFlag(part) {
        if i + 1 < |parts| {
          var n := ParseInt(parts[i + 1]);
          if n.Some? {
            count := n.value;
            i := i + 2;
            continue;
          }
        }
      } else if StartsWith(part, "--") && IsDigits(StripDashes(part[2..])) {
        count := DigitsValue(StripDashes(part[2..]));
        i := i + 1;
        continue;
      }
      kept := kept + [part];
      i := i + 1;
    }
    return Query(Join(" ", kept), count);
  }

  /** The reading of a flag's argument the documented `-count --5` form
      needs: an `int()` literal, or the dash-and-digits form. */
  function FlagArgument(t: string): (r: Option<int>)
    ensures ParseInt(t).Some? ==> r == ParseInt(t)
    ensures r.None? <==> ParseInt(t).None? && !IsDashCount(t)
  {
    if ParseInt(t).Some? then ParseInt(t)
    else if IsDashCount(t) then Some(DashCountValue(t))
    else None
  }

  function ScanFixed(parts: seq<string>): (seq<string>, int) {
    ScanFrom(parts, 0, [], DefaultCount, FlagArgument)
  }

  /** `parse_search_query` with a flag accepting either form of count. */
  function ParseFixed(s: string): Query {
    var r := ScanFixed(SplitWhitespace(s));
    Query(Join(" ", r.0), r.1)
  }

  // ------------------------------------------------------------ properties

  /** The words kept before token `i` stay in front, and do not affect the rest of the scan. */
  lemma {:induction false} ScanKeepsPrefix(parts: seq<string>, i: nat, kept: seq<string>, count: int,
                                           read: string -> Option<int>)
    requires i <= |parts|
    ensures ScanFrom(parts, i, kept, count, read).0 == kept + ScanFrom(parts, i, [], count, read).0
    ensures ScanFrom(parts, i, kept, count, read).1 == ScanFrom(parts, i, [], count, read).1
    decreases |parts| - i
  {
    if i < |parts| {
      var t := parts[i];
      if IsCountFlag(t) && i + 1 < |parts| && read(parts[i + 1]).Some? {
        ScanKeepsPrefix(parts, i + 2, kept, read(parts[i + 1]).value, read);
      } else if !IsCountFlag(t) && IsDashCount(t) {
        ScanKeepsPrefix(parts, i + 1, kept, DashCountValue(t), read);
      } else {
        ScanKeepsPrefix(parts, i + 1, kept + [t], count, read);
        ScanKeepsPrefix(parts, i + 1, [t], count, read);
        assert [] + [t] == [t];
        assert ScanFrom(parts, i, kept, count, read) == ScanFrom(parts, i + 1, kept + [t], count, read);
        assert ScanFrom(parts, i, [], count, read) == ScanFrom(parts, i + 1, [t], count, read);
        assert kept + [t] + ScanFrom(parts, i + 1, [], count, read).0 == kept + ([t] + ScanFrom(parts, i + 1, [], count, read).0);
      }
    }
  }

  /** A count token ends in a digit. */
  lemma DashCountLast(t: string)
    requires t != []
    ensures IsDashCount(t) ==> IsDigit(t[|t| - 1])
  {
    if IsDashCount(t) {
      var r := StripDashes(t[2..]);
      assert r == t[2..][|t| - 2 - |r|..];
      assert r[|r| - 1] == t[|t| - 1];
    }
  }

  /** The flag words themselves are never read as counts. */
  lemma FlagIsNotDashCount(t: string)
    requires IsCountFlag(t)
    ensures !IsDashCount(t)
  {
    var c := t[|t| - 1];
    assert c == 't' || c == 'c';
    DashCountLast(t);
  }

  /** The words the scan keeps from token `i` on are tokens of the input,
      at most one per token, and none of them only carries a count. */
  lemma {:induction false} ScanKeepsTokens(parts: seq<string>, i: nat, count: int, read: string -> Option<int>)
    requires i <= |parts|
    ensures |ScanFrom(parts, i, [], count, read).0| <= |parts| - i
    ensures forall t :: t in ScanFrom(parts, i, [], count, read).0 ==> t in parts && !IsDashCount(t)
    decreases |parts| - i
  {
    if i < |parts| {
      var t := parts[i];
      if IsCountFlag(t) && i + 1 < |parts| && read(parts[i + 1]).Some? {
        ScanKeepsTokens(parts, i + 2, read(parts[i + 1]).value, read);
      } else if !IsCountFlag(t) && IsDashCount(t) {
        ScanKeepsTokens(parts, i + 1, DashCountValue(t), read);
      } else {
        ScanKeepsTokens(parts, i + 1, count, read);
        ScanKeepsPrefix(parts, i + 1, [t], count, read);
        assert [] + [t] == [t];
        assert ScanFrom(parts, i, [], count, read) == ScanFrom(parts, i + 1, [t], count, read);
        if IsCountFlag(t) {
          FlagIsNotDashCount(t);
        }
      }
    }
  }

  /** Every word of the query text is a token of the input, and no token
      that only carries a count survives into the text. */
  lemma TextWordsAreTokens(s: string)
    ensures var r := Scan(SplitWhitespace(s));
      |r.0| <= |SplitWhitespace(s)| &&
      forall t :: t in r.0 ==> t in SplitWhitespace(s) && !IsDashCount(t)
  {
    ScanKeepsTokens(SplitWhitespace(s), 0, DefaultCount, ParseInt);
  }

  /** Without count tokens the text is the input's words, unchanged and in
      order, and the count is the default. */
  lemma {:induction false} ScanPlain(parts: seq<string>, i: nat, kept: seq<string>, count: int,
                                     read: string -> Option<int>)
    requires i <= |parts|
    requires forall j :: i <= j < |parts| ==> !IsCountFlag(parts[j]) && !IsDashCount(parts[j])
    ensures ScanFrom(parts, i, kept, count, read) == (kept + parts[i..], count)
    decreases |parts| - i
  {
    if i < |parts| {
      ScanPlain(parts, i + 1, kept + [parts[i]], count, read);
      assert kept + [parts[i]] + parts[i + 1..] == kept + parts[i..];
    } else {
      assert kept + parts[i..] == kept;
    }
  }

  lemma PlainQuery(s: string)
    requires forall t :: t in SplitWhitespace(s) ==> !IsCountFlag(t) && !IsDashCount(t)
    ensures ParseSpec(s) == Query(Join(" ", SplitWhitespace(s)), DefaultCount)
  {
    var parts := SplitWhitespace(s);
    ScanPlain(parts, 0, [], DefaultCount, ParseInt);
    assert [] + parts[0..] == parts;
  }

  /** Scanning `parts + rest` passes through the boundary in the state the
      scan of `parts` ends in, when `rest` cannot be read as a flag's value. */
  lemma {:induction false} ScanSplits(parts: seq<string>, rest: seq<string>, i: nat, kept: seq<string>, count: int,
                                      read: string -> Option<int>)
    requires i <= |parts|
    requires rest != [] ==> read(rest[0]).None?
    ensures var r := ScanFrom(parts, i, kept, count, read);
      ScanFrom(parts + rest, i, kept, count, read) == ScanFrom(parts + rest, |parts|, r.0, r.1, read)
    decreases |parts| - i
  {
    var all := parts + rest;
    if i < |parts| {
      assert all[i] == parts[i];
      if i + 1 < |parts| {
        assert all[i + 1] == parts[i + 1];
      }
      var t := parts[i];
      if IsCountFlag(t) && i + 1 < |parts| && read(parts[i + 1]).Some? {
        ScanSplits(parts, rest, i + 2, kept, read(parts[i + 1]).value, read);
      } else if !IsCountFlag(t) && IsDashCount(t) {
        ScanSplits(parts, rest, i + 1, kept, DashCountValue(t), read);
      } else {
        if IsCountFlag(t) && i + 1 == |parts| && rest != [] {
          assert all[i + 1] == rest[0];
        }
        ScanSplits(parts, rest, i + 1, kept + [t], count, read);
      }
    }
  }

  /** `str(n)` reads back as `n`. */
  lemma {:induction false} NatToStringValue(n: nat)
    ensures ParseInt(NatToString(n)) == Some(n)
    ensures DigitsValue(NatToString(n)) == n
  {
    if n < 10 {
      assert NatToString(n)[..0] == [];
    } else {
      NatToStringValue(n / 10);
      var s := NatToString(n);
      assert s[..|s| - 1] == NatToString(n / 10);
    }
  }

  /** A count flag at the end of the query overrides any earlier count and
      leaves the text as it was. */
  lemma LastCountWins(parts: seq<string>, n: nat)
    ensures Scan(parts + ["--count", NatToString(n)]) == (Scan(parts).0, n)
  {
    var rest := ["--count", NatToString(n)];
    assert ParseInt("--count").None? by {
      assert !DigitGroups("-count") by { assert !IsDigit('-'); }
    }
    ScanSplits(parts, rest, 0, [], DefaultCount, ParseInt);
    NatToStringValue(n);
    var all := parts + rest;
    assert all[|parts|] == "--count" && all[|parts| + 1] == NatToString(n);
  }

  /** The same for a token of dashes and digits such as `--5`. */
  lemma LastDashCountWins(parts: seq<string>, n: nat)
    ensures Scan(parts + ["--" + NatToString(n)]) == (Scan(parts).0, n)
  {
    var t := "--" + NatToString(n);
    NatToStringValue(n);
    assert t[2..] == NatToString(n);
    assert StripDashes(t[2..]) == NatToString(n);
    assert IsDashCount(t) && !IsCountFlag(t);
    assert ParseInt(t).None? by {
      assert t[1..][0] == '-';
    }
    ScanSplits(parts, [t], 0, [], DefaultCount, ParseInt);
    var all := parts + [t];
    assert all[|parts|] == t;
  }

  // ------------------------------------------------------------ the `-count --5` example

  /** Two dashes before digits make a count token of their value. */
  lemma DashDigits(d: string)
    requires IsDigits(d)
    ensures IsDashCount("--" + d) && DashCountValue("--" + d) == DigitsValue(d)
  {
    var t := "--" + d;
    assert t[..2] == "--";
    assert t[2..] == d;
  }

  /** Such a token is no flag word: its third character is a digit. */
  lemma DashDigitsNotFlag(d: string)
    requires IsDigits(d)
    ensures !IsCountFlag("--" + d)
  {
    var t := "--" + d;
    assert t[1] == '-' && IsDigit(t[2]);
  }

  /** Nor an `int()` literal: a sign followed by a dash. */
  lemma DashDigitsNotInt(d: string)
    ensures ParseInt("--" + d).None?
  {
    var t := "--" + d;
    assert t[1..][0] == '-';
  }

  /** `--<n>` is a count token and no `int()` literal. */
  lemma DashCountToken(n: nat)
    ensures var t := "--" + NatToString(n);
      IsDashCount(t) && !IsCountFlag(t) && DashCountValue(t) == n &&
      ParseInt(t).None? && FlagArgument(t) == Some(n)
  {
    var d := NatToString(n);
    NatToStringValue(n);
    DashDigits(d);
    DashDigitsNotFlag(d);
    DashDigitsNotInt(d);
  }

  /** `-count` is a flag word and reads as no count. */
  lemma MinusCountWord()
    ensures IsCountFlag("-count") && ParseInt("-count").None? && !IsDashCount("-count")
    ensures FlagArgument("-count").None? && IsWord("-count")
  {
    var f := "-count";
    assert |f| == 6 && f[0] == '-' && f[1] == 'c';
    assert forall i :: 0 <= i < |f| ==> f[i] == '-' || 'a' <= f[i] <= 'z';
    DashLetterToken(f);
  }

  /** A dash, a lower-case letter, then only dashes and lower-case letters:
      a word that is neither an integer nor a count token. */
  lemma DashLetterToken(t: string)
    requires |t| >= 2 && t[0] == '-' && 'a' <= t[1] <= 'z'
    requires forall i :: 0 <= i < |t| ==> t[i] == '-' || 'a' <= t[i] <= 'z'
    ensures ParseInt(t).None? && !IsDashCount(t) && FlagArgument(t).None? && IsWord(t)
  {
    assert t[1..][0] == t[1];
    assert t[..2] != "--" by { assert t[..2][1] == t[1]; }
  }

  /** The last two tokens a flag word `f` and a count token `t` that `read`
      rejects: the scan keeps `f` and takes its count from `t`. */
  lemma FlagThenDashCount(all: seq<string>, i: nat, kept: seq<string>, count: int,
                          read: string -> Option<int>)
    requires |all| == i + 2 && IsCountFlag(all[i]) && read(all[i + 1]).None?
    requires !IsCountFlag(all[i + 1]) && IsDashCount(all[i + 1])
    ensures ScanFrom(all, i, kept, count, read) == (kept + [all[i]], DashCountValue(all[i + 1]))
  {
    var next := ScanFrom(all, i + 1, kept + [all[i]], count, read);
    assert next == ScanFrom(all, i + 2, kept + [all[i]], DashCountValue(all[i + 1]), read);
  }

  /** The last two tokens a flag word and an argument `read` accepts: both
      are dropped and the count is the argument. */
  lemma FlagThenArgument(all: seq<string>, i: nat, kept: seq<string>, count: int,
                         read: string -> Option<int>)
    requires |all| == i + 2 && IsCountFlag(all[i]) && read(all[i + 1]).Some?
    ensures ScanFrom(all, i, kept, count, read) == (kept, read(all[i + 1]).value)
  {
  }

  /** As written, a flag word followed by a dash-and-digits count is kept as
      query text: `int("--5")` fails, so only the second token is read. */
  lemma FlagBeforeDashCountKept(parts: seq<string>, n: nat)
    ensures Scan(parts + ["-count", "--" + NatToString(n)]) == (Scan(parts).0 + ["-count"], n)
  {
    var t := "--" + NatToString(n);
    DashCountToken(n);
    MinusCountWord();
    FlagBeforeDashCountAt(parts, "-count", t, ParseInt);
  }

  /** The same for any flag word `f` and count token `t` that `read` rejects. */
  lemma FlagBeforeDashCountAt(parts: seq<string>, f: string, t: string, read: string -> Option<int>)
    requires IsCountFlag(f) && read(f).None? && read(t).None? && !IsCountFlag(t) && IsDashCount(t)
    ensures ScanFrom(parts + [f, t], 0, [], DefaultCount, read) ==
      (ScanFrom(parts, 0, [], DefaultCount, read).0 + [f], DashCountValue(t))
  {
    ScanSplits(parts, [f, t], 0, [], DefaultCount, read);
    var all := parts + [f, t];
    assert all[|parts|] == f && all[|parts| + 1] == t;
    var r := ScanFrom(parts, 0, [], DefaultCount, read);
    FlagThenDashCount(all, |parts|, r.0, r.1, read);
  }

  /** Plain words followed by `-count` and `--<n>`, joined by spaces, as a
      search string: "types of fruits -count --5" is one. */
  predicate PlainWords(front: seq<string>) {
    forall k :: 0 <= k < |front| ==> IsWord(front[k]) && !IsCountFlag(front[k]) && !IsDashCount(front[k])
  }

  lemma DashCountIsWord(n: nat)
    ensures IsWord("--" + NatToString(n))
  {
    var t := "--" + NatToString(n);
    assert forall i :: 2 <= i < |t| ==> t[i] == NatToString(n)[i - 2];
  }

  lemma ExampleSplits(front: seq<string>, n: nat)
    requires PlainWords(front)
    ensures SplitWhitespace(Join(" ", front + ["-count", "--" + NatToString(n)])) == front + ["-count", "--" + NatToString(n)]
  {
    var t := "--" + NatToString(n);
    var ws := front + ["-count", t];
    DashCountIsWord(n);
    MinusCountWord();
    forall k | 0 <= k < |ws| ensures IsWord(ws[k]) {
      if k >= |front| {
        assert ws[k] == "-count" || ws[k] == t;
      }
    }
    SplitJoin(ws);
  }

  lemma PlainWordsKept(front: seq<string>)
    requires PlainWords(front)
    ensures Scan(front).0 == front && ScanFixed(front).0 == front
  {
    ScanPlain(front, 0, [], DefaultCount, ParseInt);
    ScanPlain(front, 0, [], DefaultCount, FlagArgument);
    assert [] + front[0..] == front;
  }

  /** The documented example: for "types of fruits -count --5" the count is
      5, but `-count` stays in the text. */
  lemma DocExampleAsWritten(front: seq<string>, n: nat)
    requires PlainWords(front)
    ensures ParseSpec(Join(" ", front + ["-count", "--" + NatToString(n)])) ==
      Query(Join(" ", front + ["-count"]), n)
  {
    ExampleSplits(front, n);
    PlainWordsKept(front);
    FlagBeforeDashCountKept(front, n);
  }

  /** Reading a flag's argument in either form drops both tokens and sets
      the count, whatever came before. */
  lemma FixedFlagDashCountWins(parts: seq<string>, n: nat)
    ensures ScanFixed(parts + ["-count", "--" + NatToString(n)]) == (ScanFixed(parts).0, n)
  {
    DashCountToken(n);
    MinusCountWord();
    FlagArgumentAt(parts, "-count", "--" + NatToString(n), FlagArgument);
  }

  /** The same for any flag word `f` that `read` rejects and argument `t` it accepts. */
  lemma FlagArgumentAt(parts: seq<string>, f: string, t: string, read: string -> Option<int>)
    requires IsCountFlag(f) && read(f).None? && read(t).Some?
    ensures ScanFrom(parts + [f, t], 0, [], DefaultCount, read) ==
      (ScanFrom(parts, 0, [], DefaultCount, read).0, read(t).value)
  {
    ScanSplits(parts, [f, t], 0, [], DefaultCount, read);
    var all := parts + [f, t];
    assert all[|parts|] == f && all[|parts| + 1] == t;
    var r := ScanFrom(parts, 0, [], DefaultCount, read);
    FlagThenArgument(all, |parts|, r.0, r.1, read);
  }

  /** The documented example, read as documented: "types of fruits
      -count --5" gives the text "types of fruits" and the count 5. */
  lemma DocExampleFixed(front: seq<string>, n: nat)
    requires PlainWords(front)
    ensures ParseFixed(Join(" ", front + ["-count", "--" + NatToString(n)])) == Query(Join(" ", front), n)
  {
    ExampleSplits(front, n);
    PlainWordsKept(front);
    FixedFlagDashCountWins(front, n);
  }

  /** The fixed reading agrees with the one written on every query that
      does not put a dash-and-digits count after a flag word. */
  lemma {:induction false} FixedAgrees(parts: seq<string>, i: nat, kept: seq<string>, count: int)
    requires i <= |parts|
    requires forall j :: i <= j < |parts| - 1 && IsCountFlag(parts[j]) ==> !IsDashCount(parts[j + 1])
    ensures ScanFrom(parts, i, kept, count, FlagArgument) == ScanFrom(parts, i, kept, count, ParseInt)
    decreases |parts| - i
  {
    if i < |parts| {
      var t := parts[i];
      if IsCountFlag(t) && i + 1 < |parts| && ParseInt(parts[i + 1]).Some? {
        FixedAgrees(parts, i + 2, kept, ParseInt(parts[i + 1]).value);
      } else if !IsCountFlag(t) && IsDashCount(t) {
        FixedAgrees(parts, i + 1, kept, DashCountValue(t));
      } else {
        FixedAgrees(parts, i + 1, kept + [t], count);
      }
    }
  }
}
