/**
 * `parseEnv` (src/index.ts): a configuration value such as
 * `RECIPIENTS` or `DISCORD_WEBHOOKS` becomes the list of its entries.
 * The source applies the global regular expression
 * `/"([^"]*)"|'([^']*)'|([^\s,]+)/g` and keeps, of each match, the capture
 * that took part; `Scan` is that left-to-right match, written as a scanner.
 */
module EnvParser {
  import opened Wrappers
  import opened Text

  /** The characters the unquoted alternative `[^\s,]+` does not accept. */
  predicate IsSeparator(c: char) {
    IsWhitespace(c) || c == ','
  }

  predicate IsQuote(c: char) {
    c == '"' || c == '\''
  }

  predicate AllSeparators(s: string) {
    forall i :: 0 <= i < |s| ==> IsSeparator(s[i])
  }

  predicate NoSeparators(s: string) {
    forall i :: 0 <= i < |s| ==> !IsSeparator(s[i])
  }

  predicate NoQuotes(s: string) {
    forall i :: 0 <= i < |s| ==> !IsQuote(s[i])
  }

  /** An entry that parses back unquoted: non-empty, no separator, no quote. */
  predicate BareEntry(t: string) {
    t != [] && NoSeparators(t) && NoQuotes(t)
  }

  /** The length of the greedy match of `[^\s,]*` at the start of s. */
  function RunLength(s: string): (n: nat)
    ensures n <= |s|
    ensures NoSeparators(s[..n])
    ensures n == |s| || IsSeparator(s[n])
    decreases |s|
  {
    if s == [] || IsSeparator(s[0]) then 0
    else
      var m := RunLength(s[1..]);
      assert s[..m + 1] == [s[0]] + s[1..][..m];
      m + 1
  }

  /** The first index of c in s, or -1 when there is none. */
  function IndexOf(s: string, c: char): (r: int)
    ensures -1 <= r < |s|
    ensures r >= 0 ==> s[r] == c
    ensures forall i :: 0 <= i < |s| && (r < 0 || i < r) ==> s[i] != c
    decreases |s|
  {
    if s == [] then -1
    else if s[0] == c then 0
    else
      var k := IndexOf(s[1..], c);
      if k < 0 then -1 else k + 1
  }

  /**
   * The captures of the successive matches in s. At a position the first
   * alternative that matches wins: a quote that occurs again later opens a
   * quoted span, whose interior is the token; otherwise a character that is
   * not a separator starts a maximal unquoted run (which may hold quotes);
   * a separator matches no alternative and is stepped over.
   */
  function Scan(s: string): (tokens: seq<string>)
    decreases |s|
  {
    if s == [] then []
    else if IsSeparator(s[0]) then Scan(s[1..])
    else if IsQuote(s[0]) && IndexOf(s[1..], s[0]) >= 0 then
      var j := IndexOf(s[1..], s[0]);
      [s[1..j + 1]] + Scan(s[j + 2..])
    else
      var n := RunLength(s);
      [s[..n]] + Scan(s[n..])
  }

  /** `parseEnv(env)`: an absent or empty configuration value gives no entries. */
  function ParseEnv(env: Option<string>): (tokens: seq<string>)
  {
    if env.None? || env.value == "" then [] else Scan(env.value)
  }

  /**
   * A value yields no entry exactly when it is absent or made of separators
   * only; a present value is scanned as it stands (the guard against the
   * empty string changes nothing).
   */
  lemma ParseEnvNoEntries(env: Option<string>)
    ensures ParseEnv(env) == [] <==> env.None? || AllSeparators(env.value)
    ensures env.Some? ==> ParseEnv(env) == Scan(env.value)
  {
    if env.Some? {
      ScanEmptyIff(env.value);
    }
  }

  /** The scan finds nothing exactly when every character is a separator. */
  lemma {:induction false} ScanEmptyIff(s: string)
    ensures Scan(s) == [] <==> AllSeparators(s)
    decreases |s|
  {
    if s != [] {
      if IsSeparator(s[0]) {
        ScanEmptyIff(s[1..]);
        assert AllSeparators(s) <==> AllSeparators(s[1..]) by {
          assert forall i :: 0 <= i < |s[1..]| ==> s[1..][i] == s[i + 1];
        }
      }
    }
  }

  /** Separators in front of the rest produce nothing. */
  lemma {:induction false} ScanSkipsSeparators(w: string, s: string)
    requires AllSeparators(w)
    ensures Scan(w + s) == Scan(s)
    decreases |w|
  {
    if w != [] {
      assert (w + s)[0] == w[0];
      assert (w + s)[1..] == w[1..] + s;
      assert Scan(w + s) == Scan((w + s)[1..]);
      assert AllSeparators(w[1..]) by {
        assert forall i :: 0 <= i < |w[1..]| ==> w[1..][i] == w[i + 1];
      }
      ScanSkipsSeparators(w[1..], s);
    } else {
      assert w + s == s;
    }
  }

  /** A quoted span yields its interior verbatim, separators and all. */
  lemma ScanQuoted(q: char, t: string, rest: string)
    requires IsQuote(q) && q !in t
    ensures Scan([q] + t + [q] + rest) == [t] + Scan(rest)
  {
    NotWhitespace(q);
    QuotedSpan(q, t, rest);
  }

  /** The closing quote of a quoted span is the first one after the opening quote. */
  lemma QuotedSpan(q: char, t: string, rest: string)
    requires q !in t
    ensures var s := [q] + t + [q] + rest;
            s[0] == q && IndexOf(s[1..], q) == |t| && s[1..|t| + 1] == t && s[|t| + 2..] == rest
  {
    var s := [q] + t + [q] + rest;
    assert s[1..][|t|] == q;
    assert forall i :: 0 <= i < |t| ==> s[1..][i] == t[i];
    assert s[1..|t| + 1] == t;
    assert s[|t| + 2..] == rest;
  }

  /**
   * A run of non-separators that a separator (or the end) follows is one
   * token, quotes inside it included; it may even start with a quote, as long
   * as that quote does not occur again (an unmatched quote is literal).
   */
  lemma ScanRun(t: string, rest: string)
    requires t != [] && NoSeparators(t)
    requires IsQuote(t[0]) ==> t[0] !in t[1..] + rest
    requires rest == [] || IsSeparator(rest[0])
    ensures Scan(t + rest) == [t] + Scan(rest)
  {
    var s := t + rest;
    assert s[0] == t[0];
    assert s[1..] == t[1..] + rest;
    RunOf(t, rest);
  }

  /** The run at the start of t + rest is t. */
  lemma RunOf(t: string, rest: string)
    requires NoSeparators(t)
    requires rest == [] || IsSeparator(rest[0])
    ensures var s := t + rest;
            RunLength(s) == |t| && s[..|t|] == t && s[|t|..] == rest
  {
    var s := t + rest;
    assert s[..|t|] == t;
    assert s[|t|..] == rest;
  }

  /** Entries without separators or quotes, joined by separators, parse back. */
  lemma {:induction false} ScanJoinBare(ts: seq<string>, sep: string)
    requires sep != [] && AllSeparators(sep)
    requires forall k :: 0 <= k < |ts| ==> BareEntry(ts[k])
    ensures Scan(Join(ts, sep)) == ts
    decreases |ts|
  {
    if |ts| == 1 {
      ScanRun(ts[0], []);
      assert ts[0] + [] == ts[0];
    } else if |ts| > 1 {
      var tail := Join(ts[1..], sep);
      assert Join(ts, sep) == ts[0] + (sep + tail);
      ScanRun(ts[0], sep + tail);
      ScanSkipsSeparators(sep, tail);
      ScanJoinBare(ts[1..], sep);
    }
  }

  /** Every entry wrapped in the quote q. */
  function QuoteAll(ts: seq<string>, q: char): (r: seq<string>)
    ensures |r| == |ts|
    ensures forall k :: 0 <= k < |ts| ==> r[k] == [q] + ts[k] + [q]
  {
    seq(|ts|, k requires 0 <= k < |ts| => [q] + ts[k] + [q])
  }

  /**
   * Any list of entries free of the quote q (empty ones included), quoted
   * and joined by separators (possibly none), parses back to itself.
   */
  lemma {:induction false} ScanJoinQuoted(ts: seq<string>, q: char, sep: string)
    requires IsQuote(q) && AllSeparators(sep)
    requires forall k :: 0 <= k < |ts| ==> q !in ts[k]
    ensures Scan(Join(QuoteAll(ts, q), sep)) == ts
    decreases |ts|
  {
    var qs := QuoteAll(ts, q);
    if |ts| == 1 {
      ScanQuoted(q, ts[0], []);
      assert [q] + ts[0] + [q] + [] == qs[0];
    } else if |ts| > 1 {
      var tail := Join(qs[1..], sep);
      assert qs[1..] == QuoteAll(ts[1..], q);
      assert Join(qs, sep) == [q] + ts[0] + [q] + (sep + tail);
      ScanQuoted(q, ts[0], sep + tail);
      ScanSkipsSeparators(sep, tail);
      ScanJoinQuoted(ts[1..], q, sep);
    }
  }

  /**
   * A reference splitter: walk s left to right, collecting the current
   * field, cut at every separator, and drop the empty fields.
   */
  function Fields(s: string, field: string): seq<string>
    decreases |s|
  {
    if s == [] then (if field == [] then [] else [field])
    else if IsSeparator(s[0]) then (if field == [] then [] else [field]) + Fields(s[1..], [])
    else Fields(s[1..], field + [s[0]])
  }

  lemma {:induction false} FieldsFromRun(s: string, field: string)
    requires NoQuotes(s)
    ensures var n := RunLength(s);
            Fields(s, field) == if field == [] then Scan(s) else [field + s[..n]] + Scan(s[n..])
    decreases |s|
  {
    if s == [] {
      assert RunLength(s) == 0 && Scan(s) == [] && s[..0] == [] && s[0..] == [];
      assert field + s[..0] == field;
    } else {
      assert NoQuotes(s[1..]) by {
        forall i | 0 <= i < |s[1..]| ensures !IsQuote(s[1..][i]) {
          assert s[1..][i] == s[i + 1];
        }
      }
      if IsSeparator(s[0]) {
        FieldsFromRun(s[1..], []);
        FieldsAtSeparator(s, field);
      } else {
        FieldsFromRun(s[1..], field + [s[0]]);
        FieldsInRun(s, field);
      }
    }
  }

  lemma FieldsAtSeparator(s: string, field: string)
    requires s != [] && IsSeparator(s[0])
    requires Fields(s[1..], []) == Scan(s[1..])
    ensures var n := RunLength(s);
            Fields(s, field) == if field == [] then Scan(s) else [field + s[..n]] + Scan(s[n..])
  {
    assert RunLength(s) == 0;
    assert field + s[..0] == field && s[0..] == s;
  }

  lemma FieldsInRun(s: string, field: string)
    requires s != [] && !IsSeparator(s[0]) && !IsQuote(s[0])
    requires var m := RunLength(s[1..]);
             Fields(s[1..], field + [s[0]]) == [field + [s[0]] + s[1..][..m]] + Scan(s[1..][m..])
    ensures var n := RunLength(s);
            Fields(s, field) == if field == [] then Scan(s) else [field + s[..n]] + Scan(s[n..])
  {
    var n, m := RunLength(s), RunLength(s[1..]);
    var tail := s[1..];
    assert n == m + 1;
    assert s[..n] == [s[0]] + tail[..m];
    assert s[n..] == tail[m..];
    assert field + [s[0]] + tail[..m] == field + s[..n];
    assert Fields(s, field) == Fields(tail, field + [s[0]]);
    assert Scan(s) == [s[..n]] + Scan(s[n..]);
    assert Scan(tail[m..]) == Scan(s[n..]);
    if field == [] {
      assert field + s[..n] == s[..n];
      assert [field + [s[0]] + tail[..m]] == [s[..n]];
      assert Fields(s, field) == Scan(s);
    } else {
      assert [field + [s[0]] + tail[..m]] == [field + s[..n]];
      assert Fields(s, field) == [field + s[..n]] + Scan(s[n..]);
    }
  }

  /** Without quotes, parsing is plain field splitting at whitespace and commas. */
  lemma ScanIsFieldSplitting(s: string)
    requires NoQuotes(s)
    ensures Scan(s) == Fields(s, [])
  {
    FieldsFromRun(s, []);
  }

  /** A stray quote stays literal, in the middle of a run or at its start. */
  lemma UnmatchedQuoteIsLiteral()
    ensures Scan("a\"b") == ["a\"b"]
    ensures Scan("'ab") == ["'ab"]
  {
    NotWhitespace('a');
    NotWhitespace('"');
    NotWhitespace('b');
    NotWhitespace('\'');
    ScanRun("a\"b", []);
    assert "a\"b" + [] == "a\"b";
    ScanRun("'ab", []);
    assert "'ab" + [] == "'ab";
  }

  /** A bare entry, separators, and the rest: the entry, then the rest's entries. */
  lemma ScanRunThen(t: string, sep: string, rest: string, ts: seq<string>)
    requires BareEntry(t)
    requires sep != [] && AllSeparators(sep)
    requires Scan(rest) == ts
    ensures Scan(t + (sep + rest)) == [t] + ts
  {
    ScanRun(t, sep + rest);
    ScanSkipsSeparators(sep, rest);
  }

  /** A quoted entry, separators, and the rest: the interior, then the rest's entries. */
  lemma ScanQuotedThen(q: char, t: string, sep: string, rest: string, ts: seq<string>)
    requires IsQuote(q) && q !in t && AllSeparators(sep)
    requires Scan(rest) == ts
    ensures Scan([q] + t + [q] + (sep + rest)) == [t] + ts
  {
    ScanQuoted(q, t, sep + rest);
    ScanSkipsSeparators(sep, rest);
  }

  /**
   * The shape of `a,b c "d e" 'f g'` for any entries in its places: three
   * bare entries separated by a comma and by spaces, then a double-quoted
   * and a single-quoted entry, give the five entries in order.
   */
  lemma ScanMixedEntries(s1: string, s2: string, s3: string, s4: string, s5: string)
    requires BareEntry(s1) && BareEntry(s2) && BareEntry(s3)
    requires '"' !in s4 && '\'' !in s5
    ensures Scan(s1 + ([','] + (s2 + ([' '] + (s3 + ([' '] + (['"'] + s4 + ['"']
                 + ([' '] + (['\''] + s5 + ['\''] + ([] + [])))))))))) == [s1, s2, s3, s4, s5]
  {
    var sp: string := [' '];
    SpaceIsWhitespace();
    var r5 := ['\''] + s5 + ['\''] + ([] + []);
    var r4 := ['"'] + s4 + ['"'] + (sp + r5);
    var r3 := s3 + (sp + r4);
    var r2 := s2 + (sp + r3);
    ScanQuotedThen('\'', s5, [], [], []);
    ScanQuotedThen('"', s4, sp, r5, [s5]);
    ScanRunThen(s3, sp, r4, [s4] + [s5]);
    ScanRunThen(s2, sp, r3, [s3] + ([s4] + [s5]));
    ScanRunThen(s1, [','], r2, [s2] + ([s3] + ([s4] + [s5])));
    assert [s1] + ([s2] + ([s3] + ([s4] + [s5]))) == [s1, s2, s3, s4, s5];
  }

  /** The concrete case: `a,b c "d e" 'f g'` gives a, b, c, d e and f g. */
  lemma ParseEnvExample(env: string)
    requires env == "a,b c \"d e\" 'f g'"
    ensures ParseEnv(Some(env)) == ["a", "b", "c", "d e", "f g"]
  {
    NotWhitespace('a');
    NotWhitespace('b');
    NotWhitespace('c');
    assert BareEntry("a") && BareEntry("b") && BareEntry("c");
    ScanMixedEntries("a", "b", "c", "d e", "f g");
    ExampleSpelling(env);
  }

  lemma ExampleSpelling(env: string)
    requires env == "a,b c \"d e\" 'f g'"
    ensures env == "a" + ([','] + ("b" + ([' '] + ("c" + ([' '] + (['"'] + "d e" + ['"']
                 + ([' '] + (['\''] + "f g" + ['\''] + ([] + [])))))))))
  {
    var rhs: string := "a" + ([','] + ("b" + ([' '] + ("c" + ([' '] + (['"'] + "d e" + ['"']
                 + ([' '] + (['\''] + "f g" + ['\''] + ([] + [])))))))));
    assert |rhs| == |env|;
    forall i | 0 <= i < |env| ensures env[i] == rhs[i] { }
  }
}
