/**
 * The JavaScript string primitives the notifier relies on, over strings of
 * Basic Multilingual Plane characters (one Dafny `char` stands for one
 * UTF-16 code unit that is not a surrogate): the whitespace class
 * shared by the regular-expression escape `\s` and by `trim`, `trimStart`
 * and `trimEnd`; `lastIndexOf` for one character; `Array.prototype.join`.
 */
module Text {

  /**
   * The class `\s` matches and `trim` removes: ECMAScript WhiteSpace and
   * LineTerminator (sections 12.2 and 12.3 of ECMA-262), that is TAB, LF,
   * VT, FF, CR, the space separators (space, U+00A0, U+1680, U+2000 to
   * U+200A, U+202F, U+205F, U+3000), LS, PS and ZWNBSP. Membership is
   * written as a recursion, so that a proof about an arbitrary character
   * does not unfold the whole class.
   */
  predicate IsWhitespace(c: char) {
    Occurs(c, "\t\n\U{000B}\U{000C}\r"
              + " \U{00A0}\U{1680}\U{2000}\U{2001}"
              + "\U{2002}\U{2003}\U{2004}\U{2005}\U{2006}"
              + "\U{2007}\U{2008}\U{2009}\U{200A}\U{2028}"
              + "\U{2029}\U{202F}\U{205F}\U{3000}\U{FEFF}")
  }

  predicate Occurs(c: char, s: string)
    decreases |s|
  {
    s != [] && (s[0] == c || Occurs(c, s[1..]))
  }

  lemma {:induction false} OccursIsMembership(c: char, s: string)
    ensures Occurs(c, s) <==> c in s
    decreases |s|
  {
    if s != [] {
      OccursIsMembership(c, s[1..]);
      assert s == [s[0]] + s[1..];
    }
  }

  /** A printable ASCII character other than the space, or a CJK character, is not whitespace. */
  lemma NotWhitespace(c: char)
    requires ' ' < c <= '~' || '\U{3000}' < c < '\U{FEFF}'
    ensures !IsWhitespace(c)
  {
    forall s: string ensures Occurs(c, s) <==> c in s {
      OccursIsMembership(c, s);
    }
  }

  /** The line break is whitespace. */
  lemma LineBreakIsWhitespace()
    ensures IsWhitespace('\n')
  {
  }

  /** The space is whitespace. */
  lemma SpaceIsWhitespace()
    ensures IsWhitespace(' ')
  {
    forall s: string ensures Occurs(' ', s) <==> ' ' in s {
      OccursIsMembership(' ', s);
    }
  }

  predicate AllWhitespace(s: string) {
    forall i :: 0 <= i < |s| ==> IsWhitespace(s[i])
  }

  /** `s.trimStart()`: the suffix left after removing the longest whitespace prefix. */
  function TrimStart(s: string): (r: string)
    ensures |r| <= |s| && r == s[|s| - |r|..]
    ensures AllWhitespace(s[..|s| - |r|])
    ensures r == [] || !IsWhitespace(r[0])
    decreases |s|
  {
    if s != [] && IsWhitespace(s[0]) then
      var r := TrimStart(s[1..]);
      assert s[..|s| - |r|] == [s[0]] + s[1..][..|s| - 1 - |r|];
      r
    else s
  }

  /** `s.trimEnd()`: the prefix left after removing the longest whitespace suffix. */
  function TrimEnd(s: string): (r: string)
    ensures |r| <= |s| && r == s[..|r|]
    ensures AllWhitespace(s[|r|..])
    ensures r == [] || !IsWhitespace(r[|r| - 1])
    decreases |s|
  {
    if s != [] && IsWhitespace(s[|s| - 1]) then
      var r := TrimEnd(s[..|s| - 1]);
      assert s[|r|..] == s[..|s| - 1][|r|..] + [s[|s| - 1]];
      r
    else s
  }

  /** `s.trim()`: s with both its whitespace prefix and its whitespace suffix removed. */
  function Trim(s: string): (r: string)
    ensures |r| <= |s|
    ensures exists i :: 0 <= i <= |s| - |r| && r == s[i..i + |r|]
                        && AllWhitespace(s[..i]) && AllWhitespace(s[i + |r|..])
    ensures r == [] || (!IsWhitespace(r[0]) && !IsWhitespace(r[|r| - 1]))
  {
    var t := TrimStart(s);
    var r := TrimEnd(t);
    InfixOfSuffix(s, t, r, |s| - |t|);
    r
  }

  /** The trim of s is empty exactly when s is whitespace only. */
  lemma TrimEmptyIff(s: string)
    ensures Trim(s) == [] <==> AllWhitespace(s)
  {
    if Trim(s) == [] {
      var i :| 0 <= i <= |s| && AllWhitespace(s[..i]) && AllWhitespace(s[i..]);
      forall k | 0 <= k < |s| ensures IsWhitespace(s[k]) {
        if k < i {
          assert s[..i][k] == s[k];
        } else {
          assert s[i..][k - i] == s[k];
        }
      }
    }
  }

  /** A prefix r of the suffix s[i..] is the infix s[i..i + |r|]. */
  lemma InfixOfSuffix(s: string, t: string, r: string, i: nat)
    requires i <= |s| && t == s[i..] && |r| <= |t| && r == t[..|r|]
    requires AllWhitespace(t[|r|..])
    ensures r == s[i..i + |r|] && AllWhitespace(s[i + |r|..])
    ensures r != [] ==> r[0] == t[0]
  {
    assert s[i + |r|..] == t[|r|..];
  }

  /** Whatever satisfies the characterisation in TrimStart's contract is TrimStart's result. */
  lemma {:induction false} TrimStartUnique(s: string, r: string)
    requires |r| <= |s| && r == s[|s| - |r|..]
    requires AllWhitespace(s[..|s| - |r|])
    requires r == [] || !IsWhitespace(r[0])
    ensures TrimStart(s) == r
  {
    SuffixesAgree(s, TrimStart(s), r);
  }

  /** Two suffixes of s that both start after a whitespace prefix and with a non-whitespace character are one. */
  lemma SuffixesAgree(s: string, t: string, r: string)
    requires |t| <= |s| && t == s[|s| - |t|..] && AllWhitespace(s[..|s| - |t|]) && (t == [] || !IsWhitespace(t[0]))
    requires |r| <= |s| && r == s[|s| - |r|..] && AllWhitespace(s[..|s| - |r|]) && (r == [] || !IsWhitespace(r[0]))
    ensures t == r
  {
    if |t| > |r| {
      WhitespaceAt(s, |s| - |r|, |s| - |t|);
    } else if |t| < |r| {
      WhitespaceAt(s, |s| - |t|, |s| - |r|);
    }
  }

  /** Whatever satisfies the characterisation in TrimEnd's contract is TrimEnd's result. */
  lemma {:induction false} TrimEndUnique(s: string, r: string)
    requires |r| <= |s| && r == s[..|r|]
    requires AllWhitespace(s[|r|..])
    requires r == [] || !IsWhitespace(r[|r| - 1])
    ensures TrimEnd(s) == r
  {
  }

  lemma {:induction false} WhitespaceAt(s: string, n: nat, k: nat)
    requires k < n <= |s| && AllWhitespace(s[..n])
    ensures IsWhitespace(s[k])
  {
    assert s[..n][k] == s[k];
  }

  /** A string that starts with a non-whitespace character is left alone by trimStart. */
  lemma TrimStartNoOp(s: string)
    requires s == [] || !IsWhitespace(s[0])
    ensures TrimStart(s) == s
  {
    TrimStartUnique(s, s);
  }

  /** trimEnd of a + b reaches into a only when b is whitespace only. */
  lemma {:induction false} TrimEndConcat(a: string, b: string)
    ensures TrimEnd(b) != [] ==> TrimEnd(a + b) == a + TrimEnd(b)
    ensures TrimEnd(b) == [] ==> TrimEnd(a + b) == TrimEnd(a)
  {
    var tb := TrimEnd(b);
    if tb != [] {
      var r := a + tb;
      assert (a + b)[|r|..] == b[|tb|..];
      assert r[|r| - 1] == tb[|tb| - 1];
      TrimEndUnique(a + b, r);
    } else {
      var ta := TrimEnd(a);
      assert (a + b)[..|ta|] == a[..|ta|];
      assert (a + b)[|ta|..] == a[|ta|..] + b;
      TrimEndUnique(a + b, ta);
    }
  }

  /**
   * `s.lastIndexOf(c, from)`: the largest index k <= from holding c, or -1.
   * A `from` past the end is clamped to the last index.
   */
  function LastIndexOf(s: string, c: char, from: nat): (r: int)
    ensures -1 <= r < |s| && r <= from
    ensures r >= 0 ==> s[r] == c
    ensures forall k :: r < k <= from && k < |s| ==> s[k] != c
    decreases from
  {
    if from >= |s| then
      (if |s| == 0 then -1 else LastIndexOf(s, c, |s| - 1))
    else if s[from] == c then from
    else if from == 0 then -1
    else LastIndexOf(s, c, from - 1)
  }

  /** Concatenation regroups freely. */
  lemma AppendAssoc<T>(a: seq<T>, b: seq<T>, c: seq<T>)
    ensures (a + b) + c == a + (b + c)
  {
  }

  lemma PrependEmpty<T>(a: seq<T>)
    ensures [] + a == a
  {
  }

  lemma AppendEmpty<T>(a: seq<T>)
    ensures a + [] == a
  {
  }

  lemma TakeDrop<T>(a: seq<T>, n: nat)
    requires n <= |a|
    ensures a[..n] + a[n..] == a
  {
  }

  lemma PrefixOfAppend<T>(a: seq<T>, b: seq<T>)
    ensures |a| <= |a + b| && (a + b)[..|a|] == a
  {
  }

  lemma TakeAll<T>(a: seq<T>)
    ensures a[..|a|] == a
  {
  }

  lemma TakeSnoc<T>(a: seq<T>, i: nat)
    requires i < |a|
    ensures a[..i + 1] == a[..i] + [a[i]]
  {
  }

  /** `parts.join(sep)`. */
  function Join(parts: seq<string>, sep: string): string
    decreases |parts|
  {
    if |parts| == 0 then ""
    else if |parts| == 1 then parts[0]
    else parts[0] + sep + Join(parts[1..], sep)
  }

  /** A join starts as its first part does. */
  lemma JoinStartsWithFirst(parts: seq<string>, sep: string)
    requires |parts| > 0 && |parts[0]| > 0
    ensures var r := Join(parts, sep);
            |r| > 0 && r[0] == parts[0][0]
  {
  }

  /** A join ends as its last part does. */
  lemma {:induction false} JoinEndsWithLast(parts: seq<string>, sep: string)
    requires |parts| > 0 && |parts[|parts| - 1]| > 0
    ensures var r := Join(parts, sep);
            |r| > 0 && r[|r| - 1] == parts[|parts| - 1][|parts[|parts| - 1]| - 1]
    decreases |parts|
  {
    if |parts| > 1 {
      JoinEndsWithLast(parts[1..], sep);
    }
  }
}
