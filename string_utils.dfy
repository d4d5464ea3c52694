/**
 * The string operations the core takes from `java.lang` and Apache commons-lang
 * `StringUtils`: blankness, splitting on a separator, first index of a character,
 * case-insensitive containment, `difference`, and `String.compareTo` with the sort
 * it induces.
 */
module StringUtils {
  import opened Wrappers

  /** `Character.isWhitespace`: Unicode space, line and paragraph separators other than
      the no-break spaces, and the ASCII controls U+0009..U+000D and U+001C..U+001F. */
  predicate IsWhitespace(c: char)
  {
    ('\t' <= c <= '\r') || ('\U{1C}' <= c <= ' ') || c == '\U{1680}'
    || ('\U{2000}' <= c <= '\U{2006}') || ('\U{2008}' <= c <= '\U{200A}')
    || c == '\U{2028}' || c == '\U{2029}' || c == '\U{205F}' || c == '\U{3000}'
  }

  /** `StringUtils.isBlank` on a non-null string: empty or whitespace only. */
  predicate IsBlank(s: string)
  {
    forall i :: 0 <= i < |s| ==> IsWhitespace(s[i])
  }

  /** `StringUtils.isBlank` on a nullable string: `null` is blank. */
  predicate IsBlankOrNull(s: Option<string>)
  {
    s.None? || IsBlank(s.value)
  }

  /** Length of the leading run of `s` that holds no `sep`. */
  function RunLength(s: string, sep: char): (n: nat)
    ensures n <= |s|
    ensures forall i :: 0 <= i < n ==> s[i] != sep
    ensures n == |s| || s[n] == sep
  {
    if s == [] || s[0] == sep then 0 else 1 + RunLength(s[1..], sep)
  }

  /**
   * `StringUtils.split(s, sep)` for a one-character separator: the maximal runs of
   * characters other than `sep`; adjacent separators never give an empty token.
   */
  function Split(s: string, sep: char): (tokens: seq<string>)
    ensures forall t :: t in tokens ==> t != [] && sep !in t
    decreases |s|
  {
    if s == [] then []
    else if s[0] == sep then Split(s[1..], sep)
    else
      var n := RunLength(s, sep);
      [s[..n]] + Split(s[n..], sep)
  }

  /** A token followed by the separator splits off as that one token. */
  lemma SplitToken(t: string, sep: char, rest: string)
    requires t != [] && sep !in t
    ensures Split(t + [sep] + rest, sep) == [t] + Split(rest, sep)
  {
    var s := t + [sep] + rest;
    assert s == t + ([sep] + rest);
    assert RunLength(s, sep) == |t| by { RunLengthOfToken(t, sep, [sep] + rest); }
    assert s[..|t|] == t;
    assert s[|t|..] == [sep] + rest;
    assert ([sep] + rest)[1..] == rest;
  }

  lemma {:induction false} RunLengthOfToken(t: string, sep: char, rest: string)
    requires sep !in t
    requires rest == [] || rest[0] == sep
    ensures RunLength(t + rest, sep) == |t|
  {
    if t != [] {
      assert (t + rest)[1..] == t[1..] + rest;
      RunLengthOfToken(t[1..], sep, rest);
    } else {
      assert t + rest == rest;
    }
  }

  /** Text that ends with the separator splits independently of what follows it. */
  lemma {:induction false} SplitAppend(a: string, b: string, sep: char)
    requires a == [] || a[|a| - 1] == sep
    ensures Split(a + b, sep) == Split(a, sep) + Split(b, sep)
    decreases |a|
  {
    if a == [] {
      assert a + b == b;
    } else if a[0] == sep {
      assert (a + b)[1..] == a[1..] + b;
      SplitAppend(a[1..], b, sep);
    } else {
      var n := RunLength(a, sep);
      assert n < |a|;
      RunLengthOfToken(a[..n], sep, a[n..] + b);
      assert a + b == a[..n] + (a[n..] + b);
      assert (a + b)[..n] == a[..n];
      assert (a + b)[n..] == a[n..] + b;
      SplitAppend(a[n..], b, sep);
    }
  }

  /** A separator-free, non-empty string is a single token. */
  lemma SplitSingle(t: string, sep: char)
    requires t != [] && sep !in t
    ensures Split(t, sep) == [t]
  {
    RunLengthOfToken(t, sep, []);
    assert t + [] == t;
    assert t[..|t|] == t;
  }

  /** `s.indexOf(c)`: the first index holding `c`, or -1 when there is none. */
  function IndexOf(s: string, c: char): (r: int)
    ensures -1 <= r < |s|
    ensures r == -1 <==> c !in s
    ensures r >= 0 ==> s[r] == c && c !in s[..r]
  {
    if s == [] then -1
    else if s[0] == c then 0
    else
      var k := IndexOf(s[1..], c);
      if k == -1 then -1 else
        assert s[..k + 1] == [s[0]] + s[1..][..k];
        1 + k
  }

  /** `Character.toUpperCase`, for the ASCII letters. */
  function ToUpper(c: char): char
  {
    if 'a' <= c <= 'z' then (c as int - 32) as char else c
  }

  /** `Character.toLowerCase`, for the ASCII letters. */
  function ToLower(c: char): char
  {
    if 'A' <= c <= 'Z' then (c as int + 32) as char else c
  }

  /** The per-character test of `regionMatches` with `ignoreCase` set. */
  predicate CharEqualsIgnoreCase(a: char, b: char)
  {
    a == b || ToUpper(a) == ToUpper(b) || ToLower(ToUpper(a)) == ToLower(ToUpper(b))
  }

  /** `pattern` occurs in `s` at index `at`, ignoring case. */
  predicate MatchesAt(s: string, at: nat, pattern: string)
  {
    at + |pattern| <= |s|
    && forall j :: 0 <= j < |pattern| ==> CharEqualsIgnoreCase(s[at + j], pattern[j])
  }

  /** The scan of `StringUtils.containsIgnoreCase`, trying the indexes from `from` upwards. */
  function ContainsIgnoreCaseFrom(s: string, pattern: string, from: nat): (r: bool)
    ensures r <==> exists i :: from <= i && MatchesAt(s, i, pattern)
    decreases |s| - from
  {
    if from + |pattern| > |s| then false
    else if MatchesAt(s, from, pattern) then true
    else ContainsIgnoreCaseFrom(s, pattern, from + 1)
  }

  /** `StringUtils.containsIgnoreCase(s, pattern)` on non-null strings. */
  function ContainsIgnoreCase(s: string, pattern: string): (r: bool)
    ensures r <==> exists i :: MatchesAt(s, i, pattern)
  {
    ContainsIgnoreCaseFrom(s, pattern, 0)
  }

  /** The length of the longest common prefix of `a` and `b`. */
  function CommonPrefix(a: string, b: string): (n: nat)
    ensures n <= |a| && n <= |b|
    ensures a[..n] == b[..n]
    ensures n < |a| && n < |b| ==> a[n] != b[n]
  {
    if a == [] || b == [] || a[0] != b[0] then 0
    else
      var k := CommonPrefix(a[1..], b[1..]);
      assert a[..k + 1] == [a[0]] + a[1..][..k];
      assert b[..k + 1] == [b[0]] + b[1..][..k];
      1 + k
  }

  /**
   * `StringUtils.difference(a, b)`: the rest of `b` from where it first differs from `a`.
   * What precedes it is common to both; its first character is not `a`'s at that index, or
   * `a` ends there; and it is empty exactly when `b` is a prefix of `a`.
   */
  function Difference(a: string, b: string): (r: string)
    ensures |r| <= |b| && r == b[|b| - |r|..]
    ensures |b| - |r| <= |a| && a[..|b| - |r|] == b[..|b| - |r|]
    ensures r != [] ==> |b| - |r| == |a| || a[|b| - |r|] != r[0]
    ensures r == [] <==> |b| <= |a| && a[..|b|] == b
  {
    b[CommonPrefix(a, b)..]
  }

  /** `a.compareTo(b) < 0`, comparing character by character and then by length. */
  predicate Less(a: string, b: string)
  {
    if a == [] then b != []
    else if b == [] then false
    else if a[0] != b[0] then a[0] < b[0]
    else Less(a[1..], b[1..])
  }

  lemma {:induction false} LessIrreflexive(a: string)
    ensures !Less(a, a)
  {
    if a != [] {
      LessIrreflexive(a[1..]);
    }
  }

  lemma {:induction false} LessTransitive(a: string, b: string, c: string)
    requires Less(a, b) && Less(b, c)
    ensures Less(a, c)
  {
    if a != [] && b != [] && c != [] && a[0] == b[0] && b[0] == c[0] {
      LessTransitive(a[1..], b[1..], c[1..]);
    }
  }

  lemma {:induction false} LessTotal(a: string, b: string)
    requires a != b
    ensures Less(a, b) || Less(b, a)
  {
    if a != [] && b != [] && a[0] == b[0] {
      assert a == [a[0]] + a[1..] && b == [b[0]] + b[1..];
      LessTotal(a[1..], b[1..]);
    }
  }

  /** `m` comes first in `s` in the order of `compareTo`. */
  predicate IsLeast(m: string, s: set<string>)
  {
    m in s && forall x :: x in s ==> x == m || Less(m, x)
  }

  lemma {:induction false} LeastExists(s: set<string>)
    requires s != {}
    ensures exists m :: IsLeast(m, s)
    decreases |s|
  {
    var x :| x in s;
    if s != {x} {
      LeastExists(s - {x});
      var m :| IsLeast(m, s - {x});
      if Less(x, m) {
        forall y | y in s - {x} ensures Less(x, y) {
          if y != m { LessTransitive(x, m, y); }
        }
        assert IsLeast(x, s);
      } else {
        LessTotal(x, m);
        assert IsLeast(m, s);
      }
    } else {
      assert IsLeast(x, s);
    }
  }

  lemma LeastUnique(s: set<string>)
    ensures forall m1, m2 :: IsLeast(m1, s) && IsLeast(m2, s) ==> m1 == m2
  {
    forall m1, m2 | IsLeast(m1, s) && IsLeast(m2, s) ensures m1 == m2 {
      if m1 != m2 {
        assert Less(m1, m2) && Less(m2, m1);
        LessTransitive(m1, m2, m1);
        LessIrreflexive(m1);
      }
    }
  }

  /** Strictly increasing in the order of `compareTo`. */
  predicate SortedStrictly(r: seq<string>)
  {
    forall i, j :: 0 <= i < j < |r| ==> Less(r[i], r[j])
  }

  /** The strings of `s` in `compareTo` order, each once: what `.sorted()` yields for a set. */
  function SortedSeq(s: set<string>): (r: seq<string>)
    ensures SortedStrictly(r)
    ensures forall x :: x in r <==> x in s
    ensures |r| == |s|
    decreases |s|
  {
    if s == {} then [] else
    LeastExists(s);
    LeastUnique(s);
    var m :| IsLeast(m, s);
    var rest := SortedSeq(s - {m});
    assert forall j :: 0 <= j < |rest| ==> Less(m, rest[j]) by {
      forall j | 0 <= j < |rest| ensures Less(m, rest[j]) {
        assert rest[j] in s - {m};
      }
    }
    [m] + rest
  }
}
