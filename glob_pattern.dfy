/**
 * The rewrite `import_sequence` applies to the user's filename pattern before
 * filtering a directory listing: `pattern.replace(".", "\.").replace("*", ".*")`.
 * Only the rewrite is modelled; what the resulting regular expression matches is not.
 */
module GlobPattern {

  /** Number of occurrences of `c` in `s`. */
  function Count(s: string, c: char): nat
  {
    if s == [] then 0 else (if s[0] == c then 1 else 0) + Count(s[1..], c)
  }

  /**
   * Python's `s.replace(c, rep)` for a one-character `c`: every occurrence, left to
   * right. The result holds only characters of `s` other than `c` and characters of `rep`.
   */
  function ReplaceChar(s: string, c: char, rep: string): (r: string)
    ensures forall x :: x in r ==> (x in s && x != c) || x in rep
  {
    if s == [] then []
    else
      var rest := ReplaceChar(s[1..], c, rep);
      assert forall x :: x in s[1..] ==> x in s;
      (if s[0] == c then rep else [s[0]]) + rest
  }

  /** Each occurrence of `c` changes the length by |rep| - 1. */
  lemma {:induction false} ReplaceCharLength(s: string, c: char, rep: string)
    ensures |ReplaceChar(s, c, rep)| == |s| + Count(s, c) * (|rep| - 1)
  {
    if s != [] {
      ReplaceCharLength(s[1..], c, rep);
      var k, m := Count(s[1..], c), |rep| - 1;
      assert (1 + k) * m == m + k * m;
    }
  }

  /**
   * The pattern as `import_sequence` hands it to `re.match`: the chained replaces
   * are a one-pass translation of each character on its own.
   */
  function GlobToRegex(pattern: string): (r: string)
    ensures r == Translate(pattern)
  {
    ChainedReplaceIsTranslate(pattern);
    ReplaceChar(ReplaceChar(pattern, '.', "\\."), '*', ".*")
  }

  /** What one pattern character becomes in the regular expression. */
  function EscapeChar(c: char): string
  {
    if c == '.' then "\\." else if c == '*' then ".*" else [c]
  }

  /** Reference definition: a single left-to-right pass translating each character on its own. */
  function Translate(pattern: string): string
  {
    if pattern == [] then [] else EscapeChar(pattern[0]) + Translate(pattern[1..])
  }

  /** Replacing distributes over concatenation. */
  lemma {:induction false} ReplaceCharConcat(a: string, b: string, c: char, rep: string)
    ensures ReplaceChar(a + b, c, rep) == ReplaceChar(a, c, rep) + ReplaceChar(b, c, rep)
  {
    if a != [] {
      assert (a + b)[0] == a[0];
      assert (a + b)[1..] == a[1..] + b;
      ReplaceCharConcat(a[1..], b, c, rep);
    } else {
      assert a + b == b;
    }
  }

  /** Replacing a character that does not occur changes nothing. */
  lemma {:induction false} ReplaceCharAbsent(s: string, c: char, rep: string)
    requires c !in s
    ensures ReplaceChar(s, c, rep) == s
  {
    if s != [] {
      assert s == [s[0]] + s[1..];
      ReplaceCharAbsent(s[1..], c, rep);
    }
  }

  /**
   * The two chained `replace` calls equal the one-pass translation: the `.` inserted
   * by escaping `*` is never itself escaped, and the `\.` produced for a dot holds no `*`.
   */
  lemma {:induction false} ChainedReplaceIsTranslate(pattern: string)
    ensures ReplaceChar(ReplaceChar(pattern, '.', "\\."), '*', ".*") == Translate(pattern)
  {
    if pattern != [] {
      var c := pattern[0];
      var escaped := ReplaceChar(pattern[1..], '.', "\\.");
      assert ReplaceChar(pattern, '.', "\\.") == (if c == '.' then "\\." else [c]) + escaped;
      ReplaceCharConcat(if c == '.' then "\\." else [c], escaped, '*', ".*");
      if c == '.' {
        ReplaceCharAbsent("\\.", '*', ".*");
      } else {
        assert ReplaceChar([c], '*', ".*") == (if c == '*' then ".*" else [c]) + ReplaceChar([], '*', ".*");
      }
      ChainedReplaceIsTranslate(pattern[1..]);
    }
  }

  /** Each `.` and each `*` grows the pattern by exactly one character; nothing else changes length. */
  lemma {:induction false} TranslateLength(pattern: string)
    ensures |Translate(pattern)| == |pattern| + Count(pattern, '.') + Count(pattern, '*')
  {
    if pattern != [] {
      TranslateLength(pattern[1..]);
    }
  }

  /** Length of the regular expression built from a pattern. */
  lemma GlobToRegexLength(pattern: string)
    ensures |GlobToRegex(pattern)| == |pattern| + Count(pattern, '.') + Count(pattern, '*')
  {
    TranslateLength(pattern);
  }

  /** A pattern with neither `.` nor `*` is passed to `re.match` unchanged. */
  lemma GlobToRegexPlain(pattern: string)
    requires '.' !in pattern && '*' !in pattern
    ensures GlobToRegex(pattern) == pattern
  {
    ReplaceCharAbsent(pattern, '.', "\\.");
    ReplaceCharAbsent(pattern, '*', ".*");
  }
}
