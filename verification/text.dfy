/** String primitives the extension relies on: the case-insensitive comparison of the
    regex `i` flag, greedy character runs, `String.prototype.indexOf` and
    `String.prototype.split` with a one-character separator. */
module Text {

  /** ASCII case folding. For a non-Unicode JavaScript regex with the `i` flag no
      non-ASCII character canonicalises onto an ASCII letter, so for the all-ASCII
      patterns of the extension this folding decides exactly the same matches. */
  function Fold(c: char): char {
    if 'A' <= c <= 'Z' then (c as int + 32) as char else c
  }

  /** The literal `lit` occurs at offset `i` of `s`, compared case-insensitively. */
  predicate CiAt(s: string, i: nat, lit: string) {
    i + |lit| <= |s| && forall k :: 0 <= k < |lit| ==> Fold(s[i + k]) == Fold(lit[k])
  }

  /** `t` with every character folded. */
  function FoldAll(t: string): (r: string)
    ensures |r| == |t| && forall k :: 0 <= k < |t| ==> r[k] == Fold(t[k])
  {
    if t == [] then [] else [Fold(t[0])] + FoldAll(t[1..])
  }

  /** The window of `s` at `i` folds to `lit`, a literal already in folded form: the
      way the matchers compare, a whole window at once. */
  predicate FoldedAt(s: string, i: nat, lit: string) {
    i + |lit| <= |s| && FoldAll(s[i..i + |lit|]) == lit
  }

  /** For a literal in folded form, comparing the folded window is comparing
      case-insensitively. */
  lemma {:induction false} FoldedAtIff(s: string, i: nat, lit: string)
    requires forall k :: 0 <= k < |lit| ==> Fold(lit[k]) == lit[k]
    ensures FoldedAt(s, i, lit) <==> CiAt(s, i, lit)
  {
    if i + |lit| <= |s| {
      var w := FoldAll(s[i..i + |lit|]);
      assert forall k :: 0 <= k < |lit| ==> w[k] == Fold(s[i + k]);
      if CiAt(s, i, lit) {
        assert w == lit;
      }
    }
  }

  /** Folding never turns a letter into a non-letter, so a case-insensitive comparison
      with a character that is not a letter is an exact comparison. */
  lemma {:induction false} FoldExactOnNonLetters(c: char, d: char)
    requires !('A' <= d <= 'Z') && !('a' <= d <= 'z')
    ensures Fold(c) == Fold(d) <==> c == d
  {
  }

  /** A case-insensitive occurrence of `a + b` is one of `a` followed by one of `b`. */
  lemma {:induction false} CiAtConcat(s: string, i: nat, a: string, b: string)
    ensures CiAt(s, i, a + b) <==> CiAt(s, i, a) && CiAt(s, i + |a|, b)
  {
    if CiAt(s, i, a) && CiAt(s, i + |a|, b) {
      forall k | 0 <= k < |a + b| ensures Fold(s[i + k]) == Fold((a + b)[k]) {
        if k >= |a| {
          assert Fold(s[i + |a| + (k - |a|)]) == Fold(b[k - |a|]);
        }
      }
    }
    if CiAt(s, i, a + b) {
      forall k | 0 <= k < |a| ensures Fold(s[i + k]) == Fold(a[k]) {
        assert (a + b)[k] == a[k];
      }
      forall k | 0 <= k < |b| ensures Fold(s[i + |a| + k]) == Fold(b[k]) {
        assert Fold(s[i + (|a| + k)]) == Fold((a + b)[|a| + k]);
      }
    }
  }

  /** A case-insensitive occurrence inside a slice is one in the whole string. */
  lemma {:induction false} CiAtSlice(s: string, i: nat, j: nat, k: nat, lit: string)
    requires i <= j <= |s|
    ensures CiAt(s[i..j], k, lit) <==> k + |lit| <= j - i && CiAt(s, i + k, lit)
  {
    if k + |lit| <= j - i {
      var t := s[i..j];
      forall n | k <= n < k + |lit| ensures t[n] == s[i + n] {
      }
    }
  }

  /** The regex class `\w` (no Unicode flag): ASCII letters, digits and underscore. */
  predicate IsWordChar(c: char) {
    ('a' <= c <= 'z') || ('A' <= c <= 'Z') || ('0' <= c <= '9') || c == '_'
  }

  /** Length of the longest run of non-`"` characters starting at `j`: what the greedy
      `[^"]+` consumes before it must stop. */
  function NonQuoteRun(s: string, j: nat): (n: nat)
    requires j <= |s|
    ensures j + n <= |s|
    ensures forall k :: j <= k < j + n ==> s[k] != '"'
    ensures j + n == |s| || s[j + n] == '"'
    decreases |s| - j
  {
    if j == |s| || s[j] == '"' then 0 else 1 + NonQuoteRun(s, j + 1)
  }

  /** Length of the longest run of word characters starting at `j`: what the greedy
      `\w+` consumes before it must stop. */
  function WordRun(s: string, j: nat): (n: nat)
    requires j <= |s|
    ensures j + n <= |s|
    ensures forall k :: j <= k < j + n ==> IsWordChar(s[k])
    ensures j + n == |s| || !IsWordChar(s[j + n])
    decreases |s| - j
  {
    if j == |s| || !IsWordChar(s[j]) then 0 else 1 + WordRun(s, j + 1)
  }

  /** `pat` occurs verbatim in `s` at offset `k`. */
  predicate OccursAt(s: string, pat: string, k: nat) {
    k + |pat| <= |s| && s[k..k + |pat|] == pat
  }

  /** First occurrence of `pat` in `s` at or after `from`, or -1. */
  function IndexFrom(s: string, pat: string, from: nat): (r: int)
    ensures r == -1 || (from <= r && OccursAt(s, pat, r))
    ensures forall k :: from <= k && (r == -1 || k < r) ==> !OccursAt(s, pat, k)
    decreases |s| - from
  {
    if from + |pat| > |s| then -1
    else if s[from..from + |pat|] == pat then from
    else IndexFrom(s, pat, from + 1)
  }

  /** `s.indexOf(pat)`: the least offset at which `pat` occurs, or -1 when it occurs nowhere. */
  function IndexOf(s: string, pat: string): (r: int)
    ensures r == -1 || (0 <= r && OccursAt(s, pat, r))
    ensures forall k: nat :: (r == -1 || k < r) ==> !OccursAt(s, pat, k)
  {
    IndexFrom(s, pat, 0)
  }

  /** Inverse of `Split`: the fields glued back together with the separator. */
  function Join(parts: seq<string>, sep: char): string {
    if |parts| == 0 then ""
    else if |parts| == 1 then parts[0]
    else parts[0] + [sep] + Join(parts[1..], sep)
  }

  /** `s.split(sep)` for a one-character separator: the maximal separator-free fields,
      one more than there are separators, which join back into `s`. */
  function Split(s: string, sep: char): (parts: seq<string>)
    ensures |parts| >= 1
    ensures forall i :: 0 <= i < |parts| ==> sep !in parts[i]
    ensures Join(parts, sep) == s
    decreases |s|
  {
    if |s| == 0 then [""]
    else
      var rest := Split(s[1..], sep);
      if s[0] == sep then
        assert s == [sep] + s[1..];
        [""] + rest
      else
        var parts := [[s[0]] + rest[0]] + rest[1..];
        assert parts[1..] == rest[1..];
        assert s == [s[0]] + s[1..];
        parts
  }

  /** Splitting at the first separator: the text before it is the first field, and
      the rest is split independently. */
  lemma {:induction false} SplitAtFirst(a: string, b: string, sep: char)
    requires sep !in a
    ensures Split(a + [sep] + b, sep) == [a] + Split(b, sep)
    decreases |a|
  {
    var s := a + [sep] + b;
    if |a| == 0 {
      assert s[1..] == b;
    } else {
      assert s[1..] == a[1..] + [sep] + b;
      SplitAtFirst(a[1..], b, sep);
      assert [s[0]] + a[1..] == a;
    }
  }

  /** A separator-free string is a single field. */
  lemma {:induction false} SplitNoSeparator(a: string, sep: char)
    requires sep !in a
    ensures Split(a, sep) == [a]
    decreases |a|
  {
    if |a| > 0 {
      SplitNoSeparator(a[1..], sep);
      assert [a[0]] + a[1..] == a;
    }
  }
}
