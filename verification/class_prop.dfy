/** The attribute pattern `class(name)?="([^"]+)"` with the `i` flag, matched by hand:
    a language predicate saying which strings the pattern matches as a whole, a
    matcher at one offset, and the leftmost-match search of `String.prototype.match`. */
module ClassProp {
  import opened Results
  import opened Text

  /** A match inside a line: its start column and its length. */
  datatype Match = Match(start: nat, len: nat)

  /** `t` as a whole is `kw`, `="`, one or more non-quote characters and `"`, with the
      keyword compared case-insensitively. */
  predicate IsPropWith(t: string, kw: string) {
    && |t| >= |kw| + 4
    && CiAt(t, 0, kw)
    && t[|kw|] == '=' && t[|kw| + 1] == '"'
    && t[|t| - 1] == '"'
    && forall k :: |kw| + 2 <= k < |t| - 1 ==> t[k] != '"'
  }

  /** The language of the pattern: `t` is a complete match of `class(name)?="([^"]+)"`. */
  predicate IsClassProp(t: string) {
    IsPropWith(t, "class") || IsPropWith(t, "classname")
  }

  /** Capture group 2 of a complete match: the quoted class list. */
  function Capture(t: string): string
    requires IsClassProp(t)
  {
    if IsPropWith(t, "classname") then t[11..|t| - 1] else t[7..|t| - 1]
  }

  /** Offset just past `class="` or `classname="` at `i`. The optional group is tried
      first; the two alternatives cannot both apply, since after `class` one needs `n`
      and the other `=`. */
  function ValueStart(s: string, i: nat): Option<nat> {
    if FoldedAt(s, i, "classname=\"") then Some(i + 11)
    else if FoldedAt(s, i, "class=\"") then Some(i + 7)
    else None
  }

  /** The same offset, stated with case-insensitive occurrences. */
  lemma {:induction false} ValueStartCi(s: string, i: nat)
    ensures CiAt(s, i, "classname=\"") ==> ValueStart(s, i) == Some(i + 11)
    ensures !CiAt(s, i, "classname=\"") && CiAt(s, i, "class=\"") ==> ValueStart(s, i) == Some(i + 7)
    ensures !CiAt(s, i, "classname=\"") && !CiAt(s, i, "class=\"") ==> ValueStart(s, i).None?
  {
    FoldedAtIff(s, i, "classname=\"");
    FoldedAtIff(s, i, "class=\"");
  }

  /** Length of the match of the pattern anchored at offset `i`, if any. The greedy
      `[^"]+` stops at the first quote, which is the only place the closing `"` can go,
      so no backtracking can produce another match. */
  function MatchAt(s: string, i: nat): Option<nat>
    requires i <= |s|
  {
    match ValueStart(s, i)
    case None => None
    case Some(p) =>
      var n := NonQuoteRun(s, p);
      if n >= 1 && p + n < |s| then Some(p + n + 1 - i) else None
  }

  /** The matcher at one offset is exact: it answers `len` precisely when the `len`
      characters at `i` form a complete match. In particular at most one length matches. */
  lemma {:induction false} MatchAtIff(s: string, i: nat, len: nat)
    requires i <= |s|
    ensures MatchAt(s, i) == Some(len) <==> i + len <= |s| && IsClassProp(s[i..i + len])
  {
    if MatchAt(s, i) == Some(len) {
      MatchAtSound(s, i);
    }
    if i + len <= |s| && IsClassProp(s[i..i + len]) {
      MatchAtComplete(s, i, i + len);
    }
  }

  lemma {:induction false} MatchAtSound(s: string, i: nat)
    requires i <= |s| && MatchAt(s, i).Some?
    ensures i + MatchAt(s, i).value <= |s|
    ensures IsClassProp(s[i..i + MatchAt(s, i).value])
  {
    ValueStartCi(s, i);
    var p := ValueStart(s, i).value;
    var n := NonQuoteRun(s, p);
    KeywordPrefixes();
    if CiAt(s, i, "classname=\"") {
      assert p == i + 11 && MatchAt(s, i).value == 12 + n;
      PropWithAt(s, i, "classname", n);
    } else {
      assert p == i + 7 && MatchAt(s, i).value == 8 + n;
      PropWithAt(s, i, "class", n);
    }
  }

  lemma {:induction false} KeywordPrefixes()
    ensures "classname" + "=" + "\"" == "classname=\""
    ensures "class" + "=" + "\"" == "class=\""
  {
  }

  /** A case-insensitive `kw="` at `i`, followed by `n >= 1` non-quote characters and a
      quote, is a complete match with keyword `kw`. */
  lemma {:induction false} PropWithAt(s: string, i: nat, kw: string, n: nat)
    requires CiAt(s, i, kw + "=" + "\"") && n >= 1 && i + |kw| + 2 + n < |s|
    requires forall k :: i + |kw| + 2 <= k < i + |kw| + 2 + n ==> s[k] != '"'
    requires s[i + |kw| + 2 + n] == '"'
    ensures IsPropWith(s[i..i + |kw| + 3 + n], kw)
  {
    var t := s[i..i + |kw| + 3 + n];
    CiAtConcat(s, i, kw + "=", "\"");
    CiAtConcat(s, i, kw, "=");
    CiAtSlice(s, i, i + |kw| + 3 + n, 0, kw);
    assert |kw + "="| == |kw| + 1;
    assert Fold(s[i + |kw| + 0]) == Fold("="[0]);
    assert Fold(s[i + (|kw| + 1) + 0]) == Fold("\""[0]);
    FoldExactOnNonLetters(s[i + |kw|], '=');
    FoldExactOnNonLetters(s[i + |kw| + 1], '"');
    assert t[|kw|] == s[i + |kw|] && t[|kw| + 1] == s[i + |kw| + 1];
  }

  lemma {:induction false} MatchAtComplete(s: string, i: nat, j: nat)
    requires i <= j <= |s| && IsClassProp(s[i..j])
    ensures MatchAt(s, i) == Some(j - i)
  {
    CompleteValueStart(s, i, j);
    var p := ValueStart(s, i).value;
    RunToQuote(s, p, j - 1);
  }

  /** A complete match at `i` ending at `j` has its value start at `i` and its closing
      quote at `j - 1`, with no quote in between. */
  lemma {:induction false} CompleteValueStart(s: string, i: nat, j: nat)
    requires i <= j <= |s| && IsClassProp(s[i..j])
    ensures ValueStart(s, i).Some? && ValueStart(s, i).value < j - 1 && s[j - 1] == '"'
    ensures forall k :: ValueStart(s, i).value <= k < j - 1 ==> s[k] != '"'
  {
    var t := s[i..j];
    var kw := if IsPropWith(t, "classname") then "classname" else "class";
    assert IsPropWith(t, kw);
    if kw == "class" {
      // `classname="` cannot start here: the character after `class` is `=`.
      assert Fold(s[i + 5]) != Fold("classname=\""[5]);
      assert !CiAt(s, i, "classname=\"");
    }
    KeywordAt(s, i, j, kw);
    ValueStartCi(s, i);
    assert ValueStart(s, i) == Some(i + |kw| + 2);
    assert s[j - 1] == t[|t| - 1];
    forall k | i + |kw| + 2 <= k < j - 1 ensures s[k] != '"' {
      assert s[k] == t[k - i];
    }
  }

  /** The greedy run from `p` stops at the first quote, here at `q`. */
  lemma {:induction false} RunToQuote(s: string, p: nat, q: nat)
    requires p <= q < |s| && s[q] == '"'
    requires forall k :: p <= k < q ==> s[k] != '"'
    ensures NonQuoteRun(s, p) == q - p
  {
  }

  /** A complete match with keyword `kw` starts with `kw="`, compared case-insensitively. */
  lemma {:induction false} KeywordAt(s: string, i: nat, j: nat, kw: string)
    requires i <= j <= |s| && IsPropWith(s[i..j], kw)
    ensures CiAt(s, i, kw + "=\"")
  {
    var t := s[i..j];
    var lit := kw + "=\"";
    CiAtSlice(s, i, j, 0, kw);
    assert s[i + |kw|] == t[|kw|] == '=' && s[i + |kw| + 1] == t[|kw| + 1] == '"';
    forall k | 0 <= k < |lit| ensures Fold(s[i + k]) == Fold(lit[k]) {
      if k < |kw| {
        assert lit[k] == kw[k];
      } else if k == |kw| {
        assert lit[k] == '=';
      } else {
        assert lit[k] == '"';
      }
    }
  }

  /** Leftmost match at or after `from`, scanning start offsets in increasing order. */
  function FindFrom(s: string, from: nat): Option<Match>
    requires from <= |s|
    decreases |s| - from
  {
    match MatchAt(s, from)
    case Some(len) => Some(Match(from, len))
    case None => if from == |s| then None else FindFrom(s, from + 1)
  }

  /** The scan from `from` finds the first offset at or after it where the matcher
      reports a match, with that length, and finds nothing only when no offset has one. */
  lemma {:induction false} FindFromSpec(s: string, from: nat)
    requires from <= |s|
    ensures FindFrom(s, from).None? ==> forall j :: from <= j <= |s| ==> MatchAt(s, j).None?
    ensures FindFrom(s, from).Some? ==>
      && from <= FindFrom(s, from).value.start <= |s|
      && MatchAt(s, FindFrom(s, from).value.start) == Some(FindFrom(s, from).value.len)
    ensures FindFrom(s, from).Some? ==> forall j :: from <= j < FindFrom(s, from).value.start ==> MatchAt(s, j).None?
  {
    FindFromNone(s, from);
    FindFromFound(s, from);
    FindFromLeftmost(s, from);
  }

  lemma {:induction false} FindFromNone(s: string, from: nat)
    requires from <= |s|
    ensures FindFrom(s, from).None? ==> forall j :: from <= j <= |s| ==> MatchAt(s, j).None?
  {
    if FindFrom(s, from).None? {
      forall j | from <= j <= |s| ensures MatchAt(s, j).None? {
        FindFromNoneAt(s, from, j);
      }
    }
  }

  /** A scan that finds nothing passed over offset `j` without a match. */
  lemma {:induction false} FindFromNoneAt(s: string, from: nat, j: nat)
    requires from <= j <= |s| && FindFrom(s, from).None?
    ensures MatchAt(s, j).None?
    decreases j - from
  {
    if j > from {
      assert FindFrom(s, from + 1).None?;
      FindFromNoneAt(s, from + 1, j);
    }
  }

  lemma {:induction false} FindFromFound(s: string, from: nat)
    requires from <= |s|
    ensures FindFrom(s, from).Some? ==>
      && from <= FindFrom(s, from).value.start <= |s|
      && MatchAt(s, FindFrom(s, from).value.start) == Some(FindFrom(s, from).value.len)
    decreases |s| - from
  {
    if MatchAt(s, from).None? && from < |s| {
      FindFromFound(s, from + 1);
    }
  }

  lemma {:induction false} FindFromLeftmost(s: string, from: nat)
    requires from <= |s|
    ensures FindFrom(s, from).Some? ==>
      forall j :: from <= j < FindFrom(s, from).value.start && j <= |s| ==> MatchAt(s, j).None?
  {
    if FindFrom(s, from).Some? {
      forall j | from <= j < FindFrom(s, from).value.start && j <= |s| ensures MatchAt(s, j).None? {
        FindFromLeftmostAt(s, from, j);
      }
    }
  }

  /** A scan that finds a match right of offset `j` passed over `j` without one. */
  lemma {:induction false} FindFromLeftmostAt(s: string, from: nat, j: nat)
    requires from <= j <= |s| && FindFrom(s, from).Some? && j < FindFrom(s, from).value.start
    ensures MatchAt(s, j).None?
    decreases j - from
  {
    if j > from {
      assert FindFrom(s, from) == FindFrom(s, from + 1);
      FindFromLeftmostAt(s, from + 1, j);
    }
  }

  /** `line.match(classNameStringRegex)`: the leftmost match of the pattern, and the
      only one at that offset; `None` exactly when no substring of the line matches. */
  function FindFirst(line: string): (r: Option<Match>)
    ensures r.None? <==> forall i, j {:trigger IsClassProp(line[i..j])} :: 0 <= i <= j <= |line| ==> !IsClassProp(line[i..j])
    ensures r.Some? ==> r.value.start + r.value.len <= |line|
    ensures r.Some? ==> IsClassProp(line[r.value.start..r.value.start + r.value.len])
    ensures r.Some? ==> forall i, j {:trigger IsClassProp(line[i..j])} :: 0 <= i < r.value.start && i <= j <= |line| ==> !IsClassProp(line[i..j])
    ensures r.Some? ==> forall j {:trigger IsClassProp(line[r.value.start..j])} :: r.value.start <= j <= |line| && IsClassProp(line[r.value.start..j]) ==>
                          j == r.value.start + r.value.len
  {
    var r := FindFrom(line, 0);
    ScanNoneIff(line);
    ScanSome(line, r);
    r
  }

  /** A match found by the scan is complete, leftmost, and has no other length. */
  lemma {:induction false} ScanSome(line: string, r: Option<Match>)
    requires r == FindFrom(line, 0)
    ensures r.Some? ==> r.value.start + r.value.len <= |line|
    ensures r.Some? ==> IsClassProp(line[r.value.start..r.value.start + r.value.len])
    ensures r.Some? ==> forall i, j {:trigger IsClassProp(line[i..j])} :: 0 <= i < r.value.start && i <= j <= |line| ==> !IsClassProp(line[i..j])
    ensures r.Some? ==> forall j {:trigger IsClassProp(line[r.value.start..j])} :: r.value.start <= j <= |line| && IsClassProp(line[r.value.start..j]) ==>
                          j == r.value.start + r.value.len
  {
    ScanLeftmost(line);
    if r.Some? {
      ScanMatchIsComplete(line, r.value);
    }
  }

  /** The match the scan finds is complete, and no other length matches at its start. */
  lemma {:induction false} ScanMatchIsComplete(line: string, m: Match)
    requires FindFrom(line, 0) == Some(m)
    ensures m.start + m.len <= |line| && IsClassProp(line[m.start..m.start + m.len])
    ensures forall j {:trigger IsClassProp(line[m.start..j])} :: m.start <= j <= |line| && IsClassProp(line[m.start..j]) ==>
      j == m.start + m.len
  {
    FindFromFound(line, 0);
    MatchAtIff(line, m.start, m.len);
    MatchLengthUnique(line, m.start, m.len);
  }

  /** The scan finds nothing exactly when no substring is a complete match. */
  lemma {:induction false} ScanNoneIff(line: string)
    ensures FindFrom(line, 0).None? <==>
      forall i, j {:trigger IsClassProp(line[i..j])} :: 0 <= i <= j <= |line| ==> !IsClassProp(line[i..j])
  {
    FindFromCoversAll(line);
    if FindFrom(line, 0).Some? {
      ScanMatchIsComplete(line, FindFrom(line, 0).value);
    }
  }

  /** No complete match starts left of the one the scan finds. */
  lemma {:induction false} ScanLeftmost(line: string)
    ensures FindFrom(line, 0).Some? ==>
      forall i, j {:trigger IsClassProp(line[i..j])} :: 0 <= i < FindFrom(line, 0).value.start && i <= j <= |line| ==>
        !IsClassProp(line[i..j])
  {
    FindFromCoversAll(line);
  }

  /** Every complete match in the line starts at or after the one the scan finds. */
  lemma {:induction false} FindFromCoversAll(line: string)
    ensures forall i, j {:trigger IsClassProp(line[i..j])} :: 0 <= i <= j <= |line| && IsClassProp(line[i..j]) ==>
      FindFrom(line, 0).Some? && FindFrom(line, 0).value.start <= i
  {
    forall i, j | 0 <= i <= j <= |line| && IsClassProp(line[i..j])
      ensures FindFrom(line, 0).Some? && FindFrom(line, 0).value.start <= i
    {
      FindFromNone(line, 0);
      FindFromLeftmost(line, 0);
      MatchAtComplete(line, i, j);
    }
  }

  /** A match at `start` has no other length. */
  lemma {:induction false} MatchLengthUnique(line: string, start: nat, len: nat)
    requires start <= |line| && MatchAt(line, start) == Some(len)
    ensures forall j {:trigger IsClassProp(line[start..j])} :: start <= j <= |line| && IsClassProp(line[start..j]) ==>
      j == start + len
  {
    forall j | start <= j <= |line| && IsClassProp(line[start..j]) ensures j == start + len {
      MatchAtComplete(line, start, j);
    }
  }

  /** The text of a found match is a complete match. This restates part of
      `FindFirst`'s contract on its own so that callers see only this fact, which keeps
      their proof obligations small. */
  lemma {:induction false} FoundIsClassProp(line: string, m: Match)
    requires FindFirst(line) == Some(m)
    ensures m.start + m.len <= |line| && IsClassProp(line[m.start..m.start + m.len])
  {
  }

  /** The leftmost match is found from the matcher alone: a match at `m.start` and
      none before it. */
  lemma {:induction false} FindFirstIs(s: string, m: Match)
    requires m.start <= |s| && MatchAt(s, m.start) == Some(m.len)
    requires forall i :: 0 <= i < m.start ==> MatchAt(s, i).None?
    ensures FindFirst(s) == Some(m)
  {
    var r := FindFrom(s, 0);
    FindFromSpec(s, 0);
    assert r.Some?;
    assert r.value.start == m.start;
  }

  /** `lineText.indexOf(propString)` finds the match itself: no earlier copy of the
      matched text exists, since any copy would be an earlier match. */
  lemma {:induction false} FirstOccurrenceIsMatchStart(line: string, m: Match)
    requires FindFirst(line) == Some(m)
    ensures IndexOf(line, line[m.start..m.start + m.len]) == m.start
  {
    var t := line[m.start..m.start + m.len];
    FoundIsClassProp(line, m);
    assert OccursAt(line, t, m.start);
    forall k | 0 <= k < m.start && k + |t| <= |line| ensures !OccursAt(line, t, k) {
      NoMatchBefore(line, m, k, k + |t|);
    }
    var r := IndexOf(line, t);
    assert r != -1 && !(r > m.start);
  }

  /** No complete match starts left of the found one. A narrow restatement of
      `FindFirst`'s contract that keeps the callers' proof obligations small. */
  lemma {:induction false} NoMatchBefore(line: string, m: Match, i: nat, j: nat)
    requires FindFirst(line) == Some(m) && i < m.start && i <= j <= |line|
    ensures !IsClassProp(line[i..j])
  {
  }

  /** `propText.split('"')[1]` of a complete match is its capture group: the text
      before the opening quote has no quote, and the value is followed by the closing one. */
  lemma {:induction false} CaptureIsSecondField(t: string)
    requires IsClassProp(t)
    ensures |Split(t, '"')| >= 2
    ensures Split(t, '"')[1] == Capture(t)
    ensures |Capture(t)| >= 1
  {
    var kw := if IsPropWith(t, "classname") then "classname" else "class";
    var head := t[..|kw| + 1];
    var v := Capture(t);
    assert v == t[|kw| + 2..|t| - 1];
    forall k | 0 <= k < |head| ensures head[k] != '"' {
      if k < |kw| {
        assert Fold(t[k]) == Fold(kw[k]);
      }
    }
    assert '"' !in head;
    assert '"' !in v by {
      forall k | 0 <= k < |v| ensures v[k] != '"' {
        assert v[k] == t[|kw| + 2 + k];
      }
    }
    assert t == head + ['"'] + (v + ['"'] + "");
    SplitAtFirst(head, v + ['"'] + "", '"');
    SplitAtFirst(v, "", '"');
    SplitNoSeparator("", '"');
  }
}
