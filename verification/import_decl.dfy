/** The import-detection pattern `import \w+ from ['"]clsx['"](;)?` with the `i` flag,
    matched by hand, and the `RegExp.prototype.test` over the whole document. */
module ImportDecl {
  import opened Results
  import opened Text

  predicate IsQuote(c: char) {
    c == '\'' || c == '"'
  }

  /** `t` as a whole is `import `, a name of one or more word characters, ` from `, a
      quote, `clsx` and a quote, every literal compared case-insensitively. The name
      occupies `t[7..|t| - 12]`. */
  predicate IsImport(t: string) {
    && |t| >= 20
    && CiAt(t, 0, "import ")
    && (forall k :: 7 <= k < |t| - 12 ==> IsWordChar(t[k]))
    && CiAt(t, |t| - 12, " from ")
    && IsQuote(t[|t| - 6])
    && CiAt(t, |t| - 5, "clsx")
    && IsQuote(t[|t| - 1])
  }

  /** The full pattern, with its optional trailing `;` group. */
  predicate IsImportWithSemicolon(t: string) {
    IsImport(t) || (|t| >= 1 && t[|t| - 1] == ';' && IsImport(t[..|t| - 1]))
  }

  /** Length of the match of the full pattern anchored at `i`, if any. `\w+` is greedy
      and the space after it is not a word character, so the longest run of word
      characters is the only candidate name; the optional `;` is taken when present. */
  function ImportMatchAt(s: string, i: nat): Option<nat>
    requires i <= |s|
  {
    if !CiAt(s, i, "import ") then None
    else
      var n := WordRun(s, i + 7);
      var q := i + 7 + n;
      if n >= 1 && CiAt(s, q, " from ") && q + 12 <= |s| && IsQuote(s[q + 6])
         && CiAt(s, q + 7, "clsx") && IsQuote(s[q + 11])
      then Some(if q + 12 < |s| && s[q + 12] == ';' then q + 13 - i else q + 12 - i)
      else None
  }

  /** Without its optional `;`, the match at `i` is a complete import. */
  lemma {:induction false} ImportMatchAtSound(s: string, i: nat)
    requires i <= |s| && ImportMatchAt(s, i).Some?
    ensures i + 19 + WordRun(s, i + 7) <= |s|
    ensures IsImport(s[i..i + 19 + WordRun(s, i + 7)])
  {
    ImportAt(s, i, WordRun(s, i + 7));
  }

  /** `import `, `n >= 1` word characters, ` from `, a quote, `clsx` and a quote, laid
      out from `i`, form a complete import. */
  lemma {:induction false} ImportAt(s: string, i: nat, n: nat)
    requires n >= 1 && i + 19 + n <= |s|
    requires CiAt(s, i, "import ") && CiAt(s, i + 7 + n, " from ") && CiAt(s, i + 14 + n, "clsx")
    requires forall k :: i + 7 <= k < i + 7 + n ==> IsWordChar(s[k])
    requires IsQuote(s[i + 13 + n]) && IsQuote(s[i + 18 + n])
    ensures IsImport(s[i..i + 19 + n])
  {
    var j := i + 19 + n;
    var t := s[i..j];
    CiAtSlice(s, i, j, 0, "import ");
    CiAtSlice(s, i, j, |t| - 12, " from ");
    CiAtSlice(s, i, j, |t| - 5, "clsx");
    forall k | 7 <= k < |t| - 12 ensures IsWordChar(t[k]) {
      assert t[k] == s[i + k];
    }
    assert t[|t| - 6] == s[j - 6] && t[|t| - 1] == s[j - 1];
  }

  /** The text the matcher reports at `i`, with its optional `;`, is an occurrence of
      the full pattern. */
  lemma {:induction false} ImportMatchAtReports(s: string, i: nat)
    requires i <= |s| && ImportMatchAt(s, i).Some?
    ensures i + ImportMatchAt(s, i).value <= |s|
    ensures IsImportWithSemicolon(s[i..i + ImportMatchAt(s, i).value])
  {
    ImportMatchAtSound(s, i);
    var j := i + 19 + WordRun(s, i + 7);
    if ImportMatchAt(s, i).value != j - i {
      var u := s[i..j + 1];
      assert u[..|u| - 1] == s[i..j];
    }
  }

  lemma {:induction false} ImportMatchAtComplete(s: string, i: nat, j: nat)
    requires i <= j <= |s| && IsImport(s[i..j])
    ensures ImportMatchAt(s, i).Some?
    ensures ImportMatchAt(s, i).value == j - i || (ImportMatchAt(s, i).value == j - i + 1 && s[j] == ';')
  {
    var t := s[i..j];
    CiAtSlice(s, i, j, 0, "import ");
    CiAtSlice(s, i, j, |t| - 12, " from ");
    CiAtSlice(s, i, j, |t| - 5, "clsx");
    assert forall k :: 7 <= k < |t| - 12 ==> s[i + k] == t[k];
    var n := WordRun(s, i + 7);
    // The name ends where ` from ` begins, whose space is not a word character.
    assert Fold(s[j - 12 + 0]) == Fold(" from "[0]);
    FoldExactOnNonLetters(s[j - 12], ' ');
    assert !IsWordChar(s[j - 12]);
    assert n == j - 12 - (i + 7);
    assert s[j - 6] == t[|t| - 6] && s[j - 1] == t[|t| - 1];
  }

  /** Some match of the pattern starts at or after `from`. */
  function HasImportFrom(s: string, from: nat): (r: bool)
    requires from <= |s|
    ensures r <==> exists i :: from <= i <= |s| && ImportMatchAt(s, i).Some?
    decreases |s| - from
  {
    ImportMatchAt(s, from).Some? || (from < |s| && HasImportFrom(s, from + 1))
  }

  /** `!classNamesImportRegex.test(text)`: the document needs an import exactly when no
      substring of it is an import of the utility. */
  function NeedsImport(text: string): (r: bool)
    ensures r <==> forall i, j {:trigger IsImport(text[i..j])} :: 0 <= i <= j <= |text| ==> !IsImport(text[i..j])
  {
    var found := HasImportFrom(text, 0);
    if found then
      var i :| 0 <= i <= |text| && ImportMatchAt(text, i).Some?;
      ImportMatchAtSound(text, i);
      !found
    else
      forall i, j | 0 <= i <= j <= |text| && IsImport(text[i..j]) ensures false {
        ImportMatchAtComplete(text, i, j);
      }
      !found
  }

  /** The optional `(;)` group never changes whether the pattern occurs: every match
      with the semicolon contains one without it. */
  lemma {:induction false} SemicolonIsIrrelevant(text: string)
    ensures (exists i, j {:trigger IsImportWithSemicolon(text[i..j])} :: 0 <= i <= j <= |text| && IsImportWithSemicolon(text[i..j]))
        <==> (exists i, j {:trigger IsImport(text[i..j])} :: 0 <= i <= j <= |text| && IsImport(text[i..j]))
  {
    if exists i, j :: 0 <= i <= j <= |text| && IsImportWithSemicolon(text[i..j]) {
      var i, j :| 0 <= i <= j <= |text| && IsImportWithSemicolon(text[i..j]);
      if !IsImport(text[i..j]) {
        assert text[i..j][..j - i - 1] == text[i..j - 1];
        assert IsImport(text[i..j - 1]);
      }
    }
  }
}
