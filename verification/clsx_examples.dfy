/** Concrete invocations of the command, stated as lemmas. */
module ClsxExamples {
  import opened Results
  import opened Text
  import ClassProp
  import ImportDecl
  import opened Clsx
  import ClsxLemmas

  /** No match of the attribute pattern starts at a character other than `c` or `C`. */
  lemma {:induction false} NoPropWithoutC(s: string, i: nat)
    requires i < |s| && Fold(s[i]) != 'c'
    ensures ClassProp.MatchAt(s, i).None?
  {
    assert Fold("classname=\""[0]) == 'c';
    assert Fold("class=\""[0]) == 'c';
  }

  /** No match of the import pattern starts at a character other than `i` or `I`. */
  lemma {:induction false} NoImportWithoutI(s: string, i: nat)
    requires i <= |s| && (i == |s| || Fold(s[i]) != 'i')
    ensures ImportDecl.ImportMatchAt(s, i).None?
  {
    assert Fold("import "[0]) == 'i';
  }

  /** A document in which no character is `i` or `I` needs the import. */
  lemma {:induction false} NeedsImportWithoutI(s: string)
    requires forall k :: 0 <= k < |s| ==> Fold(s[k]) != 'i'
    ensures ImportDecl.NeedsImport(s)
  {
    forall i | 0 <= i <= |s| ensures ImportDecl.ImportMatchAt(s, i).None? {
      NoImportWithoutI(s, i);
    }
    assert !ImportDecl.HasImportFrom(s, 0);
  }

  /** The line's only attribute starts at column 3, and its value is `a b c`. */
  lemma {:induction false} LineMatch(line: string)
    requires line == "<p class=\"a b c\">"
    ensures ClassProp.FindFirst(line) == Some(ClassProp.Match(3, 13))
    ensures ClassProp.Capture(line[3..16]) == "a b c"
  {
    var t := line[3..16];
    assert t == "class=\"a b c\"";
    assert CiAt(t, 0, "class");
    assert Fold(t[5]) != Fold("classname"[5]);
    forall i | 0 <= i < 3 ensures ClassProp.MatchAt(line, i).None? {
      NoPropWithoutC(line, i);
    }
    ClassProp.MatchAtComplete(line, 3, 16);
    ClassProp.FindFirstIs(line, ClassProp.Match(3, 13));
  }

  /** A document made of `<>` and the line has no import of `clsx`. */
  lemma {:induction false} DocNeedsImport(line: string, doc: string)
    requires line == "<p class=\"a b c\">" && doc == "<>\n" + line + "\n"
    ensures ImportDecl.NeedsImport(doc)
  {
    assert doc == "<>\n<p class=\"a b c\">\n";
    forall k | 0 <= k < |doc| ensures Fold(doc[k]) != 'i' {
    }
    NeedsImportWithoutI(doc);
  }

  lemma {:induction false} ExampleTexts(line: string)
    requires line == "<p class=\"a b c\">"
    ensures ImportLine("clsx") == "import clsx from 'clsx';\n"
    ensures ApplyToLine(line, Range(Position(1, 3), Position(1, 16)), ClassNameCall("clsx", "a b c"))
         == "<p className={clsx('a b c')}>"
  {
  }

  /** `<p class="a b c">` with the cursor inside the attribute becomes
      `<p className={clsx('a b c')}>`, and the missing import is inserted. */
  lemma {:induction false} ConvertsClassAttribute(line: string, doc: string)
    requires line == "<p class=\"a b c\">" && doc == "<>\n" + line + "\n"
    ensures var out := Command(Some(Editor("typescriptreact", Position(1, 6), line, doc)), "clsx");
      && out.edit.Some?
      && ApplyToLine(line, out.edit.value.range, out.edit.value.replacement) == "<p className={clsx('a b c')}>"
      && out.edit.value.insertion == Some(Insertion(Position(1, 0), "import clsx from 'clsx';\n"))
  {
    var e := Editor("typescriptreact", Position(1, 6), line, doc);
    assert Command(Some(e), "clsx").edit.Some? by {
      LineMatch(line);
      ClsxLemmas.CommandEditsIff(Some(e), "clsx");
    }
    var edit := Command(Some(e), "clsx").edit.value;
    assert edit.range == Range(Position(1, 3), Position(1, 16))
        && edit.replacement == ClassNameCall("clsx", "a b c")
        && edit.insertion == ImportInsertion(doc, "clsx") by {
      LineMatch(line);
      ClsxLemmas.LocatedEdit(e, "clsx", ClassProp.Match(3, 13));
    }
    assert edit.insertion == Some(Insertion(Position(1, 0), ImportLine("clsx"))) by {
      DocNeedsImport(line, doc);
    }
    ExampleTexts(line);
  }

  /** The cursor may sit anywhere from the first column of the attribute to the column
      just past its closing quote, both included; one column further on either side
      the command stops with "this is not a clsx prop". */
  lemma {:induction false} CursorBoundaries(line: string, doc: string, column: nat)
    requires line == "<p class=\"a b c\">"
    ensures var out := Command(Some(Editor("javascriptreact", Position(0, column), line, doc)), "clsx");
      && (out.edit.Some? <==> 3 <= column <= 16)
      && (out.edit.None? ==> out.notifications == ["Error: " + NotAClsxProp])
  {
    var e := Editor("javascriptreact", Position(0, column), line, doc);
    LineMatch(line);
    ClsxLemmas.CommandEditsIff(Some(e), "clsx");
    assert CheckConditions(Some(e)) == Ok(e);
  }

  /** A case-insensitive mismatch at any position `k` of the literal rules out an
      occurrence of it at `i`. */
  lemma {:induction false} CiMismatch(s: string, i: nat, lit: string, k: nat)
    requires k < |lit| && i + k < |s| && Fold(s[i + k]) != Fold(lit[k])
    ensures !CiAt(s, i, lit)
  {
  }

  /** `class=""` is not an attribute at all, since the value needs one character: the
      command stops with "could not find className prop" wherever the cursor is. */
  lemma {:induction false} EmptyValueIsNotFound(line: string, doc: string, cursor: Position)
    requires line == "<div class=\"\">"
    ensures Command(Some(Editor("typescriptreact", cursor, line, doc)), "clsx")
         == Outcome(None, ["Error: " + PropNotFound])
  {
    forall i | 0 <= i <= |line| ensures ClassProp.MatchAt(line, i).None? {
      if i == 5 {
        CiMismatch(line, 5, "classname=\"", 5);
        ClassProp.ValueStartCi(line, 5);
        assert ClassProp.ValueStart(line, 5) == Some(12);
        assert line[12] == '"';
      } else if i < |line| {
        NoPropWithoutC(line, i);
      }
    }
    ClassProp.FindFromSpec(line, 0);
    assert ClassProp.FindFrom(line, 0).None?;
  }

  /** The converted line has no match at any offset. */
  lemma {:induction false} NoPropInConvertedLine(line: string)
    requires line == "<p className={clsx('a b c')}>"
    ensures forall i :: 0 <= i <= |line| ==> ClassProp.MatchAt(line, i).None?
  {
    forall i | 0 <= i <= |line| ensures ClassProp.MatchAt(line, i).None? {
      if i == 3 {
        CiMismatch(line, 3, "classname=\"", 10);
        CiMismatch(line, 3, "class=\"", 5);
        ClassProp.ValueStartCi(line, 3);
      } else if i == 14 {
        CiMismatch(line, 14, "classname=\"", 2);
        CiMismatch(line, 14, "class=\"", 2);
        ClassProp.ValueStartCi(line, 14);
      } else if i == 24 {
        CiMismatch(line, 24, "classname=\"", 1);
        CiMismatch(line, 24, "class=\"", 1);
        ClassProp.ValueStartCi(line, 24);
      } else if i < |line| {
        NoPropWithoutC(line, i);
      }
    }
  }

  /** After the conversion the line holds no quoted class attribute any more, so a
      second run at the same place stops with "could not find className prop": the
      command is not idempotent. */
  lemma {:induction false} SecondRunFindsNothing(line: string, doc: string, cursor: Position)
    requires line == "<p className={clsx('a b c')}>"
    ensures Command(Some(Editor("typescriptreact", cursor, line, doc)), "clsx")
         == Outcome(None, ["Error: " + PropNotFound])
  {
    NoPropInConvertedLine(line);
    ClassProp.FindFromSpec(line, 0);
    assert ClassProp.FindFrom(line, 0).None?;
  }

  /** An upper-case `CLASSNAME` keyword matches too, and its case is not kept. */
  lemma {:induction false} UpperCaseKeywordMatch(line: string)
    requires line == "<a CLASSNAME=\"x\">"
    ensures ClassProp.FindFirst(line) == Some(ClassProp.Match(3, 13))
    ensures ClassProp.Capture(line[3..16]) == "x"
  {
    var t := line[3..16];
    assert t == "CLASSNAME=\"x\"";
    assert CiAt(t, 0, "classname");
    forall i | 0 <= i < 3 ensures ClassProp.MatchAt(line, i).None? {
      NoPropWithoutC(line, i);
    }
    ClassProp.MatchAtComplete(line, 3, 16);
    ClassProp.FindFirstIs(line, ClassProp.Match(3, 13));
  }

  /** An import written in upper case with double quotes is recognised. */
  lemma {:induction false} UpperCaseImportIsRecognised(doc: string, rest: string)
    requires doc == "IMPORT cx FROM \"CLSX\"\n" + rest
    ensures !ImportDecl.NeedsImport(doc)
  {
    var t := doc[0..21];
    assert t == "IMPORT cx FROM \"CLSX\"";
    assert CiAt(t, 0, "import ");
    assert CiAt(t, 9, " from ");
    assert CiAt(t, 16, "clsx");
    assert ImportDecl.IsImport(t);
  }

  lemma {:induction false} KeywordExampleTexts()
    ensures ClassNameCall("cx", "x") == "className={cx('x')}"
  {
  }

  /** `<a CLASSNAME="x">` in a document that already imports the utility becomes
      `className={cx('x')}` with the configured alias `cx`, and nothing is inserted. */
  lemma {:induction false} ConvertsWithExistingImport(line: string, doc: string)
    requires line == "<a CLASSNAME=\"x\">" && doc == "IMPORT cx FROM \"CLSX\"\n" + (line + "\n")
    ensures var out := Command(Some(Editor("typescriptreact", Position(1, 3), line, doc)), "cx");
      && out.edit.Some?
      && out.edit.value.range == Range(Position(1, 3), Position(1, 16))
      && out.edit.value.replacement == "className={cx('x')}"
      && out.edit.value.insertion.None?
  {
    var e := Editor("typescriptreact", Position(1, 3), line, doc);
    assert Command(Some(e), "cx").edit.Some? by {
      UpperCaseKeywordMatch(line);
      ClsxLemmas.CommandEditsIff(Some(e), "cx");
    }
    var edit := Command(Some(e), "cx").edit.value;
    assert edit.range == Range(Position(1, 3), Position(1, 16))
        && edit.replacement == ClassNameCall("cx", "x")
        && edit.insertion == ImportInsertion(doc, "cx") by {
      UpperCaseKeywordMatch(line);
      ClsxLemmas.LocatedEdit(e, "cx", ClassProp.Match(3, 13));
    }
    UpperCaseImportIsRecognised(doc, line + "\n");
    KeywordExampleTexts();
  }
}
