/** Properties of the command as a whole: which invocations edit, what the edit is,
    and what it leaves unchanged. */
module ClsxLemmas {
  import opened Results
  import opened Text
  import ClassProp
  import ImportDecl
  import opened Clsx

  /** The replacement for any located attribute: its text always parses, and the value
      placed in the call is the pattern's capture, which is never empty. */
  lemma {:induction false} LocatedPropParses(propText: string, alias: string)
    requires ClassProp.IsClassProp(propText)
    ensures ClassProp.Capture(propText) != ""
    ensures GetNewClassNameProp(propText, alias) == Ok(ClassNameCall(alias, ClassProp.Capture(propText)))
  {
    ClassProp.CaptureIsSecondField(propText);
  }

  /** The replacement of any text with a `"`: `a` is what precedes the first quote, `v`
      what lies between it and the next quote (or the end). Parsing fails exactly when
      `v` is empty; otherwise `v` is copied verbatim into the call. */
  lemma {:induction false} NewPropIsSecondQuoteField(a: string, v: string, b: string, alias: string)
    requires '"' !in a && '"' !in v
    requires b == "" || b[0] == '"'
    ensures GetNewClassNameProp(a + ['"'] + v + b, alias) ==
      if v == "" then Err(PropNotParsed, []) else Ok(ClassNameCall(alias, v))
  {
    SplitAtFirst(a, v + b, '"');
    assert a + ['"'] + v + b == a + ['"'] + (v + b);
    if b == "" {
      assert v + b == v;
      SplitNoSeparator(v, '"');
    } else {
      assert v + b == v + ['"'] + b[1..];
      SplitAtFirst(v, b[1..], '"');
    }
  }

  /** Text without any `"` never parses. */
  lemma {:induction false} NewPropWithoutQuote(propText: string, alias: string)
    requires '"' !in propText
    ensures GetNewClassNameProp(propText, alias) == Err(PropNotParsed, [])
  {
    SplitNoSeparator(propText, '"');
  }

  /** Only TSX and JSX documents are ever edited; the two applicability failures show
      exactly these notifications. */
  lemma {:induction false} OnlyReactDocumentsAreEdited(editor: Option<Editor>, alias: string)
    ensures Command(editor, alias).edit.Some? ==> editor.Some? && editor.value.languageId in ReactLanguages
    ensures editor.None? ==> Command(editor, alias) == Outcome(None, ["Error: " + NoActiveEditor])
    ensures editor.Some? && editor.value.languageId !in ReactLanguages ==>
      Command(editor, alias) == Outcome(None, [NotJsxOrTsx, "Error: " + NotJsxOrTsx])
  {
  }

  /** The two ways locating the attribute fails in an accepted document: no match on
      the cursor's line, or a cursor outside the leftmost match. Each ends the command
      with its own error and nothing else. */
  lemma {:induction false} CommandLocateFailures(e: Editor, alias: string)
    requires e.languageId in ReactLanguages
    ensures ClassProp.FindFirst(e.lineText).None? ==>
      Command(Some(e), alias) == Outcome(None, ["Error: " + PropNotFound])
    ensures ClassProp.FindFirst(e.lineText).Some? ==>
      var m := ClassProp.FindFirst(e.lineText).value;
      e.cursor.character < m.start || e.cursor.character > m.start + m.len ==>
        Command(Some(e), alias) == Outcome(None, ["Error: " + NotAClsxProp])
  {
    assert CheckConditions(Some(e)) == Ok(e);
  }

  /** The plan for a cursor inside the leftmost attribute of an accepted document: the
      attribute's columns, the alias call on its quoted value, and the import decision. */
  lemma {:induction false} LocatedEdit(e: Editor, alias: string, m: ClassProp.Match)
    requires e.languageId in ReactLanguages
    requires ClassProp.FindFirst(e.lineText) == Some(m)
    requires m.start <= e.cursor.character <= m.start + m.len
    ensures m.start + m.len <= |e.lineText| && ClassProp.IsClassProp(e.lineText[m.start..m.start + m.len])
    ensures Plan(Some(e), alias) ==
      Ok(Edit(Range(Position(e.cursor.line, m.start), Position(e.cursor.line, m.start + m.len)),
              ClassNameCall(alias, ClassProp.Capture(e.lineText[m.start..m.start + m.len])),
              ImportInsertion(e.documentText, alias)))
  {
    ClassProp.FoundIsClassProp(e.lineText, m);
    var propText := e.lineText[m.start..m.start + m.len];
    var rg := Range(Position(e.cursor.line, m.start), Position(e.cursor.line, m.start + m.len));
    LocatedRange(e, m);
    assert GetText(e.lineText, rg) == propText;
    LocatedPropParses(propText, alias);
    PlanSteps(e, alias, rg, ClassNameCall(alias, ClassProp.Capture(propText)));
  }

  /** A cursor inside the leftmost match locates exactly that match's columns. */
  lemma {:induction false} LocatedRange(e: Editor, m: ClassProp.Match)
    requires ClassProp.FindFirst(e.lineText) == Some(m)
    requires m.start <= e.cursor.character <= m.start + m.len
    ensures GetPropPosition(e) == Ok(Range(Position(e.cursor.line, m.start), Position(e.cursor.line, m.start + m.len)))
  {
    var r := GetPropPosition(e);
    var rg := Range(Position(e.cursor.line, m.start), Position(e.cursor.line, m.start + m.len));
    OnlyOutcomeLeft(r, rg);
  }

  /** A located result that is neither of the two failures is the success with its range.
      Stated over a plain `Result` so that the step is proved without unfolding the
      locate step, which keeps `LocatedRange` small. */
  lemma {:induction false} OnlyOutcomeLeft(r: Result<Range>, rg: Range)
    requires r.Err? ==> r.notified == [] && r.message in {PropNotFound, NotAClsxProp}
    requires r != Err(PropNotFound, []) && r != Err(NotAClsxProp, [])
    requires r.Ok? ==> r.value == rg
    ensures r == Ok(rg)
  {
  }

  /** The plan of an accepted document whose attribute is located and parsed. */
  lemma {:induction false} PlanSteps(e: Editor, alias: string, rg: Range, replacement: string)
    requires e.languageId in ReactLanguages && GetPropPosition(e) == Ok(rg)
    requires rg.start.character <= rg.end.character <= |e.lineText|
    requires GetNewClassNameProp(GetText(e.lineText, rg), alias) == Ok(replacement)
    ensures Plan(Some(e), alias) == Ok(Edit(rg, replacement, ImportInsertion(e.documentText, alias)))
  {
    assert CheckConditions(Some(e)) == Ok(e);
  }

  /** When the command edits: the cursor is in a TSX or JSX document, its line has a
      match, and the cursor column lies in the closed interval of the leftmost one.
      The "could not parse class prop" failure never happens. */
  lemma {:induction false} CommandEditsIff(editor: Option<Editor>, alias: string)
    ensures Command(editor, alias).edit.Some? <==>
      && editor.Some? && editor.value.languageId in ReactLanguages
      && ClassProp.FindFirst(editor.value.lineText).Some?
      && var m := ClassProp.FindFirst(editor.value.lineText).value;
         m.start <= editor.value.cursor.character <= m.start + m.len
    ensures Plan(editor, alias).Err? ==> Plan(editor, alias).message != PropNotParsed
  {
    if editor.None? || editor.value.languageId !in ReactLanguages {
      OnlyReactDocumentsAreEdited(editor, alias);
    } else {
      var e := editor.value;
      var found := ClassProp.FindFirst(e.lineText);
      if found.Some? && found.value.start <= e.cursor.character <= found.value.start + found.value.len {
        LocatedEdit(e, alias, found.value);
      } else {
        CommandLocateFailures(e, alias);
        assert CheckConditions(editor) == Ok(e);
      }
    }
  }

  /** The edit the command should make, read off the pattern directly: for the leftmost
      match on the cursor's line, when the cursor lies in its closed interval, replace
      it by the alias call on its capture group, with the document's import decision. */
  function ExpectedEdit(e: Editor, alias: string): Option<Edit> {
    match ClassProp.FindFirst(e.lineText)
    case None => None
    case Some(m) =>
      ClassProp.FoundIsClassProp(e.lineText, m);
      if m.start <= e.cursor.character <= m.start + m.len then
        Some(Edit(Range(Position(e.cursor.line, m.start), Position(e.cursor.line, m.start + m.len)),
                  ClassNameCall(alias, ClassProp.Capture(e.lineText[m.start..m.start + m.len])),
                  ImportInsertion(e.documentText, alias)))
      else None
  }

  lemma {:induction false} ExpectedEditAt(e: Editor, alias: string, m: ClassProp.Match)
    requires ClassProp.FindFirst(e.lineText) == Some(m)
    requires m.start <= e.cursor.character <= m.start + m.len
    ensures m.start + m.len <= |e.lineText| && ClassProp.IsClassProp(e.lineText[m.start..m.start + m.len])
    ensures ExpectedEdit(e, alias) ==
      Some(Edit(Range(Position(e.cursor.line, m.start), Position(e.cursor.line, m.start + m.len)),
                ClassNameCall(alias, ClassProp.Capture(e.lineText[m.start..m.start + m.len])),
                ImportInsertion(e.documentText, alias)))
  {
    ClassProp.FoundIsClassProp(e.lineText, m);
  }

  /** The edit itself: in a TSX or JSX document the command makes exactly the expected
      edit (the leftmost attribute replaced by a call of the alias on its quoted value,
      plus the import decision), and elsewhere none. */
  lemma {:induction false} CommandEdit(editor: Option<Editor>, alias: string)
    ensures Command(editor, alias).edit ==
      if editor.Some? && editor.value.languageId in ReactLanguages then ExpectedEdit(editor.value, alias) else None
  {
    if editor.Some? && editor.value.languageId in ReactLanguages {
      AcceptedEdit(editor.value, alias);
    } else {
      OnlyReactDocumentsAreEdited(editor, alias);
    }
  }

  lemma {:induction false} AcceptedEdit(e: Editor, alias: string)
    requires e.languageId in ReactLanguages
    ensures Command(Some(e), alias).edit == ExpectedEdit(e, alias)
  {
    var found := ClassProp.FindFirst(e.lineText);
    if found.Some? && found.value.start <= e.cursor.character <= found.value.start + found.value.len {
      LocatedCommandEdit(e, alias, found.value);
    } else {
      CommandLocateFailures(e, alias);
      assert ExpectedEdit(e, alias) == None;
    }
  }

  lemma {:induction false} LocatedCommandEdit(e: Editor, alias: string, m: ClassProp.Match)
    requires e.languageId in ReactLanguages
    requires ClassProp.FindFirst(e.lineText) == Some(m)
    requires m.start <= e.cursor.character <= m.start + m.len
    ensures Command(Some(e), alias).edit == ExpectedEdit(e, alias)
  {
    LocatedEdit(e, alias, m);
    ExpectedEditAt(e, alias, m);
  }

  /** The insertion part of the edit: the import line at line 1, column 0, present
      exactly when the document has no import of `clsx`. */
  lemma {:induction false} CommandInsertsImportIff(editor: Option<Editor>, alias: string)
    ensures Command(editor, alias).edit.Some? ==> editor.Some?
    ensures Command(editor, alias).edit.Some? ==>
      var insertion := Command(editor, alias).edit.value.insertion;
      && (insertion.Some? <==> forall i, j {:trigger ImportDecl.IsImport(editor.value.documentText[i..j])} :: 0 <= i <= j <= |editor.value.documentText| ==>
                                  !ImportDecl.IsImport(editor.value.documentText[i..j]))
      && (insertion.Some? ==> insertion.value == Insertion(Position(1, 0), ImportLine(alias)))
  {
    CommandEdit(editor, alias);
  }

  /** Applying the replacement changes only the columns of the range: everything before
      it and everything after it is kept, shifted by the change in length. */
  lemma {:induction false} ReplacementKeepsRestOfLine(lineText: string, rg: Range, replacement: string)
    requires rg.start.character <= rg.end.character <= |lineText|
    ensures var r := ApplyToLine(lineText, rg, replacement);
      && |r| == |lineText| - (rg.end.character - rg.start.character) + |replacement|
      && (forall k :: 0 <= k < rg.start.character ==> r[k] == lineText[k])
      && (forall k :: rg.start.character <= k < rg.start.character + |replacement| ==>
            r[k] == replacement[k - rg.start.character])
      && (forall k :: rg.end.character <= k < |lineText| ==>
            r[k - rg.end.character + rg.start.character + |replacement|] == lineText[k])
  {
  }

  /** Replacing the new text with the old text again restores the original line. */
  lemma {:induction false} ReplacementCanBeUndone(lineText: string, rg: Range, replacement: string)
    requires rg.start.character <= rg.end.character <= |lineText|
    ensures var s := rg.start.character;
      var back := Range(rg.start, Position(rg.start.line, s + |replacement|));
      ApplyToLine(ApplyToLine(lineText, rg, replacement), back, GetText(lineText, rg)) == lineText
  {
    var s := rg.start.character;
    var r := ApplyToLine(lineText, rg, replacement);
    assert r[..s] == lineText[..s];
    assert r[s + |replacement|..] == lineText[rg.end.character..];
    assert lineText[..s] + lineText[s..rg.end.character] + lineText[rg.end.character..] == lineText;
  }

  /** The inserted import line is itself recognised: once it is in a document, a second
      run inserts nothing, provided the alias is one or more ASCII word characters. */
  lemma {:induction false} InsertedImportIsRecognised(before: string, after: string, alias: string)
    requires |alias| >= 1 && forall k :: 0 <= k < |alias| ==> IsWordChar(alias[k])
    ensures !ImportDecl.NeedsImport(before + ImportLine(alias) + after)
  {
    var t := "import " + alias + " from 'clsx'";
    var d := before + ImportLine(alias) + after;
    assert |t| == |alias| + 19;
    forall k | 0 <= k < 7 ensures Fold(t[k]) == Fold("import "[k]) {
      assert t[k] == "import "[k];
    }
    forall k | 7 <= k < |t| - 12 ensures IsWordChar(t[k]) {
      assert t[k] == alias[k - 7];
    }
    forall k | 0 <= k < 6 ensures Fold(t[|t| - 12 + k]) == Fold(" from "[k]) {
      assert t[|t| - 12 + k] == " from 'clsx'"[k];
    }
    forall k | 0 <= k < 4 ensures Fold(t[|t| - 5 + k]) == Fold("clsx"[k]) {
      assert t[|t| - 5 + k] == " from 'clsx'"[7 + k];
    }
    assert t[|t| - 6] == '\'' && t[|t| - 1] == '\'';
    assert ImportDecl.IsImport(t);
    assert ImportLine(alias) == t + ";\n";
    assert d[|before|..|before| + |t|] == t;
  }
}
