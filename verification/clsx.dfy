/** The `extension.clsx` command: a fail-fast pipeline that checks the editor, locates
    the `class`/`className` string attribute under the cursor, computes its
    `className={alias('…')}` replacement and decides whether an import of `clsx` must
    be inserted. The host editor's state is passed in explicitly. */
module Clsx {
  import opened Results
  import opened Text
  import ClassProp
  import ImportDecl

  const NoActiveEditor := "Must have an active editor open"
  const NotJsxOrTsx := "Must be jsx or tsx to use clsx"
  const PropNotFound := "could not find className prop"
  const NotAClsxProp := "this is not a clsx prop"
  const PropNotParsed := "could not parse class prop"

  /** The two language identifiers the command accepts. */
  const ReactLanguages: set<string> := {"typescriptreact", "javascriptreact"}

  datatype Position = Position(line: nat, character: nat)
  datatype Range = Range(start: Position, end: Position)

  /** What the command reads from the active editor: the document's language, the
      start of the selection, the text of the selection's line and the whole text. */
  datatype Editor = Editor(languageId: string, cursor: Position, lineText: string, documentText: string)

  datatype Insertion = Insertion(at: Position, text: string)

  /** The single edit transaction: one replacement and at most one insertion. */
  datatype Edit = Edit(range: Range, replacement: string, insertion: Option<Insertion>)

  /** What one invocation does: the edit it applies, if any, and the error
      notifications it shows, in order. */
  datatype Outcome = Outcome(edit: Option<Edit>, notifications: seq<string>)

  /** The applicability check: an editor must be open and its document must be TSX or
      JSX; a wrong language is also notified directly before the error is thrown. */
  function CheckConditions(editor: Option<Editor>): (r: Result<Editor>)
    ensures r.Ok? <==> editor.Some? && editor.value.languageId in ReactLanguages
    ensures r.Ok? ==> r.value == editor.value
    ensures editor.None? ==> r == Err(NoActiveEditor, [])
    ensures editor.Some? && editor.value.languageId !in ReactLanguages ==> r == Err(NotJsxOrTsx, [NotJsxOrTsx])
  {
    if editor.None? then Err(NoActiveEditor, [])
    else if editor.value.languageId != "typescriptreact" && editor.value.languageId != "javascriptreact" then
      Err(NotJsxOrTsx, [NotJsxOrTsx])
    else Ok(editor.value)
  }

  /** The range of the attribute on the cursor's line: the leftmost match of the
      pattern, located again with `indexOf`, and accepted only when the cursor column
      lies in the closed interval from its start to its end. */
  function GetPropPosition(e: Editor): (r: Result<Range>)
    ensures r.Err? ==> r.notified == [] && r.message in {PropNotFound, NotAClsxProp}
    ensures r == Err(PropNotFound, []) <==> ClassProp.FindFirst(e.lineText).None?
    ensures r == Err(NotAClsxProp, []) <==>
      ClassProp.FindFirst(e.lineText).Some? &&
      var m := ClassProp.FindFirst(e.lineText).value;
      e.cursor.character < m.start || e.cursor.character > m.start + m.len
    ensures r.Ok? ==>
      ClassProp.FindFirst(e.lineText).Some? &&
      var m := ClassProp.FindFirst(e.lineText).value;
      && r.value == Range(Position(e.cursor.line, m.start), Position(e.cursor.line, m.start + m.len))
      && m.start <= e.cursor.character <= m.start + m.len
  {
    var found := ClassProp.FindFirst(e.lineText);
    if found.None? then Err(PropNotFound, [])
    else
      var m := found.value;
      var propString := e.lineText[m.start..m.start + m.len];
      var startIndex := IndexOf(e.lineText, propString);
      assert startIndex == m.start by {
        ClassProp.FirstOccurrenceIsMatchStart(e.lineText, m);
      }
      var endIndex := startIndex + |propString|;
      var selectionIndex := e.cursor.character;
      if selectionIndex < startIndex || selectionIndex > endIndex then Err(NotAClsxProp, [])
      else Ok(Range(Position(e.cursor.line, startIndex), Position(e.cursor.line, endIndex)))
  }

  /** `document.getText(range)` for a range inside the given line. */
  function GetText(lineText: string, rg: Range): string
    requires rg.start.character <= rg.end.character <= |lineText|
  {
    lineText[rg.start.character..rg.end.character]
  }

  /** The attribute expression that replaces the string attribute. */
  function ClassNameCall(alias: string, value: string): string {
    "className={" + alias + "('" + value + "')}"
  }

  /** The replacement text: the field between the first and second `"` of the
      attribute's text, wrapped in a call of the alias. */
  function GetNewClassNameProp(propText: string, alias: string): (r: Result<string>)
    ensures r.Err? ==> r == Err(PropNotParsed, [])
    ensures r.Ok? ==> exists v :: v != "" && '"' !in v && r.value == ClassNameCall(alias, v)
  {
    var fields := Split(propText, '"');
    if |fields| < 2 || fields[1] == "" then Err(PropNotParsed, [])
    else Ok(ClassNameCall(alias, fields[1]))
  }

  /** The import line inserted at the start of the second line when needed. */
  function ImportLine(alias: string): string {
    "import " + alias + " from 'clsx';\n"
  }

  /** The conditional insertion: an import line at line 1, column 0, exactly when no
      import of `clsx` occurs anywhere in the document. */
  function ImportInsertion(documentText: string, alias: string): (r: Option<Insertion>)
    ensures r.Some? <==> forall i, j {:trigger ImportDecl.IsImport(documentText[i..j])} :: 0 <= i <= j <= |documentText| ==> !ImportDecl.IsImport(documentText[i..j])
    ensures r.Some? ==> r.value.at == Position(1, 0) && r.value.text == ImportLine(alias)
  {
    if ImportDecl.NeedsImport(documentText) then Some(Insertion(Position(1, 0), ImportLine(alias))) else None
  }

  /** The body of the command handler up to the edit: every step may throw, and the
      first one that does ends the command before the edit is built. */
  function Plan(editor: Option<Editor>, alias: string): (r: Result<Edit>)
    ensures CheckConditions(editor).Err? ==>
      r == Err(CheckConditions(editor).message, CheckConditions(editor).notified)
    ensures CheckConditions(editor).Ok? && GetPropPosition(editor.value).Err? ==>
      r == Err(GetPropPosition(editor.value).message, [])
    ensures r.Ok? ==> editor.Some? && GetPropPosition(editor.value).Ok?
    ensures r.Ok? ==> r.value.range == GetPropPosition(editor.value).value
    ensures r.Ok? ==> r.value.insertion == ImportInsertion(editor.value.documentText, alias)
  {
    var e :- CheckConditions(editor);
    var range :- GetPropPosition(e);
    var newPropText :- GetNewClassNameProp(GetText(e.lineText, range), alias);
    Ok(Edit(range, newPropText, ImportInsertion(e.documentText, alias)))
  }

  /** One invocation of the command: an edit when every step succeeds; otherwise no
      edit, and the failing step's notifications followed by `Error: ` and its message. */
  function Command(editor: Option<Editor>, alias: string): (r: Outcome)
    ensures r.edit.Some? <==> Plan(editor, alias).Ok?
    ensures r.edit.Some? ==> r.notifications == []
    ensures r.edit.None? ==> |r.notifications| >= 1 && r.notifications[|r.notifications| - 1] == "Error: " + Plan(editor, alias).message
  {
    match Plan(editor, alias)
    case Ok(edit) => Outcome(Some(edit), [])
    case Err(message, notified) => Outcome(None, notified + ["Error: " + message])
  }

  /** The line after the replacement has been applied to it. */
  function ApplyToLine(lineText: string, rg: Range, replacement: string): string
    requires rg.start.character <= rg.end.character <= |lineText|
  {
    lineText[..rg.start.character] + replacement + lineText[rg.end.character..]
  }
}
