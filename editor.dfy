/**
 * The notepad session as a state machine over values: one function per
 * command of the `Notepad` class, the file dialogs' answers passed in as
 * arguments, and the properties the commands keep.  The `Session` class in
 * module Notepad performs the same commands in place and is proved against
 * these functions.
 *
 * `buffer` is the user's text: the extra newline Tk's `Text.get("1.0", END)`
 * hands back is not part of it (see `ReplaceAsWritten` and `SaveAsAsWritten`
 * for what the code does with that newline).
 */
module Editor {
  import opened Strings

  /** What a path of the file system holds: text written by Save, or a PDF export of a text. */
  datatype FileContent = Text(chars: string) | Pdf(text: string)

  type FileSystem = map<string, FileContent>

  datatype EditorState = EditorState(
    buffer: string,                // the contents of the text area
    currentFile: string,           // the associated path; "" when there is none
    title: string,                 // the window title
    fontSize: int,
    isDarkMode: bool,
    textBg: string,                // text area background colour
    textFg: string,                // text area foreground colour
    rootBg: string,                // window background colour
    highlights: seq<(int, int)>,   // the ranges tagged "highlight", in the order they were tagged
    findWindowSet: bool,           // whether `find_replace_window` holds a window (it may have been closed by the window manager)
    files: FileSystem)

  /** What the user is told besides the new state: a message box, or the exception a failed read raises. */
  datatype Notice = Quiet | ReadFailed | PdfCreated | SaveBeforePrinting

  /** The outcome of a command that may tell the user something. */
  datatype Reported = Reported(state: EditorState, notice: Notice)

  const AppTitle: string := "Notepad"
  const InitialFontSize: int := 12
  const FontStep: int := 2
  const White: string := "white"
  const Black: string := "black"

  function TitleFor(path: string): string
  {
    AppTitle + " - " + path
  }

  /**
   * A freshly constructed notepad: empty text, no file, 12-point font,
   * light mode, no Find and Replace window held.  The colours are whatever the
   * platform gives a new widget; the constructor does not set them.  It
   * satisfies the session invariant `Inv`.
   */
  function Initial(files: FileSystem, textBg: string, textFg: string, rootBg: string): (st: EditorState)
    ensures Inv(st)
  {
    var st := EditorState("", "", AppTitle, InitialFontSize, false, textBg, textFg, rootBg, [], false, files);
    assert st.highlights == FindSpans(st.buffer, "");
    st
  }

  // ---------------------------------------------------------------------------
  // The File menu

  /** New: forget the file, empty the text (which drops every tag), retitle. */
  function NewFile(st: EditorState): EditorState
  {
    st.(currentFile := "", buffer := "", highlights := [], title := AppTitle + " - New File")
  }

  /**
   * Open with the path the dialog returned ("" when cancelled).  The path is
   * stored before it is checked; a chosen path empties the text before the
   * file is read, so a read that fails (no such file, or a PDF export) leaves
   * an empty text under the new path and the old title.
   */
  function OpenFile(st: EditorState, choice: string): Reported
  {
    var st1 := st.(currentFile := choice);
    if choice == "" then Reported(st1, Quiet)
    else
      var st2 := st1.(buffer := "", highlights := []);
      if choice in st.files && st.files[choice].Text? then
        Reported(st2.(buffer := st.files[choice].chars, title := TitleFor(choice)), Quiet)
      else
        Reported(st2, ReadFailed)
  }

  /** Save As with the path the dialog returned: the path is stored, and a chosen one is written and shown in the title. */
  function SaveAsFile(st: EditorState, choice: string): EditorState
  {
    var st1 := st.(currentFile := choice);
    if choice == "" then st1
    else st1.(files := st.files[choice := Text(st.buffer)], title := TitleFor(choice))
  }

  /** Save: write to the associated path, or fall back to Save As (whose dialog answers `choice`). */
  function SaveFile(st: EditorState, choice: string): EditorState
  {
    if st.currentFile != "" then st.(files := st.files[st.currentFile := Text(st.buffer)])
    else SaveAsFile(st, choice)
  }

  /**
   * Print: only with an associated path; then the destination dialog runs,
   * and a chosen destination receives a PDF of the text.
   */
  function PrintFile(st: EditorState, choice: string): Reported
  {
    if st.currentFile == "" then Reported(st, SaveBeforePrinting)
    else if choice == "" then Reported(st, Quiet)
    else Reported(st.(files := st.files[choice := Pdf(st.buffer)]), PdfCreated)
  }

  // ---------------------------------------------------------------------------
  // View and toolbar

  /** The colours dark mode stands for, and the ones leaving it sets. */
  predicate DarkColours(st: EditorState)
  {
    st.textBg == Black && st.textFg == White && st.rootBg == Black
  }

  predicate LightColours(st: EditorState)
  {
    st.textBg == White && st.textFg == Black && st.rootBg == White
  }

  /** Toggle Dark Mode: paint the colours of the mode being entered, then flip the flag. */
  function ToggleDarkMode(st: EditorState): EditorState
  {
    if st.isDarkMode then st.(textBg := White, textFg := Black, rootBg := White, isDarkMode := false)
    else st.(textBg := Black, textFg := White, rootBg := Black, isDarkMode := true)
  }

  /** A+: two points larger, without an upper bound. */
  function IncreaseFontSize(st: EditorState): EditorState
  {
    st.(fontSize := st.fontSize + FontStep)
  }

  /** A-: two points smaller, but only from a size above 2. */
  function DecreaseFontSize(st: EditorState): EditorState
  {
    if st.fontSize > 2 then st.(fontSize := st.fontSize - FontStep) else st
  }

  // ---------------------------------------------------------------------------
  // Find and Replace

  /** Find and Replace (Edit menu): a window is created only when none is held; a held one is left as it is, even if no longer shown. */
  function ShowFindReplaceDialog(st: EditorState): EditorState
  {
    if st.findWindowSet then st else st.(findWindowSet := true)
  }

  /** The window's Close button: destroy the held window and drop the reference. */
  function CloseFindReplaceDialog(st: EditorState): EditorState
  {
    if st.findWindowSet then st.(findWindowSet := false) else st
  }

  /** Find: drop the old highlights and tag each span the forward scan finds (none for an empty term). */
  function Find(st: EditorState, term: string): EditorState
  {
    st.(highlights := FindSpans(st.buffer, term))
  }

  /** Replace: the text becomes Python's `text.replace(find, repl)`; rewriting the widget drops every tag. */
  function Replace(st: EditorState, find: string, repl: string): EditorState
  {
    st.(buffer := ReplaceAll(st.buffer, find, repl), highlights := [])
  }

  // ---------------------------------------------------------------------------
  // Sessions

  datatype Command =
    | New
    | Open(openChoice: string)
    | Save(saveChoice: string)
    | SaveAs(saveAsChoice: string)
    | Print(printChoice: string)
    | ToggleDark
    | FontUp
    | FontDown
    | ShowDialog
    | CloseDialog
    | FindTerm(term: string)
    | ReplaceTerm(find: string, repl: string)

  function Apply(st: EditorState, cmd: Command): EditorState
  {
    match cmd
    case New => NewFile(st)
    case Open(c) => OpenFile(st, c).state
    case Save(c) => SaveFile(st, c)
    case SaveAs(c) => SaveAsFile(st, c)
    case Print(c) => PrintFile(st, c).state
    case ToggleDark => ToggleDarkMode(st)
    case FontUp => IncreaseFontSize(st)
    case FontDown => DecreaseFontSize(st)
    case ShowDialog => ShowFindReplaceDialog(st)
    case CloseDialog => CloseFindReplaceDialog(st)
    case FindTerm(t) => Find(st, t)
    case ReplaceTerm(f, r) => Replace(st, f, r)
  }

  /** The state after the commands, in order. */
  function Run(st: EditorState, cmds: seq<Command>): EditorState
    decreases |cmds|
  {
    if cmds == [] then st else Run(Apply(st, cmds[0]), cmds[1..])
  }

  // ---------------------------------------------------------------------------
  // The session invariant

  /** Font sizes the session can reach: even, and never below 2. */
  ghost predicate FontOk(size: int)
  {
    size >= 2 && size % 2 == 0
  }

  /** The highlights are those of a Find on the current text. */
  ghost predicate HighlightsFromFind(buffer: string, highlights: seq<(int, int)>)
  {
    exists term :: highlights == FindSpans(buffer, term)
  }

  ghost predicate Inv(st: EditorState)
  {
    FontOk(st.fontSize) && HighlightsFromFind(st.buffer, st.highlights)
  }

  /** A state whose highlights are gone keeps the invariant when its font size is fine. */
  lemma ClearedInv(st: EditorState)
    requires FontOk(st.fontSize) && st.highlights == []
    ensures Inv(st)
  {
    assert st.highlights == FindSpans(st.buffer, "");
  }

  /** A command that keeps the text and the highlights keeps the invariant when the font size is fine. */
  lemma SameTextInv(st: EditorState, st': EditorState)
    requires Inv(st) && FontOk(st'.fontSize)
    requires st'.buffer == st.buffer && st'.highlights == st.highlights
    ensures Inv(st')
  {
    var t :| st.highlights == FindSpans(st.buffer, t);
    assert st'.highlights == FindSpans(st'.buffer, t);
  }

  /** Every command keeps the invariant. */
  lemma StepKeepsInv(st: EditorState, cmd: Command)
    requires Inv(st)
    ensures Inv(Apply(st, cmd))
  {
    var st' := Apply(st, cmd);
    match cmd
    case New => ClearedInv(st');
    case Open(c) =>
      if c == "" { SameTextInv(st, st'); } else { ClearedInv(st'); }
    case Save(c) => SameTextInv(st, st');
    case SaveAs(c) => SameTextInv(st, st');
    case Print(c) => SameTextInv(st, st');
    case ToggleDark => SameTextInv(st, st');
    case FontUp => SameTextInv(st, st');
    case FontDown => SameTextInv(st, st');
    case ShowDialog => SameTextInv(st, st');
    case CloseDialog => SameTextInv(st, st');
    case FindTerm(t) => assert st'.highlights == FindSpans(st'.buffer, t);
    case ReplaceTerm(f, r) => ClearedInv(st');
  }

  /** Any session started from a fresh notepad keeps the invariant after every sequence of commands. */
  lemma {:induction false} RunKeepsInv(st: EditorState, cmds: seq<Command>)
    requires Inv(st)
    ensures Inv(Run(st, cmds))
    decreases |cmds|
  {
    if cmds != [] {
      StepKeepsInv(st, cmds[0]);
      RunKeepsInv(Apply(st, cmds[0]), cmds[1..]);
    }
  }

  /**
   * What holds in every reachable state: the font size is even and at least
   * 2, and every highlight is a non-empty exact occurrence of one same text,
   * the highlights lying left to right without overlap.
   */
  lemma ReachableStates(files: FileSystem, textBg: string, textFg: string, rootBg: string, cmds: seq<Command>)
    ensures var st := Run(Initial(files, textBg, textFg, rootBg), cmds);
      && st.fontSize >= 2 && st.fontSize % 2 == 0
      && (forall k :: 0 <= k < |st.highlights| ==> 0 <= st.highlights[k].0 < st.highlights[k].1 <= |st.buffer|)
      && (forall k :: 0 <= k < |st.highlights| ==>
            st.buffer[st.highlights[k].0..st.highlights[k].1] == st.buffer[st.highlights[0].0..st.highlights[0].1])
      && (forall k :: 0 < k < |st.highlights| ==> st.highlights[k - 1].1 <= st.highlights[k].0)
  {
    RunKeepsInv(Initial(files, textBg, textFg, rootBg), cmds);
    var st := Run(Initial(files, textBg, textFg, rootBg), cmds);
    var t :| st.highlights == FindSpans(st.buffer, t);
    if t != [] {
      FindSpansExact(st.buffer, t);
    }
  }

  // ---------------------------------------------------------------------------
  // Font size

  /** The font changes in steps of 2 only: A+ always adds 2, A- takes 2 off a size above 2 and leaves any other size alone. */
  lemma FontSteps(st: EditorState)
    ensures IncreaseFontSize(st).fontSize - st.fontSize == 2
    ensures st.fontSize > 2 ==> st.fontSize - DecreaseFontSize(st).fontSize == 2
    ensures st.fontSize <= 2 ==> DecreaseFontSize(st) == st
    ensures IncreaseFontSize(st) == st.(fontSize := IncreaseFontSize(st).fontSize)
    ensures DecreaseFontSize(st) == st.(fontSize := DecreaseFontSize(st).fontSize)
  {
  }

  /** A- undoes A+ from any size above 0, and A+ undoes A- from any size above 2. */
  lemma FontRoundTrips(st: EditorState)
    ensures st.fontSize > 0 ==> DecreaseFontSize(IncreaseFontSize(st)) == st
    ensures st.fontSize > 2 ==> IncreaseFontSize(DecreaseFontSize(st)) == st
  {
  }

  /** From a reachable (even) size, A- never goes below 2; from an odd size 3 it would reach 1. */
  lemma FontFloor(st: EditorState)
    ensures FontOk(st.fontSize) ==> FontOk(DecreaseFontSize(st).fontSize) && FontOk(IncreaseFontSize(st).fontSize)
    ensures st.fontSize == 3 ==> DecreaseFontSize(st).fontSize == 1
  {
  }

  // ---------------------------------------------------------------------------
  // Dark mode

  /** After a toggle the colours match the flag: dark colours exactly in dark mode, light colours exactly out of it. */
  lemma ToggleColoursMatchFlag(st: EditorState)
    ensures var t := ToggleDarkMode(st);
      && t.isDarkMode == !st.isDarkMode
      && (t.isDarkMode <==> DarkColours(t))
      && (!t.isDarkMode <==> LightColours(t))
  {
  }

  /** Once the colours match the flag, toggling twice restores the flag, the three colours and everything else. */
  lemma ToggleTwice(st: EditorState)
    requires if st.isDarkMode then DarkColours(st) else LightColours(st)
    ensures ToggleDarkMode(ToggleDarkMode(st)) == st
  {
  }

  /** From the platform's colours, the first two toggles end in light mode with white and black, whatever those colours were. */
  lemma ToggleFromStart(files: FileSystem, textBg: string, textFg: string, rootBg: string)
    ensures var t := ToggleDarkMode(ToggleDarkMode(Initial(files, textBg, textFg, rootBg)));
      && !t.isDarkMode && LightColours(t)
      && t == Initial(files, White, Black, White)
  {
  }

  /** Two toggles from light mode give white/black/white, so colours that were not those (the platform's, or a chosen font colour) are lost. */
  lemma ToggleTwiceLosesOtherColours(st: EditorState)
    requires !st.isDarkMode && !LightColours(st)
    ensures ToggleDarkMode(ToggleDarkMode(st)) != st
    ensures LightColours(ToggleDarkMode(ToggleDarkMode(st)))
  {
  }

  // ---------------------------------------------------------------------------
  // Files

  /** After New there is no path, so Save goes through Save As. */
  lemma NewThenSave(st: EditorState, choice: string)
    ensures NewFile(st).currentFile == "" && NewFile(st).buffer == ""
    ensures SaveFile(NewFile(st), choice) == SaveAsFile(NewFile(st), choice)
  {
  }

  /** A cancelled Open or Save As drops the associated path but keeps the text, the highlights, the title and the files. */
  lemma CancelledDialogs(st: EditorState)
    ensures OpenFile(st, "") == Reported(st.(currentFile := ""), Quiet)
    ensures SaveAsFile(st, "") == st.(currentFile := "")
  {
  }

  /**
   * Open of a chosen path either loads the text stored there, or (no text
   * there) fails and leaves an empty text under that path with the old
   * title; in both cases the old highlights are gone and no file changes.
   */
  lemma OpenChosen(st: EditorState, choice: string)
    requires choice != ""
    ensures var o := OpenFile(st, choice);
      && o.state.currentFile == choice && o.state.highlights == [] && o.state.files == st.files
      && (o.notice == Quiet <==> choice in st.files && st.files[choice].Text?)
      && (o.notice == Quiet ==> o.state.buffer == st.files[choice].chars && o.state.title == TitleFor(choice))
      && (o.notice != Quiet ==> o.notice == ReadFailed && o.state.buffer == "" && o.state.title == st.title)
  {
  }

  /** Save with a path writes the text there and changes nothing else. */
  lemma SaveWithPath(st: EditorState, choice: string)
    requires st.currentFile != ""
    ensures var s := SaveFile(st, choice);
      && s.files == st.files[st.currentFile := Text(st.buffer)]
      && s == st.(files := s.files)
  {
  }

  /** What Save As writes comes back unchanged from Open of the same path. */
  lemma SaveAsThenOpen(st: EditorState, path: string)
    requires path != ""
    ensures var o := OpenFile(SaveAsFile(st, path), path);
      && o.notice == Quiet
      && o.state.buffer == st.buffer && o.state.currentFile == path && o.state.title == TitleFor(path)
  {
  }

  /** The same for Save when a path is associated: reopening it gives back the text. */
  lemma SaveThenOpen(st: EditorState, choice: string)
    requires st.currentFile != ""
    ensures var o := OpenFile(SaveFile(st, choice), st.currentFile);
      && o.notice == Quiet && o.state.buffer == st.buffer
  {
  }

  /**
   * Print with no associated path only reports the error; with a path, a
   * chosen destination gets a PDF of the text and no other file changes,
   * and a cancelled destination changes nothing.  Print never changes the
   * text, the path or the title.
   */
  lemma PrintGuard(st: EditorState, choice: string)
    ensures var p := PrintFile(st, choice);
      && (st.currentFile == "" ==> p == Reported(st, SaveBeforePrinting))
      && (st.currentFile != "" && choice == "" ==> p == Reported(st, Quiet))
      && (st.currentFile != "" && choice != "" ==>
            p.notice == PdfCreated && p.state.files == st.files[choice := Pdf(st.buffer)])
      && p.state == st.(files := p.state.files)
  {
  }

  // ---------------------------------------------------------------------------
  // Find and Replace

  /**
   * Find replaces the old highlights (it never adds to them) and changes
   * nothing but the highlights; with an empty term there are none; with a
   * non-empty term each is an exact occurrence of the term, they increase
   * without overlap, and no occurrence lies before, between or after them.
   */
  lemma FindHighlights(st: EditorState, term: string)
    ensures var f := Find(st, term);
      && f == st.(highlights := f.highlights)
      && (term == [] ==> f.highlights == [])
      && (forall k :: 0 <= k < |f.highlights| ==>
            0 <= f.highlights[k].0 < f.highlights[k].1 <= |st.buffer| && st.buffer[f.highlights[k].0..f.highlights[k].1] == term)
      && (forall k :: 0 < k < |f.highlights| ==> f.highlights[k - 1].1 <= f.highlights[k].0)
      && (term != [] ==> NoneBetween(st.buffer, term, 0, if f.highlights == [] then |st.buffer| else f.highlights[0].0))
      && (term != [] ==> forall k :: 0 < k < |f.highlights| ==> NoneBetween(st.buffer, term, f.highlights[k - 1].1, f.highlights[k].0))
      && (term != [] && f.highlights != [] ==> NoneFrom(st.buffer, term, f.highlights[|f.highlights| - 1].1))
  {
    if term != [] {
      FindSpansExact(st.buffer, term);
      FindSpansComplete(st.buffer, term);
    }
  }

  /** Finding the same term twice on the same text gives the same highlights, not twice as many. */
  lemma FindIdempotent(st: EditorState, term: string)
    ensures Find(Find(st, term), term) == Find(st, term)
  {
  }

  /** For a non-empty term, Replace substitutes the replacement for exactly the spans a Find for that term highlights. */
  lemma ReplaceMatchesFind(st: EditorState, find: string, repl: string)
    requires find != []
    ensures Replace(st, find, repl).buffer == Splice(st.buffer, Find(st, find).highlights, repl, 0)
  {
    ReplaceIsSpliceOfFindSpans(st.buffer, find, repl);
  }

  /** A non-empty term that does not occur, or an empty term with an empty replacement, leaves the text as it was. */
  lemma ReplaceKeepsText(st: EditorState, find: string, repl: string)
    requires (find != [] && forall j :: !OccursAt(st.buffer, find, j)) || (find == [] && repl == [])
    ensures Replace(st, find, repl).buffer == st.buffer
  {
    if find != [] {
      ReplaceAbsent(st.buffer, find, repl);
    }
  }

  /** An empty term is not a no-op: the replacement is inserted before every character and at the end. */
  lemma ReplaceEmptyTerm(st: EditorState, repl: string)
    ensures var b := Replace(st, "", repl).buffer;
      && |b| == Slot(|st.buffer|, repl) + |repl|
      && (forall i: nat :: i < |st.buffer| ==>
            && Slot(i, repl) + |repl| < |b|
            && b[Slot(i, repl)..Slot(i, repl) + |repl|] == repl
            && b[Slot(i, repl) + |repl|] == st.buffer[i])
      && b[Slot(|st.buffer|, repl)..] == repl
  {
    ReplaceEmptyInserts(st.buffer, repl);
  }

  // ---------------------------------------------------------------------------
  // The trailing newline, as the code is written

  /**
   * `replace_text` as written: `Text.get("1.0", END)` returns the text with
   * the newline Tk keeps after it, the replacement runs over that too, and
   * the result (newline included) is inserted back, where Tk adds its own.
   */
  function ReplaceAsWritten(st: EditorState, find: string, repl: string): EditorState
  {
    st.(buffer := ReplaceAll(st.buffer + "\n", find, repl), highlights := [])
  }

  /** As written, a Replace whose term does not occur adds a line break at the end of the text instead of leaving it alone. */
  lemma ReplaceAsWrittenAppendsNewline(st: EditorState, find: string, repl: string)
    requires find != [] && forall j :: !OccursAt(st.buffer + "\n", find, j)
    ensures ReplaceAsWritten(st, find, repl).buffer == st.buffer + "\n"
    ensures ReplaceAsWritten(st, find, repl).buffer != st.buffer
  {
    ReplaceAbsent(st.buffer + "\n", find, repl);
  }

  /** A concrete case: replacing "x" by "y" in the text "ab" leaves "ab" followed by a line break. */
  lemma ReplaceAsWrittenExample(st: EditorState)
    requires st.buffer == "ab"
    ensures ReplaceAsWritten(st, "x", "y").buffer == "ab\n"
  {
    ReplaceAsWrittenAppendsNewline(st, "x", "y");
  }

  /** The same with an empty term and an empty replacement, which Python's `replace` leaves unchanged. */
  lemma ReplaceAsWrittenEmpty(st: EditorState)
    ensures ReplaceAsWritten(st, "", "").buffer == st.buffer + "\n"
  {
  }

  /** `save_file` as written: with a path it writes the text together with Tk's trailing newline; without one it runs `save_as_file`. */
  function SaveFileAsWritten(st: EditorState, choice: string): EditorState
  {
    if st.currentFile != "" then st.(files := st.files[st.currentFile := Text(st.buffer + "\n")])
    else SaveAsAsWritten(st, choice)
  }

  /** As written, saving to the associated path and reopening it gives back the text with one more line break. */
  lemma SaveFileAsWrittenThenOpen(st: EditorState, choice: string)
    requires st.currentFile != ""
    ensures OpenFile(SaveFileAsWritten(st, choice), st.currentFile).state.buffer == st.buffer + "\n"
    ensures OpenFile(SaveFileAsWritten(st, choice), st.currentFile).state.buffer != st.buffer
  {
  }

  /** `save_as_file` as written: it writes the text together with Tk's trailing newline. */
  function SaveAsAsWritten(st: EditorState, choice: string): EditorState
  {
    var st1 := st.(currentFile := choice);
    if choice == "" then st1
    else st1.(files := st.files[choice := Text(st.buffer + "\n")], title := TitleFor(choice))
  }

  /** As written, saving and reopening a file gives back its text with one more line break each time. */
  lemma SaveAsAsWrittenThenOpen(st: EditorState, path: string)
    requires path != ""
    ensures OpenFile(SaveAsAsWritten(st, path), path).state.buffer == st.buffer + "\n"
    ensures OpenFile(SaveAsAsWritten(st, path), path).state.buffer != st.buffer
  {
  }
}
