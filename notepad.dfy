/**
 * The `Notepad` object itself: its fields, and one method per command that
 * updates them in place the way the command's code does.  Each method is
 * proved to leave the state that the matching function of module Editor
 * describes, and to keep the session invariant `Editor.Inv`.
 */
module Notepad {
  import Strings
  import Editor

  /**
   * The loop of `find_text`: search forward from the start of the text, tag
   * each hit `(i, i + |term|)`, resume the search just past it, and stop when
   * the search fails.  The spans come out in the order they were tagged.
   */
  method ScanForHighlights(text: string, term: string) returns (tagged: seq<(int, int)>)
    requires term != []
    ensures tagged == Strings.FindSpans(text, term)
  {
    tagged := [];
    var start: nat := 0;
    while true
      invariant start <= |text|
      invariant tagged + Strings.SpansFrom(text, term, start) == Strings.SpansFrom(text, term, 0)
      decreases |text| - start
    {
      var hit := Strings.Search(text, term, start);
      if hit.None? {
        Strings.ScanEnd(text, term, start, tagged);
        break;
      }
      var i := hit.value;
      Strings.ScanStep(text, term, start, i, tagged);
      tagged := tagged + [(i, i + |term|)];
      start := i + |term|;
    }
  }

  class Session {
    var buffer: string
    var currentFile: string
    var title: string
    var fontSize: int
    var isDarkMode: bool
    var textBg: string
    var textFg: string
    var rootBg: string
    var highlights: seq<(int, int)>
    var findWindowSet: bool
    var files: Editor.FileSystem

    /** The fields, read as one value. */
    function State(): Editor.EditorState
      reads this
    {
      Editor.EditorState(buffer, currentFile, title, fontSize, isDarkMode, textBg, textFg, rootBg,
                         highlights, findWindowSet, files)
    }

    ghost predicate Valid()
      reads this
    {
      Editor.Inv(State())
    }

    /** A new notepad over the given files, with the colours the platform gives a new widget. */
    constructor (files0: Editor.FileSystem, textBg0: string, textFg0: string, rootBg0: string)
      ensures Valid()
      ensures State() == Editor.Initial(files0, textBg0, textFg0, rootBg0)
    {
      buffer := "";
      currentFile := "";
      title := Editor.AppTitle;
      fontSize := Editor.InitialFontSize;
      isDarkMode := false;
      textBg, textFg, rootBg := textBg0, textFg0, rootBg0;
      highlights := [];
      findWindowSet := false;
      files := files0;
      new;
      assert State() == Editor.Initial(files0, textBg0, textFg0, rootBg0);
    }

    method NewFile()
      requires Valid()
      modifies this
      ensures Valid()
      ensures State() == Editor.NewFile(old(State()))
    {
      ghost var before := State();
      currentFile := "";
      buffer := "";
      highlights := [];
      title := Editor.AppTitle + " - New File";
      Editor.StepKeepsInv(before, Editor.New);
    }

    /** Open, with the path the dialog returned ("" when cancelled); reports a read that fails. */
    method OpenFile(choice: string) returns (notice: Editor.Notice)
      requires Valid()
      modifies this
      ensures Valid()
      ensures Editor.Reported(State(), notice) == Editor.OpenFile(old(State()), choice)
    {
      ghost var before := State();
      currentFile := choice;
      notice := Editor.Quiet;
      if currentFile != "" {
        buffer := "";
        highlights := [];
        if choice in files && files[choice].Text? {
          buffer := files[choice].chars;
          title := Editor.TitleFor(choice);
        } else {
          notice := Editor.ReadFailed;
        }
      }
      Editor.StepKeepsInv(before, Editor.Open(choice));
    }

    /** Save, falling back to Save As (whose dialog answers `choice`) when no path is associated. */
    method SaveFile(choice: string)
      requires Valid()
      modifies this
      ensures Valid()
      ensures State() == Editor.SaveFile(old(State()), choice)
    {
      if currentFile != "" {
        ghost var before := State();
        files := files[currentFile := Editor.Text(buffer)];
        Editor.StepKeepsInv(before, Editor.Save(choice));
      } else {
        SaveAsFile(choice);
      }
    }

    method SaveAsFile(choice: string)
      requires Valid()
      modifies this
      ensures Valid()
      ensures State() == Editor.SaveAsFile(old(State()), choice)
    {
      ghost var before := State();
      currentFile := choice;
      if currentFile != "" {
        files := files[currentFile := Editor.Text(buffer)];
        title := Editor.TitleFor(currentFile);
      }
      Editor.StepKeepsInv(before, Editor.SaveAs(choice));
    }

    /** Print, with the destination the dialog returned; reports the error when no path is associated. */
    method PrintFile(choice: string) returns (notice: Editor.Notice)
      requires Valid()
      modifies this
      ensures Valid()
      ensures Editor.Reported(State(), notice) == Editor.PrintFile(old(State()), choice)
    {
      ghost var before := State();
      if currentFile != "" {
        notice := Editor.Quiet;
        if choice != "" {
          files := files[choice := Editor.Pdf(buffer)];
          notice := Editor.PdfCreated;
        }
      } else {
        notice := Editor.SaveBeforePrinting;
      }
      Editor.StepKeepsInv(before, Editor.Print(choice));
    }

    method ToggleDarkMode()
      requires Valid()
      modifies this
      ensures Valid()
      ensures State() == Editor.ToggleDarkMode(old(State()))
    {
      ghost var before := State();
      if isDarkMode {
        textBg, textFg := Editor.White, Editor.Black;
        rootBg := Editor.White;
      } else {
        textBg, textFg := Editor.Black, Editor.White;
        rootBg := Editor.Black;
      }
      isDarkMode := !isDarkMode;
      Editor.StepKeepsInv(before, Editor.ToggleDark);
    }

    method IncreaseFontSize()
      requires Valid()
      modifies this
      ensures Valid()
      ensures State() == Editor.IncreaseFontSize(old(State()))
    {
      ghost var before := State();
      fontSize := fontSize + Editor.FontStep;
      Editor.StepKeepsInv(before, Editor.FontUp);
    }

    method DecreaseFontSize()
      requires Valid()
      modifies this
      ensures Valid()
      ensures State() == Editor.DecreaseFontSize(old(State()))
    {
      ghost var before := State();
      if fontSize > 2 {
        fontSize := fontSize - Editor.FontStep;
      }
      Editor.StepKeepsInv(before, Editor.FontDown);
    }

    method ShowFindReplaceDialog()
      requires Valid()
      modifies this
      ensures Valid()
      ensures State() == Editor.ShowFindReplaceDialog(old(State()))
    {
      ghost var before := State();
      if !findWindowSet {
        findWindowSet := true;
      }
      Editor.StepKeepsInv(before, Editor.ShowDialog);
    }

    method CloseFindReplaceDialog()
      requires Valid()
      modifies this
      ensures Valid()
      ensures State() == Editor.CloseFindReplaceDialog(old(State()))
    {
      ghost var before := State();
      if findWindowSet {
        findWindowSet := false;
      }
      Editor.StepKeepsInv(before, Editor.CloseDialog);
    }

    /**
     * Find: remove every highlight, then, for a non-empty term, search
     * forward from the start, tag each hit and resume just past it, until
     * the search fails.
     */
    method FindText(term: string)
      requires Valid()
      modifies this
      ensures Valid()
      ensures State() == Editor.Find(old(State()), term)
    {
      ghost var before := State();
      highlights := [];
      if term != [] {
        highlights := ScanForHighlights(buffer, term);
      }
      Editor.StepKeepsInv(before, Editor.FindTerm(term));
    }

    /** Replace: the text becomes `text.replace(find, repl)`, written back over the whole widget. */
    method ReplaceText(find: string, repl: string)
      requires Valid()
      modifies this
      ensures Valid()
      ensures State() == Editor.Replace(old(State()), find, repl)
    {
      ghost var before := State();
      var newContent := Strings.ReplaceAll(buffer, find, repl);
      buffer := "";
      highlights := [];
      buffer := newContent;
      Editor.StepKeepsInv(before, Editor.ReplaceTerm(find, repl));
    }
  }
}
