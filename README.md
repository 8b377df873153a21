# Notepad session model

A Dafny model of the `Notepad` class of a small Tkinter text editor
(`01.1_notepad.py`). The model covers the state that class keeps and the
commands that change it:

- the text of the editing area;
- the associated file path (`""` when there is none) and the window title;
- the font size;
- the dark-mode flag and the three colours it sets;
- the ranges tagged "highlight" by Find;
- whether a Find and Replace window is held (`find_replace_window` is set);
- the files on disk.

The model has three modules:

- **Strings** (`strings.dfy`) holds the two string operations the editor runs
  on its text. The first is Tk's `Text.search` in its default mode: exact,
  case-sensitive, forwards, stopping at the end. The model is the least offset
  at or after the start where the pattern occurs. The second is Python's
  `str.replace`: every leftmost non-overlapping occurrence is replaced, and an
  empty pattern inserts the replacement around every character. This module
  also gives the spans the Find loop tags, `SpansFrom` and `FindSpans`. It
  characterises them declaratively (`Greedy`) and proves that Replace
  substitutes exactly the spans Find highlights.
- **Editor** (`editor.dfy`) is the session as a state machine over values.
  There is one function per command, and the answers of the file dialogs are
  arguments. It states the session invariant, proves it for every sequence of
  commands, and proves the properties of each command. These include the Find
  and Replace guarantees, the font-size steps, the dark-mode toggle, the path
  lifecycle, Save/Open round trips and the Print guard.
- **Notepad** (`notepad.dfy`) is the object itself: a class `Session` with
  the fields of `Notepad`. Each command is a method that updates those fields
  in place, as the Python method does. Each method is proved to produce the
  state the Editor function describes, and to keep the invariant. The Find
  loop (`while True`: search, tag, resume past the hit) is the method
  `ScanForHighlights`. It is proved against `FindSpans` with a loop invariant.

Offsets into the text are plain integers, not Tk's `"line.col"` indices. In
the main model, the text does not include the extra newline that
`Text.get("1.0", END)` returns. What the code does with that newline is shown
under "Findings".

The code and the project's design description disagree in four places. The
model follows the code:

- **Replace with an empty find term.** The description calls it a no-op. The
  code calls `str.replace("", r)`, which inserts `r` before every character
  and at the end (`Editor.ReplaceEmptyTerm`).
- **The font-size floor.** The description says decrementing never goes below
  2 "from any starting value". The code only guards `> 2`, so a size of 3
  would go to 1. The floor holds because the size starts at 12 and moves in
  steps of 2, which keeps it even (`Editor.FontFloor`,
  `Editor.ReachableStates`).
- **Print.** The description requires a prior successful save. The code only
  checks that a path is associated. That also holds after a successful Open,
  and after an Open whose read failed, because the path is stored before the
  read (`Editor.OpenChosen`, `Editor.PrintGuard`).
- **Dark mode twice.** The description says two toggles restore the original
  colours. The code paints fixed colours: leaving dark mode always sets
  white/black/white. So two toggles restore the colours only when they already
  match the flag (`Editor.ToggleTwice`). From the colours the platform gives a
  new widget (a grey window background on X11, say), or after the colour
  chooser has set a font colour, two toggles end in white/black/white instead
  (`Editor.ToggleFromStart`, `Editor.ToggleTwiceLosesOtherColours`).

## Model

| member | source | states |
|---|---|---|
| `Strings.SpansFrom` | 01.1_notepad.py:114-121 | The spans the Find loop tags from an offset. Each begins at or after the end of the one before, the first at or after the offset, and all end within the text. Specified by `ScanStep`, `ScanEnd` and `SpansFromGreedy`. |
| `Strings.FindSpans` | 01.1_notepad.py:112-121 | Find's spans: none for an empty term, otherwise the scan from offset 0. They lie left to right inside the text without overlap. Specified by `FindSpansCharacterized`, `FindSpansExact` and `FindSpansComplete`. |
| `Strings.Interleave` | 01.1_notepad.py:128 | `text.replace("", r)`. An empty `r` gives back the text. Specified by `ReplaceEmptyInserts`. |
| `Strings.ReplaceAll` | 01.1_notepad.py:128 | `text.replace(f, r)`. Replacing a term by itself gives back the text. Specified by `ReplaceAbsent`, `ReplaceFirst`, `ReplaceIsSpliceOfFindSpans` and `ReplaceEmptyInserts`. |
| `Strings.Search` | 01.1_notepad.py:116 | A hit is an occurrence at or after the start, and no occurrence lies between the start and the hit. No hit means no occurrence at or after the start. |
| `Strings.SearchFinds` | 01.1_notepad.py:116 | Any offset that is an occurrence, with none between the start and it, is exactly what the search returns. |
| `Strings.SearchFails` | 01.1_notepad.py:116-118 | With no occurrence at or after the start, the search returns nothing, which ends the loop. |
| `Strings.ScanStep` | 01.1_notepad.py:115-121 | Tagging the hit `(i, i+len)` and resuming at its end keeps "tagged so far + rest of the scan = whole scan". |
| `Strings.ScanEnd` | 01.1_notepad.py:116-118 | When the search fails, the spans tagged so far are all of Find's spans. |
| `Notepad.ScanForHighlights` | 01.1_notepad.py:114-121 | The `while True` search/tag/resume loop returns exactly `FindSpans(text, term)`. |
| `Strings.SpansFromGreedy` | 01.1_notepad.py:114-121 | Each scanned span is the first occurrence at or after the end of the previous one, and nothing occurs after the last. |
| `Strings.GreedyUnique` | 01.1_notepad.py:114-121 | Only the scan's result satisfies that description. |
| `Strings.FindSpansCharacterized` | 01.1_notepad.py:113-121 | For a non-empty term, a span list is Find's result if and only if it is greedy from offset 0. For an empty term there are no spans. |
| `Strings.GreedyAt` | 01.1_notepad.py:114-121 | The k-th span of a greedy list is an occurrence, starts at or after the end of the span before it, and has no occurrence in the gap before it. |
| `Strings.GreedyEnd` | 01.1_notepad.py:116-118 | Nothing occurs after the last span of a greedy list. |
| `Strings.FindSpansExact` | 01.1_notepad.py:114-121 | Every highlight `(a, b)` satisfies `0 <= a < b <= len`, and `text[a:b]` equals the term. Each highlight starts at or after the end of the one before. |
| `Strings.FindSpansComplete` | 01.1_notepad.py:114-121 | No occurrence of the term is left untagged: none before the first highlight, between two highlights, or after the last. |
| `Strings.OccursAtSlice` | 01.1_notepad.py:116 | A character-by-character match at `i` is the same as `text[i:i+len] == term`. |
| `Strings.ReplaceAbsent` | 01.1_notepad.py:128 | A non-empty find term that does not occur leaves the text unchanged. |
| `Strings.ReplaceFirst` | 01.1_notepad.py:128 | The text before the first occurrence is kept, that occurrence becomes the replacement, and replacing resumes right after it. |
| `Strings.ReplaceFromIsSplice` | 01.1_notepad.py:128 | Replacing from any offset substitutes the replacement for exactly the spans the Find scan tags from that offset. |
| `Strings.ReplaceIsSpliceOfFindSpans` | 01.1_notepad.py:110-130 | For a non-empty term, `text.replace(f, r)` equals the text with each span Find would highlight replaced by `r`, and the text between spans kept. |
| `Strings.ReplaceEmptyInserts` | 01.1_notepad.py:128 | `text.replace("", r)` has a copy of `r` before every character and one at the end. The characters keep their order, and the length is the slot after the last character plus `len(r)`. |
| `Strings.SlotIsMultiple` | 01.1_notepad.py:128 | In `text.replace("", r)`, the i-th copy of `r` starts at position `i*(len(r)+1)`. |
| `Strings.ReplaceExample` | 01.1_notepad.py:128 | `"ab ab ab".replace("ab", "x") == "x x x"`. |
| `Editor.Initial` | 01.1_notepad.py:16-33 | A fresh notepad (empty text, no path, size 12, light mode, no highlights) satisfies the session invariant. |
| `Editor.NewFile` | 01.1_notepad.py:132-135 | New. Specified by `NewThenSave` and `StepKeepsInv`. |
| `Editor.OpenFile` | 01.1_notepad.py:137-143 | Open with the dialog's answer. Specified by `CancelledDialogs`, `OpenChosen`, `SaveAsThenOpen` and `SaveThenOpen`. |
| `Editor.SaveFile` | 01.1_notepad.py:145-150 | Save. Specified by `NewThenSave`, `SaveWithPath` and `SaveThenOpen`. |
| `Editor.SaveAsFile` | 01.1_notepad.py:152-157 | Save As with the dialog's answer. Specified by `CancelledDialogs` and `SaveAsThenOpen`. |
| `Editor.PrintFile` | 01.1_notepad.py:159-169 | Print with the destination dialog's answer. Specified by `PrintGuard`. |
| `Editor.ToggleDarkMode` | 01.1_notepad.py:175-182 | Toggle Dark Mode. Specified by `ToggleColoursMatchFlag`, `ToggleTwice`, `ToggleFromStart` and `ToggleTwiceLosesOtherColours`. |
| `Editor.IncreaseFontSize` | 01.1_notepad.py:197-199 | A+. Specified by `FontSteps`, `FontRoundTrips` and `FontFloor`. |
| `Editor.DecreaseFontSize` | 01.1_notepad.py:201-204 | A-. Specified by `FontSteps`, `FontRoundTrips` and `FontFloor`. |
| `Editor.ShowFindReplaceDialog` | 01.1_notepad.py:83-103 | Creates the Find and Replace window only when no window is held (`find_replace_window` is None); otherwise changes nothing. Specified by `StepKeepsInv` and the `Notepad.Session` method of the same name. |
| `Editor.CloseFindReplaceDialog` | 01.1_notepad.py:105-108 | Destroys the held window and drops the reference, if one is held. Specified by `StepKeepsInv` and the `Notepad.Session` method of the same name. |
| `Editor.Find` | 01.1_notepad.py:110-122 | Find. Specified by `FindHighlights` and `FindIdempotent`. |
| `Editor.Replace` | 01.1_notepad.py:124-130 | Replace on the text without the trailing newline. Specified by `ReplaceMatchesFind`, `ReplaceKeepsText` and `ReplaceEmptyTerm`. |
| `Editor.ReplaceAsWritten` | 01.1_notepad.py:124-130 | Replace as written, over the text plus Tk's trailing newline. Specified by `ReplaceAsWrittenAppendsNewline`, `ReplaceAsWrittenExample` and `ReplaceAsWrittenEmpty`. |
| `Editor.SaveFileAsWritten` | 01.1_notepad.py:145-150 | Save as written, writing the text plus Tk's trailing newline. Specified by `SaveFileAsWrittenThenOpen`. |
| `Editor.SaveAsAsWritten` | 01.1_notepad.py:152-157 | Save As as written, writing the text plus Tk's trailing newline. Specified by `SaveAsAsWrittenThenOpen`. |
| `Editor.StepKeepsInv` | 01.1_notepad.py:110-204 | Every command keeps the invariant: the font size is even and at least 2, and the highlights are those of some Find on the current text. |
| `Editor.RunKeepsInv` | 01.1_notepad.py:110-204 | Any sequence of commands keeps the invariant. |
| `Editor.ReachableStates` | 01.1_notepad.py:24-204 | In every reachable state the font size is even and at least 2. Every highlight is a non-empty range of the text holding the same string, and the highlights do not overlap. |
| `Editor.FontSteps` | 01.1_notepad.py:197-204 | A+ adds exactly 2. A- subtracts exactly 2 from a size above 2 and leaves any other size unchanged. Neither changes anything but the size. |
| `Editor.FontRoundTrips` | 01.1_notepad.py:197-204 | A- undoes A+ from any positive size. A+ undoes A- from any size above 2. |
| `Editor.FontFloor` | 01.1_notepad.py:201-204 | From an even size of at least 2, both buttons keep it even and at least 2. From 3, A- would reach 1. |
| `Editor.ToggleColoursMatchFlag` | 01.1_notepad.py:175-182 | A toggle flips the flag. Afterwards the colours are black/white/black if and only if the flag is set, and white/black/white if and only if it is not. |
| `Editor.ToggleTwice` | 01.1_notepad.py:175-182 | From colours that match the flag, two toggles restore the flag, all three colours and the rest of the state. |
| `Editor.ToggleFromStart` | 01.1_notepad.py:175-182 | From the startup colours, whatever they are, two toggles give light mode in white/black/white. |
| `Editor.ToggleTwiceLosesOtherColours` | 01.1_notepad.py:175-182 | In light mode with colours other than white/black/white, two toggles do not restore the state: they end in white/black/white. |
| `Editor.NewThenSave` | 01.1_notepad.py:132-150 | After New there is no path and no text, so Save takes the Save As branch. |
| `Editor.CancelledDialogs` | 01.1_notepad.py:137-157 | A cancelled Open or Save As clears the path and keeps the text, highlights, title and files. |
| `Editor.OpenChosen` | 01.1_notepad.py:137-143 | Opening a chosen path either loads the text stored there with the new title, or fails with an empty text and the old title. In both cases the path is stored, highlights are gone and files are unchanged. |
| `Editor.SaveWithPath` | 01.1_notepad.py:145-148 | With a path, Save writes the text there and changes nothing else. |
| `Editor.SaveAsThenOpen` | 01.1_notepad.py:137-157 | Save As to a path, then Open of it, gives back the same text, path and title. |
| `Editor.SaveThenOpen` | 01.1_notepad.py:137-148 | Save to the associated path, then Open of it, gives back the same text. |
| `Editor.PrintGuard` | 01.1_notepad.py:159-169 | Without a path, Print writes nothing and reports the error. With a path and a destination, it writes a PDF of the text there and no other file. With a path but no destination, nothing changes. Print never changes the text, path or title. |
| `Editor.FindHighlights` | 01.1_notepad.py:110-121 | Find discards the old highlights and changes nothing else. An empty term gives no highlights. Otherwise highlights are exact, increasing, non-overlapping occurrences, with no untagged occurrence before, between or after them. |
| `Editor.FindIdempotent` | 01.1_notepad.py:110-121 | Finding the same term twice gives the same highlights as once, with no accumulation. |
| `Editor.ReplaceMatchesFind` | 01.1_notepad.py:110-130 | For a non-empty term, Replace substitutes the replacement for exactly the spans a Find for the term highlights. |
| `Editor.ReplaceKeepsText` | 01.1_notepad.py:124-130 | An absent non-empty term, or an empty term with an empty replacement, leaves the text unchanged. |
| `Editor.ReplaceEmptyTerm` | 01.1_notepad.py:124-130 | An empty term is not a no-op: the replacement is inserted before every character and at the end. |
| `Editor.ReplaceAsWrittenAppendsNewline` | 01.1_notepad.py:124-130 | As written, Replace with a term that does not occur turns the text into the text plus `"\n"`. |
| `Editor.ReplaceAsWrittenExample` | 01.1_notepad.py:124-130 | As written, replacing "x" by "y" in "ab" leaves "ab\n". |
| `Editor.ReplaceAsWrittenEmpty` | 01.1_notepad.py:124-130 | As written, replacing "" by "" appends `"\n"` to the text. |
| `Editor.SaveFileAsWrittenThenOpen` | 01.1_notepad.py:137-150 | As written, Save to the associated path then Open of it gives back the text plus `"\n"`, never the text itself. |
| `Editor.SaveAsAsWrittenThenOpen` | 01.1_notepad.py:137-157 | As written, Save As then Open gives back the text plus `"\n"`, never the text itself. |
| `Notepad.Session.constructor` | 01.1_notepad.py:16-33 | A new session: empty text, no path, title "Notepad", size 12, light mode, no highlights, no Find and Replace window held. The invariant holds. |
| `Notepad.Session.NewFile` | 01.1_notepad.py:132-135 | Performs `Editor.NewFile` in place and keeps the invariant. |
| `Notepad.Session.OpenFile` | 01.1_notepad.py:137-143 | Performs `Editor.OpenFile` in place, returns its notice (a read that fails) and keeps the invariant. |
| `Notepad.Session.SaveFile` | 01.1_notepad.py:145-150 | Performs `Editor.SaveFile` in place (Save As when there is no path) and keeps the invariant. |
| `Notepad.Session.SaveAsFile` | 01.1_notepad.py:152-157 | Performs `Editor.SaveAsFile` in place and keeps the invariant. |
| `Notepad.Session.PrintFile` | 01.1_notepad.py:159-169 | Performs `Editor.PrintFile` in place, returns its message (error, success, or none) and keeps the invariant. |
| `Notepad.Session.ToggleDarkMode` | 01.1_notepad.py:175-182 | Performs `Editor.ToggleDarkMode` in place and keeps the invariant. |
| `Notepad.Session.IncreaseFontSize` | 01.1_notepad.py:197-199 | Performs `Editor.IncreaseFontSize` in place and keeps the invariant. |
| `Notepad.Session.DecreaseFontSize` | 01.1_notepad.py:201-204 | Performs `Editor.DecreaseFontSize` in place and keeps the invariant. |
| `Notepad.Session.ShowFindReplaceDialog` | 01.1_notepad.py:83-103 | Sets the window reference when none is held, changes nothing else, and keeps the invariant. |
| `Notepad.Session.CloseFindReplaceDialog` | 01.1_notepad.py:105-108 | Drops the window reference when one is held, changes nothing else, and keeps the invariant. |
| `Notepad.Session.FindText` | 01.1_notepad.py:110-122 | Clears the highlights and, for a non-empty term, sets them to the scan's spans, so the new state is `Editor.Find`. Keeps the invariant. |
| `Notepad.Session.ReplaceText` | 01.1_notepad.py:124-130 | Rewrites the text to `text.replace(find, repl)`, dropping every highlight, so the new state is `Editor.Replace`. Keeps the invariant. |

## Left out

- Widgets, menus, the toolbar and the window geometry (lines 16-22 and 35-103) are user interface only. The Find and Replace window is modelled as a flag: whether `find_replace_window` holds a window. The two entry fields are the arguments of Find and Replace.
- Tk's `"line.col"` indices and `+Nc` offsets are modelled as integer offsets into the text.
- Tk merges adjacent ranges of one tag. `highlights` keeps the ranges in the order they were tagged, so two adjacent hits are two entries.
- Find searches only the user's text. Tk also keeps a newline after the text, and a term ending in a line break may match across it; such matches are not modelled.
- The extra newline of `Text.get("1.0", END)` is left out of the main model; see "Findings". PDF export also receives it, but a PDF's content is not modelled.
- Real file I/O and the file dialogs are modelled as a map from path to content, and the dialogs' answers as arguments.
- A read that fails is modelled as a `ReadFailed` notice. In the source it is an exception that ends the command. A file fails to read when it is missing or holds a PDF export; reading a PDF as text depends on the platform encoding, and the model counts it as a failure.
- Text-mode newline translation and write failures (permissions, directories, encoding errors) are not modelled: Save, Save As and Print always succeed. In the code, `open(path, "w")` truncates the file before writing, so a failed Save or Save As leaves an empty file, and Save As has already stored the path by then. Print's `open(pdf_file, "wb")` and reportlab's `c.save()` (lines 163-166) can fail the same way.
- PDF rendering by reportlab (lines 163-166) is not modelled. The model keeps only the path guard, the destination, and "a PDF of the text is written there".
- The clipboard copy and paste commands (lines 184-195) are thin wrappers over the platform clipboard.
- The colour chooser (lines 206-209) depends on the platform's chooser. The colours a new widget gets from the platform are constructor arguments.
- The exit confirmation (lines 171-173) and the main loop (lines 211-214) are event plumbing.
- The font family "Arial" (line 25) is passed unchanged with every size change (lines 199 and 204). No command changes it, so it is not part of the state.
- Typing and editing directly in the text area are not modelled, nor is the undo/redo history that `undo=True` turns on (line 21). New, Open and Replace push their delete and insert onto that history; the model keeps no history. Tk gives a typed character every tag that both of its neighbours carry, so typing inside a highlighted hit stretches that range and deleting shrinks it. `Editor.Inv` and `Editor.ReachableStates` therefore hold for sessions made of the modelled commands only.
- Find and Replace are only reachable through the window's buttons. The model does not require a window to be held, since the code itself does not check.
- Closing the Find and Replace window with the window manager (the title-bar button) is not modelled. Tk then destroys the window but `find_replace_window` keeps its reference, which only the Close button (lines 105-108) resets. After such a close, Edit > Find and Replace (line 84) no longer opens a window for the rest of the session.

## Findings

| source | as written | input that shows it | evidently intended | confidence | as-written member | corrected member |
|---|---|---|---|---|---|---|
| 01.1_notepad.py:127-130 | `content = text.get("1.0", END)` includes the widget's trailing newline. That newline goes through `replace` and is inserted back, where Tk adds its own, so the text gains a line break. | Text "ab", find "x", replace "y": the text becomes "ab\n". Find "", replace "": the same. | Replace leaves a text with no occurrence unchanged, as `str.replace` does. | high, not executed | `Editor.ReplaceAsWrittenAppendsNewline` | `Editor.ReplaceKeepsText` |
| 01.1_notepad.py:145-148 | Save writes `text.get(1.0, END)`, the text plus the widget's trailing newline, to the associated path. Open inserts the file as read. | Text "ab" under path "a.txt", Save, Open "a.txt": the text becomes "ab\n". Each save/open cycle adds a line. | Reopening a saved file gives back the same text. | high, not executed | `Editor.SaveFileAsWrittenThenOpen` | `Editor.SaveThenOpen` |
| 01.1_notepad.py:152-157 | Save As writes `text.get(1.0, END)`, the text plus the widget's trailing newline. | Text "ab", Save As "a.txt", Open "a.txt": the text becomes "ab\n". | Reopening a saved file gives back the same text. | high, not executed | `Editor.SaveAsAsWrittenThenOpen` | `Editor.SaveAsThenOpen` |
