# Prefix-suffix renamer: a Dafny model of its deterministic core

`presuffix.py` is a Windows context-menu tool with two jobs:

- It tags a file's name with a prefix such as `+Book+year+` or a suffix such as `+authors`.
- It lets the user drag a rectangle over the screen, runs Tesseract OCR on the selection, and turns the recognised text into a new name for a file.

Both jobs end in a collision-safe rename. A taken name gets `" (1)"`, `" (2)"`, … inserted before its extension.

This project models the deterministic logic inside that tool. The operating system, Tk and Tesseract are turned into inputs or oracles.

- **Monitor locator** (`monitor.dfy`, module `MonitorLocator`): the first monitor rectangle that holds the pointer. If none does, the whole virtual screen.
- **Selection session** (`selection.dfy`, module `Selection`): a `ScreenCapture` class whose methods record the press and the release, and show and close the overlay. On release it turns the two corners into a crop box. It crops only when both sides exceed 10.
- **Recognition policy** (`ocr.dfy`, module `Recognition`): `perform_ocr` over an engine oracle.
  - The oracle maps each configuration to a returned string or to an exception.
  - It covers the two configuration messages, then PSM modes 6, 7, 8 and 3 in order, stopping at the first non-blank text.
  - If every mode is blank, an unguarded default-configuration call follows, then the tips message.
- **File-name synthesis** (`filename.dfy`, module `FilenameSynth`): `_clean_filename` and `_text_to_filename`.
  - Python's `str.strip`, `split`, `' '.join`, `lower`, `title` and `str(int)` are in `pytext.dfy` (module `PyText`).
- **Collision-safe renaming** (`paths.dfy`, module `Paths`; `renamer.dfy`, module `Renamer`):
  - `os.path.splitext` and the numbered names `"stem (k)ext"`.
  - The counter loop shared by `_get_unique_filepath`, `add_prefix` and `add_suffix`.
  - `_rename_file`, the preview label of `_update_preview`, and `add_prefix`/`add_suffix`.
  - The file system is a finite `set<Path>`. `os.path.exists` is membership, and `os.rename` removes the source and adds the target.
  - The counter loops terminate because `k ↦ "stem (k)ext"` is injective, so a set of n paths holds at most n of these names.
- **Command line** (`cli.dfy`, module `Cli`): `main`'s decision on `sys.argv`.

Four behaviours of the code that the model keeps as written:

- **Title casing.** `str.title()` upper-cases a letter that follows any non-letter, not only one that starts a whitespace-separated word. So `"o'neil 2nd"` becomes `"O'Neil 2Nd"`.
- **No success flag.** The recognition step returns only the text to show; it has no `succeeded` flag. Only the mode attempts are guarded by `try`. An exception from the default-configuration fallback, or from the version probe other than "not found", leaves `perform_ocr` (`Raised`).
- **Tags are inserted verbatim.** `add_prefix` with `+Thesis+2024+` on `notes.txt` gives `+Thesis+2024+notes.txt`, leading `+` included. The counter goes between the prefixed base name and the extension.
- **Release without a press.** A release with no recorded press raises in `min(None, …)` before the overlay is closed. The model records this as the `NoPress` outcome.

## Model

| member | source | states |
|---|---|---|
| `MonitorLocator.Locate` | presuffix.py:51-57 | If some rectangle holds the pointer under the half-open test, the result is the first such rectangle in list order; otherwise it is `(0, 0, vw, vh)` |
| `MonitorLocator.LocateIgnoresLater` | presuffix.py:52-54 | Rectangles listed after one that holds the pointer never change the answer |
| `MonitorLocator.LocateSkipsMisses` | presuffix.py:52-54 | Rectangles that do not hold the pointer can be dropped from the front of the list without changing the answer |
| `Selection.SelectionBox` | presuffix.py:127-130 | The crop box is normalised (`x1 <= x2`, `y1 <= y2`) and its corners are the press and release coordinates |
| `Selection.ReleaseDecision` | presuffix.py:123-138 | No press gives `NoPress`. A crop happens exactly when both \|dx\| and \|dy\| exceed 10. The crop box is exactly the normalised box between the press and the release point, with both sides longer than 10 |
| `Selection.LargeEnough` | presuffix.py:132 | For a normalised box, the size test holds exactly when both sides are longer than 10 |
| `Selection.SelectionSymmetric` | presuffix.py:127-130 | Dragging between the same two corners in either direction selects the same box |
| `Selection.SelectionSpans` | presuffix.py:127-130 | The selected box contains both the press and the release point |
| `Selection.ClickWithoutDragCloses` | presuffix.py:132-138 | A release where the press happened only closes the overlay and never crops |
| `Selection.ScreenCapture.constructor` | presuffix.py:21-30 | A new session has no recorded points, no monitor box and no overlay |
| `Selection.ScreenCapture.CaptureRegion` | presuffix.py:59-76 | Stores the located monitor's box and shows the overlay; recorded points are unchanged |
| `Selection.ScreenCapture.OnClick` | presuffix.py:108-110 | Records the press and nothing else |
| `Selection.ScreenCapture.OnRelease` | presuffix.py:123-138 | Records the release and returns exactly `ReleaseDecision` of the recorded press. The overlay is closed on both the crop and the close path; it stays as it was only when no press was recorded |
| `Selection.ScreenCapture.CloseCapture` | presuffix.py:143-146 | Withdraws the overlay and changes nothing else |
| `Selection.ScreenCapture.CancelCapture` | presuffix.py:140-141 | Escape closes the overlay in any state and records nothing |
| `Recognition.FirstHit` | presuffix.py:177-185 | The index of the first mode whose result is returned text that is not all whitespace; every earlier mode raised or gave blank text |
| `Recognition.Recognize` | presuffix.py:148-198 | The package missing shows the "not installed" text. "Not found" shows the "executable not found" text. Another probe error raises. Whatever is shown is never blank |
| `Recognition.Attempts` | presuffix.py:161-192 | No configuration is tried exactly when the package is missing or the probe failed. The default configuration is tried exactly when no mode gave non-blank text |
| `Recognition.PerformOcr` | presuffix.py:148-201 | The loop with `break` shows exactly `Recognize` and asks the engine for exactly `Attempts`, in order |
| `Recognition.FirstHitIsLeast` | presuffix.py:177-183 | A mode with non-blank text and none before it is the one the loop stops at |
| `Recognition.FirstSuccessWins` | presuffix.py:177-183 | The first non-blank mode result is shown unstripped, and only modes up to it are tried |
| `Recognition.FallbackDecides` | presuffix.py:187-198 | With every mode blank: the fallback runs last; its exception escapes; blank fallback text gives the tips message; other text is shown stripped |
| `Recognition.TipsExactlyWhenNothingRead` | presuffix.py:176-198 | The tips message is shown if and only if no mode and not the fallback read anything (given that the engine never itself returns the tips text) |
| `Recognition.FailedActsAsBlank` | presuffix.py:178-185 | A mode that raises and a mode that returns "" are indistinguishable to the mode loop |
| `Recognition.FailedModesChangeNothing` | presuffix.py:176-192 | Replacing raising modes by blank ones changes neither what is shown nor what is tried |
| `PyText.Strip` | presuffix.py:401 | `strip()` leaves no whitespace at either end and is empty exactly when the input is all whitespace |
| `PyText.StripParts` | presuffix.py:401 | `strip()` only removes whitespace, and only from the two ends |
| `PyText.StripTrimmed` | presuffix.py:401 | A string without whitespace at its ends is its own `strip()` |
| `PyText.Split` | presuffix.py:341 | `split()` yields non-empty words without whitespace, and no words exactly when the input is all whitespace |
| `PyText.SplitOfWord` | presuffix.py:341 | A non-empty string without whitespace splits into itself alone |
| `PyText.SplitAtSpace` | presuffix.py:341 | Any whitespace character separates words: the split of `a + c + b` is the split of `a` followed by that of `b` |
| `PyText.Join` | presuffix.py:341 | `split()` undoes `' '.join` on non-empty words without whitespace |
| `PyText.JoinNormal` | presuffix.py:341 | `' '.join` of such words is normal: no edge whitespace, only single plain spaces |
| `PyText.NormalFixpoint` | presuffix.py:341 | A normal string is unchanged by `' '.join(s.split())` |
| `PyText.NonSpaceSplit` | presuffix.py:341 | The words of `split()`, concatenated, are the input's non-whitespace characters in order |
| `PyText.NonSpaceJoin` | presuffix.py:341 | Joining words with spaces keeps exactly their characters between the spaces |
| `PyText.NormalizeSpec` | presuffix.py:341 | `' '.join(s.split())` is normal, keeps every non-whitespace character in order, is empty exactly for all-whitespace input, is idempotent, and has the same `split()` as the input |
| `PyText.Normalize` | presuffix.py:341 | `' '.join(s.split())` is normal and has the same words as `s` |
| `PyText.SplitIgnoresOuterSpace` | presuffix.py:401-406 | Whitespace around a string does not change its `split()` |
| `PyText.Lower` | presuffix.py:407 | `lower()` keeps the length and leaves no upper-case letter. Each character keeps whether it is a letter and its upper-case form, and non-letters are unchanged |
| `PyText.Title` | presuffix.py:407 | `title()` keeps the length. A character is upper-cased at the start or after a non-letter, and lower-cased after a letter |
| `PyText.CaseFacts` | presuffix.py:407 | Case mapping keeps letters letters and non-letters unchanged, and lower-casing forgets the previous case |
| `PyText.Decimal` | presuffix.py:391 | `str(k)` is a non-empty string of digits, one digit exactly for k < 10 |
| `PyText.DecimalInjective` | presuffix.py:391 | Different counters print differently |
| `FilenameSynth.Kept` | presuffix.py:338-341 | What cleaning keeps has no whitespace and none of `<>:"/\|?*` |
| `FilenameSynth.Cleaned` | presuffix.py:336-341 | The cleaned name is normal and has the same words as the text with every invalid character replaced by a space |
| `FilenameSynth.CleanFilename` | presuffix.py:336-341 | The replace loop followed by the whitespace normalisation computes `Cleaned` |
| `FilenameSynth.CleanedSanitized` | presuffix.py:336-341 | The cleaned name has no invalid character, no edge whitespace and no double spaces, and keeps every other character in order. Its words are those of the replaced text. It is empty exactly when nothing but whitespace and invalid characters came in |
| `FilenameSynth.CleanedFixpoint` | presuffix.py:336-341 | A normal string without invalid characters is already clean |
| `FilenameSynth.CleanedIdempotent` | presuffix.py:336-341 | Cleaning twice equals cleaning once |
| `FilenameSynth.TitleLowerShape` | presuffix.py:407 | `lower().title()` keeps the length and changes only the case of letters |
| `FilenameSynth.TitleLowerIdempotent` | presuffix.py:407 | `lower().title()` applied again changes nothing |
| `FilenameSynth.CleanedOfStrip` | presuffix.py:401-406 | Stripping the text before cleaning it makes no difference |
| `FilenameSynth.TextToFilename` | presuffix.py:395-409 | For every text, including the empty one, the result is `lower().title()` of the cleaned text: the empty-text guard and the leading `strip()` change nothing |
| `FilenameSynth.TitledCleanShape` | presuffix.py:407 | `lower().title()` of a clean string stays clean, differs only in case, and has a letter upper-case exactly at the start or after a non-letter |
| `FilenameSynth.TextToFilenameSpec` | presuffix.py:395-409 | The synthesised name is normal, has no invalid characters, equals the cleaned text up to case, and has a letter upper-case exactly when it starts the name or follows a non-letter |
| `FilenameSynth.TextToFilenameIdempotent` | presuffix.py:395-409 | Synthesising from a synthesised name gives it back |
| `Paths.LastDot` | presuffix.py:389 | The position of the last '.', or -1 if there is none |
| `Paths.SplitExt` | presuffix.py:389 | `splitext` splits the name into two parts that concatenate back to it. A non-empty extension starts with the last '.', has no other dot, and follows a stem that is not all dots; with no extension, every dot has only dots before it |
| `Paths.SplitExtOf` | presuffix.py:586 | A stem followed by a one-dot extension splits back into the two |
| `Paths.Numbered` | presuffix.py:391 | `stem (k)ext` lies in the given directory, starts with the stem, ends with the extension, and is longer than the two by exactly the length of " ()" plus the digits of k |
| `Paths.NumberedInjective` | presuffix.py:391 | Different counters give different numbered names |
| `Paths.OccupiedBound` | presuffix.py:390-392 | A file system of n paths holds at most n of the numbered names 1..k, so k <= n |
| `Paths.FreeCounter` | presuffix.py:388-392 | The least counter from a start point whose numbered name is free, with every smaller one taken |
| `Paths.FreeCounterIsLeast` | presuffix.py:388-392 | A free counter with all smaller ones taken is the one found |
| `Paths.CounterAdvances` | presuffix.py:388-392 | Once the chosen name is taken, the next search settles on a strictly larger counter |
| `Paths.FreeTarget` | presuffix.py:385-393 | The result is never an existing path: the first choice if it is free, else `stem (k)ext` beside it for the least free k >= 1 |
| `Renamer.ProbeCounter` | presuffix.py:388-392 | The `while exists` loop returns exactly `FreeTarget`: the first choice if free, else the least free numbered name |
| `Renamer.UniquePath` | presuffix.py:383-393 | The unique path stays in the same directory and never exists; a free path is returned unchanged; otherwise it is the least free `stem (k)ext` |
| `Renamer.GetUniqueFilepath` | presuffix.py:383-393 | The early return plus the loop compute `UniquePath` |
| `Renamer.RequestedName` | presuffix.py:368-370 | The name ends with the source extension, extends the cleaned name, and is the cleaned name itself when that already ends with the extension; otherwise it is exactly the cleaned name followed by the extension |
| `Renamer.RequestedPath` | presuffix.py:357-374 | A path is requested exactly when the text keeps some character after cleaning. It sits in the source's directory, ends with the source's extension, and its name is the requested name built from the cleaned text |
| `Renamer.RenameTarget` | presuffix.py:357-374 | A rename target exists exactly when the text keeps a character. It never exists already, lies in the source's directory, and is the requested path when that is free. When that is taken, it is `stem (k)ext` of the requested name for the least k >= 1 whose name is free |
| `Renamer.KeptOfStrip` | presuffix.py:357-362 | Stripping the editor text does not change what cleaning keeps |
| `Renamer.RenameFile` | presuffix.py:355-381 | All-whitespace text gives "enter a filename". Text with nothing left after cleaning gives "empty after cleaning". A rename happens exactly when the text keeps a character, the source exists and the rename does not fail. On success only the source is removed and only the target added; every other path leaves the file system unchanged |
| `Renamer.PrefixTarget` | presuffix.py:566-574 | The prefixed target is new, in the same directory, starts with the prefix, keeps the extension, and is `prefix + name` when that is free. Otherwise it is `prefix + base (k)ext` for the least k >= 1 whose name is free |
| `Renamer.SuffixTarget` | presuffix.py:584-592 | The suffixed target is new, in the same directory, starts with `base + suffix`, keeps the extension, and is `base + suffix + ext` when that is free. Otherwise it is `base + suffix (k)ext` for the least k >= 1 whose name is free |
| `Renamer.AddPrefix` | presuffix.py:561-577 | A missing file gives `False` with no change. Otherwise the file moves to `PrefixTarget`: only it is removed and only the target added, and the number of files is unchanged |
| `Renamer.AddSuffix` | presuffix.py:579-595 | As `AddPrefix`, moving the file to `SuffixTarget` |
| `Renamer.Preview` | presuffix.py:303-334 | The label starts with "Preview: " and is bare exactly when the text keeps nothing. When the requested name is free, it names the rename target |
| `Renamer.CorrectedPreview` | presuffix.py:326-331 | The corrected label is built as the original, but from the least free counter and the requested name's own stem and extension. It is bare exactly when the text keeps nothing |
| `Renamer.CorrectedPreviewMatchesRename` | presuffix.py:326-331 | Whenever the rename has a target, the corrected label names exactly that file |
| `Renamer.CorrectedPreviewAgrees` | presuffix.py:326-331 | Where the requested name is free, the corrected label equals the original one |
| `Renamer.NamesWhenTaken` | presuffix.py:326-331 | With the requested name taken, the label shows the requested stem, " (1)" and the source extension, while the rename target is the unique path |
| `Renamer.PreviewCounterMismatch` | presuffix.py:327-329 | With `w.txt` and `w (1).txt` taken, the label shows `w (1).txt` but the rename picks `w (2).txt` |
| `Renamer.PreviewExtensionMismatch` | presuffix.py:318-329 | For a source without an extension and the text `w.txt`, with `w.txt` taken, the label shows `w (1)` but the rename picks `w (1).txt` |
| `Cli.Dispatch` | presuffix.py:643-682 | No argument gives the banner. The lower-cased command selects install, uninstall or ocr (with an optional source). `prefix`/`suffix` act only with more than three arguments and otherwise do nothing. Anything else gives the usage text |
| `Cli.DispatchIgnoresCase` | presuffix.py:647 | Commands that differ only in letter case dispatch identically |

## Left out

- Win32 calls (`GetCursorPos`, `EnumDisplayMonitors`, `GetSystemMetrics`) are left out: the pointer, the monitor list in enumeration order and the virtual-screen size are parameters.
- Screen grabbing with `mss`, PIL images, cropping and thumbnails are left out: only the crop box is modelled, not the pixels.
- The Tk overlay geometry, the canvas, and the rectangle `on_drag` draws are left out.
- The hand-off from a crop to `perform_ocr` is not modelled, because the engine oracle takes no image.
- The result editor is left out: its widgets, undo/redo, the message boxes, and the editor inserts of `_add_prefix`/`_add_suffix`.
- The editor text is a parameter. The trailing newline Tk adds is removed by the `strip()` that the model does include.
- Tesseract itself is an oracle: a function from configuration to returned text or exception. Each configuration is asked at most once per run, so a function is enough.
- Registry install/uninstall, `safe_delete_key`, `check_dependencies`, `start_ocr`, console output and `input()` prompts are left out. `Cli.Dispatch` decides only which action runs.
- `str.lower()` and `str.title()` are modelled for ASCII letters only; other characters pass through unchanged. `str.isspace()` is modelled with Python's full whitespace set.
- Paths are a directory plus a base name compared as exact strings.
  - Windows' case-insensitive names are not modelled.
  - A tag or typed name that contains a path separator is not modelled: the model always keeps the source's directory. Typed names cannot contain one after cleaning.
- Why `os.rename` fails is not modelled: a failure is a boolean input with no change to the file system.
  - In `_rename_file` a missing source also fails.
  - Races between the existence checks and the rename are not modelled.
- The `except Exception` branch of `_update_preview` (presuffix.py:333-334) is not modelled, because nothing in the modelled computation raises.
- Recognition.TipsExactlyWhenNothingRead: the "only if" direction assumes the engine never returns the tips text itself. If it did, that text would be shown as recognised.

## Findings

| source | as written | input that shows it | evidently intended | confidence | as-written member | corrected member |
|---|---|---|---|---|---|---|
| presuffix.py:327-329 | When the requested name exists, the preview always shows `" (1)"`. | `w.txt` and `w (1).txt` both exist and the text is `w.txt`: the preview shows `w (1).txt`, but the rename picks `w (2).txt` | the preview names the file the rename will produce | medium, not executed | `Renamer.PreviewCounterMismatch` | `Renamer.CorrectedPreviewMatchesRename` |
| presuffix.py:318-329 | The preview puts the source's extension after `" (1)"`, while the rename keeps the extension `splitext` finds in the requested name. | source `README` (no extension), text `w.txt`, `w.txt` exists: the preview shows `w (1)`, but the rename picks `w (1).txt` | the preview shows the extension the renamed file will have | high, not executed | `Renamer.PreviewExtensionMismatch` | `Renamer.CorrectedPreviewMatchesRename` |

In both rows:

- `Renamer.Preview` is the label as written.
- `Renamer.CorrectedPreview` is the label with the counter search and the extension `splitext` finds in the requested name.
- `Renamer.CorrectedPreviewAgrees` shows that the two labels agree wherever the requested name is free.
