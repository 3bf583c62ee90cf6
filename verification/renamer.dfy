/** Collision-safe renaming: `_get_unique_filepath`, `_rename_file` and
    `_update_preview` of the OCR window (presuffix.py:303-393), and
    `add_prefix` / `add_suffix` of the context-menu handler
    (presuffix.py:561-595). The file system is a finite set of paths that
    a rename changes by removing the source and adding the target; whether
    `os.rename` fails is an input. */
module Renamer {
  import opened Common
  import opened PyText
  import opened FilenameSynth
  import opened Paths

  /** The `while os.path.exists(...)` loop shared by `_get_unique_filepath`,
      `add_prefix` and `add_suffix`: keep `first` when it is free, otherwise
      try `"stem (1)ext"`, `"stem (2)ext"`, ... until one is free. */
  method ProbeCounter(fs: set<Path>, first: Path, dir: string, stem: string, ext: string) returns (target: Path)
    ensures target == FreeTarget(fs, first, dir, stem, ext)
  {
    var counter := 1;
    target := first;
    while target in fs
      invariant 1 <= counter
      invariant counter == 1 ==> target == first
      invariant counter > 1 ==> first in fs && target == Numbered(dir, stem, ext, counter - 1)
      invariant forall j :: 1 <= j < counter - 1 ==> Numbered(dir, stem, ext, j) in fs
      decreases |fs| + 1 - counter
    {
      OccupiedBound(fs, dir, stem, ext, counter - 1);
      target := Numbered(dir, stem, ext, counter);
      counter := counter + 1;
    }
    if counter > 1 {
      FreeCounterIsLeast(fs, dir, stem, ext, counter - 1);
    }
  }

  /** What `_get_unique_filepath` returns: the path itself when it is free,
      otherwise `"stem (k)ext"` beside it for the least free k >= 1. */
  function UniquePath(fs: set<Path>, p: Path): (q: Path)
    ensures q !in fs && q.dir == p.dir
    ensures p !in fs ==> q == p
    ensures p in fs ==> exists k :: 1 <= k && q == Numbered(p.dir, SplitExt(p.name).0, SplitExt(p.name).1, k) &&
                                    forall j :: 1 <= j < k ==> Numbered(p.dir, SplitExt(p.name).0, SplitExt(p.name).1, j) in fs
  {
    FreeTarget(fs, p, p.dir, SplitExt(p.name).0, SplitExt(p.name).1)
  }

  /** `_get_unique_filepath`. */
  method GetUniqueFilepath(fs: set<Path>, filepath: Path) returns (r: Path)
    ensures r == UniquePath(fs, filepath)
  {
    if filepath !in fs {
      return filepath;
    }
    var (stem, ext) := SplitExt(filepath.name);
    r := ProbeCounter(fs, filepath, filepath.dir, stem, ext);
  }

  // ---------------------------------------------------------------------
  // Renaming from the OCR window

  /** The cleaned name with the source's extension appended unless it
      already ends with it. */
  function RequestedName(cleaned: string, ext: string): (n: string)
    ensures EndsWith(n, ext) && cleaned <= n && |n| <= |cleaned| + |ext|
    ensures EndsWith(cleaned, ext) ==> n == cleaned
    ensures !EndsWith(cleaned, ext) ==> |n| == |cleaned| + |ext|
  {
    if EndsWith(cleaned, ext) then cleaned else cleaned + ext
  }

  /** The path `_rename_file` asks for before resolving collisions, or
      `None` when the text is rejected. */
  function RequestedPath(editorText: string, source: Path): (r: Option<Path>)
    ensures r.Some? <==> Kept(editorText) != []
    ensures r.Some? ==> r.value.dir == source.dir && EndsWith(r.value.name, SplitExt(source.name).1)
    ensures r.Some? ==> r.value.name == RequestedName(Cleaned(editorText), SplitExt(source.name).1)
  {
    KeptOfStrip(editorText);
    CleanedOfStrip(editorText);
    CleanedSanitized(Strip(editorText));
    var newName := Strip(editorText);
    if newName == "" then None
    else
      var cleaned := Cleaned(newName);
      if cleaned == "" then None
      else Some(Path(source.dir, RequestedName(cleaned, SplitExt(source.name).1)))
  }

  /** The path `_rename_file` renames the source to, or `None` when the
      text is rejected. */
  function RenameTarget(editorText: string, source: Path, fs: set<Path>): (r: Option<Path>)
    ensures r.Some? <==> Kept(editorText) != []
    ensures r.Some? ==> r.value !in fs && r.value.dir == source.dir
    ensures r.Some? && RequestedPath(editorText, source).value !in fs ==> r == RequestedPath(editorText, source)
    ensures r.Some? && RequestedPath(editorText, source).value in fs ==>
      var p := RequestedPath(editorText, source).value;
      var (stem, ext) := SplitExt(p.name);
      exists k :: 1 <= k && r.value == Numbered(source.dir, stem, ext, k) &&
                  forall j :: 1 <= j < k ==> Numbered(source.dir, stem, ext, j) in fs
  {
    match RequestedPath(editorText, source)
    case None => None
    case Some(p) => Some(UniquePath(fs, p))
  }

  /** The message boxes `_rename_file` can end with. */
  datatype RenameOutcome =
    | NoName              // "Please enter a filename in the text box."
    | EmptyAfterCleaning  // "Filename cannot be empty after cleaning."
    | Renamed(target: Path)
    | RenameFailed        // "Failed to rename file: ..."

  lemma {:induction false} KeptAppend(a: string, b: string)
    ensures Kept(a + b) == Kept(a) + Kept(b)
    decreases |a|
  {
    if a == [] {
      assert a + b == b;
    } else {
      assert (a + b)[0] == a[0] && (a + b)[1..] == a[1..] + b;
      KeptAppend(a[1..], b);
    }
  }

  lemma {:induction false} KeptOfSpaces(a: string)
    requires AllSpace(a)
    ensures Kept(a) == []
    decreases |a|
  {
    if a != [] {
      KeptOfSpaces(a[1..]);
    }
  }

  /** Stripping the text first does not change what cleaning keeps. */
  lemma KeptOfStrip(t: string)
    ensures Kept(Strip(t)) == Kept(t)
  {
    var lead, trail := StripParts(t);
    KeptAppend(lead + Strip(t), trail);
    KeptAppend(lead, Strip(t));
    KeptOfSpaces(lead);
    KeptOfSpaces(trail);
  }

  /** `_rename_file`: the editor text is stripped and cleaned, the source's
      extension is added, collisions are resolved, and the source is
      renamed; every failure leaves the file system as it was. */
  method RenameFile(fs: set<Path>, source: Path, editorText: string, renameFails: bool)
    returns (outcome: RenameOutcome, fs': set<Path>)
    ensures outcome == NoName <==> AllSpace(editorText)
    ensures outcome == EmptyAfterCleaning <==> !AllSpace(editorText) && Kept(editorText) == []
    ensures outcome.Renamed? <==> Kept(editorText) != [] && source in fs && !renameFails
    ensures outcome.Renamed? ==> Some(outcome.target) == RenameTarget(editorText, source, fs)
    ensures outcome.Renamed? ==> fs' == fs - {source} + {outcome.target} && |fs'| == |fs|
    ensures !outcome.Renamed? ==> fs' == fs
  {
    TextChecks(editorText);
    var newName := Strip(editorText);
    if newName == "" {
      return NoName, fs;
    }
    var cleanedName := CleanFilename(newName);
    if cleanedName == "" {
      return EmptyAfterCleaning, fs;
    }
    var (_, ext) := SplitExt(source.name);
    if !EndsWith(cleanedName, ext) {
      cleanedName := cleanedName + ext;
    }
    RequestedPathIs(editorText, source);
    var newFilePath := GetUniqueFilepath(fs, Path(source.dir, cleanedName));
    if source !in fs || renameFails {
      return RenameFailed, fs;
    }
    MoveKeepsSize(fs, source, newFilePath);
    outcome, fs' := Renamed(newFilePath), fs - {source} + {newFilePath};
  }

  /** The two checks `_rename_file` makes on the editor text, in terms of
      the text itself. */
  lemma TextChecks(editorText: string)
    ensures Strip(editorText) == "" <==> AllSpace(editorText)
    ensures Cleaned(Strip(editorText)) == "" <==> Kept(editorText) == []
  {
    KeptOfStrip(editorText);
    CleanedSanitized(Strip(editorText));
  }

  /** The path requested by text that survives cleaning. */
  lemma RequestedPathIs(editorText: string, source: Path)
    requires Kept(editorText) != []
    ensures RequestedPath(editorText, source) ==
      Some(Path(source.dir, RequestedName(Cleaned(Strip(editorText)), SplitExt(source.name).1)))
  {
    TextChecks(editorText);
  }

  /** Renaming an existing file to a free name keeps the number of files. */
  lemma MoveKeepsSize(fs: set<Path>, src: Path, tgt: Path)
    requires src in fs && tgt !in fs
    ensures |fs - {src} + {tgt}| == |fs|
  {
    var rest := fs - {src};
    assert |rest| == |fs| - 1;
    assert tgt !in rest;
  }

  // ---------------------------------------------------------------------
  // Tagging from the context menu

  /** What `add_prefix` / `add_suffix` end with: `False` for a missing
      file, `True` after the rename, or the exception `os.rename` raised. */
  datatype TagOutcome = Missing | Tagged(target: Path) | RenameRaised

  /** Where `add_prefix` moves `file`: `prefix + name` when that is free,
      otherwise `prefix + base + " (k)" + ext` for the least free k >= 1. */
  function PrefixTarget(fs: set<Path>, prefix: string, file: Path): (t: Path)
    ensures t !in fs && t.dir == file.dir && prefix <= t.name && EndsWith(t.name, SplitExt(file.name).1)
    ensures Path(file.dir, prefix + file.name) !in fs ==> t.name == prefix + file.name
    ensures Path(file.dir, prefix + file.name) in fs ==>
      var (base, ext) := SplitExt(file.name);
      exists k :: 1 <= k && t == Numbered(file.dir, prefix + base, ext, k) &&
                  forall j :: 1 <= j < k ==> Numbered(file.dir, prefix + base, ext, j) in fs
  {
    var (base, extension) := SplitExt(file.name);
    var first := Path(file.dir, prefix + file.name);
    PrefixedName(prefix, base, extension);
    var t := FreeTarget(fs, first, file.dir, prefix + base, extension);
    assert prefix <= t.name by {
      if first in fs {
        PrefixOfPrefix(prefix, base, t.name);
      }
    }
    t
  }

  /** A prefixed name keeps the name's extension. */
  lemma PrefixedName(prefix: string, base: string, ext: string)
    ensures prefix + (base + ext) == (prefix + base) + ext
    ensures EndsWith(prefix + (base + ext), ext) && prefix <= prefix + (base + ext)
  {
    var n := prefix + (base + ext);
    assert n[|n| - |ext|..] == ext;
  }

  lemma PrefixOfPrefix(a: string, b: string, c: string)
    requires a + b <= c
    ensures a <= c
  {
    assert c[..|a|] == (a + b)[..|a|];
  }

  /** Where `add_suffix` moves `file`: `base + suffix + ext` when that is
      free, otherwise `base + suffix + " (k)" + ext` for the least free k >= 1. */
  function SuffixTarget(fs: set<Path>, suffix: string, file: Path): (t: Path)
    ensures t !in fs && t.dir == file.dir && EndsWith(t.name, SplitExt(file.name).1)
    ensures SplitExt(file.name).0 + suffix <= t.name
    ensures Path(file.dir, SplitExt(file.name).0 + suffix + SplitExt(file.name).1) !in fs ==>
      t.name == SplitExt(file.name).0 + suffix + SplitExt(file.name).1
    ensures Path(file.dir, SplitExt(file.name).0 + suffix + SplitExt(file.name).1) in fs ==>
      var (base, ext) := SplitExt(file.name);
      exists k :: 1 <= k && t == Numbered(file.dir, base + suffix, ext, k) &&
                  forall j :: 1 <= j < k ==> Numbered(file.dir, base + suffix, ext, j) in fs
  {
    var (base, extension) := SplitExt(file.name);
    FreeTarget(fs, Path(file.dir, base + suffix + extension), file.dir, base + suffix, extension)
  }

  /** `add_prefix`. */
  method AddPrefix(fs: set<Path>, prefix: string, file: Path, renameFails: bool)
    returns (outcome: TagOutcome, fs': set<Path>)
    ensures outcome == Missing <==> file !in fs
    ensures outcome.Tagged? <==> file in fs && !renameFails
    ensures outcome.Tagged? ==> outcome.target == PrefixTarget(fs, prefix, file)
    ensures outcome.Tagged? ==> fs' == fs - {file} + {outcome.target} && |fs'| == |fs|
    ensures !outcome.Tagged? ==> fs' == fs
  {
    if file !in fs {
      return Missing, fs;
    }
    var fileDir, fileName := file.dir, file.name;
    var (baseName, extension) := SplitExt(fileName);
    var newFilePath := ProbeCounter(fs, Path(fileDir, prefix + fileName), fileDir, prefix + baseName, extension);
    if renameFails {
      return RenameRaised, fs;
    }
    MoveKeepsSize(fs, file, newFilePath);
    outcome, fs' := Tagged(newFilePath), fs - {file} + {newFilePath};
  }

  /** `add_suffix`. */
  method AddSuffix(fs: set<Path>, suffix: string, file: Path, renameFails: bool)
    returns (outcome: TagOutcome, fs': set<Path>)
    ensures outcome == Missing <==> file !in fs
    ensures outcome.Tagged? <==> file in fs && !renameFails
    ensures outcome.Tagged? ==> outcome.target == SuffixTarget(fs, suffix, file)
    ensures outcome.Tagged? ==> fs' == fs - {file} + {outcome.target} && |fs'| == |fs|
    ensures !outcome.Tagged? ==> fs' == fs
  {
    if file !in fs {
      return Missing, fs;
    }
    var fileDir, fileName := file.dir, file.name;
    var (baseName, extension) := SplitExt(fileName);
    var newFilePath := ProbeCounter(fs, Path(fileDir, baseName + suffix + extension), fileDir, baseName + suffix, extension);
    if renameFails {
      return RenameRaised, fs;
    }
    MoveKeepsSize(fs, file, newFilePath);
    outcome, fs' := Tagged(newFilePath), fs - {file} + {newFilePath};
  }

  // ---------------------------------------------------------------------
  // The preview label

  /** `_update_preview` as written: when the requested path exists it
      shows `" (1)"` and the source's extension, whatever name the
      rename would actually pick. */
  function Preview(editorText: string, source: Path, fs: set<Path>): (shown: string)
    ensures "Preview: " <= shown
    ensures shown == "Preview: " <==> Kept(editorText) == []
    ensures RequestedPath(editorText, source).Some? && RequestedPath(editorText, source).value !in fs ==>
      shown == "Preview: " + RenameTarget(editorText, source, fs).value.name
  {
    match RequestedPath(editorText, source)
    case None => "Preview: "
    case Some(p) =>
      var ext := SplitExt(source.name).1;
      var display := if p in fs then SplitExt(p.name).0 + " (1)" + ext else p.name;
      assert p.name != [] by { CleanedSanitized(Strip(editorText)); KeptOfStrip(editorText); }
      assert display != [];
      "Preview: " + display
  }

  /** The preview the label evidently means to give: when the requested
      path exists, the requested name's own stem and extension around the
      counter the collision loop will settle on. */
  function CorrectedPreview(editorText: string, source: Path, fs: set<Path>): (shown: string)
    ensures "Preview: " <= shown
    ensures shown == "Preview: " <==> Kept(editorText) == []
  {
    match RequestedPath(editorText, source)
    case None => "Preview: "
    case Some(p) =>
      var (stem, ext) := SplitExt(p.name);
      var display :=
        if p in fs then stem + " (" + Decimal(FreeCounter(fs, p.dir, stem, ext, 1)) + ")" + ext
        else p.name;
      assert p.name != [] by { CleanedSanitized(Strip(editorText)); KeptOfStrip(editorText); }
      assert display != [];
      "Preview: " + display
  }

  /** The corrected preview names exactly the file a rename produces. */
  lemma CorrectedPreviewMatchesRename(editorText: string, source: Path, fs: set<Path>, t: Path)
    requires RenameTarget(editorText, source, fs) == Some(t)
    ensures CorrectedPreview(editorText, source, fs) == "Preview: " + t.name
  {
    var p := RequestedPath(editorText, source).value;
    var (stem, ext) := SplitExt(p.name);
    assert t == UniquePath(fs, p) == FreeTarget(fs, p, p.dir, stem, ext);
    if p in fs {
      assert t == Numbered(p.dir, stem, ext, FreeCounter(fs, p.dir, stem, ext, 1));
    }
  }

  /** Where the requested name is free, the corrected preview says what the
      original one says. */
  lemma CorrectedPreviewAgrees(editorText: string, source: Path, fs: set<Path>)
    requires RequestedPath(editorText, source).None? || RequestedPath(editorText, source).value !in fs
    ensures CorrectedPreview(editorText, source, fs) == Preview(editorText, source, fs)
  {
  }

  /** A name without whitespace or invalid characters is its own stripped
      and cleaned form. */
  lemma SolidNameIsClean(w: string)
    requires w != [] && NoSpace(w) && forall i :: 0 <= i < |w| ==> w[i] !in InvalidChars
    ensures Strip(w) == w && Cleaned(w) == w && Kept(w) != []
  {
    assert NoEdgeSpace(w);
    assert TrimStart(w) == w;
    assert TrimEnd(w) == w;
    CleanedFixpoint(w);
    KeptOfStrip(w);
    CleanedSanitized(w);
  }

  /** Requested names for a solid name typed into the editor. */
  lemma RequestedOfSolidName(w: string, source: Path)
    requires w != [] && NoSpace(w) && forall i :: 0 <= i < |w| ==> w[i] !in InvalidChars
    ensures RequestedPath(w, source) == Some(Path(source.dir, RequestedName(w, SplitExt(source.name).1)))
  {
    SolidNameIsClean(w);
  }

  lemma TxtAfterCounter(w: string)
    ensures w + " (1)" + ".txt" == w + " (1).txt"
  {
    assert w + " (1)" + ".txt" == w + (" (1)" + ".txt");
    TxtSpelling();
  }

  lemma TxtSpelling()
    ensures " (1)" + ".txt" == " (1).txt" && " (2)" + ".txt" == " (2).txt"
  {
  }

  lemma WordTxtIsSolid(w: string)
    requires forall i :: 0 <= i < |w| ==> IsLetter(w[i])
    ensures NoSpace(w + ".txt") && forall i :: 0 <= i < |w + ".txt"| ==> (w + ".txt")[i] !in InvalidChars
  {
    var n := w + ".txt";
    forall i | 0 <= i < |n| ensures !IsSpace(n[i]) && n[i] !in InvalidChars {
      if i < |w| {
        assert n[i] == w[i];
      } else {
        assert n[i] in ".txt";
      }
    }
  }

  /** A word followed by ".txt", typed into the editor, asks for exactly
      that name when the source's extension is empty or ".txt". */
  lemma RequestOfWord(w: string, source: Path, ext: string)
    requires w != [] && forall i :: 0 <= i < |w| ==> IsLetter(w[i])
    requires SplitExt(source.name).1 == ext && (ext == "" || ext == ".txt")
    ensures RequestedPath(w + ".txt", source) == Some(Path(source.dir, w + ".txt"))
    ensures SplitExt(w + ".txt") == (w, ".txt")
  {
    WordTxtIsSolid(w);
    RequestedOfSolidName(w + ".txt", source);
    TxtKeepsName(w, ext);
    TxtSplits(w);
  }

  /** `splitext` of a word followed by ".txt". */
  lemma TxtSplits(w: string)
    requires w != [] && IsLetter(w[0])
    ensures SplitExt(w + ".txt") == (w, ".txt")
  {
    assert !AllDots(w) by {
      assert w[0] != '.';
    }
    assert '.' !in ".txt"[1..];
    SplitExtOf(w, ".txt");
  }

  /** A name ending in ".txt" gets no second extension appended. */
  lemma TxtKeepsName(w: string, ext: string)
    requires ext == "" || ext == ".txt"
    ensures RequestedName(w + ".txt", ext) == w + ".txt"
  {
    var n := w + ".txt";
    if ext == ".txt" {
      assert n[|n| - 4..] == ".txt";
    } else {
      assert n[|n|..] == "";
    }
  }

  /** With "w.txt" and "w (1).txt" taken and "w (2).txt" free, the
      collision loop settles on "w (2).txt". */
  lemma SecondCounter(fs: set<Path>, dir: string, w: string)
    requires SplitExt(w + ".txt") == (w, ".txt")
    requires Path(dir, w + ".txt") in fs && Path(dir, w + " (1).txt") in fs
    requires Path(dir, w + " (2).txt") !in fs
    ensures UniquePath(fs, Path(dir, w + ".txt")) == Path(dir, w + " (2).txt")
  {
    FirstTxtName(dir, w);
    SecondTxtName(dir, w);
    FreeCounterIsLeast(fs, dir, w, ".txt", 2);
    assert UniquePath(fs, Path(dir, w + ".txt")) == FreeTarget(fs, Path(dir, w + ".txt"), dir, w, ".txt");
  }

  /** What the three names come to once the requested path is known to
      be taken. */
  lemma NamesWhenTaken(editorText: string, source: Path, fs: set<Path>, p: Path)
    requires RequestedPath(editorText, source) == Some(p) && p in fs
    ensures Preview(editorText, source, fs) == "Preview: " + (SplitExt(p.name).0 + " (1)" + SplitExt(source.name).1)
    ensures RenameTarget(editorText, source, fs) == Some(UniquePath(fs, p))
    ensures CorrectedPreview(editorText, source, fs) == "Preview: " + UniquePath(fs, p).name
  {
  }

  /** When "w.txt" and "w (1).txt" are both taken, the preview promises
      "w (1).txt" but the rename picks "w (2).txt". */
  lemma PreviewCounterMismatch(w: string, source: Path, fs: set<Path>)
    requires w != [] && forall i :: 0 <= i < |w| ==> IsLetter(w[i])
    requires SplitExt(source.name).1 == ".txt"
    requires Path(source.dir, w + ".txt") in fs && Path(source.dir, w + " (1).txt") in fs
    requires Path(source.dir, w + " (2).txt") !in fs
    ensures Preview(w + ".txt", source, fs) == "Preview: " + (w + " (1).txt")
    ensures RenameTarget(w + ".txt", source, fs) == Some(Path(source.dir, w + " (2).txt"))
    ensures CorrectedPreview(w + ".txt", source, fs) == "Preview: " + (w + " (2).txt")
  {
    var p := Path(source.dir, w + ".txt");
    var t := Path(source.dir, w + " (2).txt");
    RequestOfWord(w, source, ".txt");
    assert UniquePath(fs, p) == t by {
      SecondCounter(fs, source.dir, w);
    }
    NamesWhenTaken(w + ".txt", source, fs, p);
    TxtAfterCounter(w);
  }

  /** A source without an extension and the text "w.txt", with "w.txt"
      taken: the preview promises "w (1)" but the rename picks
      "w (1).txt", keeping the extension the user typed. */
  lemma PreviewExtensionMismatch(w: string, source: Path, fs: set<Path>)
    requires w != [] && forall i :: 0 <= i < |w| ==> IsLetter(w[i])
    requires SplitExt(source.name).1 == ""
    requires Path(source.dir, w + ".txt") in fs && Path(source.dir, w + " (1).txt") !in fs
    ensures Preview(w + ".txt", source, fs) == "Preview: " + (w + " (1)")
    ensures RenameTarget(w + ".txt", source, fs) == Some(Path(source.dir, w + " (1).txt"))
    ensures CorrectedPreview(w + ".txt", source, fs) == "Preview: " + (w + " (1).txt")
  {
    var p := Path(source.dir, w + ".txt");
    var t := Path(source.dir, w + " (1).txt");
    RequestOfWord(w, source, "");
    assert UniquePath(fs, p) == t by {
      FirstCounter(fs, source.dir, w);
    }
    assert Preview(w + ".txt", source, fs) == "Preview: " + (w + " (1)" + "") by {
      NamesWhenTaken(w + ".txt", source, fs, p);
    }
    assert w + " (1)" + "" == w + " (1)";
    NamesWhenTaken(w + ".txt", source, fs, p);
  }

  /** With "w.txt" taken and "w (1).txt" free, the collision loop settles
      on "w (1).txt". */
  lemma FirstCounter(fs: set<Path>, dir: string, w: string)
    requires SplitExt(w + ".txt") == (w, ".txt")
    requires Path(dir, w + ".txt") in fs && Path(dir, w + " (1).txt") !in fs
    ensures UniquePath(fs, Path(dir, w + ".txt")) == Path(dir, w + " (1).txt")
  {
    FirstTxtName(dir, w);
    FreeCounterIsLeast(fs, dir, w, ".txt", 1);
  }

  /** The first two numbered ".txt" names, spelt out. */
  lemma FirstTxtName(dir: string, w: string)
    ensures Numbered(dir, w, ".txt", 1) == Path(dir, w + " (1).txt")
  {
    NumberedOneTwo(dir, w, ".txt");
    TxtSpelling();
  }

  lemma SecondTxtName(dir: string, w: string)
    ensures Numbered(dir, w, ".txt", 2) == Path(dir, w + " (2).txt")
  {
    NumberedOneTwo(dir, w, ".txt");
    TxtSpelling();
  }
}
