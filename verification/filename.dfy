/** Turning recognised text into a file name: `_clean_filename` and
    `_text_to_filename` of the OCR window (presuffix.py:336-341, 395-409). */
module FilenameSynth {
  import opened PyText

  /** The nine characters Windows refuses in file names. */
  const InvalidChars: string := "<>:\"/\\|?*"

  /** `s.replace(c, ' ')` for a one-character pattern. */
  function ReplaceChar(s: string, c: char): string {
    seq(|s|, i requires 0 <= i < |s| => if s[i] == c then ' ' else s[i])
  }

  /** `s` after `s.replace(c, ' ')` for every `c` of `cs`. */
  function ReplaceEach(s: string, cs: string): string {
    seq(|s|, i requires 0 <= i < |s| => if s[i] in cs then ' ' else s[i])
  }

  /** What `_clean_filename` computes: the invalid characters become
      spaces, then whitespace is normalised by `' '.join(s.split())`. */
  function Cleaned(s: string): (r: string)
    ensures IsNormal(r)
    ensures Split(r) == Split(ReplaceEach(s, InvalidChars))
  {
    Normalize(ReplaceEach(s, InvalidChars))
  }

  /** The characters of `s` that survive cleaning, in order. */
  function Kept(s: string): (r: string)
    ensures forall i :: 0 <= i < |r| ==> !IsSpace(r[i]) && r[i] !in InvalidChars
  {
    if s == [] then []
    else (if IsSpace(s[0]) || s[0] in InvalidChars then [] else [s[0]]) + Kept(s[1..])
  }

  /** `_clean_filename`: one `replace` per invalid character, then the
      whitespace normalisation. */
  method CleanFilename(filename: string) returns (r: string)
    ensures r == Cleaned(filename)
  {
    var f := filename;
    for k := 0 to |InvalidChars|
      invariant f == ReplaceEach(filename, InvalidChars[..k])
    {
      assert InvalidChars[..k + 1] == InvalidChars[..k] + [InvalidChars[k]];
      f := ReplaceChar(f, InvalidChars[k]);
    }
    assert InvalidChars[..|InvalidChars|] == InvalidChars;
    r := Join(Split(f));
  }

  lemma {:induction false} KeptIsNonSpaceOfReplaced(s: string)
    ensures NonSpace(ReplaceEach(s, InvalidChars)) == Kept(s)
    decreases |s|
  {
    if s != [] {
      var t := ReplaceEach(s, InvalidChars);
      assert t[1..] == ReplaceEach(s[1..], InvalidChars);
      KeptIsNonSpaceOfReplaced(s[1..]);
    }
  }

  lemma {:induction false} NonSpaceHolds(t: string)
    ensures forall i :: 0 <= i < |t| && !IsSpace(t[i]) ==> t[i] in NonSpace(t)
    decreases |t|
  {
    if t != [] {
      NonSpaceHolds(t[1..]);
      forall i | 0 < i < |t| && !IsSpace(t[i]) ensures t[i] in NonSpace(t) {
        assert t[i] == t[1..][i - 1];
      }
    }
  }

  /** The output of `_clean_filename` holds none of the invalid characters,
      has no whitespace at its ends, no two whitespace characters in a row
      and no whitespace but plain spaces, and between those spaces keeps
      every other character of the input in order; it is empty exactly
      when the input holds nothing but whitespace and invalid characters. */
  lemma CleanedSanitized(s: string)
    ensures IsNormal(Cleaned(s))
    ensures forall i :: 0 <= i < |Cleaned(s)| ==> Cleaned(s)[i] !in InvalidChars
    ensures NonSpace(Cleaned(s)) == Kept(s)
    ensures Cleaned(s) == [] <==> Kept(s) == []
    ensures Split(Cleaned(s)) == Split(ReplaceEach(s, InvalidChars))
  {
    NormalizeSpec(ReplaceEach(s, InvalidChars));
    KeptIsNonSpaceOfReplaced(s);
    NonSpaceEmpty(Cleaned(s));
    CleanedAvoidsInvalid(s);
  }

  lemma CleanedAvoidsInvalid(s: string)
    ensures forall i :: 0 <= i < |Cleaned(s)| ==> Cleaned(s)[i] !in InvalidChars
  {
    var t := Cleaned(s);
    assert NonSpace(t) == Kept(s) by {
      NormalizeSpec(ReplaceEach(s, InvalidChars));
      KeptIsNonSpaceOfReplaced(s);
    }
    NonSpaceHolds(t);
    forall i | 0 <= i < |t| ensures t[i] !in InvalidChars {
      if IsSpace(t[i]) {
        SpaceIsValid(t[i]);
      } else {
        assert t[i] in Kept(s);
      }
    }
  }

  /** No whitespace character is one of the invalid ones. */
  lemma SpaceIsValid(c: char)
    requires IsSpace(c)
    ensures c !in InvalidChars
  {
  }

  /** A normal string without invalid characters is already clean. */
  lemma CleanedFixpoint(t: string)
    requires IsNormal(t)
    requires forall i :: 0 <= i < |t| ==> t[i] !in InvalidChars
    ensures Cleaned(t) == t
  {
    assert ReplaceEach(t, InvalidChars) == t;
    NormalFixpoint(t);
  }

  /** Cleaning twice is cleaning once. */
  lemma CleanedIdempotent(s: string)
    ensures Cleaned(Cleaned(s)) == Cleaned(s)
  {
    CleanedSanitized(s);
    CleanedFixpoint(Cleaned(s));
  }

  /** `_text_to_filename`: `lower().title()` of what `_clean_filename`
      makes of the text. Neither the guard for empty text nor the leading
      `strip()` changes the result. */
  function TextToFilename(text: string): (r: string)
    ensures r == Title(Lower(Cleaned(text)))
  {
    if text == "" then
      assert Cleaned(text) == [] by { assert Split(ReplaceEach(text, InvalidChars)) == []; }
      ""
    else
      CleanedOfStrip(text);
      Title(Lower(Normalize(ReplaceEach(Strip(text), InvalidChars))))
  }

  /** Case mapping by `lower().title()` touches letters only, and only their case. */
  lemma TitleLowerShape(x: string)
    ensures |Title(Lower(x))| == |x|
    ensures forall i :: 0 <= i < |x| ==>
      && IsLetter(Title(Lower(x))[i]) == IsLetter(x[i])
      && ToLower(Title(Lower(x))[i]) == ToLower(x[i])
      && (!IsLetter(x[i]) ==> Title(Lower(x))[i] == x[i])
  {
    forall i | 0 <= i < |x|
      ensures IsLetter(Title(Lower(x))[i]) == IsLetter(x[i])
      ensures ToLower(Title(Lower(x))[i]) == ToLower(x[i])
      ensures !IsLetter(x[i]) ==> Title(Lower(x))[i] == x[i]
    {
      CaseFacts(x[i]);
      CaseFacts(ToLower(x[i]));
      assert Lower(x)[i] == ToLower(x[i]);
      assert |Lower(x)| == |x|;
      assert Title(Lower(x))[i] == if i > 0 && IsLetter(Lower(x)[i - 1]) then ToLower(Lower(x)[i]) else ToUpper(Lower(x)[i]);
    }
  }

  /** `lower().title()` does nothing more when applied a second time. */
  lemma TitleLowerIdempotent(x: string)
    ensures Title(Lower(Title(Lower(x)))) == Title(Lower(x))
  {
    var y := Title(Lower(x));
    TitleLowerShape(x);
    assert |Title(Lower(y))| == |y|;
    forall i | 0 <= i < |y| ensures Title(Lower(y))[i] == y[i] {
      assert Lower(y)[i] == ToLower(x[i]);
      if i > 0 {
        assert IsLetter(Lower(y)[i - 1]) == IsLetter(Lower(x)[i - 1]);
      }
    }
  }

  lemma {:induction false} ReplaceEachOfSpaces(a: string)
    requires AllSpace(a)
    ensures ReplaceEach(a, InvalidChars) == a
  {
    forall i | 0 <= i < |a| ensures a[i] !in InvalidChars {
      assert IsSpace(a[i]);
    }
  }

  lemma ReplaceEachAppend(a: string, b: string)
    ensures ReplaceEach(a + b, InvalidChars) == ReplaceEach(a, InvalidChars) + ReplaceEach(b, InvalidChars)
  {
  }

  /** Stripping the text first does not change what cleaning produces. */
  lemma CleanedOfStrip(text: string)
    ensures Cleaned(Strip(text)) == Cleaned(text)
  {
    var lead, trail := StripParts(text);
    var m := Strip(text);
    ReplaceEachAppend(lead + m, trail);
    ReplaceEachAppend(lead, m);
    ReplaceEachOfSpaces(lead);
    ReplaceEachOfSpaces(trail);
    SplitIgnoresOuterSpace(lead, ReplaceEach(m, InvalidChars), trail);
  }

  /** `lower().title()` of a clean string is clean, differs from it only
      in letter case, and has a letter upper-case exactly when it starts
      the string or follows a character that is not a letter. */
  lemma TitledCleanShape(c: string)
    requires IsNormal(c)
    requires forall i :: 0 <= i < |c| ==> c[i] !in InvalidChars
    ensures IsNormal(Title(Lower(c)))
    ensures forall i :: 0 <= i < |Title(Lower(c))| ==> Title(Lower(c))[i] !in InvalidChars
    ensures Lower(Title(Lower(c))) == Lower(c)
    ensures forall i :: 0 <= i < |Title(Lower(c))| && IsLetter(Title(Lower(c))[i]) ==>
      (IsUpper(Title(Lower(c))[i]) <==> i == 0 || !IsLetter(Title(Lower(c))[i - 1]))
  {
    var r := Title(Lower(c));
    TitleLowerShape(c);
    forall i | 0 <= i < |r| ensures IsSpace(r[i]) == IsSpace(c[i]) && (IsSpace(r[i]) ==> r[i] == c[i]) {
      CaseFacts(c[i]);
    }
    forall i | 0 <= i < |r| && IsLetter(r[i])
      ensures IsUpper(r[i]) <==> i == 0 || !IsLetter(r[i - 1])
    {
      CaseFacts(Lower(c)[i]);
      if i > 0 {
        CaseFacts(c[i - 1]);
        assert IsLetter(Lower(c)[i - 1]) == IsLetter(r[i - 1]);
      }
    }
  }

  /** The file name built from recognised text inherits every guarantee of
      cleaning, differs from the cleaned text only in letter case, and has
      a letter upper-case exactly when it starts the name or follows a
      character that is not a letter. */
  lemma TextToFilenameSpec(text: string)
    ensures IsNormal(TextToFilename(text))
    ensures forall i :: 0 <= i < |TextToFilename(text)| ==> TextToFilename(text)[i] !in InvalidChars
    ensures Lower(TextToFilename(text)) == Lower(Cleaned(text))
    ensures forall i :: 0 <= i < |TextToFilename(text)| && IsLetter(TextToFilename(text)[i]) ==>
      (IsUpper(TextToFilename(text)[i]) <==> i == 0 || !IsLetter(TextToFilename(text)[i - 1]))
  {
    CleanedSanitized(text);
    TitledCleanShape(Cleaned(text));
  }

  /** Building a file name from an already-built file name changes nothing. */
  lemma TextToFilenameIdempotent(text: string)
    ensures TextToFilename(TextToFilename(text)) == TextToFilename(text)
  {
    var r := TextToFilename(text);
    if r != "" {
      TextToFilenameSpec(text);
      CleanedFixpoint(r);
      TitleLowerIdempotent(Cleaned(text));
    }
  }
}
