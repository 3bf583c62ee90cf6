/** The recognition policy of `perform_ocr` (presuffix.py:148-201). The
    Tesseract engine is an oracle `engine`: for each configuration it is
    asked with, it either returns a string or raises. Whether the Python
    package imported and what the version probe did are inputs. */
module Recognition {
  import opened PyText

  /** The `config` argument of `image_to_string`: `--oem 3 --psm <mode>`,
      or none at all for the fallback call. */
  datatype Config = Psm(mode: nat) | DefaultConfig

  /** One call of `image_to_string`. */
  datatype Attempt = Returned(text: string) | Failed

  /** What `get_tesseract_version()` did. */
  datatype VersionProbe = VersionOk | NotFoundError | OtherError

  /** The text handed to the result editor, or an exception that leaves
      `perform_ocr`. */
  datatype OcrOutcome = Shown(text: string) | Raised

  /** The page-segmentation modes tried, in order. */
  const PsmModes: seq<nat> := [6, 7, 8, 3]

  const NotInstalledMessage: string :=
    "Tesseract OCR not installed!\n\n" +
    "To enable OCR functionality:\n" +
    "1. pip install pytesseract\n" +
    "2. Install Tesseract OCR engine:\n" +
    "   https://github.com/UB-Mannheim/tesseract/wiki\n"

  const NotFoundMessage: string :=
    "Tesseract executable not found!\n\n" +
    "Solutions:\n" +
    "1. Add Tesseract to PATH\n" +
    "2. Or set path manually in the script:\n" +
    "   pytesseract.pytesseract.tesseract_cmd = r'C:\\Program Files\\Tesseract-OCR\\tesseract.exe'\n"

  const NoTextMessage: string :=
    "No text detected in the selected region.\n\n" +
    "Tips:\n\U{2022} Ensure good contrast\n\U{2022} Avoid rotated text\n\U{2022} Try smaller regions"

  /** An attempt that ends the mode loop: text whose `strip()` is
      non-empty, that is, text that is not all whitespace. */
  predicate IsHit(a: Attempt) {
    a.Returned? && !AllSpace(a.text)
  }

  /** The index of the first mode of `modes` whose attempt is a hit, or
      `|modes|` when there is none. */
  function FirstHit(engine: Config -> Attempt, modes: seq<nat>): (i: nat)
    ensures i <= |modes|
    ensures i < |modes| ==> IsHit(engine(Psm(modes[i])))
    ensures forall j :: 0 <= j < i ==> !IsHit(engine(Psm(modes[j])))
  {
    if modes == [] then 0
    else if IsHit(engine(Psm(modes[0]))) then 0
    else
      var i := FirstHit(engine, modes[1..]);
      assert forall j :: 1 <= j < i + 1 ==> modes[j] == modes[1..][j - 1];
      i + 1
  }

  /** What `perform_ocr` shows. */
  function Recognize(available: bool, probe: VersionProbe, engine: Config -> Attempt): (r: OcrOutcome)
    ensures !available ==> r == Shown(NotInstalledMessage)
    ensures available && probe == NotFoundError ==> r == Shown(NotFoundMessage)
    ensures available && probe == OtherError ==> r == Raised
    ensures r.Shown? ==> Strip(r.text) != ""
  {
    if !available then Shown(NotInstalledMessage)
    else if probe == NotFoundError then Shown(NotFoundMessage)
    else if probe == OtherError then Raised
    else
      var i := FirstHit(engine, PsmModes);
      if i < |PsmModes| then Shown(engine(Psm(PsmModes[i])).text)
      else match engine(DefaultConfig)
        case Failed => Raised
        case Returned(t) =>
          if Strip(t) == "" then (assert NoTextMessage[0] == 'N'; Shown(NoTextMessage))
          else (StripIdempotent(t); Shown(Strip(t)))
  }

  /** The first `k` mode configurations. */
  function Tried(k: nat): (r: seq<Config>)
    requires k <= |PsmModes|
    ensures |r| == k && forall j :: 0 <= j < k ==> r[j] == Psm(PsmModes[j])
  {
    seq(k, j requires 0 <= j < k => Psm(PsmModes[j]))
  }

  lemma TriedNext(k: nat)
    requires k < |PsmModes|
    ensures Tried(k + 1) == Tried(k) + [Psm(PsmModes[k])]
  {
  }

  /** The configurations `perform_ocr` asks the engine for, in order. */
  function Attempts(available: bool, probe: VersionProbe, engine: Config -> Attempt): (r: seq<Config>)
    ensures r == [] <==> !available || probe != VersionOk
    ensures DefaultConfig in r <==> available && probe == VersionOk && FirstHit(engine, PsmModes) == |PsmModes|
  {
    if !available || probe != VersionOk then []
    else
      var i := FirstHit(engine, PsmModes);
      if i < |PsmModes| then Tried(i + 1) else Tried(|PsmModes|) + [DefaultConfig]
  }

  /** Any index with a hit there and none before it is the one `FirstHit` finds. */
  lemma FirstHitIsLeast(engine: Config -> Attempt, modes: seq<nat>, i: nat)
    requires i <= |modes|
    requires i < |modes| ==> IsHit(engine(Psm(modes[i])))
    requires forall j :: 0 <= j < i ==> !IsHit(engine(Psm(modes[j])))
    ensures FirstHit(engine, modes) == i
  {
  }

  /** `perform_ocr`: the availability checks, the mode loop that stops at
      the first non-blank result, the unguarded fallback call, and the
      tips message. Also returns the configurations tried, in order. */
  method PerformOcr(available: bool, probe: VersionProbe, engine: Config -> Attempt)
    returns (outcome: OcrOutcome, calls: seq<Config>)
    ensures outcome == Recognize(available, probe, engine)
    ensures calls == Attempts(available, probe, engine)
  {
    calls := [];
    if !available {
      return Shown(NotInstalledMessage), calls;
    }
    if probe == NotFoundError {
      return Shown(NotFoundMessage), calls;
    } else if probe == OtherError {
      return Raised, calls;
    }
    var text := "";
    var k := 0;
    while k < |PsmModes|
      invariant k <= |PsmModes| && text == "" && calls == Tried(k)
      invariant forall j :: 0 <= j < k ==> !IsHit(engine(Psm(PsmModes[j])))
    {
      var config := Psm(PsmModes[k]);
      TriedNext(k);
      calls := calls + [config];
      var result := engine(config);
      if result.Returned? && Strip(result.text) != "" {
        text := result.text;
        break;
      }
      k := k + 1;
    }
    FirstHitIsLeast(engine, PsmModes, k);
    if Strip(text) == "" {
      calls := calls + [DefaultConfig];
      var fallback := engine(DefaultConfig);
      if fallback.Failed? {
        return Raised, calls;
      }
      text := Strip(fallback.text);
    }
    if text == "" {
      text := NoTextMessage;
    }
    outcome := Shown(text);
  }

  /** The first mode whose text is not blank wins: its text is shown as
      returned, not stripped, and no later mode and no fallback is tried. */
  lemma FirstSuccessWins(engine: Config -> Attempt, i: nat)
    requires i < |PsmModes| && IsHit(engine(Psm(PsmModes[i])))
    requires forall j :: 0 <= j < i ==> !IsHit(engine(Psm(PsmModes[j])))
    ensures Recognize(true, VersionOk, engine) == Shown(engine(Psm(PsmModes[i])).text)
    ensures Attempts(true, VersionOk, engine) == Tried(i + 1)
  {
    FirstHitIsLeast(engine, PsmModes, i);
  }

  /** When every mode gives blank text or raises, the fallback call
      decides: its exception escapes, blank text becomes the tips message,
      anything else is shown stripped. */
  lemma FallbackDecides(engine: Config -> Attempt)
    requires forall j :: 0 <= j < |PsmModes| ==> !IsHit(engine(Psm(PsmModes[j])))
    ensures Attempts(true, VersionOk, engine) == Tried(|PsmModes|) + [DefaultConfig]
    ensures engine(DefaultConfig).Failed? ==> Recognize(true, VersionOk, engine) == Raised
    ensures engine(DefaultConfig).Returned? && AllSpace(engine(DefaultConfig).text) ==>
      Recognize(true, VersionOk, engine) == Shown(NoTextMessage)
    ensures engine(DefaultConfig).Returned? && !AllSpace(engine(DefaultConfig).text) ==>
      Recognize(true, VersionOk, engine) == Shown(Strip(engine(DefaultConfig).text))
  {
    FirstHitIsLeast(engine, PsmModes, |PsmModes|);
  }

  /** Unless the engine itself produces the tips text, the tips message is
      shown exactly when no mode and not the fallback read anything. */
  lemma TipsExactlyWhenNothingRead(engine: Config -> Attempt)
    requires forall c :: engine(c).Returned? ==> engine(c).text != NoTextMessage && Strip(engine(c).text) != NoTextMessage
    ensures Recognize(true, VersionOk, engine) == Shown(NoTextMessage) <==>
      (forall j :: 0 <= j < |PsmModes| ==> !IsHit(engine(Psm(PsmModes[j])))) &&
      engine(DefaultConfig).Returned? && AllSpace(engine(DefaultConfig).text)
  {
    var i := FirstHit(engine, PsmModes);
    if i < |PsmModes| {
      FirstSuccessWins(engine, i);
      assert Recognize(true, VersionOk, engine) != Shown(NoTextMessage);
      assert IsHit(engine(Psm(PsmModes[i])));
    } else {
      FallbackDecides(engine);
      var fallback := engine(DefaultConfig);
      if fallback.Returned? && !AllSpace(fallback.text) {
        assert Recognize(true, VersionOk, engine) == Shown(Strip(fallback.text));
        assert Strip(fallback.text) != NoTextMessage;
      }
    }
  }

  /** An attempt that raises counts as an attempt that read nothing: the
      mode loop cannot tell them apart. */
  lemma {:induction false} FailedActsAsBlank(engine: Config -> Attempt, engine': Config -> Attempt, modes: seq<nat>)
    requires forall m :: engine'(Psm(m)) == if engine(Psm(m)).Failed? then Returned("") else engine(Psm(m))
    ensures FirstHit(engine', modes) == FirstHit(engine, modes)
    decreases |modes|
  {
    if modes != [] {
      assert !IsHit(Returned(""));
      FailedActsAsBlank(engine, engine', modes[1..]);
    }
  }

  /** Hence replacing every raising mode by one that returns "" changes
      neither what is shown nor what is tried. */
  lemma FailedModesChangeNothing(engine: Config -> Attempt, engine': Config -> Attempt)
    requires forall m :: engine'(Psm(m)) == if engine(Psm(m)).Failed? then Returned("") else engine(Psm(m))
    requires engine'(DefaultConfig) == engine(DefaultConfig)
    ensures Recognize(true, VersionOk, engine') == Recognize(true, VersionOk, engine)
    ensures Attempts(true, VersionOk, engine') == Attempts(true, VersionOk, engine)
  {
    FailedActsAsBlank(engine, engine', PsmModes);
    var i := FirstHit(engine, PsmModes);
    if i < |PsmModes| {
      assert engine'(Psm(PsmModes[i])) == engine(Psm(PsmModes[i]));
    }
  }
}
