/** The parts of Python's `str` behaviour the tool relies on: `isspace`,
    `strip()`, `split()` and `' '.join(...)` without arguments, `lower()`,
    `title()`, `endswith` and `str(n)` for a natural number.
    Whitespace is Python's full `isspace` set; letters and case mapping
    are ASCII only. */
module PyText {

  // ---------------------------------------------------------------------
  // Character classes

  /** Python's `str.isspace()` for one character: the separators that
      `split()` and `strip()` use when called without arguments. */
  predicate IsSpace(c: char) {
    || ('\t' <= c <= '\r')
    || ('\U{1c}' <= c <= ' ')
    || c == '\U{85}' || c == '\U{a0}' || c == '\U{1680}'
    || ('\U{2000}' <= c <= '\U{200a}')
    || c == '\U{2028}' || c == '\U{2029}' || c == '\U{202f}'
    || c == '\U{205f}' || c == '\U{3000}'
  }

  predicate AllSpace(s: string) { forall i :: 0 <= i < |s| ==> IsSpace(s[i]) }

  predicate NoSpace(s: string) { forall i :: 0 <= i < |s| ==> !IsSpace(s[i]) }

  /** Neither the first nor the last character is whitespace. */
  predicate NoEdgeSpace(s: string) {
    s == [] || (!IsSpace(s[0]) && !IsSpace(s[|s| - 1]))
  }

  predicate IsUpper(c: char) { 'A' <= c <= 'Z' }

  predicate IsLower(c: char) { 'a' <= c <= 'z' }

  predicate IsLetter(c: char) { IsUpper(c) || IsLower(c) }

  function ToLower(c: char): char { if IsUpper(c) then (c as int + 32) as char else c }

  function ToUpper(c: char): char { if IsLower(c) then (c as int - 32) as char else c }

  /** ASCII case mapping changes letters only, and only their case. */
  lemma CaseFacts(c: char)
    ensures IsLetter(ToLower(c)) == IsLetter(c) && IsLetter(ToUpper(c)) == IsLetter(c)
    ensures ToLower(ToLower(c)) == ToLower(c) && ToLower(ToUpper(c)) == ToLower(c)
    ensures !IsLetter(c) ==> ToLower(c) == c && ToUpper(c) == c
    ensures IsLetter(c) ==> IsUpper(ToUpper(c)) && !IsUpper(ToLower(c))
  {
  }

  // ---------------------------------------------------------------------
  // strip()

  function TrimStart(s: string): (r: string)
    ensures |r| <= |s| && r == s[|s| - |r|..]
    ensures AllSpace(s[..|s| - |r|])
    ensures r == [] || !IsSpace(r[0])
  {
    if s != [] && IsSpace(s[0]) then
      var r := TrimStart(s[1..]);
      assert s[..|s| - |r|] == [s[0]] + s[1..][..|s| - 1 - |r|];
      r
    else s
  }

  function TrimEnd(s: string): (r: string)
    ensures |r| <= |s| && r == s[..|r|]
    ensures AllSpace(s[|r|..])
    ensures r == [] || !IsSpace(r[|r| - 1])
  {
    if s != [] && IsSpace(s[|s| - 1]) then
      var p := s[..|s| - 1];
      var r := TrimEnd(p);
      assert r == s[..|r|];
      assert s[|r|..] == p[|r|..] + [s[|s| - 1]];
      r
    else s
  }

  /** `s.strip()`: the result has no whitespace at either end, and it is
      empty exactly when `s` is all whitespace. */
  function Strip(s: string): (r: string)
    ensures NoEdgeSpace(r)
    ensures r == [] <==> AllSpace(s)
  {
    TrimBoth(s);
    TrimEnd(TrimStart(s))
  }

  /** Trimming both ends leaves no edge whitespace, and nothing at all
      exactly when everything was whitespace. */
  lemma TrimBoth(s: string)
    ensures NoEdgeSpace(TrimEnd(TrimStart(s)))
    ensures TrimEnd(TrimStart(s)) == [] <==> AllSpace(s)
  {
    var u := TrimStart(s);
    var r := TrimEnd(u);
    if r != [] {
      assert r[0] == u[0];
    }
    TrimStartEmpty(s);
    TrimEndEmpty(u);
  }

  lemma {:induction false} TrimStartEmpty(s: string)
    ensures TrimStart(s) == [] <==> AllSpace(s)
    decreases |s|
  {
    if s != [] && IsSpace(s[0]) {
      TrimStartEmpty(s[1..]);
      assert AllSpace(s) <==> AllSpace(s[1..]) by {
        assert forall i :: 0 < i < |s| ==> s[i] == s[1..][i - 1];
      }
    }
  }

  lemma {:induction false} TrimEndEmpty(s: string)
    ensures TrimEnd(s) == [] <==> AllSpace(s)
    decreases |s|
  {
    if s != [] && IsSpace(s[|s| - 1]) {
      var p := s[..|s| - 1];
      TrimEndEmpty(p);
      assert AllSpace(s) <==> AllSpace(p) by {
        assert forall i :: 0 <= i < |p| ==> s[i] == p[i];
      }
    }
  }

  /** A string without whitespace at its ends is its own `strip()`. */
  lemma StripTrimmed(t: string)
    requires NoEdgeSpace(t)
    ensures Strip(t) == t
  {
    assert TrimStart(t) == t;
    assert TrimEnd(t) == t;
  }

  /** `strip()` twice is `strip()` once. */
  lemma StripIdempotent(s: string)
    ensures Strip(Strip(s)) == Strip(s)
  {
    StripTrimmed(Strip(s));
  }

  lemma ThreeSlices(s: string, u: string, r: string, k: nat)
    requires k <= |s| && u == s[k..] && |r| <= |u| && r == u[..|r|]
    ensures s == s[..k] + r + u[|r|..]
  {
    assert s == s[..k] + u;
    assert u == r + u[|r|..];
  }

  /** `strip()` only removes whitespace, and only at the two ends. */
  lemma StripParts(s: string) returns (lead: string, trail: string)
    ensures s == lead + Strip(s) + trail
    ensures AllSpace(lead) && AllSpace(trail)
  {
    var u := TrimStart(s);
    var k := |s| - |u|;
    var r := TrimEnd(u);
    assert Strip(s) == r;
    lead, trail := s[..k], u[|r|..];
    ThreeSlices(s, u, r, k);
  }

  // ---------------------------------------------------------------------
  // split() and ' '.join(...)

  /** The longest whitespace-free prefix of `s`. */
  function Word(s: string): (w: string)
    ensures w <= s && NoSpace(w)
    ensures |w| == |s| || IsSpace(s[|w|])
  {
    if s == [] || IsSpace(s[0]) then [] else [s[0]] + Word(s[1..])
  }

  predicate ValidWords(ws: seq<string>) {
    forall i :: 0 <= i < |ws| ==> ws[i] != [] && NoSpace(ws[i])
  }

  /** `s.split()`: the maximal runs of non-whitespace, in order. */
  function Split(s: string): (ws: seq<string>)
    ensures ValidWords(ws)
    ensures ws == [] <==> AllSpace(s)
    decreases |s|
  {
    if s == [] then []
    else if IsSpace(s[0]) then
      assert AllSpace(s) <==> AllSpace(s[1..]) by {
        assert forall i :: 0 < i < |s| ==> s[i] == s[1..][i - 1];
      }
      Split(s[1..])
    else
      var w := Word(s);
      [w] + Split(s[|w|..])
  }

  /** `' '.join(ws)`. On words without whitespace, `split()` takes the
      join apart again into exactly the same words. */
  function Join(ws: seq<string>): (r: string)
    ensures ValidWords(ws) ==> Split(r) == ws
  {
    if |ws| == 0 then ""
    else if |ws| == 1 then
      assert ValidWords(ws) ==> Split(ws[0]) == ws by {
        if ValidWords(ws) { SplitOfWord(ws[0]); }
      }
      ws[0]
    else
      var t := Join(ws[1..]);
      assert ValidWords(ws) ==> Split(ws[0] + " " + t) == ws by {
        if ValidWords(ws) {
          assert ValidWords(ws[1..]) by {
            forall i | 0 <= i < |ws[1..]| ensures ws[1..][i] != [] && NoSpace(ws[1..][i]) {
              assert ws[1..][i] == ws[i + 1];
            }
          }
          SplitWordThen(ws[0], t);
          assert ws == [ws[0]] + ws[1..];
        }
      }
      ws[0] + " " + t
  }

  /** `' '.join(s.split())`: a normal string made of the same words. */
  function Normalize(s: string): (r: string)
    ensures IsNormal(r)
    ensures Split(r) == Split(s)
  {
    JoinNormal(Split(s));
    Join(Split(s))
  }

  /** A string in the shape `' '.join(s.split())` produces: no whitespace
      at the ends, plain spaces only, never two whitespace characters in a row. */
  predicate IsNormal(s: string) {
    && NoEdgeSpace(s)
    && (forall i :: 0 <= i < |s| && IsSpace(s[i]) ==> s[i] == ' ')
    && (forall i :: 0 <= i < |s| - 1 && IsSpace(s[i]) ==> !IsSpace(s[i + 1]))
  }

  /** The characters of `s` that are not whitespace, in order. */
  function NonSpace(s: string): string {
    if s == [] then [] else (if IsSpace(s[0]) then [] else [s[0]]) + NonSpace(s[1..])
  }

  function Concat(ws: seq<string>): string {
    if ws == [] then [] else ws[0] + Concat(ws[1..])
  }

  lemma {:induction false} JoinNormal(ws: seq<string>)
    requires ValidWords(ws)
    ensures IsNormal(Join(ws))
    ensures ws != [] ==> Join(ws) != []
  {
    if |ws| >= 2 {
      JoinNormal(ws[1..]);
      var a, t := ws[0], Join(ws[1..]);
      var j := a + " " + t;
      assert Join(ws) == j;
      forall i | 0 <= i < |j| && IsSpace(j[i]) ensures j[i] == ' ' {
        if i > |a| {
          assert j[i] == t[i - |a| - 1];
        }
      }
      forall i | 0 <= i < |j| - 1 && IsSpace(j[i]) ensures !IsSpace(j[i + 1]) {
        if i == |a| {
          assert j[i + 1] == t[0];
        } else if i > |a| {
          assert j[i] == t[i - |a| - 1] && j[i + 1] == t[i - |a|];
        }
      }
    }
  }

  /** A normal string that is more than one word is its first word, one
      space, and a normal rest. */
  lemma NormalStep(s: string) returns (tail: string)
    requires IsNormal(s) && s != [] && |Word(s)| < |s|
    ensures s == Word(s) + " " + tail && tail != [] && IsNormal(tail)
    ensures Split(s) == [Word(s)] + Split(tail)
  {
    var w := Word(s);
    var rest := s[|w|..];
    assert |w| < |s| - 1;
    tail := rest[1..];
    assert s == w + " " + tail by {
      assert s == w + rest;
      assert rest[0] == s[|w|] == ' ';
    }
    NormalTail(s, |w| + 1);
    assert tail == s[|w| + 1..];
    SplitAtWord(s);
    assert Split(rest) == Split(tail) by {
      assert rest[0] == s[|w|];
    }
  }

  /** `split()` of a string that starts with a word. */
  lemma SplitAtWord(s: string)
    requires s != [] && !IsSpace(s[0])
    ensures Split(s) == [Word(s)] + Split(s[|Word(s)|..])
  {
  }

  /** What follows a whitespace character of a normal string is normal. */
  lemma NormalTail(s: string, k: nat)
    requires IsNormal(s) && 1 <= k < |s| && IsSpace(s[k - 1])
    ensures s[k..] != [] && IsNormal(s[k..])
  {
    var t := s[k..];
    assert t[0] == s[k] && t[|t| - 1] == s[|s| - 1];
    assert forall i :: 0 <= i < |t| ==> t[i] == s[k + i];
  }

  /** A normal string is left unchanged by `' '.join(s.split())`. */
  lemma {:induction false} NormalFixpoint(s: string)
    requires IsNormal(s)
    ensures Normalize(s) == s
    decreases |s|
  {
    if s != [] {
      var w := Word(s);
      if |w| == |s| {
        assert w == s;
        assert Split(s) == [w] + Split([]);
      } else {
        var tail := NormalStep(s);
        NormalFixpoint(tail);
        var ws := [w] + Split(tail);
        assert ws[1..] == Split(tail);
        assert Split(tail) != [];
        assert Join(ws) == w + " " + tail;
      }
    }
  }

  lemma {:induction false} NonSpaceAppend(a: string, b: string)
    ensures NonSpace(a + b) == NonSpace(a) + NonSpace(b)
    decreases |a|
  {
    if a != [] {
      assert (a + b)[0] == a[0];
      assert (a + b)[1..] == a[1..] + b;
      NonSpaceAppend(a[1..], b);
    } else {
      assert a + b == b;
    }
  }

  lemma {:induction false} NonSpaceOfWord(w: string)
    requires NoSpace(w)
    ensures NonSpace(w) == w
    decreases |w|
  {
    if w != [] {
      NonSpaceOfWord(w[1..]);
    }
  }

  lemma {:induction false} NonSpaceEmpty(s: string)
    ensures NonSpace(s) == [] <==> AllSpace(s)
    decreases |s|
  {
    if s != [] {
      NonSpaceEmpty(s[1..]);
      if AllSpace(s[1..]) && IsSpace(s[0]) {
        assert AllSpace(s) by {
          forall i | 0 < i < |s| ensures IsSpace(s[i]) { assert s[i] == s[1..][i - 1]; }
        }
      }
    }
  }

  lemma {:induction false} NonSpaceJoin(ws: seq<string>)
    requires ValidWords(ws)
    ensures NonSpace(Join(ws)) == Concat(ws)
  {
    if |ws| == 1 {
      NonSpaceOfWord(ws[0]);
      assert Concat(ws) == ws[0] + Concat([]);
    } else if |ws| >= 2 {
      var a, t := ws[0], Join(ws[1..]);
      assert Join(ws) == (a + " ") + t;
      assert Concat(ws) == a + Concat(ws[1..]);
      NonSpaceJoin(ws[1..]);
      NonSpaceAppend(a + " ", t);
      NonSpaceAppend(a, " ");
      NonSpaceOfWord(a);
      assert NonSpace(" ") == [];
      assert NonSpace(a + " ") == a;
    }
  }

  lemma {:induction false} NonSpaceSplit(s: string)
    ensures Concat(Split(s)) == NonSpace(s)
    decreases |s|
  {
    if s != [] {
      if IsSpace(s[0]) {
        NonSpaceSplit(s[1..]);
      } else {
        var w := Word(s);
        var rest := s[|w|..];
        assert s == w + rest;
        NonSpaceSplit(rest);
        NonSpaceAppend(w, rest);
        NonSpaceOfWord(w);
        var ws := [w] + Split(rest);
        assert ws[1..] == Split(rest);
      }
    }
  }

  /** `' '.join(s.split())` yields a normal string holding exactly the
      non-whitespace characters of `s` in their order; it is empty exactly
      when `s` is all whitespace, and applying it again changes nothing. */
  lemma NormalizeSpec(s: string)
    ensures IsNormal(Normalize(s))
    ensures NonSpace(Normalize(s)) == NonSpace(s)
    ensures Normalize(s) == [] <==> AllSpace(s)
    ensures Normalize(Normalize(s)) == Normalize(s)
    ensures Split(Normalize(s)) == Split(s)
  {
    JoinNormal(Split(s));
    NonSpaceJoin(Split(s));
    NonSpaceSplit(s);
    NonSpaceEmpty(s);
    NormalFixpoint(Normalize(s));
    var n := Normalize(s);
    if n != [] {
      assert n == [n[0]] + n[1..];
      NonSpaceAppend([n[0]], n[1..]);
    }
  }

  /** A word ends at the first whitespace character: what follows it does
      not matter once that character is there. */
  lemma {:induction false} WordBeforeSpace(a: string, t: string)
    requires |Word(a)| < |a| || (t != [] && IsSpace(t[0]))
    ensures Word(a + t) == Word(a)
    decreases |a|
  {
    if a == [] {
      assert a + t == t;
    } else {
      assert (a + t)[0] == a[0];
      if !IsSpace(a[0]) {
        assert (a + t)[1..] == a[1..] + t;
        WordBeforeSpace(a[1..], t);
      }
    }
  }

  /** A single word without whitespace splits into itself. */
  lemma SplitOfWord(w: string)
    requires w != [] && NoSpace(w)
    ensures Split(w) == [w]
  {
    assert Word(w) == w;
    SplitAtWord(w);
    assert w[|w|..] == [];
  }

  /** A word, a space, and more text split into the word and the words
      of the rest. */
  lemma SplitWordThen(w: string, t: string)
    requires w != [] && NoSpace(w)
    ensures Split(w + " " + t) == [w] + Split(t)
  {
    SplitOfWord(w);
    SplitAtSpace(w, ' ', t);
    assert w + " " + t == w + [' '] + t;
  }

  /** A whitespace character separates: `split()` of `a + c + b` is the
      words of `a` followed by the words of `b`. */
  lemma {:induction false} SplitAtSpace(a: string, c: char, b: string)
    requires IsSpace(c)
    ensures Split(a + [c] + b) == Split(a) + Split(b)
    decreases |a|
  {
    var s := a + [c] + b;
    if a == [] {
      assert s == [c] + b && s[1..] == b;
    } else if IsSpace(a[0]) {
      assert s[0] == a[0] && s[1..] == a[1..] + [c] + b;
      SplitAtSpace(a[1..], c, b);
    } else {
      assert s[0] == a[0] && s == a + ([c] + b);
      WordBeforeSpace(a, [c] + b);
      var w := Word(a);
      assert s[|w|..] == a[|w|..] + [c] + b;
      SplitAtSpace(a[|w|..], c, b);
      SplitAtWord(a);
      SplitAtWord(s);
    }
  }

  lemma {:induction false} WordAppendSpace(x: string, b: string)
    requires AllSpace(b)
    ensures Word(x + b) == Word(x)
    decreases |x|
  {
    if x == [] {
      assert x + b == b;
    } else {
      assert (x + b)[0] == x[0];
      assert (x + b)[1..] == x[1..] + b;
      WordAppendSpace(x[1..], b);
    }
  }

  lemma {:induction false} SplitDropsLeadingSpace(a: string, x: string)
    requires AllSpace(a)
    ensures Split(a + x) == Split(x)
    decreases |a|
  {
    if a == [] {
      assert a + x == x;
    } else {
      assert (a + x)[0] == a[0];
      assert (a + x)[1..] == a[1..] + x;
      SplitDropsLeadingSpace(a[1..], x);
    }
  }

  lemma {:induction false} SplitDropsTrailingSpace(x: string, b: string)
    requires AllSpace(b)
    ensures Split(x + b) == Split(x)
    decreases |x|
  {
    if x == [] {
      assert x + b == b + [];
      SplitDropsLeadingSpace(b, []);
    } else if IsSpace(x[0]) {
      assert (x + b)[0] == x[0];
      assert (x + b)[1..] == x[1..] + b;
      SplitDropsTrailingSpace(x[1..], b);
    } else {
      assert (x + b)[0] == x[0];
      WordAppendSpace(x, b);
      var w := Word(x);
      assert (x + b)[|w|..] == x[|w|..] + b;
      SplitDropsTrailingSpace(x[|w|..], b);
    }
  }

  /** Whitespace around a string does not change its `split()`. */
  lemma SplitIgnoresOuterSpace(a: string, x: string, b: string)
    requires AllSpace(a) && AllSpace(b)
    ensures Split(a + x + b) == Split(x)
  {
    assert a + x + b == a + (x + b);
    SplitDropsLeadingSpace(a, x + b);
    SplitDropsTrailingSpace(x, b);
  }

  // ---------------------------------------------------------------------
  // lower() and title()

  /** `s.lower()`: no upper-case letter is left, letters stay the same
      letters and everything else is unchanged. */
  function Lower(s: string): (r: string)
    ensures |r| == |s|
    ensures forall i :: 0 <= i < |s| ==>
      && !IsUpper(r[i])
      && IsLetter(r[i]) == IsLetter(s[i])
      && ToUpper(r[i]) == ToUpper(s[i])
      && (!IsLetter(s[i]) ==> r[i] == s[i])
  {
    seq(|s|, i requires 0 <= i < |s| => ToLower(s[i]))
  }

  /** CPython's title-casing loop: a character is upper-cased when the
      previous character was not cased and lower-cased when it was. */
  function TitleFrom(s: string, prevCased: bool): (r: string)
    ensures |r| == |s|
  {
    if s == [] then []
    else [if prevCased then ToLower(s[0]) else ToUpper(s[0])] + TitleFrom(s[1..], IsLetter(s[0]))
  }

  /** `s.title()`: exactly the characters at the start or after a
      non-letter (digits and apostrophes included) are upper-cased; the
      rest are lower-cased. */
  function Title(s: string): (r: string)
    ensures |r| == |s|
    ensures forall i :: 0 <= i < |s| ==>
      r[i] == if i > 0 && IsLetter(s[i - 1]) then ToLower(s[i]) else ToUpper(s[i])
  {
    TitleFromAt(s, false);
    TitleFrom(s, false)
  }

  lemma {:induction false} TitleFromAt(s: string, prevCased: bool)
    ensures forall i :: 0 <= i < |s| ==>
      TitleFrom(s, prevCased)[i] ==
        if (if i == 0 then prevCased else IsLetter(s[i - 1])) then ToLower(s[i]) else ToUpper(s[i])
    decreases |s|
  {
    if s != [] {
      TitleFromAt(s[1..], IsLetter(s[0]));
      forall i | 0 < i < |s|
        ensures TitleFrom(s, prevCased)[i] == TitleFrom(s[1..], IsLetter(s[0]))[i - 1]
      { }
    }
  }

  // ---------------------------------------------------------------------
  // endswith and str(n)

  predicate EndsWith(s: string, suffix: string) {
    |suffix| <= |s| && s[|s| - |suffix|..] == suffix
  }

  function DigitChar(d: nat): char
    requires d < 10
  {
    (d + 48) as char
  }

  /** `str(n)` for a natural number: decimal digits, no leading zero. */
  function Decimal(n: nat): (r: string)
    ensures |r| >= 1 && (forall i :: 0 <= i < |r| ==> '0' <= r[i] <= '9')
    ensures |r| == 1 <==> n < 10
  {
    if n < 10 then [DigitChar(n)] else Decimal(n / 10) + [DigitChar(n % 10)]
  }

  /** Distinct numbers print differently. */
  lemma {:induction false} DecimalInjective(a: nat, b: nat)
    requires Decimal(a) == Decimal(b)
    ensures a == b
    decreases a
  {
    if a >= 10 && b >= 10 {
      var da, db := Decimal(a), Decimal(b);
      assert da[..|da| - 1] == Decimal(a / 10);
      assert db[..|db| - 1] == Decimal(b / 10);
      assert DigitChar(a % 10) == da[|da| - 1] == db[|db| - 1] == DigitChar(b % 10);
      DecimalInjective(a / 10, b / 10);
    }
  }
}
