/** File paths as the renaming code handles them: a directory and a base
    name (`os.path.dirname`, `os.path.basename`, `os.path.join`),
    `os.path.splitext`, and the numbered names `"stem (k)ext"` tried when
    a name is taken. The file system is a finite set of paths:
    `os.path.exists(p)` is `p in fs`. */
module Paths {
  import opened PyText

  /** `os.path.join(dir, name)`. */
  datatype Path = Path(dir: string, name: string)

  /** The index of the last '.' of `s`, or -1 when there is none. */
  function LastDot(s: string): (r: int)
    ensures -1 <= r < |s|
    ensures r >= 0 ==> s[r] == '.'
    ensures forall j :: r < j < |s| ==> s[j] != '.'
  {
    if s == [] then -1 else if s[|s| - 1] == '.' then |s| - 1 else LastDot(s[..|s| - 1])
  }

  predicate AllDots(s: string) { forall i :: 0 <= i < |s| ==> s[i] == '.' }

  /** `os.path.splitext` of a base name: the extension runs from the last
      '.', and is empty when there is no dot or when only dots precede
      the last one (".bashrc", "..."). */
  function SplitExt(name: string): (r: (string, string))
    ensures r.0 + r.1 == name
    ensures r.1 != [] ==> r.1[0] == '.' && '.' !in r.1[1..] && !AllDots(r.0)
    ensures r.1 == [] ==> forall i :: 0 <= i < |name| && name[i] == '.' ==> AllDots(name[..i])
  {
    var d := LastDot(name);
    if d >= 0 && !AllDots(name[..d]) then (name[..d], name[d..]) else (name, "")
  }

  /** A name built as stem + extension splits back into the two. */
  lemma SplitExtOf(stem: string, ext: string)
    requires |ext| >= 1 && ext[0] == '.' && '.' !in ext[1..] && !AllDots(stem)
    ensures SplitExt(stem + ext) == (stem, ext)
  {
    var name := stem + ext;
    var d := LastDot(name);
    assert name[|stem|] == '.';
    forall j | |stem| < j < |name| ensures name[j] != '.' {
      assert name[j] == ext[1..][j - |stem| - 1];
    }
    assert d == |stem|;
    assert name[..d] == stem && name[d..] == ext;
  }

  /** The name `f"{stem} ({k}){ext}"` in directory `dir`: it stays in the
      directory, starts with the stem, ends with the extension, and has
      room for exactly the three characters `" ()"` and the digits of k
      in between. */
  function Numbered(dir: string, stem: string, ext: string, k: nat): (p: Path)
    ensures p.dir == dir && stem <= p.name && EndsWith(p.name, ext)
    ensures |p.name| == |stem| + 3 + |Decimal(k)| + |ext|
  {
    var name := stem + " (" + Decimal(k) + ")" + ext;
    assert name == stem + (" (" + Decimal(k) + ")" + ext);
    assert name[|name| - |ext|..] == ext;
    Path(dir, name)
  }

  /** The first two numbered names, spelt out. */
  lemma NumberedOneTwo(dir: string, stem: string, ext: string)
    ensures Numbered(dir, stem, ext, 1) == Path(dir, stem + (" (1)" + ext))
    ensures Numbered(dir, stem, ext, 2) == Path(dir, stem + (" (2)" + ext))
  {
    assert Decimal(1) == "1" && Decimal(2) == "2";
    assert stem + " (" + "1" + ")" + ext == stem + (" (1)" + ext);
    assert stem + " (" + "2" + ")" + ext == stem + (" (2)" + ext);
  }

  /** Different counters give different names. */
  lemma NumberedInjective(dir: string, stem: string, ext: string, j: nat, k: nat)
    requires Numbered(dir, stem, ext, j) == Numbered(dir, stem, ext, k)
    ensures j == k
  {
    var a := stem + " (";
    var dj, dk := Decimal(j), Decimal(k);
    var nj, nk := a + dj + ")" + ext, a + dk + ")" + ext;
    assert nj == Numbered(dir, stem, ext, j).name && nk == Numbered(dir, stem, ext, k).name;
    assert |dj| == |dk|;
    assert nj[|a|..|a| + |dj|] == dj;
    assert nk[|a|..|a| + |dk|] == dk;
    DecimalInjective(j, k);
  }

  /** A finite file system holds at most |fs| of the numbered names, so
      the counter loops must find a free one by k = |fs| + 1. */
  lemma {:induction false} OccupiedBound(fs: set<Path>, dir: string, stem: string, ext: string, n: nat)
    requires forall j :: 1 <= j <= n ==> Numbered(dir, stem, ext, j) in fs
    ensures n <= |fs|
    decreases n
  {
    if n > 0 {
      var c := Numbered(dir, stem, ext, n);
      var rest := fs - {c};
      forall j | 1 <= j <= n - 1 ensures Numbered(dir, stem, ext, j) in rest {
        if Numbered(dir, stem, ext, j) == c {
          NumberedInjective(dir, stem, ext, j, n);
        }
      }
      OccupiedBound(rest, dir, stem, ext, n - 1);
    }
  }

  /** The least counter `k >= from` whose numbered name is free, given
      that every counter below `from` is taken. */
  function FreeCounter(fs: set<Path>, dir: string, stem: string, ext: string, from: nat): (k: nat)
    requires 1 <= from
    requires forall j :: 1 <= j < from ==> Numbered(dir, stem, ext, j) in fs
    ensures from <= k
    ensures Numbered(dir, stem, ext, k) !in fs
    ensures forall j :: 1 <= j < k ==> Numbered(dir, stem, ext, j) in fs
    decreases |fs| + 1 - from
  {
    if Numbered(dir, stem, ext, from) !in fs then from
    else
      OccupiedBound(fs, dir, stem, ext, from);
      FreeCounter(fs, dir, stem, ext, from + 1)
  }

  /** Any free counter with every smaller one taken is the one `FreeCounter` finds. */
  lemma FreeCounterIsLeast(fs: set<Path>, dir: string, stem: string, ext: string, n: nat)
    requires 1 <= n
    requires forall j :: 1 <= j < n ==> Numbered(dir, stem, ext, j) in fs
    requires Numbered(dir, stem, ext, n) !in fs
    ensures FreeCounter(fs, dir, stem, ext, 1) == n
  {
  }

  /** Once the chosen numbered name is taken, the next search settles on a
      larger counter. */
  lemma CounterAdvances(fs: set<Path>, dir: string, stem: string, ext: string)
    ensures var k := FreeCounter(fs, dir, stem, ext, 1);
      FreeCounter(fs + {Numbered(dir, stem, ext, k)}, dir, stem, ext, 1) > k
  {
  }

  /** Where the collision loops end: `first` when it is free, otherwise
      `"stem (k)ext"` for the least k >= 1 that is free. */
  function FreeTarget(fs: set<Path>, first: Path, dir: string, stem: string, ext: string): (p: Path)
    ensures p !in fs
    ensures first !in fs ==> p == first
    ensures first in fs ==> p.dir == dir && EndsWith(p.name, ext) && stem <= p.name
    ensures first in fs ==> exists k :: 1 <= k && p == Numbered(dir, stem, ext, k) &&
                                        forall j :: 1 <= j < k ==> Numbered(dir, stem, ext, j) in fs
  {
    if first !in fs then first
    else
      var n := Numbered(dir, stem, ext, FreeCounter(fs, dir, stem, ext, 1));
      assert n.name == (stem + " (" + Decimal(FreeCounter(fs, dir, stem, ext, 1)) + ")") + ext;
      n
  }
}
