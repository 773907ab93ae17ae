/**
 * Dependency detection: the top-level module names named by
 * `import X` / `from X import ...` lines, minus the standard library,
 * sorted and mapped to installable package names.
 */
module Imports {
  import opened Wrappers
  import opened Text

  /** Import names whose package is published under another name. */
  const ImportToPackage: map<string, string> := map[
    "cv2" := "opencv-python",
    "PIL" := "Pillow",
    "sklearn" := "scikit-learn",
    "skimage" := "scikit-image",
    "attr" := "attrs",
    "yaml" := "pyyaml",
    "bs4" := "beautifulsoup4",
    "gi" := "PyGObject",
    "wx" := "wxPython",
    "Crypto" := "pycryptodome",
    "serial" := "pyserial",
    "usb" := "pyusb",
    "Bio" := "biopython",
    "cv" := "opencv-python",
    "dotenv" := "python-dotenv",
    "jose" := "python-jose",
    "magic" := "python-magic",
    "dateutil" := "python-dateutil",
    "git" := "GitPython"
  ]

  /** `IMPORT_TO_PACKAGE.get(mod, mod)`. */
  function PackageFor(module_: string): string {
    if module_ in ImportToPackage then ImportToPackage[module_] else module_
  }

  /** The end of the run of characters satisfying `p` that starts at `i`. */
  function RunEnd(s: string, i: nat, p: char -> bool): (e: nat)
    requires i <= |s|
    ensures i <= e <= |s|
    ensures forall k :: i <= k < e ==> p(s[k])
    ensures e < |s| ==> !p(s[e])
    decreases |s| - i
  {
    if i < |s| && p(s[i]) then RunEnd(s, i + 1, p) else i
  }

  /** The keyword a match at `i` starts with. */
  function Keyword(s: string, i: nat): string {
    if HasPrefixAt(s, i, "import") then "import" else "from"
  }

  /** The import pattern tried at offset `i`: at a line start, the word
      `import` or `from`, one or more whitespace characters (newlines
      included), then the longest run of word characters. On a match,
      the captured name and the offset where the match ends. */
  function ImportMatchAt(s: string, i: nat): (m: Option<(string, nat)>)
    requires i <= |s|
    ensures m.Some? ==> AtLineStart(s, i) && (HasPrefixAt(s, i, "import") || HasPrefixAt(s, i, "from"))
    ensures m.Some? ==> i < m.value.1 <= |s| && |m.value.0| > 0
    ensures m.Some? ==> forall k :: 0 <= k < |m.value.0| ==> IsWordChar(m.value.0[k])
  {
    if !AtLineStart(s, i) then None
    else
      var keywordEnd :=
        if HasPrefixAt(s, i, "import") then i + 6
        else if HasPrefixAt(s, i, "from") then i + 4
        else i;
      if keywordEnd == i then None
      else
        var nameStart := RunEnd(s, keywordEnd, IsSpace);
        var nameEnd := RunEnd(s, nameStart, IsWordChar);
        if nameStart == keywordEnd || nameEnd == nameStart then None
        else Some((s[nameStart..nameEnd], nameEnd))
  }

  /** What a match consists of: the keyword, a non-empty whitespace
      run, and the captured name, which is the whole word run that
      follows (the match ends where the word characters stop). */
  lemma ImportMatchShape(s: string, i: nat)
    requires i <= |s| && ImportMatchAt(s, i).Some?
    ensures var m := ImportMatchAt(s, i).value;
      var kw := Keyword(s, i);
      var nameStart := m.1 - |m.0|;
      && HasPrefixAt(s, i, kw)
      && i + |kw| < nameStart
      && (forall k :: i + |kw| <= k < nameStart ==> IsSpace(s[k]))
      && s[nameStart..m.1] == m.0
      && (m.1 < |s| ==> !IsWordChar(s[m.1]))
  {
    var kw := Keyword(s, i);
    var nameStart := RunEnd(s, i + |kw|, IsSpace);
    var nameEnd := RunEnd(s, nameStart, IsWordChar);
    assert ImportMatchAt(s, i) == Some((s[nameStart..nameEnd], nameEnd));
  }

  lemma {:induction false} RunEndStops(s: string, i: nat, e: nat, p: char -> bool)
    requires i <= e <= |s|
    requires forall k :: i <= k < e ==> p(s[k])
    requires e == |s| || !p(s[e])
    ensures RunEnd(s, i, p) == e
    decreases e - i
  {
    if i < e {
      RunEndStops(s, i + 1, e, p);
    }
  }

  /** The converse of `ImportMatchShape`: a line start, a keyword, a
      non-empty whitespace run up to `n` and a maximal word run from `n`
      to `e` form a match capturing that word. */
  lemma ImportAt(s: string, i: nat, kw: string, n: nat, e: nat)
    requires i <= |s| && AtLineStart(s, i)
    requires kw == "import" || kw == "from"
    requires HasPrefixAt(s, i, kw)
    requires i + |kw| < n < e <= |s|
    requires forall k :: i + |kw| <= k < n ==> IsSpace(s[k])
    requires forall k :: n <= k < e ==> IsWordChar(s[k])
    requires e == |s| || !IsWordChar(s[e])
    ensures ImportMatchAt(s, i) == Some((s[n..e], e))
  {
    if kw == "from" {
      PrefixChar(s, i, kw, 0);
      if HasPrefixAt(s, i, "import") {
        PrefixChar(s, i, "import", 0);
      }
    }
    assert HasPrefixAt(s, i, "import") <==> kw == "import";
    RunEndStops(s, i + |kw|, n, IsSpace);
    RunEndStops(s, n, e, IsWordChar);
  }

  /** A line of the text starts at `k` with `import` or `from`. */
  predicate KeywordLineAt(s: string, k: nat) {
    k <= |s| && AtLineStart(s, k) && (HasPrefixAt(s, k, "import") || HasPrefixAt(s, k, "from"))
  }

  /** Offsets where no line starts with a keyword are passed over one
      by one. */
  lemma CapturesSkip(s: string, i: nat, j: nat)
    requires i <= j <= |s|
    requires forall k :: i <= k < j ==> !KeywordLineAt(s, k)
    ensures CapturesFrom(s, i) == CapturesFrom(s, j)
  {
    var f := (k: nat) => if k <= |s| then CapturesFrom(s, k) else [];
    CapturesSteps(s, i, j);
    assert forall k :: i <= k < j ==> f(k) == f(k + 1);
    ChainEqual(f, i, j);
  }

  lemma CapturesSteps(s: string, i: nat, j: nat)
    requires i <= j <= |s|
    requires forall k :: i <= k < j ==> !KeywordLineAt(s, k)
    ensures forall k :: i <= k < j ==> CapturesFrom(s, k) == CapturesFrom(s, k + 1)
  {
    forall k | i <= k < j
      ensures CapturesFrom(s, k) == CapturesFrom(s, k + 1)
    {
      CapturesStep(s, k);
    }
  }

  /** Equal neighbours all the way make the ends equal. */
  lemma {:induction false} ChainEqual(f: nat -> seq<string>, i: nat, j: nat)
    requires i <= j
    requires forall k :: i <= k < j ==> f(k) == f(k + 1)
    ensures f(i) == f(j)
    decreases j - i
  {
    if i < j {
      ChainEqual(f, i + 1, j);
    }
  }

  lemma CapturesStep(s: string, i: nat)
    requires i < |s| && !KeywordLineAt(s, i)
    ensures CapturesFrom(s, i) == CapturesFrom(s, i + 1)
  {
    assert ImportMatchAt(s, i).None?;
  }

  /** `finditer` over the import pattern from offset `i`: the captured
      names in order, each search resuming where the last match ended. */
  function CapturesFrom(s: string, i: nat): seq<string>
    requires i <= |s|
    decreases |s| - i
  {
    match ImportMatchAt(s, i)
    case Some((name, e)) => [name] + CapturesFrom(s, e)
    case None => if i == |s| then [] else CapturesFrom(s, i + 1)
  }

  /** The set `found_modules`. */
  function FoundModules(source: string): set<string> {
    set name | name in CapturesFrom(source, 0)
  }

  predicate StrictlySorted(xs: seq<string>) {
    forall j, k :: 0 <= j < k < |xs| ==> LexLess(xs[j], xs[k])
  }

  function Elems(xs: seq<string>): set<string> {
    set x | x in xs
  }

  /** Inserts `x` into a strictly sorted list unless it is already there. */
  function InsertSorted(x: string, xs: seq<string>): (r: seq<string>)
    requires StrictlySorted(xs)
    ensures StrictlySorted(r)
    ensures Elems(r) == Elems(xs) + {x}
  {
    if |xs| == 0 then [x]
    else if x == xs[0] then
      ElemsCons(xs);
      xs
    else if LexLess(x, xs[0]) then
      LexLessTransitiveAll(x, xs);
      ConsSorted(x, xs);
      [x] + xs
    else
      LexLessTotal(x, xs[0]);
      var rest := InsertSorted(x, xs[1..]);
      HeadBelowInsert(x, xs, rest);
      ElemsCons(xs);
      ConsSorted(xs[0], rest);
      [xs[0]] + rest
  }

  /** Putting an element below all of a sorted list in front keeps it sorted. */
  lemma ConsSorted(h: string, rest: seq<string>)
    requires StrictlySorted(rest)
    requires forall k :: 0 <= k < |rest| ==> LexLess(h, rest[k])
    ensures StrictlySorted([h] + rest)
    ensures Elems([h] + rest) == {h} + Elems(rest)
  {
    var xs := [h] + rest;
    assert xs[1..] == rest;
    ElemsCons(xs);
    forall j, k | 0 <= j < k < |xs|
      ensures LexLess(xs[j], xs[k])
    {
      assert xs[k] == rest[k - 1];
      if j > 0 {
        assert xs[j] == rest[j - 1];
      }
    }
  }

  /** The head of a sorted list lies below everything inserting a larger
      element into its tail gives. */
  lemma HeadBelowInsert(x: string, xs: seq<string>, rest: seq<string>)
    requires StrictlySorted(xs) && |xs| > 0 && LexLess(xs[0], x)
    requires Elems(rest) == Elems(xs[1..]) + {x}
    ensures forall k :: 0 <= k < |rest| ==> LexLess(xs[0], rest[k])
  {
    forall k | 0 <= k < |rest|
      ensures LexLess(xs[0], rest[k])
    {
      assert rest[k] in Elems(rest);
      if rest[k] != x {
        var j :| 0 <= j < |xs[1..]| && xs[1..][j] == rest[k];
        assert xs[1..][j] == xs[j + 1];
      }
    }
  }

  /** An element smaller than the head of a sorted list is smaller than
      all of it. */
  lemma LexLessTransitiveAll(x: string, xs: seq<string>)
    requires StrictlySorted(xs) && |xs| > 0 && LexLess(x, xs[0])
    ensures forall k :: 0 <= k < |xs| ==> LexLess(x, xs[k])
  {
    forall k | 0 < k < |xs| ensures LexLess(x, xs[k]) {
      LexLessTransitive(x, xs[0], xs[k]);
    }
  }

  lemma ElemsCons(xs: seq<string>)
    requires |xs| > 0
    ensures Elems(xs) == {xs[0]} + Elems(xs[1..])
  {
    assert xs == [xs[0]] + xs[1..];
  }

  lemma ElemsEmpty(xs: seq<string>)
    ensures Elems(xs) == {} <==> |xs| == 0
  {
    if |xs| > 0 {
      assert xs[0] in Elems(xs);
    }
  }

  /** `sorted(set(xs))`: the distinct elements in ascending order. */
  function SortDistinct(xs: seq<string>): (r: seq<string>)
    ensures StrictlySorted(r)
    ensures Elems(r) == Elems(xs)
  {
    if |xs| == 0 then []
    else
      assert Elems(xs) == Elems(xs[..|xs| - 1]) + {xs[|xs| - 1]} by {
        assert xs == xs[..|xs| - 1] + [xs[|xs| - 1]];
      }
      InsertSorted(xs[|xs| - 1], SortDistinct(xs[..|xs| - 1]))
  }

  /** Keeps the names that are not in the standard-library set. */
  function Without(xs: seq<string>, stdlib: set<string>): (r: seq<string>)
    requires StrictlySorted(xs)
    ensures StrictlySorted(r)
    ensures Elems(r) == Elems(xs) - stdlib
  {
    if |xs| == 0 then []
    else
      var rest := Without(xs[1..], stdlib);
      ElemsCons(xs);
      if xs[0] in stdlib then rest
      else
        assert forall k :: 0 <= k < |rest| ==> LexLess(xs[0], rest[k]) by {
          forall k | 0 <= k < |rest|
            ensures LexLess(xs[0], rest[k])
          {
            assert rest[k] in Elems(rest);
            var j :| 0 <= j < |xs[1..]| && xs[1..][j] == rest[k];
            assert xs[1..][j] == xs[j + 1];
          }
        }
        ConsSorted(xs[0], rest);
        [xs[0]] + rest
  }

  /** The third-party module names of `source`, in ascending order. */
  function ThirdPartyModules(source: string, stdlib: set<string>): (mods: seq<string>)
    ensures StrictlySorted(mods)
    ensures Elems(mods) == FoundModules(source) - stdlib
  {
    Without(SortDistinct(CapturesFrom(source, 0)), stdlib)
  }

  /** `detect_third_party_imports`; `stdlib` stands for
      `sys.stdlib_module_names`. */
  function DetectThirdPartyImports(source: string, stdlib: set<string>): (packages: seq<string>)
    ensures var mods := ThirdPartyModules(source, stdlib);
      |packages| == |mods| && forall k :: 0 <= k < |mods| ==> packages[k] == PackageFor(mods[k])
  {
    var mods := ThirdPartyModules(source, stdlib);
    seq(|mods|, k requires 0 <= k < |mods| => PackageFor(mods[k]))
  }

  /** The first line of the text that starts with `import` or `from`,
      whitespace and a word contributes that word as a module name, and,
      unless it is a standard-library module, its package is detected. */
  lemma FirstImportDetected(s: string, i: nat, kw: string, n: nat, e: nat, stdlib: set<string>)
    requires i <= |s| && AtLineStart(s, i)
    requires kw == "import" || kw == "from"
    requires HasPrefixAt(s, i, kw)
    requires i + |kw| < n < e <= |s|
    requires forall k :: i + |kw| <= k < n ==> IsSpace(s[k])
    requires forall k :: n <= k < e ==> IsWordChar(s[k])
    requires e == |s| || !IsWordChar(s[e])
    requires forall k :: 0 <= k < i ==> !KeywordLineAt(s, k)
    ensures s[n..e] in FoundModules(s)
    ensures s[n..e] !in stdlib ==> PackageFor(s[n..e]) in DetectThirdPartyImports(s, stdlib)
  {
    ImportAt(s, i, kw, n, e);
    FirstMatchFound(s, i);
    FoundIsDetected(s, s[n..e], stdlib);
  }

  /** The first match of the scan is captured. */
  lemma FirstMatchFound(s: string, i: nat)
    requires i <= |s| && ImportMatchAt(s, i).Some?
    requires forall k :: 0 <= k < i ==> !KeywordLineAt(s, k)
    ensures ImportMatchAt(s, i).value.0 in FoundModules(s)
  {
    CapturesSkip(s, 0, i);
    var m := ImportMatchAt(s, i).value;
    assert CapturesFrom(s, i) == [m.0] + CapturesFrom(s, m.1);
    assert m.0 in CapturesFrom(s, 0);
  }

  /** A found module outside the standard library yields its package. */
  lemma FoundIsDetected(s: string, name: string, stdlib: set<string>)
    requires name in FoundModules(s)
    ensures name !in stdlib ==> PackageFor(name) in DetectThirdPartyImports(s, stdlib)
  {
    if name !in stdlib {
      var mods := ThirdPartyModules(s, stdlib);
      assert name in Elems(mods);
      var j :| 0 <= j < |mods| && mods[j] == name;
      assert DetectThirdPartyImports(s, stdlib)[j] == PackageFor(name);
    }
  }

  /** A strictly sorted list is determined by its elements: the module
      list is the unique ascending enumeration of the third-party names. */
  lemma {:induction false} SortedUnique(xs: seq<string>, ys: seq<string>)
    requires StrictlySorted(xs) && StrictlySorted(ys) && Elems(xs) == Elems(ys)
    ensures xs == ys
  {
    ElemsEmpty(xs);
    ElemsEmpty(ys);
    if |xs| > 0 {
      assert xs[0] in Elems(ys) && ys[0] in Elems(xs);
      if xs[0] != ys[0] {
        var j :| 0 <= j < |ys| && ys[j] == xs[0];
        var k :| 0 <= k < |xs| && xs[k] == ys[0];
        assert j > 0 && k > 0;
        LexLessTransitive(ys[0], xs[0], ys[0]);
        LexLessIrreflexive(ys[0]);
      }
      assert Elems(xs[1..]) == Elems(xs) - {xs[0]} by {
        forall j | 0 < j < |xs| ensures xs[j] != xs[0] {
          LexLessIrreflexive(xs[0]);
        }
      }
      assert Elems(ys[1..]) == Elems(ys) - {ys[0]} by {
        forall j | 0 < j < |ys| ensures ys[j] != ys[0] {
          LexLessIrreflexive(ys[0]);
        }
      }
      SortedUnique(xs[1..], ys[1..]);
    }
  }

  /** Both OpenCV import names map to the same package. */
  lemma OpenCvNames()
    ensures PackageFor("cv") == "opencv-python" && PackageFor("cv2") == "opencv-python"
  {
  }

  /** Deduplication happens before mapping: `cv` and `cv2` are distinct
      modules, so when both are imported the package `opencv-python`
      is listed twice. */
  lemma DedupBeforeMapping(source: string, stdlib: set<string>)
    requires "cv" in FoundModules(source) && "cv2" in FoundModules(source)
    requires "cv" !in stdlib && "cv2" !in stdlib
    ensures var packages := DetectThirdPartyImports(source, stdlib);
      exists j, k :: 0 <= j < k < |packages| && packages[j] == "opencv-python" && packages[k] == "opencv-python"
  {
    var mods := ThirdPartyModules(source, stdlib);
    assert "cv" in Elems(mods) && "cv2" in Elems(mods);
    var j :| 0 <= j < |mods| && mods[j] == "cv";
    var k :| 0 <= k < |mods| && mods[k] == "cv2";
    var packages := DetectThirdPartyImports(source, stdlib);
    OpenCvNames();
    assert packages[j] == "opencv-python" && packages[k] == "opencv-python";
    assert !LexLess("cv2", "cv") && "cv2" != "cv";
    assert j < k;
  }
}
