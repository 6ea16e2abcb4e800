/**
 * `ensure_unique_filename`: pick the first of `path`, `{base}_1{ext}`,
 * `{base}_2{ext}`, ... that does not exist yet, where `(base, ext)` is
 * `os.path.splitext(path)`, computed once before the search. Which paths
 * exist is given as a finite set.
 */
module UniqueName {
  import opened PyStr
  import opened PyPath

  /** The f-string `f"{base}_{n}{ext}"`. */
  function Suffixed(base: string, ext: string, n: nat): (r: string)
    ensures |r| > |base| + 1 + |ext|
  {
    base + "_" + Decimal(n) + ext
  }

  /** `{base}_{n}{ext}` starts with `{base}_`, ends with `{ext}`, and between them stand decimal digits that read back as `n`. */
  lemma SuffixedReadsBack(base: string, ext: string, n: nat)
    ensures var r := Suffixed(base, ext, n);
      r[..|base| + 1] == base + "_" && r[|r| - |ext|..] == ext
    ensures var r := Suffixed(base, ext, n);
      var digits := r[|base| + 1..|r| - |ext|];
      (forall k :: 0 <= k < |digits| ==> '0' <= digits[k] <= '9') && DecimalValue(digits) == n
  {
    var r := Suffixed(base, ext, n);
    assert r[|base| + 1..|r| - |ext|] == Decimal(n);
    DecimalRoundTrip(n);
  }

  /** The `n`-th path tried for `path` split as `split`: the path itself for `n == 0`, else `{base}_{n}{ext}`. */
  function Candidate(path: string, split: (string, string), n: nat): (r: string)
    ensures split.0 + split.1 == path ==> (r == path <==> n == 0)
  {
    if n == 0 then path else Suffixed(split.0, split.1, n)
  }

  /** Once the path is split into its two parts, the tried paths are pairwise different. */
  lemma CandidateInjective(path: string, split: (string, string), m: nat, n: nat)
    requires split.0 + split.1 == path
    requires Candidate(path, split, m) == Candidate(path, split, n)
    ensures m == n
  {
    var (base, ext) := split;
    if m != 0 && n != 0 {
      var s := Candidate(path, split, m);
      var dm, dn := Decimal(m), Decimal(n);
      assert s == base + "_" + dm + ext == base + "_" + dn + ext;
      assert |dm| == |dn|;
      var lo := |base| + 1;
      assert s[lo..lo + |dm|] == dm;
      assert s[lo..lo + |dn|] == dn;
      DecimalInjective(m, n);
    }
  }

  /** The paths tried before the `n`-th one. */
  ghost function Tried(path: string, split: (string, string), n: nat): set<string>
  {
    if n == 0 then {} else Tried(path, split, n - 1) + {Candidate(path, split, n - 1)}
  }

  /** A path tried at step `m` was not among those tried before step `n <= m`. */
  lemma {:induction false} NotYetTried(path: string, split: (string, string), n: nat, m: nat)
    requires split.0 + split.1 == path
    requires n <= m
    ensures Candidate(path, split, m) !in Tried(path, split, n)
  {
    if n > 0 {
      NotYetTried(path, split, n - 1, m);
      if Candidate(path, split, m) == Candidate(path, split, n - 1) {
        CandidateInjective(path, split, m, n - 1);
      }
    }
  }

  /** When the first `n` candidates exist, so does every path tried before step `n`. */
  lemma {:induction false} TriedExist(path: string, split: (string, string), n: nat, existing: set<string>)
    requires forall j :: 0 <= j < n ==> Candidate(path, split, j) in existing
    ensures Tried(path, split, n) <= existing
  {
    if n > 0 {
      TriedExist(path, split, n - 1, existing);
    }
  }

  /** Trying an existing candidate leaves strictly fewer existing paths untried. */
  lemma TriedShrinks(path: string, split: (string, string), n: nat, existing: set<string>)
    requires split.0 + split.1 == path
    requires forall j :: 0 <= j < n ==> Candidate(path, split, j) in existing
    requires Candidate(path, split, n) in existing
    ensures existing - Tried(path, split, n + 1) < existing - Tried(path, split, n)
  {
    NotYetTried(path, split, n, n);
    TriedExist(path, split, n, existing);
    assert Candidate(path, split, n) in existing - Tried(path, split, n);
  }

  /**
   * The index of the first candidate from step `n` on that does not exist. It
   * exists because `existing` is finite and the candidates are all different.
   */
  function FreeIndexFrom(path: string, split: (string, string), existing: set<string>, n: nat): (k: nat)
    requires split.0 + split.1 == path
    requires forall j :: 0 <= j < n ==> Candidate(path, split, j) in existing
    ensures n <= k
    ensures Candidate(path, split, k) !in existing
    ensures forall j :: n <= j < k ==> Candidate(path, split, j) in existing
    decreases existing - Tried(path, split, n)
  {
    if Candidate(path, split, n) !in existing then n
    else
      TriedShrinks(path, split, n, existing);
      FreeIndexFrom(path, split, existing, n + 1)
  }

  /** The step at which `ensure_unique_filename` stops. */
  function UniqueIndex(path: string, existing: set<string>): (k: nat)
    ensures Candidate(path, SplitExt(path), k) !in existing
    ensures forall j :: 0 <= j < k ==> Candidate(path, SplitExt(path), j) in existing
  {
    FreeIndexFrom(path, SplitExt(path), existing, 0)
  }

  /** What `ensure_unique_filename(path)` returns when exactly the paths in `existing` exist. */
  function UniqueFilename(path: string, existing: set<string>): (r: string)
    ensures r !in existing
    ensures path !in existing ==> r == path
  {
    Candidate(path, SplitExt(path), UniqueIndex(path, existing))
  }

  /**
   * The result is the first candidate that does not exist: when the first `n`
   * candidates exist and the `n`-th does not, the result is the `n`-th; so with
   * `N` colliding names the suffix is `_N`.
   */
  lemma UniqueFilenameIsFirst(path: string, existing: set<string>, n: nat)
    requires forall j :: 0 <= j < n ==> Candidate(path, SplitExt(path), j) in existing
    requires Candidate(path, SplitExt(path), n) !in existing
    ensures UniqueIndex(path, existing) == n
    ensures UniqueFilename(path, existing) == Candidate(path, SplitExt(path), n)
  {
  }

  /**
   * The `n`-th candidate for `prefix + name + ext`, where the prefix ends at a
   * '/', the name holds none and the extension has a single leading '.': the
   * suffix goes between the name and the extension when the name has a
   * character other than '.', and after the whole path otherwise.
   */
  lemma CandidateOfParts(prefix: string, name: string, ext: string, n: nat)
    requires prefix == [] || prefix[|prefix| - 1] == '/'
    requires '/' !in name
    requires |ext| >= 1 && ext[0] == '.' && '.' !in ext[1..] && '/' !in ext
    requires n >= 1
    ensures var p := prefix + name + ext;
      Candidate(p, SplitExt(p), n) == if HasNonDot(name) then Suffixed(prefix + name, ext, n) else Suffixed(p, [], n)
  {
    SplitExtOfParts(prefix, name, ext);
  }

  /** The same for a path built as `join(dir, name + ext)`. */
  lemma CandidateOfJoined(dir: string, name: string, ext: string, n: nat)
    requires '/' !in name
    requires |ext| >= 1 && ext[0] == '.' && '.' !in ext[1..] && '/' !in ext
    requires n >= 1
    ensures var p := Join(dir, name + ext);
      Candidate(p, SplitExt(p), n) == if HasNonDot(name) then Suffixed(Join(dir, name), ext, n) else Suffixed(p, [], n)
  {
    JoinRelative(dir, name, ext);
    JoinRelative(dir, name, []);
    assert name + [] == name;
    CandidateOfParts(DirPrefix(dir), name, ext, n);
  }

  /** "out/video.mp4" is the directory prefix "out/", the name "video" and the extension ".mp4". */
  lemma ExampleParts(prefix: string, name: string, ext: string)
    requires prefix == "out/" && name == "video" && ext == ".mp4"
    ensures prefix[|prefix| - 1] == '/' && '/' !in name && HasNonDot(name)
    ensures |ext| >= 1 && ext[0] == '.' && '.' !in ext[1..] && '/' !in ext
    ensures prefix + name + ext == "out/video.mp4" && prefix + name == "out/video"
  {
    assert ext[1..] == "mp4";
    assert name[0] != '.';
  }

  /** `splitext("out/video.mp4") == ("out/video", ".mp4")`. */
  lemma SplitExtExample(p: string)
    requires p == "out/video.mp4"
    ensures SplitExt(p) == ("out/video", ".mp4")
  {
    var prefix, name, ext := "out/", "video", ".mp4";
    ExampleParts(prefix, name, ext);
    SplitExtOfParts(prefix, name, ext);
  }

  /** The first two suffixed names of "out/video.mp4". */
  lemma SuffixedExample()
    ensures Suffixed("out/video", ".mp4", 1) == "out/video_1.mp4"
    ensures Suffixed("out/video", ".mp4", 2) == "out/video_2.mp4"
  {
    assert Decimal(1) == "1" && Decimal(2) == "2";
  }

  /** With "out/video.mp4" and "out/video_1.mp4" taken, the first two candidates exist and the third does not. */
  lemma ExampleCollisions(p: string, split: (string, string), existing: set<string>)
    requires p == "out/video.mp4" && split == ("out/video", ".mp4")
    requires existing == {"out/video.mp4", "out/video_1.mp4"}
    ensures forall j :: 0 <= j < 2 ==> Candidate(p, split, j) in existing
    ensures Candidate(p, split, 2) == "out/video_2.mp4" && "out/video_2.mp4" !in existing
  {
    SuffixedExample();
    var free := "out/video_2.mp4";
    assert free != "out/video.mp4" by { assert |free| != |"out/video.mp4"|; }
    assert free != "out/video_1.mp4" by { assert free[10] != "out/video_1.mp4"[10]; }
    forall j | 0 <= j < 2 ensures Candidate(p, split, j) in existing {
      if j == 1 {
        assert Candidate(p, split, 1) == "out/video_1.mp4";
      }
    }
  }

  /** With "out/video.mp4" and "out/video_1.mp4" taken, the name chosen is "out/video_2.mp4". */
  lemma UniqueFilenameExample(p: string, existing: set<string>)
    requires p == "out/video.mp4"
    requires existing == {"out/video.mp4", "out/video_1.mp4"}
    ensures UniqueFilename(p, existing) == "out/video_2.mp4"
  {
    SplitExtExample(p);
    ExampleCollisions(p, SplitExt(p), existing);
    UniqueFilenameIsFirst(p, existing, 2);
  }

  /** `ensure_unique_filename`: try the candidates in turn while the current one exists. */
  method EnsureUniqueFilename(path: string, existing: set<string>) returns (r: string)
    ensures r !in existing
    ensures r == UniqueFilename(path, existing)
  {
    var split := SplitExt(path);
    var base, ext := split.0, split.1;
    var counter := 1;
    r := path;
    while r in existing
      invariant counter >= 1
      invariant r == Candidate(path, split, counter - 1)
      invariant forall j :: 0 <= j < counter - 1 ==> Candidate(path, split, j) in existing
      decreases existing - Tried(path, split, counter - 1)
    {
      TriedShrinks(path, split, counter - 1, existing);
      r := Suffixed(base, ext, counter);
      assert r == Candidate(path, split, counter);
      counter := counter + 1;
    }
    UniqueFilenameIsFirst(path, existing, counter - 1);
  }
}
