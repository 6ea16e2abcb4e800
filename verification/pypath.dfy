/**
 * The two `os.path` functions the downloader relies on, as POSIX Python defines
 * them (`posixpath.splitext` and `posixpath.join`): '/' is the only separator.
 */
module PyPath {
  import opened PyStr

  /** Some character of `s` is not a '.'. */
  predicate HasNonDot(s: string)
  {
    exists k :: 0 <= k < |s| && s[k] != '.'
  }

  /**
   * `os.path.splitext(p)`: the extension starts at the last '.' that follows the
   * last '/', provided some character other than '.' stands between that '/' and
   * that '.'; otherwise the extension is empty (so "dir/.mp4" has none).
   */
  function SplitExt(p: string): (r: (string, string))
    ensures r.0 + r.1 == p
    ensures r.1 != [] ==> r.1[0] == '.' && '.' !in r.1[1..] && '/' !in r.1
  {
    var sep := RFind(p, '/');
    var dot := RFind(p, '.');
    if dot > sep && HasNonDot(p[sep + 1..dot]) then
      ExtensionAfterCut(p, sep, dot);
      (p[..dot], p[dot..])
    else
      (p, [])
  }

  /**
   * The last component of `p` has an extension: a character other than '.'
   * followed, later in the same component, by a '.'.
   */
  predicate HasExtension(p: string)
  {
    exists i, j :: 0 <= i < j < |p| && p[i] != '.' && p[j] == '.' && '/' !in p[i..]
  }

  /**
   * Where `splitext` cuts, for every path: it finds an extension exactly when
   * the last component has a non-'.' character followed by a '.', and the
   * extension then runs from the last '.' of the path to its end.
   */
  lemma SplitExtCut(p: string)
    ensures SplitExt(p).1 != [] <==> HasExtension(p)
    ensures SplitExt(p).1 != [] ==> SplitExt(p).1 == p[RFind(p, '.')..]
  {
    var sep, dot := RFind(p, '/'), RFind(p, '.');
    if dot > sep && HasNonDot(p[sep + 1..dot]) {
      CutFindsExtension(p, sep, dot);
    }
    if HasExtension(p) {
      ExtensionFindsCut(p, sep, dot);
    }
  }

  /** A non-'.' character between the last '/' and the last '.' is an extension. */
  lemma CutFindsExtension(p: string, sep: int, dot: int)
    requires sep == RFind(p, '/') && dot == RFind(p, '.') && dot > sep
    requires HasNonDot(p[sep + 1..dot])
    ensures HasExtension(p)
  {
    var k :| 0 <= k < |p[sep + 1..dot]| && p[sep + 1..dot][k] != '.';
    var i := sep + 1 + k;
    forall m | 0 <= m < |p| - i ensures p[i..][m] != '/' {
      if sep >= 0 {
        assert p[i..][m] == p[sep + 1..][i + m - sep - 1];
      }
    }
    assert 0 <= i < dot < |p| && p[i] != '.' && p[dot] == '.' && '/' !in p[i..];
  }

  /** An extension lies between the last '/' and the last '.', with a non-'.' character in between. */
  lemma ExtensionFindsCut(p: string, sep: int, dot: int)
    requires sep == RFind(p, '/') && dot == RFind(p, '.')
    requires HasExtension(p)
    ensures dot > sep && HasNonDot(p[sep + 1..dot])
  {
    var i, j :| 0 <= i < j < |p| && p[i] != '.' && p[j] == '.' && '/' !in p[i..];
    assert p[j] in p;
    assert j <= dot;
    assert sep < i;
    assert p[sep + 1..dot][i - sep - 1] != '.';
  }

  /** Cutting at the last '.', when it follows the last '/', leaves an extension with one '.' and no '/'. */
  lemma ExtensionAfterCut(p: string, sep: int, dot: int)
    requires sep == RFind(p, '/') && dot == RFind(p, '.') && dot > sep
    ensures p[..dot] + p[dot..] == p
    ensures p[dot..][0] == '.' && '.' !in p[dot..][1..]
    ensures '/' !in p[dot..]
    ensures p[..dot][sep + 1..] == p[sep + 1..dot]
  {
    assert p[..dot] + p[dot..] == p;
    assert p[dot..][1..] == p[dot + 1..];
    forall k | 0 <= k < |p| - dot ensures p[dot..][k] != '/' {
      if sep >= 0 {
        assert p[dot..][k] == p[sep + 1..][dot + k - sep - 1];
      } else {
        assert p[dot..][k] == p[dot + k];
      }
    }
  }

  /** What `join` puts before a relative name: `a`, with a '/' added unless `a` is empty or already ends in one. */
  function DirPrefix(a: string): (r: string)
    ensures r == a || r == a + "/"
    ensures r == a <==> a == [] || a[|a| - 1] == '/'
    ensures r == [] || r[|r| - 1] == '/'
  {
    if a == [] || a[|a| - 1] == '/' then a else a + "/"
  }

  /** `os.path.join(a, b)`: `b` alone when it is absolute, else `b` after `a`'s directory prefix. */
  function Join(a: string, b: string): (r: string)
    ensures |b| <= |r| && r[|r| - |b|..] == b
    ensures b != [] && b[0] == '/' ==> r == b
    ensures !(b != [] && b[0] == '/') ==> r == DirPrefix(a) + b
  {
    if b != [] && b[0] == '/' then b else DirPrefix(a) + b
  }

  /**
   * Joining a relative name puts the directory prefix in front of it: the
   * name alone after an empty directory, and otherwise the directory and the
   * name with exactly one '/' added only when the directory does not end in one.
   */
  lemma JoinRelative(dir: string, name: string, ext: string)
    requires '/' !in name
    requires ext == [] || ext[0] != '/'
    ensures Join(dir, name + ext) == DirPrefix(dir) + name + ext
    ensures Join(dir, name + ext) ==
      if dir == [] then name + ext
      else if dir[|dir| - 1] == '/' then dir + name + ext
      else dir + "/" + name + ext
  {
    if name != [] {
      assert name[0] in name;
    }
  }

  /** Past a prefix that is empty or ends in '/', text without '/' leaves the prefix's '/' the last one. */
  lemma LastSeparator(prefix: string, b: string)
    requires prefix == [] || prefix[|prefix| - 1] == '/'
    requires '/' !in b
    ensures RFind(prefix + b, '/') == |prefix| - 1
  {
    RFindAppend(prefix, b, '/');
    if prefix != [] {
      RFindAt(prefix, '/', |prefix| - 1);
    }
  }

  /** An extension with a single leading '.' holds the last '.' of any path it ends. */
  lemma LastDot(q: string, ext: string)
    requires |ext| >= 1 && ext[0] == '.' && '.' !in ext[1..]
    ensures RFind(q + ext, '.') == |q|
  {
    var p := q + ext;
    forall j | |q| < j < |p| ensures p[j] != '.' {
      assert p[j] == ext[1..][j - |q| - 1];
    }
    RFindAt(p, '.', |q|);
  }

  /** A name without '/' followed by such an extension has no '/' either. */
  lemma NoSeparator(name: string, ext: string)
    requires '/' !in name && '/' !in ext
    ensures '/' !in name + ext
  {
    var b := name + ext;
    forall k | 0 <= k < |b| ensures b[k] != '/' {
      if k < |name| { assert name[k] in name; } else { assert ext[k - |name|] in ext; }
    }
  }

  /** `splitext` of `prefix + name + ext`, where the prefix ends at a '/' and the name holds none. */
  lemma SplitExtOfParts(prefix: string, name: string, ext: string)
    requires prefix == [] || prefix[|prefix| - 1] == '/'
    requires '/' !in name
    requires |ext| >= 1 && ext[0] == '.' && '.' !in ext[1..] && '/' !in ext
    ensures SplitExt(prefix + name + ext) == if HasNonDot(name) then (prefix + name, ext) else (prefix + name + ext, [])
  {
    var p := prefix + name + ext;
    NoSeparator(name, ext);
    assert p == prefix + (name + ext);
    LastSeparator(prefix, name + ext);
    LastDot(prefix + name, ext);
    assert p[|prefix|..|prefix| + |name|] == name;
    assert p[..|prefix| + |name|] == prefix + name;
    assert p[|prefix| + |name|..] == ext;
  }

  /**
   * Where `splitext` cuts a path built as `join(dir, name + ext)` from a name
   * without '/' and an extension such as ".mp4": the extension is found exactly
   * when the name has a character other than '.'; a name made only of dots (the
   * empty name included) leaves the extension empty.
   */
  lemma SplitExtOfJoined(dir: string, name: string, ext: string)
    requires '/' !in name
    requires |ext| >= 1 && ext[0] == '.' && '.' !in ext[1..] && '/' !in ext
    ensures SplitExt(Join(dir, name + ext)) ==
      if HasNonDot(name) then (DirPrefix(dir) + name, ext) else (Join(dir, name + ext), [])
  {
    var b := name + ext;
    assert b[0] != '/' by {
      if name != [] { assert name[0] in name; } else { assert b[0] == ext[0]; }
    }
    var prefix := DirPrefix(dir);
    assert Join(dir, b) == prefix + name + ext;
    SplitExtOfParts(prefix, name, ext);
  }
}
