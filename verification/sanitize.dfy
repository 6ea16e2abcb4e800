/**
 * `sanitize_filename`: turn a video title into a file name by replacing each
 * character that is unsafe in file names with '_' and keeping at most the
 * first 50 characters.
 */
module Sanitize {
  import opened PyStr

  /** The characters the script refuses in a file name, in the order it replaces them. */
  const InvalidChars: string := "<>:\"/\\|?*"

  /** The longest file name the script produces (the `[:50]` slice). */
  const MaxLength: nat := 50

  /**
   * `s` after the replacement loop has handled the characters of `chars` in
   * order, each occurrence of each of them becoming '_'.
   */
  function ReplaceEach(s: string, chars: string): (r: string)
    ensures |r| == |s|
    ensures forall k :: 0 <= k < |s| ==> r[k] == (if s[k] in chars then '_' else s[k])
  {
    if chars == [] then s
    else
      var init, last := chars[..|chars| - 1], chars[|chars| - 1];
      assert chars == init + [last];
      ReplaceChar(ReplaceEach(s, init), last, '_')
  }

  /**
   * What `sanitize_filename(s)` returns: the first `min(len(s), 50)` positions
   * of `s`, with '_' wherever `s` had an invalid character and `s`'s own
   * character elsewhere; so no invalid character survives.
   */
  function Sanitized(s: string): (r: string)
    ensures |r| == if |s| <= MaxLength then |s| else MaxLength
    ensures forall k :: 0 <= k < |r| ==> r[k] == if s[k] in InvalidChars then '_' else s[k]
    ensures forall k :: 0 <= k < |r| ==> r[k] !in InvalidChars
  {
    var t := ReplaceEach(s, InvalidChars);
    if |t| <= MaxLength then t else t[..MaxLength]
  }

  /** Sanitizing an already sanitized name gives it back unchanged. */
  lemma SanitizedIdempotent(s: string)
    ensures Sanitized(Sanitized(s)) == Sanitized(s)
  {
    var t := Sanitized(s);
    assert Sanitized(t) == t by {
      var u := Sanitized(t);
      forall k | 0 <= k < |t| ensures u[k] == t[k] {
        assert t[k] !in InvalidChars;
      }
    }
  }

  /** `sanitize_filename`: the replacement loop over the invalid characters, then the slice. */
  method SanitizeFilename(filename: string) returns (r: string)
    ensures r == Sanitized(filename)
  {
    var name := filename;
    for i := 0 to |InvalidChars|
      invariant name == ReplaceEach(filename, InvalidChars[..i])
    {
      assert InvalidChars[..i + 1][..i] == InvalidChars[..i];
      name := ReplaceChar(name, InvalidChars[i], '_');
    }
    assert InvalidChars[..|InvalidChars|] == InvalidChars;
    r := if |name| <= MaxLength then name else name[..MaxLength];
  }
}
