/**
 * The parts of `download_mp4` and `download_mp3` that are the script's own
 * logic: choosing the resolution from the offered labels and the user's
 * answers, and naming the output file from the video title.
 */
module Download {
  import opened Wrappers
  import opened PyStr
  import opened PyPath
  import opened Sanitize
  import opened UniqueName
  import opened Resolutions

  /** Why no resolution was chosen. */
  datatype SelectError =
    | NoVideoStreams    // "No suitable video streams found": no stream has a resolution label
    | AnswersExhausted  // the user's answers ran out before a valid one

  /**
   * Build the resolution menu from the streams' labels and prompt until a valid
   * answer: fails at once when no stream has a label, otherwise returns the
   * first valid answer, lower-cased, which is a label some stream offers.
   */
  method SelectResolution(labels: seq<Option<string>>, answers: seq<string>) returns (r: Result<string, SelectError>)
    ensures r == Failure(NoVideoStreams) <==>
      forall i :: 0 <= i < |labels| ==> labels[i] == None || labels[i] == Some("")
    ensures r.Success? ==> Offered(labels, r.value)
    ensures r.Success? ==>
      (FirstAccepted(answers, AvailableResolutions(labels)).Some? &&
       r.value == Lower(answers[FirstAccepted(answers, AvailableResolutions(labels)).value]))
    ensures r == Failure(AnswersExhausted) ==>
      forall j :: 0 <= j < |answers| ==> !Offered(labels, Lower(answers[j]))
  {
    var resolutions := AvailableResolutions(labels);
    if resolutions == [] {
      forall i | 0 <= i < |labels| ensures labels[i] == None || labels[i] == Some("") {
        if labels[i].Some? {
          assert !Offered(labels, labels[i].value);
        }
      }
      return Failure(NoVideoStreams);
    }
    assert resolutions[0] in resolutions;
    var choice, _ := PromptResolution(answers, resolutions);
    match choice
    case Some(c) =>
      r := Success(c);
    case None =>
      r := Failure(AnswersExhausted);
  }

  /** No character of a sanitized title is a path separator. */
  lemma SanitizedHasNoSeparator(title: string)
    ensures '/' !in Sanitized(title)
  {
    assert InvalidChars[4] == '/';
  }

  /** The two extensions the script writes have one leading '.' and no '/'. */
  lemma OutputExtension(ext: string)
    requires ext == ".mp4" || ext == ".mp3"
    ensures |ext| >= 1 && ext[0] == '.' && '.' !in ext[1..] && '/' !in ext
  {
    assert ext[1..] == ext[1..4];
  }

  /**
   * Where a collision suffix goes in the output path `join(dir, name + ext)`:
   * before the extension when the sanitized title has a character other than
   * '.', and after the whole path otherwise (an empty or all-dots title leaves
   * `splitext` without an extension).
   */
  lemma CollisionSuffixPlacement(outputDir: string, title: string, ext: string, n: nat)
    requires ext == ".mp4" || ext == ".mp3"
    requires n >= 1
    ensures var name := Sanitized(title);
      var p := Join(outputDir, name + ext);
      Candidate(p, SplitExt(p), n) == if HasNonDot(name) then Suffixed(Join(outputDir, name), ext, n)
                                      else Suffixed(p, [], n)
  {
    SanitizedHasNoSeparator(title);
    OutputExtension(ext);
    CandidateOfJoined(outputDir, Sanitized(title), ext, n);
  }

  /**
   * The output path of lines 92 and 147: the sanitized title plus the
   * extension, joined to the output directory, then made unique.
   */
  method FinalFilePath(outputDir: string, title: string, ext: string, existing: set<string>) returns (path: string)
    ensures path !in existing
    ensures path == UniqueFilename(Join(outputDir, Sanitized(title) + ext), existing)
  {
    var name := SanitizeFilename(title);
    path := EnsureUniqueFilename(Join(outputDir, name + ext), existing);
  }
}
