# YouTube to MP3/MP4: the script's own logic, modelled in Dafny

`TY_To_mp3_or_mp4.py` downloads a video's streams with a third-party library
and merges or converts them with FFmpeg. Around those calls it has four pieces
of logic of its own, and this project models each of them and proves what it
promises:

- `sanitize_filename`: every character of `<>:"/\|?*` becomes `_`, and the
  title is cut to 50 characters (`sanitize.dfy`).
- `ensure_unique_filename`: starting from the path itself, try
  `{base}_1{ext}`, `{base}_2{ext}`, ... until a path that does not exist yet,
  where `(base, ext)` is `os.path.splitext(path)` (`unique_name.dfy`). Which
  paths exist is a finite set given as a parameter. `splitext` and
  `os.path.join` are modelled as on POSIX (`pypath.dfy`).
- `get_available_resolutions`, the part after the stream query: drop missing
  and empty labels, remove duplicates, and sort in reverse Python string order
  (`resolutions.dfy`).
- The resolution prompt of `download_mp4`: read answers, lower-case each one,
  and stop at the first that is an offered resolution (`resolutions.dfy`).

`download.dfy` composes these as `download_mp4` and `download_mp3` do. It
chooses the resolution, or fails with "no suitable video streams". It also
names the output file `join(output_dir, sanitize(title) + ".mp4"/".mp3")`, made
unique. `pystr.dfy` holds the Python string operations the script relies on:
single-character `str.replace`, `str.lower`, string `<`, `str.rfind` and
`str(int)`. `wrappers.dfy` holds `Option` and `Result`.

The resolution list is sorted the way the code sorts it: in Python's string
order, which compares code points from the left. That is not numeric order.
`"720p"` comes before `"480p"`, which comes before `"1080p"`
(`Resolutions.AvailableResolutionsExample`).

## Model

| member | source | states |
|---|---|---|
| PyStr.ReplaceChar | TY_To_mp3_or_mp4.py:19 | `s.replace(c, t)` for one character keeps the length; each position holds `t` where `s` had `c`, and the original character elsewhere |
| PyStr.Lower | TY_To_mp3_or_mp4.py:66 | `lower()` keeps the length, maps each character through the ASCII case mapping, and leaves no upper-case ASCII letter |
| PyStr.LowerIdempotent | TY_To_mp3_or_mp4.py:66 | lower-casing an answer twice gives the same string as once |
| PyStr.Less | TY_To_mp3_or_mp4.py:37 | `a < b` on strings holds exactly when `a` is a proper prefix of `b` or, at the first position where they differ, `a` has the smaller code point |
| PyStr.LessIrreflexive | TY_To_mp3_or_mp4.py:37 | no string sorts before itself in Python string order |
| PyStr.LessAsymmetric | TY_To_mp3_or_mp4.py:37 | Python string order is asymmetric |
| PyStr.LessTransitive | TY_To_mp3_or_mp4.py:37 | Python string order is transitive |
| PyStr.LessTotal | TY_To_mp3_or_mp4.py:37 | any two different strings are ordered one way or the other, so `sorted` has a single answer |
| PyStr.Decimal | TY_To_mp3_or_mp4.py:28 | `str(counter)` is a non-empty string of decimal digits with no leading zero unless it is a single digit |
| PyStr.DecimalRoundTrip | TY_To_mp3_or_mp4.py:28 | reading back the digits of `str(n)` gives `n` |
| PyStr.DecimalInjective | TY_To_mp3_or_mp4.py:28 | different counters give different digit strings |
| PyStr.RFind | TY_To_mp3_or_mp4.py:24 | `s.rfind(c)`, used inside `splitext`, is -1 exactly when `c` is not in `s`, and otherwise an index holding `c` with no `c` after it |
| PyPath.SplitExt | TY_To_mp3_or_mp4.py:24 | `splitext(p)` gives `(base, ext)` with `base + ext == p`; a non-empty `ext` starts with its only '.' and holds no '/' |
| PyPath.SplitExtCut | TY_To_mp3_or_mp4.py:24 | for every path, `splitext` finds an extension exactly when the last component has a character other than '.' followed by a '.', and that extension runs from the last '.' to the end |
| PyPath.SplitExtOfParts | TY_To_mp3_or_mp4.py:24 | for `dir/` + name + `.ext` with no '/' in the name: the extension is split off exactly when the name has a character other than '.'; otherwise nothing is split off |
| PyPath.SplitExtOfJoined | TY_To_mp3_or_mp4.py:24 | the same split, for a path built with `os.path.join(dir, name + ext)` |
| PyPath.DirPrefix | TY_To_mp3_or_mp4.py:92 | what `os.path.join` puts before a relative name is the directory unchanged exactly when it is empty or ends in '/', and otherwise the directory followed by one '/' |
| PyPath.Join | TY_To_mp3_or_mp4.py:92 | `os.path.join(a, b)` ends with `b`; it is `b` itself when `b` is absolute, and `DirPrefix(a) + b` otherwise |
| PyPath.JoinRelative | TY_To_mp3_or_mp4.py:92 | joining a relative name gives the name alone after an empty directory, the directory and the name when the directory ends in '/', and the directory, one '/' and the name otherwise |
| Sanitize.ReplaceEach | TY_To_mp3_or_mp4.py:17-19 | after replacing each invalid character in turn, every position holds `_` if its character was invalid and is unchanged otherwise |
| Sanitize.Sanitized | TY_To_mp3_or_mp4.py:15-20 | the result has length `min(len, 50)`, is the input's prefix with invalid characters replaced by `_`, and contains none of `<>:"/\|?*` |
| Sanitize.SanitizedIdempotent | TY_To_mp3_or_mp4.py:15-20 | sanitizing a sanitized name leaves it unchanged |
| Sanitize.SanitizeFilename | TY_To_mp3_or_mp4.py:15-20 | the loop over the invalid characters followed by `[:50]` computes `Sanitized` |
| UniqueName.Suffixed | TY_To_mp3_or_mp4.py:28 | `f"{base}_{counter}{ext}"` is longer than `base`, the underscore and `ext` together |
| UniqueName.SuffixedReadsBack | TY_To_mp3_or_mp4.py:28 | `f"{base}_{counter}{ext}"` starts with `{base}_` and ends with `ext`, and what lies between is decimal digits that read back as the counter |
| UniqueName.Candidate | TY_To_mp3_or_mp4.py:26-28 | the path tried at a step equals the original path exactly at step 0, when `base + ext` is the path |
| UniqueName.CandidateInjective | TY_To_mp3_or_mp4.py:24-28 | the path and its numbered variants are pairwise different, so the search never retries a path |
| UniqueName.NotYetTried | TY_To_mp3_or_mp4.py:27-29 | the path tried at a step was not tried at any earlier step |
| UniqueName.TriedShrinks | TY_To_mp3_or_mp4.py:27-29 | each iteration strictly shrinks the set of existing paths not yet tried, so the loop ends |
| UniqueName.FreeIndexFrom | TY_To_mp3_or_mp4.py:25-29 | from any step on, there is a first step whose path does not exist, and every path tried in between exists |
| UniqueName.UniqueIndex | TY_To_mp3_or_mp4.py:25-29 | the step at which the loop stops: its path does not exist and every earlier one does |
| UniqueName.UniqueFilename | TY_To_mp3_or_mp4.py:22-30 | the result does not exist, and it is the path itself when that does not exist |
| UniqueName.UniqueFilenameIsFirst | TY_To_mp3_or_mp4.py:22-30 | if the first `n` paths tried exist and the next one does not, the result is that next one, so `N` collisions give suffix `_N` |
| UniqueName.CandidateOfParts | TY_To_mp3_or_mp4.py:24-28 | for `dir/` + name + `.ext`, the suffix goes before the extension when the name has a character other than '.', and after the whole path otherwise |
| UniqueName.CandidateOfJoined | TY_To_mp3_or_mp4.py:24-28 | the same placement for a path built with `os.path.join` |
| UniqueName.UniqueFilenameExample | TY_To_mp3_or_mp4.py:22-30 | with `out/video.mp4` and `out/video_1.mp4` taken, the result is `out/video_2.mp4` |
| UniqueName.EnsureUniqueFilename | TY_To_mp3_or_mp4.py:22-30 | the loop returns a path that does not exist, and it equals `UniqueFilename` (the first free path tried) |
| Resolutions.Offered | TY_To_mp3_or_mp4.py:37 | the reference definition of the `if stream.resolution` filter: a label counts when some stream has it and it is neither None nor empty; `AvailableResolutions` is specified against it |
| Resolutions.DescendingHasNoDuplicates | TY_To_mp3_or_mp4.py:37 | a strictly descending list has no label twice |
| Resolutions.DescendingUnique | TY_To_mp3_or_mp4.py:37 | two strictly descending lists with the same elements are equal: only one list is the sorted set |
| Resolutions.Insert | TY_To_mp3_or_mp4.py:37 | inserting into a strictly descending list keeps it strictly descending and adds exactly the new label |
| Resolutions.AvailableResolutions | TY_To_mp3_or_mp4.py:37 | the list is strictly descending in Python string order, so it has no duplicates; it holds exactly the labels that are present and non-empty |
| Resolutions.AvailableResolutionsDependOnLabelsOnly | TY_To_mp3_or_mp4.py:37 | the list depends only on which labels are offered, not on their order or repetition |
| Resolutions.AvailableResolutionsExample | TY_To_mp3_or_mp4.py:37 | labels 1080p, none, 720p, empty, 480p, 720p give `["720p", "480p", "1080p"]` |
| Resolutions.FirstAccepted | TY_To_mp3_or_mp4.py:65-69 | the result is the index of an answer whose lower-case form is offered with every earlier answer rejected, or none when every answer is rejected |
| Resolutions.PromptResolution | TY_To_mp3_or_mp4.py:65-69 | the loop returns the lower-cased first accepted answer, which is an offered resolution, after reading exactly the answers up to it; if no answer is accepted, it returns nothing after reading them all |
| Download.SelectResolution | TY_To_mp3_or_mp4.py:58-69 | fails with "no suitable video streams" exactly when no stream has a non-empty label; otherwise the choice is an offered label and the first accepted answer |
| Download.SanitizedHasNoSeparator | TY_To_mp3_or_mp4.py:17-20 | a sanitized title holds no '/', so it stays one path component |
| Download.CollisionSuffixPlacement | TY_To_mp3_or_mp4.py:92 | for the output path `join(dir, sanitize(title) + ".mp4"/".mp3")`, a collision suffix goes just before the extension, unless the sanitized title has only dots |
| Download.FinalFilePath | TY_To_mp3_or_mp4.py:92 | the output file path does not exist yet and is `UniqueFilename` of `join(dir, sanitize(title) + ext)` (also line 147 for `.mp3`) |

## Left out

- `check_ffmpeg` and every FFmpeg call (lines 7-13, 102-111, 149-157): these run an external program.
- The stream library (`YouTube(url)`, `streams.filter(...)`, `order_by`, `first()`, `download`, `yt.title`): library code. The model starts from the list of the streams' resolution labels and from the title as a string. Picking the stream for the chosen resolution and the best audio stream (lines 71-87) is left out for the same reason.
- The file system: `os.makedirs`, the default `~/Downloads/YouTube` directory, and the removal of temporary files. `os.path.exists` is membership in a finite set of existing paths.
- Messages printed to the user, the `try`/`except` handlers, and the interactive `__main__` block, including its `KeyboardInterrupt` handling: these are I/O and control flow around the modelled logic.
- `Link_to_YT.py` is not part of this model.
- PyPath.SplitExt: models `posixpath.splitext` only; Windows paths (`ntpath`, with '\\' and drive letters) are not modelled.
- PyPath.Join: models `posixpath.join` with two arguments only.
- PyStr.Lower: models ASCII case mapping only; Python's full Unicode `lower()` (for example, characters whose lower-case form is longer) is not modelled.
- Resolutions.PromptResolution: the user's input is a finite sequence of answers. When it runs out, `input()` would raise `EOFError`, which the script does not catch; the model returns no choice instead (`AnswersExhausted` in `Download.SelectResolution`).
- Resolutions.FirstAccepted: the answers are a finite sequence, so "no answer accepted" is a result here; the script instead waits for more input, and `input()` raises `EOFError` at the end of input.
- Download.SelectResolution: `AnswersExhausted` stands for the uncaught `EOFError` that ends the script when the input runs out before a valid answer.
- Resolutions.AvailableResolutions: the `set` built at line 37 is not modelled as its own value. The function builds the sorted list directly, and `AvailableResolutionsDependOnLabelsOnly` states that it depends only on the set of labels.
