/**
 * The resolution menu of the MP4 download: the list of resolution labels
 * offered to the user (`get_available_resolutions`), and the prompt that reads
 * answers until one of them names an offered resolution.
 */
module Resolutions {
  import opened Wrappers
  import opened PyStr

  /**
   * Strictly descending in Python's string order (so without duplicates), as
   * `sorted(set(...), reverse=True)` leaves the labels.
   */
  predicate StrictlyDescending(xs: seq<string>)
  {
    forall i, j :: 0 <= i < j < |xs| ==> Less(xs[j], xs[i])
  }

  /** The head of a strictly descending list is above every other element. */
  lemma HeadIsGreatest(xs: seq<string>, y: string)
    requires StrictlyDescending(xs)
    requires y in xs && y != xs[0]
    ensures Less(y, xs[0]) && !Less(xs[0], y)
  {
    var j :| 0 <= j < |xs| && xs[j] == y;
    LessAsymmetric(y, xs[0]);
  }

  /** A strictly descending list holds each label once. */
  lemma DescendingHasNoDuplicates(xs: seq<string>)
    requires StrictlyDescending(xs)
    ensures forall i, j :: 0 <= i < j < |xs| ==> xs[i] != xs[j]
  {
    forall i, j | 0 <= i < j < |xs| ensures xs[i] != xs[j] {
      LessIrreflexive(xs[i]);
    }
  }

  /** Lists with the same elements are empty together. */
  lemma SameElementsSameEmptiness(xs: seq<string>, ys: seq<string>)
    requires forall y :: y in xs <==> y in ys
    ensures xs == [] <==> ys == []
  {
    if xs != [] { assert xs[0] in ys; }
    if ys != [] { assert ys[0] in xs; }
  }

  /**
   * Two strictly descending lists with the same elements are the same list: the
   * sorted order depends on the set of labels only, not on the order of the
   * streams they came from.
   */
  lemma {:induction false} DescendingUnique(xs: seq<string>, ys: seq<string>)
    requires StrictlyDescending(xs) && StrictlyDescending(ys)
    requires forall y :: y in xs <==> y in ys
    ensures xs == ys
    decreases |xs|
  {
    SameElementsSameEmptiness(xs, ys);
    if xs != [] {
      if xs[0] != ys[0] {
        assert ys[0] in xs && xs[0] in ys;
        HeadIsGreatest(xs, ys[0]);
        HeadIsGreatest(ys, xs[0]);
        assert false;
      }
      assert xs == [xs[0]] + xs[1..] && ys == [ys[0]] + ys[1..];
      forall y ensures y in xs[1..] <==> y in ys[1..] {
        LessIrreflexive(y);
        if y in xs[1..] {
          var i :| 0 <= i < |xs| - 1 && xs[1..][i] == y;
          assert Less(xs[i + 1], xs[0]);
          assert y in ys;
          var k :| 0 <= k < |ys| && ys[k] == y;
          assert ys[1..][k - 1] == y;
        }
        if y in ys[1..] {
          var i :| 0 <= i < |ys| - 1 && ys[1..][i] == y;
          assert Less(ys[i + 1], ys[0]);
          assert y in xs;
          var k :| 0 <= k < |xs| && xs[k] == y;
          assert xs[1..][k - 1] == y;
        }
      }
      DescendingUnique(xs[1..], ys[1..]);
    }
  }

  /** Insert `x` into a strictly descending list; an `x` already present is not added twice. */
  function Insert(x: string, xs: seq<string>): (r: seq<string>)
    requires StrictlyDescending(xs)
    ensures StrictlyDescending(r)
    ensures forall y :: y in r <==> y == x || y in xs
  {
    if xs == [] then [x]
    else if xs[0] == x then xs
    else if Less(xs[0], x) then
      assert forall j :: 0 <= j < |xs| ==> Less(xs[j], x) by {
        forall j | 0 <= j < |xs| ensures Less(xs[j], x) {
          if j > 0 { LessTransitive(xs[j], xs[0], x); }
        }
      }
      [x] + xs
    else
      LessTotal(x, xs[0]);
      var rest := Insert(x, xs[1..]);
      assert forall j :: 0 <= j < |rest| ==> Less(rest[j], xs[0]) by {
        forall j | 0 <= j < |rest| ensures Less(rest[j], xs[0]) {
          if rest[j] != x {
            assert rest[j] in rest;
            var i :| 0 <= i < |xs| - 1 && xs[1..][i] == rest[j];
            assert Less(xs[i + 1], xs[0]);
          }
        }
      }
      [xs[0]] + rest
  }

  /** The resolution labels that count: `stream.resolution` neither None nor "". */
  predicate Offered(labels: seq<Option<string>>, y: string)
  {
    y != [] && Some(y) in labels
  }

  /**
   * `sorted(set(r for r in labels if r), reverse=True)`: each offered label
   * once, in strictly descending Python string order, and nothing else.
   */
  function AvailableResolutions(labels: seq<Option<string>>): (r: seq<string>)
    ensures StrictlyDescending(r)
    ensures forall y :: y in r <==> Offered(labels, y)
  {
    if labels == [] then []
    else
      var init := labels[..|labels| - 1];
      assert labels == init + [labels[|labels| - 1]];
      var rest := AvailableResolutions(init);
      match labels[|labels| - 1]
      case Some(l) => if l != [] then Insert(l, rest) else rest
      case None => rest
  }

  /**
   * Streams that offer the same labels, in any order and with any repetitions,
   * give the same list.
   */
  lemma AvailableResolutionsDependOnLabelsOnly(a: seq<Option<string>>, b: seq<Option<string>>)
    requires forall y :: Offered(a, y) <==> Offered(b, y)
    ensures AvailableResolutions(a) == AvailableResolutions(b)
  {
    DescendingUnique(AvailableResolutions(a), AvailableResolutions(b));
  }

  /**
   * The order is that of strings, not of numbers: "1080p" sorts after "720p"
   * and "480p" because '1' precedes '4' and '7'.
   */
  lemma AvailableResolutionsExample()
    ensures AvailableResolutions([Some("1080p"), None, Some("720p"), Some(""), Some("480p"), Some("720p")])
         == ["720p", "480p", "1080p"]
  {
    var labels := [Some("1080p"), None, Some("720p"), Some(""), Some("480p"), Some("720p")];
    var expected := ["720p", "480p", "1080p"];
    assert Less("480p", "720p") && Less("1080p", "480p") && Less("1080p", "720p");
    assert StrictlyDescending(expected);
    forall y ensures y in expected <==> Offered(labels, y) {
      if Offered(labels, y) {
        var i :| 0 <= i < |labels| && labels[i] == Some(y);
      }
      if y in expected {
        assert labels[0] == Some("1080p") && labels[2] == Some("720p") && labels[4] == Some("480p");
      }
    }
    DescendingUnique(AvailableResolutions(labels), expected);
  }

  /**
   * The index of the first answer whose lower-case form is an offered
   * resolution, or None when no answer is.
   */
  function FirstAccepted(answers: seq<string>, resolutions: seq<string>): (r: Option<nat>)
    ensures r.Some? ==> r.value < |answers| && Lower(answers[r.value]) in resolutions
    ensures r.Some? ==> forall j :: 0 <= j < r.value ==> Lower(answers[j]) !in resolutions
    ensures r.None? ==> forall j :: 0 <= j < |answers| ==> Lower(answers[j]) !in resolutions
  {
    if answers == [] then None
    else if Lower(answers[0]) in resolutions then Some(0)
    else
      match FirstAccepted(answers[1..], resolutions)
      case Some(k) => Some(k + 1)
      case None => None
  }

  /**
   * The prompt loop of `download_mp4`: read answers in turn, lower-case each,
   * and stop at the first one that is among `resolutions`. Returns that answer
   * (lower-cased) and how many answers were read; when the answers run out
   * first, there is no choice and all of them were read.
   */
  method PromptResolution(answers: seq<string>, resolutions: seq<string>) returns (choice: Option<string>, read: nat)
    ensures read <= |answers|
    ensures choice.Some? ==> choice.value in resolutions
    ensures FirstAccepted(answers, resolutions).Some? ==>
      var k := FirstAccepted(answers, resolutions).value;
      choice == Some(Lower(answers[k])) && read == k + 1
    ensures FirstAccepted(answers, resolutions).None? ==> choice == None && read == |answers|
  {
    read := 0;
    choice := None;
    while read < |answers|
      invariant read <= |answers|
      invariant forall j :: 0 <= j < read ==> Lower(answers[j]) !in resolutions
    {
      var selected := Lower(answers[read]);
      read := read + 1;
      if selected in resolutions {
        choice := Some(selected);
        return;
      }
    }
  }
}
