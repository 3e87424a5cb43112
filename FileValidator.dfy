/** Which dropped file lists the program accepts (JpegQuality.cs, DropLabel_DragDrop and
    DropLabel_DragOver): a list is accepted when the background worker is idle and every
    path matches the regular expression `\.jpe?g$` with RegexOptions.IgnoreCase.

    The regular expression is stated by its meaning as a search (some index starts a match
    of `\.jpe?g` that the anchor `$` accepts), and the program's check is modelled as a
    suffix test; the two are proved to agree. In .NET, `$` without RegexOptions.Multiline
    matches at the end of the input and also just before a final '\n'; the model covers
    that case. */
module FileValidator {
  import opened Strings

  // ---------------------------------------------------------------- the regular expression

  /** `\.jpe?g` matches `p[i..j]`, letters compared without regard to case. */
  predicate PatternAt(p: string, i: nat, j: nat)
  {
    && (j == i + 4 || j == i + 5)
    && j <= |p|
    && p[i] == '.'
    && AsciiLower(p[i + 1]) == 'j'
    && AsciiLower(p[i + 2]) == 'p'
    && (j == i + 5 ==> AsciiLower(p[i + 3]) == 'e')
    && AsciiLower(p[j - 1]) == 'g'
  }

  /** The anchor `$`: the end of the input, or the position of a final '\n'. */
  predicate EndAnchor(p: string, j: nat)
  {
    j == |p| || (j + 1 == |p| && p[j] == '\n')
  }

  /** `Regex.IsMatch(p, @"\.jpe?g$", RegexOptions.IgnoreCase)`. */
  ghost predicate PatternMatches(p: string)
  {
    exists i: nat, j: nat :: PatternAt(p, i, j) && EndAnchor(p, j)
  }

  // ---------------------------------------------------------------- the suffix check

  /** `p` without one final '\n', if it has one. */
  function Chomp(p: string): (r: string)
    ensures |p| > 0 && p[|p| - 1] == '\n' ==> r == p[..|p| - 1]
    ensures !(|p| > 0 && p[|p| - 1] == '\n') ==> r == p
  {
    if |p| > 0 && p[|p| - 1] == '\n' then p[..|p| - 1] else p
  }

  /** The path ends in ".jpg" or ".jpeg" in any letter case, ignoring one final '\n'. */
  predicate HasJpegExtension(p: string)
  {
    var s := Chomp(p);
    EndsWithIgnoreCase(s, ".jpg") || EndsWithIgnoreCase(s, ".jpeg")
  }

  /** The anchor `$` accepts exactly two positions: the end of `p` and the end of `Chomp(p)`. */
  lemma AnchorAtChomp(p: string, j: nat)
    ensures EndAnchor(p, j) <==> j == |p| || j == |Chomp(p)|
  {
  }

  /** Inside the part `Chomp` keeps, the two strings agree. */
  lemma ChompPrefix(p: string, k: nat)
    requires k < |Chomp(p)|
    ensures Chomp(p)[k] == p[k]
  {
  }

  /** A suffix `ext` of `Chomp(p)` (compared without case) ending in 'g' and starting with
      ".jp" gives a match of the pattern ending where `Chomp(p)` ends. */
  lemma SuffixGivesMatch(p: string, ext: string)
    requires ext == ".jpg" || ext == ".jpeg"
    requires EndsWithIgnoreCase(Chomp(p), ext)
    ensures PatternAt(p, |Chomp(p)| - |ext|, |Chomp(p)|) && EndAnchor(p, |Chomp(p)|)
  {
    var s := Chomp(p);
    var i := |s| - |ext|;
    forall k | 0 <= k < |ext|
      ensures AsciiLower(p[i + k]) == AsciiLower(ext[k])
    {
      assert AsciiLower(s[|s| - |ext| + k]) == AsciiLower(ext[k]);
      ChompPrefix(p, i + k);
    }
    assert ext[0] == '.' && ext[1] == 'j' && ext[2] == 'p' && ext[|ext| - 1] == 'g';
    assert |ext| == 5 ==> ext[3] == 'e';
    assert AsciiLower(p[i]) == '.';
    assert AsciiLower(p[i + |ext| - 1]) == 'g';
  }

  /** A match of the pattern accepted by the anchor makes `Chomp(p)` end with the matched
      extension. */
  lemma MatchGivesSuffix(p: string, i: nat, j: nat)
    requires PatternAt(p, i, j) && EndAnchor(p, j)
    ensures j == i + 4 ==> EndsWithIgnoreCase(Chomp(p), ".jpg")
    ensures j == i + 5 ==> EndsWithIgnoreCase(Chomp(p), ".jpeg")
  {
    var s := Chomp(p);
    assert |s| == j by {
      if j == |p| {
        assert p[|p| - 1] != '\n';
      }
    }
    forall k | i <= k < j
      ensures s[k] == p[k]
    {
      ChompPrefix(p, k);
    }
  }

  /** The suffix check decides exactly the regular expression, in both directions. */
  lemma SuffixCheckIsPattern(p: string)
    ensures HasJpegExtension(p) <==> PatternMatches(p)
  {
    var s := Chomp(p);
    if EndsWithIgnoreCase(s, ".jpg") {
      SuffixGivesMatch(p, ".jpg");
      var i: nat, j: nat := |s| - 4, |s|;
      assert PatternAt(p, i, j) && EndAnchor(p, j);
    } else if EndsWithIgnoreCase(s, ".jpeg") {
      SuffixGivesMatch(p, ".jpeg");
      var i: nat, j: nat := |s| - 5, |s|;
      assert PatternAt(p, i, j) && EndAnchor(p, j);
    }
    if PatternMatches(p) {
      var i: nat, j: nat :| PatternAt(p, i, j) && EndAnchor(p, j);
      MatchGivesSuffix(p, i, j);
    }
  }

  // ---------------------------------------------------------------- the acceptance predicate

  /** A list is accepted when the worker is idle and every path matches; one path that does
      not match rejects the whole list, and the empty list is accepted when idle. */
  ghost predicate Accept(busy: bool, files: seq<string>)
  {
    !busy && forall k :: 0 <= k < |files| ==> PatternMatches(files[k])
  }

  /** Acceptance, in terms of the program's check: the worker is idle and every path ends in
      ".jpg" or ".jpeg" in any letter case (ignoring one final '\n'). */
  lemma AcceptIsSuffixCheck(busy: bool, files: seq<string>)
    ensures Accept(busy, files) <==> !busy && forall k :: 0 <= k < |files| ==> HasJpegExtension(files[k])
  {
    forall k | 0 <= k < |files|
      ensures HasJpegExtension(files[k]) <==> PatternMatches(files[k])
    {
      SuffixCheckIsPattern(files[k]);
    }
  }

  /** One path that does not match rejects the whole list. */
  lemma OneBadPathRejects(busy: bool, files: seq<string>, k: nat)
    requires k < |files| && !PatternMatches(files[k])
    ensures !Accept(busy, files)
  {
  }

  /** The empty list is accepted exactly when the worker is idle. */
  lemma EmptyListAccepted(busy: bool)
    ensures Accept(busy, []) <==> !busy
  {
  }

  /** A concatenation of lists is accepted exactly when both parts are. */
  lemma AcceptConcat(busy: bool, xs: seq<string>, ys: seq<string>)
    ensures Accept(busy, xs + ys) <==> Accept(busy, xs) && Accept(busy, ys)
  {
    if Accept(busy, xs) && Accept(busy, ys) {
      forall k | 0 <= k < |xs + ys|
        ensures PatternMatches((xs + ys)[k])
      {
        if k >= |xs| {
          assert (xs + ys)[k] == ys[k - |xs|];
        }
      }
    }
    if Accept(busy, xs + ys) {
      forall k | 0 <= k < |xs|
        ensures PatternMatches(xs[k])
      {
        assert (xs + ys)[k] == xs[k];
      }
      forall k | 0 <= k < |ys|
        ensures PatternMatches(ys[k])
      {
        assert (xs + ys)[|xs| + k] == ys[k];
      }
    }
  }

  /** The loop both handlers run: the flag starts as "not busy" and is cleared by every path
      that fails the regular expression. */
  method ScanBatch(busy: bool, files: seq<string>) returns (valid: bool)
    ensures valid == Accept(busy, files)
  {
    valid := !busy;
    for k := 0 to |files|
      invariant valid == (!busy && forall m :: 0 <= m < k ==> PatternMatches(files[m]))
    {
      SuffixCheckIsPattern(files[k]);
      if !HasJpegExtension(files[k]) {
        valid := false;
      }
    }
  }

  /** Acceptance, stated over the paths present rather than their positions. */
  lemma AcceptByMembers(busy: bool, files: seq<string>)
    ensures Accept(busy, files) <==> !busy && forall p :: p in files ==> PatternMatches(p)
  {
    if !busy && forall p :: p in files ==> PatternMatches(p) {
      forall k | 0 <= k < |files|
        ensures PatternMatches(files[k])
      {
        assert files[k] in files;
      }
    }
  }

  /** Both extensions are accepted in any letter case, and the empty list is accepted
      when the worker is idle. */
  lemma AcceptsJpegLists()
    ensures Accept(false, ["a.jpg", "B.JPEG"])
    ensures Accept(false, [])
  {
    var files := ["a.jpg", "B.JPEG"];
    assert PatternMatches(files[0]) by {
      assert PatternAt(files[0], 1, 5) && EndAnchor(files[0], 5);
    }
    assert PatternMatches(files[1]) by {
      assert PatternAt(files[1], 1, 6) && EndAnchor(files[1], 6);
    }
  }

  /** One foreign extension rejects the whole list, and a busy worker rejects every list. */
  lemma RejectsForeignOrBusy()
    ensures !Accept(false, ["a.jpg", "b.png"])
    ensures forall files :: !Accept(true, files)
  {
    assert !HasJpegExtension("b.png") by {
      assert AsciiLower("b.png"[2]) != AsciiLower(".jpg"[1]);
      assert AsciiLower("b.png"[0]) != AsciiLower(".jpeg"[0]);
    }
    SuffixCheckIsPattern("b.png");
    assert ["a.jpg", "b.png"][1] == "b.png";
  }

  /** `$` matches just before one final '\n', so a path ending in ".jpg\n" is accepted. */
  lemma FinalNewline()
    ensures Accept(false, ["a.jpg\n"])
  {
    var files := ["a.jpg\n"];
    assert PatternMatches(files[0]) by {
      assert PatternAt(files[0], 1, 5) && EndAnchor(files[0], 5);
    }
  }

  /** A second final newline defeats the anchor. */
  lemma TwoFinalNewlines()
    ensures !Accept(false, ["a.jpg\n\n"])
  {
    var p := "a.jpg\n\n";
    assert !HasJpegExtension(p) by {
      var s := Chomp(p);
      assert s == "a.jpg\n";
      assert AsciiLower(s[|s| - 1]) != AsciiLower(".jpg"[3]);
      assert AsciiLower(s[|s| - 1]) != AsciiLower(".jpeg"[4]);
    }
    SuffixCheckIsPattern(p);
    assert [p][0] == p;
  }
}
