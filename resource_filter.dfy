/** ResourceFilter's path checks: the traversal test and the sanitiser of resource paths. */
module ResourceFilter {
  import opened Wrappers
  import opened JavaStrings

  // ---------------------------------------------------------------------------
  // containsPathTraversalAttempt

  /** containsPathTraversalAttempt; None stands for a null path. */
  predicate ContainsPathTraversalAttempt(path: Option<string>) {
    path.None? ||
    var lowerPath := ToLower(path.value);
    Contains(lowerPath, "..") ||
    Contains(lowerPath, "%2e%2e") ||
    Contains(lowerPath, "..%2f") ||
    Contains(lowerPath, "..\\") ||
    Contains(lowerPath, "%2e%2e%2f") ||
    Contains(lowerPath, "%2e%2e\\") ||
    !StartsWith(path.value, "/")
  }

  /**
   * The seven tests come down to four: a null path, "..", "%2e%2e" in any
   * letter case, or no leading '/'; the longer patterns each contain one of
   * the two shorter ones.
   */
  lemma TraversalIff(path: Option<string>)
    ensures ContainsPathTraversalAttempt(path) <==>
      path.None? || Contains(path.value, "..") || Contains(ToLower(path.value), "%2e%2e") || !StartsWith(path.value, "/")
  {
    if path.Some? {
      var lowerPath := ToLower(path.value);
      ContainsToLower(path.value, "..");
      if Contains(lowerPath, "..%2f") {
        assert ".." + "%2f" == "..%2f";
        ContainsPrefixOf(lowerPath, "..", "%2f");
      }
      if Contains(lowerPath, "..\\") {
        assert ".." + "\\" == "..\\";
        ContainsPrefixOf(lowerPath, "..", "\\");
      }
      if Contains(lowerPath, "%2e%2e%2f") {
        assert "%2e%2e" + "%2f" == "%2e%2e%2f";
        ContainsPrefixOf(lowerPath, "%2e%2e", "%2f");
      }
      if Contains(lowerPath, "%2e%2e\\") {
        assert "%2e%2e" + "\\" == "%2e%2e\\";
        ContainsPrefixOf(lowerPath, "%2e%2e", "\\");
      }
    }
  }

  // ---------------------------------------------------------------------------
  // sanitizeResourcePath

  /** A segment sanitizeResourcePath rejects. */
  predicate Dangerous(segment: string) {
    segment == ".." || segment == "." || Contains(segment, "\\") || Contains(ToLower(segment), "%2e")
  }

  /** The non-empty segments sanitizeResourcePath walks through, once '/' is ensured and runs of '/' collapsed. */
  function Kept(path: string): seq<string> {
    NonEmpty(Split(CollapseSlashes(EnsureLeadingSlash(path)), '/'))
  }

  /** The value of sanitizeResourcePath(path); None stands for null. */
  function Sanitized(path: Option<string>): Option<string> {
    if path.None? || path.value == [] then None else Accepted(Kept(path.value))
  }

  /** The outcome for the kept segments: null if one is dangerous, else the rebuilt path if it names a page. */
  function Accepted(segments: seq<string>): Option<string> {
    if !NoneDangerous(segments) then None
    else WithPageExtension(if segments == [] then "/" else Slashed(segments))
  }

  /** The final test of sanitizeResourcePath: the path must still end in ".jsp" or ".html". */
  function WithPageExtension(result: string): Option<string> {
    if !EndsWith(result, ".jsp") && !EndsWith(result, ".html") then None else Some(result)
  }

  /** sanitizeResourcePath */
  method SanitizeResourcePath(path: Option<string>) returns (r: Option<string>)
    ensures r == Sanitized(path)
    ensures path.None? || path == Some([]) ==> r.None?
  {
    if path.None? || path.value == [] {
      return None;
    }
    var p := path.value;
    if !StartsWith(p, "/") {
      p := "/" + p;
    }
    p := CollapseSlashes(p);
    var segments := Split(p, '/');
    ghost var kept := Kept(path.value);
    assert kept == NonEmpty(segments);
    var sanitizedPath := "";
    for i := 0 to |segments|
      invariant sanitizedPath == Slashed(NonEmpty(segments[..i]))
      invariant NoneDangerous(NonEmpty(segments[..i]))
    {
      var segment := segments[i];
      SanitizeStep(segments, i);
      NoneDangerousSnoc(NonEmpty(segments[..i]), segment);
      if segment == [] {
        continue;
      }
      if segment == ".." || segment == "." || Contains(segment, "\\") || Contains(ToLower(segment), "%2e") {
        assert Dangerous(kept[|NonEmpty(segments[..i])|]);
        return None;
      }
      sanitizedPath := sanitizedPath + "/" + segment;
    }
    assert segments[..|segments|] == segments;
    var result := sanitizedPath;
    if result == [] {
      result := "/";
    }
    assert result == if kept == [] then "/" else Slashed(kept);
    assert Sanitized(path) == WithPageExtension(result);
    if !EndsWith(result, ".jsp") && !EndsWith(result, ".html") {
      return None;
    }
    return Some(result);
  }

  /** No segment of the list is one sanitizeResourcePath rejects. */
  predicate NoneDangerous(segments: seq<string>) {
    forall j :: 0 <= j < |segments| ==> !Dangerous(segments[j])
  }

  lemma NoneDangerousSnoc(segments: seq<string>, segment: string)
    ensures NoneDangerous(segments + [segment]) <==> NoneDangerous(segments) && !Dangerous(segment)
  {
    assert forall j :: 0 <= j < |segments| ==> (segments + [segment])[j] == segments[j];
    assert (segments + [segment])[|segments|] == segment;
  }

  /** One more segment extends the kept prefix by itself, unless it is empty; the rest of the kept list follows. */
  lemma SanitizeStep(segments: seq<string>, i: int)
    requires 0 <= i < |segments|
    ensures segments[i] == [] ==> NonEmpty(segments[..i + 1]) == NonEmpty(segments[..i])
    ensures segments[i] != [] ==> NonEmpty(segments[..i + 1]) == NonEmpty(segments[..i]) + [segments[i]]
    ensures segments[i] != [] ==> Slashed(NonEmpty(segments[..i + 1])) == Slashed(NonEmpty(segments[..i])) + "/" + segments[i]
    ensures segments[i] != [] ==>
      |NonEmpty(segments[..i])| < |NonEmpty(segments)| && NonEmpty(segments)[|NonEmpty(segments[..i])|] == segments[i]
  {
    assert segments[..i + 1] == segments[..i] + [segments[i]];
    NonEmptyConcat(segments[..i], [segments[i]]);
    assert segments == segments[..i + 1] + segments[i + 1..];
    NonEmptyConcat(segments[..i + 1], segments[i + 1..]);
    if segments[i] != [] {
      assert NonEmpty([segments[i]]) == [segments[i]];
      SlashedSnoc(NonEmpty(segments[..i]), segments[i]);
    } else {
      assert NonEmpty([segments[i]]) == [];
    }
  }

  // ---------------------------------------------------------------------------
  // Properties of the sanitised path

  /** Ensuring the leading '/' and collapsing runs of '/' change no non-empty segment. */
  lemma KeptSegments(path: string)
    ensures Kept(path) == NonEmpty(Split(path, '/'))
  {
    var e := EnsureLeadingSlash(path);
    NonEmptySplit(CollapseSlashes(e), '/');
    CollapseSlashesSegments(e);
    if !StartsWith(path, "/") {
      NonEmptyFieldsSlash(path, '/');
    }
    NonEmptySplit(path, '/');
  }

  /**
   * sanitizeResourcePath accepts a path exactly when it is non-empty, none of
   * its non-empty segments is dangerous, it has some non-empty segment, and
   * those segments written "/s1/s2..." end in ".jsp" or ".html"; that string
   * is then the result.
   */
  lemma SanitizedIff(path: string)
    ensures var segments := NonEmpty(Split(path, '/'));
      Sanitized(Some(path)).Some? <==>
        path != [] && (forall x :: x in Split(path, '/') && x != [] ==> !Dangerous(x)) && segments != [] &&
        (EndsWith(Slashed(segments), ".jsp") || EndsWith(Slashed(segments), ".html"))
    ensures Sanitized(Some(path)).Some? ==> Sanitized(Some(path)).value == Slashed(NonEmpty(Split(path, '/')))
  {
    KeptSegments(path);
    var segments := NonEmpty(Split(path, '/'));
    NonEmptyMembers(Split(path, '/'));
    assert (exists i :: 0 <= i < |segments| && Dangerous(segments[i])) <==> exists x :: x in segments && Dangerous(x);
    assert !EndsWith("/", ".jsp") && !EndsWith("/", ".html");
  }

  /** The result of the sanitiser, when there is one, is a path of non-empty, '/'-free segments. */
  lemma SanitizedSegmentsClean(path: string)
    requires Sanitized(Some(path)).Some?
    ensures var segments := NonEmpty(Split(path, '/'));
      segments != [] && forall i :: 0 <= i < |segments| ==> segments[i] != [] && '/' !in segments[i]
  {
    SanitizedIff(path);
    var segments := NonEmpty(Split(path, '/'));
    NonEmptyMembers(Split(path, '/'));
    SplitNoSeparator(path, '/');
    forall i | 0 <= i < |segments| ensures segments[i] != [] && '/' !in segments[i] {
      assert segments[i] in Split(path, '/');
    }
  }

  /**
   * A sanitised path starts with '/', ends in ".jsp" or ".html", and splits
   * into an empty first piece followed by exactly the input's non-empty
   * segments, in order: it has no empty segment.
   */
  lemma SanitizedShape(path: string)
    requires Sanitized(Some(path)).Some?
    ensures var r := Sanitized(Some(path)).value;
      StartsWith(r, "/") && (EndsWith(r, ".jsp") || EndsWith(r, ".html")) &&
      Split(r, '/') == [""] + NonEmpty(Split(path, '/'))
  {
    SanitizedIff(path);
    SanitizedSegmentsClean(path);
    var segments := NonEmpty(Split(path, '/'));
    var r := Slashed(segments);
    FieldsOfSlashed(segments);
    assert r == "/" + segments[0] + Slashed(segments[1..]);
    var f := [""] + segments;
    assert f[|f| - 1] != [];
  }

  /** Sanitising a sanitised path gives it back unchanged. */
  lemma SanitizedIdempotent(path: string)
    requires Sanitized(Some(path)).Some?
    ensures Sanitized(Sanitized(Some(path))) == Sanitized(Some(path))
  {
    var r := Sanitized(Some(path)).value;
    var segments := NonEmpty(Split(path, '/'));
    SanitizedIff(path);
    SanitizedShape(path);
    SanitizedSegmentsClean(path);
    NonEmptyOfNonEmpty(segments);
    assert NonEmpty(Split(r, '/')) == segments;
    SanitizedIff(r);
    NonEmptyMembers(Split(path, '/'));
    NonEmptyMembers(Split(r, '/'));
  }

  /** A dangerous non-empty segment anywhere in the path makes the sanitiser refuse it. */
  lemma SanitizedRejects(path: string, segment: string)
    requires segment in Split(path, '/') && segment != [] && Dangerous(segment)
    ensures Sanitized(Some(path)).None?
  {
    SanitizedIff(path);
  }
}
