/**
 * URL templates with `{name}` placeholders: normalising concrete paths,
 * matching a path against a template, choosing the template for a path, and
 * reading the placeholder values out of a path.
 *
 * A template is matched as the regular expression that templateToRegex builds
 * from it, stated segment by segment: a placeholder segment stands for any
 * non-empty segment, every other segment for itself.
 */
module UrlPatternMatcher {
  import opened Wrappers
  import opened JavaStrings
  import opened JavaNumbers

  // ---------------------------------------------------------------------------
  // Segment classification

  /** isInteger: the segment parses as a Java `int`. */
  predicate IsInteger(segment: string) {
    segment != [] && ParseInt(segment).Some?
  }

  predicate IsHex(c: char) {
    '0' <= c <= '9' || 'a' <= c <= 'f' || 'A' <= c <= 'F'
  }

  /** isUuid: 36 characters, 8-4-4-4-12 hexadecimal digits separated by '-'. */
  predicate IsUuid(segment: string) {
    |segment| == 36 &&
    segment[8] == '-' && segment[13] == '-' && segment[18] == '-' && segment[23] == '-' &&
    forall i :: 0 <= i < 36 && i != 8 && i != 13 && i != 18 && i != 23 ==> IsHex(segment[i])
  }

  /** The segment normalizeUrl writes for `segment`. */
  function NormalizeSegment(segment: string): string {
    if IsInteger(segment) then "{int}" else if IsUuid(segment) then "{uuid}" else segment
  }

  function NormalizeSegments(segments: seq<string>): seq<string> {
    seq(|segments|, i requires 0 <= i < |segments| => NormalizeSegment(segments[i]))
  }

  // ---------------------------------------------------------------------------
  // normalizeUrl

  /** The value of normalizeUrl(url); None stands for a null url. */
  function Normalized(url: Option<string>): string {
    if url.None? || url.value == [] then "/"
    else
      var segments := NormalizedPieces(url.value);
      if segments == [] then "/" else Slashed(segments)
  }

  /** The segments normalizeUrl writes for a non-empty url. */
  function NormalizedPieces(url: string): seq<string> {
    NormalizeSegments(NonEmpty(Split(EnsureLeadingSlash(StripQuery(url)), '/')))
  }

  /** normalizeUrl */
  method NormalizeUrl(url: Option<string>) returns (r: string)
    ensures r == Normalized(url)
  {
    if url.None? || url.value == [] {
      return "/";
    }
    var path := StripQuery(url.value);
    if !StartsWith(path, "/") {
      path := "/" + path;
    }
    assert path == EnsureLeadingSlash(StripQuery(url.value));
    var segments := Split(path, '/');
    var normalized := "";
    for i := 0 to |segments|
      invariant normalized == Slashed(NormalizeSegments(NonEmpty(segments[..i])))
    {
      var segment := segments[i];
      NormalizeStep(segments, i);
      if segment == [] {
        continue;
      }
      normalized := normalized + "/";
      if IsInteger(segment) {
        normalized := normalized + "{int}";
      } else if IsUuid(segment) {
        normalized := normalized + "{uuid}";
      } else {
        normalized := normalized + segment;
      }
    }
    assert segments[..|segments|] == segments;
    assert NormalizedPieces(url.value) == NormalizeSegments(NonEmpty(segments));
    assert |Slashed(NormalizeSegments(NonEmpty(segments)))| == 0 <==> NormalizeSegments(NonEmpty(segments)) == [];
    return if |normalized| == 0 then "/" else normalized;
  }

  /** One more input segment adds one normalised segment, unless it is empty. */
  lemma NormalizeStep(segments: seq<string>, i: int)
    requires 0 <= i < |segments|
    ensures segments[i] == [] ==>
      Slashed(NormalizeSegments(NonEmpty(segments[..i + 1]))) == Slashed(NormalizeSegments(NonEmpty(segments[..i])))
    ensures segments[i] != [] ==>
      Slashed(NormalizeSegments(NonEmpty(segments[..i + 1]))) ==
      Slashed(NormalizeSegments(NonEmpty(segments[..i]))) + "/" + NormalizeSegment(segments[i])
  {
    assert segments[..i + 1] == segments[..i] + [segments[i]];
    NonEmptyConcat(segments[..i], [segments[i]]);
    if segments[i] != [] {
      assert NonEmpty([segments[i]]) == [segments[i]];
      assert NormalizeSegments(NonEmpty(segments[..i + 1])) ==
        NormalizeSegments(NonEmpty(segments[..i])) + [NormalizeSegment(segments[i])];
      SlashedSnoc(NormalizeSegments(NonEmpty(segments[..i])), NormalizeSegment(segments[i]));
    } else {
      assert NonEmpty([segments[i]]) == [];
      assert NonEmpty(segments[..i + 1]) == NonEmpty(segments[..i]);
    }
  }

  /** A segment normalizeUrl can write: non-empty and free of '/', '?' and '#'. */
  predicate CleanSegment(segment: string) {
    segment != "" && '/' !in segment && '?' !in segment && '#' !in segment
  }

  predicate AllClean(segments: seq<string>) {
    forall i :: 0 <= i < |segments| ==> CleanSegment(segments[i])
  }

  /** The non-empty path segments of a url are clean. */
  lemma PathSegmentsClean(url: string)
    ensures AllClean(NonEmpty(Split(EnsureLeadingSlash(StripQuery(url)), '/')))
  {
    var p := EnsureLeadingSlash(StripQuery(url));
    var pieces := Split(p, '/');
    StripQuerySpec(url);
    assert '?' !in p && '#' !in p;
    SplitNoSeparator(p, '/');
    if p != [] {
      FieldsAvoid(p, '/', '?');
      FieldsAvoid(p, '/', '#');
      assert forall i :: 0 <= i < |pieces| ==> pieces[i] == Fields(p, '/')[i];
    }
    var ne := NonEmpty(pieces);
    NonEmptyMembers(pieces);
    forall i | 0 <= i < |ne| ensures CleanSegment(ne[i]) {
      assert ne[i] in ne;
      var j :| 0 <= j < |pieces| && pieces[j] == ne[i];
    }
  }

  /** Rewriting keeps a segment clean. */
  lemma NormalizeSegmentsClean(segments: seq<string>)
    requires AllClean(segments)
    ensures AllClean(NormalizeSegments(segments))
  {
  }

  /** The segments normalizeUrl writes are clean. */
  lemma NormalizedPiecesClean(url: string)
    ensures AllClean(NormalizedPieces(url))
  {
    PathSegmentsClean(url);
    NormalizeSegmentsClean(NonEmpty(Split(EnsureLeadingSlash(StripQuery(url)), '/')));
  }

  /** A slashed path of clean segments starts with "/", has no empty segment and no '?' or '#'. */
  lemma SlashedClean(segments: seq<string>)
    requires segments != [] && AllClean(segments)
    ensures StartsWith(Slashed(segments), "/")
    ensures forall i :: 1 <= i < |Fields(Slashed(segments), '/')| ==> Fields(Slashed(segments), '/')[i] != ""
    ensures '?' !in Slashed(segments) && '#' !in Slashed(segments)
    ensures NonEmpty(Split(Slashed(segments), '/')) == segments
  {
    FieldsOfSlashed(segments);
    SlashedAvoids(segments, '?');
    SlashedAvoids(segments, '#');
    NonEmptyOfSlashed(segments);
  }

  /**
   * normalizeUrl gives "/" for null and empty input; otherwise a path that
   * starts with "/" and, unless it is "/", has no empty segment.
   */
  lemma NormalizedShape(url: Option<string>)
    ensures url.None? || url == Some("") ==> Normalized(url) == "/"
    ensures StartsWith(Normalized(url), "/")
    ensures Normalized(url) == "/" ||
      forall i :: 1 <= i < |Fields(Normalized(url), '/')| ==> Fields(Normalized(url), '/')[i] != ""
  {
    if url.Some? && url.value != [] && NormalizedPieces(url.value) != [] {
      NormalizedPiecesClean(url.value);
      SlashedClean(NormalizedPieces(url.value));
    }
  }

  /** normalizeUrl ignores everything from the first '?' or '#' on. */
  lemma NormalizedIgnoresQuery(path: string, tail: string)
    requires '?' !in path && '#' !in path
    requires tail != [] && (tail[0] == '?' || tail[0] == '#')
    ensures Normalized(Some(path + tail)) == Normalized(Some(path))
  {
    StripQueryOfSuffixed(path, tail);
    StripQueryNoMark(path);
    if path == [] {
      SplitRoot();
    }
  }

  /** "/".split("/") is empty. */
  lemma SplitRoot()
    ensures Split("/", '/') == []
  {
    FieldsOfSlashed([""]);
    assert Slashed([""]) == "/";
  }

  /** The path segments normalizeUrl works on: the non-empty pieces of the part before '?' or '#'. */
  function PathSegments(url: string): seq<string> {
    NonEmpty(Fields(StripQuery(url), '/'))
  }

  lemma PathSegmentsOfSplit(url: string)
    ensures NonEmpty(Split(EnsureLeadingSlash(StripQuery(url)), '/')) == PathSegments(url)
  {
    var p := StripQuery(url);
    NonEmptySplit(EnsureLeadingSlash(p), '/');
    if !StartsWith(p, "/") {
      NonEmptyFieldsSlash(p, '/');
    }
  }

  /**
   * The segments of normalizeUrl's result are the input's non-empty path
   * segments, in order, integers written `{int}`, UUIDs `{uuid}`, others as they are.
   */
  lemma NormalizedSegments(url: string)
    requires url != []
    ensures NonEmpty(Split(Normalized(Some(url)), '/')) == NormalizeSegments(PathSegments(url))
  {
    PathSegmentsOfSplit(url);
    var segments := NormalizedPieces(url);
    assert segments == NormalizeSegments(PathSegments(url));
    if segments == [] {
      SplitRoot();
    } else {
      NormalizedPiecesClean(url);
      SlashedClean(segments);
    }
  }

  /** The normal form of a rewritten segment is itself. */
  lemma NormalizeSegmentIdempotent(segment: string)
    ensures NormalizeSegment(NormalizeSegment(segment)) == NormalizeSegment(segment)
  {
    assert !IsInteger("{int}") by { ParseRejectsOther("{int}", 0, INT_MIN, INT_MAX); }
    assert !IsInteger("{uuid}") by { ParseRejectsOther("{uuid}", 0, INT_MIN, INT_MAX); }
  }

  /** Rewriting rewritten segments changes nothing. */
  lemma NormalizeSegmentsIdempotent(segments: seq<string>)
    ensures NormalizeSegments(NormalizeSegments(segments)) == NormalizeSegments(segments)
  {
    forall i | 0 <= i < |segments|
      ensures NormalizeSegment(NormalizeSegment(segments[i])) == NormalizeSegment(segments[i])
    {
      NormalizeSegmentIdempotent(segments[i]);
    }
  }

  /** Normalising a normalised url changes nothing. */
  lemma NormalizedIdempotent(url: Option<string>)
    ensures Normalized(Some(Normalized(url))) == Normalized(url)
  {
    var n := Normalized(url);
    if n == "/" {
      assert StripQuery("/") == "/";
      SplitRoot();
      assert NormalizedPieces("/") == [];
    } else {
      var segments := NormalizedPieces(url.value);
      NormalizedPiecesClean(url.value);
      SlashedClean(segments);
      StripQueryNoMark(n);
      assert NormalizedPieces(n) == NormalizeSegments(segments);
      NormalizeSegmentsIdempotent(NonEmpty(Split(EnsureLeadingSlash(StripQuery(url.value)), '/')));
    }
  }

  // ---------------------------------------------------------------------------
  // Templates and matchesPattern

  /** The path part of a template, as templateToRegex and extractParameters read it. */
  function TemplatePath(template: string): string {
    EnsureLeadingSlash(StripQuery(template))
  }

  /** A segment the regex of templateToRegex turns into `[^/]+`: `{`, one or more characters other than `}`, `}`. */
  predicate IsPlaceholder(segment: string) {
    |segment| >= 3 && segment[0] == '{' && segment[|segment| - 1] == '}' &&
    forall j :: 1 <= j < |segment| - 1 ==> segment[j] != '}'
  }

  /** A character that stands for itself in the regex of templateToRegex. */
  predicate IsLiteralChar(c: char) {
    c != '{' && c != '}' && c != '[' && c != ']' && c != '\\'
  }

  /** A template whose every segment is a placeholder or free of characters the regex would not escape. */
  predicate WellFormedTemplate(template: string) {
    var segments := Fields(TemplatePath(template), '/');
    forall i :: 0 <= i < |segments| ==>
      IsPlaceholder(segments[i]) || forall j :: 0 <= j < |segments[i]| ==> IsLiteralChar(segments[i][j])
  }

  /** The url segments line up with the template segments. */
  predicate SegmentsMatch(urlSegments: seq<string>, templateSegments: seq<string>) {
    |urlSegments| == |templateSegments| &&
    forall i :: 0 <= i < |templateSegments| ==>
      if IsPlaceholder(templateSegments[i]) then urlSegments[i] != "" else urlSegments[i] == templateSegments[i]
  }

  /** matchesPattern(url, template) */
  predicate MatchesPattern(url: string, template: string) {
    SegmentsMatch(Fields(StripQuery(url), '/'), Fields(TemplatePath(template), '/'))
  }

  /** The template's segments with placeholders replaced by the values at the same positions. */
  function Fill(segments: seq<string>, values: seq<string>): seq<string>
    requires |values| == |segments|
  {
    seq(|segments|, i requires 0 <= i < |segments| => if IsPlaceholder(segments[i]) then values[i] else segments[i])
  }

  /** Values fit for the placeholders: non-empty and slash-free where a placeholder is. */
  predicate FitsPlaceholders(segments: seq<string>, values: seq<string>) {
    |values| == |segments| &&
    forall i :: 0 <= i < |segments| && IsPlaceholder(segments[i]) ==> values[i] != "" && '/' !in values[i]
  }

  /** A matching url is an instance: its own segments fill the placeholders. */
  lemma MatchIsInstance(url: string, template: string)
    requires MatchesPattern(url, template)
    ensures var segments := Fields(TemplatePath(template), '/');
      var values := Fields(StripQuery(url), '/');
      FitsPlaceholders(segments, values) && StripQuery(url) == Join(Fill(segments, values), '/')
  {
    var segments := Fields(TemplatePath(template), '/');
    var clean := StripQuery(url);
    var values := Fields(clean, '/');
    FieldsNoSeparator(clean, '/');
    assert Fill(segments, values) == values;
    JoinFields(clean, '/');
  }

  /** An instance matches. */
  lemma InstanceMatches(url: string, template: string, values: seq<string>)
    requires var segments := Fields(TemplatePath(template), '/');
      FitsPlaceholders(segments, values) && StripQuery(url) == Join(Fill(segments, values), '/')
    ensures MatchesPattern(url, template)
  {
    var segments := Fields(TemplatePath(template), '/');
    var filled := Fill(segments, values);
    FieldsNoSeparator(TemplatePath(template), '/');
    assert forall i :: 0 <= i < |filled| ==> '/' !in filled[i];
    FieldsJoin(filled, '/');
  }

  /**
   * A url matches a template exactly when its part before '?' or '#' is the
   * template's path with every placeholder replaced by a non-empty slash-free
   * string: the language of the regex templateToRegex builds.
   */
  lemma MatchesPatternIffInstance(url: string, template: string)
    ensures var segments := Fields(TemplatePath(template), '/');
      MatchesPattern(url, template) <==>
      exists values :: FitsPlaceholders(segments, values) && StripQuery(url) == Join(Fill(segments, values), '/')
  {
    var segments := Fields(TemplatePath(template), '/');
    if MatchesPattern(url, template) {
      MatchIsInstance(url, template);
    }
    if exists values :: FitsPlaceholders(segments, values) && StripQuery(url) == Join(Fill(segments, values), '/') {
      var values :| FitsPlaceholders(segments, values) && StripQuery(url) == Join(Fill(segments, values), '/');
      InstanceMatches(url, template, values);
    }
  }

  /** An empty template matches only "/", as the regex `^/$` does. */
  lemma MatchesEmptyTemplate(url: string)
    ensures MatchesPattern(url, "") <==> StripQuery(url) == "/"
  {
    var clean := StripQuery(url);
    assert TemplatePath("") == "/";
    FieldsOfSlashed([""]);
    assert Slashed([""]) == "/";
    if MatchesPattern(url, "") {
      JoinFields(clean, '/');
      assert Fields(clean, '/') == ["", ""];
    }
  }

  // ---------------------------------------------------------------------------
  // findMatchingPattern

  /**
   * What findMatchingPattern may return for `url` among `keys`: the cleaned
   * url when it is a key; otherwise some key the url matches; otherwise some
   * key with the same normal form; otherwise null. Which key a stage yields
   * depends on the map's iteration order, so any key of the stage is allowed.
   */
  predicate IsBestMatch(keys: set<string>, url: string, r: Option<string>) {
    var clean := StripQuery(url);
    if clean in keys then r == Some(clean)
    else if exists k :: k in keys && MatchesPattern(clean, k) then
      r.Some? && r.value in keys && MatchesPattern(clean, r.value)
    else if exists k :: k in keys && Normalized(Some(k)) == Normalized(Some(clean)) then
      r.Some? && r.value in keys && Normalized(Some(r.value)) == Normalized(Some(clean))
    else r == None
  }

  /** findMatchingPattern */
  method FindMatchingPattern<V>(patternMap: map<string, V>, url: string) returns (r: Option<string>)
    ensures IsBestMatch(patternMap.Keys, url, r)
  {
    var cleanUrl := StripQuery(url);
    if cleanUrl in patternMap {
      return Some(cleanUrl);
    }
    var remaining := patternMap.Keys;
    while remaining != {}
      invariant remaining <= patternMap.Keys
      invariant forall k :: k in patternMap.Keys - remaining ==> !MatchesPattern(cleanUrl, k)
      decreases |remaining|
    {
      var pattern :| pattern in remaining;
      if MatchesPattern(cleanUrl, pattern) {
        return Some(pattern);
      }
      remaining := remaining - {pattern};
    }
    var normalizedUrl := NormalizeUrl(Some(cleanUrl));
    remaining := patternMap.Keys;
    while remaining != {}
      invariant remaining <= patternMap.Keys
      invariant forall k :: k in patternMap.Keys - remaining ==> Normalized(Some(k)) != normalizedUrl
      decreases |remaining|
    {
      var pattern :| pattern in remaining;
      var normalizedPattern := NormalizeUrl(Some(pattern));
      if normalizedUrl == normalizedPattern {
        return Some(pattern);
      }
      remaining := remaining - {pattern};
    }
    return None;
  }

  /** A result of the search is always a key of the map. */
  lemma BestMatchIsKey(keys: set<string>, url: string, r: Option<string>)
    requires IsBestMatch(keys, url, r)
    ensures r.Some? ==> r.value in keys
    ensures r.None? <==>
      StripQuery(url) !in keys &&
      (forall k :: k in keys ==> !MatchesPattern(StripQuery(url), k)) &&
      (forall k :: k in keys ==> Normalized(Some(k)) != Normalized(Some(StripQuery(url))))
  {
  }

  // ---------------------------------------------------------------------------
  // extractParameters

  /** `segment.startsWith("{") && segment.endsWith("}")`: at least two characters, the first '{', the last '}'. */
  predicate IsBraced(segment: string) {
    |segment| >= 2 && segment[0] == '{' && segment[|segment| - 1] == '}'
  }

  /** What lies between the braces. */
  function Name(segment: string): string
    requires IsBraced(segment)
  {
    segment[1..|segment| - 1]
  }

  /** The puts of the extraction loop over the first |templateSegments| positions, later ones overwriting earlier ones. */
  function Bindings(templateSegments: seq<string>, urlSegments: seq<string>): map<string, string>
    requires |templateSegments| == |urlSegments|
    decreases |templateSegments|
  {
    if templateSegments == [] then map[]
    else
      var n := |templateSegments| - 1;
      var earlier := Bindings(templateSegments[..n], urlSegments[..n]);
      if IsBraced(templateSegments[n]) then earlier[Name(templateSegments[n]) := urlSegments[n]] else earlier
  }

  /** The value of extractParameters(url, template). */
  function Parameters(url: string, template: string): map<string, string> {
    var urlSegments := Split(EnsureLeadingSlash(StripQuery(url)), '/');
    var templateSegments := Split(TemplatePath(template), '/');
    if |urlSegments| != |templateSegments| then map[] else Bindings(templateSegments, urlSegments)
  }

  /** extractParameters */
  method ExtractParameters(url: string, template: string) returns (parameters: map<string, string>)
    ensures parameters == Parameters(url, template)
  {
    parameters := map[];
    var cleanUrl := StripQuery(url);
    var cleanTemplate := StripQuery(template);
    if !StartsWith(cleanUrl, "/") {
      cleanUrl := "/" + cleanUrl;
    }
    if !StartsWith(cleanTemplate, "/") {
      cleanTemplate := "/" + cleanTemplate;
    }
    var urlSegments := Split(cleanUrl, '/');
    var templateSegments := Split(cleanTemplate, '/');
    if |urlSegments| != |templateSegments| {
      return;
    }
    for i := 0 to |templateSegments|
      invariant parameters == Bindings(templateSegments[..i], urlSegments[..i])
    {
      var templateSegment := templateSegments[i];
      assert templateSegments[..i + 1][..i] == templateSegments[..i];
      assert urlSegments[..i + 1][..i] == urlSegments[..i];
      if IsBraced(templateSegment) {
        var paramName := Name(templateSegment);
        parameters := parameters[paramName := urlSegments[i]];
      }
    }
    assert templateSegments[..|templateSegments|] == templateSegments;
    assert urlSegments[..|urlSegments|] == urlSegments;
  }

  /** The names of the braced segments. */
  function BracedNames(segments: seq<string>): set<string>
    decreases |segments|
  {
    if segments == [] then {}
    else
      var n := |segments| - 1;
      BracedNames(segments[..n]) + if IsBraced(segments[n]) then {Name(segments[n])} else {}
  }

  /** The names of the braced segments are the names of the segments that are braced. */
  lemma {:induction false} BracedNamesMembers(segments: seq<string>)
    ensures forall k :: k in BracedNames(segments) <==>
      exists i :: 0 <= i < |segments| && IsBraced(segments[i]) && Name(segments[i]) == k
    decreases |segments|
  {
    if segments != [] {
      var n := |segments| - 1;
      BracedNamesMembers(segments[..n]);
      assert forall i :: 0 <= i < n ==> segments[..n][i] == segments[i];
    }
  }

  /** Position `i` holds the last braced segment with its name. */
  predicate LastWithName(segments: seq<string>, i: int)
    requires 0 <= i < |segments| && IsBraced(segments[i])
  {
    forall j :: i < j < |segments| && IsBraced(segments[j]) ==> Name(segments[j]) != Name(segments[i])
  }

  /** The bindings have exactly the braced names as keys. */
  lemma {:induction false} BindingsKeys(templateSegments: seq<string>, urlSegments: seq<string>)
    requires |templateSegments| == |urlSegments|
    ensures Bindings(templateSegments, urlSegments).Keys == BracedNames(templateSegments)
    decreases |templateSegments|
  {
    if templateSegments != [] {
      var n := |templateSegments| - 1;
      BindingsKeys(templateSegments[..n], urlSegments[..n]);
    }
  }

  /** Each name is bound to the url segment at the position of its last occurrence. */
  lemma {:induction false} BindingsLast(templateSegments: seq<string>, urlSegments: seq<string>, i: int)
    requires |templateSegments| == |urlSegments|
    requires 0 <= i < |templateSegments| && IsBraced(templateSegments[i]) && LastWithName(templateSegments, i)
    ensures Name(templateSegments[i]) in Bindings(templateSegments, urlSegments)
    ensures Bindings(templateSegments, urlSegments)[Name(templateSegments[i])] == urlSegments[i]
    decreases |templateSegments|
  {
    var n := |templateSegments| - 1;
    if i < n {
      var ts, us := templateSegments[..n], urlSegments[..n];
      assert ts[i] == templateSegments[i] && us[i] == urlSegments[i];
      assert LastWithName(ts, i) by {
        forall j | i < j < |ts| && IsBraced(ts[j]) ensures Name(ts[j]) != Name(ts[i]) {
          assert ts[j] == templateSegments[j];
        }
      }
      BindingsLast(ts, us, i);
    }
  }

  /**
   * extractParameters gives an empty map when url and template have different
   * segment counts; otherwise a map from the names of the braced template
   * segments, each to the url segment at the position of its last occurrence.
   */
  lemma ParametersSpec(url: string, template: string)
    ensures var urlSegments := Split(EnsureLeadingSlash(StripQuery(url)), '/');
      var templateSegments := Split(TemplatePath(template), '/');
      (|urlSegments| != |templateSegments| ==> Parameters(url, template) == map[]) &&
      (|urlSegments| == |templateSegments| ==>
        Parameters(url, template).Keys == BracedNames(templateSegments) &&
        forall i :: 0 <= i < |templateSegments| && IsBraced(templateSegments[i]) && LastWithName(templateSegments, i) ==>
          Name(templateSegments[i]) in Parameters(url, template) &&
          Parameters(url, template)[Name(templateSegments[i])] == urlSegments[i])
  {
    var urlSegments := Split(EnsureLeadingSlash(StripQuery(url)), '/');
    var templateSegments := Split(TemplatePath(template), '/');
    if |urlSegments| == |templateSegments| {
      BindingsKeys(templateSegments, urlSegments);
      forall i | 0 <= i < |templateSegments| && IsBraced(templateSegments[i]) && LastWithName(templateSegments, i)
        ensures Name(templateSegments[i]) in Parameters(url, template)
        ensures Parameters(url, template)[Name(templateSegments[i])] == urlSegments[i]
      {
        BindingsLast(templateSegments, urlSegments, i);
      }
    }
  }

  // ---------------------------------------------------------------------------
  // Round trip: substitute values into a template, then match and extract

  /** Every placeholder of `segments` has a value in `env`. */
  predicate Covers(env: map<string, string>, segments: seq<string>) {
    forall i :: 0 <= i < |segments| && IsPlaceholder(segments[i]) ==> Name(segments[i]) in env
  }

  /** A value for each placeholder, taken from `env` by name. */
  function ValuesFor(segments: seq<string>, env: map<string, string>): seq<string>
    requires Covers(env, segments)
  {
    seq(|segments|, i requires 0 <= i < |segments| =>
      if IsPlaceholder(segments[i]) then env[Name(segments[i])] else segments[i])
  }

  /** The url a template denotes once its placeholders take the values of `env`. */
  function Substitute(template: string, env: map<string, string>): string
    requires Covers(env, Fields(TemplatePath(template), '/'))
  {
    var segments := Fields(TemplatePath(template), '/');
    Join(Fill(segments, ValuesFor(segments, env)), '/')
  }

  /** Values fit for a url segment: non-empty and free of '/', '?', '#'. */
  predicate CleanValues(env: map<string, string>) {
    forall k :: k in env ==> env[k] != "" && '/' !in env[k] && '?' !in env[k] && '#' !in env[k]
  }

  /** The names of a template's placeholders. */
  function TemplateNames(template: string): set<string> {
    BracedNames(Split(TemplatePath(template), '/'))
  }

  /** In a well-formed template a braced segment is a placeholder. */
  lemma WellFormedBraced(template: string, i: int)
    requires WellFormedTemplate(template)
    requires 0 <= i < |Fields(TemplatePath(template), '/')|
    ensures var segment := Fields(TemplatePath(template), '/')[i];
      IsBraced(segment) <==> IsPlaceholder(segment)
  {
  }

  /** A substituted url matches its template. */
  lemma SubstituteMatches(template: string, env: map<string, string>)
    requires Covers(env, Fields(TemplatePath(template), '/'))
    requires CleanValues(env)
    ensures MatchesPattern(Substitute(template, env), template)
    ensures '?' !in Substitute(template, env) && '#' !in Substitute(template, env)
  {
    var p := TemplatePath(template);
    var segments := Fields(p, '/');
    var filled := Fill(segments, ValuesFor(segments, env));
    var u := Join(filled, '/');
    StripQuerySpec(template);
    assert '?' !in p && '#' !in p;
    FieldsAvoid(p, '/', '?');
    FieldsAvoid(p, '/', '#');
    JoinAvoids(filled, '/', '?');
    JoinAvoids(filled, '/', '#');
    StripQueryNoMark(u);
    InstanceMatches(u, template, ValuesFor(segments, env));
  }

  /** The fields of a substituted url are the template's fields with the values filled in. */
  lemma SubstituteFields(template: string, env: map<string, string>)
    requires Covers(env, Fields(TemplatePath(template), '/'))
    requires CleanValues(env)
    ensures var segments := Fields(TemplatePath(template), '/');
      Fields(Substitute(template, env), '/') == Fill(segments, ValuesFor(segments, env))
  {
    var segments := Fields(TemplatePath(template), '/');
    var filled := Fill(segments, ValuesFor(segments, env));
    FieldsNoSeparator(TemplatePath(template), '/');
    assert forall i :: 0 <= i < |filled| ==> '/' !in filled[i];
    FieldsJoin(filled, '/');
  }

  /** A substituted url starts with '/' and has no query part, so extractParameters reads it unchanged. */
  lemma SubstituteLeadingSlash(template: string, env: map<string, string>)
    requires Covers(env, Fields(TemplatePath(template), '/'))
    requires CleanValues(env)
    ensures var u := Substitute(template, env);
      u != [] && EnsureLeadingSlash(StripQuery(u)) == u
  {
    SubstituteMatches(template, env);
    var p := TemplatePath(template);
    var segments := Fields(p, '/');
    var filled := Fill(segments, ValuesFor(segments, env));
    StripQueryNoMark(Substitute(template, env));
    assert p == ['/'] + p[1..];
    FieldsSepCons(p[1..], '/');
    assert filled[0] == "";
    JoinStartsWithEmpty(filled, '/');
  }

  /**
   * Substituting clean values for the placeholders of a well-formed template
   * gives a url that matches the template, and extracting parameters from it
   * recovers exactly those values.
   */
  lemma SubstituteRoundTrip(template: string, env: map<string, string>)
    requires WellFormedTemplate(template)
    requires Covers(env, Fields(TemplatePath(template), '/'))
    requires CleanValues(env)
    ensures MatchesPattern(Substitute(template, env), template)
    ensures TemplateNames(template) <= env.Keys
    ensures Parameters(Substitute(template, env), template) == map k | k in TemplateNames(template) :: env[k]
  {
    SubstituteMatches(template, env);
    SubstituteFields(template, env);
    SubstituteLeadingSlash(template, env);
    var p := TemplatePath(template);
    var segments := Fields(p, '/');
    var filled := Fill(segments, ValuesFor(segments, env));
    assert p != [];
    var us := DropTrailingEmpty(filled);
    var ts := DropTrailingEmpty(segments);
    assert forall i :: 0 <= i < |filled| ==> (filled[i] == "" <==> segments[i] == "");
    DropTrailingEmptySameShape(filled, segments);
    forall i | 0 <= i < |ts| && IsBraced(ts[i])
      ensures Name(ts[i]) in env && us[i] == env[Name(ts[i])]
    {
      assert ts[i] == segments[i] && us[i] == filled[i];
      WellFormedBraced(template, i);
    }
    BindingsOfValues(ts, us, env);
  }

  /** Extracting from positions whose url segment is the env value of the placeholder's name yields env on those names. */
  lemma {:induction false} BindingsOfValues(ts: seq<string>, us: seq<string>, env: map<string, string>)
    requires |ts| == |us|
    requires forall i :: 0 <= i < |ts| && IsBraced(ts[i]) ==> Name(ts[i]) in env && us[i] == env[Name(ts[i])]
    ensures BracedNames(ts) <= env.Keys
    ensures Bindings(ts, us) == map k | k in BracedNames(ts) :: env[k]
    decreases |ts|
  {
    if ts != [] {
      var n := |ts| - 1;
      assert forall i :: 0 <= i < n ==> ts[..n][i] == ts[i] && us[..n][i] == us[i];
      BindingsOfValues(ts[..n], us[..n], env);
    }
  }

  /** A join whose first part is empty, of two or more parts, starts with the separator. */
  lemma JoinStartsWithEmpty(parts: seq<string>, c: char)
    requires |parts| >= 2 && parts[0] == ""
    ensures StartsWith(Join(parts, c), [c])
  {
  }

  /** Dropping trailing empties cuts two sequences with empties at the same positions to the same length. */
  lemma {:induction false} DropTrailingEmptySameShape(a: seq<string>, b: seq<string>)
    requires |a| == |b|
    requires forall i :: 0 <= i < |a| ==> (a[i] == "" <==> b[i] == "")
    ensures |DropTrailingEmpty(a)| == |DropTrailingEmpty(b)|
    decreases |a|
  {
    if a != [] && a[|a| - 1] == "" {
      DropTrailingEmptySameShape(a[..|a| - 1], b[..|b| - 1]);
    }
  }
}
