/**
 * The java.lang.String operations the framework uses, over `string` (= seq<char>).
 * Case mapping covers the ASCII letters only.
 */
module JavaStrings {

  // ---------------------------------------------------------------------------
  // Prefixes, suffixes, containment

  /** `s.startsWith(p)` */
  predicate StartsWith(s: string, p: string) {
    |p| <= |s| && s[..|p|] == p
  }

  /** `s.endsWith(p)` */
  predicate EndsWith(s: string, p: string) {
    |p| <= |s| && s[|s| - |p|..] == p
  }

  /** `if (!s.startsWith("/")) s = "/" + s;` */
  function EnsureLeadingSlash(s: string): string {
    if StartsWith(s, "/") then s else "/" + s
  }

  /** `s.contains(p)`: `p` occurs in `s` at some position. */
  predicate Contains(s: string, p: string)
    decreases |s|
  {
    StartsWith(s, p) || (s != [] && Contains(s[1..], p))
  }

  /** `s.contains(String.valueOf(c))` is a test for the character. */
  lemma {:induction false} ContainsChar(s: string, c: char)
    ensures Contains(s, [c]) <==> c in s
    decreases |s|
  {
    if s != [] {
      ContainsChar(s[1..], c);
      assert s == [s[0]] + s[1..];
    }
  }

  /** If `p + q` occurs in `s`, so does `p`. */
  lemma {:induction false} ContainsPrefixOf(s: string, p: string, q: string)
    requires Contains(s, p + q)
    ensures Contains(s, p)
    decreases |s|
  {
    if StartsWith(s, p + q) {
      assert s[..|p|] == s[..|p + q|][..|p|];
      assert (p + q)[..|p|] == p;
    } else {
      ContainsPrefixOf(s[1..], p, q);
    }
  }

  // ---------------------------------------------------------------------------
  // Case mapping (ASCII)

  function LowerChar(c: char): char {
    if 'A' <= c <= 'Z' then (c as int + 32) as char else c
  }

  function UpperChar(c: char): char {
    if 'a' <= c <= 'z' then (c as int - 32) as char else c
  }

  /** `s.toLowerCase()` */
  function ToLower(s: string): string {
    seq(|s|, i requires 0 <= i < |s| => LowerChar(s[i]))
  }

  /** `s.toUpperCase()` */
  function ToUpper(s: string): string {
    seq(|s|, i requires 0 <= i < |s| => UpperChar(s[i]))
  }

  /** `a.equalsIgnoreCase(b)` */
  predicate EqualsIgnoreCase(a: string, b: string) {
    ToUpper(a) == ToUpper(b)
  }

  /** Upper-casing is idempotent, so upper-cased keys are found by an upper-casing lookup. */
  lemma ToUpperIdempotent(s: string)
    ensures ToUpper(ToUpper(s)) == ToUpper(s)
  {
  }

  /** Upper-casing forgets the case of the input: `w` and `w.toLowerCase()` upper-case alike. */
  lemma ToUpperOfToLower(s: string)
    ensures ToUpper(ToLower(s)) == ToUpper(s)
  {
  }

  /** Lower-casing keeps the non-letters in place, so it creates and hides no `c` that is not a letter. */
  lemma {:induction false} ContainsToLower(s: string, p: string)
    requires forall i :: 0 <= i < |p| ==> LowerChar(p[i]) == p[i] && UpperChar(p[i]) == p[i]
    ensures Contains(ToLower(s), p) <==> Contains(s, p)
    decreases |s|
  {
    var l := ToLower(s);
    assert StartsWith(l, p) <==> StartsWith(s, p) by {
      if |p| <= |s| {
        if StartsWith(s, p) {
          assert forall i :: 0 <= i < |p| ==> l[i] == p[i];
          assert l[..|p|] == p;
        }
        if StartsWith(l, p) {
          forall i | 0 <= i < |p| ensures s[i] == p[i] {
            assert l[i] == p[i];
            assert LowerChar(s[i]) == p[i];
          }
          assert s[..|p|] == p;
        }
      }
    }
    if s != [] {
      assert l[1..] == ToLower(s[1..]);
      ContainsToLower(s[1..], p);
    }
  }

  /**
   * `s.trim().isEmpty()`: trim() removes every leading and trailing character
   * not above U+0020, so the trimmed string is empty exactly when every
   * character of `s` is such a character.
   */
  predicate IsBlank(s: string) {
    forall i :: 0 <= i < |s| ==> s[i] <= ' '
  }

  // ---------------------------------------------------------------------------
  // Replacement

  /** `s.replace(String.valueOf(c), by)`: every occurrence of `c` becomes `by`. */
  function ReplaceChar(s: string, c: char, rep: string): string
    decreases |s|
  {
    if s == [] then [] else (if s[0] == c then rep else [s[0]]) + ReplaceChar(s[1..], c, rep)
  }

  /** Replacing distributes over concatenation. */
  lemma {:induction false} ReplaceCharConcat(a: string, b: string, c: char, rep: string)
    ensures ReplaceChar(a + b, c, rep) == ReplaceChar(a, c, rep) + ReplaceChar(b, c, rep)
    decreases |a|
  {
    if a != [] {
      assert (a + b)[0] == a[0] && (a + b)[1..] == a[1..] + b;
      ReplaceCharConcat(a[1..], b, c, rep);
    } else {
      assert a + b == b;
    }
  }

  /** Replacing in a one-character string. */
  lemma ReplaceCharSingle(x: char, c: char, rep: string)
    ensures ReplaceChar([x], c, rep) == if x == c then rep else [x]
  {
    assert [x][1..] == [];
  }

  /** A string without `c` is left as it is. */
  lemma {:induction false} ReplaceCharAbsent(s: string, c: char, rep: string)
    requires c !in s
    ensures ReplaceChar(s, c, rep) == s
    decreases |s|
  {
    if s != [] {
      ReplaceCharAbsent(s[1..], c, rep);
    }
  }

  /** `s.replace(c, d)` for two characters. */
  function ReplaceEach(s: string, c: char, d: char): string {
    seq(|s|, i requires 0 <= i < |s| => if s[i] == c then d else s[i])
  }

  /** Replacing the separator of a join of separator-free parts re-joins them with the new separator. */
  lemma {:induction false} ReplaceEachJoin(parts: seq<string>, c: char, d: char)
    requires forall i :: 0 <= i < |parts| ==> c !in parts[i]
    ensures ReplaceEach(Join(parts, c), c, d) == Join(parts, d)
    decreases |parts|
  {
    if |parts| == 1 {
      assert ReplaceEach(parts[0], c, d) == parts[0];
    } else if |parts| > 1 {
      ReplaceEachJoin(parts[1..], c, d);
      var head := parts[0] + [c];
      var tail := Join(parts[1..], c);
      assert Join(parts, c) == head + tail;
      assert ReplaceEach(head + tail, c, d) == ReplaceEach(head, c, d) + ReplaceEach(tail, c, d);
      assert ReplaceEach(head, c, d) == parts[0] + [d];
    }
  }

  // ---------------------------------------------------------------------------
  // Query strings

  /**
   * `s.split("[?#]", 2)[0]`: the part of `s` before its first '?' or '#'
   * (all of `s` when it has neither).
   */
  function StripQuery(s: string): string
    decreases |s|
  {
    if s == [] || s[0] == '?' || s[0] == '#' then [] else [s[0]] + StripQuery(s[1..])
  }

  /** The query-free part is a prefix without '?' and '#', followed in `s` by '?' or '#' when shorter. */
  lemma {:induction false} StripQuerySpec(s: string)
    ensures StartsWith(s, StripQuery(s))
    ensures '?' !in StripQuery(s) && '#' !in StripQuery(s)
    ensures |StripQuery(s)| < |s| ==> s[|StripQuery(s)|] == '?' || s[|StripQuery(s)|] == '#'
    decreases |s|
  {
    if !(s == [] || s[0] == '?' || s[0] == '#') {
      StripQuerySpec(s[1..]);
    }
  }

  /** Stripping twice strips nothing more. */
  lemma StripQueryIdempotent(s: string)
    ensures StripQuery(StripQuery(s)) == StripQuery(s)
  {
    StripQuerySpec(s);
    StripQueryNoMark(StripQuery(s));
  }

  /** A string without '?' and '#' is its own query-free part. */
  lemma {:induction false} StripQueryNoMark(s: string)
    requires '?' !in s && '#' !in s
    ensures StripQuery(s) == s
    decreases |s|
  {
    if s != [] {
      StripQueryNoMark(s[1..]);
    }
  }

  /** What follows the first '?' or '#' does not matter. */
  lemma {:induction false} StripQueryOfSuffixed(p: string, tail: string)
    requires '?' !in p && '#' !in p
    requires tail != [] && (tail[0] == '?' || tail[0] == '#')
    ensures StripQuery(p + tail) == p
    decreases |p|
  {
    if p != [] {
      assert (p + tail)[1..] == p[1..] + tail;
      StripQueryOfSuffixed(p[1..], tail);
    }
  }

  // ---------------------------------------------------------------------------
  // Splitting and joining

  /** The index of the first `c` in `s`. */
  function IndexOf(s: string, c: char): (i: nat)
    requires c in s
    ensures i < |s| && s[i] == c && c !in s[..i]
    decreases |s|
  {
    if s[0] == c then 0
    else
      var j := IndexOf(s[1..], c);
      assert s[..j + 1] == [s[0]] + s[1..][..j];
      1 + j
  }

  /** Every piece of `s` between occurrences of `c`, the empty ones included. */
  function Fields(s: string, c: char): (r: seq<string>)
    ensures |r| >= 1
    decreases |s|
  {
    if c in s then
      var i := IndexOf(s, c);
      [s[..i]] + Fields(s[i + 1..], c)
    else
      [s]
  }

  /** No field contains the separator. */
  lemma {:induction false} FieldsNoSeparator(s: string, c: char)
    ensures forall i :: 0 <= i < |Fields(s, c)| ==> c !in Fields(s, c)[i]
    decreases |s|
  {
    if c in s {
      var i := IndexOf(s, c);
      FieldsNoSeparator(s[i + 1..], c);
    }
  }

  /** The empty strings at the end of `r` dropped. */
  function DropTrailingEmpty(r: seq<string>): (d: seq<string>)
    ensures |d| <= |r| && d == r[..|d|]
  {
    if r != [] && r[|r| - 1] == "" then DropTrailingEmpty(r[..|r| - 1]) else r
  }

  /** What is dropped is all empty, and what is kept does not end with an empty string. */
  lemma {:induction false} DropTrailingEmptySpec(r: seq<string>)
    ensures var d := DropTrailingEmpty(r);
      (d == [] || d[|d| - 1] != "") && forall i :: |d| <= i < |r| ==> r[i] == ""
  {
    if r != [] && r[|r| - 1] == "" {
      DropTrailingEmptySpec(r[..|r| - 1]);
    }
  }

  /**
   * `s.split(String.valueOf(c))`: an empty `s` gives [""]; otherwise every
   * field, a leading empty one kept and the trailing empty ones dropped.
   */
  function Split(s: string, c: char): seq<string> {
    if s == [] then [""] else DropTrailingEmpty(Fields(s, c))
  }

  /** No piece of a split contains the separator. */
  lemma SplitNoSeparator(s: string, c: char)
    ensures forall i :: 0 <= i < |Split(s, c)| ==> c !in Split(s, c)[i]
  {
    if s != [] {
      var r := Fields(s, c);
      FieldsNoSeparator(s, c);
      assert forall i :: 0 <= i < |Split(s, c)| ==> Split(s, c)[i] == r[i];
    }
  }

  /** The pieces of a string that lacks `x` lack `x` too. */
  lemma {:induction false} FieldsAvoid(s: string, c: char, x: char)
    requires x !in s
    ensures forall i :: 0 <= i < |Fields(s, c)| ==> x !in Fields(s, c)[i]
    decreases |s|
  {
    if c in s {
      var i := IndexOf(s, c);
      assert forall ch :: ch in s[..i] ==> ch in s;
      assert forall ch :: ch in s[i + 1..] ==> ch in s;
      FieldsAvoid(s[i + 1..], c, x);
    }
  }

  /** `parts` joined with `c` in between. */
  function Join(parts: seq<string>, c: char): string {
    if parts == [] then []
    else if |parts| == 1 then parts[0]
    else parts[0] + [c] + Join(parts[1..], c)
  }

  /** A join of parts free of `x` is free of `x`, when `x` is not the separator. */
  lemma {:induction false} JoinAvoids(parts: seq<string>, c: char, x: char)
    requires x != c
    requires forall i :: 0 <= i < |parts| ==> x !in parts[i]
    ensures x !in Join(parts, c)
    decreases |parts|
  {
    if |parts| > 1 {
      JoinAvoids(parts[1..], c, x);
    }
  }

  /** Joining the fields of `s` gives `s` back. */
  lemma {:induction false} JoinFields(s: string, c: char)
    ensures Join(Fields(s, c), c) == s
    decreases |s|
  {
    if c in s {
      var i := IndexOf(s, c);
      JoinFields(s[i + 1..], c);
      assert s == s[..i] + [c] + s[i + 1..];
    }
  }

  /** Splitting a join of separator-free parts gives the parts back. */
  lemma {:induction false} FieldsJoin(parts: seq<string>, c: char)
    requires |parts| >= 1
    requires forall i :: 0 <= i < |parts| ==> c !in parts[i]
    ensures Fields(Join(parts, c), c) == parts
    decreases |parts|
  {
    if |parts| > 1 {
      var s := Join(parts, c);
      var t := Join(parts[1..], c);
      assert s == parts[0] + [c] + t;
      FirstSeparator(parts[0], t, c);
      assert s[..|parts[0]|] == parts[0];
      assert s[|parts[0]| + 1..] == t;
      FieldsJoin(parts[1..], c);
    } else {
      assert c !in parts[0];
    }
  }

  /** The first `c` of `h + [c] + t`, when `h` has none, sits right after `h`. */
  lemma FirstSeparator(h: string, t: string, c: char)
    requires c !in h
    ensures c in h + [c] + t && IndexOf(h + [c] + t, c) == |h|
  {
    var s := h + [c] + t;
    assert s[|h|] == c;
    assert s[..|h|] == h;
  }

  /** Splitting a string that starts with character `ch`. */
  lemma FieldsCons(ch: char, t: string, c: char)
    ensures Fields([ch] + t, c) ==
      if ch == c then [""] + Fields(t, c)
      else [[ch] + Fields(t, c)[0]] + Fields(t, c)[1..]
  {
    var s := [ch] + t;
    assert s[1..] == t;
    if ch == c {
      assert IndexOf(s, c) == 0;
    } else if c in t {
      var j := IndexOf(t, c);
      assert IndexOf(s, c) == 1 + j;
      assert s[..1 + j] == [ch] + t[..j];
      assert s[1 + j + 1..] == t[j + 1..];
    } else {
      assert c !in s;
    }
  }

  // ---------------------------------------------------------------------------
  // Non-empty segments

  /** The non-empty strings of `r`, in order. */
  function NonEmpty(r: seq<string>): (n: seq<string>)
    ensures |n| <= |r|
  {
    if r == [] then [] else (if r[0] == "" then [] else [r[0]]) + NonEmpty(r[1..])
  }

  /** The non-empty strings of `r` are the members of `r` other than "". */
  lemma {:induction false} NonEmptyMembers(r: seq<string>)
    ensures forall x :: x in NonEmpty(r) <==> x in r && x != ""
  {
    if r != [] {
      NonEmptyMembers(r[1..]);
      assert r == [r[0]] + r[1..];
    }
  }

  lemma {:induction false} NonEmptyConcat(a: seq<string>, b: seq<string>)
    ensures NonEmpty(a + b) == NonEmpty(a) + NonEmpty(b)
    decreases |a|
  {
    if a != [] {
      assert (a + b)[0] == a[0] && (a + b)[1..] == a[1..] + b;
      NonEmptyConcat(a[1..], b);
    } else {
      assert a + b == b;
    }
  }

  /** Dropping trailing empties, or the special case of an empty input, loses no non-empty pieces. */
  lemma NonEmptySplit(s: string, c: char)
    ensures NonEmpty(Split(s, c)) == NonEmpty(Fields(s, c))
  {
    if s != [] {
      var r := Fields(s, c);
      var d := DropTrailingEmpty(r);
      assert r == d + r[|d|..];
      DropTrailingEmptySpec(r);
      NonEmptyConcat(d, r[|d|..]);
      NonEmptyAllEmpty(r[|d|..]);
    } else {
      assert c !in s;
    }
  }

  lemma {:induction false} NonEmptyAllEmpty(r: seq<string>)
    requires forall i :: 0 <= i < |r| ==> r[i] == ""
    ensures NonEmpty(r) == []
    decreases |r|
  {
    if r != [] {
      NonEmptyAllEmpty(r[1..]);
    }
  }

  /** A leading separator only adds an empty piece. */
  lemma NonEmptyFieldsSlash(p: string, c: char)
    ensures NonEmpty(Fields([c] + p, c)) == NonEmpty(Fields(p, c))
  {
    FieldsCons(c, p, c);
  }

  // ---------------------------------------------------------------------------
  // Paths written as "/" + s1 + "/" + s2 ...

  /** "/" before each segment, all concatenated ("" for no segment). */
  function Slashed(segs: seq<string>): string {
    if segs == [] then [] else "/" + segs[0] + Slashed(segs[1..])
  }

  lemma {:induction false} SlashedSnoc(segs: seq<string>, x: string)
    ensures Slashed(segs + [x]) == Slashed(segs) + "/" + x
    decreases |segs|
  {
    if segs != [] {
      assert (segs + [x])[1..] == segs[1..] + [x];
      SlashedSnoc(segs[1..], x);
    }
  }

  lemma {:induction false} SlashedIsJoin(segs: seq<string>)
    requires segs != []
    ensures Slashed(segs) == Join([""] + segs, '/')
    decreases |segs|
  {
    if |segs| > 1 {
      SlashedIsJoin(segs[1..]);
      assert ([""] + segs)[1..] == segs;
      assert ([""] + segs[1..])[1..] == segs[1..];
    }
  }

  /** The fields of a slashed path are an empty one and then the segments. */
  lemma FieldsOfSlashed(segs: seq<string>)
    requires segs != []
    requires forall i :: 0 <= i < |segs| ==> '/' !in segs[i]
    ensures Fields(Slashed(segs), '/') == [""] + segs
  {
    SlashedIsJoin(segs);
    FieldsJoin([""] + segs, '/');
  }

  /** The non-empty segments of a slashed path of non-empty segments are those segments. */
  lemma NonEmptyOfSlashed(segs: seq<string>)
    requires forall i :: 0 <= i < |segs| ==> '/' !in segs[i] && segs[i] != ""
    ensures NonEmpty(Split(Slashed(segs), '/')) == segs
  {
    NonEmptySplit(Slashed(segs), '/');
    if segs != [] {
      FieldsOfSlashed(segs);
      NonEmptyOfNonEmpty(segs);
    }
  }

  lemma {:induction false} NonEmptyOfNonEmpty(r: seq<string>)
    requires forall i :: 0 <= i < |r| ==> r[i] != ""
    ensures NonEmpty([""] + r) == r && NonEmpty(r) == r
    decreases |r|
  {
    if r != [] {
      NonEmptyOfNonEmpty(r[1..]);
    }
  }

  /** Every character of a slashed path of segments free of `x` (other than '/') is free of `x`. */
  lemma {:induction false} SlashedAvoids(segs: seq<string>, x: char)
    requires x != '/'
    requires forall i :: 0 <= i < |segs| ==> x !in segs[i]
    ensures x !in Slashed(segs)
    decreases |segs|
  {
    if segs != [] {
      SlashedAvoids(segs[1..], x);
    }
  }

  // ---------------------------------------------------------------------------
  // Collapsing runs of slashes

  /** `s.replaceAll("//+", "/")`: every run of two or more '/' becomes one '/'. */
  function CollapseSlashes(s: string): string
    decreases |s|
  {
    if |s| >= 2 && s[0] == '/' && s[1] == '/' then CollapseSlashes(s[1..])
    else if s == [] then []
    else [s[0]] + CollapseSlashes(s[1..])
  }

  /** A leading separator adds an empty first field. */
  lemma FieldsSepCons(t: string, c: char)
    ensures Fields([c] + t, c) == [""] + Fields(t, c)
  {
    FieldsCons(c, t, c);
  }

  /** A leading non-separator joins the first field. */
  lemma FieldsCharCons(ch: char, t: string, c: char)
    requires ch != c
    ensures Fields([ch] + t, c)[0] == [ch] + Fields(t, c)[0]
    ensures Fields([ch] + t, c)[1..] == Fields(t, c)[1..]
  {
    FieldsCons(ch, t, c);
  }

  /** Collapsing slashes keeps the first piece and removes only empty pieces after it. */
  lemma {:induction false} CollapseSlashesFields(s: string)
    ensures Fields(CollapseSlashes(s), '/')[0] == Fields(s, '/')[0]
    ensures NonEmpty(Fields(CollapseSlashes(s), '/')[1..]) == NonEmpty(Fields(s, '/')[1..])
    decreases |s|
  {
    if s != [] {
      var t := s[1..];
      var ct := CollapseSlashes(t);
      assert s == [s[0]] + t;
      CollapseSlashesFields(t);
      if s[0] == '/' {
        FieldsSepCons(t, '/');
        if |s| >= 2 && s[1] == '/' {
          // CollapseSlashes(s) == ct, and t starts with '/'
          assert t == ['/'] + t[1..];
          FieldsSepCons(t[1..], '/');
          NonEmptyHead(Fields(t, '/'));
        } else {
          // CollapseSlashes(s) == "/" + ct
          FieldsSepCons(ct, '/');
          NonEmptyHead(Fields(t, '/'));
          NonEmptyHead(Fields(ct, '/'));
        }
      } else {
        FieldsCharCons(s[0], t, '/');
        FieldsCharCons(s[0], ct, '/');
      }
    }
  }

  lemma NonEmptyHead(r: seq<string>)
    requires r != []
    ensures NonEmpty(r) == (if r[0] == "" then [] else [r[0]]) + NonEmpty(r[1..])
  {
  }

  /** Collapsing slashes changes no non-empty segment. */
  lemma CollapseSlashesSegments(s: string)
    ensures NonEmpty(Fields(CollapseSlashes(s), '/')) == NonEmpty(Fields(s, '/'))
  {
    CollapseSlashesFields(s);
    NonEmptyHead(Fields(CollapseSlashes(s), '/'));
    NonEmptyHead(Fields(s, '/'));
  }

  // ---------------------------------------------------------------------------
  // String.compareTo

  /** `a.compareTo(b) < 0`: lexicographic by character, a proper prefix first (by scalar value, not UTF-16 code unit). */
  predicate Less(a: string, b: string)
    decreases |a|
  {
    if a == [] then b != []
    else if b == [] then false
    else if a[0] != b[0] then a[0] < b[0]
    else Less(a[1..], b[1..])
  }

  /** `a.compareTo(b) <= 0` */
  predicate LessEq(a: string, b: string) {
    a == b || Less(a, b)
  }

  lemma {:induction false} LessIrreflexive(a: string)
    ensures !Less(a, a)
    decreases |a|
  {
    if a != [] {
      LessIrreflexive(a[1..]);
    }
  }

  lemma {:induction false} LessTotal(a: string, b: string)
    ensures Less(a, b) || a == b || Less(b, a)
    decreases |a|
  {
    if a != [] && b != [] && a[0] == b[0] {
      LessTotal(a[1..], b[1..]);
      if a[1..] == b[1..] {
        assert a == [a[0]] + a[1..] && b == [b[0]] + b[1..];
      }
    }
  }

  lemma {:induction false} LessTransitive(a: string, b: string, c: string)
    requires Less(a, b) && Less(b, c)
    ensures Less(a, c)
    decreases |a|
  {
    if a != [] && a[0] == b[0] && b[0] == c[0] {
      LessTransitive(a[1..], b[1..], c[1..]);
    }
  }

  lemma LessEqTransitive(a: string, b: string, c: string)
    requires LessEq(a, b) && LessEq(b, c)
    ensures LessEq(a, c)
  {
    if Less(a, b) && Less(b, c) {
      LessTransitive(a, b, c);
    }
  }
}
