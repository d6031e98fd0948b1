/** The exclusion filter of the cleanup loop: the `except` flag is split on commas and each
    piece is tried, in order, as a regular expression against an entry's full path. The regex
    engine is not modelled; its answer for a (pattern, path) pair is a parameter. */
module Exclusion {
  import opened Wrappers
  import opened GoStrings

  /** The three outcomes of Go's `regexp.MatchString(pattern, s)`: `(true, nil)`,
      `(false, nil)`, and `(false, err)` when the pattern does not compile. */
  datatype MatchResult = Matched | NotMatched | InvalidPattern

  type Matcher = (string, string) -> MatchResult

  /** The separator of the `except` flag. */
  const PatternSep: char := ','

  /** Index of the first pattern that matches `path`, if any. An invalid pattern does not match. */
  function FirstMatch(patterns: seq<string>, path: string, matchString: Matcher): (r: Option<nat>)
    ensures r.Some? ==> r.value < |patterns| && matchString(patterns[r.value], path) == Matched
    ensures forall j :: 0 <= j < (if r.Some? then r.value else |patterns|) ==>
              matchString(patterns[j], path) != Matched
  {
    if |patterns| == 0 then None
    else if matchString(patterns[0], path) == Matched then Some(0)
    else
      match FirstMatch(patterns[1..], path, matchString)
      case None => None
      case Some(i) => Some(i + 1)
  }

  /** Whether an entry at `path` is skipped: the patterns are consulted only when `except`
      is non-empty, although splitting "" yields one (empty) pattern. */
  predicate Excluded(except: string, path: string, matchString: Matcher)
  {
    |except| > 0 && FirstMatch(Split(except, PatternSep), path, matchString).Some?
  }

  /** Excluded means: `except` is non-empty and some piece of it matches the path. */
  lemma ExcludedIffSomePatternMatches(except: string, path: string, matchString: Matcher)
    ensures Excluded(except, path, matchString) <==>
              |except| > 0 &&
              exists i :: 0 <= i < |Split(except, PatternSep)| &&
                matchString(Split(except, PatternSep)[i], path) == Matched
  {
    var pieces := Split(except, PatternSep);
    var r := FirstMatch(pieces, path, matchString);
    if r.Some? && |except| > 0 {
      var k := r.value;
      assert 0 <= k < |pieces| && matchString(pieces[k], path) == Matched;
      assert exists i :: 0 <= i < |Split(except, PatternSep)| &&
                matchString(Split(except, PatternSep)[i], path) == Matched;
    }
  }

  /** The inner loop: try `patterns` in order, stop at the first match. `tried` counts the
      `MatchString` calls made. */
  method MatchesAny(patterns: seq<string>, path: string, matchString: Matcher)
    returns (ping: bool, tried: nat)
    ensures ping <==> FirstMatch(patterns, path, matchString).Some?
    ensures tried == match FirstMatch(patterns, path, matchString)
                     case Some(i) => i + 1
                     case None => |patterns|
  {
    ping := false;
    var i := 0;
    while i < |patterns|
      invariant 0 <= i <= |patterns|
      invariant !ping
      invariant forall j :: 0 <= j < i ==> matchString(patterns[j], path) != Matched
    {
      ping := matchString(patterns[i], path) == Matched;
      if ping {
        break;
      }
      i := i + 1;
    }
    tried := if ping then i + 1 else i;
  }

  /** With an empty `except` nothing is excluded, even for a matcher under which the single
      empty pattern of `Split("", ",")` matches the path (as Go's empty regexp matches every
      string): without the length guard that entry would be excluded. */
  lemma EmptyExceptExcludesNothing(path: string, matchString: Matcher)
    requires matchString("", path) == Matched
    ensures Split("", PatternSep) == [""]
    ensures FirstMatch(Split("", PatternSep), path, matchString) == Some(0)
    ensures !Excluded("", path, matchString)
  {
  }

  /** A non-empty `except` that ends with a comma carries an empty pattern; under a matcher for
      which the empty pattern matches the path, the entry is excluded whatever the other
      patterns are. */
  lemma TrailingCommaExcludes(except: string, path: string, matchString: Matcher)
    requires |except| > 0 && except[|except| - 1] == PatternSep
    requires matchString("", path) == Matched
    ensures Excluded(except, path, matchString)
  {
    var pieces := Split(except, PatternSep);
    TrailingSepGivesEmptyPiece(except, PatternSep);
    ExcludedIffSomePatternMatches(except, path, matchString);
    assert matchString(pieces[|pieces| - 1], path) == Matched;
  }
}
