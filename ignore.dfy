/** The filter that decides which directory entries updateStat skips. */
module Ignore {
  import opened Stats

  /** `sub` occurs in `s` starting at index `i`. */
  predicate OccursAt(s: string, sub: string, i: nat)
  {
    i + |sub| <= |s| && s[i..i + |sub|] == sub
  }

  /** Substring test, as the standard library's strings.Contains. */
  function Contains(s: string, sub: string): (r: bool)
    ensures r <==> exists i: nat :: OccursAt(s, sub, i)
    decreases |s|
  {
    if |s| < |sub| then false
    else if s[..|sub|] == sub then
      assert OccursAt(s, sub, 0);
      true
    else
      var r := Contains(s[1..], sub);
      if r then
        var j: nat :| OccursAt(s[1..], sub, j);
        assert s[1..][j..j + |sub|] == s[j + 1..j + 1 + |sub|];
        assert OccursAt(s, sub, j + 1);
        true
      else
        assert !OccursAt(s, sub, 0);
        forall i: nat ensures !OccursAt(s, sub, i) {
          if i > 0 && i + |sub| <= |s| {
            assert s[1..][i - 1..i - 1 + |sub|] == s[i..i + |sub|];
            assert !OccursAt(s[1..], sub, i - 1);
          }
        }
        false
  }

  /** Exclusions applied before any rule: anything under a `.git/` path segment
      and the state file `hours.json` of the directory being listed. */
  function AlwaysExcluded(dir: string, path: string): (r: bool)
    // the substring ".git/" anywhere in the path, or the state file of `dir`
    ensures r <==> (exists i: nat :: OccursAt(path, ".git/", i)) || path == dir + "/hours.json"
  {
    Contains(path, ".git/") || path == dir + "/hours.json"
  }

  /** Some rule's pattern matches `path`. */
  predicate AnyMatch(glob: Glob, rules: seq<IgnoreInfo>, path: string)
  {
    exists i :: 0 <= i < |rules| && glob(rules[i].pattern, path)
  }

  /** Some negated rule's pattern matches `path`. */
  predicate AnyNegMatch(glob: Glob, rules: seq<IgnoreInfo>, path: string)
  {
    exists i :: 0 <= i < |rules| && rules[i].isNeg && glob(rules[i].pattern, path)
  }

  /** The rule list drops `path` exactly when a rule matches it and no
      negated rule does. */
  predicate Ignored(glob: Glob, rules: seq<IgnoreInfo>, path: string)
  {
    AnyMatch(glob, rules, path) && !AnyNegMatch(glob, rules, path)
  }

  /** Everything updateStat skips in the directory `dir`. */
  function Excluded(glob: Glob, rules: seq<IgnoreInfo>, dir: string, path: string): (r: bool)
    // skipped exactly when the fixed skip applies or the rule list drops the path
    ensures r <==> AlwaysExcluded(dir, path) || (AnyMatch(glob, rules, path) && !AnyNegMatch(glob, rules, path))
    // with no rules only the fixed skip remains
    ensures rules == [] ==> (r <==> AlwaysExcluded(dir, path))
  {
    AlwaysExcluded(dir, path) || Ignored(glob, rules, path)
  }

  /** The rule scan of updateStat: OR the matches together, and stop with
      `false` at the first negated rule that matches. */
  method IsIgnored(glob: Glob, rules: seq<IgnoreInfo>, path: string) returns (ignored: bool)
    ensures ignored <==> AnyMatch(glob, rules, path) && !AnyNegMatch(glob, rules, path)
  {
    ignored := false;
    var i := 0;
    while i < |rules|
      invariant 0 <= i <= |rules|
      invariant ignored <==> exists j :: 0 <= j < i && glob(rules[j].pattern, path)
      invariant forall j :: 0 <= j < i ==> !(rules[j].isNeg && glob(rules[j].pattern, path))
    {
      var matched := glob(rules[i].pattern, path);
      ignored := ignored || matched;
      if rules[i].isNeg && matched {
        ignored := false;
        break;
      }
      i := i + 1;
    }
  }

  /** An empty rule list ignores nothing, and a path that only negated rules
      match is kept. */
  lemma NegatedOnlyKeeps(glob: Glob, rules: seq<IgnoreInfo>, path: string)
    requires forall i :: 0 <= i < |rules| && glob(rules[i].pattern, path) ==> rules[i].isNeg
    ensures !Ignored(glob, rules, path)
  {
  }

  /** The decision does not depend on the order of the rules: any
      rearrangement of the list gives the same answer. */
  lemma IgnoredOrderIndependent(glob: Glob, rules: seq<IgnoreInfo>, rules': seq<IgnoreInfo>, path: string)
    requires multiset(rules) == multiset(rules')
    ensures Ignored(glob, rules, path) <==> Ignored(glob, rules', path)
  {
    forall a: seq<IgnoreInfo>, b: seq<IgnoreInfo> | multiset(a) == multiset(b)
      ensures AnyMatch(glob, a, path) ==> AnyMatch(glob, b, path)
      ensures AnyNegMatch(glob, a, path) ==> AnyNegMatch(glob, b, path)
    {
      if AnyMatch(glob, a, path) {
        var i :| 0 <= i < |a| && glob(a[i].pattern, path);
        assert a[i] in multiset(b);
        var j :| 0 <= j < |b| && b[j] == a[i];
      }
      if AnyNegMatch(glob, a, path) {
        var i :| 0 <= i < |a| && a[i].isNeg && glob(a[i].pattern, path);
        assert a[i] in multiset(b);
        var j :| 0 <= j < |b| && b[j] == a[i];
      }
    }
  }
}
