/** Consequences of the walk for particular trees and stores. */
module WalkFacts {
  import opened Stats
  import opened Ignore
  import opened Leaf
  import opened DirMerge
  import opened Walk

  /** File names as a directory listing gives them: no `/` inside, at any depth. */
  predicate SlashFree(es: seq<Entry>)
    decreases es
  {
    forall i :: 0 <= i < |es| ==> '/' !in es[i].name && (es[i].Dir? ==> SlashFree(es[i].children))
  }

  predicate EndsWith(s: string, suffix: string)
  {
    |suffix| <= |s| && s[|s| - |suffix|..] == suffix
  }

  /** A child path that the state-file test let through does not end in the
      state file's name. */
  lemma ChildNotStateFile(dir: string, name: string)
    requires '/' !in name && dir + "/" + name != dir + "/hours.json"
    ensures !EndsWith(dir + "/" + name, "/hours.json")
  {
    var p := dir + "/" + name;
    var suffix := "/hours.json";
    var n := |name|;
    if 11 <= |p| {
      var tail := p[|p| - 11..];
      if n >= 11 {
        assert tail[0] == name[n - 11];
        assert tail[0] != suffix[0];
      } else if n == 10 {
        assert tail == "/" + name;
        assert name != "hours.json";
      } else {
        assert tail[10 - n] == p[|dir|] == '/';
        assert suffix[10 - n] != '/';
      }
    }
  }

  /** No pass ever records a file or directory called hours.json, at any depth. */
  lemma {:induction false} StateFileNeverVisited(glob: Glob, rules: seq<IgnoreInfo>, dir: string, es: seq<Entry>)
    requires SlashFree(es)
    ensures forall p :: p in VisitedEntries(glob, rules, dir, es) ==> !EndsWith(p, "/hours.json")
    decreases SizeAll(es)
  {
    if es != [] {
      var init := es[..|es| - 1];
      assert SlashFree(init) by {
        forall i | 0 <= i < |init| ensures '/' !in init[i].name && (init[i].Dir? ==> SlashFree(init[i].children)) {
          assert init[i] == es[i];
        }
      }
      StateFileNeverVisited(glob, rules, dir, init);
      var e := es[|es| - 1];
      var p := ChildPath(dir, e);
      if !Excluded(glob, rules, dir, p) {
        ChildNotStateFile(dir, e.name);
        if e.Dir? {
          SizeAllPrefix(es, |es|);
          StateFileNeverVisited(glob, rules, p, e.children);
        }
      }
    }
  }

  /** The entries of a listing that the filter lets through. */
  function Kept(glob: Glob, rules: seq<IgnoreInfo>, dir: string, es: seq<Entry>): (r: seq<Entry>)
    ensures |r| <= |es|
  {
    if es == [] then []
    else
      var rest := Kept(glob, rules, dir, es[..|es| - 1]);
      if Excluded(glob, rules, dir, ChildPath(dir, es[|es| - 1])) then rest else rest + [es[|es| - 1]]
  }

  /** Excluded entries report nothing: one delta per kept entry, in listing
      order, each carrying the kept entry's newest mtime when it is a file. */
  lemma {:induction false} OneDeltaPerKeptEntry(glob: Glob, rules: seq<IgnoreInfo>, s: Store, dir: string, es: seq<Entry>)
    ensures var ds := WalkEntries(glob, rules, s, dir, es).1;
            var kept := Kept(glob, rules, dir, es);
            |ds| == |kept| && forall i :: 0 <= i < |ds| && kept[i].File? ==> ds[i].newestMod == kept[i].mtime
    decreases |es|
  {
    if es != [] {
      OneDeltaPerKeptEntry(glob, rules, s, dir, es[..|es| - 1]);
    }
  }

  /** A directory that cannot be listed keeps its total, has its mtime reset
      to 0 and reports the collapsed span [MaxInt64, MaxInt64]. */
  lemma UnlistableDir(glob: Glob, rules: seq<IgnoreInfo>, s: Store, dir: string)
    ensures WalkDir(glob, rules, s, dir, []) ==
              (s[dir := FileStats(0, StatsOr0(s, dir).totalWorked)], FileStatsDelta(0, MaxInt64, MaxInt64))
  {
  }

  lemma ContainsExtend(x: string, y: string, sub: string)
    requires Contains(x, sub)
    ensures Contains(x + y, sub)
  {
    var i: nat :| OccursAt(x, sub, i);
    assert (x + y)[i..i + |sub|] == x[i..i + |sub|];
    assert OccursAt(x + y, sub, i);
  }

  /** Below a directory whose path already contains ".git/" (once "/" is
      appended), every entry is skipped: the store is untouched and no delta
      is collected. */
  lemma {:induction false} UnderGitNothingVisited(glob: Glob, rules: seq<IgnoreInfo>, s: Store, dir: string, es: seq<Entry>)
    requires Contains(dir + "/", ".git/")
    ensures WalkEntries(glob, rules, s, dir, es) == (s, [])
    ensures VisitedEntries(glob, rules, dir, es) == {}
    decreases |es|
  {
    if es != [] {
      UnderGitNothingVisited(glob, rules, s, dir, es[..|es| - 1]);
      var e := es[|es| - 1];
      assert ChildPath(dir, e) == (dir + "/") + e.name;
      ContainsExtend(dir + "/", e.name, ".git/");
    }
  }

  /** The path of `.git` itself passes the built-in exclusions. */
  lemma GitDirKept()
    ensures !AlwaysExcluded(".", "./.git")
  {
    var s := "./.git";
    forall i: nat ensures !OccursAt(s, ".git/", i) {
      if i == 0 { assert s[0..5][1] != ".git/"[1]; }
      else if i == 1 { assert s[1..6][0] != ".git/"[0]; }
    }
    assert s != "./hours.json" by { assert |s| != |"./hours.json"|; }
  }

  /** A root entry not named `.git` neither writes "./.git" nor anything
      below which "./.git" would lie. */
  lemma GitPathNotUnderSibling(n: string)
    requires n != ".git"
    ensures var p := "." + "/" + n;
            "./.git" != p && !(|"./.git"| > |p| && "./.git"[..|p| + 1] == p + "/")
  {
    var p := "." + "/" + n;
    var k := "./.git";
    assert k[2..] == ".git";
    if |p| == |k| {
      assert p[2..] == n;
    }
    if |k| > |p| {
      assert forall m :: 2 <= m < 6 ==> k[m] != '/';
      assert k[..|p| + 1][|p|] == k[|p|];
      assert (p + "/")[|p|] == '/';
    }
  }

  /** Root entries in the range [lo, hi), none named `.git`, leave the store's
      "./.git" key as they found it. */
  lemma {:induction false} SiblingsKeepGitKey(glob: Glob, rules: seq<IgnoreInfo>, s: Store, es: seq<Entry>, lo: nat, hi: nat)
    requires lo <= hi <= |es|
    requires forall j :: lo <= j < hi ==> es[j].name != ".git"
    ensures SameAt(WalkEntries(glob, rules, s, ".", es[..hi]).0, WalkEntries(glob, rules, s, ".", es[..lo]).0, "./.git")
    decreases hi - lo
  {
    if lo < hi {
      SiblingsKeepGitKey(glob, rules, s, es, lo, hi - 1);
      GitPathNotUnderSibling(es[hi - 1].name);
      StepKeepsOtherKeys(glob, rules, s, ".", es, hi - 1, "./.git");
    }
  }

  /** The root entry `.git`: nothing inside it is kept, and its record is
      rewritten with mtime 0 and the total it had. */
  lemma GitStep(glob: Glob, rules: seq<IgnoreInfo>, s: Store, es: seq<Entry>, i: nat)
    requires i < |es| && es[i].Dir? && es[i].name == ".git"
    requires !Ignored(glob, rules, "./.git")
    ensures var s1 := WalkEntries(glob, rules, s, ".", es[..i]).0;
            WalkEntries(glob, rules, s, ".", es[..i + 1]).0 ==
              s1["./.git" := FileStats(0, StatsOr0(s1, "./.git").totalWorked)]
  {
    GitDirKept();
    assert ChildPath(".", es[i]) == "./.git";
    assert Contains("./.git" + "/", ".git/") by {
      assert OccursAt("./.git" + "/", ".git/", 2);
    }
    var s1 := WalkEntries(glob, rules, s, ".", es[..i]).0;
    UnderGitNothingVisited(glob, rules, s1, "./.git", es[i].children);
    StepDir(glob, rules, s, ".", es, i);
  }

  /** The repository's `.git` directory does not itself contain ".git/": unless
      a rule drops it, it is walked and recorded with mtime 0 and its total
      unchanged, whatever its contents and whatever else the root holds. */
  lemma GitDirRecorded(glob: Glob, rules: seq<IgnoreInfo>, s: Store, es: seq<Entry>, i: nat)
    requires i < |es| && es[i].Dir? && es[i].name == ".git"
    requires forall j :: 0 <= j < |es| && j != i ==> es[j].name != ".git"
    requires !Ignored(glob, rules, "./.git")
    ensures var s' := WalkDir(glob, rules, s, ".", es).0;
            "./.git" in s' && s'["./.git"] == FileStats(0, StatsOr0(s, "./.git").totalWorked)
  {
    var gitRecord := FileStats(0, StatsOr0(s, "./.git").totalWorked);
    // entries before `.git` leave its key alone
    SiblingsKeepGitKey(glob, rules, s, es, 0, i);
    assert es[..0] == [];
    GitStep(glob, rules, s, es, i);
    var s2 := WalkEntries(glob, rules, s, ".", es[..i + 1]).0;
    assert "./.git" in s2 && s2["./.git"] == gitRecord;
    // entries after it leave the new record alone
    SiblingsKeepGitKey(glob, rules, s, es, i + 1, |es|);
    assert es[..|es|] == es;
  }

  /** A file saved again 30 seconds after its last sample gains 30 seconds. */
  lemma ShortGapCredited(glob: Glob, t: int)
    ensures var s' := WalkDir(glob, [], map["./f" := FileStats(t, 100)], ".", [File("f", t + 30)]).0;
            "./f" in s' && s'["./f"] == FileStats(t + 30, 130)
  {
    OneFileSample(glob, Some(FileStats(t, 100)), t + 30);
  }

  /** A file saved again 900 seconds after its last sample gains only 60 seconds. */
  lemma IdleGapClamped(glob: Glob, t: int)
    ensures var s' := WalkDir(glob, [], map["./f" := FileStats(t, 100)], ".", [File("f", t + 900)]).0;
            "./f" in s' && s'["./f"] == FileStats(t + 900, 160)
  {
    OneFileSample(glob, Some(FileStats(t, 100)), t + 900);
  }

  /** A repository holding the single file `f`, with no rules, whose store
      holds `prev` for it (or nothing): the pass records `FileUpdate`. */
  lemma OneFileSample(glob: Glob, prev: Option<FileStats>, mtime: int)
    ensures var s := if prev.Some? then map["./f" := prev.value] else map[];
            var s' := WalkDir(glob, [], s, ".", [File("f", mtime)]).0;
            "./f" in s' && s'["./f"] == FileUpdate(prev, mtime).stats
  {
    var s: Store := if prev.Some? then map["./f" := prev.value] else map[];
    var es := [File("f", mtime)];
    assert ChildPath(".", es[0]) == "./f";
    assert "./f" != "./hours.json";
    assert Lookup(s, "./f") == prev;
    StepFile(glob, [], s, ".", es, 0);
    assert es[..1] == es;
  }

  /** A file never seen before is recorded with its mtime and no time worked. */
  lemma FirstSightingRecorded(glob: Glob, t: int)
    ensures var s' := WalkDir(glob, [], map[], ".", [File("f", t)]).0;
            "./f" in s' && s'["./f"] == FileStats(t, 0)
  {
    OneFileSample(glob, None, t);
  }
}
