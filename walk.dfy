/** What one pass of updateStat over a directory snapshot does to the store,
    stated as functions, and what that implies. */
module Walk {
  import opened Stats
  import opened Ignore
  import opened Leaf
  import opened DirMerge

  /** The path updateStat builds for an entry of directory `dir`. */
  function ChildPath(dir: string, e: Entry): (p: string)
    ensures |p| > |dir| && p[..|dir|] == dir
  {
    dir + "/" + e.name
  }

  /** Pass over directory `dir` with listing `cs`, from store `s`: the new store
      and the delta reported to the parent. */
  function WalkDir(glob: Glob, rules: seq<IgnoreInfo>, s: Store, dir: string, cs: seq<Entry>): (r: (Store, FileStatsDelta))
    // the span reported upward is never negative and the newest mtime is at
    // least 0; the directory's own record carries that newest mtime
    ensures r.1.start <= r.1.end && r.1.newestMod >= 0
    ensures dir in r.0 && r.0[dir].lastModified == r.1.newestMod
    decreases SizeAll(cs), 1
  {
    var (s1, ds) := WalkEntries(glob, rules, s, dir, cs);
    var prev := StatsOr0(s1, dir);
    var d := Merge(ds, prev.lastModified);
    (s1[dir := FileStats(d.newestMod, prev.totalWorked + d.end - d.start)], d)
  }

  /** The entry loop over `es` in order: the store after it and the deltas collected. */
  function WalkEntries(glob: Glob, rules: seq<IgnoreInfo>, s: Store, dir: string, es: seq<Entry>): (r: (Store, seq<FileStatsDelta>))
    // at most one delta is collected per entry
    ensures |r.1| <= |es|
    decreases SizeAll(es), 0
  {
    if es == [] then (s, [])
    else
      var (s1, ds) := WalkEntries(glob, rules, s, dir, es[..|es| - 1]);
      var e := es[|es| - 1];
      var p := ChildPath(dir, e);
      if Excluded(glob, rules, dir, p) then (s1, ds)
      else match e
        case File(_, mtime) =>
          var u := FileUpdate(Lookup(s1, p), mtime);
          (s1[p := u.stats], ds + [u.delta])
        case Dir(_, cs) =>
          SizeAllPrefix(es, |es|);
          var (s2, d) := WalkDir(glob, rules, s1, p, cs);
          (s2, ds + [d])
  }

  /** One more entry of the loop: an excluded entry leaves store and deltas alone. */
  lemma StepExcluded(glob: Glob, rules: seq<IgnoreInfo>, s: Store, dir: string, es: seq<Entry>, i: nat)
    requires i < |es| && Excluded(glob, rules, dir, ChildPath(dir, es[i]))
    ensures WalkEntries(glob, rules, s, dir, es[..i + 1]) == WalkEntries(glob, rules, s, dir, es[..i])
  {
    assert es[..i + 1][..i] == es[..i];
  }

  /** One more entry of the loop: a file records its update and appends its delta. */
  lemma StepFile(glob: Glob, rules: seq<IgnoreInfo>, s: Store, dir: string, es: seq<Entry>, i: nat)
    requires i < |es| && es[i].File? && !Excluded(glob, rules, dir, ChildPath(dir, es[i]))
    ensures var (s1, ds) := WalkEntries(glob, rules, s, dir, es[..i]);
            var p := ChildPath(dir, es[i]);
            var u := FileUpdate(Lookup(s1, p), es[i].mtime);
            WalkEntries(glob, rules, s, dir, es[..i + 1]) == (s1[p := u.stats], ds + [u.delta])
  {
    assert es[..i + 1][..i] == es[..i];
  }

  /** One more entry of the loop: a directory is walked and appends its delta. */
  lemma StepDir(glob: Glob, rules: seq<IgnoreInfo>, s: Store, dir: string, es: seq<Entry>, i: nat)
    requires i < |es| && es[i].Dir? && !Excluded(glob, rules, dir, ChildPath(dir, es[i]))
    ensures SizeAll(es[i].children) < SizeAll(es)
    ensures var (s1, ds) := WalkEntries(glob, rules, s, dir, es[..i]);
            var (s2, d) := WalkDir(glob, rules, s1, ChildPath(dir, es[i]), es[i].children);
            WalkEntries(glob, rules, s, dir, es[..i + 1]) == (s2, ds + [d])
  {
    assert es[..i + 1][..i] == es[..i];
    SizeAllPrefix(es, i + 1);
  }

  /** The paths a pass over `dir` writes: `dir` itself and everything below
      it that is not excluded. */
  function VisitedDir(glob: Glob, rules: seq<IgnoreInfo>, dir: string, cs: seq<Entry>): set<string>
    decreases SizeAll(cs), 1
  {
    {dir} + VisitedEntries(glob, rules, dir, cs)
  }

  function VisitedEntries(glob: Glob, rules: seq<IgnoreInfo>, dir: string, es: seq<Entry>): set<string>
    decreases SizeAll(es), 0
  {
    if es == [] then {}
    else
      var rest := VisitedEntries(glob, rules, dir, es[..|es| - 1]);
      var e := es[|es| - 1];
      var p := ChildPath(dir, e);
      if Excluded(glob, rules, dir, p) then rest
      else match e
        case File(_, _) => rest + {p}
        case Dir(_, cs) =>
          SizeAllPrefix(es, |es|);
          rest + VisitedDir(glob, rules, p, cs)
  }

  /** Every path a pass below `dir` writes starts with `dir + "/"`. (That
      none of them is excluded is `VisitedNotExcluded`.) */
  lemma {:induction false} VisitedBelow(glob: Glob, rules: seq<IgnoreInfo>, dir: string, es: seq<Entry>)
    ensures forall p :: p in VisitedEntries(glob, rules, dir, es) ==> |p| > |dir| && p[..|dir| + 1] == dir + "/"
    decreases SizeAll(es)
  {
    if es != [] {
      VisitedBelow(glob, rules, dir, es[..|es| - 1]);
      var e := es[|es| - 1];
      var p := ChildPath(dir, e);
      assert p[..|dir| + 1] == dir + "/";
      if !Excluded(glob, rules, dir, p) && e.Dir? {
        SizeAllPrefix(es, |es|);
        VisitedBelow(glob, rules, p, e.children);
        forall q | q in VisitedEntries(glob, rules, p, e.children) ensures |q| > |dir| && q[..|dir| + 1] == dir + "/" {
          assert q[..|p| + 1][..|dir| + 1] == q[..|dir| + 1];
        }
      }
    }
  }

  /** A pass writes the paths it visits and no others: keys are only added,
      and every key outside the visited set keeps its record. */
  lemma {:induction false} WalkDirFrame(glob: Glob, rules: seq<IgnoreInfo>, s: Store, dir: string, cs: seq<Entry>)
    ensures WalkDir(glob, rules, s, dir, cs).0.Keys == s.Keys + VisitedDir(glob, rules, dir, cs)
    ensures forall k :: k in s && k !in VisitedDir(glob, rules, dir, cs) ==> WalkDir(glob, rules, s, dir, cs).0[k] == s[k]
    decreases SizeAll(cs), 1
  {
    WalkEntriesFrame(glob, rules, s, dir, cs);
  }

  lemma {:induction false} WalkEntriesFrame(glob: Glob, rules: seq<IgnoreInfo>, s: Store, dir: string, es: seq<Entry>)
    ensures WalkEntries(glob, rules, s, dir, es).0.Keys == s.Keys + VisitedEntries(glob, rules, dir, es)
    ensures forall k :: k in s && k !in VisitedEntries(glob, rules, dir, es) ==> WalkEntries(glob, rules, s, dir, es).0[k] == s[k]
    decreases SizeAll(es), 0
  {
    if es != [] {
      var init := es[..|es| - 1];
      WalkEntriesFrame(glob, rules, s, dir, init);
      var s1 := WalkEntries(glob, rules, s, dir, init).0;
      var e := es[|es| - 1];
      var p := ChildPath(dir, e);
      if !Excluded(glob, rules, dir, p) && e.Dir? {
        SizeAllPrefix(es, |es|);
        WalkDirFrame(glob, rules, s1, p, e.children);
      }
    }
  }

  /** Two stores agree on key `k`: both lack it, or both hold the same record. */
  predicate SameAt(a: Store, b: Store, k: string)
  {
    (k in a <==> k in b) && (k in a ==> a[k] == b[k])
  }

  /** One step of the entry loop leaves alone every key that is neither the
      entry's own path nor below it. */
  lemma StepKeepsOtherKeys(glob: Glob, rules: seq<IgnoreInfo>, s: Store, dir: string, es: seq<Entry>, j: nat, k: string)
    requires j < |es|
    requires k != ChildPath(dir, es[j])
    requires !(|k| > |ChildPath(dir, es[j])| && k[..|ChildPath(dir, es[j])| + 1] == ChildPath(dir, es[j]) + "/")
    ensures SameAt(WalkEntries(glob, rules, s, dir, es[..j + 1]).0, WalkEntries(glob, rules, s, dir, es[..j]).0, k)
  {
    var p := ChildPath(dir, es[j]);
    if Excluded(glob, rules, dir, p) {
      StepExcluded(glob, rules, s, dir, es, j);
    } else if es[j].File? {
      StepFile(glob, rules, s, dir, es, j);
    } else {
      StepDir(glob, rules, s, dir, es, j);
      var s1 := WalkEntries(glob, rules, s, dir, es[..j]).0;
      WalkDirFrame(glob, rules, s1, p, es[j].children);
      VisitedBelow(glob, rules, p, es[j].children);
      assert k !in VisitedDir(glob, rules, p, es[j].children);
    }
  }

  /** Each directory's own record after a pass: its newest mtime is the largest
      of its entries' (or 0), its span is never negative, and its total grows
      by exactly the span, so it never decreases. */
  lemma DirRecord(glob: Glob, rules: seq<IgnoreInfo>, s: Store, dir: string, cs: seq<Entry>)
    ensures var (s', d) := WalkDir(glob, rules, s, dir, cs);
            var ds := WalkEntries(glob, rules, s, dir, cs).1;
            && d == Merge(ds, StatsOr0(s, dir).lastModified)
            && d.start <= d.end
            && dir in s'
            && s'[dir].lastModified == d.newestMod
            && (d.newestMod >= 0 && forall i :: 0 <= i < |ds| ==> ds[i].newestMod <= d.newestMod)
            && s'[dir].totalWorked == StatsOr0(s, dir).totalWorked + (d.end - d.start)
            && s'[dir].totalWorked >= StatsOr0(s, dir).totalWorked
  {
    VisitedBelow(glob, rules, dir, cs);
    WalkEntriesFrame(glob, rules, s, dir, cs);
  }

  /** No path a pass writes below `dir` lies under a `.git/` segment or is
      dropped by the ignore rules. */
  lemma {:induction false} VisitedNotExcluded(glob: Glob, rules: seq<IgnoreInfo>, dir: string, es: seq<Entry>)
    ensures forall p :: p in VisitedEntries(glob, rules, dir, es) ==>
              !Contains(p, ".git/") && !Ignored(glob, rules, p)
    decreases SizeAll(es)
  {
    if es != [] {
      VisitedNotExcluded(glob, rules, dir, es[..|es| - 1]);
      var e := es[|es| - 1];
      var p := ChildPath(dir, e);
      if !Excluded(glob, rules, dir, p) && e.Dir? {
        SizeAllPrefix(es, |es|);
        VisitedNotExcluded(glob, rules, p, e.children);
      }
    }
  }
}
