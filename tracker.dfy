/** The imperative walk: updateStat writing into the shared stats map in place. */
module Tracker {
  import opened Stats
  import opened Ignore
  import opened Leaf
  import opened DirMerge
  import opened Walk

  /** Owner of the stats map for the lifetime of the process, with the ignore
      rules read at start-up and the glob matcher. */
  class Tracker {
    var stats: Store
    const hoursignore: seq<IgnoreInfo>
    const glob: Glob

    constructor (stats0: Store, hoursignore: seq<IgnoreInfo>, glob: Glob)
      ensures stats == stats0 && this.hoursignore == hoursignore && this.glob == glob
    {
      stats := stats0;
      this.hoursignore := hoursignore;
      this.glob := glob;
    }

    /** One recursive call of updateStat on directory `dir` whose listing is
        `children`: walks the entries in order, updates the map in place and
        returns the directory's delta. */
    method UpdateStat(dir: string, children: seq<Entry>) returns (delta: FileStatsDelta)
      modifies this
      ensures (stats, delta) == WalkDir(glob, hoursignore, old(stats), dir, children)
      decreases SizeAll(children)
    {
      var deltas: seq<FileStatsDelta> := [];
      var i := 0;
      while i < |children|
        invariant 0 <= i <= |children|
        invariant (stats, deltas) == WalkEntries(glob, hoursignore, old(stats), dir, children[..i])
      {
        var file := children[i];
        var pathString := dir + "/" + file.name;
        if Contains(pathString, ".git/") || pathString == dir + "/hours.json" {
          StepExcluded(glob, hoursignore, old(stats), dir, children, i);
          i := i + 1;
          continue;
        }
        var ignored := IsIgnored(glob, hoursignore, pathString);
        if ignored {
          StepExcluded(glob, hoursignore, old(stats), dir, children, i);
          i := i + 1;
          continue;
        }
        if file.File? {
          StepFile(glob, hoursignore, old(stats), dir, children, i);
          var u := FileUpdate(Lookup(stats, pathString), file.mtime);
          deltas := deltas + [u.delta];
          stats := stats[pathString := u.stats];
        } else {
          StepDir(glob, hoursignore, old(stats), dir, children, i);
          var d := UpdateStat(pathString, file.children);
          deltas := deltas + [d];
        }
        i := i + 1;
      }
      assert children[..i] == children;

      var workInfo := StatsOr0(stats, dir);
      delta := MergeDeltas(deltas, workInfo.lastModified);
      stats := stats[dir := FileStats(delta.newestMod, workInfo.totalWorked + delta.end - delta.start)];
    }

    /** One sampling tick: a pass over the repository root ".". */
    method UpdateAndSave(root: seq<Entry>)
      modifies this
      ensures stats == WalkDir(glob, hoursignore, old(stats), ".", root).0
    {
      var _ := UpdateStat(".", root);
    }
  }
}
