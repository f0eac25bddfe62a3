/** The per-file step of updateStat: credit the time between two samples of a
    file's mtime, clamping idle gaps. */
module Leaf {
  import opened Stats

  /** The new store record of a file and the delta it reports to its directory. */
  datatype LeafResult = LeafResult(stats: FileStats, delta: FileStatsDelta)

  /** Update of a file whose previous record is `prev` (None when the store has
      no entry for its path) and whose mtime is now `mtime`. */
  function FileUpdate(prev: Option<FileStats>, mtime: int): (r: LeafResult)
    // the record and the delta both carry the sampled mtime
    ensures r.stats.lastModified == mtime && r.delta.newestMod == mtime
    // the session ends at the file's new running total
    ensures r.delta.end == r.stats.totalWorked
    // first sighting: nothing to diff against, no credit
    ensures prev.None? ==> r.stats.totalWorked == 0 && r.delta.start == 0
    // a gap of at most ten minutes is credited in full, the session starting at the old total
    ensures prev.Some? && mtime - prev.value.lastModified <= IdleLimit ==>
              r.stats.totalWorked - prev.value.totalWorked == mtime - prev.value.lastModified
              && r.delta.start == prev.value.totalWorked
    // a longer gap is idle time: only the last minute counts
    ensures prev.Some? && mtime - prev.value.lastModified > IdleLimit ==>
              r.stats.totalWorked - prev.value.totalWorked == Grace
              && r.delta.start == mtime - Grace
    // the credit never exceeds ten minutes, and the total falls exactly when
    // the mtime went backwards
    ensures prev.Some? ==> r.stats.totalWorked - prev.value.totalWorked <= IdleLimit
    ensures prev.Some? ==>
              (r.stats.totalWorked >= prev.value.totalWorked <==> mtime >= prev.value.lastModified)
  {
    match prev
    case None => LeafResult(FileStats(mtime, 0), FileStatsDelta(mtime, 0, 0))
    case Some(info) =>
      var gap := mtime - info.lastModified;
      var start := if gap > IdleLimit then mtime - Grace else info.totalWorked;
      var credit := if gap > IdleLimit then Grace else gap;
      var total := info.totalWorked + credit;
      LeafResult(FileStats(mtime, total), FileStatsDelta(mtime, start, total))
  }
}
