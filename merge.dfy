/** The second half of updateStat: fold the deltas of a directory's entries
    into the directory's own delta. */
module DirMerge {
  import opened Stats

  /** Running maximum of the entries' newest mtimes, starting from 0. */
  function Newest(ds: seq<FileStatsDelta>): (r: int)
    ensures r >= 0
    ensures forall i :: 0 <= i < |ds| ==> ds[i].newestMod <= r
    ensures r == 0 || exists i :: 0 <= i < |ds| && ds[i].newestMod == r
  {
    if ds == [] then 0
    else
      var r0 := Newest(ds[..|ds| - 1]);
      if ds[|ds| - 1].newestMod > r0 then ds[|ds| - 1].newestMod else r0
  }

  /** An entry at or after the directory's last recorded mtime. */
  predicate Fresh(d: FileStatsDelta, last: int) { d.newestMod >= last }

  /** An entry strictly after the directory's last recorded mtime. */
  predicate Newer(d: FileStatsDelta, last: int) { d.newestMod > last }

  /** Running minimum of the fresh entries' starts, starting from MaxInt64. */
  function EarliestStart(ds: seq<FileStatsDelta>, last: int): (r: int)
    ensures r <= MaxInt64
    ensures forall i :: 0 <= i < |ds| && Fresh(ds[i], last) ==> r <= ds[i].start
    ensures r == MaxInt64 || exists i :: 0 <= i < |ds| && Fresh(ds[i], last) && ds[i].start == r
  {
    if ds == [] then MaxInt64
    else
      var r0 := EarliestStart(ds[..|ds| - 1], last);
      var d := ds[|ds| - 1];
      if d.start < r0 && Fresh(d, last) then d.start else r0
  }

  /** Running maximum of the strictly newer entries' ends, starting from 0. */
  function LatestEnd(ds: seq<FileStatsDelta>, last: int): (r: int)
    ensures r >= 0
    ensures forall i :: 0 <= i < |ds| && Newer(ds[i], last) ==> ds[i].end <= r
    ensures r == 0 || exists i :: 0 <= i < |ds| && Newer(ds[i], last) && ds[i].end == r
  {
    if ds == [] then 0
    else
      var r0 := LatestEnd(ds[..|ds| - 1], last);
      var d := ds[|ds| - 1];
      if d.end > r0 && Newer(d, last) then d.end else r0
  }

  /** The directory's delta: newest mtime below it, and the session span
      [earliest start, latest end], the end raised to the start when it lies below. */
  function Merge(ds: seq<FileStatsDelta>, last: int): (r: FileStatsDelta)
    ensures r.newestMod == Newest(ds) && r.start == EarliestStart(ds, last)
    // the end is the smaller bound that lies at or above both the start and the latest end
    ensures r.end >= r.start && r.end >= LatestEnd(ds, last)
    ensures r.end == r.start || r.end == LatestEnd(ds, last)
  {
    var s := EarliestStart(ds, last);
    var e := LatestEnd(ds, last);
    FileStatsDelta(Newest(ds), s, if e < s then s else e)
  }

  /** The accumulator loop of updateStat over the collected deltas. */
  method MergeDeltas(ds: seq<FileStatsDelta>, last: int) returns (r: FileStatsDelta)
    ensures r == Merge(ds, last)
  {
    var newest := 0;
    var earliestStart := MaxInt64;
    var latestEnd := 0;
    var i := 0;
    while i < |ds|
      invariant 0 <= i <= |ds|
      invariant newest == Newest(ds[..i])
      invariant earliestStart == EarliestStart(ds[..i], last)
      invariant latestEnd == LatestEnd(ds[..i], last)
    {
      assert ds[..i + 1][..i] == ds[..i];
      var d := ds[i];
      if d.newestMod > newest {
        newest := d.newestMod;
      }
      if d.start < earliestStart && d.newestMod >= last {
        earliestStart := d.start;
      }
      if d.end > latestEnd && d.newestMod > last {
        latestEnd := d.end;
      }
      i := i + 1;
    }
    assert ds[..i] == ds;
    if latestEnd < earliestStart {
      latestEnd := earliestStart;
    }
    r := FileStatsDelta(newest, earliestStart, latestEnd);
  }

  /** With no fresh entry (an empty or unreadable directory included) the span
      collapses to [MaxInt64, MaxInt64]: zero width, no work credited. */
  lemma NoFreshEntry(ds: seq<FileStatsDelta>, last: int)
    requires forall i :: 0 <= i < |ds| ==> ds[i].newestMod < last
    ensures Merge(ds, last).start == MaxInt64 && Merge(ds, last).end == MaxInt64
  {
  }

  /** An entry exactly at the directory's last mtime may lower the session start
      but never raises the session end. */
  lemma BoundaryEntry(ds: seq<FileStatsDelta>, d: FileStatsDelta, last: int)
    requires d.newestMod == last
    ensures Merge(ds + [d], last).start == if d.start < Merge(ds, last).start then d.start else Merge(ds, last).start
    ensures Merge(ds + [d], last).end <= Merge(ds, last).end
  {
  }

  /** Merging is independent of the order of the entries. */
  lemma MergeOrderIndependent(ds: seq<FileStatsDelta>, ds': seq<FileStatsDelta>, last: int)
    requires multiset(ds) == multiset(ds')
    ensures Merge(ds, last) == Merge(ds', last)
  {
    forall a: seq<FileStatsDelta>, b: seq<FileStatsDelta> | multiset(a) == multiset(b)
      ensures Newest(a) <= Newest(b)
      ensures EarliestStart(a, last) >= EarliestStart(b, last)
      ensures LatestEnd(a, last) <= LatestEnd(b, last)
    {
      BoundsCarryOver(a, b, last);
    }
  }

  /** Each bound of a list is bounded by that of any list with the same
      elements; applied both ways, the bounds are equal. */
  lemma BoundsCarryOver(a: seq<FileStatsDelta>, b: seq<FileStatsDelta>, last: int)
    requires multiset(a) == multiset(b)
    ensures Newest(a) <= Newest(b)
    ensures EarliestStart(a, last) >= EarliestStart(b, last)
    ensures LatestEnd(a, last) <= LatestEnd(b, last)
  {
    if Newest(a) != 0 {
      var i :| 0 <= i < |a| && a[i].newestMod == Newest(a);
      assert a[i] in multiset(b);
    }
    if EarliestStart(a, last) != MaxInt64 {
      var i :| 0 <= i < |a| && Fresh(a[i], last) && a[i].start == EarliestStart(a, last);
      assert a[i] in multiset(b);
    }
    if LatestEnd(a, last) != 0 {
      var i :| 0 <= i < |a| && Newer(a[i], last) && a[i].end == LatestEnd(a, last);
      assert a[i] in multiset(b);
    }
  }

  /** An entry strictly newer than the directory's record whose own end is the
      MaxInt64 sentinel (a sub-directory with no fresh entry) sets the
      directory's end to MaxInt64. */
  lemma SentinelEndPropagates(ds: seq<FileStatsDelta>, last: int, i: nat)
    requires i < |ds| && Newer(ds[i], last) && ds[i].end == MaxInt64
    requires forall j :: 0 <= j < |ds| ==> ds[j].end <= MaxInt64
    ensures Merge(ds, last).end == MaxInt64
  {
  }
}
