/** The records that updateStat reads and writes, and the directory snapshot it walks. */
module Stats {

  /** Largest int64; the initial value of a directory's earliest session start. */
  const MaxInt64: int := 0x7fff_ffff_ffff_ffff

  /** A gap between two samples longer than this many seconds is idle time. */
  const IdleLimit: int := 60 * 10

  /** The work credited for an edit that follows an idle gap. */
  const Grace: int := 60

  /** What the store keeps per path: the newest mtime seen and the seconds worked. */
  datatype FileStats = FileStats(lastModified: int, totalWorked: int)

  /** What one entry reports to its parent directory during a pass. `start` and `end`
      are coordinates on the totalWorked timeline, not wall-clock times. */
  datatype FileStatsDelta = FileStatsDelta(newestMod: int, start: int, end: int)

  /** One rule of the ignore file; `isNeg` rules cancel exclusion. */
  datatype IgnoreInfo = IgnoreInfo(pattern: string, isNeg: bool)

  /** Stand-in for the glob matcher: does `pattern` match `path`? A malformed
      pattern matches nothing. */
  type Glob = (string, string) -> bool

  type Store = map<string, FileStats>

  datatype Option<T> = None | Some(value: T)

  /** The store's record for `path`, if it has one. */
  function Lookup(s: Store, path: string): (r: Option<FileStats>)
    ensures r.Some? <==> path in s
    ensures r.Some? ==> r.value == s[path]
  {
    if path in s then Some(s[path]) else None
  }

  /** A snapshot of what listing a directory returns: a file with its mtime in
      seconds, or a directory with its listing (empty when it cannot be read). */
  datatype Entry =
    | File(name: string, mtime: int)
    | Dir(name: string, children: seq<Entry>)

  /** The store's record for `path`, or the zero record updateStat substitutes
      when there is none (hours.go:103). */
  function StatsOr0(s: Store, path: string): (r: FileStats)
    ensures path in s ==> r == s[path]
    ensures path !in s ==> r == FileStats(0, 0)
  {
    if path in s then s[path] else FileStats(0, 0)
  }

  /** Number of nodes in a snapshot; the walk's termination measure. */
  function Size(e: Entry): (n: nat)
    ensures n >= 1
  {
    match e
    case File(_, _) => 1
    case Dir(_, cs) => 1 + SizeAll(cs)
  }

  function SizeAll(es: seq<Entry>): (n: nat)
    decreases es
  {
    if es == [] then 0 else SizeAll(es[..|es| - 1]) + Size(es[|es| - 1])
  }

  lemma {:induction false} SizeAllPrefix(es: seq<Entry>, k: nat)
    requires k <= |es|
    ensures SizeAll(es[..k]) <= SizeAll(es)
    decreases |es|
  {
    if k < |es| {
      assert es[..|es| - 1][..k] == es[..k];
      SizeAllPrefix(es[..|es| - 1], k);
    } else {
      assert es[..k] == es;
    }
  }
}
