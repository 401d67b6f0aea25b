/** The filesystem as the review session sees it: the set of paths for which
    File.Exists answers true, and File.Move between two of them. */
module Disk {
  import opened Paths

  /** File.Move succeeds only when the source exists and the destination is
      free, and then only if the operating system lets it through
      (permissions, sharing, disk space): `permitted` is that decision. */
  predicate CanMove(disk: set<Path>, source: Path, destination: Path, permitted: bool)
  {
    permitted && source in disk && destination !in disk
  }

  /** The files on disk after a successful move. */
  function AfterMove(disk: set<Path>, source: Path, destination: Path): (r: set<Path>)
    requires source in disk && destination !in disk
    ensures source !in r && destination in r
    ensures forall q :: q != source && q != destination ==> (q in r <==> q in disk)
  {
    disk - {source} + {destination}
  }

  /** The files of the machine. External programs may change `existing` at
      any time between two calls of the session. */
  class FileSystem {
    var existing: set<Path>

    constructor (files: set<Path>)
      ensures existing == files
    {
      existing := files;
    }

    /** File.Exists */
    predicate Exists(p: Path)
      reads this
    {
      p in existing
    }

    /** File.Move(source, destination) without overwrite; a false result
        stands for the exception it throws. */
    method Move(source: Path, destination: Path, permitted: bool) returns (ok: bool)
      modifies this
      ensures ok == CanMove(old(existing), source, destination, permitted)
      ensures existing == if ok then AfterMove(old(existing), source, destination) else old(existing)
    {
      ok := permitted && source in existing && destination !in existing;
      if ok {
        existing := existing - {source} + {destination};
      }
    }
  }
}
