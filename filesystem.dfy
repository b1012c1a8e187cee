/**
 * The receiving side's filesystem as the hard-link code sees it: which
 * path names which (dev, inode), and the three calls it makes on it
 * (link_stat, do_link, robust_unlink). A call may fail for reasons the
 * model does not track (permissions, a concurrent change); such failures
 * are left open with `*`.
 */
module FileSystems {
  import opened FileEntries

  datatype Option<T> = None | Some(value: T)

  class FileSystem {
    var entries: map<Path, Ident>

    constructor (entries: map<Path, Ident>)
      ensures this.entries == entries
    {
      this.entries := entries;
    }

    /** link_stat: the identity at `p`, or None when nothing is there. */
    method LinkStat(p: Path) returns (st: Option<Ident>)
      ensures st.Some? <==> p in entries
      ensures st.Some? ==> st.value == entries[p]
    {
      if p in entries {
        st := Some(entries[p]);
      } else {
        st := None;
      }
    }

    /**
     * do_link: makes `to` a further name of the file at `from`. It cannot
     * succeed when `from` is missing or `to` is taken.
     */
    method Link(from: Path, to: Path) returns (ok: bool)
      modifies this
      ensures ok ==> old(from in entries && to !in entries) && entries == old(entries)[to := old(entries)[from]]
      ensures !ok ==> entries == old(entries)
    {
      ok := false;
      if from in entries && to !in entries {
        ok := *;
        if ok {
          entries := entries[to := entries[from]];
        }
      }
    }

    /** robust_unlink: removes `p`; a `p` that is already gone counts as removed. */
    method RobustUnlink(p: Path) returns (ok: bool)
      modifies this
      ensures ok ==> entries == old(entries) - {p}
      ensures !ok ==> p in old(entries) && entries == old(entries)
    {
      ok := true;
      if p in entries {
        ok := *;
        if ok {
          entries := entries - {p};
        }
      }
    }
  }

  /**
   * The pair (p1, p2) needs no further work: either there is nothing at
   * p1 to link from, or p2 already names the same file as p1.
   */
  ghost predicate Settled(m: map<Path, Ident>, p1: Path, p2: Path) {
    p1 in m ==> p2 in m && m[p2] == m[p1]
  }

  /** `m` and `m'` agree on every path outside `changed`. */
  ghost predicate AgreeExcept(m: map<Path, Ident>, m': map<Path, Ident>, changed: set<Path>) {
    forall p :: p !in changed ==> (p in m <==> p in m') && (p in m ==> m[p] == m'[p])
  }
}
