/**
 * hlink.c: the process-wide hard-link index (hlink_list, hlink_count),
 * its construction from a file list, the duplicate test consulted per
 * file, and the pass that recreates the links on the receiving side.
 */
module HLink {
  import opened FileEntries
  import opened HlinkIndex
  import opened FileSystems

  /** Which exit hard_link_one took (and so which message it logs, if any). */
  datatype LinkOutcome = Skipped | AlreadyLinked | Linked | Failed

  /**
   * What hard_link_one may do to the filesystem `m`, giving `m'`, when
   * the earlier entry of the pair lives at p1 and the later one at p2.
   */
  ghost predicate LinkStep(m: map<Path, Ident>, m': map<Path, Ident>, p1: Path, p2: Path, out: LinkOutcome) {
    if p1 !in m then
      out == Skipped && m' == m
    else if p2 !in m then
      (out == Linked && m' == m[p2 := m[p1]]) || (out == Failed && m' == m)
    else if m[p2] == m[p1] then
      out == AlreadyLinked && m' == m
    else
      (out == Linked && m' == m[p2 := m[p1]]) || (out == Failed && (m' == m || m' == m - {p2}))
  }

  /** A pair hard_link_one did not fail on is settled afterwards. */
  lemma LinkStepSettles(m: map<Path, Ident>, m': map<Path, Ident>, p1: Path, p2: Path, out: LinkOutcome)
    requires LinkStep(m, m', p1, p2, out) && out != Failed
    ensures Settled(m', p1, p2)
  {
  }

  /** On a settled pair hard_link_one changes nothing. */
  lemma LinkStepIdle(m: map<Path, Ident>, m': map<Path, Ident>, p1: Path, p2: Path, out: LinkOutcome)
    requires LinkStep(m, m', p1, p2, out) && Settled(m, p1, p2)
    ensures m' == m && (out == Skipped || out == AlreadyLinked)
  {
  }

  /** hard_link_one touches no path but the later entry's. */
  lemma LinkStepFrame(m: map<Path, Ident>, m': map<Path, Ident>, p1: Path, p2: Path, out: LinkOutcome)
    requires LinkStep(m, m', p1, p2, out)
    ensures AgreeExcept(m, m', {p2})
  {
  }

  /** Running hard_link_one twice on a pair mutates nothing the second time, unless the first run failed. */
  lemma LinkStepIdempotent(m0: map<Path, Ident>, m1: map<Path, Ident>, m2: map<Path, Ident>,
                           p1: Path, p2: Path, out1: LinkOutcome, out2: LinkOutcome)
    requires LinkStep(m0, m1, p1, p2, out1) && out1 != Failed
    requires LinkStep(m1, m2, p1, p2, out2)
    ensures m2 == m1 && out2 != Linked && out2 != Failed
  {
    LinkStepSettles(m0, m1, p1, p2, out1);
    LinkStepIdle(m1, m2, p1, p2, out2);
  }

  /** Facts about map agreement used to chain the pairs of do_hard_links. */
  lemma AgreeExceptChain(m0: map<Path, Ident>, m1: map<Path, Ident>, m2: map<Path, Ident>,
                         s1: set<Path>, s2: set<Path>, s: set<Path>)
    requires AgreeExcept(m0, m1, s1) && AgreeExcept(m1, m2, s2) && s1 + s2 <= s
    ensures AgreeExcept(m0, m2, s)
  {
  }

  lemma SettledUntouched(m: map<Path, Ident>, m': map<Path, Ident>, p1: Path, p2: Path, q: Path)
    requires AgreeExcept(m, m', {q}) && p1 != q && p2 != q
    requires Settled(m, p1, p2)
    ensures Settled(m', p1, p2)
  {
  }

  /** Linking the pair ending at `i` leaves the earlier pairs settled, since their paths differ from the target's. */
  lemma {:induction false} SettledBelowKept(m: map<Path, Ident>, m': map<Path, Ident>, fname: FileEntry -> Path,
                                            files: seq<FileEntry>, idx: seq<nat>, i: int)
    requires DistinctPaths(fname, files, idx) && 1 <= i < |idx|
    requires AgreeExcept(m, m', {PathAt(fname, files, idx, i)})
    requires SettledBelow(m, fname, files, idx, i)
    ensures SettledBelow(m', fname, files, idx, i)
  {
    forall j | 1 <= j < i && LinkPair(files, idx, j)
      ensures Settled(m', PathAt(fname, files, idx, j - 1), PathAt(fname, files, idx, j))
    {
      SettledUntouched(m, m', PathAt(fname, files, idx, j - 1), PathAt(fname, files, idx, j), PathAt(fname, files, idx, i));
    }
  }

  /**
   * One linked pair of do_hard_links: the changed paths stay within the
   * targets so far, a fully settled start stays untouched, and without
   * failures every pair up to `i` is settled.
   */
  lemma LinkPairStep(m0: map<Path, Ident>, m: map<Path, Ident>, m': map<Path, Ident>, fname: FileEntry -> Path,
                     files: seq<FileEntry>, idx: seq<nat>, i: int, out: LinkOutcome, failed: bool)
    requires LinkPair(files, idx, i)
    requires LinkStep(m, m', PathAt(fname, files, idx, i - 1), PathAt(fname, files, idx, i), out)
    requires AgreeExcept(m0, m, TargetsBelow(fname, files, idx, i))
    requires SettledBelow(m0, fname, files, idx, |idx|) ==> m == m0
    requires !failed && DistinctPaths(fname, files, idx) ==> SettledBelow(m, fname, files, idx, i)
    ensures AgreeExcept(m0, m', TargetsBelow(fname, files, idx, i + 1))
    ensures SettledBelow(m0, fname, files, idx, |idx|) ==> m' == m0
    ensures !(failed || out == Failed) && DistinctPaths(fname, files, idx) ==> SettledBelow(m', fname, files, idx, i + 1)
  {
    var p1, p2 := PathAt(fname, files, idx, i - 1), PathAt(fname, files, idx, i);
    LinkStepFrame(m, m', p1, p2, out);
    TargetsGrow(fname, files, idx, i);
    AgreeExceptChain(m0, m, m', TargetsBelow(fname, files, idx, i), {p2}, TargetsBelow(fname, files, idx, i + 1));
    if SettledBelow(m0, fname, files, idx, |idx|) {
      assert Settled(m, p1, p2);
      LinkStepIdle(m, m', p1, p2, out);
    }
    if !(failed || out == Failed) && DistinctPaths(fname, files, idx) {
      LinkStepSettles(m, m', p1, p2, out);
      SettledBelowKept(m, m', fname, files, idx, i);
      SettledBelowExtend(m', fname, files, idx, i);
    }
  }

  /** A pair do_hard_links skips changes nothing and needs nothing. */
  lemma OtherPairStep(m0: map<Path, Ident>, m: map<Path, Ident>, fname: FileEntry -> Path,
                      files: seq<FileEntry>, idx: seq<nat>, i: int, failed: bool)
    requires Refers(files, idx) && 1 <= i < |idx| && !LinkPair(files, idx, i)
    requires AgreeExcept(m0, m, TargetsBelow(fname, files, idx, i))
    requires !failed && DistinctPaths(fname, files, idx) ==> SettledBelow(m, fname, files, idx, i)
    ensures AgreeExcept(m0, m, TargetsBelow(fname, files, idx, i + 1))
    ensures !failed && DistinctPaths(fname, files, idx) ==> SettledBelow(m, fname, files, idx, i + 1)
  {
    TargetsGrow(fname, files, idx, i);
    AgreeExceptChain(m0, m, m, TargetsBelow(fname, files, idx, i), {}, TargetsBelow(fname, files, idx, i + 1));
    if !failed && DistinctPaths(fname, files, idx) {
      SettledBelowExtend(m, fname, files, idx, i);
    }
  }

  /** f_name of the entry at index position `k`. */
  function PathAt(fname: FileEntry -> Path, files: seq<FileEntry>, idx: seq<nat>, k: int): Path
    requires Refers(files, idx) && 0 <= k < |idx|
  {
    fname(files[idx[k]])
  }

  /**
   * A record of do_hard_links' calls: the j-th call of hard_link_one
   * worked on the link pair ending at `pairs[j]`, turned the filesystem
   * `trace[j]` into `trace[j + 1]` and ended with `outs[j]`.
   */
  ghost predicate Traced(fname: FileEntry -> Path, files: seq<FileEntry>, idx: seq<nat>,
                         pairs: seq<int>, outs: seq<LinkOutcome>, trace: seq<map<Path, Ident>>) {
    && |outs| == |pairs|
    && |trace| == |pairs| + 1
    && forall j :: 0 <= j < |pairs| ==>
         && LinkPair(files, idx, pairs[j])
         && LinkStep(trace[j], trace[j + 1], PathAt(fname, files, idx, pairs[j] - 1), PathAt(fname, files, idx, pairs[j]), outs[j])
  }

  /** One more call of hard_link_one extends the record. */
  lemma TracedExtend(fname: FileEntry -> Path, files: seq<FileEntry>, idx: seq<nat>,
                     pairs: seq<int>, outs: seq<LinkOutcome>, trace: seq<map<Path, Ident>>,
                     i: int, out: LinkOutcome, m': map<Path, Ident>)
    requires Traced(fname, files, idx, pairs, outs, trace)
    requires LinkPair(files, idx, i)
    requires LinkStep(trace[|pairs|], m', PathAt(fname, files, idx, i - 1), PathAt(fname, files, idx, i), out)
    ensures Traced(fname, files, idx, pairs + [i], outs + [out], trace + [m'])
  {
    var pairs', outs', trace' := pairs + [i], outs + [out], trace + [m'];
    forall j | 0 <= j < |pairs'|
      ensures LinkPair(files, idx, pairs'[j])
      ensures LinkStep(trace'[j], trace'[j + 1], PathAt(fname, files, idx, pairs'[j] - 1), PathAt(fname, files, idx, pairs'[j]), outs'[j])
    {
      if j < |pairs| {
        assert pairs'[j] == pairs[j] && outs'[j] == outs[j] && trace'[j] == trace[j] && trace'[j + 1] == trace[j + 1];
      }
    }
  }

  /**
   * The state of do_hard_links after the pairs below `n`: the calls made
   * are recorded in order, the filesystem `m` differs from the start `m0`
   * only at target paths, a start with every pair settled is untouched,
   * and without failures every pair so far is settled.
   */
  ghost predicate Progress(fname: FileEntry -> Path, files: seq<FileEntry>, idx: seq<nat>, m0: map<Path, Ident>, n: int,
                           pairs: seq<int>, outs: seq<LinkOutcome>, trace: seq<map<Path, Ident>>, failed: bool,
                           m: map<Path, Ident>) {
    && pairs == PairList(files, idx, n)
    && Traced(fname, files, idx, pairs, outs, trace)
    && trace[0] == m0 && trace[|pairs|] == m
    && (failed <==> Failed in outs)
    && AgreeExcept(m0, m, TargetsBelow(fname, files, idx, n))
    && (SettledBelow(m0, fname, files, idx, |idx|) ==> m == m0)
    && (!failed && DistinctPaths(fname, files, idx) ==> SettledBelow(m, fname, files, idx, n))
  }

  /** A link pair at `n` handed to hard_link_one advances Progress by one slot. */
  lemma ProgressLinked(fname: FileEntry -> Path, files: seq<FileEntry>, idx: seq<nat>, m0: map<Path, Ident>, n: int,
                       pairs: seq<int>, outs: seq<LinkOutcome>, trace: seq<map<Path, Ident>>, failed: bool,
                       m: map<Path, Ident>, out: LinkOutcome, m': map<Path, Ident>)
    requires Progress(fname, files, idx, m0, n, pairs, outs, trace, failed, m)
    requires LinkPair(files, idx, n)
    requires LinkStep(m, m', PathAt(fname, files, idx, n - 1), PathAt(fname, files, idx, n), out)
    ensures Progress(fname, files, idx, m0, n + 1, pairs + [n], outs + [out], trace + [m'], failed || out == Failed, m')
  {
    assert PairList(files, idx, n + 1) == pairs + [n];
    LinkPairStep(m0, m, m', fname, files, idx, n, out, failed);
    TracedExtend(fname, files, idx, pairs, outs, trace, n, out, m');
    assert (trace + [m'])[0] == trace[0];
    assert (failed || out == Failed) <==> Failed in outs + [out];
  }

  /** A slot that is no link pair advances Progress without a call. */
  lemma ProgressSkipped(fname: FileEntry -> Path, files: seq<FileEntry>, idx: seq<nat>, m0: map<Path, Ident>, n: int,
                        pairs: seq<int>, outs: seq<LinkOutcome>, trace: seq<map<Path, Ident>>, failed: bool,
                        m: map<Path, Ident>)
    requires Progress(fname, files, idx, m0, n, pairs, outs, trace, failed, m)
    requires Refers(files, idx) && 1 <= n < |idx| && !LinkPair(files, idx, n)
    ensures Progress(fname, files, idx, m0, n + 1, pairs, outs, trace, failed, m)
  {
    assert PairList(files, idx, n + 1) == pairs;
    OtherPairStep(m0, m, fname, files, idx, n, failed);
  }

  /**
   * The body of init_hard_links past its early return: collect the
   * positions with inode data, sort them in place, then drop the array
   * when it is empty or shrink it to hlink_count slots.
   */
  method BuildIndex(tie: TieBreak, batch: seq<FileEntry>) returns (list: array?<nat>, count: int)
    requires ValidTieBreak(tie)
    ensures count == |Kept(batch)| <= |batch|
    ensures list == null <==> NoInodeData(batch)
    ensures list == null ==> count == 0
    ensures list != null ==> fresh(list) && list.Length == count >= 1
    ensures list != null ==> multiset(list[..]) == multiset(Kept(batch)) && Sorted(tie, batch, list[..])
  {
    var a, n := CollectKept(batch);
    SortIndex(tie, batch, a, n);
    KeptEmpty(batch);
    if n == 0 {
      list := null;
      count := 0;
    } else {
      list := Shrink(a, n);
      count := n;
    }
  }

  /** The later members' paths of the link pairs below `n`: what do_hard_links may change. */
  ghost function TargetsBelow(fname: FileEntry -> Path, files: seq<FileEntry>, idx: seq<nat>, n: int): set<Path> {
    set i | 1 <= i < n && LinkPair(files, idx, i) :: PathAt(fname, files, idx, i)
  }

  /** The target paths below i + 1 are those below i, plus slot i's path when it is a link pair. */
  lemma TargetsGrow(fname: FileEntry -> Path, files: seq<FileEntry>, idx: seq<nat>, i: int)
    ensures TargetsBelow(fname, files, idx, i + 1)
         == TargetsBelow(fname, files, idx, i) + (if LinkPair(files, idx, i) then {PathAt(fname, files, idx, i)} else {})
  {
  }

  /** Settledness below i extends to i + 1 once slot i's pair, if it is one, is settled. */
  lemma SettledBelowExtend(m: map<Path, Ident>, fname: FileEntry -> Path, files: seq<FileEntry>, idx: seq<nat>, i: int)
    requires SettledBelow(m, fname, files, idx, i)
    requires LinkPair(files, idx, i) ==> Settled(m, PathAt(fname, files, idx, i - 1), PathAt(fname, files, idx, i))
    ensures SettledBelow(m, fname, files, idx, i + 1)
  {
  }

  /** Every link pair below `n` is settled in `m`. */
  ghost predicate SettledBelow(m: map<Path, Ident>, fname: FileEntry -> Path, files: seq<FileEntry>, idx: seq<nat>, n: int) {
    forall i :: 1 <= i < n && LinkPair(files, idx, i) ==>
      Settled(m, PathAt(fname, files, idx, i - 1), PathAt(fname, files, idx, i))
  }

  /** f_name gives every index entry its own path. */
  ghost predicate DistinctPaths(fname: FileEntry -> Path, files: seq<FileEntry>, idx: seq<nat>) {
    && Refers(files, idx)
    && forall j, k :: 0 <= j < k < |idx| ==> PathAt(fname, files, idx, j) != PathAt(fname, files, idx, k)
  }

  /**
   * The hard-link index: `list` is hlink_list (positions into the file
   * list `files` it was built from; null when there is no index) and
   * `count` is hlink_count. `tie` is the file list's comparator
   * (file_compare) and `fname` the path construction (f_name).
   */
  class HardLinks {
    const tie: TieBreak
    const fname: FileEntry -> Path
    var files: seq<FileEntry>
    var list: array?<nat>
    var count: int

    /** The positions hlink_list holds, in order; empty when it is null. */
    ghost function Index(): seq<nat>
      reads this, list
    {
      if list == null then [] else list[..]
    }

    /**
     * The index holds each kept position of `files` once, sorted by
     * hlink_compare; it is null exactly when hlink_count is 0.
     */
    ghost predicate Valid()
      reads this, list
    {
      && ValidTieBreak(tie)
      && (list == null ==> count == 0)
      && (list != null ==> list.Length == count && count >= 1 && multiset(list[..]) == multiset(Kept(files)))
      && Sorted(tie, files, Index())
    }

    /**
     * What reading the index needs: hlink_count is 0 without an index and
     * otherwise the (positive) length of hlink_list, and every slot names
     * an entry of `files`.
     * Valid() implies it.
     */
    ghost predicate InBounds()
      reads this, list
    {
      && (list == null ==> count == 0)
      && (list != null ==> list.Length == count && count >= 1 && Refers(files, list[..]))
    }

    /** The static initial state: no index. */
    constructor (tie: TieBreak, fname: FileEntry -> Path)
      requires ValidTieBreak(tie)
      ensures Valid()
      ensures this.tie == tie && this.fname == fname
      ensures files == [] && list == null && count == 0
    {
      this.tie := tie;
      this.fname := fname;
      files := [];
      list := null;
      count := 0;
    }

    /**
     * init_hard_links: for a list of fewer than two entries nothing
     * happens (a previous index stays); otherwise the index is rebuilt
     * from the entries with inode data, sorted by hlink_compare, and is
     * null when there are none.
     */
    method Init(batch: seq<FileEntry>)
      requires Valid()
      modifies this
      ensures Valid()
      ensures |batch| < 2 ==> files == old(files) && list == old(list) && count == old(count)
      ensures |batch| >= 2 ==> files == batch && (list == null <==> NoInodeData(batch))
      ensures |batch| >= 2 && list != null ==> fresh(list) && count == |Kept(batch)| <= |batch|
    {
      if |batch| < 2 {
        return;
      }
      list, count := BuildIndex(tie, batch);
      files := batch;
    }

    /**
     * check_hard_link: binary search for `file`, then re-check equality
     * at the converged position `low` and look at the slot before it.
     * True means `file` repeats an earlier entry's (dev, inode).
     */
    method CheckHardLink(file: FileEntry) returns (r: bool, ghost low: int)
      requires Valid()
      ensures (list == null || !file.hasInodeData) ==> !r
      ensures list != null && file.hasInodeData ==>
        && 0 <= low < count
        && (Compare(tie, files[Index()[low]], file) == 0 <==> Matches(tie, files, Index(), file))
        && (r <==> Compare(tie, files[Index()[low]], file) == 0 && low > 0 && SameIdentity(files[Index()[low - 1]], file))
      ensures file.hasInodeData && UniqueMatch(tie, files, Index(), file) ==>
        (r <==> LaterMatch(tie, files, Index(), file))
      ensures forall p :: 0 <= p < count && files[Index()[p]] == file && UniqueMatch(tie, files, Index(), file) ==>
        (r <==> exists q :: 0 <= q < p && SameIdentity(files[Index()[q]], file))
    {
      r, low := false, 0;
      if list == null || !file.hasInodeData {
        if list != null {
          KeptArrangement(files, list[..]);
        }
        return;
      }
      var lo := Search(tie, files, list, file);
      low := lo;
      if Compare(tie, files[list[lo]], file) != 0 {
        r := false;
      } else if lo > 0 && file.dev == files[list[lo - 1]].dev && file.inode == files[list[lo - 1]].inode {
        r := true;
      }
      ConvergedAnswer(tie, files, list[..], file, lo, r);
    }

    /**
     * hard_link_one: make the later entry of pair (i - 1, i) a link to
     * the earlier one, as LinkStep describes.
     */
    method HardLinkOne(i: int, fs: FileSystem) returns (out: LinkOutcome)
      requires InBounds() && list != null && 1 <= i < count
      modifies fs
      ensures LinkStep(old(fs.entries), fs.entries, fname(files[list[i - 1]]), fname(files[list[i]]), out)
    {
      var hlink1 := fname(files[list[i - 1]]);
      var st1 := fs.LinkStat(hlink1);
      if st1.None? {
        return Skipped;
      }
      var hlink2 := fname(files[list[i]]);
      var st2 := fs.LinkStat(hlink2);
      if st2.None? {
        var linked := fs.Link(hlink1, hlink2);
        if !linked {
          return Failed;
        }
      } else {
        if st2.value == st1.value {
          return AlreadyLinked;
        }
        ghost var before := fs.entries;
        var unlinked := fs.RobustUnlink(hlink2);
        if !unlinked {
          return Failed;
        }
        var linked := fs.Link(hlink1, hlink2);
        if !linked {
          return Failed;
        }
        assert fs.entries == before[hlink2 := before[hlink1]];
      }
      return Linked;
    }

    /**
     * do_hard_links: for each adjacent pair of the index that shares
     * (dev, inode) and whose entries both have a basename, in index
     * order, run hard_link_one. The ghost outputs record the calls: the
     * pairs handed over, what each call did to the filesystem and how it
     * ended; `failed` says whether any of them failed.
     */
    method DoHardLinks(fs: FileSystem)
      returns (ghost pairs: seq<int>, ghost outs: seq<LinkOutcome>, ghost trace: seq<map<Path, Ident>>, ghost failed: bool)
      requires InBounds()
      modifies fs
      ensures pairs == PairList(files, Index(), count)
      ensures Traced(fname, files, Index(), pairs, outs, trace)
      ensures trace[0] == old(fs.entries) && trace[|pairs|] == fs.entries
      ensures failed <==> Failed in outs
      ensures list == null ==> fs.entries == old(fs.entries)
      ensures AgreeExcept(old(fs.entries), fs.entries, TargetsBelow(fname, files, Index(), count))
      ensures SettledBelow(old(fs.entries), fname, files, Index(), count) ==> fs.entries == old(fs.entries)
      ensures !failed && DistinctPaths(fname, files, Index()) ==> SettledBelow(fs.entries, fname, files, Index(), count)
    {
      pairs, outs, trace, failed := [], [], [fs.entries], false;
      if list == null {
        return;
      }
      ghost var idx, m0 := list[..], fs.entries;
      assert PairList(files, idx, 1) == [];
      for i := 1 to count
        invariant Progress(fname, files, idx, m0, i, pairs, outs, trace, failed, fs.entries)
      {
        var later, earlier := files[list[i]], files[list[i - 1]];
        if later.hasBasename && earlier.hasBasename && later.dev == earlier.dev && later.inode == earlier.inode {
          assert LinkPair(files, idx, i);
          ghost var m := fs.entries;
          var out := HardLinkOne(i, fs);
          ProgressLinked(fname, files, idx, m0, i, pairs, outs, trace, failed, m, out, fs.entries);
          pairs, outs, trace := pairs + [i], outs + [out], trace + [fs.entries];
          failed := failed || out == Failed;
        } else {
          assert !LinkPair(files, idx, i);
          ProgressSkipped(fname, files, idx, m0, i, pairs, outs, trace, failed, fs.entries);
        }
      }
    }
  }
}
