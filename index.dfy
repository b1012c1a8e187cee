/**
 * The hard-link index as a sequence of positions into the file list:
 * which positions it keeps, the order it is sorted in, and what that
 * order implies about groups of entries sharing (dev, inode).
 */
module HlinkIndex {
  import opened FileEntries

  /**
   * The positions of `files` whose entry carries inode data, in file-list
   * order: what the filling loop of init_hard_links collects.
   */
  function Kept(files: seq<FileEntry>): seq<nat> {
    if files == [] then []
    else
      var n := |files| - 1;
      Kept(files[..n]) + (if files[n].hasInodeData then [n] else [])
  }

  /**
   * The kept positions are exactly the entries with inode data, each once
   * and in file-list order, so there are at most as many as entries.
   */
  lemma {:induction false} KeptSpec(files: seq<FileEntry>)
    ensures |Kept(files)| <= |files|
    ensures forall k :: 0 <= k < |Kept(files)| ==> Kept(files)[k] < |files| && files[Kept(files)[k]].hasInodeData
    ensures forall i :: 0 <= i < |files| && files[i].hasInodeData ==> i in Kept(files)
    ensures forall j, k :: 0 <= j < k < |Kept(files)| ==> Kept(files)[j] < Kept(files)[k]
  {
    if files != [] {
      var n := |files| - 1;
      var prefix := files[..n];
      KeptSpec(prefix);
      forall k | 0 <= k < |Kept(prefix)|
        ensures files[Kept(prefix)[k]] == prefix[Kept(prefix)[k]]
      {
      }
    }
  }

  /** No entry of `files` carries inode data. */
  ghost predicate NoInodeData(files: seq<FileEntry>) {
    forall k :: 0 <= k < |files| ==> !files[k].hasInodeData
  }

  /** Nothing is kept exactly when no entry has inode data. */
  lemma KeptEmpty(files: seq<FileEntry>)
    ensures Kept(files) == [] <==> NoInodeData(files)
  {
    KeptSpec(files);
    if Kept(files) != [] {
      assert files[Kept(files)[0]].hasInodeData;
    }
  }

  /**
   * The filling loop of init_hard_links: a fresh array as long as the
   * file list whose first `n` slots are the kept positions.
   */
  method CollectKept(files: seq<FileEntry>) returns (a: array<nat>, n: nat)
    ensures fresh(a) && a.Length == |files|
    ensures n <= |files| && a[..n] == Kept(files)
    ensures Refers(files, a[..n])
  {
    a := new nat[|files|];
    n := 0;
    for i := 0 to |files|
      invariant n <= i
      invariant a[..n] == Kept(files[..i])
    {
      assert files[..i + 1][..i] == files[..i];
      if files[i].hasInodeData {
        a[n] := i;
        n := n + 1;
      }
    }
    assert files[..|files|] == files;
    KeptSpec(files);
  }

  /** An arrangement of the kept positions refers only to entries with inode data. */
  lemma KeptArrangement(files: seq<FileEntry>, s: seq<nat>)
    requires multiset(s) == multiset(Kept(files))
    ensures |s| == |Kept(files)|
    ensures forall k :: 0 <= k < |s| ==> s[k] < |files| && files[s[k]].hasInodeData
  {
    KeptSpec(files);
    assert |s| == |multiset(s)|;
    forall k | 0 <= k < |s|
      ensures s[k] < |files| && files[s[k]].hasInodeData
    {
      assert s[k] in multiset(Kept(files));
    }
  }

  /** Every position of `idx` refers to an entry of `files`. */
  ghost predicate Refers(files: seq<FileEntry>, idx: seq<nat>) {
    forall k :: 0 <= k < |idx| ==> idx[k] < |files|
  }

  /** The entries `idx` refers to are in ascending hlink_compare order. */
  ghost predicate Sorted(tie: TieBreak, files: seq<FileEntry>, idx: seq<nat>) {
    && Refers(files, idx)
    && forall j, k :: 0 <= j < k < |idx| ==> Compare(tie, files[idx[j]], files[idx[k]]) <= 0
  }

  /** Each neighbouring pair is in hlink_compare order. */
  ghost predicate AdjacentSorted(tie: TieBreak, files: seq<FileEntry>, idx: seq<nat>) {
    && Refers(files, idx)
    && forall k :: 0 <= k < |idx| - 1 ==> Compare(tie, files[idx[k]], files[idx[k + 1]]) <= 0
  }

  /** For a consistent comparator, neighbour order is full order. */
  lemma {:induction false} AdjacentToSorted(tie: TieBreak, files: seq<FileEntry>, idx: seq<nat>)
    requires ValidTieBreak(tie)
    requires AdjacentSorted(tie, files, idx)
    ensures Sorted(tie, files, idx)
  {
    if |idx| >= 2 {
      var n := |idx| - 1;
      var prefix := idx[..n];
      assert AdjacentSorted(tie, files, prefix) by {
        forall k | 0 <= k < |prefix| - 1
          ensures Compare(tie, files[prefix[k]], files[prefix[k + 1]]) <= 0
        {
          assert prefix[k] == idx[k] && prefix[k + 1] == idx[k + 1];
        }
      }
      AdjacentToSorted(tie, files, prefix);
      forall j, k | 0 <= j < k < |idx|
        ensures Compare(tie, files[idx[j]], files[idx[k]]) <= 0
      {
        if k < n {
          assert prefix[j] == idx[j] && prefix[k] == idx[k];
        } else if j < n - 1 {
          assert prefix[j] == idx[j] && prefix[n - 1] == idx[n - 1];
          CompareTransitive(tie, files[idx[j]], files[idx[n - 1]], files[idx[n]]);
        }
      }
    }
  }

  /**
   * The qsort of init_hard_links: sorts the first `n` slots of `a` in
   * place into hlink_compare order, by insertion.
   */
  method SortIndex(tie: TieBreak, files: seq<FileEntry>, a: array<nat>, n: nat)
    requires ValidTieBreak(tie)
    requires n <= a.Length && Refers(files, a[..n])
    modifies a
    ensures a[n..] == old(a[n..])
    ensures multiset(a[..n]) == multiset(old(a[..n]))
    ensures Sorted(tie, files, a[..n])
  {
    var i := 0;
    while i < n
      invariant 0 <= i <= n
      invariant a[n..] == old(a[n..])
      invariant multiset(a[..n]) == multiset(old(a[..n]))
      invariant Refers(files, a[..n])
      invariant InOrderBelow(tie, files, a[..n], i)
    {
      InsertAt(tie, files, a, n, i);
      i := i + 1;
    }
    AdjacentToSorted(tie, files, a[..n]);
  }

  /** The first `i` slots of `s` are in hlink_compare order. */
  ghost predicate InOrderBelow(tie: TieBreak, files: seq<FileEntry>, s: seq<nat>, i: int) {
    && Refers(files, s)
    && forall k :: 0 <= k < i - 1 && k + 1 < |s| ==> Compare(tie, files[s[k]], files[s[k + 1]]) <= 0
  }

  /**
   * While slot `j` moves down: every neighbouring pair below `i + 1` is in
   * order except the one ending at `j`, and the neighbours of `j` are in
   * order with each other.
   */
  ghost predicate Inserting(tie: TieBreak, files: seq<FileEntry>, s: seq<nat>, i: int, j: int) {
    && Refers(files, s)
    && 0 <= j <= i < |s|
    && (forall k :: 0 <= k < i && k + 1 != j ==> Compare(tie, files[s[k]], files[s[k + 1]]) <= 0)
    && (0 < j < i ==> Compare(tie, files[s[j - 1]], files[s[j + 1]]) <= 0)
  }

  /** Swapping an out-of-order slot `j` with its predecessor keeps Inserting, one slot lower. */
  lemma InsertingStep(tie: TieBreak, files: seq<FileEntry>, s: seq<nat>, i: int, j: int)
    requires ValidTieBreak(tie)
    requires Inserting(tie, files, s, i, j) && 0 < j
    requires Compare(tie, files[s[j - 1]], files[s[j]]) > 0
    ensures Inserting(tie, files, s[j - 1 := s[j]][j := s[j - 1]], i, j - 1)
  {
    CompareAntisymmetric(tie, files[s[j - 1]], files[s[j]]);
  }

  /** Inserting ends once slot `j` is at the bottom or not below its predecessor. */
  lemma InsertingDone(tie: TieBreak, files: seq<FileEntry>, s: seq<nat>, i: int, j: int)
    requires Inserting(tie, files, s, i, j)
    requires j == 0 || Compare(tie, files[s[j - 1]], files[s[j]]) <= 0
    ensures InOrderBelow(tie, files, s, i + 1)
  {
  }

  /**
   * One step of the sort: with the first `i` slots in order, moves slot
   * `i` down by adjacent swaps until the first `i + 1` slots are in order.
   */
  method InsertAt(tie: TieBreak, files: seq<FileEntry>, a: array<nat>, n: nat, i: nat)
    requires ValidTieBreak(tie)
    requires i < n <= a.Length
    requires Refers(files, a[..n]) && InOrderBelow(tie, files, a[..n], i)
    modifies a
    ensures a[n..] == old(a[n..])
    ensures multiset(a[..n]) == multiset(old(a[..n]))
    ensures Refers(files, a[..n]) && InOrderBelow(tie, files, a[..n], i + 1)
  {
    var j := i;
    while j > 0 && Compare(tie, files[a[j - 1]], files[a[j]]) > 0
      invariant a[n..] == old(a[n..])
      invariant multiset(a[..n]) == multiset(old(a[..n]))
      invariant Inserting(tie, files, a[..n], i, j)
    {
      ghost var s := a[..n];
      InsertingStep(tie, files, s, i, j);
      Swap(a, n, j);
      assert a[..n] == s[j - 1 := s[j]][j := s[j - 1]];
      j := j - 1;
    }
    InsertingDone(tie, files, a[..n], i, j);
  }

  /** Exchanges slots `j - 1` and `j` among the first `n`. */
  method Swap(a: array<nat>, n: nat, j: nat)
    requires 0 < j < n <= a.Length
    modifies a
    ensures a[..] == old(a[..])[j - 1 := old(a[j])][j := old(a[j - 1])]
    ensures a[n..] == old(a[n..])
    ensures multiset(a[..n]) == multiset(old(a[..n]))
  {
    a[j - 1], a[j] := a[j], a[j - 1];
    assert a[..n] == old(a[..n])[j - 1 := old(a[j])][j := old(a[j - 1])];
  }

  /** realloc_array: a fresh array holding the first `n` slots of `a`. */
  method Shrink(a: array<nat>, n: nat) returns (b: array<nat>)
    requires n <= a.Length
    ensures fresh(b) && b[..] == a[..n]
  {
    b := new nat[n];
    forall k | 0 <= k < n {
      b[k] := a[k];
    }
  }

  /**
   * Binary search, upper half: once an entry compares above `file`, every
   * later entry of a sorted index does too.
   */
  lemma AboveStaysAbove(tie: TieBreak, files: seq<FileEntry>, idx: seq<nat>, file: FileEntry, m: int)
    requires ValidTieBreak(tie) && Sorted(tie, files, idx)
    requires 0 <= m < |idx| && Compare(tie, files[idx[m]], file) > 0
    ensures forall k :: m <= k < |idx| ==> Compare(tie, files[idx[k]], file) > 0
  {
    forall k | m < k < |idx|
      ensures Compare(tie, files[idx[k]], file) > 0
    {
      CompareAboveTransitive(tie, files[idx[m]], files[idx[k]], file);
    }
  }

  /**
   * Binary search, lower half: once an entry compares below `file`, every
   * earlier entry of a sorted index does too.
   */
  lemma BelowStaysBelow(tie: TieBreak, files: seq<FileEntry>, idx: seq<nat>, file: FileEntry, m: int)
    requires ValidTieBreak(tie) && Sorted(tie, files, idx)
    requires 0 <= m < |idx| && Compare(tie, files[idx[m]], file) < 0
    ensures forall k :: 0 <= k <= m ==> Compare(tie, files[idx[k]], file) < 0
  {
    forall k | 0 <= k < m
      ensures Compare(tie, files[idx[k]], file) < 0
    {
      CompareBelowTransitive(tie, files[idx[k]], files[idx[m]], file);
    }
  }

  /** Some position of `idx` refers to an entry that compares equal to `file`. */
  ghost predicate Matches(tie: TieBreak, files: seq<FileEntry>, idx: seq<nat>, file: FileEntry) {
    && Refers(files, idx)
    && exists k :: 0 <= k < |idx| && Compare(tie, files[idx[k]], file) == 0
  }

  /** At most one position of `idx` refers to an entry that compares equal to `file`. */
  ghost predicate UniqueMatch(tie: TieBreak, files: seq<FileEntry>, idx: seq<nat>, file: FileEntry) {
    && Refers(files, idx)
    && forall j, k ::
         0 <= j < |idx| && 0 <= k < |idx|
         && Compare(tie, files[idx[j]], file) == 0 && Compare(tie, files[idx[k]], file) == 0
         ==> j == k
  }

  /**
   * `file` matches some position whose predecessor has the same
   * (dev, inode): a later occurrence of a hard-linked file.
   */
  ghost predicate LaterMatch(tie: TieBreak, files: seq<FileEntry>, idx: seq<nat>, file: FileEntry) {
    && Refers(files, idx)
    && exists p :: 0 < p < |idx| && Compare(tie, files[idx[p]], file) == 0 && SameIdentity(files[idx[p - 1]], file)
  }

  /**
   * The binary search of check_hard_link stops either at a position that
   * compares equal, or where everything before compares below and
   * everything after compares above: there, equality at the stopping
   * point says whether anything matches at all.
   */
  lemma SearchExit(tie: TieBreak, files: seq<FileEntry>, idx: seq<nat>, file: FileEntry, low: int)
    requires Refers(files, idx) && 0 <= low < |idx|
    requires || Compare(tie, files[idx[low]], file) == 0
             || (&& (forall k :: 0 <= k < low ==> Compare(tie, files[idx[k]], file) < 0)
                 && (forall k :: low < k < |idx| ==> Compare(tie, files[idx[k]], file) > 0))
    ensures Compare(tie, files[idx[low]], file) == 0 <==> Matches(tie, files, idx, file)
  {
  }

  /**
   * The binary search of check_hard_link over a sorted, non-empty index:
   * it narrows [low, high] until the two meet or the probe compares
   * equal, and ends at a position that compares equal to `file`
   * whenever any position does.
   */
  method Search(tie: TieBreak, files: seq<FileEntry>, list: array<nat>, file: FileEntry) returns (low: int)
    requires ValidTieBreak(tie) && list.Length >= 1 && Sorted(tie, files, list[..])
    ensures 0 <= low < list.Length
    ensures Compare(tie, files[list[low]], file) == 0 <==> Matches(tie, files, list[..], file)
  {
    ghost var idx := list[..];
    var high;
    low, high := 0, list.Length - 1;
    while low != high
      invariant 0 <= low <= high < |idx|
      invariant forall k :: 0 <= k < low ==> Compare(tie, files[idx[k]], file) < 0
      invariant forall k :: high < k < |idx| ==> Compare(tie, files[idx[k]], file) > 0
      decreases high - low
    {
      var mid := (low + high) / 2;
      var ret := Compare(tie, files[list[mid]], file);
      if ret == 0 {
        low := mid;
        break;
      }
      if ret > 0 {
        AboveStaysAbove(tie, files, idx, file, mid);
        high := mid;
      } else {
        BelowStaysBelow(tie, files, idx, file, mid);
        low := mid + 1;
      }
    }
    SearchExit(tie, files, idx, file, low);
  }

  /**
   * Where the binary search of check_hard_link may converge: at a
   * position that matches when anything matches, and then, with a unique
   * match, at the matching position itself.
   */
  lemma ConvergedMatch(tie: TieBreak, files: seq<FileEntry>, idx: seq<nat>, file: FileEntry, low: int)
    requires Refers(files, idx) && 0 <= low < |idx|
    requires Compare(tie, files[idx[low]], file) == 0 <==> Matches(tie, files, idx, file)
    requires UniqueMatch(tie, files, idx, file)
    ensures (Compare(tie, files[idx[low]], file) == 0 && low > 0 && SameIdentity(files[idx[low - 1]], file))
        <==> LaterMatch(tie, files, idx, file)
  {
  }

  /**
   * What the three-part test of check_hard_link (equal at `low`, `low`
   * not first, same identity just before) answers once the search has
   * converged on a position that matches whenever anything matches.
   */
  lemma {:induction false} ConvergedAnswer(tie: TieBreak, files: seq<FileEntry>, idx: seq<nat>, file: FileEntry, low: int, r: bool)
    requires ValidTieBreak(tie) && Sorted(tie, files, idx) && 0 <= low < |idx|
    requires Compare(tie, files[idx[low]], file) == 0 <==> Matches(tie, files, idx, file)
    requires r <==> Compare(tie, files[idx[low]], file) == 0 && low > 0 && SameIdentity(files[idx[low - 1]], file)
    ensures UniqueMatch(tie, files, idx, file) ==> (r <==> LaterMatch(tie, files, idx, file))
    ensures forall p :: 0 <= p < |idx| && files[idx[p]] == file && UniqueMatch(tie, files, idx, file) ==>
      (r <==> exists q :: 0 <= q < p && SameIdentity(files[idx[q]], file))
  {
    if UniqueMatch(tie, files, idx, file) {
      ConvergedMatch(tie, files, idx, file, low);
    }
    forall p | 0 <= p < |idx| && files[idx[p]] == file && UniqueMatch(tie, files, idx, file)
      ensures r <==> exists q :: 0 <= q < p && SameIdentity(files[idx[q]], file)
    {
      OwnPosition(tie, files, idx, file, p, low);
    }
  }

  /**
   * For an entry of the index itself that nothing else ties with, the
   * converged position is its own, and the predecessor test says whether
   * an earlier position shares its (dev, inode).
   */
  lemma OwnPosition(tie: TieBreak, files: seq<FileEntry>, idx: seq<nat>, file: FileEntry, p: int, low: int)
    requires ValidTieBreak(tie) && Sorted(tie, files, idx)
    requires 0 <= p < |idx| && files[idx[p]] == file && UniqueMatch(tie, files, idx, file)
    requires 0 <= low < |idx|
    requires Compare(tie, files[idx[low]], file) == 0 <==> Matches(tie, files, idx, file)
    ensures low == p
    ensures (Compare(tie, files[idx[low]], file) == 0 && low > 0 && SameIdentity(files[idx[low - 1]], file))
        <==> exists q :: 0 <= q < p && SameIdentity(files[idx[q]], file)
  {
    CompareReflexive(tie, file);
    assert Matches(tie, files, idx, file);
    PredecessorDecidesGroup(tie, files, idx, p);
  }

  /**
   * In a sorted index, the entries sharing one (dev, inode) are
   * contiguous: anything between two members of a group is a member.
   */
  lemma GroupsContiguous(tie: TieBreak, files: seq<FileEntry>, idx: seq<nat>, j: int, m: int, k: int)
    requires Sorted(tie, files, idx)
    requires 0 <= j <= m <= k < |idx|
    requires SameIdentity(files[idx[j]], files[idx[k]])
    ensures SameIdentity(files[idx[m]], files[idx[j]])
  {
    if j < m < k {
      assert Compare(tie, files[idx[j]], files[idx[m]]) <= 0;
      assert Compare(tie, files[idx[m]], files[idx[k]]) <= 0;
    }
  }

  /**
   * The predecessor slot decides group membership: position `p` has an
   * earlier position with the same (dev, inode) exactly when position
   * `p - 1` has it.
   */
  lemma PredecessorDecidesGroup(tie: TieBreak, files: seq<FileEntry>, idx: seq<nat>, p: int)
    requires Sorted(tie, files, idx)
    requires 0 <= p < |idx|
    ensures (exists q :: 0 <= q < p && SameIdentity(files[idx[q]], files[idx[p]]))
        <==> (p > 0 && SameIdentity(files[idx[p - 1]], files[idx[p]]))
  {
    if q :| 0 <= q < p && SameIdentity(files[idx[q]], files[idx[p]]) {
      GroupsContiguous(tie, files, idx, q, p - 1, p);
    }
  }

  /** No two positions of `s` refer to entries that hlink_compare ties. */
  ghost predicate NoTies(tie: TieBreak, files: seq<FileEntry>, s: seq<nat>) {
    && Refers(files, s)
    && forall i, j :: 0 <= i < |s| && 0 <= j < |s| && Compare(tie, files[s[i]], files[s[j]]) == 0 ==> s[i] == s[j]
  }

  /** Dropping the first slot keeps an index sorted and free of ties. */
  lemma TailSorted(tie: TieBreak, files: seq<FileEntry>, s: seq<nat>)
    requires Sorted(tie, files, s) && s != []
    ensures Sorted(tie, files, s[1..])
    ensures NoTies(tie, files, s) ==> NoTies(tie, files, s[1..])
  {
    forall j, k | 0 <= j < k < |s| - 1
      ensures Compare(tie, files[s[1..][j]], files[s[1..][k]]) <= 0
    {
      assert s[1..][j] == s[j + 1] && s[1..][k] == s[k + 1];
    }
  }

  /** Two sorted, tie-free arrangements of the same positions start alike. */
  lemma SameFirst(tie: TieBreak, files: seq<FileEntry>, s: seq<nat>, t: seq<nat>)
    requires ValidTieBreak(tie)
    requires Sorted(tie, files, s) && Sorted(tie, files, t) && NoTies(tie, files, s)
    requires multiset(s) == multiset(t) && s != []
    ensures t != [] && s[0] == t[0]
  {
    assert s[0] in multiset(t);
    var j :| 0 <= j < |t| && t[j] == s[0];
    assert t[0] in multiset(s);
    var i :| 0 <= i < |s| && s[i] == t[0];
    CompareReflexive(tie, files[s[0]]);
    assert Compare(tie, files[s[0]], files[s[i]]) <= 0;
    assert Compare(tie, files[t[0]], files[t[j]]) <= 0;
    CompareAntisymmetric(tie, files[s[0]], files[t[0]]);
    assert Compare(tie, files[s[0]], files[s[i]]) == 0;
  }

  /**
   * Under a comparator that never ties two distinct kept positions, the
   * sorted arrangement of a set of positions is unique: rebuilding the
   * index from the same file list yields the same order.
   */
  lemma {:induction false} SortedUnique(tie: TieBreak, files: seq<FileEntry>, s: seq<nat>, t: seq<nat>)
    requires ValidTieBreak(tie)
    requires Sorted(tie, files, s) && Sorted(tie, files, t) && NoTies(tie, files, s)
    requires multiset(s) == multiset(t)
    ensures s == t
  {
    if s != [] {
      SameFirst(tie, files, s, t);
      assert s == [s[0]] + s[1..];
      assert t == [t[0]] + t[1..];
      assert multiset(s) == multiset([s[0]]) + multiset(s[1..]);
      assert multiset(t) == multiset([t[0]]) + multiset(t[1..]);
      assert multiset(s[1..]) == multiset(s) - multiset([s[0]]);
      assert multiset(t[1..]) == multiset(t) - multiset([t[0]]);
      TailSorted(tie, files, s);
      TailSorted(tie, files, t);
      SortedUnique(tie, files, s[1..], t[1..]);
    } else {
      assert |t| == |multiset(t)| == 0;
    }
  }

  /** do_hard_links links the pair (i - 1, i) of the index. */
  ghost predicate LinkPair(files: seq<FileEntry>, idx: seq<nat>, i: int) {
    && Refers(files, idx)
    && 1 <= i < |idx|
    && files[idx[i]].hasBasename
    && files[idx[i - 1]].hasBasename
    && SameIdentity(files[idx[i]], files[idx[i - 1]])
  }

  /** How many of the first `n` index positions belong to the group `id`. */
  ghost function GroupSize(files: seq<FileEntry>, idx: seq<nat>, id: Ident, n: nat): (r: nat)
    requires Refers(files, idx) && n <= |idx|
    ensures forall k :: 0 <= k < n && IdentOf(files[idx[k]]) == id ==> r > 0
  {
    if n == 0 then 0
    else GroupSize(files, idx, id, n - 1) + (if IdentOf(files[idx[n - 1]]) == id then 1 else 0)
  }

  /**
   * The positions i below `n` whose pair (i - 1, i) do_hard_links hands
   * to hard_link_one, in the order the loop visits them.
   */
  ghost function PairList(files: seq<FileEntry>, idx: seq<nat>, n: int): seq<int>
    decreases n
  {
    if n <= 0 then []
    else PairList(files, idx, n - 1) + (if LinkPair(files, idx, n - 1) then [n - 1] else [])
  }

  /** The pair list is increasing and holds exactly the link pairs below `n`. */
  lemma {:induction false} PairListSpec(files: seq<FileEntry>, idx: seq<nat>, n: int)
    ensures forall i :: i in PairList(files, idx, n) <==> 1 <= i < n && LinkPair(files, idx, i)
    ensures forall j, k :: 0 <= j < k < |PairList(files, idx, n)| ==> PairList(files, idx, n)[j] < PairList(files, idx, n)[k]
    decreases n
  {
    if n > 0 {
      var prev := PairList(files, idx, n - 1);
      PairListSpec(files, idx, n - 1);
      if LinkPair(files, idx, n - 1) {
        var cur := prev + [n - 1];
        assert PairList(files, idx, n) == cur;
        forall j, k | 0 <= j < k < |cur|
          ensures cur[j] < cur[k]
        {
          if k == |prev| {
            assert prev[j] in prev;
          }
        }
      } else {
        assert PairList(files, idx, n) == prev;
      }
    }
  }

  /** The elements of `s` that name index positions in the group `id`, in order. */
  ghost function InGroup(files: seq<FileEntry>, idx: seq<nat>, id: Ident, s: seq<int>): seq<int> {
    if s == [] then []
    else
      var i := s[|s| - 1];
      InGroup(files, idx, id, s[..|s| - 1])
        + (if 0 <= i < |idx| && idx[i] < |files| && IdentOf(files[idx[i]]) == id then [i] else [])
  }

  /** How many of the link pairs below `n` have their later member in the group `id`. */
  ghost function GroupPairs(files: seq<FileEntry>, idx: seq<nat>, id: Ident, n: nat): nat {
    |InGroup(files, idx, id, PairList(files, idx, n))|
  }

  /** Counting the group's pairs below n + 1 adds slot n exactly when it is a link pair of the group. */
  lemma GroupPairsStep(files: seq<FileEntry>, idx: seq<nat>, id: Ident, n: nat)
    requires Refers(files, idx) && n < |idx|
    ensures GroupPairs(files, idx, id, n + 1)
         == GroupPairs(files, idx, id, n) + (if LinkPair(files, idx, n) && IdentOf(files[idx[n]]) == id then 1 else 0)
  {
    var s := PairList(files, idx, n);
    if LinkPair(files, idx, n) {
      assert PairList(files, idx, n + 1) == s + [n];
      assert (s + [n])[..|s + [n]| - 1] == s;
    } else {
      assert PairList(files, idx, n + 1) == s;
    }
  }

  /**
   * A group of K index entries yields at most K - 1 link pairs: each pair
   * is counted at its later member, which is never the group's first.
   */
  lemma {:induction false} AttemptsPerGroup(files: seq<FileEntry>, idx: seq<nat>, id: Ident, n: nat)
    requires Refers(files, idx) && n <= |idx|
    ensures GroupSize(files, idx, id, n) == 0 ==> GroupPairs(files, idx, id, n) == 0
    ensures GroupSize(files, idx, id, n) > 0 ==> GroupPairs(files, idx, id, n) < GroupSize(files, idx, id, n)
  {
    if n > 0 {
      var i := n - 1;
      AttemptsPerGroup(files, idx, id, i);
      GroupPairsStep(files, idx, id, i);
      if LinkPair(files, idx, i) && IdentOf(files[idx[i]]) == id {
        assert IdentOf(files[idx[i - 1]]) == id;
        assert GroupSize(files, idx, id, i) > 0;
      }
    }
  }
}
