/**
 * The file-list entries that the hard-link code looks at, and the order
 * (hlink_compare) in which it sorts them: by device, then by inode, and
 * only for equal (device, inode) by the file list's own comparator.
 */
module FileEntries {

  /** A path on the receiving side, as produced by f_name. */
  type Path = seq<char>

  /** The on-disk identity of a file: its device and inode numbers. */
  datatype Ident = Ident(dev: nat, inode: nat)

  /**
   * The fields of a file-list entry that the hard-link code reads.
   * `dev` and `inode` are meaningful only when `hasInodeData` (the
   * HAS_INODE_DATA flag) is set; `hasBasename` says whether the entry's
   * basename is set (non-null); `name` is what the file list's own
   * comparator and f_name look at.
   */
  datatype FileEntry = FileEntry(
    dev: nat,
    inode: nat,
    hasInodeData: bool,
    hasBasename: bool,
    name: Path)

  function IdentOf(e: FileEntry): Ident {
    Ident(e.dev, e.inode)
  }

  predicate SameIdentity(a: FileEntry, b: FileEntry) {
    a.dev == b.dev && a.inode == b.inode
  }

  /** (dev, inode) of `a` is lexicographically below that of `b`. */
  predicate IdentBefore(a: FileEntry, b: FileEntry) {
    a.dev < b.dev || (a.dev == b.dev && a.inode < b.inode)
  }

  /** The file list's comparator (file_compare), used only as a tie-break. */
  type TieBreak = (FileEntry, FileEntry) -> int

  function Sign(x: int): int {
    if x > 0 then 1 else if x < 0 then -1 else 0
  }

  /**
   * What qsort needs of a three-way comparator: swapping the arguments
   * flips the sign, and "not greater" is transitive.
   */
  ghost predicate ValidTieBreak(tie: TieBreak) {
    && (forall a, b :: Sign(tie(a, b)) == -Sign(tie(b, a)))
    && (forall a, b, c :: tie(a, b) <= 0 && tie(b, c) <= 0 ==> tie(a, c) <= 0)
  }

  /**
   * hlink_compare: entries of different identity are ordered by
   * (dev, inode) and never compare equal; the tie-break is consulted
   * only when device and inode both match.
   */
  function Compare(tie: TieBreak, a: FileEntry, b: FileEntry): (r: int)
    ensures !SameIdentity(a, b) ==> (r == 1 || r == -1) && (r < 0 <==> IdentBefore(a, b))
    ensures SameIdentity(a, b) ==> r == tie(a, b)
  {
    if a.dev != b.dev then
      (if a.dev > b.dev then 1 else -1)
    else if a.inode != b.inode then
      (if a.inode > b.inode then 1 else -1)
    else
      tie(a, b)
  }

  /** hlink_compare inherits sign antisymmetry from the tie-break. */
  lemma CompareAntisymmetric(tie: TieBreak, a: FileEntry, b: FileEntry)
    requires ValidTieBreak(tie)
    ensures Sign(Compare(tie, a, b)) == -Sign(Compare(tie, b, a))
  {
  }

  /** Every entry compares equal to itself. */
  lemma CompareReflexive(tie: TieBreak, a: FileEntry)
    requires ValidTieBreak(tie)
    ensures Compare(tie, a, a) == 0
  {
    CompareAntisymmetric(tie, a, a);
  }

  /** hlink_compare inherits transitivity of "not greater" from the tie-break. */
  lemma CompareTransitive(tie: TieBreak, a: FileEntry, b: FileEntry, c: FileEntry)
    requires ValidTieBreak(tie)
    requires Compare(tie, a, b) <= 0 && Compare(tie, b, c) <= 0
    ensures Compare(tie, a, c) <= 0
  {
  }

  /** a <= b and a > c give b > c. */
  lemma CompareAboveTransitive(tie: TieBreak, a: FileEntry, b: FileEntry, c: FileEntry)
    requires ValidTieBreak(tie)
    requires Compare(tie, a, b) <= 0 && Compare(tie, a, c) > 0
    ensures Compare(tie, b, c) > 0
  {
    CompareAntisymmetric(tie, b, c);
    CompareAntisymmetric(tie, a, c);
  }

  /** a <= b and b < c give a < c. */
  lemma CompareBelowTransitive(tie: TieBreak, a: FileEntry, b: FileEntry, c: FileEntry)
    requires ValidTieBreak(tie)
    requires Compare(tie, a, b) <= 0 && Compare(tie, b, c) < 0
    ensures Compare(tie, a, c) < 0
  {
    CompareAntisymmetric(tie, a, c);
    CompareAntisymmetric(tie, b, c);
  }
}
