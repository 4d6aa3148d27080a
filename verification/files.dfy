/**
 * The local filesystem the stores work on, as a map from paths to nodes, and
 * the java.io.File and commons-io FileUtils operations the stores call.
 */
module Files {
  import opened Strings
  import opened Results

  /** A path as its sequence of name segments; an absolute path starts with the empty segment. */
  type Path = seq<string>

  datatype Node = Regular(bytes: seq<bv8>) | Directory

  type Entries = map<Path, Node>

  /** Drops the empty segments that doubled or trailing separators leave. */
  function DropEmpty(segments: seq<string>): seq<string>
    decreases |segments|
  {
    if segments == [] then []
    else (if segments[0] == [] then [] else [segments[0]]) + DropEmpty(segments[1..])
  }

  /** The path of `new File(s)`: java.io.File collapses doubled separators and drops a trailing one. */
  function ToPath(s: string): (p: Path)
    ensures p != []
  {
    var segments := Split(s, Sep);
    [segments[0]] + DropEmpty(segments[1..])
  }

  /** A normalised path other than the empty path and `/`: what a store's base directory can be. */
  predicate IsRootPath(p: Path)
  {
    && |p| >= 1
    && p[|p| - 1] != []
    && (forall i | 0 <= i < |p| :: Sep !in p[i])
    && (forall i | 1 <= i < |p| :: p[i] != [])
  }

  /** File.getParentFile, with the empty path standing for `null`. */
  function Parent(p: Path): Path
  {
    if p == [] then [] else p[..|p| - 1]
  }

  /** `q` is `p` or one of its ancestors. */
  predicate IsPrefix(q: Path, p: Path)
  {
    |q| <= |p| && p[..|q|] == q
  }

  /** `p` lies strictly below `q`. */
  predicate Below(q: Path, p: Path)
  {
    |q| < |p| && p[..|q|] == q
  }

  predicate IsChild(p: Path, d: Path)
  {
    |p| == |d| + 1 && p[..|d|] == d
  }

  /** The entries form a tree: the parent of every entry is a directory entry. */
  predicate WellFormed(e: Entries)
  {
    && [] !in e
    && forall p | p in e && |p| > 1 :: Parent(p) in e && e[Parent(p)].Directory?
  }

  predicate IsDir(e: Entries, p: Path)
  {
    p in e && e[p].Directory?
  }

  /** `d.list().length > 0`. */
  predicate HasChild(e: Entries, d: Path)
  {
    exists p | p in e :: IsChild(p, d)
  }

  /** A regular file sits at `d` or at one of its ancestors, so `d.mkdirs()` cannot succeed. */
  predicate Blocked(e: Entries, d: Path)
    decreases |d|
  {
    d != [] && ((d in e && e[d].Regular?) || Blocked(e, Parent(d)))
  }

  /** File.mkdirs: every missing directory on the way to `d` is created. */
  function MakeDirs(e: Entries, d: Path): Entries
    decreases |d|
  {
    if d == [] then e
    else
      var above := MakeDirs(e, Parent(d));
      if d in above then above else above[d := Directory]
  }

  /** FileUtils.forceMkdir: creates `d` and its missing ancestors, or fails leaving everything as it was. */
  function ForceMkdir(e: Entries, d: Path): Result<Entries>
  {
    if Blocked(e, d) then Err(IOFailure) else Ok(MakeDirs(e, d))
  }

  /**
   * FileUtils.openOutputStream: refuses a directory; when the parent does not
   * exist, creates it with mkdirs (an IOException when a regular file higher up
   * is in the way); then `new FileOutputStream` opens (and so creates or
   * truncates) the file, which throws FileNotFoundException when the existing
   * parent is a regular file.
   */
  function OpenOutputStream(e: Entries, file: Path): Result<Entries>
  {
    if file in e && e[file].Directory? then Err(IOFailure)
    else if Parent(file) in e && e[Parent(file)].Regular? then Err(FileNotFound)
    else if Blocked(e, Parent(file)) then Err(IOFailure)
    else Ok(MakeDirs(e, Parent(file))[file := Regular([])])
  }

  /** FileUtils.forceDelete: removes `p` and, for a directory, everything below it. */
  function ForceDelete(e: Entries, p: Path): Entries
  {
    map q | q in e && !IsPrefix(p, q) :: e[q]
  }

  /** The directory-tree invariant of the store: no empty directory strictly below `root`. */
  predicate Tidy(e: Entries, root: Path)
  {
    forall d | d in e && e[d].Directory? && Below(root, d) :: HasChild(e, d)
  }

  /** The filesystem as mutable state shared by whoever holds it. */
  class FileSystem {
    var entries: Entries

    ghost predicate Valid()
      reads this
    {
      WellFormed(entries)
    }

    constructor (entries: Entries)
      requires WellFormed(entries)
      ensures Valid() && this.entries == entries
    {
      this.entries := entries;
    }
  }

  /** In a tree, every ancestor of an entry is a directory entry. */
  lemma {:induction false} AncestorIsDir(e: Entries, p: Path, k: nat)
    requires WellFormed(e) && p in e
    requires 1 <= k < |p|
    ensures IsDir(e, p[..k])
    decreases |p| - k
  {
    var up := Parent(p);
    if k < |up| {
      AncestorIsDir(e, up, k);
      assert up[..k] == p[..k];
    }
  }

  /** Nothing lies below a path that is not in the tree. */
  lemma NothingBelowAbsent(e: Entries, d: Path, p: Path)
    requires WellFormed(e) && d !in e && d != []
    requires p in e
    ensures !IsPrefix(d, p)
  {
    if IsPrefix(d, p) && d != p {
      AncestorIsDir(e, p, |d|);
    }
  }

  /** In a tree, only regular files or their absence can block a directory path. */
  lemma {:induction false} NotBlockedUnderDir(e: Entries, d: Path)
    requires WellFormed(e) && IsDir(e, d)
    ensures !Blocked(e, d)
    decreases |d|
  {
    if |d| > 1 {
      NotBlockedUnderDir(e, Parent(d));
    }
  }

  /** forceMkdir on an existing directory succeeds and changes nothing. */
  lemma ForceMkdirExisting(e: Entries, d: Path)
    requires WellFormed(e) && IsDir(e, d)
    ensures ForceMkdir(e, d) == Ok(e)
  {
    NotBlockedUnderDir(e, d);
    MakeDirsExisting(e, d);
  }

  /**
   * File.mkdirs on an unblocked path keeps the tree well formed, keeps every
   * entry, makes `d` and all its ancestors directories, and adds nothing but
   * directories on the way to `d`.
   */
  lemma {:induction false} MakeDirsEffect(e: Entries, d: Path)
    requires WellFormed(e) && !Blocked(e, d)
    ensures WellFormed(MakeDirs(e, d))
    ensures forall k | 1 <= k <= |d| :: IsDir(MakeDirs(e, d), d[..k])
    ensures forall p | p in e :: p in MakeDirs(e, d) && MakeDirs(e, d)[p] == e[p]
    ensures forall p | p in MakeDirs(e, d) && p !in e :: p != [] && IsPrefix(p, d) && MakeDirs(e, d)[p] == Directory
    decreases |d|
  {
    if d != [] {
      var up := Parent(d);
      var above := MakeDirs(e, up);
      MakeDirsEffect(e, up);
      var r := MakeDirs(e, d);
      forall k | 1 <= k <= |d|
        ensures IsDir(r, d[..k])
      {
        if k < |d| {
          assert d[..k] == up[..k];
        } else {
          assert d[..k] == d;
        }
      }
    }
  }

  /** File.mkdirs on an existing directory changes nothing. */
  lemma {:induction false} MakeDirsExisting(e: Entries, d: Path)
    requires WellFormed(e) && IsDir(e, d)
    ensures MakeDirs(e, d) == e
    decreases |d|
  {
    if |d| > 1 {
      MakeDirsExisting(e, Parent(d));
    } else {
      assert Parent(d) == [];
    }
  }

  /** FileUtils.forceDelete keeps the tree well formed. */
  lemma ForceDeleteWellFormed(e: Entries, p: Path)
    requires WellFormed(e)
    ensures WellFormed(ForceDelete(e, p))
  {
  }

  /** Dropping empty segments distributes over concatenation. */
  lemma {:induction false} DropEmptyAppend(a: seq<string>, b: seq<string>)
    ensures DropEmpty(a + b) == DropEmpty(a) + DropEmpty(b)
    decreases |a|
  {
    if a != [] {
      assert (a + b)[1..] == a[1..] + b;
      DropEmptyAppend(a[1..], b);
    } else {
      assert a + b == b;
    }
  }

  /** Segments that are all non-empty are kept as they are. */
  lemma {:induction false} DropEmptyKeeps(segments: seq<string>)
    requires forall i | 0 <= i < |segments| :: segments[i] != []
    ensures DropEmpty(segments) == segments
    decreases |segments|
  {
    if segments != [] {
      DropEmptyKeeps(segments[1..]);
    }
  }

  /** `new File(root, rest)`: the base directory followed by the non-empty segments of `rest`. */
  lemma ToPathUnder(root: Path, rest: string)
    requires IsRootPath(root)
    ensures ToPath(Join(root) + [Sep] + rest) == root + DropEmpty(Split(rest, Sep))
  {
    RootSegments(root);
    SplitAppend(Join(root), rest, Sep);
    NormaliseUnder(root, Split(rest, Sep));
  }

  /** Normalising the segments of a base directory followed by more segments. */
  lemma NormaliseUnder(root: Path, pieces: seq<string>)
    requires |root| >= 1 && DropEmpty(root[1..]) == root[1..]
    ensures [(root + pieces)[0]] + DropEmpty((root + pieces)[1..]) == root + DropEmpty(pieces)
  {
    assert (root + pieces)[1..] == root[1..] + pieces;
    DropEmptyAppend(root[1..], pieces);
    assert root == [root[0]] + root[1..];
  }

  /** A base directory's path string splits back into its segments, and none after the first is empty. */
  lemma RootSegments(root: Path)
    requires IsRootPath(root)
    ensures Split(Join(root), Sep) == root
    ensures DropEmpty(root[1..]) == root[1..]
  {
    SplitJoin(root);
    var tail := root[1..];
    forall i | 0 <= i < |tail|
      ensures tail[i] != []
    {
      assert tail[i] == root[i + 1];
    }
    DropEmptyKeeps(tail);
  }

  /** Deleting a directory that has nothing in it keeps the tree well formed. */
  lemma RemoveEmptyWellFormed(e: Entries, d: Path)
    requires WellFormed(e) && !HasChild(e, d)
    ensures WellFormed(e - {d})
  {
  }
}
