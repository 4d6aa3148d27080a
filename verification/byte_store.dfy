/**
 * FileSystemByteStore: every buffer is one regular file below the store's
 * base directory, at the path its UUID gives once every dash becomes a
 * separator, so each dash-separated group of the UUID is one directory level.
 */
module ByteStore {
  import opened Strings
  import opened Results
  import opened Files
  import Store

  /** getFile(String): `new File(directory, identifier.replace("-", separator))`. */
  function FileOf(directory: Path, identifier: string): Path
  {
    ToPath(Join(directory) + [Sep] + ReplaceChar(identifier, '-', Sep))
  }

  /** read once the path is known: FileUtils.openInputStream refuses a missing path and a directory, then the whole file is mapped. */
  function ReadAt(e: Entries, file: Path): Result<seq<bv8>>
  {
    if file !in e then Err(FileNotFound)
    else if e[file].Directory? then Err(IOFailure)
    else Ok(e[file].bytes)
  }

  /**
   * deleteEmptyParent(d): the walk from `d` upwards. Unlike the stream store,
   * each step checks for entries in the directory before it checks for the base
   * directory.
   */
  function PruneFrom(e: Entries, d: Path, root: Path): (r: (Result<()>, Entries))
    ensures forall p | p in r.1 :: p in e && r.1[p] == e[p]
    ensures forall p | p in e && p !in r.1 :: IsPrefix(p, d) && p != root && e[p] == Directory
    decreases |d|
  {
    if d == [] then (Err(NullPointer), e)
    else if !IsDir(e, d) then (Err(NotADirectory), e)
    else if HasChild(e, d) then (Ok(()), e)
    else if d == root then (Ok(()), e)
    else PruneFrom(e - {d}, Parent(d), root)
  }

  /** delete once the path is known: a missing file is a FileNotFoundException, then forceDelete and the walk from the parent. */
  function DeleteAt(e: Entries, file: Path, root: Path): (Result<()>, Entries)
  {
    if file !in e then (Err(FileNotFound), e)
    else PruneFrom(ForceDelete(e, file), Parent(file), root)
  }

  predicate IsHexDigit(c: char)
  {
    '0' <= c <= '9' || 'a' <= c <= 'f'
  }

  /** The form of `UUID.toString()`: 36 characters, lower-case hex digits in groups of 8, 4, 4, 4 and 12 joined by dashes. */
  predicate IsUuid(s: string)
  {
    && |s| == 36
    && forall i | 0 <= i < |s| ::
         if i == 8 || i == 13 || i == 18 || i == 23 then s[i] == '-' else IsHexDigit(s[i])
  }

  /** The five dash-separated groups of a UUID string. */
  function UuidGroups(s: string): seq<string>
    requires |s| == 36
  {
    [s[..8], s[9..13], s[14..18], s[19..23], s[24..]]
  }

  class FileSystemByteStore {
    const fs: FileSystem
    const directory: Path

    constructor (fs: FileSystem, directory: Path)
      requires IsDir(fs.entries, directory)
      ensures this.fs == fs && this.directory == directory
    {
      this.fs := fs;
      this.directory := directory;
    }

    /** The constructor: forceMkdir on the base directory, which fails when a regular file is in the way. */
    static method Open(fs: FileSystem, directory: Path) returns (r: Result<FileSystemByteStore>)
      requires fs.Valid() && IsRootPath(directory)
      modifies fs
      ensures fs.Valid()
      ensures r.Err? <==> Blocked(old(fs.entries), directory)
      ensures r.Err? ==> r.error == IOFailure && fs.entries == old(fs.entries)
      ensures IsDir(old(fs.entries), directory) ==> r.Ok? && fs.entries == old(fs.entries)
      ensures r.Ok? ==> && fresh(r.value) && r.value.fs == fs && r.value.directory == directory
                        && fs.entries == MakeDirs(old(fs.entries), directory)
                        && IsDir(fs.entries, directory)
    {
      if IsDir(fs.entries, directory) {
        ForceMkdirExisting(fs.entries, directory);
      }
      var made := ForceMkdir(fs.entries, directory);
      if made.Err? {
        return Err(made.error);
      }
      MakeDirsEffect(fs.entries, directory);
      assert directory[..|directory|] == directory;
      fs.entries := made.value;
      var store := new FileSystemByteStore(fs, directory);
      r := Ok(store);
    }

    /**
     * getFile(String): the path, whether or not anything is there. Under a
     * normalised base it lies at or below the base, and a UUID's path is the
     * base followed by the UUID's five groups.
     */
    function GetFile(identifier: string): (r: Path)
      reads this
      ensures IsRootPath(directory) ==> IsPrefix(directory, r)
      ensures IsRootPath(directory) && IsUuid(identifier) ==>
        r == directory + UuidGroups(identifier) && |r| == |directory| + 5
    {
      FileOfUnderRoot(directory, identifier);
      FileOf(directory, identifier)
    }

    /** read: FileNotFoundException when nothing is there, IOException on a directory, otherwise the file's bytes. */
    function Read(identifier: string): (r: Result<seq<bv8>>)
      reads this, fs
      ensures GetFile(identifier) !in fs.entries ==> r == Err(FileNotFound)
      ensures GetFile(identifier) in fs.entries && fs.entries[GetFile(identifier)].Directory? ==> r == Err(IOFailure)
      ensures r.Ok? <==> GetFile(identifier) in fs.entries && fs.entries[GetFile(identifier)].Regular?
      ensures r.Ok? ==> r.value == fs.entries[GetFile(identifier)].bytes
    {
      ReadAt(fs.entries, GetFile(identifier))
    }

    /**
     * create(buffer): stores the buffer under the UUID drawn for it (here the
     * parameter `uuid`) and returns the UUID's string form.
     */
    method Create(buffer: seq<bv8>, uuid: string) returns (r: Result<string>)
      requires fs.Valid()
      modifies fs
      ensures fs.Valid()
      ensures r.Ok? ==> r.value == uuid && Read(uuid) == Ok(buffer)
      ensures match Store.CreateAt(old(fs.entries), GetFile(uuid), buffer)
        case Ok(after) => r == Ok(uuid) && fs.entries == after
        case Err(x) => r == Err(x) && fs.entries == old(fs.entries)
    {
      var file := GetFile(uuid);
      if file in fs.entries {
        return Err(AlreadyPresent);
      }
      Store.CreateAtEffect(fs.entries, file, buffer);
      var output := OpenOutputStream(fs.entries, file);
      if output.Err? {
        return Err(output.error);
      }
      fs.entries := output.value;
      fs.entries := fs.entries[file := Regular(buffer)];
      r := Ok(uuid);
    }

    /** delete: removes the file, then the empty directories above it. */
    method Delete(identifier: string) returns (r: Result<()>)
      requires fs.Valid()
      modifies fs
      ensures fs.Valid()
      ensures (r, fs.entries) == DeleteAt(old(fs.entries), GetFile(identifier), directory)
    {
      var file := GetFile(identifier);
      if file !in fs.entries {
        return Err(FileNotFound);
      }
      ForceDeleteWellFormed(fs.entries, file);
      fs.entries := ForceDelete(fs.entries, file);
      r := DeleteEmptyParent(Parent(file));
    }

    /** deleteEmptyParent: the recursive walk up from `d`, checking emptiness before the base directory. */
    method DeleteEmptyParent(d: Path) returns (r: Result<()>)
      requires fs.Valid()
      modifies fs
      ensures fs.Valid()
      ensures (r, fs.entries) == PruneFrom(old(fs.entries), d, directory)
      decreases |d|
    {
      if d == [] {
        return Err(NullPointer);
      }
      if !IsDir(fs.entries, d) {
        return Err(NotADirectory);
      }
      if HasChild(fs.entries, d) {
        return Ok(());
      }
      if d == directory {
        return Ok(());
      }
      RemoveEmptyWellFormed(fs.entries, d);
      fs.entries := fs.entries - {d};
      r := DeleteEmptyParent(Parent(d));
    }
  }

  /** The two stores' walks check the base directory and emptiness in opposite orders, with the same outcome and the same deletions on every input. */
  lemma {:induction false} PruneOrdersAgree(e: Entries, d: Path, root: Path)
    ensures PruneFrom(e, d, root) == Store.PruneFrom(e, d, root)
    decreases |d|
  {
    if d != [] && IsDir(e, d) && !HasChild(e, d) && d != root {
      PruneOrdersAgree(e - {d}, Parent(d), root);
    }
  }

  /**
   * The two stores delete an existing file in the same way; they differ only
   * in the error for a missing one (FileNotFoundException here, an
   * IllegalStateException in the stream store), and neither changes anything then.
   */
  lemma DeleteAgrees(e: Entries, file: Path, root: Path)
    ensures file in e ==> DeleteAt(e, file, root) == Store.DeleteAt(e, file, root)
    ensures file !in e ==>
      DeleteAt(e, file, root) == (Err(FileNotFound), e) && Store.DeleteAt(e, file, root) == (Err(DoesNotExist), e)
  {
    PruneOrdersAgree(ForceDelete(e, file), Parent(file), root);
  }

  /**
   * delete of an existing file below the base directory ends normally, removes
   * the file, keeps the base directory and every other regular file, removes
   * only directories between the base and the file, and leaves every ancestor
   * it stops at non-empty, although it checks for entries before the base.
   */
  lemma DeleteEffect(e: Entries, file: Path, root: Path)
    requires WellFormed(e) && IsDir(e, root) && Below(root, file) && file in e
    ensures var after := DeleteAt(e, file, root).1;
      && DeleteAt(e, file, root).0 == Ok(())
      && WellFormed(after)
      && IsDir(after, root)
      && file !in after
      && (forall p | p in e && !IsPrefix(file, p) && e[p].Regular? :: p in after && after[p] == e[p])
      && (forall p | p in e && p !in after && !IsPrefix(file, p) :: Below(root, p) && Below(p, file) && e[p] == Directory)
      && (forall q | q in after && Below(root, q) && Below(q, file) :: HasChild(after, q))
  {
    DeleteAgrees(e, file, root);
    Store.DeleteEffect(e, file, root);
  }

  /** read and the stream store's view agree on every existing regular file and differ only in their errors. */
  lemma ReadAgreesWithView(e: Entries, file: Path)
    ensures ReadAt(e, file).Ok? <==> Store.ViewAt(e, file).Ok?
    ensures ReadAt(e, file).Ok? ==> ReadAt(e, file) == Store.ViewAt(e, file)
    ensures file !in e ==> ReadAt(e, file) == Err(FileNotFound)
    ensures file in e && e[file].Directory? ==> ReadAt(e, file) == Err(IOFailure)
  {
  }

  /**
   * A separator-free identifier lands under the base directory, one directory
   * level per dash-separated piece, with empty pieces (doubled, leading or
   * trailing dashes) collapsing away.
   */
  lemma DashPath(root: Path, identifier: string)
    requires IsRootPath(root) && Sep !in identifier
    ensures FileOf(root, identifier) == root + DropEmpty(Split(identifier, '-'))
  {
    ToPathUnder(root, ReplaceChar(identifier, '-', Sep));
    SplitReplaceChar(identifier, '-', Sep);
  }

  /** Splitting at a position that holds the separator, with no separator before it. */
  lemma SplitFirst(s: string, i: nat, c: char)
    requires i < |s| && s[i] == c && c !in s[..i]
    ensures Split(s, c) == [s[..i]] + Split(s[i + 1..], c)
  {
    assert s == s[..i] + [c] + s[i + 1..];
    SplitAppend(s[..i], s[i + 1..], c);
    SplitWithout(s[..i], c);
  }

  /** No dash between positions `lo` and `hi` of a UUID string when no dash position lies in between. */
  lemma UuidGroupDashFree(s: string, lo: nat, hi: nat)
    requires IsUuid(s) && lo <= hi <= 36
    requires || (lo == 0 && hi == 8) || (lo == 9 && hi == 13) || (lo == 14 && hi == 18)
             || (lo == 19 && hi == 23) || (lo == 24 && hi == 36)
    ensures '-' !in s[lo..hi]
  {
  }

  /** Splitting the part of a UUID string from group start `lo` on peels off the group ending at the dash `hi`. */
  lemma UuidSplitStep(s: string, lo: nat, hi: nat)
    requires IsUuid(s)
    requires || (lo == 0 && hi == 8) || (lo == 9 && hi == 13) || (lo == 14 && hi == 18) || (lo == 19 && hi == 23)
    ensures Split(s[lo..], '-') == [s[lo..hi]] + Split(s[hi + 1..], '-')
  {
    UuidGroupDashFree(s, lo, hi);
    var t := s[lo..];
    var i := hi - lo;
    assert t[i] == s[hi];
    assert t[..i] == s[lo..hi] && t[i + 1..] == s[hi + 1..];
    SplitFirst(t, i, '-');
  }

  /** A UUID string splits at its dashes into its five groups. */
  lemma UuidSplit(s: string)
    requires IsUuid(s)
    ensures Split(s, '-') == UuidGroups(s)
  {
    assert s[0..] == s;
    UuidSplitStep(s, 0, 8);
    UuidSplitStep(s, 9, 13);
    UuidSplitStep(s, 14, 18);
    UuidSplitStep(s, 19, 23);
    UuidGroupDashFree(s, 24, 36);
    assert s[24..] == s[24..36];
    SplitWithout(s[24..], '-');
    assert s[..8] == s[0..8];
  }

  /** Where getFile puts an identifier for whatever base a store was given: nothing is said unless the base is a normalised path. */
  lemma FileOfUnderRoot(root: Path, s: string)
    ensures IsRootPath(root) ==> IsPrefix(root, FileOf(root, s))
    ensures IsRootPath(root) && IsUuid(s) ==> FileOf(root, s) == root + UuidGroups(s) && |FileOf(root, s)| == |root| + 5
  {
    if IsRootPath(root) {
      ToPathUnder(root, ReplaceChar(s, '-', Sep));
      assert (root + DropEmpty(Split(ReplaceChar(s, '-', Sep), Sep)))[..|root|] == root;
      if IsUuid(s) {
        UuidPath(root, s);
      }
    }
  }

  /**
   * The file of a UUID string is the base directory followed by its five
   * groups, so it lies five levels below the base directory.
   */
  lemma UuidPath(root: Path, s: string)
    requires IsRootPath(root) && IsUuid(s)
    ensures FileOf(root, s) == root + UuidGroups(s)
    ensures Below(root, FileOf(root, s)) && |FileOf(root, s)| == |root| + 5
  {
    assert Sep !in s by {
      forall k | 0 <= k < |s|
        ensures s[k] != Sep
      {
        if k == 8 || k == 13 || k == 18 || k == 23 {
          assert s[k] == '-';
        } else {
          assert IsHexDigit(s[k]);
        }
      }
    }
    DashPath(root, s);
    UuidSplit(s);
    DropEmptyKeeps(UuidGroups(s));
    var file := FileOf(root, s);
    assert file[..|root|] == root;
  }

  /** A UUID string is its five groups joined by dashes. */
  lemma UuidFromGroups(s: string)
    requires IsUuid(s)
    ensures s == s[..8] + "-" + s[9..13] + "-" + s[14..18] + "-" + s[19..23] + "-" + s[24..]
  {
  }

  /** Distinct UUIDs are stored at distinct paths. */
  lemma UuidFilesDistinct(root: Path, a: string, b: string)
    requires IsRootPath(root) && IsUuid(a) && IsUuid(b) && a != b
    ensures FileOf(root, a) != FileOf(root, b)
  {
    UuidPath(root, a);
    UuidPath(root, b);
    UuidFromGroups(a);
    UuidFromGroups(b);
    assert UuidGroups(a) != UuidGroups(b);
    assert (root + UuidGroups(a))[|root|..] == UuidGroups(a);
    assert (root + UuidGroups(b))[|root|..] == UuidGroups(b);
  }

  /** After a successful create the buffer reads back, and a second create under the same UUID is refused. */
  lemma ReadAfterCreate(e: Entries, file: Path, buffer: seq<bv8>)
    requires WellFormed(e) && file != []
    requires Store.CreateAt(e, file, buffer).Ok?
    ensures ReadAt(Store.CreateAt(e, file, buffer).value, file) == Ok(buffer)
    ensures Store.CreateAt(Store.CreateAt(e, file, buffer).value, file, buffer) == Err(AlreadyPresent)
  {
  }

  /**
   * Deleting the file a UUID was just stored under restores the filesystem
   * exactly, when no empty directory was below the base before.
   */
  lemma CreateThenDelete(e: Entries, root: Path, uuid: string, buffer: seq<bv8>)
    requires WellFormed(e) && IsRootPath(root) && IsDir(e, root) && Tidy(e, root) && IsUuid(uuid)
    requires Store.CreateAt(e, FileOf(root, uuid), buffer).Ok?
    ensures DeleteAt(Store.CreateAt(e, FileOf(root, uuid), buffer).value, FileOf(root, uuid), root) == (Ok(()), e)
  {
    var file := FileOf(root, uuid);
    UuidPath(root, uuid);
    Store.CreateThenDelete(e, file, root, buffer);
    Store.CreateAtEffect(e, file, buffer);
    DeleteAgrees(Store.CreateAt(e, file, buffer).value, file, root);
  }
}
