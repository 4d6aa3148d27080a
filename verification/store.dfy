/**
 * FileSystemStore: every blob is one regular file below the store's base
 * directory, at the path the configured FileIdentifier gives its identifier.
 */
module Store {
  import opened Strings
  import opened Results
  import opened Files
  import opened FileIdentifiers

  /** getFile: the path of an identifier under `directory`, whether or not a file is there. */
  function FileOf(fileIdentifier: FileIdentifier, directory: Path, identifier: string): Path
  {
    ToPath(fileIdentifier.toFile(Join(directory), identifier))
  }

  /** create(stream, identifier) once the path is known: the duplicate guard, then openOutputStream and the copy. */
  function CreateAt(e: Entries, file: Path, stream: seq<bv8>): Result<Entries>
  {
    if file in e then Err(AlreadyPresent)
    else match OpenOutputStream(e, file)
      case Err(x) => Err(x)
      case Ok(output) => Ok(output[file := Regular(stream)])
  }

  /** view once the path is known: the existence guard, then a read-only mapping of the whole file. */
  function ViewAt(e: Entries, file: Path): Result<seq<bv8>>
  {
    if file !in e then Err(DoesNotExist)
    else if e[file].Directory? then Err(FileNotFound)
    else Ok(e[file].bytes)
  }

  /** readFile once the path is known: the path itself when something exists there. */
  function ReadFileAt(e: Entries, file: Path): Result<Path>
  {
    if file in e then Ok(file) else Err(FileNotFound)
  }

  /** The regular files anywhere below `directory` (FileUtils.listFiles with a file filter, recursing into every directory). */
  function FilesBelow(e: Entries, directory: Path): set<Path>
  {
    set p | p in e && e[p].Regular? && Below(directory, p)
  }

  /**
   * list: FileUtils.listFiles refuses a base that is not a directory; otherwise
   * the identifiers of all regular files below it, where one failing conversion
   * makes the whole call fail.
   */
  function Listed(e: Entries, directory: Path, fileIdentifier: FileIdentifier): Result<set<string>>
  {
    var files := FilesBelow(e, directory);
    if !IsDir(e, directory) then Err(NotADirectory)
    else if exists p | p in files :: fileIdentifier.toIdentifier(Join(directory), Join(p)).None? then Err(IndexOutOfBounds)
    else Ok(set p | p in files :: fileIdentifier.toIdentifier(Join(directory), Join(p)).value)
  }

  /**
   * deleteEmptyParent(d): the walk from `d` upwards. Each step checks that it
   * stands on a directory, stops at the base directory, stops at a non-empty
   * directory, and otherwise deletes the directory and moves to its parent.
   */
  function PruneFrom(e: Entries, d: Path, root: Path): (r: (Result<()>, Entries))
    ensures forall p | p in r.1 :: p in e && r.1[p] == e[p]
    ensures forall p | p in e && p !in r.1 :: IsPrefix(p, d) && p != root && e[p] == Directory
    decreases |d|
  {
    if d == [] then (Err(NullPointer), e)
    else if !IsDir(e, d) then (Err(NotADirectory), e)
    else if d == root then (Ok(()), e)
    else if HasChild(e, d) then (Ok(()), e)
    else PruneFrom(e - {d}, Parent(d), root)
  }

  /** delete once the path is known: the existence guard, forceDelete, then the walk from the parent. */
  function DeleteAt(e: Entries, file: Path, root: Path): (Result<()>, Entries)
  {
    if file !in e then (Err(DoesNotExist), e)
    else PruneFrom(ForceDelete(e, file), Parent(file), root)
  }

  class FileSystemStore {
    const fs: FileSystem
    const directory: Path
    var fileIdentifier: FileIdentifier

    constructor (fs: FileSystem, directory: Path)
      requires IsDir(fs.entries, directory)
      ensures this.fs == fs && this.directory == directory && fileIdentifier == Default
    {
      this.fs := fs;
      this.directory := directory;
      fileIdentifier := Default;
    }

    /** The constructor: forceMkdir on the base directory, which fails when a regular file is in the way. */
    static method Open(fs: FileSystem, directory: Path) returns (r: Result<FileSystemStore>)
      requires fs.Valid() && IsRootPath(directory)
      modifies fs
      ensures fs.Valid()
      ensures r.Err? <==> Blocked(old(fs.entries), directory)
      ensures r.Err? ==> r.error == IOFailure && fs.entries == old(fs.entries)
      ensures IsDir(old(fs.entries), directory) ==> r.Ok? && fs.entries == old(fs.entries)
      ensures r.Ok? ==> && fresh(r.value) && r.value.fs == fs && r.value.directory == directory
                        && r.value.fileIdentifier == Default
                        && fs.entries == MakeDirs(old(fs.entries), directory)
                        && IsDir(fs.entries, directory)
    {
      if IsDir(fs.entries, directory) {
        ForceMkdirExisting(fs.entries, directory);
      }
      var made := ForceMkdir(fs.entries, directory);
      if made.Err? {
        return Err(made.error);
      }
      MakeDirsEffect(fs.entries, directory);
      assert directory[..|directory|] == directory;
      fs.entries := made.value;
      var store := new FileSystemStore(fs, directory);
      r := Ok(store);
    }

    method SetFileIdentifier(identifier: FileIdentifier)
      modifies this`fileIdentifier
      ensures fileIdentifier == identifier
    {
      fileIdentifier := identifier;
    }

    /**
     * getFile: the mapping's path, whether or not anything is there. With the
     * default mapping it lies at or below the base directory, and a non-empty
     * separator-free identifier strictly below it, at the base followed by its
     * three-character chunks.
     */
    function GetFile(identifier: string): (r: Path)
      reads this
      ensures fileIdentifier == Default && IsRootPath(directory) ==> IsPrefix(directory, r)
      ensures fileIdentifier == Default && IsRootPath(directory) && identifier != [] && Sep !in identifier ==>
        r == directory + Chunks(identifier) && Below(directory, r)
    {
      DefaultFileOfUnderRoot(directory, identifier);
      FileOf(fileIdentifier, directory, identifier)
    }

    /** view: IllegalStateException when nothing is there, FileNotFoundException on a directory, otherwise the file's bytes. */
    function View(identifier: string): (r: Result<seq<bv8>>)
      reads this, fs
      ensures GetFile(identifier) !in fs.entries ==> r == Err(DoesNotExist)
      ensures GetFile(identifier) in fs.entries && fs.entries[GetFile(identifier)].Directory? ==> r == Err(FileNotFound)
      ensures r.Ok? <==> GetFile(identifier) in fs.entries && fs.entries[GetFile(identifier)].Regular?
      ensures r.Ok? ==> r.value == fs.entries[GetFile(identifier)].bytes
    {
      ViewAt(fs.entries, GetFile(identifier))
    }

    /** readFile: the path itself when anything exists there, FileNotFoundException otherwise. */
    function ReadFile(identifier: string): (r: Result<Path>)
      reads this, fs
      ensures r.Ok? <==> GetFile(identifier) in fs.entries
      ensures r.Ok? ==> r.value == GetFile(identifier)
      ensures r.Err? ==> r.error == FileNotFound
    {
      ReadFileAt(fs.entries, GetFile(identifier))
    }

    /**
     * list: IllegalArgumentException when the base is not a directory;
     * otherwise, when every regular file below the base converts, exactly the
     * identifiers they convert to.
     */
    function List(): (r: Result<set<string>>)
      reads this, fs
      ensures !IsDir(fs.entries, directory) ==> r == Err(NotADirectory)
      ensures r.Ok? <==> IsDir(fs.entries, directory) && forall p | p in FilesBelow(fs.entries, directory) ::
        fileIdentifier.toIdentifier(Join(directory), Join(p)).Some?
      ensures IsDir(fs.entries, directory) && r.Err? ==> r.error == IndexOutOfBounds
      ensures r.Ok? ==> forall p | p in FilesBelow(fs.entries, directory) ::
        fileIdentifier.toIdentifier(Join(directory), Join(p)).Some?
        && fileIdentifier.toIdentifier(Join(directory), Join(p)).value in r.value
      ensures r.Ok? ==> forall x | x in r.value :: exists p | p in FilesBelow(fs.entries, directory) ::
        fileIdentifier.toIdentifier(Join(directory), Join(p)) == Some(x)
    {
      Listed(fs.entries, directory, fileIdentifier)
    }

    /** create(stream): stores under the identifier the generator produced and returns it. */
    method Create(stream: seq<bv8>, generated: string) returns (r: Result<string>)
      requires fs.Valid()
      modifies fs
      ensures fs.Valid()
      ensures r.Ok? ==> r.value == generated && View(generated) == Ok(stream)
      ensures match CreateAt(old(fs.entries), GetFile(generated), stream)
        case Ok(after) => r == Ok(generated) && fs.entries == after
        case Err(x) => r == Err(x) && fs.entries == old(fs.entries)
    {
      var created := CreateWithIdentifier(stream, generated);
      if created.Err? {
        return Err(created.error);
      }
      r := Ok(generated);
    }

    /** create(stream, identifier). */
    method CreateWithIdentifier(stream: seq<bv8>, identifier: string) returns (r: Result<()>)
      requires fs.Valid()
      modifies fs
      ensures fs.Valid()
      ensures old(GetFile(identifier) in fs.entries) ==> r == Err(AlreadyPresent) && fs.entries == old(fs.entries)
      ensures r.Ok? ==> View(identifier) == Ok(stream)
      ensures match CreateAt(old(fs.entries), GetFile(identifier), stream)
        case Ok(after) => r == Ok(()) && fs.entries == after
        case Err(x) => r == Err(x) && fs.entries == old(fs.entries)
    {
      var file := GetFile(identifier);
      if file in fs.entries {
        return Err(AlreadyPresent);
      }
      CreateAtEffect(fs.entries, file, stream);
      var output := OpenOutputStream(fs.entries, file);
      if output.Err? {
        return Err(output.error);
      }
      fs.entries := output.value;
      fs.entries := fs.entries[file := Regular(stream)];
      r := Ok(());
    }

    /** delete: removes the file, then the empty directories above it. */
    method Delete(identifier: string) returns (r: Result<()>)
      requires fs.Valid()
      modifies fs
      ensures fs.Valid()
      ensures (r, fs.entries) == DeleteAt(old(fs.entries), GetFile(identifier), directory)
    {
      var file := GetFile(identifier);
      if file !in fs.entries {
        return Err(DoesNotExist);
      }
      ForceDeleteWellFormed(fs.entries, file);
      fs.entries := ForceDelete(fs.entries, file);
      r := DeleteEmptyParent(Parent(file));
    }

    /** deleteEmptyParent: the recursive walk up from `d`, checking the base directory before emptiness. */
    method DeleteEmptyParent(d: Path) returns (r: Result<()>)
      requires fs.Valid()
      modifies fs
      ensures fs.Valid()
      ensures (r, fs.entries) == PruneFrom(old(fs.entries), d, directory)
      decreases |d|
    {
      if d == [] {
        return Err(NullPointer);
      }
      if !IsDir(fs.entries, d) {
        return Err(NotADirectory);
      }
      if d == directory {
        return Ok(());
      }
      if HasChild(fs.entries, d) {
        return Ok(());
      }
      RemoveEmptyWellFormed(fs.entries, d);
      fs.entries := fs.entries - {d};
      r := DeleteEmptyParent(Parent(d));
    }
  }

  /** `DefaultFileOf` for whatever base a store was given: it says nothing unless the base is a normalised path. */
  lemma DefaultFileOfUnderRoot(directory: Path, identifier: string)
    ensures IsRootPath(directory) ==> IsPrefix(directory, FileOf(Default, directory, identifier))
    ensures IsRootPath(directory) && identifier != [] && Sep !in identifier ==>
      FileOf(Default, directory, identifier) == directory + Chunks(identifier)
      && Below(directory, FileOf(Default, directory, identifier))
  {
    if IsRootPath(directory) {
      DefaultFileOf(directory, identifier);
    }
  }

  /**
   * With the default mapping, every identifier lands at or below the base
   * directory, and a non-empty separator-free one exactly at the base directory
   * followed by its three-character chunks, strictly below the base.
   */
  lemma DefaultFileOf(directory: Path, identifier: string)
    requires IsRootPath(directory)
    ensures IsPrefix(directory, FileOf(Default, directory, identifier))
    ensures identifier != [] && Sep !in identifier ==>
      FileOf(Default, directory, identifier) == directory + Chunks(identifier)
      && Below(directory, FileOf(Default, directory, identifier))
  {
    var file := FileOf(Default, directory, identifier);
    ToPathUnder(directory, Sharded(identifier));
    assert file == directory + DropEmpty(Split(Sharded(identifier), Sep));
    assert file[..|directory|] == directory;
    if identifier != [] && Sep !in identifier {
      ShardedSegments(identifier);
      DropEmptyKeeps(Chunks(identifier));
    }
  }

  /**
   * create succeeds exactly when nothing is at the path and no regular file
   * sits where a parent directory has to be. On success the file holds the
   * stream's bytes and reads back as them, its parents are directories, no
   * earlier entry changed, the only new entries are the file and directories
   * on its way, the tree stays well formed, and a second create is refused.
   */
  lemma CreateAtEffect(e: Entries, file: Path, stream: seq<bv8>)
    requires WellFormed(e) && file != []
    ensures CreateAt(e, file, stream).Ok? <==> file !in e && !Blocked(e, Parent(file))
    ensures file in e ==> CreateAt(e, file, stream) == Err(AlreadyPresent)
    ensures file !in e && Parent(file) in e && e[Parent(file)].Regular? ==> CreateAt(e, file, stream) == Err(FileNotFound)
    ensures CreateAt(e, file, stream).Err? && file !in e && !(Parent(file) in e && e[Parent(file)].Regular?) ==>
      CreateAt(e, file, stream) == Err(IOFailure)
    ensures CreateAt(e, file, stream).Ok? ==>
      var after := CreateAt(e, file, stream).value;
      && after == MakeDirs(e, Parent(file))[file := Regular(stream)]
      && WellFormed(after)
      && after[file] == Regular(stream)
      && ViewAt(after, file) == Ok(stream)
      && CreateAt(after, file, stream) == Err(AlreadyPresent)
      && (forall k | 1 <= k < |file| :: IsDir(after, file[..k]))
      && (forall p | p in e :: p in after && after[p] == e[p])
      && (forall p | p in after && p !in e :: p == file || (IsPrefix(p, Parent(file)) && after[p] == Directory))
  {
    if file !in e && !Blocked(e, Parent(file)) {
      CreateAtSuccess(e, file, stream);
    }
  }

  /** The successful case of `CreateAtEffect`: the new tree, and what it keeps and adds. */
  lemma CreateAtSuccess(e: Entries, file: Path, stream: seq<bv8>)
    requires WellFormed(e) && file != [] && file !in e && !Blocked(e, Parent(file))
    ensures CreateAt(e, file, stream) == Ok(MakeDirs(e, Parent(file))[file := Regular(stream)])
    ensures var after := MakeDirs(e, Parent(file))[file := Regular(stream)];
      && WellFormed(after)
      && (forall k | 1 <= k < |file| :: IsDir(after, file[..k]))
      && (forall p | p in e :: p in after && after[p] == e[p])
      && (forall p | p in after && p !in e :: p == file || (IsPrefix(p, Parent(file)) && after[p] == Directory))
  {
    var up := Parent(file);
    MakeDirsEffect(e, up);
    var made := MakeDirs(e, up);
    var after := made[file := Regular(stream)];
    assert file !in made;
    assert made[file := Regular([])][file := Regular(stream)] == after;
    forall k | 1 <= k < |file|
      ensures IsDir(after, file[..k])
    {
      assert file[..k] == up[..k];
    }
    forall p | p in after && |p| > 1
      ensures Parent(p) in after && after[Parent(p)].Directory?
    {
      if p == file {
        assert Parent(p) == up[..|up|];
      }
    }
  }

  /** create keeps the directory-tree invariant: every directory it makes has the next one, or the file, in it. */
  lemma CreateKeepsTidy(e: Entries, root: Path, file: Path, stream: seq<bv8>)
    requires WellFormed(e) && Tidy(e, root) && file != []
    requires CreateAt(e, file, stream).Ok?
    ensures Tidy(CreateAt(e, file, stream).value, root)
  {
    CreateAtEffect(e, file, stream);
    var after := CreateAt(e, file, stream).value;
    forall d | d in after && after[d].Directory? && Below(root, d)
      ensures HasChild(after, d)
    {
      if d in e {
        var c :| c in e && IsChild(c, d);
        assert c in after;
      } else {
        var c := file[..|d| + 1];
        assert IsChild(c, d);
        if |d| + 1 < |file| {
          assert IsDir(after, c);
        } else {
          assert c == file;
        }
      }
    }
  }

  /** Every ancestor of a non-empty directory strictly below the base, up to the directory itself, is non-empty. */
  lemma AncestorsNonEmpty(e: Entries, d: Path, root: Path)
    requires WellFormed(e) && IsDir(e, d) && (d == root || HasChild(e, d))
    ensures forall q | q in e && Below(root, q) && IsPrefix(q, d) :: HasChild(e, q)
  {
    forall q | q in e && Below(root, q) && IsPrefix(q, d)
      ensures HasChild(e, q)
    {
      if q != d {
        var c := d[..|q| + 1];
        assert IsChild(c, q);
        if |c| < |d| {
          AncestorIsDir(e, d, |c|);
        } else {
          assert c == d;
        }
      }
    }
  }

  /**
   * The walk from a directory at or below the base directory always ends
   * normally and never removes the base directory. It changes nothing but
   * remove entries; everything it removes is a directory strictly between the
   * base and the start, inclusive of the start; and every such ancestor it
   * leaves in place is non-empty, because the walk stops at the first one.
   */
  lemma {:induction false} PruneEffect(e: Entries, d: Path, root: Path)
    requires WellFormed(e) && IsDir(e, root) && IsDir(e, d) && IsPrefix(root, d)
    ensures PruneFrom(e, d, root).0 == Ok(())
    ensures var after := PruneFrom(e, d, root).1;
      && WellFormed(after)
      && IsDir(after, root)
      && (forall p | p in after :: p in e && after[p] == e[p])
      && (forall p | p in e && p !in after :: Below(root, p) && IsPrefix(p, d) && e[p] == Directory)
      && (forall q | q in after && Below(root, q) && IsPrefix(q, d) :: HasChild(after, q))
    decreases |d|
  {
    if d == root || HasChild(e, d) {
      AncestorsNonEmpty(e, d, root);
    } else {
      var rest := e - {d};
      var up := Parent(d);
      RemoveEmptyWellFormed(e, d);
      assert |d| > |root| && up[..|root|] == root;
      AncestorIsDir(e, d, |d| - 1);
      PruneEffect(rest, up, root);
      var after := PruneFrom(rest, up, root).1;
      assert PruneFrom(e, d, root) == PruneFrom(rest, up, root);
      forall p | p in e && p !in after
        ensures Below(root, p) && IsPrefix(p, d) && e[p] == Directory
      {
        if p != d {
          assert p in rest && IsPrefix(p, up);
        }
      }
      forall q | q in after && Below(root, q) && IsPrefix(q, d)
        ensures HasChild(after, q)
      {
        assert q != d;
        assert IsPrefix(q, up);
      }
    }
  }

  /**
   * delete on a path below the base directory: a missing file is refused and
   * nothing changes; otherwise the call ends normally, the file and everything
   * under it are gone, the base directory stays, every other regular file keeps
   * its contents, the only other entries removed are directories between the
   * base and the file, and the ancestors left standing are non-empty.
   */
  lemma DeleteEffect(e: Entries, file: Path, root: Path)
    requires WellFormed(e) && IsDir(e, root) && Below(root, file)
    ensures file !in e ==> DeleteAt(e, file, root) == (Err(DoesNotExist), e)
    ensures file in e ==>
      var after := DeleteAt(e, file, root).1;
      && DeleteAt(e, file, root).0 == Ok(())
      && WellFormed(after)
      && IsDir(after, root)
      && ViewAt(after, file) == Err(DoesNotExist)
      && (forall p | p in after :: p in e && after[p] == e[p] && !IsPrefix(file, p))
      && (forall p | p in e && !IsPrefix(file, p) && e[p].Regular? :: p in after)
      && (forall p | p in e && p !in after && !IsPrefix(file, p) :: Below(root, p) && Below(p, file) && e[p] == Directory)
      && (forall q | q in after && Below(root, q) && Below(q, file) :: HasChild(after, q))
  {
    if file in e {
      var cleared := ForceDelete(e, file);
      var up := Parent(file);
      ForceDeleteWellFormed(e, file);
      AncestorIsDir(e, file, |up|);
      assert !IsPrefix(file, up) && !IsPrefix(file, root);
      PruneEffect(cleared, up, root);
      var after := PruneFrom(cleared, up, root).1;
      assert DeleteAt(e, file, root) == PruneFrom(cleared, up, root);
      forall p | p in e && p !in after && !IsPrefix(file, p)
        ensures Below(root, p) && Below(p, file) && e[p] == Directory
      {
        assert p in cleared;
        assert IsPrefix(p, up);
      }
      forall q | q in after && Below(root, q) && Below(q, file)
        ensures HasChild(after, q)
      {
        assert IsPrefix(q, up);
      }
    }
  }

  /** delete keeps the directory-tree invariant. */
  lemma DeleteKeepsTidy(e: Entries, file: Path, root: Path)
    requires WellFormed(e) && IsDir(e, root) && Below(root, file) && Tidy(e, root)
    ensures Tidy(DeleteAt(e, file, root).1, root)
  {
    DeleteEffect(e, file, root);
    if file in e {
      var after := DeleteAt(e, file, root).1;
      forall d | d in after && after[d].Directory? && Below(root, d)
        ensures HasChild(after, d)
      {
        if !Below(d, file) {
          var c :| c in e && IsChild(c, d);
          assert IsPrefix(file, c) ==> IsPrefix(file, d) || Below(d, file);
          assert Below(c, file) ==> Below(d, file);
          assert c in after;
        }
      }
    }
  }

  /** The walk removes exactly the directories that mkdirs created on the way to `d`, when the tree was tidy before. */
  lemma {:induction false} PruneUndoesMakeDirs(e: Entries, d: Path, root: Path)
    requires WellFormed(e) && IsDir(e, root) && Tidy(e, root)
    requires !Blocked(e, d) && IsPrefix(root, d)
    ensures PruneFrom(MakeDirs(e, d), d, root) == (Ok(()), e)
    decreases |d|
  {
    if d in e {
      MakeDirsExisting(e, d);
    } else {
      var up := Parent(d);
      var above := MakeDirs(e, up);
      MakeDirsEffect(e, up);
      assert d !in above;
      var made := above[d := Directory];
      assert MakeDirs(e, d) == made;
      forall c | c in made
        ensures !IsChild(c, d)
      {
        if c in e {
          NothingBelowAbsent(e, d, c);
        }
      }
      assert made - {d} == above;
      assert d != root && up[..|root|] == root;
      PruneUndoesMakeDirs(e, up, root);
    }
  }

  /**
   * Deleting what was just created restores the filesystem exactly, when the
   * tree had no empty directory below the base: the file goes, and so does
   * every directory that creating it made.
   */
  lemma CreateThenDelete(e: Entries, file: Path, root: Path, stream: seq<bv8>)
    requires WellFormed(e) && IsDir(e, root) && Tidy(e, root) && Below(root, file)
    requires CreateAt(e, file, stream).Ok?
    ensures DeleteAt(CreateAt(e, file, stream).value, file, root) == (Ok(()), e)
  {
    CreateAtEffect(e, file, stream);
    var up := Parent(file);
    var made := MakeDirs(e, up);
    MakeDirsEffect(e, up);
    var after := made[file := Regular(stream)];
    forall p | p in made
      ensures !IsPrefix(file, p)
    {
      if p in e {
        NothingBelowAbsent(e, file, p);
      }
    }
    assert ForceDelete(after, file) == made;
    assert up[..|root|] == root;
    PruneUndoesMakeDirs(e, up, root);
  }

  /**
   * readFile and view follow create and delete: after a successful create the
   * path reads back as itself and views as the stream; after deleting an
   * existing file below the base, readFile throws FileNotFoundException and
   * view the does-not-exist IllegalStateException.
   */
  lemma ReadFileTracksCreateAndDelete(e: Entries, file: Path, root: Path, stream: seq<bv8>)
    requires WellFormed(e) && IsDir(e, root) && Below(root, file)
    ensures CreateAt(e, file, stream).Ok? ==>
      && ReadFileAt(CreateAt(e, file, stream).value, file) == Ok(file)
      && ViewAt(CreateAt(e, file, stream).value, file) == Ok(stream)
    ensures file in e ==>
      && ReadFileAt(DeleteAt(e, file, root).1, file) == Err(FileNotFound)
      && ViewAt(DeleteAt(e, file, root).1, file) == Err(DoesNotExist)
  {
    CreateAtEffect(e, file, stream);
    DeleteEffect(e, file, root);
  }

  /**
   * Directories contribute nothing to a listing: adding one other than the base
   * leaves the result as it was, and adding a missing base is what turns
   * listFiles' refusal into a listing.
   */
  lemma ListedIgnoresDirectories(e: Entries, directory: Path, fileIdentifier: FileIdentifier, d: Path)
    requires d !in e
    ensures d != directory ==> Listed(e[d := Directory], directory, fileIdentifier) == Listed(e, directory, fileIdentifier)
    ensures d == directory ==>
      Listed(e, directory, fileIdentifier) == Err(NotADirectory)
      && Listed(e[d := Directory], directory, fileIdentifier) != Err(NotADirectory)
  {
    assert FilesBelow(e[d := Directory], directory) == FilesBelow(e, directory);
  }

  /**
   * With the default mapping the empty identifier names the base directory
   * itself, which exists, so delete accepts it and removes the base directory
   * together with every stored file.
   */
  lemma DeleteEmptyIdentifier(e: Entries, directory: Path)
    requires IsRootPath(directory) && directory in e
    ensures FileOf(Default, directory, "") == directory
    ensures forall p | p in DeleteAt(e, directory, directory).1 :: !IsPrefix(directory, p)
  {
    ToPathUnder(directory, "");
    assert Sharded("") == "" && Split("", Sep) == [[]];
  }

  /** Listing after one more regular file is added below the base directory. */
  lemma ListedAddFile(e: Entries, after: Entries, directory: Path, fileIdentifier: FileIdentifier,
                      file: Path, identifier: string, ids: set<string>)
    requires FilesBelow(after, directory) == FilesBelow(e, directory) + {file}
    requires IsDir(after, directory)
    requires fileIdentifier.toIdentifier(Join(directory), Join(file)) == Some(identifier)
    requires Listed(e, directory, fileIdentifier) == Ok(ids)
    ensures Listed(after, directory, fileIdentifier) == Ok(ids + {identifier})
  {
    var base := Join(directory);
    var before := FilesBelow(e, directory);
    var now := FilesBelow(after, directory);
    assert forall p | p in before :: fileIdentifier.toIdentifier(base, Join(p)).Some?;
    assert forall p | p in now :: fileIdentifier.toIdentifier(base, Join(p)).Some?;
    var listed := set p | p in now :: fileIdentifier.toIdentifier(base, Join(p)).value;
    assert ids == set p | p in before :: fileIdentifier.toIdentifier(base, Join(p)).value;
    forall x | x in ids + {identifier}
      ensures x in listed
    {
      if x != identifier {
        var p :| p in before && fileIdentifier.toIdentifier(base, Join(p)).value == x;
        assert p in now;
      } else {
        assert file in now;
      }
    }
    assert listed == ids + {identifier};
  }

  /** Create adds exactly the new path to the regular files below the base directory. */
  lemma FilesBelowAfterCreate(e: Entries, directory: Path, file: Path, stream: seq<bv8>)
    requires WellFormed(e) && Below(directory, file)
    requires CreateAt(e, file, stream).Ok?
    ensures FilesBelow(CreateAt(e, file, stream).value, directory) == FilesBelow(e, directory) + {file}
  {
    CreateAtEffect(e, file, stream);
  }

  /**
   * The round trip through the path getFile returns: `toIdentifier` of the
   * normalised path of `toFile(id)` is `id` again for a non-empty
   * separator-free identifier whose sharded form does not contain the base
   * path; for the empty identifier the path is the base itself, nothing is
   * left after stripping it, and `substring(1)` throws.
   */
  lemma RoundTripThroughFile(directory: Path, identifier: string)
    requires IsRootPath(directory) && Sep !in identifier
    requires !Occurs(Join(directory), [Sep] + Sharded(identifier))
    ensures identifier != [] ==>
      Default.toIdentifier(Join(directory), Join(FileOf(Default, directory, identifier))) == Some(identifier)
    ensures identifier == [] ==>
      Default.toIdentifier(Join(directory), Join(FileOf(Default, directory, identifier))) == None
  {
    var base := Join(directory);
    if identifier != [] {
      DefaultFileOf(directory, identifier);
      ShardedSegments(identifier);
      JoinAppend(directory, Chunks(identifier));
      RoundTrip(base, identifier);
    } else {
      DeleteEmptyIdentifier(map[directory := Directory], directory);
      BaseNonEmpty(directory);
      assert RemoveAll(base, base) == RemoveAll(base[|base|..], base);
      assert base[|base|..] == [];
    }
  }

  /** The path string of a base directory is never empty: its last segment is not. */
  lemma BaseNonEmpty(directory: Path)
    requires IsRootPath(directory)
    ensures Join(directory) != []
    decreases |directory|
  {
    if |directory| > 1 {
      BaseNonEmpty(directory[1..]);
    }
  }

  /**
   * Distinct separator-free identifiers get distinct getFile paths with the
   * default mapping, the empty identifier included (it names the base itself).
   */
  lemma FileOfInjective(directory: Path, a: string, b: string)
    requires IsRootPath(directory) && Sep !in a && Sep !in b
    requires FileOf(Default, directory, a) == FileOf(Default, directory, b)
    ensures a == b
  {
    DeleteEmptyIdentifier(map[directory := Directory], directory);
    if a != [] {
      DefaultFileOf(directory, a);
      ShardedSegments(a);
    }
    if b != [] {
      DefaultFileOf(directory, b);
      ShardedSegments(b);
    }
    if a != [] && b != [] {
      var n := |directory|;
      assert (directory + Chunks(a))[n..] == Chunks(a);
      assert (directory + Chunks(b))[n..] == Chunks(b);
      Injective(Join(directory), a, b);
    }
  }

  /**
   * With the default mapping, listing after a create yields what it yielded
   * before plus the new identifier, provided the identifier maps back to itself
   * (non-empty, separator-free, and the base path does not occur again in it).
   */
  lemma ListAfterCreate(e: Entries, directory: Path, identifier: string, stream: seq<bv8>, ids: set<string>)
    requires WellFormed(e) && IsRootPath(directory)
    requires identifier != [] && Sep !in identifier
    requires !Occurs(Join(directory), [Sep] + Sharded(identifier))
    requires Listed(e, directory, Default) == Ok(ids)
    requires CreateAt(e, FileOf(Default, directory, identifier), stream).Ok?
    ensures Listed(CreateAt(e, FileOf(Default, directory, identifier), stream).value, directory, Default)
      == Ok(ids + {identifier})
  {
    var file := FileOf(Default, directory, identifier);
    DefaultFileOf(directory, identifier);
    RoundTripThroughFile(directory, identifier);
    FilesBelowAfterCreate(e, directory, file, stream);
    CreateAtEffect(e, file, stream);
    ListedAddFile(e, CreateAt(e, file, stream).value, directory, Default, file, identifier, ids);
  }

  /** Deleting a regular file below the base directory takes exactly that path out of the regular files below the base. */
  lemma FilesBelowAfterDelete(e: Entries, file: Path, root: Path)
    requires WellFormed(e) && IsDir(e, root) && Below(root, file)
    requires file in e && e[file].Regular?
    ensures FilesBelow(DeleteAt(e, file, root).1, root) == FilesBelow(e, root) - {file}
  {
    DeleteEffect(e, file, root);
    forall p | p in e && p != file && IsPrefix(file, p)
      ensures false
    {
      AncestorIsDir(e, p, |file|);
    }
  }

  /**
   * Listing after one regular file below the base directory is removed: the
   * listing stays a success, keeps every identifier some other file converts
   * to, and loses the removed file's identifier when no other file converts to
   * it.
   */
  lemma ListedRemoveFile(e: Entries, after: Entries, directory: Path, fileIdentifier: FileIdentifier,
                         file: Path, identifier: string, ids: set<string>)
    requires FilesBelow(after, directory) == FilesBelow(e, directory) - {file}
    requires IsDir(after, directory)
    requires file in FilesBelow(e, directory)
    requires fileIdentifier.toIdentifier(Join(directory), Join(file)) == Some(identifier)
    requires Listed(e, directory, fileIdentifier) == Ok(ids)
    ensures Listed(after, directory, fileIdentifier).Ok?
    ensures ids - {identifier} <= Listed(after, directory, fileIdentifier).value <= ids
    ensures (forall p | p in FilesBelow(e, directory) && p != file ::
               fileIdentifier.toIdentifier(Join(directory), Join(p)) != Some(identifier)) ==>
            Listed(after, directory, fileIdentifier) == Ok(ids - {identifier})
    ensures (exists p | p in FilesBelow(e, directory) && p != file ::
               fileIdentifier.toIdentifier(Join(directory), Join(p)) == Some(identifier)) ==>
            Listed(after, directory, fileIdentifier) == Ok(ids)
  {
    var base := Join(directory);
    var before := FilesBelow(e, directory);
    var now := FilesBelow(after, directory);
    assert forall p | p in before :: fileIdentifier.toIdentifier(base, Join(p)).Some?;
    assert forall p | p in now :: fileIdentifier.toIdentifier(base, Join(p)).Some?;
    var listed := set p | p in now :: fileIdentifier.toIdentifier(base, Join(p)).value;
    assert ids == set p | p in before :: fileIdentifier.toIdentifier(base, Join(p)).value;
    assert Listed(after, directory, fileIdentifier) == Ok(listed);
    forall x | x in ids - {identifier}
      ensures x in listed
    {
      var p :| p in before && fileIdentifier.toIdentifier(base, Join(p)).value == x;
      assert p in now;
    }
    if forall p | p in before && p != file :: fileIdentifier.toIdentifier(base, Join(p)) != Some(identifier) {
      ConvertedWithout(before, base, fileIdentifier, file, identifier);
      assert listed == set p | p in before - {file} :: fileIdentifier.toIdentifier(base, Join(p)).value;
      assert listed == ids - {identifier};
    }
    if q :| q in before && q != file && fileIdentifier.toIdentifier(base, Join(q)) == Some(identifier) {
      assert q in now;
      assert identifier in listed;
      assert listed == ids;
    }
  }

  /** No file left converts to an identifier that only the removed file converted to. */
  lemma ConvertedWithout(files: set<Path>, base: string, fileIdentifier: FileIdentifier, file: Path, identifier: string)
    requires forall p | p in files :: fileIdentifier.toIdentifier(base, Join(p)).Some?
    requires forall p | p in files && p != file :: fileIdentifier.toIdentifier(base, Join(p)) != Some(identifier)
    ensures identifier !in set p | p in files - {file} :: fileIdentifier.toIdentifier(base, Join(p)).value
  {
  }

  /**
   * list after delete with the default mapping: deleting the file of a
   * non-empty separator-free identifier drops that identifier from the
   * listing, provided no other file below the base converts to it.
   */
  lemma ListAfterDelete(e: Entries, directory: Path, identifier: string, ids: set<string>)
    requires WellFormed(e) && IsRootPath(directory) && IsDir(e, directory)
    requires identifier != [] && Sep !in identifier
    requires !Occurs(Join(directory), [Sep] + Sharded(identifier))
    requires Listed(e, directory, Default) == Ok(ids)
    requires FileOf(Default, directory, identifier) in e && e[FileOf(Default, directory, identifier)].Regular?
    requires forall p | p in FilesBelow(e, directory) && p != FileOf(Default, directory, identifier) ::
      Default.toIdentifier(Join(directory), Join(p)) != Some(identifier)
    ensures Listed(DeleteAt(e, FileOf(Default, directory, identifier), directory).1, directory, Default)
      == Ok(ids - {identifier})
  {
    var file := FileOf(Default, directory, identifier);
    DefaultFileOf(directory, identifier);
    RoundTripThroughFile(directory, identifier);
    FilesBelowAfterDelete(e, file, directory);
    DeleteEffect(e, file, directory);
    ListedRemoveFile(e, DeleteAt(e, file, directory).1, directory, Default, file, identifier, ids);
  }
}
