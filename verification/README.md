# palava filesystem store, modelled in Dafny

The palava store keeps binary blobs on the local filesystem. A caller hands
over bytes and gets an identifier back. Later the caller can view, read, list
or delete the blob by that identifier. This project models the two
filesystem-backed stores and the identifier-to-path mapping, and proves what
each operation does to the filesystem.

- `FileSystemStore` stores a stream under an identifier. The identifier comes
  from a generator or from the caller. The configured `FileIdentifier` turns
  the identifier into a path.
- `DefaultFileIdentifier` is the default mapping. Its `toFile` inserts a
  separator every three characters, so `abcdefgh` is stored at
  `<base>/abc/def/gh`. Its `toIdentifier` turns a path back into an
  identifier by string replacement.
- `FileSystemByteStore` is the older variant. It stores a buffer under a fresh
  UUID, and each dash of the UUID becomes a separator. A UUID's file therefore
  sits in the fourth directory level, five levels below the base directory.

Both stores delete a blob in two steps. First the blob's file goes. Then the
store walks up from the file's parent and removes every empty directory, up to
the base directory but never the base directory itself.

Layout:

- `results.dfy`: `Option`, `Result` and the `Error` kinds. Each error kind
  stands for one Java exception.
- `strings.dfy`: the `String` operations the code uses. These are splitting,
  joining path segments, `replace(char, char)` and `replace(target, "")`.
- `file_identifiers.dfy`: the `FileIdentifier` interface and
  `DefaultFileIdentifier`.
- `files.dfy`: the filesystem and the java.io / commons-io operations the
  stores call.
  - The filesystem is a `FileSystem` object. It holds a map from path to node.
  - A path is a sequence of segments. A node is a regular file with its bytes,
    or a directory.
  - The operations are `new File`, `mkdirs`, `forceMkdir`, `openOutputStream`
    and `forceDelete`.
- `store.dfy`: `FileSystemStore`. Its methods change the shared `FileSystem`
  step by step. Pure functions such as `CreateAt`, `DeleteAt`, `PruneFrom` and
  `Listed` state the result of each operation, and the lemmas are proved
  about those functions.
- `byte_store.dfy`: `FileSystemByteStore`, and how it relates to
  `FileSystemStore`.

Behaviour of the code that the model keeps as written:

- `toFile` produces three-character segments. The class comment of
  `FileSystemStore` says the identifier is split at its dashes, but the code
  does not do that.
- `toIdentifier` removes every occurrence of the base path, not only the
  leading one. Under `/abc`, the identifier `abcxyz` lists as `xyz`.
- The empty identifier names the base directory itself. So `delete("")`
  removes the whole store.
- The two stores check "is this the base directory" and "is this directory
  empty" in opposite orders. The model proves that both orders give the same
  result.

## Model

| member | source | states |
|---|---|---|
| FileIdentifiers.ToFile | src/main/java/de/cosmocode/palava/store/DefaultFileIdentifier.java:29-37 | The loop inserts a separator at index 3, 7, 11, … of the growing builder. The result is the string `new File` is built from, before java.io.File normalises it: the base path, a separator, and the identifier sharded into 3-character groups. For the empty identifier this string ends in a separator, while Java's path is the base itself; `Store.DefaultFileOf` states the normalised path. |
| FileIdentifiers.ChunksShape | src/main/java/de/cosmocode/palava/store/DefaultFileIdentifier.java:32-34 | There are ⌈n/3⌉ segments. Segment i is characters 3i to 3i+3 of the identifier, cut short at its end, so every segment has exactly 3 characters except the last, which has 1 to 3. An identifier of at most 3 characters stays whole. |
| FileIdentifiers.ShardedSegments | src/main/java/de/cosmocode/palava/store/DefaultFileIdentifier.java:32-36 | For a separator-free identifier, the sharded form splits at the separator into exactly its segments, none empty and none containing a separator. Joining the segments gives the sharded form back. |
| FileIdentifiers.ShardedEnds | src/main/java/de/cosmocode/palava/store/DefaultFileIdentifier.java:32 | The result has one inserted separator per three characters after the first. It starts and ends with the identifier's own first and last characters, so no separator is ever inserted at either end. |
| FileIdentifiers.ShardedRemoveSeparators | src/main/java/de/cosmocode/palava/store/DefaultFileIdentifier.java:30-36 | Deleting the separators from the sharded form gives the same result as deleting them from the identifier. |
| FileIdentifiers.ToIdentifier | src/main/java/de/cosmocode/palava/store/DefaultFileIdentifier.java:40-42 | `substring(1)` throws (`None`) exactly when nothing is left once every occurrence of the base path is removed. Otherwise the identifier contains no separator and is shorter than the path. |
| FileIdentifiers.RoundTrip | src/main/java/de/cosmocode/palava/store/DefaultFileIdentifier.java:41 | On the string `new File` is built from (before `java.io.File` normalises it): `toIdentifier` gives back the identifier, when the identifier is separator-free and the base path does not occur again after the leading one. `Store.RoundTripThroughFile` states the round trip on the normalised path. |
| Store.RoundTripThroughFile | src/main/java/de/cosmocode/palava/store/DefaultFileIdentifier.java:36-41 | `toIdentifier(dir, getFile(id).getPath()) == id` for a non-empty separator-free identifier whose sharded form does not contain the base path. For the empty identifier the path is the base itself, and `substring(1)` throws. |
| FileIdentifiers.Injective | src/main/java/de/cosmocode/palava/store/DefaultFileIdentifier.java:29-37 | Distinct separator-free identifiers give distinct path strings under the same directory, before normalisation. |
| Store.FileOfInjective | src/main/java/de/cosmocode/palava/store/FileSystemStore.java:161-163 | With the default mapping, distinct separator-free identifiers get distinct `getFile` paths, the empty identifier included. |
| FileIdentifiers.ToIdentifierStripsEveryOccurrence | src/main/java/de/cosmocode/palava/store/DefaultFileIdentifier.java:41 | Every occurrence of the base path is deleted. Under `/abc`, `abcxyz` is stored at `/abc/abc/xyz` and read back as `xyz`. Under `/a`, the path of `a` leaves nothing after stripping, so `substring(1)` throws. |
| Files.ToPathUnder | src/main/java/de/cosmocode/palava/store/DefaultFileIdentifier.java:36 | `new File(base, rest)` is the base directory followed by the non-empty separator-delimited pieces of `rest`. |
| Store.DefaultFileOf | src/main/java/de/cosmocode/palava/store/FileSystemStore.java:161-163 | With the default mapping, `getFile` always lies at or below the base directory, as a sequence of segments (`.` and `..` are not resolved). A non-empty separator-free identifier lies strictly below it, at the base directory followed by its 3-character segments. |
| Store.FileSystemStore.GetFile | src/main/java/de/cosmocode/palava/store/FileSystemStore.java:161-163 | With the default mapping and a normalised base, the path lies at or below the base. A non-empty separator-free identifier lies strictly below it, at the base followed by its 3-character segments. |
| Store.FileSystemStore.View | src/main/java/de/cosmocode/palava/store/FileSystemStore.java:118-126 | IllegalStateException when nothing is at `getFile(id)`, FileNotFoundException when a directory is there; it succeeds exactly on a regular file, with that file's bytes. |
| Store.FileSystemStore.ReadFile | src/main/java/de/cosmocode/palava/store/FileSystemStore.java:172-180 | Succeeds exactly when something exists at `getFile(id)`, returning that path; otherwise FileNotFoundException. |
| Store.FileSystemStore.List | src/main/java/de/cosmocode/palava/store/FileSystemStore.java:128-135 | Succeeds exactly when the base is a directory and every regular file below it converts. IllegalArgumentException when the base is not a directory; otherwise StringIndexOutOfBoundsException when some file's path leaves nothing after stripping the base. On success every regular file below the base converts to an identifier in the result, and every identifier in the result comes from such a file. |
| Store.PruneFrom | src/main/java/de/cosmocode/palava/store/FileSystemStore.java:182-196 | The walk (root check before emptiness check) only removes entries: what remains is unchanged, and each removed entry is a directory on the way up from the start, never the base. |
| Store.FileSystemStore.Open | src/main/java/de/cosmocode/palava/store/FileSystemStore.java:78-82 | The constructor fails with an IOException, changing nothing, exactly when a regular file blocks the base directory. Otherwise the base directory and its missing ancestors are created, and the default mapping is installed. Over an existing base directory it succeeds and changes nothing. |
| Files.ForceMkdirExisting | src/main/java/de/cosmocode/palava/store/FileSystemStore.java:78-82 | `forceMkdir` on a base directory that already exists succeeds and leaves the filesystem unchanged, so reopening a store changes nothing. |
| Store.FileSystemStore.SetFileIdentifier | src/main/java/de/cosmocode/palava/store/FileSystemStore.java:89-92 | Replaces the mapping that `getFile` and `list` use. |
| Store.FileSystemStore.Create | src/main/java/de/cosmocode/palava/store/FileSystemStore.java:94-100 | `create(stream)` returns exactly the generated identifier. The stream is then viewable under that identifier. Its effect or failure is that of `create(stream, generated)`. |
| Store.FileSystemStore.CreateWithIdentifier | src/main/java/de/cosmocode/palava/store/FileSystemStore.java:102-116 | If anything exists at `getFile(id)`, the call fails as already present and nothing changes. Otherwise the new filesystem is the one `CreateAt` describes, and `view(id)` yields the stream. |
| Store.CreateAtEffect | src/main/java/de/cosmocode/palava/store/FileSystemStore.java:102-116 | create succeeds iff nothing is at the path and no regular file sits where a parent directory must go. Besides the duplicate guard, `openOutputStream` fails with FileNotFoundException when the direct parent is a regular file (from `new FileOutputStream`), and with an IOException when a regular file higher up is in the way of `mkdirs`. On success: the file holds the stream and views back as it; its parents are directories; no earlier entry changed; the only new entries are the file and directories on its way; the tree stays well formed; a second create is refused. |
| Store.CreateKeepsTidy | src/main/java/de/cosmocode/palava/store/FileSystemStore.java:102-116 | Create keeps the invariant that no empty directory lies below the base. |
| Store.ReadFileTracksCreateAndDelete | src/main/java/de/cosmocode/palava/store/FileSystemStore.java:172-180 | After a successful create, `readFile` returns the path and `view` the stream. After deleting an existing file below the base, `readFile` throws FileNotFoundException and `view` the does-not-exist IllegalStateException. |
| Store.ListedIgnoresDirectories | src/main/java/de/cosmocode/palava/store/FileSystemStore.java:128-135 | Directories contribute nothing to `list`: adding one other than the base leaves the result unchanged. When the base is missing, `listFiles` refuses it with IllegalArgumentException, and adding the base directory removes that refusal. |
| Store.ListedAddFile | src/main/java/de/cosmocode/palava/store/FileSystemStore.java:128-135 | When one regular file is added below the base and the base stays a directory, `list` gains exactly that file's identifier. |
| Store.FilesBelowAfterCreate | src/main/java/de/cosmocode/palava/store/FileSystemStore.java:128-135 | Create adds exactly the new file to the regular files that `list` walks. |
| Store.ListAfterCreate | src/main/java/de/cosmocode/palava/store/FileSystemStore.java:128-135 | With the default mapping, `list` after `create(stream, id)` is the earlier listing plus `id`, for an identifier that maps back to itself. |
| Store.FilesBelowAfterDelete | src/main/java/de/cosmocode/palava/store/FileSystemStore.java:144-152 | Deleting a regular file below the base removes exactly that file from the regular files `list` walks. |
| Store.ListedRemoveFile | src/main/java/de/cosmocode/palava/store/FileSystemStore.java:128-135 | When one regular file below the base goes and the base stays, `list` still succeeds and keeps every identifier another file converts to. It drops the removed file's identifier exactly when no other file converts to it; otherwise the listing is unchanged. |
| Store.ListAfterDelete | src/main/java/de/cosmocode/palava/store/FileSystemStore.java:128-152 | With the default mapping, `list` after `delete(id)` of an existing blob is the earlier listing without `id`, for an identifier that maps back to itself and that no other file converts to. |
| Store.FileSystemStore.Delete | src/main/java/de/cosmocode/palava/store/FileSystemStore.java:144-152 | A missing file fails with IllegalStateException and nothing changes. Otherwise the call is `forceDelete`, then the walk from the file's parent, with the outcome `DeleteAt` describes. |
| Store.FileSystemStore.DeleteEmptyParent | src/main/java/de/cosmocode/palava/store/FileSystemStore.java:182-196 | The recursive walk: the result and the new filesystem are those of `PruneFrom`, and the tree stays well formed. |
| Store.AncestorsNonEmpty | src/main/java/de/cosmocode/palava/store/FileSystemStore.java:186-191 | Where the walk stops, every ancestor between the base and the stopping point is non-empty. |
| Store.PruneEffect | src/main/java/de/cosmocode/palava/store/FileSystemStore.java:182-196 | From a directory at or below the base, the walk ends normally and the base directory survives. It only removes entries. Each removed entry is a directory strictly below the base on the way up from the start. Every such ancestor left in place is non-empty. |
| Store.DeleteEffect | src/main/java/de/cosmocode/palava/store/FileSystemStore.java:144-152 | For a path below the base: a missing file is refused and nothing changes. Otherwise the call ends normally and the file and everything under it are gone. The base stays, and every other regular file keeps its contents, so sibling blobs survive. The only other entries removed are directories between the base and the file, and the ancestors left are non-empty. |
| Store.DeleteKeepsTidy | src/main/java/de/cosmocode/palava/store/FileSystemStore.java:144-152 | Delete keeps the invariant that no empty directory lies below the base. |
| Store.PruneUndoesMakeDirs | src/main/java/de/cosmocode/palava/store/FileSystemStore.java:182-196 | In a tree with no empty directory below the base, the walk removes exactly the directories `mkdirs` created on the way to its start. |
| Store.CreateThenDelete | src/test/java/de/cosmocode/palava/store/FileSystemStoreTest.java:72-84 | Deleting what was just created restores the filesystem exactly, including removing the directories the create made, when no empty directory was below the base before. |
| Store.DeleteEmptyIdentifier | src/main/java/de/cosmocode/palava/store/FileSystemStore.java:144-152 | With the default mapping, the empty identifier names the base directory. `delete("")` removes it together with everything below it. |
| ByteStore.PruneFrom | src/main/java/de/cosmocode/palava/store/FileSystemByteStore.java:123-136 | The walk (emptiness check before root check) only removes entries: what remains is unchanged, and each removed entry is a directory on the way up from the start, never the base. |
| ByteStore.FileSystemByteStore.GetFile | src/main/java/de/cosmocode/palava/store/FileSystemByteStore.java:115-121 | Under a normalised base the path lies at or below the base, and a UUID's path is the base followed by the UUID's five groups. |
| ByteStore.FileSystemByteStore.Read | src/main/java/de/cosmocode/palava/store/FileSystemByteStore.java:84-91 | FileNotFoundException when nothing is at the path, an IOException on a directory; it succeeds exactly on a regular file, with that file's bytes. |
| ByteStore.FileSystemByteStore.Open | src/main/java/de/cosmocode/palava/store/FileSystemByteStore.java:57-61 | The constructor fails with an IOException, changing nothing, exactly when a regular file blocks the base directory. Otherwise the base directory and its missing ancestors exist afterwards. Over an existing base directory it succeeds and changes nothing. |
| ByteStore.FileSystemByteStore.Create | src/main/java/de/cosmocode/palava/store/FileSystemByteStore.java:63-82 | If anything exists at the UUID's path, the call fails as already present and nothing changes. Otherwise the buffer is stored there, the UUID string is returned, and `read` of it yields the buffer. |
| ByteStore.FileSystemByteStore.Delete | src/main/java/de/cosmocode/palava/store/FileSystemByteStore.java:100-113 | A missing file fails with FileNotFoundException and nothing changes. Otherwise the call is `forceDelete`, then the walk from the parent, as `DeleteAt` describes. |
| ByteStore.FileSystemByteStore.DeleteEmptyParent | src/main/java/de/cosmocode/palava/store/FileSystemByteStore.java:123-136 | The recursive walk, checking emptiness first: the result and the new filesystem are those of `PruneFrom`, and the tree stays well formed. |
| ByteStore.PruneOrdersAgree | src/main/java/de/cosmocode/palava/store/FileSystemByteStore.java:123-136 | Checking emptiness before the base (here) or the base before emptiness (the stream store) gives the same outcome and the same filesystem, on every input. |
| ByteStore.DeleteAgrees | src/main/java/de/cosmocode/palava/store/FileSystemByteStore.java:100-113 | On an existing file, the two stores' deletes coincide. On a missing one, both change nothing and differ only in the exception. |
| ByteStore.DeleteEffect | src/main/java/de/cosmocode/palava/store/FileSystemByteStore.java:100-113 | Deleting an existing file below the base ends normally and removes the file. It keeps the base, even when it becomes empty, and keeps every other regular file. It removes only directories between the base and the file, and every ancestor where it stops is non-empty. |
| ByteStore.ReadAgreesWithView | src/main/java/de/cosmocode/palava/store/FileSystemByteStore.java:84-91 | `read` fails with FileNotFoundException on a missing path and with an IOException on a directory. It succeeds exactly where the stream store's `view` does, with the same bytes. |
| ByteStore.ReadAfterCreate | src/main/java/de/cosmocode/palava/store/FileSystemByteStore.java:63-91 | After a successful create the buffer reads back, and a second create at the same path is refused. |
| ByteStore.DashPath | src/main/java/de/cosmocode/palava/store/FileSystemByteStore.java:119-121 | A separator-free identifier lands under the base, one directory level per dash-separated piece. Empty pieces collapse. |
| ByteStore.UuidSplit | src/main/java/de/cosmocode/palava/store/FileSystemByteStore.java:119-121 | A UUID string splits at its dashes into its five groups. |
| ByteStore.UuidPath | src/main/java/de/cosmocode/palava/store/FileSystemByteStore.java:115-121 | A UUID's file is the base followed by its five groups: four directories and a file, five levels below the base. |
| ByteStore.UuidFilesDistinct | src/main/java/de/cosmocode/palava/store/FileSystemByteStore.java:115-121 | Distinct UUIDs are stored at distinct paths. |
| ByteStore.CreateThenDelete | src/main/java/de/cosmocode/palava/store/FileSystemByteStore.java:63-113 | Deleting the file a UUID was just stored under restores the filesystem exactly, when no empty directory was below the base before. |

## Left out

- I/O plumbing is not modelled. This covers `IOUtils.copy`, `FileChannel.map`, flushing and closing streams, and logging. A stream or `ByteBuffer` is the sequence of bytes it delivers, and a mapped buffer is the file's bytes.
- Identifier generation is not modelled. `IdGenerator.generate()` and `UUID.randomUUID()` become a parameter of `Create`, and `IsUuid` states the form a UUID string has.
- `setGenerator` (FileSystemStore.java:84-87) is left out, because the generator is a parameter.
- Concurrency is not modelled. This includes the check-then-act race between two creators and concurrent delete walks; the model is sequential.
- The `checkNotNull` guards are not modelled, because Dafny values are never null. The null parent above the filesystem root is modelled as the empty path, which makes the walk fail with `NullPointer`.
- Store.FileSystemStore.Open: requires a normalised base directory other than the empty path and `/`. Those two roots make `getPath()` and path joining behave specially, and that special behaviour is not modelled.
- ByteStore.FileSystemByteStore.Open: the same restriction on the base directory as `Store.FileSystemStore.Open`.
- Permissions, symbolic links, disk-full and other operating-system failures are not modelled. `IOFailure` covers only the failures the directory tree itself causes: a regular file higher up in the way of `mkdirs`, a directory where a file must be opened, and a directory passed to `openInputStream`. A regular file as the direct parent of a file to be opened is `FileNotFound`, as `new FileOutputStream` reports it.
- The `FileIdentifier` interface is a record of its two functions rather than an interface type. `toIdentifier` yields `None` where the Java code throws `StringIndexOutOfBoundsException`.
- FileSystemStoreModule.java, FileSystemStoreConfig.java and DummyProcess.java are not part of this model. They hold Guice wiring, configuration key constants and a process stub.
- The `list` result is a set, so the order in which `FileUtils.listFiles` visits files is not modelled.
- Files.ToPathUnder: `new File(base, rest)` is modelled by normalising `base + "/" + rest` as a whole. java.io.File normalises `rest` alone and then resolves it, so a non-empty `rest` made only of separators gives `"<base>/"` with a trailing separator, where the model gives the base. In the stream store that is an identifier made only of `/`. For `delete`, Java then force-deletes the base and throws IllegalArgumentException from the walk's directory check on the removed base, which the model does not reproduce.
- ByteStore.DashPath: the same trailing-separator case of `new File(base, rest)`. It arises for an identifier made only of `-` and `/`, whose path the model takes to be the base itself.
- Path segments `.` and `..` are not resolved: a path is the literal sequence of its segments. The operating system resolves them, so for an identifier such as `..` Java's `create` finds the parent of the base already present, and `delete` removes it. The model instead treats `..` as an ordinary file name. This covers every identifier with a `.` or `..` chunk, such as `abc.`. The lemmas about `getFile` ("at or below the base") are about segment sequences.
