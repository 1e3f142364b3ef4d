# Backup-Util: backup scope and directory trees

A Dafny model of the two cores of Backup-Util, with proofs about it.

- `falgout.backup.app.BackupConfiguration` keeps the set of directories of
  a file store that are to be backed up. The set lives in a `TreeSet` of
  paths relative to the store's root. `addDirectory` keeps it *minimal*:
  no entry lies below another.
- The configuration is saved to a `.backupconf` file and loaded back from
  it. The file holds the store's UUID in hexadecimal on the first line,
  then one path per line.
- `falgout.backup.Directories` deletes, copies, compares and hashes
  directory trees.

The modules follow that structure:

| module | file | models |
|---|---|---|
| `Paths` | `paths.dfy` | `java.nio.file.Path` on Unix as values: `resolve`, `relativize`, `getParent`, `toString`, `Paths.get`, and the `compareTo` order. `Paths.StartsWith` is the component-wise prefix, which is the intended meaning of `startsWith`. It differs from Java's `startsWith` at the empty path. Java's own version is `BackupScope.JavaStartsWith` (see Findings) |
| `TreeSets` | `tree_sets.dfy` | `TreeSet<Path>` as a strictly sorted sequence |
| `Bytes`, `Uuids` | `bytes.dfy`, `uuids.dfy` | `printHexBinary`/`parseHexBinary`; a UUID put into and read from a big-endian `LongBuffer` |
| `ConfigFile` | `config_file.dfy` | the text of `.backupconf`: `BufferedWriter.newLine`, `Files.readAllLines`, encoding and decoding |
| `BackupScope` | `backup_scope.dfy` | what `addDirectory`/`removeDirectory` do to the set, as functions on sets, with their lemmas. `Add` and `Remove` are the corrected definitions of BackupConfiguration.java:75-94. `AddAsWritten` is `Add` as the code has it, with `JavaStartsWith` |
| `BackupConfigurations` | `backup_configuration.dfy` | the class itself, with its loops, proved against `BackupScope` and `ConfigFile` |
| `FileSystems` | `file_system.dfy` | the file system as a map from absolute paths to `File(bytes)`/`Dir`, and the `Files.delete`, `createDirectories` and `copy` it is changed by |
| `Streams` | `streams.dfy` | `InputStream.read` into a buffer, `MessageDigest`, and `digest(InputStream, MessageDigest)` |
| `DirectoryTrees` | `directories.dfy` | `delete`, `copy`, `isStructureSame` and `digest(Directory, MessageDigest)` |

How the model stands in for what it leaves out:

- **File system.** `addDirectory` receives the file system as a map and consults it.
- **Configuration file.** `save` returns the text it writes. `load` receives the file's text, or `None` when the file does not exist.
- **Fresh identifier.** `UUID.randomUUID` is an argument of `Load`.
- **Hashing.** The hash function of a `MessageDigest` is an uninterpreted function of the bytes fed to it.
- **Charset.** `String.getBytes` is an uninterpreted `encode` parameter.
- **Walk order.** `Files.walkFileTree` is a walk of the tree in `TreeSet` order. A directory comes before everything below it. `delete` runs that order backwards, so children go before their directory.

`digest(Directory, MessageDigest)` feeds the digest every path string first,
in sorted order, inside its loop. Only then does it feed the contents of the
regular files, as one `SequenceInputStream` (Directories.java:124-132). The
input is therefore *all path strings, then all contents*, not each path
followed by its file. The model follows the code. `DigestIgnoresFileBoundaries`
shows one consequence: two trees that differ only in how bytes are split
between their files hash alike.

## Model

| member | source | states |
|---|---|---|
| `Paths.Resolve` | src/falgout/backup/app/BackupConfiguration.java:64 | a relative path resolved against a base starts with the base, and its length is the sum of the two lengths; an absolute path is returned unchanged. `RelativizeResolve` shows that the names after the base are those of the relative path |
| `Paths.CommonLength` | src/falgout/backup/Directories.java:108 | the shared prefix of two name sequences: both agree up to it, and they differ right after it |
| `Paths.Relativize` | src/falgout/backup/app/BackupConfiguration.java:61 | `relativize` always gives a relative path |
| `Paths.RelativizeUnder` | src/falgout/backup/Directories.java:76 | for a path below the base, `relativize` strips the base's names, and resolving the result gives the path back |
| `Paths.RelativizeResolve` | src/falgout/backup/app/BackupConfiguration.java:59-65 | relativizing a resolved relative path gives that path back |
| `Paths.StartsWithTransitive` | src/falgout/backup/app/BackupConfiguration.java:76 | `startsWith` is transitive |
| `Paths.StartsWithAntisymmetric` | src/falgout/backup/app/BackupConfiguration.java:84 | two paths that start with each other are equal |
| `Paths.PrefixesComparable` | src/falgout/backup/app/BackupConfiguration.java:75-87 | two paths that one path starts with are ordered by `startsWith` |
| `Paths.Parent` | src/falgout/backup/Directories.java:76 | the parent lies strictly above the path, with one name fewer |
| `Paths.UnderParent` | src/falgout/backup/Directories.java:51-52 | when a path lies strictly below another, its parent still lies below that other path |
| `Paths.LessIrreflexive` | src/falgout/backup/app/BackupConfiguration.java:33 | the `TreeSet` order is irreflexive |
| `Paths.LessTransitive` | src/falgout/backup/app/BackupConfiguration.java:33 | the `TreeSet` order is transitive |
| `Paths.LessTotal` | src/falgout/backup/app/BackupConfiguration.java:33 | the `TreeSet` order is total on distinct paths |
| `Paths.LessAsymmetric` | src/falgout/backup/app/BackupConfiguration.java:33 | the `TreeSet` order is asymmetric |
| `Paths.StrictlyUnderLess` | src/falgout/backup/Directories.java:73 | a directory sorts before everything below it, so a sorted walk visits a directory before its children |
| `Paths.Parse` | src/falgout/backup/app/BackupConfiguration.java:184 | `Paths.get` refuses a string exactly when it contains NUL |
| `Paths.SplitJoin` | src/falgout/backup/app/BackupConfiguration.java:184 | splitting joined printable names at "/" gives the names back |
| `Paths.ParseToString` | src/falgout/backup/app/BackupConfiguration.java:108 | `Paths.get(p.toString())` is `p` for every path with printable names |
| `TreeSets.SortedCardinality` | src/falgout/backup/app/BackupConfiguration.java:54-56 | a TreeSet holds one element per entry of its sequence |
| `TreeSets.RemoveAtSorted` | src/falgout/backup/app/BackupConfiguration.java:85 | `Iterator.remove` keeps the sequence sorted |
| `TreeSets.Insert` | src/falgout/backup/app/BackupConfiguration.java:89 | `TreeSet.add` keeps the sequence sorted, and its elements become the old ones plus the new one |
| `TreeSets.Remove` | src/falgout/backup/app/BackupConfiguration.java:93 | `TreeSet.remove` keeps the sequence sorted, and its elements become the old ones minus the one removed |
| `TreeSets.SortedUnique` | src/falgout/backup/Directories.java:115 | two sorted sequences with the same elements are equal, so comparing TreeSets compares their sets |
| `TreeSets.FromSet` | src/falgout/backup/Directories.java:119-122 | filling a TreeSet from a set in any order gives the sorted sequence of that set |
| `Bytes.PrintHexBinary` | src/falgout/backup/app/BackupConfiguration.java:104 | `printHexBinary` writes two characters per byte; `ParsePrintHexBinary` is its inverse |
| `Bytes.ParseHexBinary` | src/falgout/backup/app/BackupConfiguration.java:174 | `parseHexBinary` refuses text of odd length, exactly (an IllegalArgumentException), and decoded text has two characters per byte |
| `Bytes.ParseHexBinaryAccepts` | src/falgout/backup/app/BackupConfiguration.java:174 | `parseHexBinary` accepts text exactly when its length is even and every character is a hex digit |
| `Bytes.ParsePrintHexBinary` | src/falgout/backup/app/BackupConfiguration.java:174 | parsing printed hex gives the bytes back |
| `Bytes.ValueOfBigEndian` | src/falgout/backup/app/BackupConfiguration.java:178-179 | a word written in n big-endian bytes reads back as itself when it fits |
| `Bytes.BigEndianValueOf` | src/falgout/backup/app/BackupConfiguration.java:178-179 | reading n bytes as a number and writing it back gives the bytes |
| `Uuids.ToBytes` | src/falgout/backup/app/BackupConfiguration.java:97-101 | a UUID packs into exactly 16 bytes |
| `Uuids.FromBytes` | src/falgout/backup/app/BackupConfiguration.java:175-181 | reading the two longs underflows exactly when there are fewer than 16 bytes |
| `Uuids.FromToBytes` | src/falgout/backup/app/BackupConfiguration.java:174-181 | a UUID packed into bytes reads back as itself |
| `Uuids.ToBytesInjective` | src/falgout/backup/app/BackupConfiguration.java:97-101 | different UUIDs pack into different bytes |
| `ConfigFile.ReadWriteLines` | src/falgout/backup/app/BackupConfiguration.java:104-110 | lines with no line break, written with `newLine` and read with `readAllLines`, come back unchanged |
| `ConfigFile.WriteLinesAppend` | src/falgout/backup/app/BackupConfiguration.java:107-110 | writing two groups of lines is writing the first, then the second |
| `ConfigFile.ParsePaths` | src/falgout/backup/app/BackupConfiguration.java:183-185 | reading the lines as paths succeeds exactly when no line has a NUL, and then gives one path per line; a failure names a line of the input that has a NUL |
| `ConfigFile.ParsePathsAppend` | src/falgout/backup/app/BackupConfiguration.java:183-185 | reading two groups of lines is reading the first, then the second, stopping at the first refused line |
| `ConfigFile.Decode` | src/falgout/backup/app/BackupConfiguration.java:172-185 | a file with no lines is a missing identifier line, and a decoded file has one path per line after the first |
| `ConfigFile.DecodeEncode` | src/falgout/backup/app/BackupConfiguration.java:171-185 | decoding the text `save` writes gives back the identifier and the paths, in order, when every path is storable |
| `BackupScope.AddPreservesMinimal` | src/falgout/backup/app/BackupConfiguration.java:75-89 | adding keeps the set minimal |
| `BackupScope.AddCovers` | src/falgout/backup/app/BackupConfiguration.java:75-89 | after an add, a path is covered exactly when it was covered before or lies below the candidate |
| `BackupScope.AddKeepsCoverage` | src/falgout/backup/app/BackupConfiguration.java:75-89 | every previous entry, and the candidate, are covered after the add |
| `BackupScope.AddCoveredUnchanged` | src/falgout/backup/app/BackupConfiguration.java:75-79 | a candidate already covered, itself included, changes nothing |
| `BackupScope.AddIdempotent` | src/falgout/backup/app/BackupConfiguration.java:75-79 | adding the same directory twice is adding it once |
| `BackupScope.AddUncovered` | src/falgout/backup/app/BackupConfiguration.java:81-89 | an uncovered candidate leaves exactly the old entries not below it, plus the candidate, which was not there before |
| `BackupScope.RemoveDoesNotRestore` | src/falgout/backup/app/BackupConfiguration.java:92-94 | removing an entry does not bring back the entries it absorbed |
| `BackupScope.RemovePreservesMinimal` | src/falgout/backup/app/BackupConfiguration.java:92-94 | removing keeps the set minimal, removes the one entry, and adds nothing |
| `BackupScope.Scenario` | test/falgout/backup/app/BackupConfigurationTest.java:42-66 | the tests' sequence: `src` absorbs a later `src/falgout`, `bin` sits beside `src`, removing `src` leaves `bin`, and `src` replaces an earlier `src/falgout` |
| `BackupScope.AsWrittenAgrees` | src/falgout/backup/app/BackupConfiguration.java:75-89 | with `Path.startsWith` as Java has it, `addDirectory` agrees with the model whenever the root itself is not involved |
| `BackupScope.AsWrittenRootThenSubdirectory` | src/falgout/backup/app/BackupConfiguration.java:59-89 | as written, adding the root and then `src` keeps both, and the set is no longer minimal |
| `BackupScope.RootThenSubdirectory` | src/falgout/backup/app/BackupConfiguration.java:75-89 | with the component-wise prefix, the root absorbs `src` in either order |
| `BackupConfigurations.RelativeOf` | src/falgout/backup/app/BackupConfiguration.java:59-65 | the stored form of a candidate is relative |
| `BackupConfigurations.Rejection` | src/falgout/backup/app/BackupConfiguration.java:67-73 | a candidate is refused unless its absolute form is an existing directory under the root |
| `BackupConfigurations.AbsoluteAndRelativeAgree` | src/falgout/backup/app/BackupConfiguration.java:59-65 | `root/r` and `r` pass the same checks and are stored as the same entry, so they yield the same set |
| `BackupConfigurations.KeepElements` | src/falgout/backup/app/BackupConfiguration.java:81-87 | the entries the removal loop keeps are those not below the candidate |
| `BackupConfigurations.ReadPaths` | src/falgout/backup/app/BackupConfiguration.java:183-185 | the index loop over the lines gives what `ParsePaths` gives |
| `BackupConfigurations.BackupConfiguration.constructor` | src/falgout/backup/app/BackupConfiguration.java:35-40 | the set holds exactly the given paths, sorted |
| `BackupConfigurations.BackupConfiguration.DirectoriesToBackup` | src/falgout/backup/app/BackupConfiguration.java:54-56 | the set has one element per TreeSet entry |
| `BackupConfigurations.BackupConfiguration.AddDirectory` | src/falgout/backup/app/BackupConfiguration.java:58-90 | refused exactly when `Rejection` refuses, with its error and the set unchanged; otherwise the set becomes `BackupScope.Add` of the old set and the candidate; minimality is kept |
| `BackupConfigurations.BackupConfiguration.IsCovered` | src/falgout/backup/app/BackupConfiguration.java:75-79 | the early-exit loop finds an entry above the candidate exactly when the set covers it |
| `BackupConfigurations.BackupConfiguration.RemoveBelow` | src/falgout/backup/app/BackupConfiguration.java:81-87 | the iterator loop leaves, in order, exactly the entries not below the candidate, and keeps the sequence sorted |
| `BackupConfigurations.BackupConfiguration.RemoveDirectory` | src/falgout/backup/app/BackupConfiguration.java:92-94 | the set becomes `BackupScope.Remove` of the old set |
| `BackupConfigurations.BackupConfiguration.Save` | src/falgout/backup/app/BackupConfiguration.java:96-112 | writes `.backupconf` under the root, and its text is the encoding of the identifier and the entries in TreeSet order |
| `BackupConfigurations.BackupConfiguration.Equals` | src/falgout/backup/app/BackupConfiguration.java:126-146 | two configurations are equal exactly when their identifiers are |
| `BackupConfigurations.BackupConfiguration.Load` | src/falgout/backup/app/BackupConfiguration.java:165-191 | without a file: the fresh identifier and an empty set. With one: fails exactly when `Decode` fails, with its error; otherwise the decoded identifier and paths |
| `BackupConfigurations.SaveAndReload` | test/falgout/backup/app/BackupConfigurationTest.java:83-92 | loading what `save` wrote gives an equal configuration with the same set, when every entry is storable |
| `FileSystems.AncestorIsDir` | src/falgout/backup/Directories.java:73 | in a well-formed file system, every path above an entry is a directory |
| `FileSystems.DirectoriesOf` | src/falgout/backup/Directories.java:76 | the directories `createDirectories` makes are the path and every path above it |
| `FileSystems.CreatedWellFormed` | src/falgout/backup/Directories.java:76 | creating them keeps the file system well formed when none is a regular file |
| `FileSystems.FileSystem.Delete` | src/falgout/backup/Directories.java:39-55 | `Files.delete` fails for a missing path, and for a non-empty directory; otherwise it removes exactly that entry |
| `FileSystems.FileSystem.CreateDirectories` | src/falgout/backup/Directories.java:76 | fails, changing nothing, exactly when the path or one above it is a regular file: a file at the path itself is FileAlreadyExists, a file above it is NotDirectory of that file (ENOTDIR). Otherwise it adds the missing directories and keeps every other entry |
| `FileSystems.FileSystem.Copy` | src/falgout/backup/Directories.java:83 | `Files.copy` refuses a missing source first; a source copied onto itself changes nothing; otherwise it copies the entry, refuses an existing target without replace, refuses a non-empty directory as the target with replace (and replaces anything else), and refuses a target whose parent is missing |
| `Streams.InputStream.Read` | src/falgout/backup/Directories.java:139 | 0 for an empty buffer, -1 exactly at the end, otherwise 1 to `buf.Length` next bytes at the start of the buffer |
| `Streams.MessageDigest.Update` | src/falgout/backup/Directories.java:129 | `update(bytes)` appends exactly those bytes to what was fed |
| `Streams.MessageDigest.UpdateRange` | src/falgout/backup/Directories.java:140 | `update(buf, 0, read)` feeds those bytes |
| `Streams.MessageDigest.Digest` | src/falgout/backup/Directories.java:144 | `digest()` hashes what was fed, then resets |
| `Streams.DigestStream` | src/falgout/backup/Directories.java:135-145 | however the stream splits its bytes, the hash is of what had been fed, followed by the rest of the stream; the stream ends closed and fully read |
| `DirectoryTrees.AbsentTreeEmpty` | src/falgout/backup/Directories.java:30 | nothing lies below a missing path |
| `DirectoryTrees.DeletedDirectoryIsEmpty` | src/falgout/backup/Directories.java:39-55 | in the backward walk, every entry still exists when its turn comes, and a directory is empty when it is deleted |
| `DirectoryTrees.Delete` | src/falgout/backup/Directories.java:29-57 | a missing directory changes nothing; otherwise exactly the tree of `dir` is removed, every other entry keeps its contents, and no `Files.delete` fails |
| `DirectoryTrees.Mirror` | src/falgout/backup/Directories.java:76-83 | `target.resolve(source.relativize(p))` is the target's names followed by what `p` has after the source |
| `DirectoryTrees.MirrorRelativize` | src/falgout/backup/Directories.java:76-83 | a copy sits at the same place relative to the target as its original relative to the source |
| `DirectoryTrees.MirrorInjective` | src/falgout/backup/Directories.java:83 | different entries are copied to different places |
| `DirectoryTrees.MirrorStartsWith` | src/falgout/backup/Directories.java:76-83 | the copy has the same nesting as the source |
| `DirectoryTrees.MirrorPrefix` | src/falgout/backup/Directories.java:76 | every path between the target and a copy is the copy of an entry of the source |
| `DirectoryTrees.ApartBelow` | src/falgout/backup/Directories.java:73 | what lies below the source is neither below the target nor above it |
| `DirectoryTrees.ReadyCreate` | src/falgout/backup/Directories.java:76 | in a ready target, creating the copy of a visited directory cannot fail |
| `DirectoryTrees.CopyTargetFree` | src/falgout/backup/Directories.java:83 | in a ready target, the place a file is copied to is still free |
| `DirectoryTrees.CopyParentReady` | src/falgout/backup/Directories.java:83 | the directory a file is copied into was made earlier in the walk |
| `DirectoryTrees.Copy` | src/falgout/backup/Directories.java:71-98 | a missing source fails with nothing changed. Entries outside the target are kept, and new entries are copies of the source or directories above the target. On success every source entry has its copy with the same contents. A ready target always succeeds, holding nothing but copies |
| `DirectoryTrees.Relatives` | src/falgout/backup/Directories.java:106-113 | the loop fills a sorted TreeSet with exactly the structure of the directory |
| `DirectoryTrees.IsStructureSame` | src/falgout/backup/Directories.java:104-116 | true exactly when the two relativised path sets are equal |
| `DirectoryTrees.EmptyStructureDiffers` | test/falgout/backup/DirectoriesTest.java:55-58 | a directory with entries and an empty one never have the same structure, whichever comes first |
| `DirectoryTrees.CopiedStructureSame` | src/falgout/backup/Directories.java:71-116 | a tree copied into a ready target has the source's structure |
| `DirectoryTrees.SourceUntouched` | src/falgout/backup/Directories.java:73-97 | a copy leaves what lies below the source as it was |
| `DirectoryTrees.CopyThenCompare` | test/falgout/backup/DirectoriesTest.java:55-61 | copying into an empty target succeeds, and then the structures are the same |
| `DirectoryTrees.DigestInputOfAnyOrder` | src/falgout/backup/Directories.java:118-133 | the digest input depends only on the set of paths, not the order they are enumerated in |
| `DirectoryTrees.ResolvedBelowIsBelow` | src/falgout/backup/Directories.java:120-122 | resolving the enumerated absolute paths changes nothing |
| `DirectoryTrees.FeedPaths` | src/falgout/backup/Directories.java:124-130 | the loop feeds every path string in order, and collects the contents of the regular files in the same order |
| `DirectoryTrees.Digest` | src/falgout/backup/Directories.java:118-133 | the hash is of what had been fed, followed by all path strings and then all file contents, and the digest is reset |
| `DirectoryTrees.FlattenAppend` | src/falgout/backup/Directories.java:132 | a `SequenceInputStream` over two groups of streams gives the first group's bytes, then the second's |
| `DirectoryTrees.FileContentsAppend` | src/falgout/backup/Directories.java:124-130 | the contents of two groups of paths are those of the first, then those of the second |
| `DirectoryTrees.DigestSeesContent` | test/falgout/backup/DirectoriesTest.java:75-82 | changing the contents of one file below the directory changes the digest input |
| `DirectoryTrees.DigestInputEmpty` | src/falgout/backup/Directories.java:118-133 | the digest input is empty exactly when the directory is, when non-empty strings encode to non-empty bytes |
| `DirectoryTrees.DigestIgnoresFileBoundaries` | src/falgout/backup/Directories.java:124-132 | two different trees, one holding `[1, 2]` and an empty file, the other `[1]` and `[2]`, give the same digest input |

## Left out

- The progress monitors and `FileVisitResult` control-flow are left out.
  - The walk hooks only pass these on to the JDK walker (Directories.java:35, 42, 47, 54).
  - `visitFileFailed`, and the walker stopping on an exception, are also left out.
  - Every `Files` call that fails surfaces as an `Outcome`: `Copy` stops at the first failure.
- Real I/O is left out: the store's file system, the file's existence, and opening or closing files. They become values, as described above. `FileStore`, `FileStoreLocator` and the root's location are arguments.
- The hash algorithm, the default charset and `UUID.randomUUID` are uninterpreted parameters.
- `delete()`, `hashCode`, `toString`, `getFileStore`, `getRoot`, `getID`, and the one-argument overloads that only pass `DO_NOTHING` on are not modelled.
- Path normalisation (`.` and `..`) is not modelled: every path operation is syntactic.
  - `relativize` of an absolute path outside the root, with its `..` names, is computed syntactically but never stored, because the root check refuses it.
  - The order of `Path.compareTo` is a lexicographic order on names. It is fixed and total, but it is not Java's character-by-character comparison of the whole string.
- `Files.walkFileTree` is modelled as a walk in that sorted order, not in the JDK's directory-listing order. For `delete` and `copy`, the ensures of `DirectoryTrees.Delete` and `DirectoryTrees.Copy` state their results without reference to the order. `digest` does not walk: it iterates `Directory`, and `TreeSets.FromSet` together with `TreeSets.SortedUnique` show that the order of that iteration does not matter.
- `Directory` is not part of this model. It is taken to enumerate every path strictly below it, and its `resolve` and `relativize` are those of `Path`.
- `DirectoryTrees.Copy` requires that the source and the target are not nested in each other. A walk over a tree that the walk itself grows is not modelled.
- `CopyOption`s other than `REPLACE_EXISTING` are not modelled, and neither are file attributes or symbolic links.
- `BackupConfigurations.BackupConfiguration.Load`:
  - Every `readAllLines` line ends at "\n", "\r" or "\r\n", and `save` writes "\n".
  - Charset errors are not modelled, neither decoding in `load` nor encoding in `save`. The `newBufferedWriter` of `save` reports unmappable characters with an UnmappableCharacterException, but `Save` never fails.
  - `ParseHexBinary` failing is `MalformedId`, and fewer than 16 bytes is `ShortId`.
  - The loaded set is not checked for minimality, just as `load` does not check it (BackupConfiguration.java:183-185). `AddDirectory` therefore promises minimality only when it already held.
- `BackupConfigurations.BackupConfiguration.AddDirectory` (with `IsCovered` and `RemoveBelow`) uses the component-wise prefix `Paths.StartsWith`, not Java's `startsWith`. It therefore differs from the code as written when the root itself is or has been added: see the Finding, and `BackupScope.AsWrittenAgrees` for the agreement everywhere else.
- `BackupConfigurations.BackupConfiguration.constructor` requires an absolute root. The root always comes from the store's location.
- `BackupConfigurations.SaveAndReload` requires every entry to be storable: no name with a line break, a NUL or a "/", and no empty name. An entry that cannot be written on one line of its own does not come back.

## Findings

| source | as written | input that shows it | evidently intended | confidence | as-written member | corrected member |
|---|---|---|---|---|---|---|
| src/falgout/backup/app/BackupConfiguration.java:59-89 | the covering and removal tests use `Path.startsWith`. In Java the empty path `""` has one (empty) name, so `"src".startsWith("")` is false. | add the root itself (`root.relativize(root)` is `""`), then `src`: the set becomes `{"", "src"}`, and `""` covers `src` | the root covers every directory below it, so adding `src` afterwards changes nothing and the set stays minimal | not executed | `BackupScope.AsWrittenRootThenSubdirectory` | `BackupScope.RootThenSubdirectory` |
