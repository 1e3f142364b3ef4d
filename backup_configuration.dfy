/** `falgout.backup.app.BackupConfiguration`: a root directory, an identifier
    and the TreeSet of the directories to back up, kept relative to the root.
    The file system that `addDirectory` consults is passed in as a map (the
    one of `FileSystems`), and the configuration file as its text. */
module BackupConfigurations {
  import opened Paths
  import opened TreeSets
  import opened Uuids
  import opened Bytes
  import opened FileSystems
  import opened ConfigFile
  import BackupScope

  datatype Option<T> = None | Some(value: T)

  datatype AddError =
    | NoSuchDirectory(path: Path)   // NoSuchFileException
    | NotADirectory(path: Path)     // IllegalArgumentException
    | NotUnderRoot(path: Path)      // IllegalArgumentException

  datatype AddOutcome = Added | Rejected(error: AddError)

  /** The absolute form of a candidate: a relative one is taken against the root. */
  function AbsoluteOf(root: Path, dir: Path): Path
  {
    if dir.absolute then dir else Resolve(root, dir)
  }

  /** The form a candidate is stored in: an absolute one is made relative to
      the root. */
  function RelativeOf(root: Path, dir: Path): (rel: Path)
    requires root.absolute
    ensures !rel.absolute
  {
    if dir.absolute then Relativize(root, dir) else dir
  }

  /** The three checks of `addDirectory`, in their order. */
  function Rejection(root: Path, dir: Path, fs: map<Path, Entry>): (r: Option<AddError>)
    ensures r == None <==>
              AbsoluteOf(root, dir) in fs && fs[AbsoluteOf(root, dir)].Dir? && StartsWith(AbsoluteOf(root, dir), root)
  {
    var abs := AbsoluteOf(root, dir);
    if abs !in fs then Some(NoSuchDirectory(abs))
    else if fs[abs].File? then Some(NotADirectory(abs))
    else if !StartsWith(abs, root) then Some(NotUnderRoot(abs))
    else None
  }

  /** A directory below the root named by its absolute path or by its path
      relative to the root: the checks and the stored entry are the same. */
  lemma AbsoluteAndRelativeAgree(root: Path, rel: Path, fs: map<Path, Entry>)
    requires root.absolute && !rel.absolute
    ensures Rejection(root, Resolve(root, rel), fs) == Rejection(root, rel, fs)
    ensures RelativeOf(root, Resolve(root, rel)) == rel
  {
    RelativizeResolve(root, rel);
  }

  /** The entries that the removal loop of `addDirectory` keeps. */
  function Keep(s: seq<Path>, rel: Path): seq<Path>
  {
    if s == [] then []
    else Keep(s[..|s| - 1], rel) + (if StartsWith(s[|s| - 1], rel) then [] else [s[|s| - 1]])
  }

  /** The kept entries are those outside `rel`. */
  lemma {:induction false} KeepElements(s: seq<Path>, rel: Path)
    ensures Elements(Keep(s, rel)) == BackupScope.Outside(Elements(s), rel)
  {
    if s != [] {
      var init := s[..|s| - 1];
      KeepElements(init, rel);
      assert s == init + [s[|s| - 1]];
      assert Elements(s) == Elements(init) + {s[|s| - 1]};
      assert BackupScope.Outside(Elements(s), rel) ==
             BackupScope.Outside(Elements(init), rel) + (if StartsWith(s[|s| - 1], rel) then {} else {s[|s| - 1]});
    }
  }

  lemma KeepStep(s: seq<Path>, n: nat, rel: Path)
    requires n < |s|
    ensures Keep(s[..n + 1], rel) == Keep(s[..n], rel) + (if StartsWith(s[n], rel) then [] else [s[n]])
  {
    assert s[..n + 1][..n] == s[..n];
  }

  /** The loop of `load` over the lines after the identifier: each is parsed
      as a path, and the first that is not a path stops the reading. */
  method ReadPaths(lines: seq<string>) returns (r: PathsResult)
    ensures r == ParsePaths(lines)
  {
    var dirs: seq<Path> := [];
    var i := 0;
    while i < |lines|
      invariant 0 <= i <= |lines|
      invariant ParsePaths(lines[..i]) == PathsOk(dirs)
    {
      assert lines[..i + 1] == lines[..i] + [lines[i]];
      ParsePathsAppend(lines[..i], [lines[i]]);
      assert [lines[i]][1..] == [];
      match Parse(lines[i]) {
        case Invalid(_) =>
          ParsePathsAppend(lines[..i + 1], lines[i + 1..]);
          assert lines == lines[..i + 1] + lines[i + 1..];
          return PathsErr(lines[i]);
        case Parsed(p) => dirs := dirs + [p];
      }
      i := i + 1;
    }
    assert lines[..i] == lines;
    r := PathsOk(dirs);
  }

  class BackupConfiguration {
    const root: Path
    const id: Uuid
    var dirs: seq<Path>

    ghost predicate Valid()
      reads this
    {
      root.absolute && StrictlySorted(dirs)
    }

    /** `getDirectoriesToBackup`: the set the TreeSet holds, one element per
        entry. */
    function DirectoriesToBackup(): (r: set<Path>)
      reads this
      ensures StrictlySorted(dirs) ==> |r| == |dirs|
    {
      if StrictlySorted(dirs) then SortedCardinality(dirs); Elements(dirs)
      else Elements(dirs)
    }

    /** The private constructor: `dirs.addAll` of the given paths. */
    constructor (root: Path, id: Uuid, initial: seq<Path>)
      requires root.absolute
      ensures Valid() && this.root == root && this.id == id
      ensures DirectoriesToBackup() == Elements(initial)
    {
      this.root := root;
      this.id := id;
      var t: seq<Path> := [];
      var i := 0;
      while i < |initial|
        invariant 0 <= i <= |initial|
        invariant StrictlySorted(t) && Elements(t) == Elements(initial[..i])
      {
        assert initial[..i + 1] == initial[..i] + [initial[i]];
        t := Insert(t, initial[i]);
        i := i + 1;
      }
      assert initial[..i] == initial;
      dirs := t;
    }

    /** `addDirectory`: a directory that does not exist, is a regular file or
        is not below the root is refused and nothing changes; one that an
        entry already covers changes nothing; otherwise the entries below it
        go and it is added.  The set keeps no entry below another. */
    method AddDirectory(dir: Path, fs: map<Path, Entry>) returns (r: AddOutcome)
      requires Valid()
      modifies this
      ensures Valid()
      ensures r.Rejected? <==> Rejection(root, dir, fs).Some?
      ensures r.Rejected? ==> r.error == Rejection(root, dir, fs).value && dirs == old(dirs)
      ensures r.Added? ==>
                DirectoriesToBackup() == BackupScope.Add(old(DirectoriesToBackup()), RelativeOf(root, dir))
      ensures BackupScope.Minimal(old(DirectoriesToBackup())) ==> BackupScope.Minimal(DirectoriesToBackup())
    {
      var abs, rel := AbsoluteOf(root, dir), RelativeOf(root, dir);
      if abs !in fs {
        return Rejected(NoSuchDirectory(abs));
      } else if fs[abs].File? {
        return Rejected(NotADirectory(abs));
      } else if !StartsWith(abs, root) {
        return Rejected(NotUnderRoot(abs));
      }
      if BackupScope.Minimal(Elements(dirs)) {
        BackupScope.AddPreservesMinimal(Elements(dirs), rel);
      }
      var covered := IsCovered(rel);
      if covered {
        return Added;
      }
      ghost var original := dirs;
      RemoveBelow(rel);
      KeepElements(original, rel);
      dirs := Insert(dirs, rel);
      r := Added;
    }

    /** The first loop of `addDirectory`: is some entry `rel` or above it? */
    method IsCovered(rel: Path) returns (covered: bool)
      ensures covered <==> BackupScope.Covered(Elements(dirs), rel)
    {
      var k := 0;
      while k < |dirs|
        invariant 0 <= k <= |dirs|
        invariant forall j :: 0 <= j < k ==> !StartsWith(rel, dirs[j])
      {
        if StartsWith(rel, dirs[k]) {
          assert dirs[k] in Elements(dirs);
          return true;
        }
        k := k + 1;
      }
      return false;
    }

    /** The second loop of `addDirectory`: removes, through the iterator, the
        entries that lie below `rel`, keeping the order of the others. */
    method RemoveBelow(rel: Path)
      requires StrictlySorted(dirs)
      modifies this
      ensures StrictlySorted(dirs) && dirs == Keep(old(dirs), rel)
    {
      ghost var original := dirs;
      ghost var n := 0;
      var i := 0;
      while i < |dirs|
        invariant 0 <= i <= |dirs| && 0 <= n <= |original|
        invariant StrictlySorted(dirs)
        invariant dirs[..i] == Keep(original[..n], rel) && dirs[i..] == original[n..]
        decreases |dirs| - i
      {
        KeepStep(original, n, rel);
        assert dirs[i] == original[n];
        if StartsWith(dirs[i], rel) {
          RemoveAtSorted(dirs, i);
          dirs := dirs[..i] + dirs[i + 1..];
        } else {
          assert dirs[..i + 1] == dirs[..i] + [dirs[i]];
          i := i + 1;
        }
        n := n + 1;
      }
      assert dirs == dirs[..i];
      assert n == |original| by {
        assert |dirs[i..]| == 0;
      }
      assert original[..n] == original;
    }

    /** `removeDirectory`: exactly that entry goes. */
    method RemoveDirectory(dir: Path)
      requires Valid()
      modifies this
      ensures Valid()
      ensures DirectoriesToBackup() == BackupScope.Remove(old(DirectoriesToBackup()), dir)
    {
      dirs := Remove(dirs, dir);
    }

    /** `save`: the path of the configuration file and the text written to it,
        the identifier first and then the entries in TreeSet order. */
    method Save() returns (file: Path, text: string)
      requires Valid()
      ensures file == Resolve(root, Path(false, [ConfFile]))
      ensures text == Encode(id, dirs)
    {
      file := Resolve(root, Path(false, [ConfFile]));
      text := IdLine(id) + [NewLine];
      var i := 0;
      while i < |dirs|
        invariant 0 <= i <= |dirs|
        invariant text == WriteLines([IdLine(id)] + PathLines(dirs[..i]))
      {
        assert PathLines(dirs[..i + 1]) == PathLines(dirs[..i]) + [ToString(dirs[i])];
        WriteLinesAppend([IdLine(id)] + PathLines(dirs[..i]), [ToString(dirs[i])]);
        assert [IdLine(id)] + PathLines(dirs[..i + 1]) == [IdLine(id)] + PathLines(dirs[..i]) + [ToString(dirs[i])];
        text := text + ToString(dirs[i]) + [NewLine];
        i := i + 1;
      }
      assert dirs[..i] == dirs;
    }

    /** `equals`: two configurations are equal exactly when their identifiers
        are. */
    predicate Equals(other: BackupConfiguration?)
      reads this, other
      ensures Equals(other) <==> other != null && id == other.id
    {
      this == other || (other != null && id == other.id)
    }

    /** `load`: the text of the configuration file, if it exists, gives the
        identifier and the entries (in the order of the file, collected into a
        TreeSet); without a file the identifier is `freshId`
        (`UUID.randomUUID`) and there are no entries.  A file that cannot be
        read back is an error. */
    static method Load(root: Path, file: Option<string>, freshId: Uuid) returns (r: Loaded)
      requires root.absolute
      ensures r.Unreadable? <==> file.Some? && Decode(file.value).Err?
      ensures r.Unreadable? ==> r.error == Decode(file.value).error
      ensures r.Loaded? ==> fresh(r.config) && r.config.Valid() && r.config.root == root
      ensures r.Loaded? && file.None? ==> r.config.id == freshId && r.config.DirectoriesToBackup() == {}
      ensures r.Loaded? && file.Some? ==>
                r.config.id == Decode(file.value).value.id &&
                r.config.DirectoriesToBackup() == Elements(Decode(file.value).value.dirs)
    {
      if file.None? {
        var config := new BackupConfiguration(root, freshId, []);
        return Loaded(config);
      }
      var lines := ReadAllLines(file.value);
      if |lines| == 0 {
        return Unreadable(MissingIdLine);
      }
      var bytes: seq<Byte>;
      match ParseHexBinary(lines[0]) {
        case Decoded(bs) => bytes := bs;
        case OddLength => return Unreadable(MalformedId(lines[0]));
        case IllegalCharacter => return Unreadable(MalformedId(lines[0]));
      }
      var id: Uuid;
      match FromBytes(bytes) {
        case Read(u) => id := u;
        case BufferUnderflow => return Unreadable(ShortId(lines[0]));
      }
      var paths := ReadPaths(lines[1..]);
      match paths {
        case PathsErr(line) => return Unreadable(MalformedPath(line));
        case PathsOk(dirs) =>
          var config := new BackupConfiguration(root, id, dirs);
          r := Loaded(config);
      }
    }
  }

  datatype Loaded = Loaded(config: BackupConfiguration) | Unreadable(error: DecodeError)

  /** Saving a configuration and loading the file again gives a configuration
      equal to it, with the same entries, when no entry has a line separator
      or a NUL in a name. */
  method SaveAndReload(conf: BackupConfiguration, freshId: Uuid) returns (reloaded: Loaded)
    requires conf.Valid()
    requires forall i :: 0 <= i < |conf.dirs| ==> Storable(conf.dirs[i])
    ensures reloaded.Loaded?
    ensures reloaded.config.Equals(conf) && conf.Equals(reloaded.config)
    ensures reloaded.config.DirectoriesToBackup() == conf.DirectoriesToBackup()
  {
    var file, text := conf.Save();
    DecodeEncode(conf.id, conf.dirs);
    reloaded := BackupConfiguration.Load(conf.root, Some(text), freshId);
  }
}
