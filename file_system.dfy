/** The file system that `java.nio.file.Files` reads and changes, as a map
    from absolute paths to entries, and the four operations of `Files` that
    the directory-tree operations use. */
module FileSystems {
  import opened Paths
  import opened Bytes

  datatype Entry = File(content: seq<Byte>) | Dir

  /** Every key is absolute, and the parent of every entry is a directory. */
  predicate WellFormed(m: map<Path, Entry>)
  {
    && (forall p :: p in m ==> p.absolute)
    && (forall p :: p in m && |p.names| > 0 ==> Parent(p) in m && m[Parent(p)].Dir?)
  }

  /** Some entry lies strictly below `p`. */
  predicate HasEntriesBelow(m: map<Path, Entry>, p: Path)
  {
    exists q :: q in m && StrictlyUnder(q, p)
  }

  /** Every path above an entry is a directory of the file system. */
  lemma {:induction false} AncestorIsDir(m: map<Path, Entry>, q: Path, p: Path)
    requires WellFormed(m) && q in m && StrictlyUnder(q, p)
    ensures p in m && m[p].Dir?
    decreases |q.names|
  {
    var r := Parent(q);
    if r != p {
      UnderParent(q, p);
      AncestorIsDir(m, r, p);
    }
  }

  /** The paths from the root component down to `p`, `p` included. */
  function Prefix(p: Path, k: nat): (r: Path)
    requires k <= |p.names|
    ensures StartsWith(p, r) && |r.names| == k
  {
    Path(p.absolute, p.names[..k])
  }

  /** Every path that `p` starts with is one of its prefixes. */
  lemma PrefixOf(p: Path, q: Path)
    requires StartsWith(p, q)
    ensures q == Prefix(p, |q.names|)
  {
  }

  predicate IsFile(m: map<Path, Entry>, p: Path)
  {
    p in m && m[p].File?
  }

  /** `p` or a path above it is a regular file. */
  predicate FileOnTheWay(m: map<Path, Entry>, p: Path)
  {
    exists k :: 0 <= k <= |p.names| && IsFile(m, Prefix(p, k))
  }

  /** `p` and every path above it, as directories. */
  function DirectoriesOf(p: Path): (d: map<Path, Entry>)
    ensures forall q :: q in d <==> StartsWith(p, q)
    ensures forall q :: q in d ==> d[q] == Dir
  {
    var prefixes := set k | 0 <= k <= |p.names| :: Prefix(p, k);
    assert forall q :: StartsWith(p, q) ==> q in prefixes by {
      forall q | StartsWith(p, q) ensures q in prefixes {
        PrefixOf(p, q);
      }
    }
    map q | q in prefixes :: Dir
  }

  /** Adding the directories of `p` keeps the file system well formed when
      none of them is a regular file. */
  lemma CreatedWellFormed(m: map<Path, Entry>, p: Path)
    requires WellFormed(m) && p.absolute
    requires !FileOnTheWay(m, p)
    ensures WellFormed(m + DirectoriesOf(p))
  {
    var n := m + DirectoriesOf(p);
    forall q | q in n && |q.names| > 0 ensures Parent(q) in n && n[Parent(q)].Dir? {
      if StartsWith(p, q) {
        assert StartsWith(p, Parent(q));
      }
    }
  }

  datatype IoError =
    | NoSuchFile(path: Path)
    | DirectoryNotEmpty(path: Path)
    | FileAlreadyExists(path: Path)
    | NotDirectory(path: Path)

  datatype Outcome = Done | Failed(error: IoError)

  class FileSystem {
    var entries: map<Path, Entry>

    ghost predicate Valid()
      reads this
    {
      WellFormed(entries)
    }

    constructor (m: map<Path, Entry>)
      requires WellFormed(m)
      ensures Valid() && entries == m
    {
      entries := m;
    }

    /** `Files.delete`: the path must exist, and a directory must be empty. */
    method Delete(p: Path) returns (r: Outcome)
      requires Valid()
      modifies this
      ensures Valid()
      ensures r == Failed(NoSuchFile(p)) <==> p !in old(entries)
      ensures r == Failed(DirectoryNotEmpty(p)) <==>
                p in old(entries) && old(entries)[p].Dir? && HasEntriesBelow(old(entries), p)
      ensures r.Failed? ==> r.error == NoSuchFile(p) || r.error == DirectoryNotEmpty(p)
      ensures entries == if r.Done? then old(entries) - {p} else old(entries)
    {
      if p !in entries {
        return Failed(NoSuchFile(p));
      }
      if entries[p].Dir? && HasEntriesBelow(entries, p) {
        return Failed(DirectoryNotEmpty(p));
      }
      entries := entries - {p};
      r := Done;
    }

    /** `Files.createDirectories`: creates `p` and every missing directory
        above it; fails, before creating anything, when `p` or a path above it
        is a regular file.  A regular file at `p` itself is
        FileAlreadyExistsException; a regular file above it makes `mkdir`
        fail with ENOTDIR, reported here as `NotDirectory` of that file. */
    method CreateDirectories(p: Path) returns (r: Outcome)
      requires Valid() && p.absolute
      modifies this
      ensures Valid()
      ensures r.Failed? <==> FileOnTheWay(old(entries), p)
      ensures r.Failed? ==> entries == old(entries)
      ensures r.Failed? && IsFile(old(entries), p) ==> r.error == FileAlreadyExists(p)
      ensures r.Failed? && !IsFile(old(entries), p) ==>
                r.error.NotDirectory? && IsFile(old(entries), r.error.path) && StrictlyUnder(p, r.error.path)
      ensures r.Done? ==>
                && (forall q :: q in old(entries) ==> q in entries && entries[q] == old(entries)[q])
                && (forall q :: q in entries <==> q in old(entries) || StartsWith(p, q))
                && (forall q :: StartsWith(p, q) ==> entries[q] == Dir)
    {
      if IsFile(entries, p) {
        assert Prefix(p, |p.names|) == p;
        return Failed(FileAlreadyExists(p));
      }
      var k := 0;
      while k < |p.names|
        invariant k <= |p.names|
        invariant forall j :: 0 <= j < k ==> !IsFile(entries, Prefix(p, j))
      {
        var q := Prefix(p, k);
        if IsFile(entries, q) {
          return Failed(NotDirectory(q));
        }
        k := k + 1;
      }
      assert Prefix(p, |p.names|) == p;
      CreatedWellFormed(entries, p);
      entries := entries + DirectoriesOf(p);
      r := Done;
    }

    /** `Files.copy` of one entry: the source must exist; nothing happens
        when source and target are the same path; an existing target is an
        error unless REPLACE_EXISTING (`replace`) is given, and even then a
        non-empty directory is; the directory the target goes into must
        exist. */
    method Copy(source: Path, target: Path, replace: bool) returns (r: Outcome)
      requires Valid() && target.absolute
      modifies this
      ensures Valid()
      ensures r.Done? && source != target ==> source in old(entries) && entries == old(entries)[target := old(entries)[source]]
      ensures r.Failed? || source == target ==> entries == old(entries)
      ensures source !in old(entries) ==> r == Failed(NoSuchFile(source))
      ensures source == target && source in old(entries) ==> r.Done?
      ensures source != target && source in old(entries) && target !in old(entries) ==>
                (r.Done? <==> |target.names| == 0 || (Parent(target) in old(entries) && old(entries)[Parent(target)].Dir?))
      ensures source != target && source in old(entries) && target in old(entries) && !replace ==>
                r == Failed(FileAlreadyExists(target))
      ensures source != target && source in old(entries) && target in old(entries) && replace ==>
                (r.Done? <==> !(old(entries)[target].Dir? && HasEntriesBelow(old(entries), target)))
      ensures r.Failed? && r.error.DirectoryNotEmpty? ==> r.error == DirectoryNotEmpty(target)
    {
      if source !in entries {
        return Failed(NoSuchFile(source));
      }
      if source == target {
        return Done;
      }
      if target in entries {
        if !replace {
          return Failed(FileAlreadyExists(target));
        }
        if entries[target].Dir? && HasEntriesBelow(entries, target) {
          return Failed(DirectoryNotEmpty(target));
        }
      } else if |target.names| > 0 {
        if Parent(target) !in entries {
          return Failed(NoSuchFile(target));
        }
        if entries[Parent(target)].File? {
          return Failed(NotDirectory(Parent(target)));
        }
      }
      ghost var before := entries;
      var e := entries[source];
      entries := entries[target := e];
      r := Done;
      forall q | q in entries && |q.names| > 0 ensures Parent(q) in entries && entries[Parent(q)].Dir? {
        if q != target {
          assert q in before;
          if Parent(q) == target {
            assert StrictlyUnder(q, target);
          }
        }
        if q == target && target in before {
          assert Parent(q) in before;
        }
      }
    }
  }
}
