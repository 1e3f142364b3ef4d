/** `falgout.backup.Directories`: recursive delete, recursive copy, structural
    comparison and digest of directory trees, over the file system of
    `FileSystems`.  `Files.walkFileTree` visits a tree in the order of the
    TreeSet of its paths (a directory before what lies below it); the delete
    walk runs that order backwards, so every entry below a directory goes
    before the directory itself. */
module DirectoryTrees {
  import opened Paths
  import opened TreeSets
  import opened Bytes
  import opened FileSystems
  import opened Streams

  /** The entries that a walk of `dir` visits: `dir` itself and everything
      below it. */
  function Tree(m: map<Path, Entry>, dir: Path): set<Path>
  {
    set p | p in m && StartsWith(p, dir)
  }

  /** The entries a `Directory` handle on `dir` enumerates: everything
      strictly below it. */
  function Below(m: map<Path, Entry>, dir: Path): set<Path>
  {
    set p | p in m && StrictlyUnder(p, dir)
  }

  /** Nothing lies below a path that is not in a well-formed file system. */
  lemma AbsentTreeEmpty(m: map<Path, Entry>, dir: Path)
    requires WellFormed(m) && dir !in m
    ensures Tree(m, dir) == {} && Below(m, dir) == {}
  {
    forall p | p in m && StartsWith(p, dir) ensures false {
      AncestorIsDir(m, p, dir);
    }
  }

  // ---------------------------------------------------------------------
  // delete

  /** When the walk of a tree is undone from its end, the entry at `i` is
      deleted after every entry at a later index, and then nothing is left
      below it: in particular a directory is empty when it is deleted. */
  lemma DeletedDirectoryIsEmpty(m: map<Path, Entry>, dir: Path, walk: seq<Path>, i: nat)
    requires StrictlySorted(walk) && Elements(walk) == Tree(m, dir) && i < |walk|
    ensures walk[i] in m - Elements(walk[i + 1..])
    ensures !HasEntriesBelow(m - Elements(walk[i + 1..]), walk[i])
  {
    var rest := m - Elements(walk[i + 1..]);
    assert walk[i] in Elements(walk);
    forall k | i < k < |walk| ensures walk[k] != walk[i] {
      SortedDistinct(walk, i, k);
    }
    if HasEntriesBelow(rest, walk[i]) {
      var q :| q in rest && StrictlyUnder(q, walk[i]);
      StartsWithTransitive(q, walk[i], dir);
      assert q in Elements(walk);
      var k :| 0 <= k < |walk| && walk[k] == q;
      StrictlyUnderLess(q, walk[i]);
      SortedIndexOrder(walk, i, k);
      assert false;
    }
  }

  /** `Directories.delete(Path, FileVisitor)`: nothing happens when `dir` does
      not exist; otherwise every entry of the tree is deleted, files when they
      are visited and directories after everything below them, and nothing
      else changes.  No `Files.delete` of the walk fails. */
  method Delete(fs: FileSystem, dir: Path)
    requires fs.Valid()
    modifies fs
    ensures fs.Valid()
    ensures forall p :: p in fs.entries <==> p in old(fs.entries) && !StartsWith(p, dir)
    ensures forall p :: p in fs.entries ==> fs.entries[p] == old(fs.entries)[p]
    ensures dir !in old(fs.entries) ==> fs.entries == old(fs.entries)
  {
    if dir !in fs.entries {
      AbsentTreeEmpty(fs.entries, dir);
      assert forall p :: p in fs.entries ==> p !in Tree(fs.entries, dir);
      return;
    }
    ghost var m := fs.entries;
    var walk := FromSet(Tree(fs.entries, dir));
    var i := |walk|;
    while i > 0
      invariant 0 <= i <= |walk|
      invariant fs.Valid()
      invariant fs.entries == m - Elements(walk[i..])
    {
      i := i - 1;
      DeletedDirectoryIsEmpty(m, dir, walk, i);
      ElementsSuffix(walk, i);
      var r := fs.Delete(walk[i]);
      assert r == Done;
    }
    assert walk[0..] == walk;
  }

  // ---------------------------------------------------------------------
  // copy

  /** `target.resolve(source.relativize(p))`: where `p` goes in the copy. */
  function Mirror(source: Path, target: Path, p: Path): (r: Path)
    requires StartsWith(p, source)
    ensures r == Path(target.absolute, target.names + p.names[|source.names|..])
    ensures StartsWith(r, target)
  {
    RelativizeUnder(source, p);
    Resolve(target, Relativize(source, p))
  }

  /** The copy of `p` sits at the same place relative to the target as `p`
      relative to the source. */
  lemma MirrorRelativize(source: Path, target: Path, p: Path)
    requires StartsWith(p, source)
    ensures Relativize(target, Mirror(source, target, p)) == Relativize(source, p)
  {
    RelativizeUnder(source, p);
    RelativizeResolve(target, Relativize(source, p));
  }

  /** A common head can be taken off both sides of a prefix comparison. */
  lemma PrefixCancel(t: seq<string>, a: seq<string>, b: seq<string>)
    ensures t + a <= t + b <==> a <= b
  {
    if t + a <= t + b {
      assert a == (t + a)[|t|..];
      assert a == (t + b)[|t|..|t| + |a|];
    }
    if a <= b {
      assert t + a == (t + b)[..|t| + |a|];
    }
  }

  /** A path below the source is the source's names followed by the rest. */
  lemma Rejoin(source: Path, p: Path)
    requires StartsWith(p, source)
    ensures p.names == source.names + p.names[|source.names|..]
  {
  }

  /** Different entries of the source go to different places. */
  lemma MirrorInjective(source: Path, target: Path, p: Path, q: Path)
    requires StartsWith(p, source) && StartsWith(q, source)
    requires Mirror(source, target, p) == Mirror(source, target, q)
    ensures p == q
  {
    var k := |source.names|;
    PrefixCancel(target.names, p.names[k..], q.names[k..]);
    PrefixCancel(target.names, q.names[k..], p.names[k..]);
    Rejoin(source, p);
    Rejoin(source, q);
  }

  /** The copy has the same nesting as the source. */
  lemma MirrorStartsWith(source: Path, target: Path, p: Path, q: Path)
    requires StartsWith(p, source) && StartsWith(q, source)
    ensures StartsWith(Mirror(source, target, p), Mirror(source, target, q)) <==> StartsWith(p, q)
  {
    var k := |source.names|;
    PrefixCancel(target.names, q.names[k..], p.names[k..]);
    PrefixCancel(source.names, q.names[k..], p.names[k..]);
    Rejoin(source, p);
    Rejoin(source, q);
  }

  /** A path between the target and the copy of `p` is the copy of a path
      between the source and `p`, which is in the file system. */
  lemma MirrorPrefix(m: map<Path, Entry>, source: Path, target: Path, p: Path, q: Path) returns (a: Path)
    requires WellFormed(m) && p in m && StartsWith(p, source)
    requires StartsWith(Mirror(source, target, p), q) && StartsWith(q, target)
    ensures a in m && StartsWith(p, a) && StartsWith(a, source) && q == Mirror(source, target, a)
  {
    var k := |source.names| + |q.names| - |target.names|;
    a := Path(p.absolute, p.names[..k]);
    assert source.names == p.names[..|source.names|] == a.names[..|source.names|];
    var mp := Mirror(source, target, p);
    assert q.names == mp.names[..|q.names|];
    assert q.names == target.names + p.names[|source.names|..k];
    assert a.names[|source.names|..] == p.names[|source.names|..k];
    if a != p {
      AncestorIsDir(m, p, a);
    }
  }

  /** The source and the target are not nested in each other. */
  predicate Apart(source: Path, target: Path)
  {
    !StartsWith(source, target) && !StartsWith(target, source)
  }

  /** What lies below the source is neither below the target nor above it. */
  lemma ApartBelow(source: Path, target: Path, p: Path)
    requires Apart(source, target) && StartsWith(p, source)
    ensures !StartsWith(p, target) && !StartsWith(target, p)
  {
    if StartsWith(p, target) {
      PrefixesComparable(p, source, target);
    }
  }

  /** Entries outside the target keep their contents. */
  predicate Kept(m: map<Path, Entry>, n: map<Path, Entry>, target: Path)
  {
    forall q :: q in m && !StartsWith(q, target) ==> q in n && n[q] == m[q]
  }

  /** New entries lie below the target, or are directories above it. */
  predicate Grown(m: map<Path, Entry>, n: map<Path, Entry>, target: Path)
  {
    forall q :: q in n && q !in m ==> StartsWith(q, target) || (StartsWith(target, q) && n[q] == Dir)
  }

  /** New entries below the target are copies of entries of the source. */
  predicate FromSource(m: map<Path, Entry>, n: map<Path, Entry>, source: Path, target: Path)
  {
    forall q :: q in n && q !in m && StartsWith(q, target) ==>
      exists p :: p in m && StartsWith(p, source) && q == Mirror(source, target, p)
  }

  /** Every entry of the source has its copy, with the same contents. */
  predicate CopiedTree(m: map<Path, Entry>, n: map<Path, Entry>, source: Path, target: Path)
  {
    forall p :: p in m && StartsWith(p, source) ==>
      Mirror(source, target, p) in n && n[Mirror(source, target, p)] == m[p]
  }

  /** Everything strictly below the target is the copy of something strictly
      below the source. */
  predicate OnlyCopies(m: map<Path, Entry>, n: map<Path, Entry>, source: Path, target: Path)
  {
    forall q :: q in n && StrictlyUnder(q, target) ==>
      exists p :: p in m && StrictlyUnder(p, source) && q == Mirror(source, target, p)
  }

  /** A target that a copy fills without an error: neither it nor a path above
      it is a regular file, and nothing lies below it. */
  predicate ReadyTarget(m: map<Path, Entry>, target: Path)
  {
    !FileOnTheWay(m, target) && !HasEntriesBelow(m, target)
  }

  /** The entries visited before step `i` have their copies. */
  predicate CopiedSoFar(m: map<Path, Entry>, n: map<Path, Entry>, source: Path, target: Path, walk: seq<Path>, i: nat)
    requires i <= |walk|
  {
    forall j :: 0 <= j < i && StartsWith(walk[j], source) && walk[j] in m ==>
      Mirror(source, target, walk[j]) in n && n[Mirror(source, target, walk[j])] == m[walk[j]]
  }

  /** Everything strictly below the target is a copy made before step `i`. */
  predicate OnlyCopiesSoFar(n: map<Path, Entry>, source: Path, target: Path, walk: seq<Path>, i: nat)
    requires i <= |walk|
  {
    forall q :: q in n && StrictlyUnder(q, target) ==>
      exists j :: 0 <= j < i && StartsWith(walk[j], source) && q == Mirror(source, target, walk[j])
  }

  /** The facts the copy walk keeps. */
  predicate CopyInvariant(m: map<Path, Entry>, n: map<Path, Entry>, source: Path, target: Path,
                          walk: seq<Path>, i: nat, ready: bool)
    requires i <= |walk|
  {
    && Kept(m, n, target) && Grown(m, n, target) && FromSource(m, n, source, target)
    && CopiedSoFar(m, n, source, target, walk, i)
    && (ready ==> !IsFile(n, target) && OnlyCopiesSoFar(n, source, target, walk, i))
  }

  /** The walk of the source: its entries in TreeSet order. */
  predicate IsWalk(m: map<Path, Entry>, source: Path, walk: seq<Path>)
  {
    StrictlySorted(walk) && Elements(walk) == Tree(m, source)
  }

  lemma WalkEntry(m: map<Path, Entry>, source: Path, walk: seq<Path>, i: nat)
    requires IsWalk(m, source, walk) && i < |walk|
    ensures walk[i] in m && StartsWith(walk[i], source)
  {
    assert walk[i] in Elements(walk);
  }

  /** An entry of the tree above `walk[i]` is visited before it: this is what
      makes the copy create a directory before what lies below it. */
  lemma VisitedBefore(m: map<Path, Entry>, source: Path, walk: seq<Path>, i: nat, a: Path) returns (j: nat)
    requires IsWalk(m, source, walk) && i < |walk|
    requires a in m && StartsWith(a, source) && StartsWith(walk[i], a)
    ensures j <= i && walk[j] == a
    ensures a != walk[i] ==> j < i
  {
    assert a in Elements(walk);
    j :| 0 <= j < |walk| && walk[j] == a;
    if a != walk[i] {
      StrictlyUnderLess(walk[i], a);
      SortedIndexOrder(walk, j, i);
    } else if j != i {
      SortedDistinct(walk, i, j);
    }
  }

  /** The preconditions shared by the steps of the copy walk. */
  predicate CopySetting(m: map<Path, Entry>, source: Path, target: Path, walk: seq<Path>, ready: bool)
  {
    && WellFormed(m) && source.absolute && target.absolute && Apart(source, target)
    && IsWalk(m, source, walk)
    && ready == (ReadyTarget(m, target) && source in m && m[source].Dir?)
  }

  /** What `Files.createDirectories` of `dest` did to `before`. */
  ghost predicate CreatedDirectories(before: map<Path, Entry>, after: map<Path, Entry>, dest: Path)
  {
    && (forall q :: q in before ==> q in after && after[q] == before[q])
    && (forall q :: q in after <==> q in before || StartsWith(dest, q))
    && (forall q :: StartsWith(dest, q) ==> after[q] == Dir)
  }

  lemma CreateKeeps(m: map<Path, Entry>, before: map<Path, Entry>, after: map<Path, Entry>,
                    source: Path, target: Path, p: Path)
    requires WellFormed(m) && p in m && StartsWith(p, source)
    requires Kept(m, before, target) && Grown(m, before, target) && FromSource(m, before, source, target)
    requires CreatedDirectories(before, after, Mirror(source, target, p))
    ensures Kept(m, after, target) && Grown(m, after, target) && FromSource(m, after, source, target)
  {
    var dest := Mirror(source, target, p);
    forall q | q in after && q !in m
      ensures StartsWith(q, target) || (StartsWith(target, q) && after[q] == Dir)
    {
      if q !in before {
        PrefixesComparable(dest, q, target);
      }
    }
    forall q | q in after && q !in m && StartsWith(q, target)
      ensures exists a :: a in m && StartsWith(a, source) && q == Mirror(source, target, a)
    {
      if q !in before {
        var a := MirrorPrefix(m, source, target, p, q);
      }
    }
  }

  lemma CreateCopied(m: map<Path, Entry>, before: map<Path, Entry>, after: map<Path, Entry>,
                     source: Path, target: Path, walk: seq<Path>, i: nat)
    requires i < |walk| && StartsWith(walk[i], source) && walk[i] in m && m[walk[i]].Dir?
    requires CopiedSoFar(m, before, source, target, walk, i)
    requires CreatedDirectories(before, after, Mirror(source, target, walk[i]))
    ensures CopiedSoFar(m, after, source, target, walk, i + 1)
  {
  }

  lemma CreateOnlyCopies(m: map<Path, Entry>, before: map<Path, Entry>, after: map<Path, Entry>,
                         source: Path, target: Path, walk: seq<Path>, i: nat)
    requires WellFormed(m) && IsWalk(m, source, walk) && i < |walk|
    requires StartsWith(walk[i], source) && walk[i] in m
    requires !IsFile(before, target) && OnlyCopiesSoFar(before, source, target, walk, i)
    requires CreatedDirectories(before, after, Mirror(source, target, walk[i]))
    ensures !IsFile(after, target) && OnlyCopiesSoFar(after, source, target, walk, i + 1)
  {
    var p := walk[i];
    forall q | q in after && StrictlyUnder(q, target)
      ensures exists j :: 0 <= j < i + 1 && StartsWith(walk[j], source) && q == Mirror(source, target, walk[j])
    {
      if q !in before {
        var a := MirrorPrefix(m, source, target, p, q);
        var j := VisitedBefore(m, source, walk, i, a);
      }
    }
  }

  /** Creating the directories of the copy of the directory `walk[i]` keeps
      the invariant. */
  lemma CreateStep(m: map<Path, Entry>, before: map<Path, Entry>, after: map<Path, Entry>,
                   source: Path, target: Path, walk: seq<Path>, i: nat, ready: bool)
    requires CopySetting(m, source, target, walk, ready) && i < |walk|
    requires walk[i] in m && StartsWith(walk[i], source) && m[walk[i]].Dir?
    requires CopyInvariant(m, before, source, target, walk, i, ready)
    requires CreatedDirectories(before, after, Mirror(source, target, walk[i]))
    ensures CopyInvariant(m, after, source, target, walk, i + 1, ready)
  {
    CreateKeeps(m, before, after, source, target, walk[i]);
    CreateCopied(m, before, after, source, target, walk, i);
    if ready {
      CreateOnlyCopies(m, before, after, source, target, walk, i);
    }
  }

  lemma CopyKeeps(m: map<Path, Entry>, before: map<Path, Entry>, after: map<Path, Entry>,
                  source: Path, target: Path, p: Path)
    requires p in m && StartsWith(p, source)
    requires Kept(m, before, target) && Grown(m, before, target) && FromSource(m, before, source, target)
    requires after == before[Mirror(source, target, p) := m[p]]
    ensures Kept(m, after, target) && Grown(m, after, target) && FromSource(m, after, source, target)
  {
  }

  lemma CopyCopied(m: map<Path, Entry>, before: map<Path, Entry>, after: map<Path, Entry>,
                   source: Path, target: Path, walk: seq<Path>, i: nat)
    requires StrictlySorted(walk) && i < |walk| && StartsWith(walk[i], source) && walk[i] in m
    requires CopiedSoFar(m, before, source, target, walk, i)
    requires after == before[Mirror(source, target, walk[i]) := m[walk[i]]]
    ensures CopiedSoFar(m, after, source, target, walk, i + 1)
  {
    forall j | 0 <= j < i && StartsWith(walk[j], source) && walk[j] in m
      ensures Mirror(source, target, walk[j]) != Mirror(source, target, walk[i])
    {
      if Mirror(source, target, walk[j]) == Mirror(source, target, walk[i]) {
        MirrorInjective(source, target, walk[j], walk[i]);
        SortedDistinct(walk, j, i);
      }
    }
  }

  lemma CopyOnlyCopies(m: map<Path, Entry>, before: map<Path, Entry>, after: map<Path, Entry>,
                       source: Path, target: Path, walk: seq<Path>, i: nat)
    requires i < |walk| && StartsWith(walk[i], source) && walk[i] != source && walk[i] in m
    requires !IsFile(before, target) && OnlyCopiesSoFar(before, source, target, walk, i)
    requires after == before[Mirror(source, target, walk[i]) := m[walk[i]]]
    ensures !IsFile(after, target) && OnlyCopiesSoFar(after, source, target, walk, i + 1)
  {
  }

  /** Copying the regular file `walk[i]` keeps the invariant. */
  lemma CopyStep(m: map<Path, Entry>, before: map<Path, Entry>, after: map<Path, Entry>,
                 source: Path, target: Path, walk: seq<Path>, i: nat, ready: bool)
    requires CopySetting(m, source, target, walk, ready) && i < |walk|
    requires walk[i] in m && StartsWith(walk[i], source) && m[walk[i]].File?
    requires CopyInvariant(m, before, source, target, walk, i, ready)
    requires after == before[Mirror(source, target, walk[i]) := m[walk[i]]]
    ensures CopyInvariant(m, after, source, target, walk, i + 1, ready)
  {
    CopyKeeps(m, before, after, source, target, walk[i]);
    CopyCopied(m, before, after, source, target, walk, i);
    if ready {
      CopyOnlyCopies(m, before, after, source, target, walk, i);
    }
  }

  /** Into a ready target, `createDirectories` of the copy of a directory does
      not fail: the paths above the target are directories or absent, the
      target is not a file, and what lies between it and the copy are copies
      of directories. */
  lemma ReadyCreate(m: map<Path, Entry>, n: map<Path, Entry>, source: Path, target: Path, walk: seq<Path>, i: nat)
    requires CopySetting(m, source, target, walk, true) && i < |walk|
    requires walk[i] in m && StartsWith(walk[i], source) && m[walk[i]].Dir?
    requires CopyInvariant(m, n, source, target, walk, i, true)
    ensures !FileOnTheWay(n, Mirror(source, target, walk[i]))
  {
    var dest := Mirror(source, target, walk[i]);
    forall k | 0 <= k <= |dest.names| ensures !IsFile(n, Prefix(dest, k)) {
      var q := Prefix(dest, k);
      PrefixesComparable(dest, q, target);
      if StartsWith(target, q) && q != target {
        PrefixOf(target, q);
        assert !IsFile(m, Prefix(target, |q.names|));
      } else if q != target && q in n {
        var j :| 0 <= j < i && StartsWith(walk[j], source) && q == Mirror(source, target, walk[j]);
        WalkEntry(m, source, walk, j);
        MirrorStartsWith(source, target, walk[i], walk[j]);
        if walk[j] != walk[i] {
          AncestorIsDir(m, walk[i], walk[j]);
        }
      }
    }
  }

  /** Into a ready target, the copy of a regular file does not exist yet
      when `Files.copy` makes it. */
  lemma CopyTargetFree(n: map<Path, Entry>, source: Path, target: Path, walk: seq<Path>, i: nat)
    requires StrictlySorted(walk) && i < |walk| && StartsWith(walk[i], source) && walk[i] != source
    requires OnlyCopiesSoFar(n, source, target, walk, i)
    ensures Mirror(source, target, walk[i]) !in n
  {
    var dest := Mirror(source, target, walk[i]);
    if dest in n {
      var j :| 0 <= j < i && StartsWith(walk[j], source) && dest == Mirror(source, target, walk[j]);
      MirrorInjective(source, target, walk[j], walk[i]);
      SortedDistinct(walk, j, i);
    }
  }

  /** When `Files.copy` copies a regular file, the copy of its parent
      directory has already been made. */
  lemma CopyParentReady(m: map<Path, Entry>, n: map<Path, Entry>, source: Path, target: Path, walk: seq<Path>, i: nat)
    requires WellFormed(m) && IsWalk(m, source, walk) && i < |walk|
    requires walk[i] in m && StartsWith(walk[i], source) && walk[i] != source
    requires CopiedSoFar(m, n, source, target, walk, i)
    ensures |Mirror(source, target, walk[i]).names| > 0
    ensures Parent(Mirror(source, target, walk[i])) in n && n[Parent(Mirror(source, target, walk[i]))].Dir?
  {
    var p := walk[i];
    var parent := Parent(p);
    UnderParent(p, source);
    assert Parent(Mirror(source, target, p)) == Mirror(source, target, parent);
    var j := VisitedBefore(m, source, walk, i, parent);
  }

  /** At the end of the walk, the invariant says what the copy achieved. */
  lemma CopyFinish(m: map<Path, Entry>, n: map<Path, Entry>, source: Path, target: Path, walk: seq<Path>, ready: bool)
    requires CopySetting(m, source, target, walk, ready)
    requires CopyInvariant(m, n, source, target, walk, |walk|, ready)
    ensures CopiedTree(m, n, source, target)
    ensures ready ==> OnlyCopies(m, n, source, target)
  {
    forall p | p in m && StartsWith(p, source)
      ensures Mirror(source, target, p) in n && n[Mirror(source, target, p)] == m[p]
    {
      assert p in Elements(walk);
    }
    if ready {
      forall q | q in n && StrictlyUnder(q, target)
        ensures exists p :: p in m && StrictlyUnder(p, source) && q == Mirror(source, target, p)
      {
        var j :| 0 <= j < |walk| && StartsWith(walk[j], source) && q == Mirror(source, target, walk[j]);
        WalkEntry(m, source, walk, j);
      }
    }
  }

  /** `Directories.copy(Directory, Directory, FileVisitor, CopyOption...)` with
      REPLACE_EXISTING as `replace`: walks the source in pre-order, creating
      the copy of every directory with `createDirectories` and copying every
      regular file with `Files.copy`, and stops at the first error.  Whatever
      the outcome, entries outside the target keep their contents and what
      appears below the target comes from the source; when it succeeds, every
      entry of the source has its copy with the same contents; and into a
      ready target a directory is copied without an error and nothing else
      ends up below the target. */
  method Copy(fs: FileSystem, source: Path, target: Path, replace: bool) returns (r: Outcome)
    requires fs.Valid() && source.absolute && target.absolute && Apart(source, target)
    modifies fs
    ensures fs.Valid()
    ensures source !in old(fs.entries) ==> r == Failed(NoSuchFile(source)) && fs.entries == old(fs.entries)
    ensures Kept(old(fs.entries), fs.entries, target)
    ensures Grown(old(fs.entries), fs.entries, target)
    ensures FromSource(old(fs.entries), fs.entries, source, target)
    ensures r.Done? ==> CopiedTree(old(fs.entries), fs.entries, source, target)
    ensures ReadyTarget(old(fs.entries), target) && source in old(fs.entries) && old(fs.entries)[source].Dir? ==>
              r.Done? && OnlyCopies(old(fs.entries), fs.entries, source, target)
  {
    if source !in fs.entries {
      return Failed(NoSuchFile(source));
    }
    ghost var m := fs.entries;
    ghost var ready := ReadyTarget(m, target) && m[source].Dir?;
    var walk := FromSet(Tree(fs.entries, source));
    if ready {
      assert Prefix(target, |target.names|) == target;
    }
    var i := 0;
    while i < |walk|
      invariant 0 <= i <= |walk|
      invariant fs.Valid()
      invariant CopyInvariant(m, fs.entries, source, target, walk, i, ready)
    {
      var p := walk[i];
      WalkEntry(m, source, walk, i);
      ApartBelow(source, target, p);
      var dest := Mirror(source, target, p);
      ghost var before := fs.entries;
      if fs.entries[p].Dir? {
        if ready {
          ReadyCreate(m, before, source, target, walk, i);
        }
        r := fs.CreateDirectories(dest);
        if r.Failed? {
          return;
        }
        CreateStep(m, before, fs.entries, source, target, walk, i, ready);
      } else {
        if ready {
          CopyTargetFree(before, source, target, walk, i);
          CopyParentReady(m, before, source, target, walk, i);
        }
        r := fs.Copy(p, dest, replace);
        if r.Failed? {
          return;
        }
        CopyStep(m, before, fs.entries, source, target, walk, i, ready);
      }
      i := i + 1;
    }
    CopyFinish(m, fs.entries, source, target, walk, ready);
    r := Done;
  }

  // ---------------------------------------------------------------------
  // isStructureSame

  /** The paths of a set that have the kind of `dir`, relativized against it. */
  function Relativized(s: set<Path>, dir: Path): set<Path>
  {
    set p | p in s && p.absolute == dir.absolute :: Relativize(dir, p)
  }

  /** The structure of a directory: what lies below it, relative to it. */
  function Structure(m: map<Path, Entry>, dir: Path): set<Path>
  {
    Relativized(Below(m, dir), dir)
  }

  /** The loop of `isStructureSame` that fills a TreeSet with
      `dir.relativize(p)` for every `p` of the directory, in any order. */
  method Relatives(m: map<Path, Entry>, dir: Path) returns (t: seq<Path>)
    ensures StrictlySorted(t) && Elements(t) == Structure(m, dir)
  {
    t := [];
    var rest := Below(m, dir);
    while rest != {}
      invariant rest <= Below(m, dir)
      invariant StrictlySorted(t) && Elements(t) == Relativized(Below(m, dir) - rest, dir)
      decreases |rest|
    {
      var p :| p in rest;
      RelativizedStep(Below(m, dir), rest, p, dir);
      t := Insert(t, Relativize(dir, p));
      rest := rest - {p};
    }
  }

  /** One more path of the directory taken into the TreeSet. */
  lemma RelativizedStep(s: set<Path>, rest: set<Path>, p: Path, dir: Path)
    requires p in rest && rest <= s && p.absolute == dir.absolute
    ensures Relativized(s - (rest - {p}), dir) == Relativized(s - rest, dir) + {Relativize(dir, p)}
  {
    assert s - (rest - {p}) == (s - rest) + {p};
  }

  /** `Directories.isStructureSame`: the two TreeSets are equal exactly when
      the two directories have the same structure. */
  method IsStructureSame(m: map<Path, Entry>, d1: Path, d2: Path) returns (same: bool)
    ensures same <==> Structure(m, d1) == Structure(m, d2)
  {
    var f1 := Relatives(m, d1);
    var f2 := Relatives(m, d2);
    if Elements(f1) == Elements(f2) {
      SortedUnique(f1, f2);
    }
    same := f1 == f2;
  }

  /** A directory with something below it and an empty one differ in
      structure, in either order of comparison. */
  lemma EmptyStructureDiffers(m: map<Path, Entry>, d1: Path, d2: Path)
    requires Below(m, d1) != {} && Below(m, d2) == {}
    ensures Structure(m, d1) != Structure(m, d2) && Structure(m, d2) != Structure(m, d1)
  {
    var p :| p in Below(m, d1);
    assert Relativize(d1, p) in Structure(m, d1);
  }

  /** A copy made into a ready target has the structure of its source. */
  lemma CopiedStructureSame(m: map<Path, Entry>, n: map<Path, Entry>, source: Path, target: Path)
    requires source.absolute && target.absolute
    requires CopiedTree(m, n, source, target) && OnlyCopies(m, n, source, target)
    ensures Structure(n, target) == Structure(m, source)
  {
    forall r | r in Structure(m, source) ensures r in Structure(n, target) {
      var p :| p in Below(m, source) && r == Relativize(source, p);
      MirrorRelativize(source, target, p);
      var q := Mirror(source, target, p);
      assert q in Below(n, target);
    }
    forall r | r in Structure(n, target) ensures r in Structure(m, source) {
      var q :| q in Below(n, target) && r == Relativize(target, q);
      var p :| p in m && StrictlyUnder(p, source) && q == Mirror(source, target, p);
      MirrorRelativize(source, target, p);
      assert p in Below(m, source);
    }
  }

  /** Copying a directory into a ready target and then comparing the two. */
  method CopyThenCompare(fs: FileSystem, source: Path, target: Path) returns (r: Outcome, same: bool)
    requires fs.Valid() && source.absolute && target.absolute && Apart(source, target)
    requires source in fs.entries && fs.entries[source].Dir? && ReadyTarget(fs.entries, target)
    modifies fs
    ensures r.Done? && same
  {
    ghost var m := fs.entries;
    r := Copy(fs, source, target, false);
    CopiedStructureSame(m, fs.entries, source, target);
    same := IsStructureSame(fs.entries, source, target);
    SourceUntouched(m, fs.entries, source, target);
  }

  /** A copy leaves what lies below the source as it was. */
  lemma SourceUntouched(m: map<Path, Entry>, n: map<Path, Entry>, source: Path, target: Path)
    requires Apart(source, target)
    requires Kept(m, n, target) && Grown(m, n, target)
    ensures Below(n, source) == Below(m, source)
  {
    forall p | p in n && StrictlyUnder(p, source) ensures p in m {
      ApartBelow(source, target, p);
    }
    forall p | p in m && StrictlyUnder(p, source) ensures p in n {
      ApartBelow(source, target, p);
    }
  }

  // ---------------------------------------------------------------------
  // digest

  /** The bytes of the path strings, `getBytes()` being `encode`. */
  function PathBytes(ps: seq<Path>, encode: string -> seq<Byte>): seq<Byte>
  {
    if ps == [] then [] else PathBytes(ps[..|ps| - 1], encode) + encode(ToString(ps[|ps| - 1]))
  }

  /** The contents of the regular files among `ps`, in the order of `ps`. */
  function FileContents(m: map<Path, Entry>, ps: seq<Path>): seq<seq<Byte>>
  {
    if ps == [] then []
    else FileContents(m, ps[..|ps| - 1]) + (if IsFile(m, ps[|ps| - 1]) then [m[ps[|ps| - 1]].content] else [])
  }

  /** The bytes a `SequenceInputStream` over the streams delivers. */
  function Flatten(chunks: seq<seq<Byte>>): seq<Byte>
  {
    if chunks == [] then [] else Flatten(chunks[..|chunks| - 1]) + chunks[|chunks| - 1]
  }

  /** What `digest(Directory, MessageDigest)` feeds to the digest: the strings
      of all paths below `dir` in TreeSet order, and after them the contents
      of the regular files among them in the same order. */
  ghost function DigestInput(m: map<Path, Entry>, dir: Path, encode: string -> seq<Byte>): seq<Byte>
  {
    var ps := SortedOf(Below(m, dir));
    PathBytes(ps, encode) + Flatten(FileContents(m, ps))
  }

  /** The digest input is the same for any TreeSet of the paths: it depends on
      the set of paths and not on the order the directory enumerates them. */
  lemma DigestInputOfAnyOrder(m: map<Path, Entry>, dir: Path, encode: string -> seq<Byte>, ps: seq<Path>)
    requires StrictlySorted(ps) && Elements(ps) == Below(m, dir)
    ensures DigestInput(m, dir, encode) == PathBytes(ps, encode) + Flatten(FileContents(m, ps))
  {
    SortedUnique(ps, SortedOf(Below(m, dir)));
  }

  /** The paths of the directory, each resolved against it. */
  function ResolvedBelow(m: map<Path, Entry>, dir: Path): set<Path>
  {
    set p | p in Below(m, dir) :: Resolve(dir, p)
  }

  /** Resolving an absolute path changes nothing: the resolved paths are the
      paths of the directory. */
  lemma ResolvedBelowIsBelow(m: map<Path, Entry>, dir: Path)
    requires dir.absolute
    ensures ResolvedBelow(m, dir) == Below(m, dir)
  {
    forall p | p in Below(m, dir) ensures Resolve(dir, p) == p {
    }
  }

  lemma DigestStep(m: map<Path, Entry>, ps: seq<Path>, i: nat, encode: string -> seq<Byte>)
    requires i < |ps|
    ensures PathBytes(ps[..i + 1], encode) == PathBytes(ps[..i], encode) + encode(ToString(ps[i]))
    ensures FileContents(m, ps[..i + 1]) ==
              FileContents(m, ps[..i]) + (if IsFile(m, ps[i]) then [m[ps[i]].content] else [])
  {
    assert ps[..i + 1][..i] == ps[..i];
  }

  /** The second loop of `digest(Directory, MessageDigest)`: for every path
      in order, a stream over it when it is a regular file, and its string to
      the digest. */
  method FeedPaths(m: map<Path, Entry>, paths: seq<Path>, md: MessageDigest, encode: string -> seq<Byte>)
    returns (contents: seq<seq<Byte>>)
    modifies md
    ensures contents == FileContents(m, paths)
    ensures md.fed == old(md.fed) + PathBytes(paths, encode)
  {
    contents := [];
    var i := 0;
    while i < |paths|
      invariant 0 <= i <= |paths|
      invariant contents == FileContents(m, paths[..i])
      invariant md.fed == old(md.fed) + PathBytes(paths[..i], encode)
    {
      var p := paths[i];
      DigestStep(m, paths, i, encode);
      if p in m && m[p].File? {
        contents := contents + [m[p].content];
      }
      md.Update(encode(ToString(p)));
      i := i + 1;
    }
    assert paths[..i] == paths;
  }

  /** `Directories.digest(Directory, MessageDigest)`: collects the paths of the
      directory, resolved against it, in a TreeSet; in that order feeds every
      path string to the digest and opens a stream on every regular file;
      then hashes the concatenation of those streams. */
  method Digest(m: map<Path, Entry>, dir: Path, md: MessageDigest, encode: string -> seq<Byte>) returns (hash: seq<Byte>)
    requires dir.absolute
    modifies md
    ensures hash == md.algorithm(old(md.fed) + DigestInput(m, dir, encode))
    ensures md.fed == []
  {
    ResolvedBelowIsBelow(m, dir);
    var paths := FromSet(ResolvedBelow(m, dir));
    DigestInputOfAnyOrder(m, dir, encode, paths);
    ghost var input := DigestInput(m, dir, encode);
    var contents := FeedPaths(m, paths, md, encode);
    assert old(md.fed) + input == md.fed + Flatten(contents);
    var stream := new InputStream(Flatten(contents));
    assert stream.data[stream.pos..] == Flatten(contents);
    hash := DigestStream(stream, md);
  }

  lemma {:induction false} FlattenAppend(a: seq<seq<Byte>>, b: seq<seq<Byte>>)
    ensures Flatten(a + b) == Flatten(a) + Flatten(b)
    decreases |b|
  {
    if b == [] {
      assert a + b == a;
    } else {
      var c := a + b;
      assert c[..|c| - 1] == a + b[..|b| - 1];
      assert c[|c| - 1] == b[|b| - 1];
      FlattenAppend(a, b[..|b| - 1]);
    }
  }

  lemma {:induction false} FileContentsAppend(m: map<Path, Entry>, a: seq<Path>, b: seq<Path>)
    ensures FileContents(m, a + b) == FileContents(m, a) + FileContents(m, b)
    decreases |b|
  {
    if b == [] {
      assert a + b == a;
    } else {
      var c := a + b;
      assert c[..|c| - 1] == a + b[..|b| - 1];
      assert c[|c| - 1] == b[|b| - 1];
      FileContentsAppend(m, a, b[..|b| - 1]);
    }
  }

  /** Two file systems that agree on the regular files among `ps` give the
      same contents. */
  lemma {:induction false} FileContentsFrame(m: map<Path, Entry>, n: map<Path, Entry>, ps: seq<Path>)
    requires forall i :: 0 <= i < |ps| ==> IsFile(m, ps[i]) == IsFile(n, ps[i])
    requires forall i :: 0 <= i < |ps| && IsFile(m, ps[i]) && IsFile(n, ps[i]) ==> m[ps[i]] == n[ps[i]]
    ensures FileContents(m, ps) == FileContents(n, ps)
    decreases |ps|
  {
    if ps != [] {
      FileContentsFrame(m, n, ps[..|ps| - 1]);
    }
  }

  /** The bytes of the file streams split around the `k`-th path. */
  lemma ContentsAround(m: map<Path, Entry>, ps: seq<Path>, k: nat)
    requires k < |ps|
    ensures Flatten(FileContents(m, ps)) ==
              Flatten(FileContents(m, ps[..k])) + (if IsFile(m, ps[k]) then m[ps[k]].content else [])
              + Flatten(FileContents(m, ps[k + 1..]))
  {
    var before, after := ps[..k], ps[k + 1..];
    assert ps == before + [ps[k]] + after;
    FileContentsAppend(m, before + [ps[k]], after);
    FileContentsAppend(m, before, [ps[k]]);
    assert [ps[k]][..0] == [];
    var middle := FileContents(m, [ps[k]]);
    FlattenAppend(FileContents(m, before) + middle, FileContents(m, after));
    FlattenAppend(FileContents(m, before), middle);
    if IsFile(m, ps[k]) {
      assert middle[..0] == [];
    }
  }

  lemma CancelAround(a: seq<Byte>, x: seq<Byte>, y: seq<Byte>, b: seq<Byte>)
    requires a + x + b == a + y + b
    ensures x == y
  {
    assert |x| == |y|;
    assert x == (a + x + b)[|a|..|a| + |x|];
    assert y == (a + y + b)[|a|..|a| + |y|];
  }

  /** Changing the contents of one regular file below the directory changes
      what is hashed. */
  lemma DigestSeesContent(m: map<Path, Entry>, dir: Path, encode: string -> seq<Byte>, f: Path, c: seq<Byte>)
    requires f in Below(m, dir) && m[f].File? && m[f].content != c
    ensures DigestInput(m[f := File(c)], dir, encode) != DigestInput(m, dir, encode)
  {
    var n := m[f := File(c)];
    assert Below(n, dir) == Below(m, dir);
    var ps := SortedOf(Below(m, dir));
    assert f in Elements(ps);
    var k :| 0 <= k < |ps| && ps[k] == f;
    forall i | 0 <= i < k ensures ps[..k][i] != f {
      SortedDistinct(ps, i, k);
    }
    var after := ps[k + 1..];
    forall i | 0 <= i < |after| ensures after[i] != f {
      assert after[i] == ps[k + 1 + i];
      SortedDistinct(ps, k + 1 + i, k);
    }
    FileContentsFrame(m, n, ps[..k]);
    FileContentsFrame(m, n, ps[k + 1..]);
    ContentsAround(m, ps, k);
    ContentsAround(n, ps, k);
    if DigestInput(n, dir, encode) == DigestInput(m, dir, encode) {
      var pb := PathBytes(ps, encode);
      var fa, fb := Flatten(FileContents(m, ps[..k])), Flatten(FileContents(m, ps[k + 1..]));
      var x, y := fa + c + fb, fa + m[f].content + fb;
      assert pb + x == pb + y;
      assert x == (pb + x)[|pb|..] && y == (pb + y)[|pb|..];
      CancelAround(fa, c, m[f].content, fb);
    }
  }

  /** An empty directory feeds nothing; a directory with an entry feeds at
      least that entry's path string, when the charset encodes every
      non-empty string to some bytes. */
  lemma DigestInputEmpty(m: map<Path, Entry>, dir: Path, encode: string -> seq<Byte>)
    requires dir.absolute
    requires forall s: string :: |s| > 0 ==> |encode(s)| > 0
    ensures DigestInput(m, dir, encode) == [] <==> Below(m, dir) == {}
  {
    var ps := SortedOf(Below(m, dir));
    ElementsEmpty(ps);
    if ps != [] {
      var last := ps[|ps| - 1];
      assert last in Elements(ps);
      assert |ToString(last)| > 0;
      assert |PathBytes(ps, encode)| >= |encode(ToString(last))|;
    }
  }

  // A directory "/d" holding the regular files "/d/a" and "/d/b".
  const ExampleDir: Path := Path(true, ["d"])
  const ExampleA: Path := Path(true, ["d", "a"])
  const ExampleB: Path := Path(true, ["d", "b"])

  function ExampleTree(first: seq<Byte>, second: seq<Byte>): map<Path, Entry>
  {
    map[ExampleDir := Dir, ExampleA := File(first), ExampleB := File(second)]
  }

  lemma ExampleWalk(first: seq<Byte>, second: seq<Byte>)
    ensures StrictlySorted([ExampleA, ExampleB])
    ensures Elements([ExampleA, ExampleB]) == Below(ExampleTree(first, second), ExampleDir)
  {
    assert NameLess("a", "b");
    assert ExampleA.names[1..] == ["a"] && ExampleB.names[1..] == ["b"];
    assert NamesLess(ExampleA.names, ExampleB.names);
    assert !StrictlyUnder(ExampleDir, ExampleDir);
  }

  lemma ExampleContents(first: seq<Byte>, second: seq<Byte>)
    ensures Flatten(FileContents(ExampleTree(first, second), [ExampleA, ExampleB])) == first + second
  {
    var m := ExampleTree(first, second);
    assert [ExampleA, ExampleB][..1] == [ExampleA] && [ExampleA][..0] == [];
    assert FileContents(m, [ExampleA]) == [first];
    assert FileContents(m, [ExampleA, ExampleB]) == [first, second];
    assert [first, second][..1] == [first] && [first][..0] == [];
    assert Flatten([first]) == [] + first == first;
  }

  /** The bytes hashed for "/d" are its two path strings followed by the two
      contents, whatever they are. */
  lemma ExampleInput(first: seq<Byte>, second: seq<Byte>, encode: string -> seq<Byte>)
    ensures DigestInput(ExampleTree(first, second), ExampleDir, encode) ==
              PathBytes([ExampleA, ExampleB], encode) + first + second
  {
    ExampleWalk(first, second);
    DigestInputOfAnyOrder(ExampleTree(first, second), ExampleDir, encode, [ExampleA, ExampleB]);
    ExampleContents(first, second);
  }

  /** The contents of consecutive files are concatenated with nothing between
      them, so moving bytes from the end of one file to the start of the next
      leaves the hashed bytes as they were. */
  lemma DigestIgnoresFileBoundaries(encode: string -> seq<Byte>)
    ensures ExampleTree([1, 2], []) != ExampleTree([1], [2])
    ensures DigestInput(ExampleTree([1, 2], []), ExampleDir, encode) == DigestInput(ExampleTree([1], [2]), ExampleDir, encode)
  {
    assert ExampleTree([1, 2], [])[ExampleA] != ExampleTree([1], [2])[ExampleA];
    ExampleInput([1, 2], [], encode);
    ExampleInput([1], [2], encode);
    assert [1, 2] + [] == [1] + [2];
  }
}
