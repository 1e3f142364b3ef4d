/** The set of directories to back up, as a set of paths relative to the
    configuration's root, and what `addDirectory` and `removeDirectory` do to it.
    The class `BackupConfigurations.BackupConfiguration` is proved to act on
    its TreeSet as `Add` and `Remove` say. */
module BackupScope {
  import opened Paths

  /** Some entry of `s` is `p` or a directory above it. */
  predicate Covered(s: set<Path>, p: Path)
  {
    exists d :: d in s && StartsWith(p, d)
  }

  /** The minimal-covering-set invariant: no entry lies below another. */
  predicate Minimal(s: set<Path>)
  {
    forall a, b :: a in s && b in s && a != b ==> !StartsWith(a, b)
  }

  /** The entries that do not lie below `rel`. */
  function Outside(s: set<Path>, rel: Path): set<Path>
  {
    set d | d in s && !StartsWith(d, rel)
  }

  /** A valid candidate `rel`: nothing changes when an entry already covers it;
      otherwise the entries below it give way to it. */
  function Add(s: set<Path>, rel: Path): set<Path>
  {
    if Covered(s, rel) then s else Outside(s, rel) + {rel}
  }

  /** `removeDirectory`: exactly the one entry goes. */
  function Remove(s: set<Path>, p: Path): set<Path>
  {
    s - {p}
  }

  /** Adding keeps the invariant. */
  lemma AddPreservesMinimal(s: set<Path>, rel: Path)
    requires Minimal(s)
    ensures Minimal(Add(s, rel))
  {
    if !Covered(s, rel) {
      var t := Add(s, rel);
      forall a, b | a in t && b in t && a != b ensures !StartsWith(a, b) {
        if a == rel {
          assert b in s && !StartsWith(a, b);
        } else if b == rel {
          assert !StartsWith(a, b);
        }
      }
    }
  }

  /** After a successful add, the paths the set covers are exactly those it
      covered before together with `rel` and everything below it. */
  lemma {:induction false} AddCovers(s: set<Path>, rel: Path, p: Path)
    ensures Covered(Add(s, rel), p) <==> Covered(s, p) || StartsWith(p, rel)
  {
    if Covered(s, rel) {
      if StartsWith(p, rel) {
        var d :| d in s && StartsWith(rel, d);
        StartsWithTransitive(p, rel, d);
        assert Covered(s, p);
      }
    } else {
      var t := Add(s, rel);
      if Covered(s, p) {
        var d :| d in s && StartsWith(p, d);
        if StartsWith(d, rel) {
          StartsWithTransitive(p, d, rel);
          assert rel in t;
        } else {
          assert d in t;
        }
        assert Covered(t, p);
      }
      if StartsWith(p, rel) {
        assert rel in t;
      }
      if Covered(t, p) {
        var d :| d in t && StartsWith(p, d);
        if d != rel {
          assert d in s;
        }
      }
    }
  }

  /** Every entry that was there before is still covered afterwards. */
  lemma AddKeepsCoverage(s: set<Path>, rel: Path)
    ensures forall d :: d in s ==> Covered(Add(s, rel), d)
    ensures Covered(Add(s, rel), rel)
  {
    forall d | d in s ensures Covered(Add(s, rel), d) {
      assert StartsWith(d, d);
      AddCovers(s, rel, d);
    }
    assert StartsWith(rel, rel);
    AddCovers(s, rel, rel);
  }

  /** When an entry already covers `rel` (`rel` itself included), adding it
      changes nothing; so adding the same directory twice is the same as
      adding it once. */
  lemma AddCoveredUnchanged(s: set<Path>, rel: Path)
    requires Covered(s, rel)
    ensures Add(s, rel) == s
  {
  }

  lemma AddIdempotent(s: set<Path>, rel: Path)
    ensures Add(Add(s, rel), rel) == Add(s, rel)
  {
    AddKeepsCoverage(s, rel);
  }

  /** When nothing covers `rel`, the result is exactly the entries not below
      `rel`, and `rel`; nothing else is added or removed. */
  lemma AddUncovered(s: set<Path>, rel: Path)
    requires !Covered(s, rel)
    ensures forall d :: d in Add(s, rel) <==> d == rel || (d in s && !StartsWith(d, rel))
    ensures rel !in s
  {
    if rel in s {
      assert StartsWith(rel, rel);
    }
  }

  /** Removing an entry does not bring back the directories it once absorbed:
      after adding `rel` over the entries below it and removing `rel` again,
      none of them is in the set. */
  lemma RemoveDoesNotRestore(s: set<Path>, rel: Path, d: Path)
    requires !Covered(s, rel) && d in s && StrictlyUnder(d, rel)
    ensures d !in Remove(Add(s, rel), rel)
    ensures Remove(Add(s, rel), rel) == Outside(s, rel)
  {
    AddUncovered(s, rel);
  }

  /** Removing keeps the invariant. */
  lemma RemovePreservesMinimal(s: set<Path>, p: Path)
    requires Minimal(s)
    ensures Minimal(Remove(s, p)) && Remove(s, p) <= s && p !in Remove(s, p)
  {
  }

  /** The scenario of adding `src`, then `src/falgout` (absorbed), then `bin`,
      then removing `src`. */
  lemma Scenario()
    ensures
      var src := Path(false, ["src"]);
      var falgout := Path(false, ["src", "falgout"]);
      var bin := Path(false, ["bin"]);
      && Add({}, src) == {src}
      && Add({src}, falgout) == {src}
      && Add({src}, bin) == {src, bin}
      && Remove({src, bin}, src) == {bin}
      && Add({falgout}, src) == {src}
  {
    var src := Path(false, ["src"]);
    var falgout := Path(false, ["src", "falgout"]);
    var bin := Path(false, ["bin"]);
    assert !Covered({}, src);
    assert StartsWith(falgout, src);
    assert "src"[0] != "bin"[0];
    assert bin.names[0] != src.names[0];
    assert !StartsWith(bin, src) && !StartsWith(src, bin);
    assert !Covered({src}, bin);
    assert Outside({src}, bin) == {src};
    assert !StartsWith(src, falgout);
    assert !Covered({falgout}, src);
    assert Outside({falgout}, src) == {};
  }

  // ---------------------------------------------------------------------
  // The code as written, with `java.nio.file.Path.startsWith`.

  /** `UnixPath.startsWith`: as `StartsWith`, except that the empty path "",
      which Java counts as a path of one empty name, starts no path but itself. */
  predicate JavaStartsWith(p: Path, q: Path)
  {
    StartsWith(p, q) && (q == Empty ==> p == Empty)
  }

  predicate JavaCovered(s: set<Path>, p: Path)
  {
    exists d :: d in s && JavaStartsWith(p, d)
  }

  /** `addDirectory` with `Path.startsWith` as written. */
  function AddAsWritten(s: set<Path>, rel: Path): set<Path>
  {
    if JavaCovered(s, rel) then s else (set d | d in s && !JavaStartsWith(d, rel)) + {rel}
  }

  /** The two agree except when the root itself, the empty relative path that
      `root.relativize(root)` yields, is involved. */
  lemma AsWrittenAgrees(s: set<Path>, rel: Path)
    requires Empty !in s && rel != Empty
    ensures AddAsWritten(s, rel) == Add(s, rel)
  {
    assert forall p, q :: q != Empty ==> (JavaStartsWith(p, q) <==> StartsWith(p, q));
    assert JavaCovered(s, rel) <==> Covered(s, rel);
  }

  /** Adding the root and then a directory below it keeps both, so the set is
      no longer minimal: "src" does not start with "" in Java. */
  lemma AsWrittenRootThenSubdirectory()
    ensures
      var src := Path(false, ["src"]);
      && AddAsWritten(AddAsWritten({}, Empty), src) == {Empty, src}
      && !Minimal(AddAsWritten(AddAsWritten({}, Empty), src))
  {
    var src := Path(false, ["src"]);
    assert !JavaCovered({}, Empty);
    assert AddAsWritten({}, Empty) == {Empty};
    assert !JavaStartsWith(src, Empty);
    assert !JavaCovered({Empty}, src);
    assert !JavaStartsWith(Empty, src);
    assert (set d | d in {Empty} && !JavaStartsWith(d, src)) == {Empty};
    assert StartsWith(src, Empty);
  }

  /** With the component-wise `StartsWith`, the root absorbs the directory. */
  lemma RootThenSubdirectory()
    ensures
      var src := Path(false, ["src"]);
      && Add(Add({}, Empty), src) == {Empty}
      && Add(Add({}, src), Empty) == {Empty}
  {
    var src := Path(false, ["src"]);
    assert !Covered({}, Empty);
    assert Add({}, Empty) == {Empty};
    assert StartsWith(src, Empty);
    assert !Covered({}, src);
    assert Add({}, src) == {src};
    assert !StartsWith(Empty, src);
    assert !Covered({src}, Empty);
    assert Outside({src}, Empty) == {};
  }
}
