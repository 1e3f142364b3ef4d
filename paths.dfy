/** Paths of java.nio.file on a Unix file system, as values: an optional root
    component ("/") and a sequence of name elements.  Normalisation of "." and
    ".." is not part of the model: every operation here is syntactic. */
module Paths {

  type Name = string

  /** `Path(true, ["home", "u"])` is "/home/u", `Path(false, ["src"])` is "src"
      and `Path(false, [])` is the empty path "". */
  datatype Path = Path(absolute: bool, names: seq<Name>)

  const Empty := Path(false, [])

  /** Component-wise prefix: `p` starts with `q` when both have the same root
      component and the names of `q` are the first names of `p`. */
  predicate StartsWith(p: Path, q: Path)
  {
    p.absolute == q.absolute && q.names <= p.names
  }

  /** `p` lies strictly below `q`. */
  predicate StrictlyUnder(p: Path, q: Path)
  {
    StartsWith(p, q) && p != q
  }

  /** `Path.resolve`: an absolute argument is returned as it is, a relative one
      is appended to the base. */
  function Resolve(base: Path, p: Path): (r: Path)
    ensures !p.absolute ==> StartsWith(r, base) && |r.names| == |base.names| + |p.names|
    ensures p.absolute ==> r == p
  {
    if p.absolute then p else Path(base.absolute, base.names + p.names)
  }

  /** Length of the longest common prefix of two name sequences. */
  function CommonLength(a: seq<Name>, b: seq<Name>): (k: nat)
    ensures k <= |a| && k <= |b| && a[..k] == b[..k]
    ensures k < |a| && k < |b| ==> a[k] != b[k]
  {
    if |a| == 0 || |b| == 0 || a[0] != b[0] then 0
    else
      var k := CommonLength(a[1..], b[1..]);
      assert a[..k + 1] == [a[0]] + a[1..][..k];
      assert b[..k + 1] == [b[0]] + b[1..][..k];
      k + 1
  }

  function Ups(n: nat): (r: seq<Name>)
    ensures |r| == n && forall i :: 0 <= i < n ==> r[i] == ".."
  {
    if n == 0 then [] else Ups(n - 1) + [".."]
  }

  /** `Path.relativize` for two paths of the same kind: climb with ".." out of
      the part of `base` that `p` does not share, then descend into the rest
      of `p`.  Equal paths give the empty path. */
  function Relativize(base: Path, p: Path): (r: Path)
    requires base.absolute == p.absolute
    ensures !r.absolute
  {
    var k := CommonLength(base.names, p.names);
    Path(false, Ups(|base.names| - k) + p.names[k..])
  }

  /** The relative path of a path below `base` is the part after `base`, and
      resolving it against `base` gives the path back. */
  lemma RelativizeUnder(base: Path, p: Path)
    requires StartsWith(p, base)
    ensures Relativize(base, p) == Path(false, p.names[|base.names|..])
    ensures Resolve(base, Relativize(base, p)) == p
  {
    CommonLengthOfPrefix(base.names, p.names);
    assert Ups(0) + p.names[|base.names|..] == p.names[|base.names|..];
    assert base.names + p.names[|base.names|..] == p.names;
  }

  /** A name sequence shares all of itself with a sequence it is a prefix of. */
  lemma {:induction false} CommonLengthOfPrefix(a: seq<Name>, b: seq<Name>)
    requires a <= b
    ensures CommonLength(a, b) == |a|
  {
    if |a| > 0 {
      assert a[1..] <= b[1..];
      CommonLengthOfPrefix(a[1..], b[1..]);
    }
  }

  /** Relativizing a resolved relative path gives that path back. */
  lemma RelativizeResolve(base: Path, q: Path)
    requires !q.absolute
    ensures Relativize(base, Resolve(base, q)) == q
  {
    var p := Resolve(base, q);
    RelativizeUnder(base, p);
    assert p.names[|base.names|..] == q.names;
  }

  lemma StartsWithTransitive(a: Path, b: Path, c: Path)
    requires StartsWith(a, b) && StartsWith(b, c)
    ensures StartsWith(a, c)
  {
  }

  lemma StartsWithAntisymmetric(a: Path, b: Path)
    requires StartsWith(a, b) && StartsWith(b, a)
    ensures a == b
  {
  }

  /** Two prefixes of one path are ordered by StartsWith. */
  lemma PrefixesComparable(p: Path, a: Path, b: Path)
    requires StartsWith(p, a) && StartsWith(p, b)
    ensures StartsWith(a, b) || StartsWith(b, a)
  {
    if |a.names| <= |b.names| {
      assert a.names == p.names[..|a.names|] == b.names[..|a.names|];
    } else {
      assert b.names == p.names[..|b.names|] == a.names[..|b.names|];
    }
  }

  /** The parent of a path with at least one name. */
  function Parent(p: Path): (r: Path)
    requires |p.names| > 0
    ensures StrictlyUnder(p, r) && |r.names| == |p.names| - 1
  {
    Path(p.absolute, p.names[..|p.names| - 1])
  }

  /** Whatever lies strictly below `q` lies below the parent of that path. */
  lemma UnderParent(p: Path, q: Path)
    requires StrictlyUnder(p, q)
    ensures StartsWith(Parent(p), q)
  {
  }

  // ---------------------------------------------------------------------
  // The total order of TreeSet<Path>.

  /** Lexicographic order on the characters of two names. */
  predicate NameLess(a: Name, b: Name)
  {
    if |a| == 0 then |b| > 0
    else if |b| == 0 then false
    else if a[0] != b[0] then a[0] < b[0]
    else NameLess(a[1..], b[1..])
  }

  /** Lexicographic order on sequences of names; a proper prefix comes first. */
  predicate NamesLess(a: seq<Name>, b: seq<Name>)
  {
    if |a| == 0 then |b| > 0
    else if |b| == 0 then false
    else if a[0] != b[0] then NameLess(a[0], b[0])
    else NamesLess(a[1..], b[1..])
  }

  /** The order of paths: by their names; a relative path before the absolute
      path with the same names. */
  predicate Less(p: Path, q: Path)
  {
    NamesLess(p.names, q.names) || (p.names == q.names && !p.absolute && q.absolute)
  }

  lemma {:induction false} NameLessIrreflexive(a: Name)
    ensures !NameLess(a, a)
  {
    if |a| > 0 { NameLessIrreflexive(a[1..]); }
  }

  lemma {:induction false} NameLessTransitive(a: Name, b: Name, c: Name)
    requires NameLess(a, b) && NameLess(b, c)
    ensures NameLess(a, c)
  {
    if |a| > 0 && |b| > 0 && |c| > 0 && a[0] == b[0] && b[0] == c[0] {
      NameLessTransitive(a[1..], b[1..], c[1..]);
    }
  }

  lemma {:induction false} NameLessTotal(a: Name, b: Name)
    requires a != b
    ensures NameLess(a, b) || NameLess(b, a)
  {
    if |a| > 0 && |b| > 0 && a[0] == b[0] {
      assert a == [a[0]] + a[1..] && b == [b[0]] + b[1..];
      NameLessTotal(a[1..], b[1..]);
    }
  }

  lemma {:induction false} NameLessAsymmetric(a: Name, b: Name)
    requires NameLess(a, b)
    ensures !NameLess(b, a)
  {
    if !(|a| > 0 && |b| > 0 && a[0] == b[0]) {
    } else {
      NameLessAsymmetric(a[1..], b[1..]);
    }
  }

  lemma {:induction false} NamesLessIrreflexive(a: seq<Name>)
    ensures !NamesLess(a, a)
  {
    if |a| > 0 { NamesLessIrreflexive(a[1..]); }
  }

  lemma {:induction false} NamesLessTransitive(a: seq<Name>, b: seq<Name>, c: seq<Name>)
    requires NamesLess(a, b) && NamesLess(b, c)
    ensures NamesLess(a, c)
  {
    if |a| == 0 || |b| == 0 || |c| == 0 {
    } else if a[0] == b[0] && b[0] == c[0] {
      NamesLessTransitive(a[1..], b[1..], c[1..]);
    } else if a[0] != b[0] && b[0] != c[0] {
      NameLessTransitive(a[0], b[0], c[0]);
      if a[0] == c[0] {
        NameLessAsymmetric(a[0], b[0]);
      }
    }
  }

  lemma {:induction false} NamesLessTotal(a: seq<Name>, b: seq<Name>)
    requires a != b
    ensures NamesLess(a, b) || NamesLess(b, a)
  {
    if |a| > 0 && |b| > 0 {
      if a[0] == b[0] {
        assert a == [a[0]] + a[1..] && b == [b[0]] + b[1..];
        NamesLessTotal(a[1..], b[1..]);
      } else {
        NameLessTotal(a[0], b[0]);
      }
    }
  }

  /** A proper prefix comes before every longer path. */
  lemma {:induction false} PrefixNamesLess(a: seq<Name>, b: seq<Name>)
    requires a < b
    ensures NamesLess(a, b)
  {
    if |a| > 0 {
      assert a[1..] < b[1..];
      PrefixNamesLess(a[1..], b[1..]);
    }
  }

  lemma LessIrreflexive(p: Path)
    ensures !Less(p, p)
  {
    NamesLessIrreflexive(p.names);
  }

  lemma LessTransitive(p: Path, q: Path, r: Path)
    requires Less(p, q) && Less(q, r)
    ensures Less(p, r)
  {
    if NamesLess(p.names, q.names) && NamesLess(q.names, r.names) {
      NamesLessTransitive(p.names, q.names, r.names);
    }
  }

  lemma LessTotal(p: Path, q: Path)
    requires p != q
    ensures Less(p, q) || Less(q, p)
  {
    if p.names != q.names {
      NamesLessTotal(p.names, q.names);
    }
  }

  lemma LessAsymmetric(p: Path, q: Path)
    requires Less(p, q)
    ensures !Less(q, p)
  {
    if Less(q, p) {
      LessTransitive(p, q, p);
      LessIrreflexive(p);
    }
  }

  /** A path comes before every path strictly below it, so a sorted listing of
      a tree is a depth-first pre-order. */
  lemma StrictlyUnderLess(p: Path, q: Path)
    requires StrictlyUnder(p, q)
    ensures Less(q, p)
  {
    PrefixNamesLess(q.names, p.names);
  }

  // ---------------------------------------------------------------------
  // The string form of a path (`toString`) and `Paths.get`.

  const Separator: char := '/'
  const Nul: char := '\0'

  /** The names joined by "/". */
  function Join(names: seq<Name>): string
  {
    if |names| == 0 then ""
    else if |names| == 1 then names[0]
    else names[0] + [Separator] + Join(names[1..])
  }

  /** `Path.toString`. */
  function ToString(p: Path): string
  {
    (if p.absolute then [Separator] else []) + Join(p.names)
  }

  /** Splits a string at every "/" and drops the empty pieces, which is what
      `Paths.get` does with repeated and trailing slashes. */
  function Split(s: string): (names: seq<Name>)
    ensures forall i :: 0 <= i < |names| ==> |names[i]| > 0 && Separator !in names[i]
  {
    SplitFrom(s, "")
  }

  /** Split, where `cur` holds the characters of the name being read. */
  function SplitFrom(s: string, cur: Name): (names: seq<Name>)
    requires Separator !in cur
    ensures forall i :: 0 <= i < |names| ==> |names[i]| > 0 && Separator !in names[i]
  {
    if |s| == 0 then (if |cur| == 0 then [] else [cur])
    else if s[0] == Separator then (if |cur| == 0 then [] else [cur]) + SplitFrom(s[1..], "")
    else SplitFrom(s[1..], cur + [s[0]])
  }

  datatype ParseError = InvalidPath(input: string)

  datatype ParseResult = Parsed(path: Path) | Invalid(error: ParseError)

  /** `Paths.get` of one string: a NUL character is refused
      (InvalidPathException), a leading "/" makes the path absolute. */
  function Parse(s: string): (r: ParseResult)
    ensures r.Invalid? <==> Nul in s
  {
    if Nul in s then Invalid(InvalidPath(s))
    else Parsed(Path(|s| > 0 && s[0] == Separator, Split(s)))
  }

  /** A name that `toString` renders and `Paths.get` reads back unchanged. */
  predicate PrintableName(n: Name)
  {
    |n| > 0 && Separator !in n && Nul !in n
  }

  predicate Printable(p: Path)
  {
    forall i :: 0 <= i < |p.names| ==> PrintableName(p.names[i])
  }

  lemma {:induction false} SplitFromName(n: Name, cur: Name, rest: string)
    requires Separator !in cur && Separator !in n
    requires rest == [] || rest[0] == Separator
    ensures SplitFrom(n + rest, cur) == SplitFrom(rest, cur + n)
  {
    if |n| > 0 {
      assert (n + rest)[1..] == n[1..] + rest;
      SplitFromName(n[1..], cur + [n[0]], rest);
      assert cur + [n[0]] + n[1..] == cur + n;
    } else {
      assert n + rest == rest && cur + n == cur;
    }
  }

  lemma {:induction false} SplitJoin(names: seq<Name>)
    requires forall i :: 0 <= i < |names| ==> PrintableName(names[i])
    ensures Split(Join(names)) == names
  {
    if |names| == 1 {
      SplitFromName(names[0], "", "");
      assert names[0] + "" == names[0] && "" + names[0] == names[0];
      assert SplitFrom("", names[0]) == [names[0]];
    } else if |names| > 1 {
      var rest := [Separator] + Join(names[1..]);
      assert Join(names) == names[0] + rest;
      SplitFromName(names[0], "", rest);
      assert "" + names[0] == names[0];
      assert SplitFrom(rest, names[0]) == [names[0]] + SplitFrom(rest[1..], "");
      assert rest[1..] == Join(names[1..]);
      SplitJoin(names[1..]);
      assert names == [names[0]] + names[1..];
    }
  }

  lemma JoinNoNul(names: seq<Name>)
    requires forall i :: 0 <= i < |names| ==> PrintableName(names[i])
    ensures Nul !in Join(names)
  {
    if |names| > 1 {
      JoinNoNul(names[1..]);
    }
  }

  lemma JoinStart(names: seq<Name>)
    requires forall i :: 0 <= i < |names| ==> PrintableName(names[i])
    ensures |Join(names)| > 0 ==> Join(names)[0] != Separator
  {
    if |names| > 1 {
      assert Join(names) == names[0] + [Separator] + Join(names[1..]);
      assert Join(names)[0] == names[0][0];
    }
  }

  /** `Paths.get(p.toString())` gives `p` back for every path whose names are
      printable; this is what lets a configuration file be read back. */
  lemma ParseToString(p: Path)
    requires Printable(p)
    ensures Parse(ToString(p)) == Parsed(p)
  {
    var s := ToString(p);
    JoinNoNul(p.names);
    JoinStart(p.names);
    SplitJoin(p.names);
    if p.absolute {
      assert s == [Separator] + Join(p.names);
      SplitFromName("", "", s);
      assert Split(s) == SplitFrom(s[1..], "");
      assert s[1..] == Join(p.names);
    } else {
      assert s == Join(p.names);
    }
  }
}
