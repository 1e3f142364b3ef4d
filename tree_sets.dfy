/** `java.util.TreeSet<Path>` as a strictly increasing sequence of paths in the
    order `Paths.Less`.  The set it stands for is `Elements`. */
module TreeSets {
  import opened Paths

  predicate StrictlySorted(s: seq<Path>)
  {
    forall i, j :: 0 <= i < j < |s| ==> Less(s[i], s[j])
  }

  function Elements(s: seq<Path>): set<Path>
  {
    set x | x in s
  }

  /** A strictly sorted sequence holds no element twice. */
  lemma SortedDistinct(s: seq<Path>, i: nat, j: nat)
    requires StrictlySorted(s) && i < |s| && j < |s| && i != j
    ensures s[i] != s[j]
  {
    if i < j { LessIrreflexive(s[i]); } else { LessIrreflexive(s[j]); }
  }

  /** In a strictly sorted sequence, a smaller element stands at a smaller index. */
  lemma SortedIndexOrder(s: seq<Path>, i: nat, j: nat)
    requires StrictlySorted(s) && i < |s| && j < |s| && Less(s[i], s[j])
    ensures i < j
  {
    if j < i {
      LessAsymmetric(s[j], s[i]);
    } else if i == j {
      LessIrreflexive(s[i]);
    }
  }

  lemma SortedCons(x: Path, s: seq<Path>)
    requires StrictlySorted(s)
    requires forall y :: y in s ==> Less(x, y)
    ensures StrictlySorted([x] + s)
  {
    var t := [x] + s;
    forall i, j | 0 <= i < j < |t| ensures Less(t[i], t[j]) {
      if i == 0 { assert t[j] == s[j - 1]; }
      else { assert t[i] == s[i - 1] && t[j] == s[j - 1]; }
    }
  }

  /** A TreeSet holds as many paths as its sequence has elements. */
  lemma {:induction false} SortedCardinality(s: seq<Path>)
    requires StrictlySorted(s)
    ensures |Elements(s)| == |s|
  {
    if s != [] {
      var t := s[1..];
      assert StrictlySorted(t);
      SortedCardinality(t);
      forall i | 0 <= i < |t| ensures t[i] != s[0] {
        SortedDistinct(s, 0, i + 1);
      }
      assert Elements(s) == Elements(t) + {s[0]};
    }
  }

  /** Taking one element out of a sorted sequence, as `Iterator.remove` does,
      leaves it sorted. */
  lemma RemoveAtSorted(s: seq<Path>, i: nat)
    requires StrictlySorted(s) && i < |s|
    ensures StrictlySorted(s[..i] + s[i + 1..])
  {
    var t := s[..i] + s[i + 1..];
    forall a, b | 0 <= a < b < |t| ensures Less(t[a], t[b]) {
      var a', b' := if a < i then a else a + 1, if b < i then b else b + 1;
      assert t[a] == s[a'] && t[b] == s[b'];
    }
  }

  lemma ElementsCons(x: Path, s: seq<Path>)
    ensures Elements([x] + s) == {x} + Elements(s)
  {
  }

  /** Below the first element of a sorted sequence means below all of it. */
  lemma BelowFirst(x: Path, s: seq<Path>)
    requires StrictlySorted(s) && s != [] && Less(x, s[0])
    ensures forall y :: y in s ==> Less(x, y)
  {
    forall y | y in s ensures Less(x, y) {
      var k :| 0 <= k < |s| && s[k] == y;
      if k > 0 { LessTransitive(x, s[0], y); }
    }
  }

  /** When `x` comes after the first element, the first element stays below
      everything the insertion into the rest yields. */
  lemma FirstBelowInserted(s: seq<Path>, x: Path, t: seq<Path>)
    requires StrictlySorted(s) && s != [] && x != s[0] && !Less(x, s[0])
    requires Elements(t) == Elements(s[1..]) + {x}
    ensures forall y :: y in t ==> Less(s[0], y)
  {
    forall y | y in t ensures Less(s[0], y) {
      if y == x {
        LessTotal(x, s[0]);
      } else {
        assert y in Elements(t) && y in Elements(s[1..]);
        var k :| 0 <= k < |s[1..]| && s[1..][k] == y;
        assert s[k + 1] == y;
      }
    }
  }

  /** `TreeSet.add`: the element goes to its place in the order, and is not
      added a second time. */
  function Insert(s: seq<Path>, x: Path): (r: seq<Path>)
    requires StrictlySorted(s)
    ensures StrictlySorted(r)
    ensures Elements(r) == Elements(s) + {x}
  {
    if s == [] then [x]
    else if x == s[0] then s
    else if Less(x, s[0]) then
      BelowFirst(x, s);
      SortedCons(x, s);
      ElementsCons(x, s);
      [x] + s
    else
      var t := Insert(s[1..], x);
      FirstBelowInserted(s, x, t);
      SortedCons(s[0], t);
      ElementsCons(s[0], t);
      ElementsCons(s[0], s[1..]);
      assert s == [s[0]] + s[1..];
      [s[0]] + t
  }

  /** The first element of a sorted sequence is below everything after it. */
  lemma FirstBelowRest(s: seq<Path>, t: seq<Path>)
    requires StrictlySorted(s) && s != [] && Elements(t) <= Elements(s[1..])
    ensures forall y :: y in t ==> Less(s[0], y)
    ensures s[0] !in s[1..]
  {
    forall y | y in t ensures Less(s[0], y) {
      assert y in Elements(s[1..]);
      var k :| 0 <= k < |s[1..]| && s[1..][k] == y;
      assert s[k + 1] == y;
    }
    if s[0] in s[1..] {
      var k :| 0 <= k < |s[1..]| && s[1..][k] == s[0];
      SortedDistinct(s, 0, k + 1);
    }
  }

  /** `TreeSet.remove`. */
  function Remove(s: seq<Path>, x: Path): (r: seq<Path>)
    requires StrictlySorted(s)
    ensures StrictlySorted(r)
    ensures Elements(r) == Elements(s) - {x}
  {
    if s == [] then []
    else
      var t := Remove(s[1..], x);
      FirstBelowRest(s, t);
      ElementsCons(s[0], s[1..]);
      assert s == [s[0]] + s[1..];
      if s[0] == x then
        t
      else
        SortedCons(s[0], t);
        ElementsCons(s[0], t);
        [s[0]] + t
  }

  /** The elements from `i` on are the one at `i` and those after it. */
  lemma ElementsSuffix(s: seq<Path>, i: nat)
    requires i < |s|
    ensures Elements(s[i..]) == Elements(s[i + 1..]) + {s[i]}
  {
    assert s[i..] == [s[i]] + s[i + 1..];
  }

  lemma ElementsEmpty(s: seq<Path>)
    ensures Elements(s) == {} <==> s == []
  {
    if s != [] { assert s[0] in Elements(s); }
  }

  /** The least element of a strictly sorted sequence is its first. */
  lemma SortedHeadLeast(s: seq<Path>, y: Path)
    requires StrictlySorted(s) && |s| > 0 && y in s && y != s[0]
    ensures Less(s[0], y)
  {
    var k :| 0 <= k < |s| && s[k] == y;
  }

  /** A TreeSet is determined by its elements: two strictly sorted sequences
      with the same elements are the same sequence.  So iterating over a
      TreeSet visits its elements in an order that depends only on the set,
      not on the order in which they were added. */
  lemma {:induction false} SortedUnique(a: seq<Path>, b: seq<Path>)
    requires StrictlySorted(a) && StrictlySorted(b)
    requires Elements(a) == Elements(b)
    ensures a == b
  {
    ElementsEmpty(a);
    ElementsEmpty(b);
    if a != [] && b != [] {
      assert a[0] in Elements(b) && b[0] in Elements(a);
      if a[0] != b[0] {
        SortedHeadLeast(a, b[0]);
        SortedHeadLeast(b, a[0]);
        LessAsymmetric(a[0], b[0]);
      }
      assert a == [a[0]] + a[1..] && b == [b[0]] + b[1..];
      assert a[0] !in a[1..] by {
        if a[0] in a[1..] {
          var k :| 0 <= k < |a[1..]| && a[1..][k] == a[0];
          SortedDistinct(a, 0, k + 1);
        }
      }
      assert b[0] !in b[1..] by {
        if b[0] in b[1..] {
          var k :| 0 <= k < |b[1..]| && b[1..][k] == b[0];
          SortedDistinct(b, 0, k + 1);
        }
      }
      assert Elements(a[1..]) == Elements(a) - {a[0]};
      assert Elements(b[1..]) == Elements(b) - {b[0]};
      SortedUnique(a[1..], b[1..]);
    }
  }

  lemma {:induction false} SortedExists(s: set<Path>)
    ensures exists r :: StrictlySorted(r) && Elements(r) == s
    decreases |s|
  {
    if s == {} {
      assert StrictlySorted([]) && Elements([]) == s;
    } else {
      var x :| x in s;
      SortedExists(s - {x});
      var r :| StrictlySorted(r) && Elements(r) == s - {x};
      var t := Insert(r, x);
      assert Elements(t) == s;
    }
  }

  /** The iteration order of a TreeSet holding exactly the paths `s`. */
  ghost function SortedOf(s: set<Path>): (r: seq<Path>)
    ensures StrictlySorted(r) && Elements(r) == s
  {
    SortedExists(s);
    var r :| StrictlySorted(r) && Elements(r) == s; r
  }

  /** Filling a TreeSet from a collection, one `add` per element taken in any
      order, yields the iteration order of the set of the elements. */
  method FromSet(s: set<Path>) returns (r: seq<Path>)
    ensures r == SortedOf(s)
  {
    r := [];
    var rest := s;
    while rest != {}
      invariant rest <= s
      invariant StrictlySorted(r) && Elements(r) == s - rest
      decreases |rest|
    {
      var x :| x in rest;
      r := Insert(r, x);
      rest := rest - {x};
    }
    SortedUnique(r, SortedOf(s));
  }
}
