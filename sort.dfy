/** Dependency ordering of bundles: a depth-first topological sort keyed by
    bundle name, with a mark per name (unvisited, temporary while the bundle's
    dependencies are being visited, permanent once it is in the result). */
module Sort {
  import opened BundleModel

  const Temporary := 1
  const Permanent := 2

  /** The mark of a name; a name without an entry reads as 0 (unvisited),
      as a missing key of a Go map does. */
  function Mark(marks: map<string, int>, name: string): int
  {
    if name in marks then marks[name] else 0
  }

  /** What a traversal step leaves behind: whether it succeeded, the marks and
      the sorted list. */
  datatype State = State(ok: bool, marks: map<string, int>, sorted: seq<Bundle>)

  /** The names of a list of bundles, position by position. */
  function Names(s: seq<Bundle>): (r: seq<string>)
    ensures |r| == |s|
    ensures forall i :: 0 <= i < |s| ==> r[i] == s[i].name
  {
    seq(|s|, i requires 0 <= i < |s| => s[i].name)
  }

  // ---------------------------------------------------------------------------
  // The traversal as functions on the state it threads through
  // ---------------------------------------------------------------------------

  /** The effect of visiting b from marks and sorted. */
  function VisitSpec(b: Bundle, marks: map<string, int>, sorted: seq<Bundle>): (r: State)
    decreases b, 1, 0
    ensures sorted <= r.sorted
  {
    if Mark(marks, b.name) == Permanent then State(true, marks, sorted)
    else if Mark(marks, b.name) == Temporary then State(false, marks, sorted)
    else if |b.bundles| == 0 then State(true, marks[b.name := Permanent], sorted + [b])
    else
      var r := VisitDepsSpec(b, |b.bundles|, marks[b.name := Temporary], sorted);
      if !r.ok then r
      else State(true, r.marks[b.name := Permanent], r.sorted + [b])
  }

  /** The effect of the loop over the first k dependencies of b, which stops at
      the first dependency whose visit fails. */
  function VisitDepsSpec(b: Bundle, k: nat, marks: map<string, int>, sorted: seq<Bundle>): (r: State)
    requires k <= |b.bundles|
    decreases b, 0, k
    ensures sorted <= r.sorted
  {
    if k == 0 then State(true, marks, sorted)
    else
      var r := VisitDepsSpec(b, k - 1, marks, sorted);
      if !r.ok then r else VisitSpec(b.bundles[k - 1], r.marks, r.sorted)
  }

  /** The effect of sorting the given bundles from empty marks and an empty list,
      stopping at the first visit that fails. */
  function SortSpec(bundles: seq<Bundle>): State
  {
    if |bundles| == 0 then State(true, map[], [])
    else
      var r := SortSpec(bundles[..|bundles| - 1]);
      if !r.ok then r else VisitSpec(bundles[|bundles| - 1], r.marks, r.sorted)
  }

  // ---------------------------------------------------------------------------
  // Invariants of the traversal state
  // ---------------------------------------------------------------------------

  /** A name that is marked temporary or permanent stays marked the same way. */
  ghost predicate MarksKept(m: map<string, int>, m': map<string, int>)
  {
    forall n :: (Mark(m, n) == Temporary || Mark(m, n) == Permanent) ==> Mark(m', n) == Mark(m, n)
  }

  /** No name is temporary in m' that was not already temporary in m. */
  ghost predicate NoNewTemporary(m: map<string, int>, m': map<string, int>)
  {
    forall n :: Mark(m', n) == Temporary ==> Mark(m, n) == Temporary
  }

  /** No name occurs twice. */
  predicate Distinct(ns: seq<string>)
  {
    forall i, j :: 0 <= i < j < |ns| ==> ns[i] != ns[j]
  }

  /** A name is marked permanent exactly when a bundle of that name is sorted. */
  ghost predicate Coherent(marks: map<string, int>, s: seq<Bundle>)
  {
    forall n :: Mark(marks, n) == Permanent <==> n in Names(s)
  }

  /** Every dependency of a sorted bundle has its name sorted before it. */
  predicate DepsFirst(s: seq<Bundle>)
  {
    forall j, k :: 0 <= j < |s| && 0 <= k < |s[j].bundles| ==> s[j].bundles[k].name in Names(s[..j])
  }

  /** The invariant every traversal step keeps. */
  ghost predicate Good(marks: map<string, int>, s: seq<Bundle>)
  {
    Distinct(Names(s)) && Coherent(marks, s) && DepsFirst(s)
  }

  /** x is b or lies in the dependency tree below b. */
  ghost predicate Reachable(x: Bundle, b: Bundle)
    decreases b
  {
    x == b || exists k :: 0 <= k < |b.bundles| && Reachable(x, b.bundles[k])
  }

  /** x lies in the dependency tree of one of the given bundles. */
  ghost predicate ReachableFrom(bundles: seq<Bundle>, x: Bundle)
  {
    exists i :: 0 <= i < |bundles| && Reachable(x, bundles[i])
  }

  // ---------------------------------------------------------------------------
  // Lemmas about one visit
  // ---------------------------------------------------------------------------

  /** Visiting never unmarks or re-marks a name; a successful visit leaves b
      permanent and no new name temporary; a bundle without dependencies is
      never marked temporary, whatever the outcome. */
  lemma {:induction false} VisitMarks(b: Bundle, m: map<string, int>, s: seq<Bundle>)
    decreases b, 1, 0
    ensures MarksKept(m, VisitSpec(b, m, s).marks)
    ensures VisitSpec(b, m, s).ok ==>
              Mark(VisitSpec(b, m, s).marks, b.name) == Permanent && NoNewTemporary(m, VisitSpec(b, m, s).marks)
    ensures |b.bundles| == 0 ==> NoNewTemporary(m, VisitSpec(b, m, s).marks)
  {
    if Mark(m, b.name) != Permanent && Mark(m, b.name) != Temporary && |b.bundles| != 0 {
      var mt := m[b.name := Temporary];
      VisitDepsMarks(b, |b.bundles|, mt, s);
      forall n | n != b.name
        ensures Mark(mt, n) == Mark(m, n)
      {
      }
    }
  }

  /** The dependency loop keeps marks, and when it succeeds every dependency it
      went through is permanent. */
  lemma {:induction false} VisitDepsMarks(b: Bundle, k: nat, m: map<string, int>, s: seq<Bundle>)
    requires k <= |b.bundles|
    decreases b, 0, k
    ensures MarksKept(m, VisitDepsSpec(b, k, m, s).marks)
    ensures VisitDepsSpec(b, k, m, s).ok ==> NoNewTemporary(m, VisitDepsSpec(b, k, m, s).marks)
    ensures VisitDepsSpec(b, k, m, s).ok ==>
              forall j :: 0 <= j < k ==> Mark(VisitDepsSpec(b, k, m, s).marks, b.bundles[j].name) == Permanent
  {
    if k > 0 {
      VisitDepsMarks(b, k - 1, m, s);
      var r := VisitDepsSpec(b, k - 1, m, s);
      if r.ok {
        VisitMarks(b.bundles[k - 1], r.marks, r.sorted);
      }
    }
  }

  /** Once the dependency loop has failed, going further does not change it. */
  lemma {:induction false} VisitDepsFailed(b: Bundle, k: nat, k': nat, m: map<string, int>, s: seq<Bundle>)
    requires k <= k' <= |b.bundles|
    requires !VisitDepsSpec(b, k, m, s).ok
    decreases k' - k
    ensures VisitDepsSpec(b, k', m, s) == VisitDepsSpec(b, k, m, s)
  {
    if k < k' {
      VisitDepsFailed(b, k, k' - 1, m, s);
    }
  }

  /** Appending a bundle whose name is new and whose dependencies are all
      sorted, and marking it permanent, keeps the invariant. */
  lemma AppendGood(m: map<string, int>, s: seq<Bundle>, b: Bundle)
    requires Good(m, s)
    requires b.name !in Names(s)
    requires forall k :: 0 <= k < |b.bundles| ==> b.bundles[k].name in Names(s)
    ensures Good(m[b.name := Permanent], s + [b])
  {
    var s' := s + [b];
    assert Names(s') == Names(s) + [b.name];
    forall j | 0 <= j < |s|
      ensures s'[..j] == s[..j]
    {
    }
    assert s'[..|s|] == s;
  }

  /** Every visit keeps the invariant: names stay distinct, permanent marks match
      the sorted list, and dependencies come first. */
  lemma {:induction false} VisitGood(b: Bundle, m: map<string, int>, s: seq<Bundle>)
    requires Good(m, s)
    decreases b, 1, 0
    ensures Good(VisitSpec(b, m, s).marks, VisitSpec(b, m, s).sorted)
  {
    if Mark(m, b.name) == Permanent || Mark(m, b.name) == Temporary {
    } else if |b.bundles| == 0 {
      AppendGood(m, s, b);
    } else {
      var mt := m[b.name := Temporary];
      assert Good(mt, s);
      var n := |b.bundles|;
      VisitDepsGood(b, n, mt, s);
      VisitDepsMarks(b, n, mt, s);
      var r := VisitDepsSpec(b, n, mt, s);
      if r.ok {
        assert Mark(r.marks, b.name) == Temporary;
        AppendGood(r.marks, r.sorted, b);
      }
    }
  }

  /** The dependency loop keeps the invariant. */
  lemma {:induction false} VisitDepsGood(b: Bundle, k: nat, m: map<string, int>, s: seq<Bundle>)
    requires k <= |b.bundles|
    requires Good(m, s)
    decreases b, 0, k
    ensures Good(VisitDepsSpec(b, k, m, s).marks, VisitDepsSpec(b, k, m, s).sorted)
  {
    if k > 0 {
      VisitDepsGood(b, k - 1, m, s);
      var r := VisitDepsSpec(b, k - 1, m, s);
      if r.ok {
        VisitGood(b.bundles[k - 1], r.marks, r.sorted);
      }
    }
  }

  /** Everything a visit of b appends comes from the dependency tree of b. */
  lemma {:induction false} VisitReach(b: Bundle, m: map<string, int>, s: seq<Bundle>)
    decreases b, 1, 0
    ensures forall i :: |s| <= i < |VisitSpec(b, m, s).sorted| ==> Reachable(VisitSpec(b, m, s).sorted[i], b)
  {
    if Mark(m, b.name) != Permanent && Mark(m, b.name) != Temporary && |b.bundles| != 0 {
      VisitDepsReach(b, |b.bundles|, m[b.name := Temporary], s);
    }
  }

  /** Everything the dependency loop appends comes from the dependency tree of b. */
  lemma {:induction false} VisitDepsReach(b: Bundle, k: nat, m: map<string, int>, s: seq<Bundle>)
    requires k <= |b.bundles|
    decreases b, 0, k
    ensures forall i :: |s| <= i < |VisitDepsSpec(b, k, m, s).sorted| ==> Reachable(VisitDepsSpec(b, k, m, s).sorted[i], b)
  {
    if k > 0 {
      VisitDepsReach(b, k - 1, m, s);
      var r := VisitDepsSpec(b, k - 1, m, s);
      if r.ok {
        var d := b.bundles[k - 1];
        VisitReach(d, r.marks, r.sorted);
        var r' := VisitSpec(d, r.marks, r.sorted);
        forall i | |s| <= i < |r'.sorted|
          ensures Reachable(r'.sorted[i], b)
        {
          if i < |r.sorted| {
            assert r'.sorted[i] == r.sorted[i];
          } else {
            assert Reachable(r'.sorted[i], b.bundles[k - 1]);
          }
        }
      }
    }
  }

  // ---------------------------------------------------------------------------
  // Lemmas about a whole sort
  // ---------------------------------------------------------------------------

  /** The sort keeps the invariant (names distinct, permanent marks match the
      list, dependencies first); everything it lists comes from the inputs'
      dependency trees; when it succeeds every input's name is listed and no
      name is left temporary. */
  lemma SortFacts(bundles: seq<Bundle>)
    ensures Good(SortSpec(bundles).marks, SortSpec(bundles).sorted)
    ensures forall i :: 0 <= i < |SortSpec(bundles).sorted| ==> ReachableFrom(bundles, SortSpec(bundles).sorted[i])
    ensures SortSpec(bundles).ok ==> forall i :: 0 <= i < |bundles| ==> bundles[i].name in Names(SortSpec(bundles).sorted)
    ensures SortSpec(bundles).ok ==> forall n :: Mark(SortSpec(bundles).marks, n) != Temporary
  {
    SortGood(bundles);
    SortReach(bundles);
    SortListsInputs(bundles);
  }

  /** The sort keeps the invariant, and a successful sort leaves no name
      temporary. */
  lemma {:induction false} SortGood(bundles: seq<Bundle>)
    ensures Good(SortSpec(bundles).marks, SortSpec(bundles).sorted)
    ensures SortSpec(bundles).ok ==> forall n :: Mark(SortSpec(bundles).marks, n) != Temporary
  {
    if |bundles| > 0 {
      var init := bundles[..|bundles| - 1];
      var last := bundles[|bundles| - 1];
      SortGood(init);
      var r := SortSpec(init);
      if r.ok {
        VisitGood(last, r.marks, r.sorted);
        VisitMarks(last, r.marks, r.sorted);
      }
    }
  }

  /** A bundle in the inputs' trees without the last input is in the trees
      of all the inputs. */
  lemma ReachableFromInit(bundles: seq<Bundle>, x: Bundle)
    requires |bundles| > 0 && ReachableFrom(bundles[..|bundles| - 1], x)
    ensures ReachableFrom(bundles, x)
  {
    var init := bundles[..|bundles| - 1];
    var i :| 0 <= i < |init| && Reachable(x, init[i]);
    assert bundles[i] == init[i];
  }

  /** Everything the sort lists lies in the dependency tree of some input. */
  lemma {:induction false} SortReach(bundles: seq<Bundle>)
    ensures forall i :: 0 <= i < |SortSpec(bundles).sorted| ==> ReachableFrom(bundles, SortSpec(bundles).sorted[i])
  {
    if |bundles| > 0 {
      var init := bundles[..|bundles| - 1];
      var last := bundles[|bundles| - 1];
      SortReach(init);
      var r := SortSpec(init);
      if r.ok {
        VisitReach(last, r.marks, r.sorted);
        var r' := VisitSpec(last, r.marks, r.sorted);
        forall i | 0 <= i < |r'.sorted|
          ensures ReachableFrom(bundles, r'.sorted[i])
        {
          if i < |r.sorted| {
            assert r'.sorted[i] == r.sorted[i];
            ReachableFromInit(bundles, r.sorted[i]);
          } else {
            assert Reachable(r'.sorted[i], bundles[|bundles| - 1]);
          }
        }
      } else {
        forall i | 0 <= i < |r.sorted|
          ensures ReachableFrom(bundles, r.sorted[i])
        {
          ReachableFromInit(bundles, r.sorted[i]);
        }
      }
    }
  }

  /** A successful sort lists the name of every input. */
  lemma {:induction false} SortListsInputs(bundles: seq<Bundle>)
    ensures SortSpec(bundles).ok ==> forall i :: 0 <= i < |bundles| ==> bundles[i].name in Names(SortSpec(bundles).sorted)
  {
    if |bundles| > 0 {
      var init := bundles[..|bundles| - 1];
      var last := bundles[|bundles| - 1];
      SortListsInputs(init);
      var r := SortSpec(init);
      if r.ok {
        SortGood(init);
        VisitGood(last, r.marks, r.sorted);
        VisitMarks(last, r.marks, r.sorted);
        var r' := VisitSpec(last, r.marks, r.sorted);
        if r'.ok {
          forall i | 0 <= i < |bundles|
            ensures bundles[i].name in Names(r'.sorted)
          {
            if i < |init| {
              assert init[i] == bundles[i];
              assert bundles[i].name in Names(r.sorted);
              assert Mark(r.marks, bundles[i].name) == Permanent;
            }
          }
        }
      }
    }
  }

  /** Once a visit has failed the sort stops: inputs after it are never visited. */
  lemma {:induction false} SortStops(bundles: seq<Bundle>, extra: seq<Bundle>)
    requires !SortSpec(bundles).ok
    ensures SortSpec(bundles + extra) == SortSpec(bundles)
  {
    if |extra| == 0 {
      assert bundles + extra == bundles;
    } else {
      var e := extra[..|extra| - 1];
      SortStops(bundles, e);
      assert (bundles + extra)[..|bundles + extra| - 1] == bundles + e;
    }
  }

  /** A later input whose name is already sorted is skipped even when its
      dependencies differ: the first bundle seen with a name wins. */
  lemma FirstNameWins(bundles: seq<Bundle>, b: Bundle)
    requires SortSpec(bundles).ok
    requires b.name in Names(SortSpec(bundles).sorted)
    ensures SortSpec(bundles + [b]) == SortSpec(bundles)
  {
    SortFacts(bundles);
    assert (bundles + [b])[..|bundles|] == bundles;
  }

  /** A bundle that lists a dependency carrying its own name is a cycle: its
      visit fails, at that dependency if not before. */
  lemma SelfDependencyFails(b: Bundle, k: nat, m: map<string, int>, s: seq<Bundle>)
    requires Mark(m, b.name) != Temporary && Mark(m, b.name) != Permanent
    requires k < |b.bundles| && b.bundles[k].name == b.name
    ensures !VisitSpec(b, m, s).ok
  {
    var mt := m[b.name := Temporary];
    VisitDepsMarks(b, k, mt, s);
    assert !VisitDepsSpec(b, k + 1, mt, s).ok;
    VisitDepsFailed(b, k + 1, |b.bundles|, mt, s);
  }

  /** Bundles that share a name are one and the same bundle, throughout the
      dependency trees of the inputs. */
  ghost predicate Consistent(bundles: seq<Bundle>)
  {
    forall x, y :: ReachableFrom(bundles, x) && ReachableFrom(bundles, y) && x.name == y.name ==> x == y
  }

  /** In a list where dependencies come first, the dependency tree of a listed
      bundle is listed too, as long as the list agrees with that tree on names. */
  lemma {:induction false} DepsFirstClosed(s: seq<Bundle>, b: Bundle, x: Bundle)
    requires DepsFirst(s)
    requires b.name in Names(s)
    requires Reachable(x, b)
    requires forall y, j :: Reachable(y, b) && 0 <= j < |s| && s[j].name == y.name ==> s[j] == y
    decreases b
    ensures x.name in Names(s)
  {
    if x != b {
      var k :| 0 <= k < |b.bundles| && Reachable(x, b.bundles[k]);
      var d := b.bundles[k];
      var j :| 0 <= j < |s| && Names(s)[j] == b.name;
      assert Reachable(b, b);
      assert s[j] == b;
      assert s[j].bundles[k] == d;
      assert d.name in Names(s[..j]);
      var i :| 0 <= i < j && Names(s[..j])[i] == d.name;
      assert s[..j][i] == s[i];
      assert Names(s)[i] == d.name;
      assert d.name in Names(s);
      assert Reachable(d, d);
      forall y, j' | Reachable(y, d) && 0 <= j' < |s| && s[j'].name == y.name
        ensures s[j'] == y
      {
        ReachableTrans(y, d, b);
      }
      DepsFirstClosed(s, d, x);
    }
  }

  // ---------------------------------------------------------------------------
  // Failure means a name cycle
  // ---------------------------------------------------------------------------

  /** The height of a dependency tree: 0 for a bundle without dependencies. */
  function Height(b: Bundle): nat
    decreases b, 1, 0
  {
    DepsHeight(b, |b.bundles|)
  }

  /** One more than the greatest height among the first k dependencies of b;
      0 when k is 0. */
  function DepsHeight(b: Bundle, k: nat): (h: nat)
    requires k <= |b.bundles|
    decreases b, 0, k
    ensures forall j :: 0 <= j < k ==> Height(b.bundles[j]) < h
  {
    if k == 0 then 0
    else
      var h0, hk := DepsHeight(b, k - 1), Height(b.bundles[k - 1]) + 1;
      if h0 < hk then hk else h0
  }

  /** x lies in the tree of one of b's dependencies: strictly below b. */
  ghost predicate Below(x: Bundle, b: Bundle)
  {
    exists k :: 0 <= k < |b.bundles| && Reachable(x, b.bundles[k])
  }

  lemma {:induction false} ReachableHeight(x: Bundle, b: Bundle)
    requires Reachable(x, b)
    decreases b
    ensures Height(x) <= Height(b)
  {
    if x != b {
      var k :| 0 <= k < |b.bundles| && Reachable(x, b.bundles[k]);
      ReachableHeight(x, b.bundles[k]);
    }
  }

  /** Nothing lies strictly below itself. */
  lemma BelowIsProper(x: Bundle, b: Bundle)
    requires Below(x, b)
    ensures x != b && Reachable(x, b)
  {
    var k :| 0 <= k < |b.bundles| && Reachable(x, b.bundles[k]);
    ReachableHeight(x, b.bundles[k]);
  }

  /** A dependency of a bundle in a's tree lies strictly below a. */
  lemma {:induction false} ChildBelow(b: Bundle, k: nat, a: Bundle)
    requires k < |b.bundles| && Reachable(b, a)
    decreases a
    ensures Below(b.bundles[k], a)
  {
    var d := b.bundles[k];
    if b == a {
      assert Reachable(d, a.bundles[k]);
    } else {
      var j :| 0 <= j < |a.bundles| && Reachable(b, a.bundles[j]);
      ChildBelow(b, k, a.bundles[j]);
      var i :| 0 <= i < |a.bundles[j].bundles| && Reachable(d, a.bundles[j].bundles[i]);
      assert Reachable(d, a.bundles[j]);
    }
  }

  /** Some bundle in the inputs' trees has, strictly below it, a bundle with
      its own name. */
  ghost predicate NameCycle(roots: seq<Bundle>)
  {
    exists x, y :: ReachableFrom(roots, x) && Reachable(y, x) && y != x && y.name == x.name
  }

  /** Every name marked temporary is the name of a bundle in the inputs'
      trees that has b in its tree (the bundles on the path to b). */
  ghost predicate TemporaryAbove(m: map<string, int>, roots: seq<Bundle>, b: Bundle)
  {
    forall n :: Mark(m, n) == Temporary ==> exists a :: ReachableFrom(roots, a) && a.name == n && Reachable(b, a)
  }

  /** Likewise, with b strictly below each of those bundles. */
  ghost predicate TemporaryStrictlyAbove(m: map<string, int>, roots: seq<Bundle>, b: Bundle)
  {
    forall n :: Mark(m, n) == Temporary ==> exists a :: ReachableFrom(roots, a) && a.name == n && Below(b, a)
  }

  /** A visit from marks whose temporary names all belong to bundles above b
      fails only when the inputs hold a name cycle. */
  lemma {:induction false} VisitFailsOnCycle(roots: seq<Bundle>, b: Bundle, m: map<string, int>, s: seq<Bundle>)
    requires ReachableFrom(roots, b)
    requires TemporaryStrictlyAbove(m, roots, b)
    decreases b, 1, 0
    ensures !VisitSpec(b, m, s).ok ==> NameCycle(roots)
  {
    if Mark(m, b.name) == Permanent {
    } else if Mark(m, b.name) == Temporary {
      var a :| ReachableFrom(roots, a) && a.name == b.name && Below(b, a);
      BelowIsProper(b, a);
    } else if |b.bundles| != 0 {
      var mt := m[b.name := Temporary];
      forall n | Mark(mt, n) == Temporary
        ensures exists a :: ReachableFrom(roots, a) && a.name == n && Reachable(b, a)
      {
        if n == b.name {
          assert Reachable(b, b);
        } else {
          assert Mark(m, n) == Temporary;
          var a :| ReachableFrom(roots, a) && a.name == n && Below(b, a);
          BelowIsProper(b, a);
        }
      }
      VisitDepsFailOnCycle(roots, b, |b.bundles|, mt, s);
    }
  }

  /** The dependency loop, from marks whose temporary names all belong to
      bundles with b in their tree, fails only on a name cycle. */
  lemma {:induction false} VisitDepsFailOnCycle(roots: seq<Bundle>, b: Bundle, k: nat, m: map<string, int>, s: seq<Bundle>)
    requires k <= |b.bundles|
    requires ReachableFrom(roots, b)
    requires TemporaryAbove(m, roots, b)
    decreases b, 0, k
    ensures !VisitDepsSpec(b, k, m, s).ok ==> NameCycle(roots)
  {
    if k > 0 {
      VisitDepsFailOnCycle(roots, b, k - 1, m, s);
      var r := VisitDepsSpec(b, k - 1, m, s);
      if r.ok {
        var d := b.bundles[k - 1];
        VisitDepsMarks(b, k - 1, m, s);
        forall n | Mark(r.marks, n) == Temporary
          ensures exists a :: ReachableFrom(roots, a) && a.name == n && Below(d, a)
        {
          var a :| ReachableFrom(roots, a) && a.name == n && Reachable(b, a);
          ChildBelow(b, k - 1, a);
        }
        var i :| 0 <= i < |roots| && Reachable(b, roots[i]);
        ChildBelow(b, k - 1, roots[i]);
        BelowIsProper(d, roots[i]);
        VisitFailsOnCycle(roots, d, r.marks, r.sorted);
      }
    }
  }

  /** sortBundles fails only when some bundle in the inputs' trees has a
      bundle of its own name strictly below it: a failure is a cycle of
      names. */
  lemma {:induction false} SortFailsOnCycle(bundles: seq<Bundle>)
    ensures !SortSpec(bundles).ok ==> NameCycle(bundles)
  {
    if |bundles| > 0 {
      var init := bundles[..|bundles| - 1];
      var last := bundles[|bundles| - 1];
      SortFailsOnCycle(init);
      if NameCycle(init) {
        var x, y :| ReachableFrom(init, x) && Reachable(y, x) && y != x && y.name == x.name;
        var i :| 0 <= i < |init| && Reachable(x, init[i]);
        assert bundles[i] == init[i];
      }
      var r := SortSpec(init);
      if r.ok {
        SortFacts(init);
        assert Reachable(last, last);
        VisitFailsOnCycle(bundles, last, r.marks, r.sorted);
      }
    }
  }

  lemma {:induction false} ReachableTrans(x: Bundle, y: Bundle, z: Bundle)
    requires Reachable(x, y) && Reachable(y, z)
    decreases z
    ensures Reachable(x, z)
  {
    if y != z {
      var k :| 0 <= k < |z.bundles| && Reachable(y, z.bundles[k]);
      ReachableTrans(x, y, z.bundles[k]);
    }
  }

  /** When bundles that share a name are the same bundle, the sort
      succeeds. */
  lemma ConsistentSorts(bundles: seq<Bundle>)
    requires Consistent(bundles)
    ensures SortSpec(bundles).ok
  {
    SortFailsOnCycle(bundles);
    forall x, y | ReachableFrom(bundles, x) && Reachable(y, x)
      ensures ReachableFrom(bundles, y)
    {
      var i :| 0 <= i < |bundles| && Reachable(x, bundles[i]);
      ReachableTrans(y, x, bundles[i]);
    }
  }

  /** The check is on names, not on bundles: a name cycle below an input
      fails the sort on its own, but not after another bundle of a name on
      the cycle has been sorted. */
  lemma NameCycleHiddenByEarlierName()
    ensures !SortSpec([CycleB]).ok
    ensures SortSpec([LeafA, CycleB]).ok
    ensures NameCycle([LeafA, CycleB])
  {
    CycleFailsAlone();
    CycleAfterLeafSorts();
    CycleBelowB();
  }

  lemma CycleFailsAlone()
    ensures !SortSpec([CycleB]).ok
  {
    assert CycleA.name != CycleB.name;
    var mb := map[CycleB.name := Temporary];
    var ma := mb[CycleA.name := Temporary];
    assert VisitSpec(LeafB, ma, []) == State(false, ma, []);
    assert VisitDepsSpec(CycleA, 1, ma, []) == State(false, ma, []);
    assert VisitSpec(CycleA, mb, []) == State(false, ma, []);
    assert VisitDepsSpec(CycleB, 1, mb, []) == State(false, ma, []);
    assert [CycleB][..0] == [];
  }

  lemma CycleAfterLeafSorts()
    ensures SortSpec([LeafA, CycleB]).ok
  {
    assert LeafA.name != CycleB.name;
    var m1 := map[LeafA.name := Permanent];
    assert SortSpec([LeafA]) == State(true, m1, [LeafA]) by {
      assert [LeafA][..0] == [];
    }
    var m2 := m1[CycleB.name := Temporary];
    assert VisitSpec(CycleA, m2, [LeafA]) == State(true, m2, [LeafA]);
    assert VisitDepsSpec(CycleB, 1, m2, [LeafA]) == State(true, m2, [LeafA]);
    assert [LeafA, CycleB][..1] == [LeafA];
  }

  lemma CycleBelowB()
    ensures NameCycle([LeafA, CycleB])
  {
    assert Reachable(LeafB, LeafB) && CycleA.bundles[0] == LeafB;
    assert Reachable(LeafB, CycleA) && CycleB.bundles[0] == CycleA;
    assert Reachable(LeafB, CycleB);
    assert Reachable(CycleB, CycleB) && [LeafA, CycleB][1] == CycleB;
    assert ReachableFrom([LeafA, CycleB], CycleB);
    assert LeafB != CycleB && LeafB.name == CycleB.name;
  }

  /** When names are consistent, the sort succeeds and lists exactly the
      names in the inputs' dependency trees, each once. */
  lemma SortComplete(bundles: seq<Bundle>)
    requires Consistent(bundles)
    ensures SortSpec(bundles).ok
    ensures Distinct(Names(SortSpec(bundles).sorted))
    ensures forall n :: n in Names(SortSpec(bundles).sorted) <==> exists x :: ReachableFrom(bundles, x) && x.name == n
  {
    var s := SortSpec(bundles).sorted;
    ConsistentSorts(bundles);
    SortFacts(bundles);
    forall x | ReachableFrom(bundles, x)
      ensures x.name in Names(s)
    {
      ConsistentListsReachable(bundles, x);
    }
    forall n | n in Names(s)
      ensures exists x :: ReachableFrom(bundles, x) && x.name == n
    {
      var j :| 0 <= j < |s| && Names(s)[j] == n;
      assert ReachableFrom(bundles, s[j]);
    }
  }

  /** When names identify bundles, a successful sort lists the name of every
      bundle in the inputs' trees. */
  lemma ConsistentListsReachable(bundles: seq<Bundle>, x: Bundle)
    requires Consistent(bundles) && ReachableFrom(bundles, x)
    ensures SortSpec(bundles).ok ==> x.name in Names(SortSpec(bundles).sorted)
  {
    var s := SortSpec(bundles).sorted;
    if SortSpec(bundles).ok {
      SortFacts(bundles);
      var i :| 0 <= i < |bundles| && Reachable(x, bundles[i]);
      var b := bundles[i];
      forall y, j | Reachable(y, b) && 0 <= j < |s| && s[j].name == y.name
        ensures s[j] == y
      {
        assert ReachableFrom(bundles, y);
        assert ReachableFrom(bundles, s[j]);
      }
      assert b.name in Names(s);
      DepsFirstClosed(s, b, x);
    }
  }

  // ---------------------------------------------------------------------------
  // The traversal as the source runs it
  // ---------------------------------------------------------------------------

  /** The state sortBundles shares with visit: the marks map and the list that
      visit appends to through a pointer. */
  class Sorter {
    var marks: map<string, int>
    var sorted: seq<Bundle>

    constructor ()
      ensures marks == map[] && sorted == []
    {
      marks := map[];
      sorted := [];
    }

    /** visit: returns false when it reaches a name marked temporary. */
    method Visit(b: Bundle) returns (ok: bool)
      modifies this
      decreases b
      ensures State(ok, marks, sorted) == VisitSpec(b, old(marks), old(sorted))
    {
      if Mark(marks, b.name) == Permanent {
        return true;
      }
      if Mark(marks, b.name) == Temporary {
        return false;
      }
      if |b.bundles| == 0 {
        marks := marks[b.name := Permanent];
        sorted := sorted + [b];
        return true;
      }
      marks := marks[b.name := Temporary];
      ghost var m0, s0 := marks, sorted;
      var i := 0;
      while i < |b.bundles|
        invariant 0 <= i <= |b.bundles|
        invariant VisitDepsSpec(b, i, m0, s0) == State(true, marks, sorted)
      {
        var depOk := Visit(b.bundles[i]);
        if !depOk {
          VisitDepsFailed(b, i + 1, |b.bundles|, m0, s0);
          return false;
        }
        i := i + 1;
      }
      marks := marks[b.name := Permanent];
      sorted := sorted + [b];
      return true;
    }
  }

  /** sortBundles: visits the inputs in order and stops at the first failure,
      returning what was sorted so far. */
  method SortBundles(bundles: seq<Bundle>) returns (sorted: seq<Bundle>, ok: bool)
    ensures ok == SortSpec(bundles).ok && sorted == SortSpec(bundles).sorted
    ensures Distinct(Names(sorted)) && DepsFirst(sorted)
    ensures forall i :: 0 <= i < |sorted| ==> ReachableFrom(bundles, sorted[i])
    ensures ok ==> forall i :: 0 <= i < |bundles| ==> bundles[i].name in Names(sorted)
  {
    var st := new Sorter();
    var i := 0;
    while i < |bundles|
      invariant 0 <= i <= |bundles|
      invariant SortSpec(bundles[..i]) == State(true, st.marks, st.sorted)
    {
      var visited := st.Visit(bundles[i]);
      assert bundles[..i + 1][..i] == bundles[..i];
      if !visited {
        SortStops(bundles[..i + 1], bundles[i + 1..]);
        assert bundles[..i + 1] + bundles[i + 1..] == bundles;
        SortFacts(bundles);
        return st.sorted, false;
      }
      i := i + 1;
    }
    assert bundles[..i] == bundles;
    SortFacts(bundles);
    return st.sorted, true;
  }

  // ---------------------------------------------------------------------------
  // The bundles of the sort tests
  // ---------------------------------------------------------------------------

  const First := Bundle("1:[]", [], [], [], [])
  const Second := Bundle("2:1", [], [], [], [First])
  const Fourth := Bundle("4:1", [], [], [], [First])
  const Third := Bundle("3:2,4", [], [], [], [Second, Fourth])

  // A name cycle B -> A -> B, and a bundle named A without dependencies.
  const LeafA := Bundle("A", [], [], [], [])
  const LeafB := Bundle("B", [], [], [], [])
  const CycleA := Bundle("A", [], [], [], [LeafB])
  const CycleB := Bundle("B", [], [], [], [CycleA])

  /** The bundle with two dependencies sorts, on its own, to four bundles:
      each after its dependencies, the shared one once. */
  lemma ThirdSortsToFour()
    ensures SortSpec([Third]).ok
    ensures SortSpec([Third]).sorted == [First, Second, Fourth, Third]
  {
    var m0 := map[Third.name := Temporary];
    var m1 := m0[Second.name := Temporary];
    var m2 := m1[First.name := Permanent];
    assert VisitDepsSpec(Second, 1, m1, []) == State(true, m2, [First]);
    var m3 := m2[Second.name := Permanent];
    assert VisitDepsSpec(Third, 1, m0, []) == State(true, m3, [First, Second]);
    var m4 := m3[Fourth.name := Temporary];
    assert VisitDepsSpec(Fourth, 1, m4, [First, Second]) == State(true, m4, [First, Second]);
    assert VisitSpec(Fourth, m3, [First, Second]) == State(true, m4[Fourth.name := Permanent], [First, Second, Fourth]);
    assert VisitDepsSpec(Third, 2, m0, []) == State(true, m4[Fourth.name := Permanent], [First, Second, Fourth]);
    assert [Third][..0] == [];
  }

  /** The first two test bundles, in dependency order, sort to themselves and
      leave both names permanent. */
  lemma FirstTwoSort() returns (m: map<string, int>)
    ensures m == map[First.name := Permanent, Second.name := Permanent]
    ensures SortSpec([First, Second]) == State(true, m, [First, Second])
  {
    var m1 := map[First.name := Permanent];
    assert SortSpec([First]) == State(true, m1, [First]) by {
      assert [First][..0] == [];
    }
    m := m1[Second.name := Permanent];
    assert VisitDepsSpec(Second, 1, m1[Second.name := Temporary], [First])
           == State(true, m1[Second.name := Temporary], [First]);
    assert [First, Second][..1] == [First];
  }

  /** Inputs that are already in dependency order, sharing a dependency,
      sort to themselves: the shared bundle is not added twice. */
  lemma SharedDependencySortsToThree()
    ensures SortSpec([First, Second, Fourth]).ok
    ensures SortSpec([First, Second, Fourth]).sorted == [First, Second, Fourth]
  {
    var m2 := FirstTwoSort();
    assert [First, Second, Fourth][..2] == [First, Second];
    var m3 := m2[Fourth.name := Temporary];
    assert VisitDepsSpec(Fourth, 1, m3, [First, Second]) == State(true, m3, [First, Second]);
  }

  /** The first three of the repeated inputs already give all four bundles. */
  lemma ThreeInputsSortToFour()
    ensures SortSpec([First, Second, Third]).ok
    ensures SortSpec([First, Second, Third]).sorted == [First, Second, Fourth, Third]
  {
    var m2 := FirstTwoSort();
    assert [First, Second, Third][..2] == [First, Second];
    var m3 := m2[Third.name := Temporary];
    var m4 := m3[Fourth.name := Temporary];
    assert VisitDepsSpec(Fourth, 1, m4, [First, Second]) == State(true, m4, [First, Second]);
    assert VisitSpec(Fourth, m3, [First, Second]) == State(true, m4[Fourth.name := Permanent], [First, Second, Fourth]);
    assert VisitDepsSpec(Third, 1, m3, [First, Second]) == State(true, m3, [First, Second]);
    assert VisitDepsSpec(Third, 2, m3, [First, Second])
           == State(true, m4[Fourth.name := Permanent], [First, Second, Fourth]);
  }

  lemma TakeOneMore<T>(s: seq<T>, n: nat)
    requires n < |s|
    ensures s[..n + 1] == s[..n] + [s[n]]
  {
  }

  /** Ten inputs repeating the three test bundles sort to the same four: a
      repeated input adds nothing. */
  lemma RepeatedInputsSortToFour()
    ensures SortSpec([First, Second, Third, First, Second, Third, First, Second, First, Second]).ok
    ensures SortSpec([First, Second, Third, First, Second, Third, First, Second, First, Second]).sorted
            == [First, Second, Fourth, Third]
  {
    ThreeInputsSortToFour();
    var r3 := SortSpec([First, Second, Third]);
    var bs := [First, Second, Third, First, Second, Third, First, Second, First, Second];
    assert Names(r3.sorted) == [First.name, Second.name, Fourth.name, Third.name];
    assert forall i :: 0 <= i < |bs| ==> bs[i] in {First, Second, Third};
    var n := 3;
    assert bs[..n] == [First, Second, Third];
    while n < |bs|
      invariant 3 <= n <= |bs|
      invariant SortSpec(bs[..n]) == r3
    {
      TakeOneMore(bs, n);
      assert bs[n].name in Names(r3.sorted);
      FirstNameWins(bs[..n], bs[n]);
      n := n + 1;
    }
    assert bs[..n] == bs;
  }
}
