/** The "run walk" both Go watchdogs use to keep one version per release line
    ("Filter only latest version based on minor"): walking the sorted
    versions, a version is appended to lastVersions when the next one starts
    another release line, and the current one is appended when the walk is at
    the last index and the release line did not change.

    As a consequence a final release line that holds a single version (with at
    least two versions overall) is never emitted: for 1.2.3, 1.2.5, 1.3.0 the
    walk yields only 1.2.5. */
module Selection {
  import opened Semver

  /** Iteration i of the walk changes release line between i - 1 and i. */
  predicate BoundaryAt(vs: seq<Version>, i: nat)
  {
    1 <= i < |vs| && !SameBranch(vs[i - 1], vs[i])
  }

  /** What iteration i of the walk appends to lastVersions. */
  function Emitted(vs: seq<Version>, i: nat): seq<Version>
    requires i < |vs|
  {
    if BoundaryAt(vs, i) then [vs[i - 1]]
    else if i + 1 == |vs| then [vs[i]]
    else []
  }

  /** lastVersions after the first k iterations. */
  function Walk(vs: seq<Version>, k: nat): seq<Version>
    requires k <= |vs|
  {
    if k == 0 then [] else Walk(vs, k - 1) + Emitted(vs, k - 1)
  }

  /** lastVersions after the whole walk. */
  function RunWalk(vs: seq<Version>): seq<Version>
  {
    Walk(vs, |vs|)
  }

  /** x occurs in vs and no version of its release line in vs is greater. */
  predicate IsBranchMax(vs: seq<Version>, x: Version)
  {
    x in vs && forall y :: y in vs && SameBranch(y, x) ==> Leq(y, x)
  }

  /** The walk emits the last release line: vs has one element, or its last
      two elements share a release line. */
  predicate FinalBranchKept(vs: seq<Version>)
    requires |vs| > 0
  {
    |vs| == 1 || SameBranch(vs[|vs| - 2], vs[|vs| - 1])
  }

  /** x's release line is not the dropped final singleton line of vs. */
  predicate NotDropped(vs: seq<Version>, x: Version)
  {
    |vs| > 0 && (SameBranch(x, vs[|vs| - 1]) ==> FinalBranchKept(vs))
  }

  lemma {:induction false} WalkMembers(vs: seq<Version>, k: nat, x: Version)
    requires k <= |vs|
    ensures x in Walk(vs, k) <==>
              (exists i :: 1 <= i < k && BoundaryAt(vs, i) && x == vs[i - 1])
              || (k == |vs| && k > 0 && FinalBranchKept(vs) && x == vs[k - 1])
  {
    if k > 0 {
      WalkMembers(vs, k - 1, x);
      var i := k - 1;
      if BoundaryAt(vs, i) {
        assert x == vs[i - 1] ==> x in Walk(vs, k);
      } else if k == |vs| {
        assert x == vs[k - 1] ==> x in Walk(vs, k);
      }
    }
  }

  /** From a position whose release line differs from the last element's, the
      walk reaches a boundary whose left side is still on that line. */
  lemma {:induction false} FindBoundary(vs: seq<Version>, i0: nat) returns (i: nat)
    requires i0 < |vs| && !SameBranch(vs[i0], vs[|vs| - 1])
    ensures i0 < i < |vs| && BoundaryAt(vs, i) && SameBranch(vs[i - 1], vs[i0])
    decreases |vs| - i0
  {
    if !SameBranch(vs[i0], vs[i0 + 1]) {
      i := i0 + 1;
    } else {
      i := FindBoundary(vs, i0 + 1);
    }
  }

  lemma BoundaryIsBranchMax(vs: seq<Version>, i: nat)
    requires Sorted(vs) && BoundaryAt(vs, i)
    ensures IsBranchMax(vs, vs[i - 1])
    ensures !SameBranch(vs[i - 1], vs[|vs| - 1])
  {
    var x := vs[i - 1];
    forall y | y in vs && SameBranch(y, x)
      ensures Leq(y, x)
    {
      var j :| 0 <= j < |vs| && vs[j] == y;
      if j >= i {
        assert Leq(vs[i], vs[j]);
      }
    }
    assert Leq(vs[i], vs[|vs| - 1]);
  }

  /** On sorted input, the walk emits exactly the branch maxima, except the
      maximum of a final release line that holds a single version. */
  lemma RunWalkMembers(vs: seq<Version>, x: Version)
    requires Sorted(vs)
    ensures x in RunWalk(vs) <==> IsBranchMax(vs, x) && NotDropped(vs, x)
  {
    var n := |vs|;
    WalkMembers(vs, n, x);
    if x in RunWalk(vs) {
      if i :| 1 <= i < n && BoundaryAt(vs, i) && x == vs[i - 1] {
        BoundaryIsBranchMax(vs, i);
      } else {
        assert x == vs[n - 1];
        forall y | y in vs && SameBranch(y, x)
          ensures Leq(y, x)
        {
          var j :| 0 <= j < n && vs[j] == y;
        }
      }
    }
    if IsBranchMax(vs, x) && NotDropped(vs, x) {
      var i0 :| 0 <= i0 < n && vs[i0] == x;
      if SameBranch(x, vs[n - 1]) {
        assert Leq(vs[i0], vs[n - 1]);
        assert vs[n - 1] in vs;
        assert vs[n - 1] == x;
      } else {
        var i := FindBoundary(vs, i0);
        assert Leq(vs[i0], vs[i - 1]);
        assert vs[i - 1] == x;
      }
    }
  }

  lemma AppendAscending(w: seq<Version>, e: seq<Version>)
    requires StrictlyAscending(w) && |e| <= 1
    requires forall y :: y in e ==> forall z :: z in w ==> Less(z, y)
    ensures StrictlyAscending(w + e)
  {
    forall i, j | 0 <= i < j < |w + e|
      ensures Less((w + e)[i], (w + e)[j])
    {
      if j >= |w| {
        assert (w + e)[j] in e && (w + e)[i] in w;
      }
    }
  }

  lemma {:induction false} WalkBelow(vs: seq<Version>, k: nat)
    requires Sorted(vs) && 1 <= k <= |vs|
    ensures StrictlyAscending(Walk(vs, k))
    ensures forall y :: y in Walk(vs, k) ==>
              BranchLess(y, vs[k - 1]) || (k == |vs| && y == vs[k - 1])
  {
    if k > 1 {
      WalkBelow(vs, k - 1);
      var w := Walk(vs, k - 1);
      assert Leq(vs[k - 2], vs[k - 1]);
      assert forall y :: y in w ==> BranchLess(y, vs[k - 2]);
      var e := Emitted(vs, k - 1);
      assert forall y :: y in e ==> forall z :: z in w ==> Less(z, y);
      AppendAscending(w, e);
    }
  }

  /** The emitted versions are strictly ascending. */
  lemma RunWalkAscending(vs: seq<Version>)
    requires Sorted(vs)
    ensures StrictlyAscending(RunWalk(vs))
  {
    if |vs| > 0 {
      WalkBelow(vs, |vs|);
    }
  }

  /** No two emitted versions share a release line. */
  lemma RunWalkOnePerBranch(vs: seq<Version>)
    requires Sorted(vs)
    ensures forall i, j :: 0 <= i < j < |RunWalk(vs)| ==> !SameBranch(RunWalk(vs)[i], RunWalk(vs)[j])
  {
    var r := RunWalk(vs);
    RunWalkAscending(vs);
    forall i, j | 0 <= i < j < |r|
      ensures !SameBranch(r[i], r[j])
    {
      RunWalkMembers(vs, r[i]);
      RunWalkMembers(vs, r[j]);
    }
  }

  /** Every release line of vs, except a dropped final singleton line, has an
      emitted version, and it is at least as great as every version of the line. */
  lemma EveryBranchRepresented(vs: seq<Version>, y: Version)
    requires Sorted(vs) && y in vs && NotDropped(vs, y)
    ensures exists x :: x in RunWalk(vs) && SameBranch(x, y) && Leq(y, x)
  {
    var n := |vs|;
    var i0 :| 0 <= i0 < n && vs[i0] == y;
    WalkMembers(vs, n, vs[n - 1]);
    if SameBranch(y, vs[n - 1]) {
      assert Leq(vs[i0], vs[n - 1]);
      assert vs[n - 1] in RunWalk(vs);
    } else {
      var i := FindBoundary(vs, i0);
      WalkMembers(vs, n, vs[i - 1]);
      assert Leq(vs[i0], vs[i - 1]);
      assert vs[i - 1] in RunWalk(vs);
    }
  }

  /** The global maximum of sorted input is emitted exactly when the final
      release line is kept. */
  lemma GreatestEmittedIff(vs: seq<Version>)
    requires Sorted(vs) && |vs| > 0
    ensures vs[|vs| - 1] in RunWalk(vs) <==> FinalBranchKept(vs)
  {
    RunWalkMembers(vs, vs[|vs| - 1]);
    forall y | y in vs
      ensures Leq(y, vs[|vs| - 1])
    {
      var j :| 0 <= j < |vs| && vs[j] == y;
    }
  }

  /** The run walk on 1.2.3, 1.2.5, 1.3.0 keeps only 1.2.5. */
  lemma DropsFinalSingleton()
    ensures RunWalk([Version(1, 2, 3), Version(1, 2, 5), Version(1, 3, 0)]) == [Version(1, 2, 5)]
  {
    var vs := [Version(1, 2, 3), Version(1, 2, 5), Version(1, 3, 0)];
    assert Walk(vs, 1) == [];
    assert Walk(vs, 2) == [];
  }
}
