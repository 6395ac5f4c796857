/** What the solver reports in the end, and why it is a solution. */
module Selections {
  import opened Options
  import opened Versions
  import opened Ranges
  import opened Terms
  import opened Clauses
  import opened Trails
  import opened Propagation
  import opened Decisions

  /* --------------------------------------------------------- reported versions */

  predicate Names(a: Assignment, pkg: PackageId) {
    a.pkg == pkg && a.positive && IsExact(a.range)
  }

  /** The first exact positive entry of a package: the answer the solver reports. */
  function Selected(trail: Trail, pkg: PackageId): Option<Version> {
    if trail == [] then None
    else
      var n := |trail| - 1;
      var earlier := Selected(trail[..n], pkg);
      if earlier.Some? then earlier
      else if trail[n].pkg == pkg && trail[n].positive && IsExact(trail[n].range)
      then Some(trail[n].range.lower.v)
      else None
  }

  /** Every exact positive entry of a decided, feasible package names the decided version. */
  lemma {:induction false} SelectedIsOneOf(trail: Trail, pkg: PackageId)
    ensures Selected(trail, pkg).Some? <==>
            exists i :: 0 <= i < |trail| && Names(trail[i], pkg)
    ensures Selected(trail, pkg).Some? ==>
            exists i :: 0 <= i < |trail| && Names(trail[i], pkg) &&
                        trail[i].range.lower.v == Selected(trail, pkg).value
  {
    if trail != [] {
      var n := |trail| - 1;
      var init := trail[..n];
      assert forall i :: 0 <= i < n ==> init[i] == trail[i];
      SelectedIsOneOf(init, pkg);
      if Selected(init, pkg).Some? {
        var i :| 0 <= i < n && Names(init[i], pkg) && init[i].range.lower.v == Selected(init, pkg).value;
        assert Names(trail[i], pkg);
      } else if Names(trail[n], pkg) {
        assert Selected(trail, pkg) == Some(trail[n].range.lower.v);
      }
    }
  }

  lemma SelectedIsDecided(trail: Trail, i: nat)
    requires i < |trail| && WellKinded(trail[i]) && trail[i].decided
    requires Positive(trail, trail[i].pkg).Some? ==> Proper(Positive(trail, trail[i].pkg).value)
    ensures Selected(trail, trail[i].pkg) == Some(trail[i].range.lower.v)
  {
    var p := trail[i].pkg;
    var v := trail[i].range.lower.v;
    DecidedInRange(trail, i, v);
    assert Names(trail[i], p);
    SelectedIsOneOf(trail, p);
    var j :| 0 <= j < |trail| && Names(trail[j], p) && trail[j].range.lower.v == Selected(trail, p).value;
    PositiveWithin(trail, p, j);
    PositiveContains(trail, p, v);
    assert Contains(trail[j].range, v);
    RankInjective(v, trail[j].range.lower.v);
  }

  lemma {:induction false} SelectedFirst(trail: Trail, i: nat, pkg: PackageId)
    requires i < |trail| && Selected(trail[..i], pkg) == None && Names(trail[i], pkg)
    ensures Selected(trail, pkg) == Some(trail[i].range.lower.v)
  {
    var n := |trail| - 1;
    if i < n {
      assert trail[..n][..i] == trail[..i];
      SelectedFirst(trail[..n], i, pkg);
    }
  }

  /** The reported selection as a model. */
  ghost function Selection(trail: Trail): Model {
    map i | 0 <= i < |trail| && Selected(trail, trail[i].pkg).Some? ::
      trail[i].pkg := Selected(trail, trail[i].pkg).value
  }

  lemma SelectionMeaning(trail: Trail, p: PackageId)
    ensures p in Selection(trail) <==> Selected(trail, p).Some?
    ensures p in Selection(trail) ==> Selection(trail)[p] == Selected(trail, p).value
  {
    SelectedIsOneOf(trail, p);
  }

  /* ----------------------------------------------------------------- solutions */

  /** A required package is decided inside the required range once the clause
      that requires it is quiet. */
  lemma {:induction false} QuietDependencyMet(trail: Trail, root: PackageId, terms: seq<Term>, i: nat, v: Version, d: Dependency)
    requires i < |trail| && trail[i].decided && WellKinded(trail[i]) && trail[i].range == Exact(v)
    requires terms == DependencyTerms(trail[i].pkg, v, d) && !Actionable(trail, terms)
    ensures Positive(trail, d.pkg).Some? && Subset(Positive(trail, d.pkg).value, d.range)
    ensures !Intersect(Positive(trail, d.pkg).value, d.range).isEmpty
  {
    PositiveWithin(trail, trail[i].pkg, i);
    assert StateOf(trail, terms[0]) == Satisfied;
    assert AllSatisfied(trail, terms) <==> StateOf(trail, terms[1]) == Satisfied;
    assert UnitAt(trail, terms, 1) <==> StateOf(trail, terms[1]) == Inconclusive;
    assert !ReachableUnit(trail, terms, 1);
  }

  lemma PositiveIsSelected(trail: Trail, level: nat, root: PackageId, rootVersion: Version,
                           requirements: seq<Dependency>, q: PackageId)
    requires TrailOk(trail, level, root, rootVersion, requirements) && level >= 1
    requires RootFits(requirements, root, rootVersion) && AllDecided(trail, root)
    requires Positive(trail, q).Some?
    ensures Decided(trail, q) && q in Selection(trail)
    ensures Contains(Positive(trail, q).value, Selection(trail)[q])
  {
    RootDecisionFollows(trail, level, root, rootVersion, requirements);
    assert Decided(trail, q) by {
      if q == root {
        assert trail[|requirements|].pkg == root && trail[|requirements|].decided;
      }
    }
    var i :| 0 <= i < |trail| && trail[i].pkg == q && trail[i].decided;
    assert WellKinded(trail[i]);
    SelectedIsDecided(trail, i);
    DecidedInRange(trail, i, trail[i].range.lower.v);
    SelectionMeaning(trail, q);
  }

  lemma SelectedHasDependencies(p: Provider, trail: Trail, level: nat, root: PackageId, rootVersion: Version,
                                requirements: seq<Dependency>, clauses: seq<Clause>, attached: set<nat>, q: PackageId)
    requires TrailOk(trail, level, root, rootVersion, requirements) && level >= 1
    requires ChoicesOk(p, root, trail, clauses, attached)
    requires Quiescent(trail, clauses, attached) && AllDecided(trail, root)
    requires RootFits(requirements, root, rootVersion)
    requires q in Selection(trail)
    ensures q != root ==> Offered(p, q, Selection(trail)[q])
    ensures DependenciesMet(Selection(trail), p.dependencies(q, Selection(trail)[q]))
  {
    var m := Selection(trail);
    SelectionMeaning(trail, q);
    SelectedIsOneOf(trail, q);
    var e :| 0 <= e < |trail| && Names(trail[e], q);
    PositiveWithin(trail, q, e);
    PositiveIsSelected(trail, level, root, rootVersion, requirements, q);
    var i :| 0 <= i < |trail| && trail[i].pkg == q && trail[i].decided;
    assert WellKinded(trail[i]);
    SelectedIsDecided(trail, i);
    var v := m[q];
    assert trail[i].range == Exact(v) && Registered(p, clauses, attached, q, v);
    var ds := p.dependencies(q, v).value;
    forall j | 0 <= j < |ds| ensures Meets(m, ds[j]) {
      assert HasClause(clauses, attached, DependencyTerms(q, v, ds[j]));
      var k :| k in attached && k < |clauses| && clauses[k].terms == DependencyTerms(q, v, ds[j]);
      assert !NeedsAction(trail, clauses, k);
      QuietDependencyMet(trail, root, clauses[k].terms, i, v, ds[j]);
      PositiveIsSelected(trail, level, root, rootVersion, requirements, ds[j].pkg);
      SubsetMembers(Positive(trail, ds[j].pkg).value, ds[j].range, m[ds[j].pkg]);
    }
  }

  /** The main result: a quiet trail on which every required package is decided
      reports a real solution, exactly when no root requirement contradicts the
      root version. */
  lemma QuietTrailIsSolution(p: Provider, trail: Trail, level: nat, root: PackageId, rootVersion: Version,
                             requirements: seq<Dependency>, clauses: seq<Clause>, attached: set<nat>)
    requires TrailOk(trail, level, root, rootVersion, requirements) && level >= 1
    requires ChoicesOk(p, root, trail, clauses, attached)
    requires Quiescent(trail, clauses, attached) && AllDecided(trail, root)
    ensures IsSolution(Selection(trail), p, root, rootVersion, requirements)
            <==> RootFits(requirements, root, rootVersion)
  {
    var m := Selection(trail);
    if RootFits(requirements, root, rootVersion) {
      forall q: PackageId | Positive(trail, q).Some?
        ensures Decided(trail, q) && q in m
        ensures Contains(Positive(trail, q).value, m[q])
      {
        PositiveIsSelected(trail, level, root, rootVersion, requirements, q);
      }
      RootDecisionFollows(trail, level, root, rootVersion, requirements);
      var r := |requirements|;
      PositiveWithin(trail, root, r);
      assert m[root] == rootVersion by {
        SelectionMeaning(trail, root);
        SelectedIsDecided(trail, r);
      }
      forall r | 0 <= r < |requirements| ensures Meets(m, requirements[r]) {
        var q := requirements[r].pkg;
        assert trail[r] == Requirement(requirements[r]);
        PositiveWithin(trail, q, r);
        PositiveContains(trail, q, m[q]);
      }
      forall q | q in m
        ensures q != root ==> Offered(p, q, m[q])
        ensures DependenciesMet(m, p.dependencies(q, m[q]))
      {
        SelectedHasDependencies(p, trail, level, root, rootVersion, requirements, clauses, attached, q);
      }
    } else {
      var r :| 0 <= r < |requirements| && requirements[r].pkg == root && !Contains(requirements[r].range, rootVersion);
      assert root in m && m[root] == rootVersion ==> !Meets(m, requirements[r]);
    }
  }

  /** The reported selection agrees with every entry of the final trail: what was
      required, decided, derived and forbidden. */
  lemma SelectionAgrees(trail: Trail, level: nat, root: PackageId, rootVersion: Version,
                        requirements: seq<Dependency>)
    requires TrailOk(trail, level, root, rootVersion, requirements) && level >= 1
    requires RootFits(requirements, root, rootVersion) && AllDecided(trail, root)
    ensures Agrees(Selection(trail), trail)
  {
    forall i | 0 <= i < |trail| ensures Holds(Selection(trail), Fact(trail[i])) {
      SelectionAgreesAt(trail, level, root, rootVersion, requirements, i);
    }
  }

  lemma SelectionAgreesAt(trail: Trail, level: nat, root: PackageId, rootVersion: Version,
                          requirements: seq<Dependency>, i: nat)
    requires TrailOk(trail, level, root, rootVersion, requirements) && level >= 1
    requires RootFits(requirements, root, rootVersion) && AllDecided(trail, root)
    requires i < |trail|
    ensures Holds(Selection(trail), Fact(trail[i]))
  {
    var m := Selection(trail);
    var q := trail[i].pkg;
    SelectionMeaning(trail, q);
    if trail[i].positive {
      PositiveWithin(trail, q, i);
      PositiveIsSelected(trail, level, root, rootVersion, requirements, q);
      PositiveContains(trail, q, m[q]);
    } else if q in m {
      SelectedIsOneOf(trail, q);
      var e :| 0 <= e < |trail| && Names(trail[e], q);
      PositiveWithin(trail, q, e);
      PositiveIsSelected(trail, level, root, rootVersion, requirements, q);
      var j :| 0 <= j < |trail| && trail[j].pkg == q && trail[j].decided;
      assert WellKinded(trail[j]);
      SelectedIsDecided(trail, j);
      assert !Forbids(trail[i], q, m[q]);
    }
  }
}
