/** The trail: its shape, the combined range of a package along it, and why
    deriving, deciding and backjumping keep both. */
module Trails {
  import opened Options
  import opened Versions
  import opened Ranges
  import opened Terms
  import opened Clauses

  /* --------------------------------------------------------------------- shape */

  function Requirement(d: Dependency): Assignment {
    Assignment(d.pkg, d.range, true, false, 0, None)
  }

  function Decision(pkg: PackageId, v: Version, level: nat): Assignment {
    Assignment(pkg, Exact(v), true, true, level, None)
  }

  function Derived(t: Term, cause: nat, level: nat): Assignment {
    Assignment(t.pkg, t.range, !t.positive, false, level, Some(cause))
  }

  /** Every entry is a decision of one exact version, a root requirement, or derived. */
  predicate WellKinded(a: Assignment) {
    && Proper(a.range)
    && if a.decided then a.positive && a.level >= 1 && a.cause.None? && a.range == Exact(a.range.lower.v)
       else if a.cause.None? then a.positive && a.level == 0
       else a.level >= 1
  }

  ghost predicate Opens(trail: Trail, i: nat, level: nat) {
    i < |trail| && trail[i].decided && trail[i].level == level
  }

  ghost predicate Opened(trail: Trail, level: nat) {
    exists i :: Opens(trail, i, level)
  }

  /** Levels never fall; a decision is the first entry of its level, its package
      was not decided before, and each level up to the current one has a decision.
      The root package holds level 1. */
  ghost predicate Layered(trail: Trail, level: nat, root: PackageId, rootVersion: Version) {
    && (forall i :: 0 <= i < |trail| ==> WellKinded(trail[i]) && trail[i].level <= level)
    && (forall i, j :: 0 <= i < j < |trail| ==> trail[i].level <= trail[j].level)
    && (forall i, j :: 0 <= i < j < |trail| && trail[j].decided ==>
          trail[i].level < trail[j].level && (trail[i].decided ==> trail[i].pkg != trail[j].pkg))
    && (forall i :: 0 <= i < |trail| && trail[i].decided ==>
          (trail[i].level == 1 <==> trail[i].pkg == root) &&
          (trail[i].pkg == root ==> trail[i].range == Exact(rootVersion)))
    && (forall l :: 1 <= l <= level ==> Opened(trail, l))
  }

  /** A root requirement on the root package itself is the one thing the source
      does not check against the root version. */
  ghost predicate RootFits(requirements: seq<Dependency>, root: PackageId, rootVersion: Version) {
    forall r :: 0 <= r < |requirements| && requirements[r].pkg == root ==>
      Contains(requirements[r].range, rootVersion)
  }

  /** The combined positive range of every package stays proper. */
  ghost predicate Feasible(trail: Trail, root: PackageId, fits: bool) {
    forall p :: Positive(trail, p).Some? && (p != root || fits) ==> Proper(Positive(trail, p).value)
  }

  /** The root requirements are exactly the level-0 entries, at the bottom. */
  ghost predicate Grounded(trail: Trail, requirements: seq<Dependency>) {
    && |requirements| <= |trail|
    && (forall i :: 0 <= i < |requirements| ==> trail[i] == Requirement(requirements[i]))
    && (forall i :: |requirements| <= i < |trail| ==> trail[i].level >= 1)
  }

  predicate Forbids(a: Assignment, pkg: PackageId, v: Version) {
    a.pkg == pkg && !a.positive && Contains(a.range, v)
  }

  /** No negative entry of the package forbids the version. */
  ghost predicate Permitted(trail: Trail, pkg: PackageId, v: Version) {
    forall i :: 0 <= i < |trail| ==> !Forbids(trail[i], pkg, v)
  }

  /** Every decided version is permitted by the whole trail, later entries included. */
  ghost predicate AllPermitted(trail: Trail) {
    forall i :: 0 <= i < |trail| && trail[i].decided ==> Permitted(trail, trail[i].pkg, trail[i].range.lower.v)
  }

  ghost predicate TrailOk(trail: Trail, level: nat, root: PackageId, rootVersion: Version,
                          requirements: seq<Dependency>)
  {
    && Layered(trail, level, root, rootVersion)
    && Grounded(trail, requirements)
    && Feasible(trail, root, RootFits(requirements, root, rootVersion))
    && AllPermitted(trail)
  }

  ghost predicate Decided(trail: Trail, pkg: PackageId) {
    exists i :: 0 <= i < |trail| && trail[i].pkg == pkg && trail[i].decided
  }

  ghost predicate AllDecided(trail: Trail, root: PackageId) {
    forall p :: p != root && Positive(trail, p).Some? ==> Decided(trail, p)
  }

  /* ----------------------------------------------------------- combined ranges */

  ghost predicate RangesProper(trail: Trail) {
    forall i :: 0 <= i < |trail| ==> Proper(trail[i].range)
  }

  /** A clause with a satisfied term mentions a package of the trail: why it is
      enough to queue those packages after a backjump. */
  lemma {:induction false} PositiveNeedsEntry(trail: Trail, pkg: PackageId)
    requires Positive(trail, pkg).Some?
    ensures exists i :: 0 <= i < |trail| && trail[i].pkg == pkg
  {
    var n := |trail| - 1;
    if trail[n].pkg != pkg {
      PositiveNeedsEntry(trail[..n], pkg);
      var i :| 0 <= i < n && trail[..n][i].pkg == pkg;
      assert trail[i].pkg == pkg;
    }
  }

  /** The combined range lies within each contributing range, and its flag is honest. */
  lemma {:induction false} PositiveWithin(trail: Trail, pkg: PackageId, i: nat)
    requires i < |trail| && trail[i].pkg == pkg && trail[i].positive
    ensures Positive(trail, pkg).Some? && Subset(Positive(trail, pkg).value, trail[i].range)
  {
    var n := |trail| - 1;
    if i < n {
      PositiveWithin(trail[..n], pkg, i);
    }
  }

  /** A positive entry that settles a term satisfies it. */
  lemma EntrySatisfies(trail: Trail, i: nat, t: Term)
    requires i < |trail| && trail[i].positive && !trail[i].range.isEmpty && !t.range.isEmpty
    requires Settles(Fact(trail[i]), t)
    ensures StateOf(trail, t) == Satisfied
  {
    PositiveWithin(trail, t.pkg, i);
  }

  lemma {:induction false} PositiveHonest(trail: Trail, pkg: PackageId)
    requires RangesProper(trail) && Positive(trail, pkg).Some?
    ensures var r := Positive(trail, pkg).value; r.isEmpty || LowKey(r) <= HighKey(r)
  {
    var n := |trail| - 1;
    assert Proper(trail[n].range);
    assert RangesProper(trail[..n]);
    if Positive(trail[..n], pkg).Some? {
      PositiveHonest(trail[..n], pkg);
    }
  }

  /** A version is in the combined range exactly when it is in every contributing one. */
  lemma {:induction false} PositiveContains(trail: Trail, pkg: PackageId, v: Version)
    requires Positive(trail, pkg).Some?
    ensures Contains(Positive(trail, pkg).value, v) <==>
            forall i :: 0 <= i < |trail| && trail[i].pkg == pkg && trail[i].positive ==> Contains(trail[i].range, v)
  {
    var n := |trail| - 1;
    var init := trail[..n];
    assert forall i :: 0 <= i < n ==> init[i] == trail[i];
    if Positive(init, pkg).Some? {
      PositiveContains(init, pkg, v);
      IntersectIsConjunction(Positive(init, pkg).value, trail[n].range, v);
    } else {
      forall i | 0 <= i < n && trail[i].positive ensures trail[i].pkg != pkg {
        if trail[i].pkg == pkg { PositiveWithin(init, pkg, i); }
      }
    }
  }

  /* --------------------------------------------------------- contradicted terms */

  /** A version the entries of its package leave open. */
  ghost predicate Admissible(trail: Trail, pkg: PackageId, v: Version) {
    && Permitted(trail, pkg, v)
    && (Positive(trail, pkg).Some? ==> Contains(Positive(trail, pkg).value, v))
  }

  ghost predicate NoneAdmissible(trail: Trail, term: Term) {
    forall v :: Contains(term.range, v) ==> !Admissible(trail, term.pkg, v)
  }

  ghost predicate AgreesElsewhere(m: Model, trail: Trail, pkg: PackageId) {
    forall i :: 0 <= i < |trail| && trail[i].pkg != pkg ==> Holds(m, Fact(trail[i]))
  }

  ghost predicate FailsThroughout(trail: Trail, term: Term) {
    forall m :: Agrees(m, trail) ==> !Holds(m, term)
  }

  lemma AgreeingIsAdmissible(m: Model, trail: Trail, pkg: PackageId)
    requires Agrees(m, trail) && pkg in m
    ensures Admissible(trail, pkg, m[pkg])
  {
    if Positive(trail, pkg).Some? {
      AgreeingModelInRange(m, trail, pkg);
    }
    forall i | 0 <= i < |trail| ensures !Forbids(trail[i], pkg, m[pkg]) {
      assert Holds(m, Fact(trail[i]));
    }
  }

  lemma AdmissibleAgrees(rest: Model, trail: Trail, pkg: PackageId, v: Version)
    requires AgreesElsewhere(rest, trail, pkg) && Admissible(trail, pkg, v)
    ensures Agrees(rest[pkg := v], trail)
  {
    forall i | 0 <= i < |trail| ensures Holds(rest[pkg := v], Fact(trail[i])) {
      if trail[i].pkg != pkg {
        assert Holds(rest, Fact(trail[i]));
      } else if trail[i].positive {
        PositiveWithin(trail, pkg, i);
        PositiveContains(trail, pkg, v);
      } else {
        assert !Forbids(trail[i], pkg, v);
      }
    }
  }

  /** Whatever the other packages do, a positive term fails in every agreeing model
      exactly when its range has no admissible version. */
  lemma PositiveFailsExact(rest: Model, trail: Trail, term: Term)
    requires AgreesElsewhere(rest, trail, term.pkg) && term.positive
    ensures FailsThroughout(trail, term) <==> NoneAdmissible(trail, term)
  {
    forall m | Agrees(m, trail) && Holds(m, term) ensures !NoneAdmissible(trail, term) {
      AgreeingIsAdmissible(m, trail, term.pkg);
    }
    forall v | Contains(term.range, v) && Admissible(trail, term.pkg, v) ensures !FailsThroughout(trail, term) {
      AdmissibleAgrees(rest, trail, term.pkg, v);
      assert Holds(rest[term.pkg := v], term);
    }
  }

  /** So the verdict "contradicted" is right for every negative term, and for a
      positive one exactly when no version of its range is admissible. */
  lemma ContradictedExact(rest: Model, trail: Trail, term: Term)
    requires AgreesElsewhere(rest, trail, term.pkg)
    requires StateOf(trail, term) == Contradicted && !term.range.isEmpty
    ensures FailsThroughout(trail, term) <==> (term.positive ==> NoneAdmissible(trail, term))
  {
    if term.positive {
      PositiveFailsExact(rest, trail, term);
    } else {
      forall m | Agrees(m, trail) ensures !Holds(m, term) {
        AgreeingModelInRange(m, trail, term.pkg);
        SubsetMembers(Positive(trail, term.pkg).value, term.range, m[term.pkg]);
      }
    }
  }

  /** The verdict compares with forbidden ranges by overlap: forbidding one version
      contradicts a positive term that any other version would satisfy. */
  lemma ContradictedByMereOverlap(v: Version, w: Version)
    requires v != w
    ensures var trail := [Assignment(7, Exact(v), false, false, 1, Some(0))];
            var term := Term(7, Any(), true);
            StateOf(trail, term) == Contradicted && !FailsThroughout(trail, term)
  {
    hide Contains, Exact, Any;
    var a := Assignment(7, Exact(v), false, false, 1, Some(0));
    var trail := [a];
    var term := Term(7, Any(), true);
    ExactContainsOne(v, w);
    AnyContainsAll(w);
    ExactMeetsAny(v);
    assert trail[..0] == [] && Positive(trail, 7) == Positive([], 7);
    assert Overlaps(trail[0], term);
    assert Holds(map[7 := w], Fact(a)) && Holds(map[7 := w], term);
    assert Agrees(map[7 := w], trail);
  }

  /* ------------------------------------------------------------------- prefixes */

  /** Undoing a suffix only widens the combined range. */
  lemma {:induction false} PositivePrefix(trail: Trail, n: nat, pkg: PackageId)
    requires n <= |trail| && Positive(trail[..n], pkg).Some?
    ensures Positive(trail, pkg).Some?
    ensures Proper(Positive(trail, pkg).value) ==> Proper(Positive(trail[..n], pkg).value)
  {
    if n < |trail| {
      var m := |trail| - 1;
      assert trail[..m][..n] == trail[..n];
      PositivePrefix(trail[..m], n, pkg);
    } else {
      assert trail[..n] == trail;
    }
  }

  /** The combined range has come down to at most one version. */
  ghost predicate PointAt(trail: Trail, pkg: PackageId, v: Version) {
    Positive(trail, pkg).Some? && Subset(Positive(trail, pkg).value, Exact(v))
  }

  /** From then on no term on the package is inconclusive. */
  lemma PointIsConclusive(trail: Trail, term: Term, v: Version)
    requires RangesProper(trail) && PointAt(trail, term.pkg, v)
    ensures StateOf(trail, term) != Inconclusive
  {
    PositiveHonest(trail, term.pkg);
  }

  lemma PointByEntry(trail: Trail, i: nat, v: Version)
    requires RangesProper(trail) && i < |trail| && trail[i].positive && Subset(trail[i].range, Exact(v))
    ensures PointAt(trail, trail[i].pkg, v)
  {
    PositiveWithin(trail, trail[i].pkg, i);
  }

  /** Once a package is decided, none of its terms is inconclusive any more. */
  lemma DecidedIsConclusive(trail: Trail, i: nat, term: Term)
    requires RangesProper(trail) && i < |trail|
    requires trail[i].decided && WellKinded(trail[i]) && trail[i].pkg == term.pkg
    ensures StateOf(trail, term) != Inconclusive
  {
    PointByEntry(trail, i, trail[i].range.lower.v);
    PointIsConclusive(trail, term, trail[i].range.lower.v);
  }

  lemma {:induction false} PointStays(trail: Trail, n: nat, pkg: PackageId, v: Version)
    requires n <= |trail| && PointAt(trail[..n], pkg, v)
    ensures PointAt(trail, pkg, v)
  {
    hide Subset, Exact, Intersect;
    if n < |trail| {
      var m := |trail| - 1;
      assert trail[..m][..n] == trail[..n];
      PointStays(trail[..m], n, pkg, v);
      NarrowingKeeps(Positive(trail[..m], pkg).value, trail[m].range, Exact(v));
    } else {
      assert trail[..n] == trail;
    }
  }

  /** In a feasible trail the decided version lies in the combined range. */
  lemma DecidedInRange(trail: Trail, i: nat, v: Version)
    requires i < |trail| && trail[i].decided && trail[i].positive && trail[i].range == Exact(v)
    requires Positive(trail, trail[i].pkg).Some? ==> Proper(Positive(trail, trail[i].pkg).value)
    ensures Positive(trail, trail[i].pkg).Some?
    ensures Contains(Positive(trail, trail[i].pkg).value, v)
    ensures Subset(Positive(trail, trail[i].pkg).value, Exact(v))
  {
    PositiveWithin(trail, trail[i].pkg, i);
  }

  /* ------------------------------------------------------ steps keep the shape */

  lemma DerivingKeepsLayers(trail: Trail, level: nat, root: PackageId, rootVersion: Version, a: Assignment)
    requires Layered(trail, level, root, rootVersion)
    requires WellKinded(a) && !a.decided && a.level == level
    ensures Layered(trail + [a], level, root, rootVersion)
  {
    forall l | 1 <= l <= level ensures Opened(trail + [a], l) {
      assert Opened(trail, l);
      var i :| Opens(trail, i, l);
      assert Opens(trail + [a], i, l);
    }
  }

  lemma DerivingKeepsFeasible(trail: Trail, root: PackageId, fits: bool, term: Term, a: Assignment)
    requires Feasible(trail, root, fits) && StateOf(trail, term) == Inconclusive
    requires Fact(a) == Negated(term) && Proper(a.range)
    ensures Feasible(trail + [a], root, fits)
  {
    forall p | Positive(trail + [a], p).Some? && (p != root || fits)
      ensures Proper(Positive(trail + [a], p).value)
    {
      PositiveAppend(trail, a, p);
    }
  }

  lemma PermittedAppend(trail: Trail, a: Assignment, pkg: PackageId, v: Version)
    ensures Permitted(trail + [a], pkg, v) <==> Permitted(trail, pkg, v) && !Forbids(a, pkg, v)
  {
    var next := trail + [a];
    assert next[|trail|] == a;
    assert forall i :: 0 <= i < |trail| ==> next[i] == trail[i];
  }

  /** A decided package gets no further entries, so nothing forbids its version later. */
  lemma DerivingKeepsPermitted(trail: Trail, term: Term, a: Assignment)
    requires AllPermitted(trail) && StateOf(trail, term) == Inconclusive
    requires forall i :: 0 <= i < |trail| ==> WellKinded(trail[i])
    requires Fact(a) == Negated(term) && !a.decided
    ensures AllPermitted(trail + [a])
  {
    var next := trail + [a];
    forall i | 0 <= i < |next| && next[i].decided ensures Permitted(next, next[i].pkg, next[i].range.lower.v) {
      assert next[i] == trail[i];
      if trail[i].pkg == term.pkg { DecidedIsConclusive(trail, i, term); }
      PermittedAppend(trail, a, trail[i].pkg, trail[i].range.lower.v);
    }
  }

  lemma PositiveKeepsPermitted(trail: Trail, a: Assignment)
    requires AllPermitted(trail) && a.positive
    requires a.decided ==> Permitted(trail, a.pkg, a.range.lower.v)
    ensures AllPermitted(trail + [a])
  {
    var next := trail + [a];
    forall i | 0 <= i < |next| && next[i].decided ensures Permitted(next, next[i].pkg, next[i].range.lower.v) {
      assert next[i] == if i < |trail| then trail[i] else a;
      PermittedAppend(trail, a, next[i].pkg, next[i].range.lower.v);
    }
  }

  lemma PrefixKeepsPermitted(trail: Trail, n: nat)
    requires AllPermitted(trail) && n <= |trail|
    ensures AllPermitted(trail[..n])
  {
    forall i | 0 <= i < n && trail[i].decided
      ensures Permitted(trail[..n], trail[i].pkg, trail[i].range.lower.v)
    {
      assert Permitted(trail, trail[i].pkg, trail[i].range.lower.v);
    }
  }

  lemma DerivingKeepsTrail(trail: Trail, level: nat, root: PackageId, rootVersion: Version,
                           requirements: seq<Dependency>, term: Term, k: nat)
    requires TrailOk(trail, level, root, rootVersion, requirements) && level >= 1
    requires StateOf(trail, term) == Inconclusive && Proper(term.range)
    ensures TrailOk(trail + [Derived(term, k, level)], level, root, rootVersion, requirements)
  {
    var a := Derived(term, k, level);
    DerivingKeepsLayers(trail, level, root, rootVersion, a);
    DerivingKeepsFeasible(trail, root, RootFits(requirements, root, rootVersion), term, a);
    DerivingKeepsPermitted(trail, term, a);
    assert Grounded(trail + [a], requirements);
  }

  lemma RequiringKeepsTrail(trail: Trail, root: PackageId, rootVersion: Version,
                            requirements: seq<Dependency>, d: Dependency)
    requires TrailOk(trail, 0, root, rootVersion, requirements) && Proper(d.range)
    requires Positive(trail, d.pkg).Some? ==> !Intersect(Positive(trail, d.pkg).value, d.range).isEmpty
    ensures TrailOk(trail + [Requirement(d)], 0, root, rootVersion, requirements + [d])
  {
    var a := Requirement(d);
    var fits := RootFits(requirements, root, rootVersion);
    var fits' := RootFits(requirements + [d], root, rootVersion);
    assert fits' ==> fits by {
      assert forall r :: 0 <= r < |requirements| ==> (requirements + [d])[r] == requirements[r];
    }
    forall p | Positive(trail + [a], p).Some? && (p != root || fits')
      ensures Proper(Positive(trail + [a], p).value)
    {
      PositiveAppend(trail, a, p);
    }
    PositiveKeepsPermitted(trail, a);
    assert |requirements| == |trail|;
    assert Layered(trail + [a], 0, root, rootVersion);
    assert Grounded(trail + [a], requirements + [d]);
  }

  lemma DecidingKeepsLayers(trail: Trail, level: nat, root: PackageId, rootVersion: Version,
                            pkg: PackageId, v: Version)
    requires Layered(trail, level, root, rootVersion)
    requires forall i :: 0 <= i < |trail| && trail[i].decided ==> trail[i].pkg != pkg
    requires level == 0 <==> pkg == root
    requires pkg == root ==> v == rootVersion
    ensures Layered(trail + [Decision(pkg, v, level + 1)], level + 1, root, rootVersion)
  {
    var a := Decision(pkg, v, level + 1);
    var next := trail + [a];
    assert Exact(v).lower.v == v;
    forall l | 1 <= l <= level + 1 ensures Opened(next, l) {
      if l <= level {
        assert Opened(trail, l);
        var i :| Opens(trail, i, l);
        assert Opens(next, i, l);
      } else {
        assert Opens(next, |trail|, l);
      }
    }
  }

  lemma DecidingKeepsFeasible(trail: Trail, root: PackageId, fits: bool, pkg: PackageId, v: Version, level: nat)
    requires Feasible(trail, root, fits)
    requires Positive(trail, pkg).Some? && (pkg != root || fits) ==> Contains(Positive(trail, pkg).value, v)
    ensures Feasible(trail + [Decision(pkg, v, level)], root, fits)
  {
    var a := Decision(pkg, v, level);
    forall p | Positive(trail + [a], p).Some? && (p != root || fits)
      ensures Proper(Positive(trail + [a], p).value)
    {
      PositiveAppend(trail, a, p);
    }
  }

  /** At the start only root requirements can concern the root package. */
  lemma RequirementsAdmitRoot(trail: Trail, root: PackageId, rootVersion: Version, requirements: seq<Dependency>)
    requires Layered(trail, 0, root, rootVersion) && Grounded(trail, requirements)
    requires RootFits(requirements, root, rootVersion) && Positive(trail, root).Some?
    ensures Contains(Positive(trail, root).value, rootVersion)
  {
    forall i | 0 <= i < |trail| && trail[i].pkg == root && trail[i].positive
      ensures Contains(trail[i].range, rootVersion)
    {
      assert trail[i].level <= 0;
      assert trail[i] == Requirement(requirements[i]);
    }
    PositiveContains(trail, root, rootVersion);
  }

  lemma DecidingKeepsTrail(trail: Trail, level: nat, root: PackageId, rootVersion: Version,
                           requirements: seq<Dependency>, pkg: PackageId, v: Version)
    requires TrailOk(trail, level, root, rootVersion, requirements)
    requires forall i :: 0 <= i < |trail| && trail[i].decided ==> trail[i].pkg != pkg
    requires level == 0 <==> pkg == root
    requires pkg == root ==> v == rootVersion
    requires pkg != root ==> Permitted(trail, pkg, v)
    requires pkg != root ==> Positive(trail, pkg).Some? && Contains(Positive(trail, pkg).value, v)
    ensures TrailOk(trail + [Decision(pkg, v, level + 1)], level + 1, root, rootVersion, requirements)
  {
    var fits := RootFits(requirements, root, rootVersion);
    if pkg == root && fits && Positive(trail, root).Some? {
      RequirementsAdmitRoot(trail, root, rootVersion, requirements);
    }
    DecidingKeepsLayers(trail, level, root, rootVersion, pkg, v);
    DecidingKeepsFeasible(trail, root, fits, pkg, v, level + 1);
    assert level == 0 ==> forall i :: 0 <= i < |trail| ==> trail[i].level <= 0 && trail[i].positive;
    PositiveKeepsPermitted(trail, Decision(pkg, v, level + 1));
    assert Grounded(trail + [Decision(pkg, v, level + 1)], requirements);
  }

  lemma BackjumpKeepsLayers(trail: Trail, level: nat, root: PackageId, rootVersion: Version, n: nat, target: nat)
    requires Layered(trail, level, root, rootVersion)
    requires n <= |trail| && target <= level
    requires forall i :: 0 <= i < n ==> trail[i].level <= target
    requires forall i :: n <= i < |trail| ==> trail[i].level > target
    ensures Layered(trail[..n], target, root, rootVersion)
  {
    forall l | 1 <= l <= target ensures Opened(trail[..n], l) {
      assert Opened(trail, l);
      var i :| Opens(trail, i, l);
      assert Opens(trail[..n], i, l);
    }
  }

  lemma BackjumpKeepsFeasible(trail: Trail, root: PackageId, fits: bool, n: nat)
    requires Feasible(trail, root, fits) && n <= |trail|
    ensures Feasible(trail[..n], root, fits)
  {
    forall p | Positive(trail[..n], p).Some? && (p != root || fits) ensures Proper(Positive(trail[..n], p).value) {
      PositivePrefix(trail, n, p);
    }
  }

  /** Above the requirements comes the root decision, whatever happened since. */
  lemma RootDecisionFollows(trail: Trail, level: nat, root: PackageId, rootVersion: Version,
                            requirements: seq<Dependency>)
    requires Layered(trail, level, root, rootVersion) && Grounded(trail, requirements) && level >= 1
    ensures |requirements| < |trail| && trail[|requirements|] == Decision(root, rootVersion, 1)
  {
    assert Opened(trail, 1);
    var i: nat :| Opens(trail, i, 1);
    assert forall r :: 0 <= r < |requirements| ==> !trail[r].decided;
    assert trail[|requirements|].level >= 1;
  }

  /** A backjump to a level of at least 1 keeps the shape, and with it the root
      requirements and the root decision. */
  lemma BackjumpKeepsTrail(trail: Trail, level: nat, root: PackageId, rootVersion: Version,
                           requirements: seq<Dependency>, n: nat, target: nat)
    requires TrailOk(trail, level, root, rootVersion, requirements)
    requires n <= |trail| && 1 <= target <= level
    requires forall i :: 0 <= i < n ==> trail[i].level <= target
    requires forall i :: n <= i < |trail| ==> trail[i].level > target
    ensures TrailOk(trail[..n], target, root, rootVersion, requirements)
    ensures |requirements| < n && trail[|requirements|] == Decision(root, rootVersion, 1)
  {
    BackjumpKeepsLayers(trail, level, root, rootVersion, n, target);
    BackjumpKeepsFeasible(trail, root, RootFits(requirements, root, rootVersion), n);
    PrefixKeepsPermitted(trail, n);
    RootDecisionFollows(trail, level, root, rootVersion, requirements);
    var r := |requirements|;
    assert forall i :: 0 <= i < r ==> trail[i].level == 0;
    assert r < n;
    assert Grounded(trail[..n], requirements);
  }

  lemma LayeredRanges(trail: Trail, level: nat, root: PackageId, rootVersion: Version)
    requires Layered(trail, level, root, rootVersion)
    ensures RangesProper(trail)
  {
  }

  /** A combined range that is not proper is flagged empty, and so is every overlap with it. */
  lemma InfeasibleIsEmpty(trail: Trail, level: nat, root: PackageId, rootVersion: Version,
                          requirements: seq<Dependency>, pkg: PackageId, range: Range)
    requires TrailOk(trail, level, root, rootVersion, requirements)
    requires Positive(trail, pkg).Some? && !Proper(Positive(trail, pkg).value)
    ensures Intersect(Positive(trail, pkg).value, range).isEmpty
  {
    LayeredRanges(trail, level, root, rootVersion);
    PositiveHonest(trail, pkg);
  }

  lemma TrailLevels(trail: Trail, level: nat, root: PackageId, rootVersion: Version, requirements: seq<Dependency>)
    requires TrailOk(trail, level, root, rootVersion, requirements)
    ensures forall i, j :: 0 <= i < j < |trail| ==> trail[i].level <= trail[j].level
  {
  }

  /** The current level has an entry, and no entry is above it. */
  lemma SomethingToUndo(trail: Trail, level: nat, root: PackageId, rootVersion: Version,
                        requirements: seq<Dependency>)
    requires TrailOk(trail, level, root, rootVersion, requirements)
    ensures forall i :: 0 <= i < |trail| ==> trail[i].level <= level
    ensures level >= 1 ==> trail != [] && trail[|trail| - 1].level == level
  {
    if level >= 1 {
      assert Opened(trail, level);
      var i: nat :| Opens(trail, i, level);
      assert trail[i].level <= trail[|trail| - 1].level;
    }
  }

  lemma NothingDecided(trail: Trail, root: PackageId, rootVersion: Version, requirements: seq<Dependency>)
    requires TrailOk(trail, 0, root, rootVersion, requirements)
    ensures forall p :: !Decided(trail, p)
  {
  }
}
