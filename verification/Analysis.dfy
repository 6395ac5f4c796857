/** Conflict analysis: satisfiers, the backwards walk, where clauses come from,
    and what giving up does and does not prove. */
module Analysis {
  import opened Options
  import opened Versions
  import opened Ranges
  import opened Terms
  import opened Clauses
  import opened Trails
  import opened Propagation
  import opened Decisions

  /* -------------------------------------------------------------- satisfiers */

  /** The first trail index that settles a term, or |trail|. */
  function First(trail: Trail, t: Term): (i: nat)
    ensures i <= |trail|
    ensures i < |trail| ==> Settles(Fact(trail[i]), t)
    ensures forall j :: 0 <= j < i ==> !Settles(Fact(trail[j]), t)
  {
    if trail == [] then 0
    else
      var n := |trail| - 1;
      var i := First(trail[..n], t);
      assert forall j :: 0 <= j < n ==> trail[..n][j] == trail[j];
      if i < n then i else if Settles(Fact(trail[n]), t) then n else n + 1
  }

  lemma FirstUnique(trail: Trail, t: Term, i: nat)
    requires i <= |trail|
    requires i < |trail| ==> Settles(Fact(trail[i]), t)
    requires forall j :: 0 <= j < i ==> !Settles(Fact(trail[j]), t)
    ensures First(trail, t) == i
  {
  }

  /** The satisfier: the shortest prefix in which every term is settled by some
      entry on its own ends at index i, and t is the first term settled there. */
  ghost predicate SatisfierAt(trail: Trail, terms: seq<Term>, i: nat, t: nat) {
    && i < |trail| && t < |terms|
    && (forall u :: 0 <= u < |terms| ==> First(trail, terms[u]) <= i)
    && First(trail, terms[t]) == i
    && (forall u :: 0 <= u < t ==> First(trail, terms[u]) < i)
  }

  /** Every term is settled by an entry of its own below index n. */
  ghost predicate SettledBelow(trail: Trail, terms: seq<Term>, n: nat) {
    forall u :: 0 <= u < |terms| ==> First(trail, terms[u]) < n
  }

  /** The level of the latest entry settling a term, 0 when there is none. */
  function LastLevel(trail: Trail, t: Term): nat {
    if trail == [] then 0
    else
      var n := |trail| - 1;
      if Settles(Fact(trail[n]), t) then trail[n].level else LastLevel(trail[..n], t)
  }

  /** The highest level at which a term on another package was (last) settled. */
  ghost predicate PreviousLevel(trail: Trail, terms: seq<Term>, skip: PackageId, level: nat) {
    && (forall u :: 0 <= u < |terms| && terms[u].pkg != skip ==> LastLevel(trail, terms[u]) <= level)
    && (level != 0 ==>
          exists u :: 0 <= u < |terms| && terms[u].pkg != skip && LastLevel(trail, terms[u]) == level)
  }

  /** It is the level of the one entry that settles the term last. */
  lemma {:induction false} LastLevelIsLatest(trail: Trail, t: Term, j: nat)
    requires j < |trail| && Settles(Fact(trail[j]), t)
    requires forall i :: j < i < |trail| ==> !Settles(Fact(trail[i]), t)
    ensures LastLevel(trail, t) == trail[j].level
  {
    if j < |trail| - 1 {
      LastLevelIsLatest(trail[..|trail| - 1], t, j);
    }
  }

  /** With ordered levels: the highest level of an entry that settles the term, and 0
      when none does. */
  lemma {:induction false} LastLevelExact(trail: Trail, t: Term)
    requires forall i, j :: 0 <= i < j < |trail| ==> trail[i].level <= trail[j].level
    ensures forall j :: 0 <= j < |trail| && Settles(Fact(trail[j]), t) ==> trail[j].level <= LastLevel(trail, t)
    ensures LastLevel(trail, t) != 0 ==> exists j :: SettlesAtLevel(trail, t, j, LastLevel(trail, t))
  {
    hide Settles;
    if trail != [] {
      var n := |trail| - 1;
      var init := trail[..n];
      assert forall j :: 0 <= j < n ==> init[j] == trail[j];
      if Settles(Fact(trail[n]), t) {
        assert SettlesAtLevel(trail, t, n, trail[n].level);
      } else {
        LastLevelExact(init, t);
        if LastLevel(trail, t) != 0 {
          var j :| SettlesAtLevel(init, t, j, LastLevel(init, t));
          assert SettlesAtLevel(trail, t, j, LastLevel(trail, t));
        }
      }
    }
  }

  ghost predicate SettlesAtLevel(trail: Trail, t: Term, j: int, level: nat) {
    0 <= j < |trail| && Settles(Fact(trail[j]), t) && trail[j].level == level
  }

  /** The highest level of any entry that settles a term on another package. */
  ghost predicate HighestElsewhere(trail: Trail, terms: seq<Term>, skip: PackageId, level: nat) {
    && (forall u, j ::
          0 <= u < |terms| && terms[u].pkg != skip && 0 <= j < |trail| && Settles(Fact(trail[j]), terms[u]) ==>
          trail[j].level <= level)
    && (level != 0 ==>
          exists u, j :: 0 <= u < |terms| && terms[u].pkg != skip && SettlesAtLevel(trail, terms[u], j, level))
  }

  lemma PreviousLevelExact(trail: Trail, terms: seq<Term>, skip: PackageId, level: nat)
    requires forall i, j :: 0 <= i < j < |trail| ==> trail[i].level <= trail[j].level
    requires PreviousLevel(trail, terms, skip, level)
    ensures HighestElsewhere(trail, terms, skip, level)
  {
    hide Settles, LastLevel;
    forall u, j | 0 <= u < |terms| && terms[u].pkg != skip && 0 <= j < |trail| && Settles(Fact(trail[j]), terms[u])
      ensures trail[j].level <= level
    {
      LastLevelExact(trail, terms[u]);
    }
    if level != 0 {
      var u :| 0 <= u < |terms| && terms[u].pkg != skip && LastLevel(trail, terms[u]) == level;
      LastLevelExact(trail, terms[u]);
      var j :| SettlesAtLevel(trail, terms[u], j, level);
    }
  }

  /** A backjump target is never above the top of the trail. */
  lemma {:induction false} LastLevelBound(trail: Trail, t: Term, bound: nat)
    requires forall i :: 0 <= i < |trail| ==> trail[i].level <= bound
    ensures LastLevel(trail, t) <= bound
  {
    if trail != [] {
      LastLevelBound(trail[..|trail| - 1], t, bound);
    }
  }

  /* ------------------------------------------------------- where clauses come from */

  /** History of a clause: how it was recorded.  A no-versions clause remembers the
      trail and the attached clauses it was recorded with. */
  datatype Origin =
    | FromDependency(pkg: PackageId, version: Version, index: nat)
    | FromNoVersions(pkg: PackageId, range: Range, trail: Trail, attached: set<nat>)
    | FromResolution(left: nat, right: nat, leftTerm: nat, rightTerm: nat)

  ghost predicate OriginOk(p: Provider, root: PackageId, rootVersion: Version,
                           clauses: seq<Clause>, k: nat, o: Origin)
    requires k < |clauses|
  {
    match o
    case FromDependency(pkg, v, j) =>
      var ds := p.dependencies(pkg, v);
      && ds.Some? && j < |ds.value|
      && clauses[k] == Clause(DependencyTerms(pkg, v, ds.value[j]), DependencyReason, [])
      && (pkg == root ==> v == rootVersion)
    case FromNoVersions(pkg, range, trail, attached) =>
      && clauses[k] == Clause([Term(pkg, range, true)], NoVersionsReason, []) && pkg != root
      && OutOfVersions(p, trail, clauses[..k], attached, pkg, range)
    case FromResolution(l, r, t, u) =>
      && l < k && r < k && t < |clauses[l].terms| && u < |clauses[r].terms|
      && clauses[l].terms[t].pkg == clauses[r].terms[u].pkg
      && clauses[k] == Clause(Resolvent(clauses[l].terms, clauses[r].terms, clauses[l].terms[t].pkg),
                              InternalReason, [l, r])
      && Settles(Negated(clauses[r].terms[u]), clauses[l].terms[t])
      && forall choice :: !Escapes(clauses[l].terms, clauses[r].terms, clauses[l].terms[t].pkg, choice)
  }

  ghost predicate OriginsOk(p: Provider, root: PackageId, rootVersion: Version,
                            clauses: seq<Clause>, origins: seq<Origin>)
  {
    |origins| == |clauses| &&
    forall k {:trigger origins[k]} :: 0 <= k < |clauses| ==> OriginOk(p, root, rootVersion, clauses, k, origins[k])
  }

  lemma OriginsAppend(p: Provider, root: PackageId, rootVersion: Version, clauses: seq<Clause>,
                      origins: seq<Origin>, c: Clause, o: Origin)
    requires OriginsOk(p, root, rootVersion, clauses, origins)
    requires OriginOk(p, root, rootVersion, clauses + [c], |clauses|, o)
    ensures OriginsOk(p, root, rootVersion, clauses + [c], origins + [o])
  {
    forall k | 0 <= k < |clauses| + 1
      ensures OriginOk(p, root, rootVersion, clauses + [c], k, (origins + [o])[k])
    {
      if k < |clauses| {
        assert OriginOk(p, root, rootVersion, clauses, k, origins[k]);
        assert (clauses + [c])[..k] == clauses[..k];
      }
    }
  }

  predicate NoneOffered(versions: Option<seq<Version>>, range: Range) {
    versions.Some? ==> forall v :: v in versions.value ==> !Contains(range, v)
  }

  /** The one thing the code does not check about a recorded clause: that "no
      version is left" holds for the provider and not only for the current trail. */
  ghost predicate NoVersionsHold(p: Provider, clauses: seq<Clause>) {
    forall k :: 0 <= k < |clauses| && clauses[k].reason.NoVersionsReason? ==> NoVersionsHolds(p, clauses[k].terms)
  }

  ghost predicate NoVersionsHolds(p: Provider, terms: seq<Term>) {
    forall t :: 0 <= t < |terms| ==> NoneOffered(p.versions(terms[t].pkg), terms[t].range)
  }

  /** Every no-versions clause that a clause descends from holds for the provider. */
  ghost predicate RestsOnTrue(p: Provider, clauses: seq<Clause>, k: nat)
    requires k < |clauses|
    decreases k
  {
    && (clauses[k].reason.NoVersionsReason? ==> NoVersionsHolds(p, clauses[k].terms))
    && forall c :: c in clauses[k].causes && c < k ==> RestsOnTrue(p, clauses, c)
  }

  lemma {:induction false} AllRestOnTrue(p: Provider, clauses: seq<Clause>, k: nat)
    requires k < |clauses| && NoVersionsHold(p, clauses)
    ensures RestsOnTrue(p, clauses, k)
    decreases k
  {
    forall c | c in clauses[k].causes && c < k ensures RestsOnTrue(p, clauses, c) {
      AllRestOnTrue(p, clauses, c);
    }
  }

  /** Whole-run soundness of the clause database: a solution breaks every recorded
      clause that descends from no-versions clauses which hold for the provider. */
  lemma {:induction false} SolutionsBreakClauses(
      m: Model, p: Provider, root: PackageId, rootVersion: Version, requirements: seq<Dependency>,
      clauses: seq<Clause>, origins: seq<Origin>, k: nat)
    requires IsSolution(m, p, root, rootVersion, requirements)
    requires OriginsOk(p, root, rootVersion, clauses, origins)
    requires k < |clauses| && RestsOnTrue(p, clauses, k)
    ensures Breaks(m, clauses[k].terms)
    decreases k
  {
    assert OriginOk(p, root, rootVersion, clauses, k, origins[k]);
    match origins[k]
    case FromDependency(pkg, v, j) =>
      var terms := clauses[k].terms;
      if pkg in m && m[pkg] == v {
        assert DependenciesMet(m, p.dependencies(pkg, m[pkg]));
        assert !Holds(m, terms[1]);
      } else {
        assert !Holds(m, terms[0]);
      }
    case FromNoVersions(pkg, range, _, _) =>
      assert NoVersionsHolds(p, clauses[k].terms);
      assert !Holds(m, clauses[k].terms[0]);
    case FromResolution(l, r, t, u) =>
      assert l in clauses[k].causes && r in clauses[k].causes;
      SolutionsBreakClauses(m, p, root, rootVersion, requirements, clauses, origins, l);
      SolutionsBreakClauses(m, p, root, rootVersion, requirements, clauses, origins, r);
      ResolutionSound(clauses[l].terms, clauses[r].terms, clauses[l].terms[t].pkg, m);
  }

  /** Positive terms on the root package always name exactly the root version. */
  lemma {:induction false} PositiveRootTerms(
      p: Provider, root: PackageId, rootVersion: Version,
      clauses: seq<Clause>, origins: seq<Origin>, k: nat, t: Term)
    requires OriginsOk(p, root, rootVersion, clauses, origins)
    requires k < |clauses| && t in clauses[k].terms && t.positive && t.pkg == root
    ensures t.range == Exact(rootVersion)
  {
    assert OriginOk(p, root, rootVersion, clauses, k, origins[k]);
    match origins[k]
    case FromDependency(_, _, _) =>
    case FromNoVersions(_, _, _, _) =>
    case FromResolution(l, r, i, j) =>
      ResolventMembers(clauses[l].terms, clauses[r].terms, clauses[l].terms[i].pkg);
      PositiveRootTerms(p, root, rootVersion, clauses, origins,
                        if t in clauses[l].terms then l else r, t);
  }

  /* ------------------------------------------------------------------ giving up */

  predicate IsRootFailure(terms: seq<Term>, root: PackageId) {
    terms == [] || (|terms| == 1 && terms[0].positive && terms[0].pkg == root)
  }

  /** Why analysis ended without a learned clause, with the clause it ended on. */
  datatype GiveUp =
    | RootFailure(clause: nat)
    | NoSatisfier(clause: nat)
    | RootLevel(clause: nat, satisfier: nat, term: nat)
    | RootRequirement(clause: nat, satisfier: nat, term: nat)

  ghost predicate GiveUpOk(trail: Trail, clauses: seq<Clause>, root: PackageId, g: GiveUp) {
    && g.clause < |clauses|
    && AllSatisfied(trail, clauses[g.clause].terms)
    && ExitOk(trail, clauses[g.clause].terms, root, g)
  }

  ghost predicate ExitOk(trail: Trail, terms: seq<Term>, root: PackageId, g: GiveUp) {
    match g
    case RootFailure(_) => IsRootFailure(terms, root)
    case NoSatisfier(_) => !SettledBelow(trail, terms, |trail|)
    case RootLevel(_, i, t) =>
      && SatisfierAt(trail, terms, i, t)
      && PreviousLevel(trail, terms, trail[i].pkg, 0)
      && (trail[i].decided || trail[i].level == 0)
    case RootRequirement(_, i, t) =>
      SatisfierAt(trail, terms, i, t) && trail[i].level == 0
  }

  /** The clause a failure explanation starts from: the last clause of the walk, without
      the settled term where a root requirement settles it; the exit without a satisfier
      leaves whatever there was. */
  ghost predicate Explained(clauses: seq<Clause>, why: GiveUp, before: Option<Clause>, after: Option<Clause>) {
    why.clause < |clauses| &&
    match why
    case RootFailure(k) => after == Some(clauses[k])
    case NoSatisfier(k) => after == before
    case RootLevel(k, _, _) => after == Some(clauses[k])
    case RootRequirement(k, _, t) =>
      && t < |clauses[k].terms|
      && after == Some(Clause(clauses[k].terms[..t] + clauses[k].terms[t + 1..], InternalReason, [k]))
  }

  lemma RootRequirementExplained(clauses: seq<Clause>, k: nat, i: nat, t: nat, before: Option<Clause>)
    requires k < |clauses| && t < |clauses[k].terms|
    ensures Explained(clauses, RootRequirement(k, i, t), before,
                      Some(Clause(clauses[k].terms[..t] + clauses[k].terms[t + 1..], InternalReason, [k])))
  {
  }

  lemma ExplainedByItself(clauses: seq<Clause>, k: nat, i: nat, t: nat, before: Option<Clause>)
    requires k < |clauses|
    ensures Explained(clauses, RootFailure(k), before, Some(clauses[k]))
    ensures Explained(clauses, RootLevel(k, i, t), before, Some(clauses[k]))
    ensures Explained(clauses, NoSatisfier(k), before, before)
  {
  }

  /** The entries below an index, all from before the first decision but the root one,
      satisfy every term. */
  ghost predicate SettledAtRoot(trail: Trail, terms: seq<Term>, n: nat) {
    && n <= |trail| && (forall i :: 0 <= i < n ==> trail[i].level <= 1)
    && AllSatisfied(trail[..n], terms)
  }

  /** The causes of those entries descend from true no-versions clauses. */
  ghost predicate CausesRestOnTrue(p: Provider, trail: Trail, clauses: seq<Clause>, n: nat)
    requires n <= |trail|
  {
    forall i :: 0 <= i < n && trail[i].cause.Some? && trail[i].cause.value < |clauses| ==>
      RestsOnTrue(p, clauses, trail[i].cause.value)
  }

  /** When giving up on a clause can be trusted. */
  ghost predicate Proven(p: Provider, trail: Trail, clauses: seq<Clause>, k: nat, n: nat) {
    && k < |clauses| && SettledAtRoot(trail, clauses[k].terms, n)
    && RestsOnTrue(p, clauses, k) && CausesRestOnTrue(p, trail, clauses, n)
  }

  /** The level-0 and level-1 entries of a settled trail that a solution must agree with. */
  lemma SolutionAgreesWithRoot(m: Model, p: Provider, trail: Trail, level: nat, root: PackageId,
                               rootVersion: Version, requirements: seq<Dependency>, i: nat)
    requires IsSolution(m, p, root, rootVersion, requirements)
    requires TrailOk(trail, level, root, rootVersion, requirements)
    requires i < |trail| && trail[i].cause.None? && trail[i].level <= 1
    ensures Holds(m, Fact(trail[i]))
  {
    if trail[i].level == 0 {
      assert trail[i] == Requirement(requirements[i]);
      assert Meets(m, requirements[i]);
    }
  }

  /** What the root entries satisfy holds in every solution. */
  lemma SettledAtRootHolds(m: Model, p: Provider, trail: Trail, level: nat, root: PackageId, rootVersion: Version,
                           requirements: seq<Dependency>, clauses: seq<Clause>, terms: seq<Term>, n: nat)
    requires IsSolution(m, p, root, rootVersion, requirements)
    requires TrailOk(trail, level, root, rootVersion, requirements)
    requires AllJustified(trail, clauses) && ClausesProper(clauses)
    requires n <= |trail| && BreaksCauses(m, trail, clauses, n)
    requires SettledAtRoot(trail, terms, n) && TermsProper(terms)
    ensures !Breaks(m, terms)
  {
    hide IsSolution, AllJustified, StateOf, ClausesProper, BreaksCauses;
    forall i | 0 <= i < n && trail[i].cause.None? ensures Holds(m, Fact(trail[i])) {
      SolutionAgreesWithRoot(m, p, trail, level, root, rootVersion, requirements, i);
    }
    DerivedEntriesEntailed(m, trail, clauses, n);
    forall u | 0 <= u < |terms| ensures Holds(m, terms[u]) {
      SatisfiedIsSound(m, trail[..n], terms[u]);
    }
  }

  /** Whatever the exit: giving up on a clause that the root entries satisfy proves that
      there is no solution, if the clauses involved rest on true no-versions clauses. */
  lemma ProvenIsUnsolvable(p: Provider, trail: Trail, level: nat, root: PackageId, rootVersion: Version,
                           requirements: seq<Dependency>, clauses: seq<Clause>, origins: seq<Origin>, k: nat, n: nat)
    requires TrailOk(trail, level, root, rootVersion, requirements) && AllJustified(trail, clauses)
    requires ClausesProper(clauses) && OriginsOk(p, root, rootVersion, clauses, origins)
    requires Proven(p, trail, clauses, k, n)
    ensures forall m :: !IsSolution(m, p, root, rootVersion, requirements)
  {
    hide TrailOk, IsSolution, AllJustified, Breaks, SettledAtRoot, RestsOnTrue, OriginsOk;
    assert TermsProper(clauses[k].terms);
    WithinTrail(trail, clauses[k].terms, n);
    forall m ensures !IsSolution(m, p, root, rootVersion, requirements) {
      if IsSolution(m, p, root, rootVersion, requirements) {
        SolutionsBreakClauses(m, p, root, rootVersion, requirements, clauses, origins, k);
        forall i | 0 <= i < n && trail[i].cause.Some? && trail[i].cause.value < |clauses|
          ensures Breaks(m, clauses[trail[i].cause.value].terms)
        {
          SolutionsBreakClauses(m, p, root, rootVersion, requirements, clauses, origins, trail[i].cause.value);
        }
        SettledAtRootHolds(m, p, trail, level, root, rootVersion, requirements, clauses, clauses[k].terms, n);
      }
    }
  }

  lemma WithinTrail(trail: Trail, terms: seq<Term>, n: nat)
    requires SettledAtRoot(trail, terms, n)
    ensures n <= |trail|
  {
  }

  /** The exits that meet the condition by themselves: any before a decision above the
      root, the root failure, and those that blame a root requirement or decision. */
  predicate BlamesRoot(trail: Trail, level: nat, g: GiveUp) {
    level <= 1 ||
    match g
    case RootFailure(_) => true
    case NoSatisfier(_) => false
    case RootLevel(_, i, _) => i < |trail| && trail[i].level <= 1
    case RootRequirement(_, _, _) => true
  }

  /** Terms settled up to a root requirement or the root decision are satisfied there. */
  lemma SettledByRootEntry(trail: Trail, level: nat, root: PackageId, rootVersion: Version,
                           requirements: seq<Dependency>, i: nat, t: Term)
    requires TrailOk(trail, level, root, rootVersion, requirements)
    requires i < |trail| && trail[i].level <= 1 && (trail[i].decided || trail[i].level == 0)
    requires First(trail, t) <= i && !t.range.isEmpty
    ensures StateOf(trail[..i + 1], t) == Satisfied
  {
    hide StateOf, Settles;
    var j := First(trail, t);
    assert j < i ==> trail[j].level <= trail[i].level;
    assert j < i && trail[i].decided ==> trail[j].level < trail[i].level;
    assert WellKinded(trail[j]) && WellKinded(trail[i]);
    assert trail[..i + 1][j] == trail[j];
    EntrySatisfies(trail[..i + 1], j, t);
  }

  /** The root decision satisfies the positive root term of a root failure. */
  lemma RootFailureSettled(p: Provider, trail: Trail, level: nat, root: PackageId, rootVersion: Version,
                           requirements: seq<Dependency>, clauses: seq<Clause>, origins: seq<Origin>, k: nat)
    requires TrailOk(trail, level, root, rootVersion, requirements) && level >= 1
    requires OriginsOk(p, root, rootVersion, clauses, origins)
    requires k < |clauses| && IsRootFailure(clauses[k].terms, root)
    ensures SettledAtRoot(trail, clauses[k].terms, |requirements| + 1)
  {
    hide StateOf, OriginsOk;
    var r := |requirements|;
    RootDecisionFollows(trail, level, root, rootVersion, requirements);
    forall u | 0 <= u < |clauses[k].terms| ensures StateOf(trail[..r + 1], clauses[k].terms[u]) == Satisfied {
      PositiveRootTerms(p, root, rootVersion, clauses, origins, k, clauses[k].terms[u]);
      EntrySatisfies(trail[..r + 1], r, clauses[k].terms[u]);
    }
  }

  lemma BlamedRootIsSettled(p: Provider, trail: Trail, level: nat, root: PackageId, rootVersion: Version,
                            requirements: seq<Dependency>, clauses: seq<Clause>, origins: seq<Origin>, g: GiveUp)
    requires TrailOk(trail, level, root, rootVersion, requirements) && level >= 1
    requires ClausesProper(clauses) && OriginsOk(p, root, rootVersion, clauses, origins)
    requires GiveUpOk(trail, clauses, root, g) && BlamesRoot(trail, level, g)
    ensures exists n :: SettledAtRoot(trail, clauses[g.clause].terms, n)
  {
    hide StateOf, OriginsOk, First, TrailOk;
    var terms := clauses[g.clause].terms;
    assert TermsProper(terms);
    if level <= 1 {
      assert trail[..|trail|] == trail;
      SomethingToUndo(trail, level, root, rootVersion, requirements);
      assert SettledAtRoot(trail, terms, |trail|);
    } else if g.RootFailure? {
      RootFailureSettled(p, trail, level, root, rootVersion, requirements, clauses, origins, g.clause);
    } else {
      var i := g.satisfier;
      forall u | 0 <= u < |terms| ensures StateOf(trail[..i + 1], terms[u]) == Satisfied {
        SettledByRootEntry(trail, level, root, rootVersion, requirements, i, terms[u]);
      }
      TrailLevels(trail, level, root, rootVersion, requirements);
      assert SettledAtRoot(trail, terms, i + 1);
    }
  }

  /* -------------------------------------------------------------- steps of the walk */

  function FoundBelow(trail: Trail, t: Term, n: nat): Option<nat> {
    if First(trail, t) < n then Some(First(trail, t)) else None
  }

  lemma PreviousLevelAppend(trail: Trail, terms: seq<Term>, t: Term, skip: PackageId, before: nat, after: nat)
    requires PreviousLevel(trail, terms, skip, before)
    requires after == if t.pkg != skip && LastLevel(trail, t) > before then LastLevel(trail, t) else before
    ensures PreviousLevel(trail, terms + [t], skip, after)
  {
    var next := terms + [t];
    if after != 0 {
      if after == before {
        var u :| 0 <= u < |terms| && terms[u].pkg != skip && LastLevel(trail, terms[u]) == before;
        assert next[u] == terms[u];
      } else {
        assert next[|terms|] == t;
      }
    }
  }

  lemma PreviousLevelBound(trail: Trail, level: nat, root: PackageId, rootVersion: Version,
                           requirements: seq<Dependency>, terms: seq<Term>, skip: PackageId, previous: nat)
    requires TrailOk(trail, level, root, rootVersion, requirements)
    requires PreviousLevel(trail, terms, skip, previous)
    ensures previous <= level
  {
    if previous != 0 {
      var u :| 0 <= u < |terms| && terms[u].pkg != skip && LastLevel(trail, terms[u]) == previous;
      LastLevelBound(trail, terms[u], level);
    }
  }

  lemma SatisfierFacts(trail: Trail, terms: seq<Term>, i: nat, t: nat)
    requires SatisfierAt(trail, terms, i, t)
    ensures i < |trail| && t < |terms| && trail[i].pkg == terms[t].pkg && Settles(Fact(trail[i]), terms[t])
    ensures SettledBelow(trail, terms, |trail|)
    ensures forall n :: SettledBelow(trail, terms, n) ==> i < n
  {
    forall n | SettledBelow(trail, terms, n) ensures i < n {
      assert First(trail, terms[t]) < n;
    }
  }

  lemma RootFailureExit(trail: Trail, clauses: seq<Clause>, root: PackageId, k: nat)
    requires k < |clauses| && AllSatisfied(trail, clauses[k].terms)
    ensures IsRootFailure(clauses[k].terms, root) ==> GiveUpOk(trail, clauses, root, RootFailure(k))
    ensures !IsRootFailure(clauses[k].terms, root) ==> clauses[k].terms != []
  {
  }

  lemma NoSatisfierExit(trail: Trail, clauses: seq<Clause>, root: PackageId, k: nat)
    requires k < |clauses| && AllSatisfied(trail, clauses[k].terms)
    requires !SettledBelow(trail, clauses[k].terms, |trail|)
    ensures GiveUpOk(trail, clauses, root, NoSatisfier(k))
  {
    hide AllSatisfied, SettledBelow, SatisfierAt, PreviousLevel, IsRootFailure;
  }

  lemma RootLevelExit(trail: Trail, clauses: seq<Clause>, root: PackageId, k: nat, i: nat, t: nat, previous: nat)
    requires k < |clauses| && AllSatisfied(trail, clauses[k].terms)
    requires SatisfierAt(trail, clauses[k].terms, i, t) && i < |trail|
    requires PreviousLevel(trail, clauses[k].terms, trail[i].pkg, previous) && previous < 1
    requires trail[i].decided || previous == trail[i].level
    ensures GiveUpOk(trail, clauses, root, RootLevel(k, i, t))
  {
  }

  /** An uncaused entry that was not decided is a root requirement, so the
      source's "internal error" exit cannot be reached. */
  lemma RootRequirementExit(trail: Trail, level: nat, root: PackageId, rootVersion: Version,
                            requirements: seq<Dependency>, clauses: seq<Clause>, k: nat, i: nat, t: nat)
    requires TrailOk(trail, level, root, rootVersion, requirements)
    requires k < |clauses| && AllSatisfied(trail, clauses[k].terms)
    requires SatisfierAt(trail, clauses[k].terms, i, t) && i < |trail|
    requires !trail[i].decided && trail[i].cause.None?
    ensures GiveUpOk(trail, clauses, root, RootRequirement(k, i, t))
  {
    assert WellKinded(trail[i]);
  }

  lemma CauseExists(trail: Trail, clauses: seq<Clause>, i: nat)
    requires AllJustified(trail, clauses) && i < |trail| && trail[i].cause.Some?
    ensures trail[i].cause.value < |clauses|
  {
    assert Justified(trail[..i], trail[i], clauses);
  }
}
