/** Decisions: lookahead, candidates, the choice of a package, and the clauses a
    decided version leaves on record. */
module Decisions {
  import opened Options
  import opened Versions
  import opened Ranges
  import opened Terms
  import opened Clauses
  import opened Trails
  import opened Propagation
  import opened Bookkeeping

  /* ----------------------------------------------------------------- lookahead */

  /** Choosing a version would settle a whole clause, judged by the lookahead:
      membership for the package's own terms, the trail for the others. */
  ghost predicate WouldSatisfy(trail: Trail, terms: seq<Term>, pkg: PackageId, v: Version) {
    forall t :: 0 <= t < |terms| ==> Foresees(trail, terms[t], pkg, v)
  }

  ghost predicate Foresees(trail: Trail, term: Term, pkg: PackageId, v: Version) {
    if term.pkg == pkg then term.positive == Contains(term.range, v)
    else StateOf(trail, term) == Satisfied
  }

  lemma ForeseesExact(trail: Trail, term: Term, pkg: PackageId, v: Version, level: nat)
    requires Proper(term.range)
    requires Positive(trail, pkg).Some? && Contains(Positive(trail, pkg).value, v)
    ensures StateOf(trail + [Decision(pkg, v, level)], term) == Satisfied <==> Foresees(trail, term, pkg, v)
  {
    var a := Decision(pkg, v, level);
    if term.pkg == pkg {
      PositiveAppend(trail, a, pkg);
    } else {
      StateLocal(trail, a, term);
    }
  }

  /** The lookahead is exact: it foresees the state right after the decision. */
  lemma {:induction false} LookaheadExact(trail: Trail, terms: seq<Term>, pkg: PackageId, v: Version, level: nat)
    requires TermsProper(terms)
    requires Positive(trail, pkg).Some? && Contains(Positive(trail, pkg).value, v)
    ensures WouldSatisfy(trail, terms, pkg, v) <==>
            AllSatisfied(trail + [Decision(pkg, v, level)], terms)
  {
    hide StateOf, Foresees, Contains, Proper;
    forall t | 0 <= t < |terms|
      ensures StateOf(trail + [Decision(pkg, v, level)], terms[t]) == Satisfied <==> Foresees(trail, terms[t], pkg, v)
    {
      ForeseesExact(trail, terms[t], pkg, v, level);
    }
  }

  lemma MentionsAppend(terms: seq<Term>, t: Term, pkg: PackageId)
    ensures Mentions(terms + [t], [pkg]) <==> Mentions(terms, [pkg]) || t.pkg == pkg
  {
    var next := terms + [t];
    if Mentions(terms, [pkg]) {
      var i :| 0 <= i < |terms| && terms[i].pkg in [pkg];
      assert next[i].pkg in [pkg];
    }
    if t.pkg == pkg {
      assert next[|terms|].pkg in [pkg];
    }
  }

  ghost predicate ForeseenBy(trail: Trail, clauses: seq<Clause>, k: nat, pkg: PackageId, v: Version) {
    k < |clauses| && WouldSatisfy(trail, clauses[k].terms, pkg, v)
  }

  /** Some clause listed for the package would be satisfied by choosing the version. */
  ghost predicate Foreseen(trail: Trail, clauses: seq<Clause>, lists: seq<seq<nat>>, pkg: PackageId, v: Version) {
    pkg < |lists| && exists i :: 0 <= i < |lists[pkg]| && ForeseenBy(trail, clauses, lists[pkg][i], pkg, v)
  }

  ghost predicate Acceptable(trail: Trail, clauses: seq<Clause>, lists: seq<seq<nat>>, pkg: PackageId,
                             required: Range, v: Version) {
    && Contains(required, v)
    && Permitted(trail, pkg, v)
    && !Foreseen(trail, clauses, lists, pkg, v)
  }

  /** Deciding a version would put an attached clause in conflict. */
  ghost predicate Clashes(trail: Trail, clauses: seq<Clause>, attached: set<nat>, pkg: PackageId, v: Version) {
    exists k: nat :: ConflictAt(trail + [Decision(pkg, v, 0)], clauses, attached, k)
  }

  /** The level of a decision plays no part in what it satisfies. */
  lemma LevelIrrelevant(trail: Trail, pkg: PackageId, v: Version, l: nat, l': nat, term: Term)
    ensures StateOf(trail + [Decision(pkg, v, l)], term) == StateOf(trail + [Decision(pkg, v, l')], term)
  {
    hide Judge;
    PositiveAppend(trail, Decision(pkg, v, l), term.pkg);
    PositiveAppend(trail, Decision(pkg, v, l'), term.pkg);
    OverlappedAppend(trail, Decision(pkg, v, l), term);
    OverlappedAppend(trail, Decision(pkg, v, l'), term);
  }

  lemma ClashesAtAnyLevel(trail: Trail, clauses: seq<Clause>, attached: set<nat>, pkg: PackageId, v: Version, level: nat)
    ensures Clashes(trail, clauses, attached, pkg, v) <==>
            exists k: nat :: ConflictAt(trail + [Decision(pkg, v, level)], clauses, attached, k)
  {
    hide StateOf;
    forall k: nat
      ensures ConflictAt(trail + [Decision(pkg, v, level)], clauses, attached, k) <==>
              ConflictAt(trail + [Decision(pkg, v, 0)], clauses, attached, k)
    {
      if k in attached && k < |clauses| {
        forall t | 0 <= t < |clauses[k].terms|
          ensures StateOf(trail + [Decision(pkg, v, level)], clauses[k].terms[t]) ==
                  StateOf(trail + [Decision(pkg, v, 0)], clauses[k].terms[t])
        {
          LevelIrrelevant(trail, pkg, v, level, 0, clauses[k].terms[t]);
        }
      }
    }
  }

  /** In a quiescent state the three tests leave out exactly the versions that are out
      of range, forbidden, or would put an attached clause in conflict once decided. */
  lemma AcceptableExact(trail: Trail, clauses: seq<Clause>, attached: set<nat>, lists: seq<seq<nat>>,
                        pkg: PackageId, v: Version)
    requires IndexOk(clauses, attached, lists) && ClausesProper(clauses) && Quiescent(trail, clauses, attached)
    requires Positive(trail, pkg).Some?
    ensures Acceptable(trail, clauses, lists, pkg, Positive(trail, pkg).value, v) <==>
            Admissible(trail, pkg, v) && !Clashes(trail, clauses, attached, pkg, v)
  {
    hide StateOf, Contains, Permitted, IndexOk, WouldSatisfy;
    if Contains(Positive(trail, pkg).value, v) {
      if Foreseen(trail, clauses, lists, pkg, v) {
        var i :| 0 <= i < |lists[pkg]| && ForeseenBy(trail, clauses, lists[pkg][i], pkg, v);
        var k := lists[pkg][i];
        IndexSound(clauses, attached, lists, pkg, k);
        assert TermsProper(clauses[k].terms);
        LookaheadExact(trail, clauses[k].terms, pkg, v, 0);
        assert ConflictAt(trail + [Decision(pkg, v, 0)], clauses, attached, k);
      } else {
        forall k | k in attached
          ensures k < |clauses| && !AllSatisfied(trail + [Decision(pkg, v, 0)], clauses[k].terms)
        {
          ChoiceSettlesNone(trail, clauses, attached, lists, pkg, v, 0, k);
        }
      }
    }
  }

  /** So the candidates of a package are the offered versions that may be decided
      without contradicting the trail or putting an attached clause in conflict. */
  lemma CandidatesExact(p: Provider, trail: Trail, clauses: seq<Clause>, attached: set<nat>, lists: seq<seq<nat>>,
                        pkg: PackageId, v: Version)
    requires IndexOk(clauses, attached, lists) && ClausesProper(clauses) && Quiescent(trail, clauses, attached)
    requires Positive(trail, pkg).Some?
    ensures v in CandidatesOf(p, trail, clauses, lists, pkg) <==>
            Offered(p, pkg, v) && Admissible(trail, pkg, v) && !Clashes(trail, clauses, attached, pkg, v)
  {
    hide Acceptable, Admissible, Clashes, IndexOk, Quiescent;
    AcceptableExact(trail, clauses, attached, lists, pkg, v);
    if p.versions(pkg).Some? {
      CandidatesMembers(p.versions(pkg).value, trail, clauses, lists, pkg, Positive(trail, pkg).value, v);
    }
  }

  /** Nothing newer than a version could have been decided. */
  ghost predicate NothingNewer(p: Provider, trail: Trail, clauses: seq<Clause>, attached: set<nat>,
                               pkg: PackageId, chosen: Version) {
    forall v :: Offered(p, pkg, v) && Rank(v) > Rank(chosen) && Admissible(trail, pkg, v) ==>
      Clashes(trail, clauses, attached, pkg, v)
  }

  /** Nothing at all could have been decided. */
  ghost predicate NothingFits(p: Provider, trail: Trail, clauses: seq<Clause>, attached: set<nat>, pkg: PackageId) {
    forall v :: Offered(p, pkg, v) && Admissible(trail, pkg, v) ==> Clashes(trail, clauses, attached, pkg, v)
  }

  /** Why a no-versions clause is recorded: the package is required, it is not the root,
      the provider has answered, and nothing it offers could be decided. */
  ghost predicate OutOfVersions(p: Provider, trail: Trail, clauses: seq<Clause>, attached: set<nat>,
                                pkg: PackageId, range: Range) {
    && Positive(trail, pkg) == Some(range)
    && p.versions(pkg).Some? && NothingFits(p, trail, clauses, attached, pkg)
  }

  lemma NoCandidates(p: Provider, trail: Trail, clauses: seq<Clause>, attached: set<nat>, lists: seq<seq<nat>>,
                     pkg: PackageId)
    requires IndexOk(clauses, attached, lists) && ClausesProper(clauses) && Quiescent(trail, clauses, attached)
    requires Positive(trail, pkg).Some?
    ensures CandidatesOf(p, trail, clauses, lists, pkg) == [] <==> NothingFits(p, trail, clauses, attached, pkg)
  {
    hide CandidatesOf, Admissible, Clashes, IndexOk, Quiescent, Offered;
    var all := CandidatesOf(p, trail, clauses, lists, pkg);
    forall v
      ensures v in all <==>
              Offered(p, pkg, v) && Admissible(trail, pkg, v) && !Clashes(trail, clauses, attached, pkg, v)
    {
      CandidatesExact(p, trail, clauses, attached, lists, pkg, v);
    }
    if all != [] {
      assert all[0] in all;
    }
  }

  lemma BlockedIsOut(p: Provider, trail: Trail, clauses: seq<Clause>, attached: set<nat>, lists: seq<seq<nat>>,
                     pkg: PackageId, required: Range)
    requires IndexOk(clauses, attached, lists) && ClausesProper(clauses) && Quiescent(trail, clauses, attached)
    requires Positive(trail, pkg) == Some(required) && p.versions(pkg).Some?
    requires CandidatesOf(p, trail, clauses, lists, pkg) == []
    ensures OutOfVersions(p, trail, clauses, attached, pkg, required)
  {
    NoCandidates(p, trail, clauses, attached, lists, pkg);
  }

  /** What the choice of a version means for it and for the newer ones. */
  lemma ChoiceFits(p: Provider, trail: Trail, clauses: seq<Clause>, attached: set<nat>, lists: seq<seq<nat>>,
                   root: PackageId, pick: Pick)
    requires IndexOk(clauses, attached, lists) && ClausesProper(clauses) && Quiescent(trail, clauses, attached)
    requires IsChoice(p, trail, clauses, lists, root, pick)
    ensures pick.Best? && Offered(p, pick.pkg, pick.version) && Admissible(trail, pick.pkg, pick.version)
    ensures NewestFirst(p.versions(pick.pkg).value) ==>
      NothingNewer(p, trail, clauses, attached, pick.pkg, pick.version)
  {
    hide Acceptable, Admissible, Clashes, IndexOk, Quiescent, NewestFirst;
    var all := CandidatesOf(p, trail, clauses, lists, pick.pkg);
    assert all[0] in all;
    CandidatesExact(p, trail, clauses, attached, lists, pick.pkg, pick.version);
    if NewestFirst(p.versions(pick.pkg).value) {
      ChoiceLeavesNothingNewer(p, trail, clauses, attached, lists, root, pick);
    }
  }

  /** With versions listed newest first, every newer version had to be left out. */
  lemma ChoiceLeavesNothingNewer(p: Provider, trail: Trail, clauses: seq<Clause>, attached: set<nat>,
                                 lists: seq<seq<nat>>, root: PackageId, pick: Pick)
    requires IndexOk(clauses, attached, lists) && ClausesProper(clauses) && Quiescent(trail, clauses, attached)
    requires IsChoice(p, trail, clauses, lists, root, pick)
    requires NewestFirst(p.versions(pick.pkg).value)
    ensures NothingNewer(p, trail, clauses, attached, pick.pkg, pick.version)
  {
    hide Acceptable, Admissible, Clashes, IndexOk, Quiescent, NewestFirst;
    forall v | Offered(p, pick.pkg, v) && Rank(v) > Rank(pick.version) && Admissible(trail, pick.pkg, v)
      ensures Clashes(trail, clauses, attached, pick.pkg, v)
    {
      AcceptableExact(trail, clauses, attached, lists, pick.pkg, v);
      if Acceptable(trail, clauses, lists, pick.pkg, Positive(trail, pick.pkg).value, v) {
        ChoiceIsNewest(p, trail, clauses, lists, root, pick, v);
      }
    }
  }

  /* ---------------------------------------------------------------- candidates */

  /** The acceptable versions, in the provider's order. */
  ghost function Candidates(versions: seq<Version>, trail: Trail, clauses: seq<Clause>, lists: seq<seq<nat>>,
                            pkg: PackageId, required: Range): seq<Version>
  {
    if versions == [] then []
    else
      var n := |versions| - 1;
      Candidates(versions[..n], trail, clauses, lists, pkg, required) +
      if Acceptable(trail, clauses, lists, pkg, required, versions[n]) then [versions[n]] else []
  }

  /** Candidates of longer and longer prefixes. */
  lemma CandidatesStep(versions: seq<Version>, trail: Trail, clauses: seq<Clause>, lists: seq<seq<nat>>,
                       pkg: PackageId, required: Range)
    ensures Candidates(versions[..0], trail, clauses, lists, pkg, required) == []
    ensures forall i :: 0 <= i < |versions| ==>
      Candidates(versions[..i + 1], trail, clauses, lists, pkg, required) ==
      Candidates(versions[..i], trail, clauses, lists, pkg, required) +
      if Acceptable(trail, clauses, lists, pkg, required, versions[i]) then [versions[i]] else []
  {
    hide Acceptable;
    forall i | 0 <= i < |versions|
      ensures Candidates(versions[..i + 1], trail, clauses, lists, pkg, required) ==
              Candidates(versions[..i], trail, clauses, lists, pkg, required) +
              if Acceptable(trail, clauses, lists, pkg, required, versions[i]) then [versions[i]] else []
    {
      assert versions[..i + 1][..i] == versions[..i];
    }
  }

  lemma {:induction false} CandidatesMembers(versions: seq<Version>, trail: Trail, clauses: seq<Clause>,
                                             lists: seq<seq<nat>>, pkg: PackageId, required: Range, v: Version)
    ensures v in Candidates(versions, trail, clauses, lists, pkg, required) <==>
            v in versions && Acceptable(trail, clauses, lists, pkg, required, v)
  {
    if versions != [] {
      var n := |versions| - 1;
      CandidatesMembers(versions[..n], trail, clauses, lists, pkg, required, v);
      assert versions == versions[..n] + [versions[n]];
    }
  }

  /** ... and in the order of the list, each as often as it is listed. */
  lemma {:induction false} CandidatesConcat(a: seq<Version>, b: seq<Version>, trail: Trail, clauses: seq<Clause>,
                                            lists: seq<seq<nat>>, pkg: PackageId, required: Range)
    ensures Candidates(a + b, trail, clauses, lists, pkg, required) ==
            Candidates(a, trail, clauses, lists, pkg, required) + Candidates(b, trail, clauses, lists, pkg, required)
  {
    hide Acceptable;
    if b == [] {
      assert a + b == a;
    } else {
      var n := |b| - 1;
      assert (a + b)[..|a| + n] == a + b[..n];
      CandidatesConcat(a, b[..n], trail, clauses, lists, pkg, required);
    }
  }

  ghost function CandidatesOf(p: Provider, trail: Trail, clauses: seq<Clause>, lists: seq<seq<nat>>,
                              pkg: PackageId): seq<Version> {
    if p.versions(pkg).Some? && Positive(trail, pkg).Some?
    then Candidates(p.versions(pkg).value, trail, clauses, lists, pkg, Positive(trail, pkg).value)
    else []
  }

  ghost predicate Open(trail: Trail, root: PackageId, pkg: PackageId) {
    pkg != root && Positive(trail, pkg).Some? && !Decided(trail, pkg)
  }

  datatype Pick =
    | Best(pkg: PackageId, count: nat, version: Version)
    | Blocked(pkg: PackageId, required: Range)
    | NoPick
    | PickFailed

  /** A choice names an undecided package and the first of its candidates. */
  ghost predicate IsChoice(p: Provider, trail: Trail, clauses: seq<Clause>, lists: seq<seq<nat>>,
                           root: PackageId, pick: Pick) {
    pick.Best? && Open(trail, root, pick.pkg) &&
    var all := CandidatesOf(p, trail, clauses, lists, pick.pkg);
    all != [] && pick.count == |all| && pick.version == all[0]
  }

  /** Another undecided package has more candidates, or as many and a larger number. */
  ghost predicate NoWorse(p: Provider, trail: Trail, clauses: seq<Clause>, lists: seq<seq<nat>>,
                          root: PackageId, pick: Pick, q: PackageId) {
    Open(trail, root, q) ==>
      pick.Best? &&
      var n := |CandidatesOf(p, trail, clauses, lists, q)|;
      pick.count < n || (pick.count == n && pick.pkg <= q)
  }

  /** Every other package still to be decided has more candidates, or as many and a
      larger number. */
  ghost predicate FewestCandidates(p: Provider, trail: Trail, clauses: seq<Clause>, lists: seq<seq<nat>>,
                                   root: PackageId, pkg: PackageId) {
    forall q :: q != root && q != pkg && Positive(trail, q).Some? && !Decided(trail, q) ==>
      |CandidatesOf(p, trail, clauses, lists, pkg)| < |CandidatesOf(p, trail, clauses, lists, q)| ||
      (|CandidatesOf(p, trail, clauses, lists, pkg)| == |CandidatesOf(p, trail, clauses, lists, q)| && pkg < q)
  }

  lemma NoneWorseIsFewest(p: Provider, trail: Trail, clauses: seq<Clause>, lists: seq<seq<nat>>,
                          root: PackageId, pick: Pick)
    requires IsChoice(p, trail, clauses, lists, root, pick)
    requires forall q :: NoWorse(p, trail, clauses, lists, root, pick, q)
    ensures pick.Best? && FewestCandidates(p, trail, clauses, lists, root, pick.pkg)
  {
    hide CandidatesOf;
    forall q | q != root && q != pick.pkg && Positive(trail, q).Some? && !Decided(trail, q)
      ensures |CandidatesOf(p, trail, clauses, lists, pick.pkg)| < |CandidatesOf(p, trail, clauses, lists, q)| ||
              (|CandidatesOf(p, trail, clauses, lists, pick.pkg)| == |CandidatesOf(p, trail, clauses, lists, q)| &&
               pick.pkg < q)
    {
      assert NoWorse(p, trail, clauses, lists, root, pick, q);
    }
  }

  lemma BetterPick(p: Provider, trail: Trail, clauses: seq<Clause>, lists: seq<seq<nat>>,
                   root: PackageId, pick: Pick, better: Pick, bound: nat)
    requires forall q :: 0 <= q < bound ==> NoWorse(p, trail, clauses, lists, root, pick, q)
    requires IsChoice(p, trail, clauses, lists, root, better) && better.Best? && better.pkg == bound
    requires pick.Best? ==> pick.pkg < bound
    requires pick.Best? ==> better.count < pick.count || (better.count == pick.count && better.pkg < pick.pkg)
    ensures forall q :: 0 <= q < bound + 1 ==> NoWorse(p, trail, clauses, lists, root, better, q)
  {
    forall q | 0 <= q < bound ensures NoWorse(p, trail, clauses, lists, root, better, q) {
      assert NoWorse(p, trail, clauses, lists, root, pick, q);
    }
  }

  lemma ClosedIsNoWorse(p: Provider, trail: Trail, clauses: seq<Clause>, lists: seq<seq<nat>>,
                        root: PackageId, pick: Pick, q: PackageId)
    requires !Open(trail, root, q)
    ensures NoWorse(p, trail, clauses, lists, root, pick, q)
  {
  }

  lemma KeptIsNoWorse(p: Provider, trail: Trail, clauses: seq<Clause>, lists: seq<seq<nat>>,
                      root: PackageId, pick: Pick, q: PackageId)
    requires pick.Best? && pick.pkg <= q && pick.count <= |CandidatesOf(p, trail, clauses, lists, q)|
    ensures NoWorse(p, trail, clauses, lists, root, pick, q)
  {
  }

  lemma AbsentIsClosed(trail: Trail, states: seq<PkgState>, root: PackageId, q: PackageId)
    requires StatesOk(trail, states) && q >= |states|
    ensures !Open(trail, root, q)
  {
    if Positive(trail, q).Some? {
      PositiveNeedsEntry(trail, q);
    }
  }

  /** A chosen version is offered, lies in the required range, and settles no
      clause on record. */
  lemma ChoiceFacts(p: Provider, trail: Trail, clauses: seq<Clause>, attached: set<nat>, lists: seq<seq<nat>>,
                    root: PackageId, pick: Pick, level: nat)
    requires IsChoice(p, trail, clauses, lists, root, pick) && IndexOk(clauses, attached, lists)
    requires ClausesProper(clauses) && Quiescent(trail, clauses, attached)
    ensures pick.Best? && pick.pkg != root && !Decided(trail, pick.pkg)
    ensures Offered(p, pick.pkg, pick.version) && Permitted(trail, pick.pkg, pick.version)
    ensures Positive(trail, pick.pkg).Some? && Contains(Positive(trail, pick.pkg).value, pick.version)
    ensures forall k :: k in attached ==>
      k < |clauses| && !AllSatisfied(trail + [Decision(pick.pkg, pick.version, level)], clauses[k].terms)
  {
    var required := Positive(trail, pick.pkg).value;
    CandidatesMembers(p.versions(pick.pkg).value, trail, clauses, lists, pick.pkg, required, pick.version);
    forall k | k in attached
      ensures k < |clauses|
      ensures !AllSatisfied(trail + [Decision(pick.pkg, pick.version, level)], clauses[k].terms)
    {
      ChoiceSettlesNone(trail, clauses, attached, lists, pick.pkg, pick.version, level, k);
    }
  }

  /** A clause that mentions the package was foreseen; any other was quiet before. */
  lemma ChoiceSettlesNone(trail: Trail, clauses: seq<Clause>, attached: set<nat>, lists: seq<seq<nat>>,
                          pkg: PackageId, v: Version, level: nat, k: nat)
    requires IndexOk(clauses, attached, lists) && ClausesProper(clauses)
    requires Quiescent(trail, clauses, attached) && k in attached
    requires Positive(trail, pkg).Some? && Contains(Positive(trail, pkg).value, v)
    requires !Foreseen(trail, clauses, lists, pkg, v)
    ensures k < |clauses| && !AllSatisfied(trail + [Decision(pkg, v, level)], clauses[k].terms)
  {
    var terms := clauses[k].terms;
    assert TermsProper(terms);
    LookaheadExact(trail, terms, pkg, v, level);
    if Mentions(terms, [pkg]) {
      var t :| 0 <= t < |terms| && terms[t].pkg in [pkg];
      IndexFinds(clauses, attached, lists, k, t);
      var i :| 0 <= i < |lists[pkg]| && lists[pkg][i] == k;
      assert !ForeseenBy(trail, clauses, lists[pkg][i], pkg, v);
    } else {
      assert !NeedsAction(trail, clauses, k);
      if AllSatisfied(trail + [Decision(pkg, v, level)], terms) {
        ActionableLocal(trail, Decision(pkg, v, level), terms);
      }
    }
  }

  /* ----------------------------------------------------- recorded dependencies */

  ghost predicate HasClause(clauses: seq<Clause>, attached: set<nat>, terms: seq<Term>) {
    exists k :: k in attached && k < |clauses| && clauses[k].terms == terms
  }

  /** Every dependency of a version is recorded as an attached clause. */
  ghost predicate Registered(p: Provider, clauses: seq<Clause>, attached: set<nat>, pkg: PackageId, v: Version) {
    var ds := p.dependencies(pkg, v);
    ds.Some? &&
    forall j :: 0 <= j < |ds.value| ==> HasClause(clauses, attached, DependencyTerms(pkg, v, ds.value[j]))
  }

  /** The clauses added are one for each dependency, in order, and no others. */
  ghost predicate RecordsDependencies(before: seq<Clause>, after: seq<Clause>, pkg: PackageId, v: Version,
                                      ds: seq<Dependency>)
  {
    && before <= after && |after| == |before| + |ds|
    && forall j :: 0 <= j < |ds| ==>
         after[|before| + j] == Clause([Term(pkg, Exact(v), true), Term(ds[j].pkg, ds[j].range, false)],
                                       DependencyReason, [])
  }

  lemma NothingRecorded(clauses: seq<Clause>, pkg: PackageId, v: Version)
    ensures forall ds: seq<Dependency> :: RecordsDependencies(clauses, clauses, pkg, v, ds[..0])
  {
  }

  lemma OneMoreRecorded(before: seq<Clause>, after: seq<Clause>, pkg: PackageId, v: Version,
                        ds: seq<Dependency>, d: Dependency)
    requires RecordsDependencies(before, after, pkg, v, ds)
    ensures RecordsDependencies(before, after + [Clause(DependencyTerms(pkg, v, d), DependencyReason, [])],
                                pkg, v, ds + [d])
  {
  }

  lemma AllRegistered(p: Provider, clauses: seq<Clause>, attached: set<nat>, pkg: PackageId, v: Version)
    requires p.dependencies(pkg, v).Some?
    requires forall j :: 0 <= j < |p.dependencies(pkg, v).value| ==>
      HasClause(clauses, attached, DependencyTerms(pkg, v, p.dependencies(pkg, v).value[j]))
    ensures Registered(p, clauses, attached, pkg, v)
  {
  }

  predicate Offered(p: Provider, pkg: PackageId, v: Version) {
    p.versions(pkg).Some? && v in p.versions(pkg).value
  }

  /** Decided versions come from the provider and have their dependencies on record. */
  ghost predicate ChoicesOk(p: Provider, root: PackageId, trail: Trail, clauses: seq<Clause>, attached: set<nat>) {
    forall i :: 0 <= i < |trail| && trail[i].decided ==>
      && (trail[i].pkg != root ==> Offered(p, trail[i].pkg, trail[i].range.lower.v))
      && Registered(p, clauses, attached, trail[i].pkg, trail[i].range.lower.v)
  }

  lemma RegisteredGrows(p: Provider, clauses: seq<Clause>, attached: set<nat>, clauses': seq<Clause>,
                        attached': set<nat>, pkg: PackageId, v: Version)
    requires Registered(p, clauses, attached, pkg, v) && clauses <= clauses' && attached <= attached'
    ensures Registered(p, clauses', attached', pkg, v)
  {
    var ds := p.dependencies(pkg, v).value;
    forall j | 0 <= j < |ds| ensures HasClause(clauses', attached', DependencyTerms(pkg, v, ds[j])) {
      assert HasClause(clauses, attached, DependencyTerms(pkg, v, ds[j]));
    }
  }

  lemma ChoicesGrow(p: Provider, root: PackageId, trail: Trail, clauses: seq<Clause>, attached: set<nat>,
                    clauses': seq<Clause>, attached': set<nat>)
    requires ChoicesOk(p, root, trail, clauses, attached) && clauses <= clauses' && attached <= attached'
    ensures ChoicesOk(p, root, trail, clauses', attached')
  {
    forall i | 0 <= i < |trail| && trail[i].decided
      ensures Registered(p, clauses', attached', trail[i].pkg, trail[i].range.lower.v)
    {
      RegisteredGrows(p, clauses, attached, clauses', attached', trail[i].pkg, trail[i].range.lower.v);
    }
  }

  lemma ChoicesAppend(p: Provider, root: PackageId, trail: Trail, clauses: seq<Clause>, attached: set<nat>, a: Assignment)
    requires ChoicesOk(p, root, trail, clauses, attached)
    requires a.decided ==> (a.pkg != root ==> Offered(p, a.pkg, a.range.lower.v)) &&
                           Registered(p, clauses, attached, a.pkg, a.range.lower.v)
    ensures ChoicesOk(p, root, trail + [a], clauses, attached)
  {
  }

  /** The provider answers every question. */
  ghost predicate Answers(p: Provider) {
    (forall pkg :: p.versions(pkg).Some?) && (forall pkg, v :: p.dependencies(pkg, v).Some?)
  }

  lemma SilentProvider(p: Provider)
    ensures (exists pkg :: p.versions(pkg).None?) ==> !Answers(p)
    ensures (exists pkg, v :: p.dependencies(pkg, v).None?) ==> !Answers(p)
  {
  }

  lemma OpenFacts(trail: Trail, root: PackageId, pkg: PackageId)
    requires Open(trail, root, pkg)
    ensures pkg != root && Positive(trail, pkg).Some?
  {
  }

  lemma NothingOpen(p: Provider, trail: Trail, clauses: seq<Clause>, lists: seq<seq<nat>>, root: PackageId)
    requires forall q :: NoWorse(p, trail, clauses, lists, root, NoPick, q)
    ensures AllDecided(trail, root)
  {
    forall q | q != root && Positive(trail, q).Some? ensures Decided(trail, q) {
      assert NoWorse(p, trail, clauses, lists, root, NoPick, q);
    }
  }

  lemma ChoicesPrefix(p: Provider, root: PackageId, trail: Trail, clauses: seq<Clause>, attached: set<nat>, n: nat)
    requires ChoicesOk(p, root, trail, clauses, attached) && n <= |trail|
    ensures ChoicesOk(p, root, trail[..n], clauses, attached)
  {
  }

  /* --------------------------------------------------------------------- steps */

  /** Everything a derivation keeps. */
  lemma DerivationStep(p: Provider, trail: Trail, level: nat, root: PackageId, rootVersion: Version,
                       requirements: seq<Dependency>, clauses: seq<Clause>, attached: set<nat>,
                       k: nat, t: nat, a: Assignment, queue: seq<PackageId>, rest: seq<nat>)
    requires TrailOk(trail, level, root, rootVersion, requirements) && level >= 1
    requires AllJustified(trail, clauses) && ChoicesOk(p, root, trail, clauses, attached) && ClausesProper(clauses)
    requires k < |clauses| && UnitAt(trail, clauses[k].terms, t)
    requires a == Derived(clauses[k].terms[t], k, level)
    requires WorklistOk(trail, clauses, attached, queue, rest + [k])
    ensures TrailOk(trail + [a], level, root, rootVersion, requirements)
    ensures AllJustified(trail + [a], clauses) && ChoicesOk(p, root, trail + [a], clauses, attached)
    ensures Pending(trail + [a], clauses) < Pending(trail, clauses)
    ensures WorklistOk(trail + [a], clauses, attached, queue + [a.pkg], rest)
    ensures DerivedFrom(trail, trail + [a], level)
  {
    assert TermsProper(clauses[k].terms);
    DerivingKeepsTrail(trail, level, root, rootVersion, requirements, clauses[k].terms[t], k);
    JustifiedAppend(trail, a, clauses, t);
    ChoicesAppend(p, root, trail, clauses, attached, a);
    PendingShrinks(trail, clauses, k, t, a);
    WorklistAfterDerivation(trail, a, clauses, attached, k, t, queue, rest);
  }

  /** What a decision keeps before its dependencies are on record. */
  lemma DecisionStep(trail: Trail, level: nat, root: PackageId, rootVersion: Version,
                     requirements: seq<Dependency>, clauses: seq<Clause>, attached: set<nat>,
                     pkg: PackageId, v: Version, queue: seq<PackageId>)
    requires TrailOk(trail, level, root, rootVersion, requirements) && AllJustified(trail, clauses)
    requires WorklistOk(trail, clauses, attached, queue, [])
    requires !Decided(trail, pkg) && (level == 0 <==> pkg == root)
    requires pkg == root ==> v == rootVersion
    requires pkg != root ==> Permitted(trail, pkg, v)
    requires pkg != root ==> Positive(trail, pkg).Some? && Contains(Positive(trail, pkg).value, v)
    ensures Decision(pkg, v, level + 1).pkg == pkg
    ensures TrailOk(trail + [Decision(pkg, v, level + 1)], level + 1, root, rootVersion, requirements)
    ensures AllJustified(trail + [Decision(pkg, v, level + 1)], clauses)
    ensures WorklistOk(trail + [Decision(pkg, v, level + 1)], clauses, attached, queue + [pkg], [])
  {
    var a := Decision(pkg, v, level + 1);
    DecidingKeepsTrail(trail, level, root, rootVersion, requirements, pkg, v);
    JustifiedAppend(trail, a, clauses, 0);
    WorklistAfterPush(trail, a, clauses, attached, queue);
  }

  /** ... and once they are. */
  lemma DecisionRecorded(p: Provider, root: PackageId, trail: Trail, clauses: seq<Clause>, attached: set<nat>,
                         clauses': seq<Clause>, attached': set<nat>, pkg: PackageId, v: Version, level: nat)
    requires AllJustified(trail + [Decision(pkg, v, level)], clauses)
    requires ChoicesOk(p, root, trail, clauses, attached)
    requires clauses <= clauses' && attached <= attached'
    requires pkg != root ==> Offered(p, pkg, v)
    requires Registered(p, clauses', attached', pkg, v)
    ensures AllJustified(trail + [Decision(pkg, v, level)], clauses')
    ensures ChoicesOk(p, root, trail + [Decision(pkg, v, level)], clauses', attached')
  {
    JustifiedGrows(trail + [Decision(pkg, v, level)], clauses, clauses');
    ChoicesGrow(p, root, trail, clauses, attached, clauses', attached');
    ChoicesAppend(p, root, trail, clauses', attached', Decision(pkg, v, level));
  }

  /** Recording a root requirement before solving. */
  lemma RequirementStep(p: Provider, trail: Trail, root: PackageId, rootVersion: Version,
                        requirements: seq<Dependency>, clauses: seq<Clause>, attached: set<nat>,
                        d: Dependency, queue: seq<PackageId>)
    requires TrailOk(trail, 0, root, rootVersion, requirements) && Proper(d.range)
    requires Positive(trail, d.pkg).Some? ==> !Intersect(Positive(trail, d.pkg).value, d.range).isEmpty
    requires AllJustified(trail, clauses) && ChoicesOk(p, root, trail, clauses, attached)
    requires WorklistOk(trail, clauses, attached, queue, [])
    ensures TrailOk(trail + [Requirement(d)], 0, root, rootVersion, requirements + [d])
    ensures AllJustified(trail + [Requirement(d)], clauses)
    ensures ChoicesOk(p, root, trail + [Requirement(d)], clauses, attached)
    ensures WorklistOk(trail + [Requirement(d)], clauses, attached, queue + [d.pkg], [])
  {
    var a := Requirement(d);
    RequiringKeepsTrail(trail, root, rootVersion, requirements, d);
    JustifiedAppend(trail, a, clauses, 0);
    ChoicesAppend(p, root, trail, clauses, attached, a);
    WorklistAfterPush(trail, a, clauses, attached, queue);
  }

  /** With the provider's newest-first order, the choice is the newest acceptable version. */
  lemma ChoiceIsNewest(p: Provider, trail: Trail, clauses: seq<Clause>, lists: seq<seq<nat>>,
                       root: PackageId, pick: Pick, v: Version)
    requires IsChoice(p, trail, clauses, lists, root, pick)
    requires NewestFirst(p.versions(pick.pkg).value)
    requires Offered(p, pick.pkg, v)
    requires Acceptable(trail, clauses, lists, pick.pkg, Positive(trail, pick.pkg).value, v)
    ensures Compare(pick.version, v) >= 0
  {
    var versions := p.versions(pick.pkg).value;
    CandidatesOrdered(versions, trail, clauses, lists, pick.pkg, Positive(trail, pick.pkg).value);
    CandidatesMembers(versions, trail, clauses, lists, pick.pkg, Positive(trail, pick.pkg).value, v);
  }

  lemma {:induction false} CandidatesOrdered(versions: seq<Version>, trail: Trail, clauses: seq<Clause>,
                                             lists: seq<seq<nat>>, pkg: PackageId, required: Range)
    requires NewestFirst(versions)
    ensures NewestFirst(Candidates(versions, trail, clauses, lists, pkg, required))
  {
    if versions != [] {
      var n := |versions| - 1;
      var init := Candidates(versions[..n], trail, clauses, lists, pkg, required);
      CandidatesOrdered(versions[..n], trail, clauses, lists, pkg, required);
      forall v | v in init ensures Rank(v) > Rank(versions[n]) {
        CandidatesMembers(versions[..n], trail, clauses, lists, pkg, required, v);
      }
    }
  }
}
