/** The version solver: a conflict-driven search over a trail of assignments. */
module Solver {
  import opened Options
  import opened Versions
  import opened Ranges
  import opened Terms
  import opened Clauses
  import opened Trails
  import opened Propagation
  import opened Bookkeeping
  import opened Decisions
  import opened Selections
  import opened Analysis
  import opened Walk

  const MAX_DECISIONS: nat := 200_000
  const MAX_PROPAGATIONS: nat := 1_000_000
  const MAX_CONFLICTS: nat := 200_000
  const MAX_PACKAGES: nat := 10_000
  const MAX_TRAIL_ASSIGNMENTS: nat := 200_000
  const MAX_INCOMPATIBILITIES: nat := 200_000

  /** Some limit of the solve loop is reached (the counters) or passed (the sizes). */
  predicate BudgetSpent(decisions: nat, propagations: nat, conflicts: nat, packages: nat, entries: nat, clauses: nat) {
    || decisions >= MAX_DECISIONS || propagations >= MAX_PROPAGATIONS || conflicts >= MAX_CONFLICTS
    || packages > MAX_PACKAGES || entries > MAX_TRAIL_ASSIGNMENTS || clauses > MAX_INCOMPATIBILITIES
  }

  datatype Status = Success | NoSolution | BudgetExceeded | InternalError

  datatype Verdict = Conflict | Unit(term: nat) | Idle

  datatype Evaluation = Skipped | Found(count: nat, first: Version) | NoneLeft(required: Range) | Failed

  datatype DecisionResult = Made(pick: Pick) | Impossible(clause: nat, pkg: PackageId) | NothingLeft | NoAnswer

  datatype Progress = Continue | Stop(status: Status)

  datatype Examination =
    | Exit(why: GiveUp)
    | Learn(level: nat, satisfier: nat, term: nat)
    | Resolve(level: nat, satisfier: nat, term: nat)

  datatype AnalysisResult = Learned(clause: nat, level: nat, satisfier: nat, term: nat) | GaveUp(why: GiveUp)

  class PgSolver {
    const provider: Provider
    const rootPkg: PackageId
    const rootVersion: Version

    var trail: Trail
    var pkgStates: seq<PkgState>

    var clauses: seq<Clause>
    var attached: set<nat>
    var lists: seq<seq<nat>>

    var level: nat
    var queue: seq<PackageId>
    var solved: bool
    var rootIncompatibility: Option<Clause>

    var cachedVersions: seq<seq<Version>>
    var cachedCounts: seq<int>

    var cacheHits: nat
    var cacheMisses: nat
    var decisions: nat
    var propagations: nat
    var conflicts: nat

    ghost var origins: seq<Origin>
    ghost var requirements: seq<Dependency>
    ghost var exit: Option<GiveUp>

    /** The clause database and its index agree, and every clause has its history. */
    ghost predicate Database()
      reads `clauses, `attached, `lists, `origins
    {
      && ProviderOk(provider)
      && ClausesProper(clauses)
      && OriginsOk(provider, rootPkg, rootVersion, clauses, origins)
      && IndexOk(clauses, attached, lists)
    }

    /** The trail has its shape, every entry its reason, and pkgStates follow it. */
    ghost predicate Sound()
      reads `trail, `pkgStates, `level, `requirements, `clauses, `attached
    {
      && StatesOk(trail, pkgStates)
      && TrailOk(trail, level, rootPkg, rootVersion, requirements)
      && AllJustified(trail, clauses)
      && ChoicesOk(provider, rootPkg, trail, clauses, attached)
    }

    /** What every reachable state keeps, whether or not propagation is complete. */
    ghost predicate Core()
      reads `clauses, `attached, `lists, `cachedVersions, `cachedCounts, `origins,
            `trail, `pkgStates, `level, `requirements
    {
      Database() && Sound() && CacheOk(provider, cachedVersions, cachedCounts)
    }

    ghost predicate Valid()
      reads this
    {
      && Core()
      && WorklistOk(trail, clauses, attached, queue, [])
      && (solved ==> Finished())
    }

    /** Nothing left to propagate or to decide. */
    ghost predicate Finished()
      reads `trail, `level, `clauses, `attached
    {
      level >= 1 && Quiescent(trail, clauses, attached) && AllDecided(trail, rootPkg)
    }

    /** Before solving: nothing but root requirements. */
    ghost predicate Setup()
      reads `level, `solved, `clauses, `attached, `decisions, `propagations, `conflicts, `rootIncompatibility
    {
      && rootIncompatibility == None
      && level == 0 && !solved && clauses == [] && attached == {}
      && decisions == 0 && propagations == 0 && conflicts == 0
    }

    /* The methods below hide all definitions and work with these summaries. */

    lemma DatabaseParts()
      requires Database()
      ensures ProviderOk(provider) && ClausesProper(clauses)
      ensures OriginsOk(provider, rootPkg, rootVersion, clauses, origins)
      ensures IndexOk(clauses, attached, lists)
      ensures forall k :: k in attached ==> k < |clauses|
      ensures forall pkg, k :: 0 <= pkg < |lists| && k in lists[pkg] ==> k in attached
    {
      forall pkg, k | 0 <= pkg < |lists| && k in lists[pkg] ensures k in attached {
        IndexSound(clauses, attached, lists, pkg, k);
      }
    }

    lemma SoundParts()
      requires Sound()
      ensures StatesOk(trail, pkgStates)
      ensures TrailOk(trail, level, rootPkg, rootVersion, requirements)
      ensures AllJustified(trail, clauses)
      ensures ChoicesOk(provider, rootPkg, trail, clauses, attached)
    {
    }

    lemma SoundFromParts()
      requires StatesOk(trail, pkgStates)
      requires TrailOk(trail, level, rootPkg, rootVersion, requirements)
      requires AllJustified(trail, clauses)
      requires ChoicesOk(provider, rootPkg, trail, clauses, attached)
      ensures Sound()
    {
    }

    lemma ValidParts()
      requires Valid()
      ensures Core() && Database() && Sound() && CacheOk(provider, cachedVersions, cachedCounts)
      ensures WorklistOk(trail, clauses, attached, queue, [])
      ensures Setup() <==> level == 0 && !solved && clauses == [] && attached == {} && decisions == 0 &&
                           propagations == 0 && conflicts == 0 && rootIncompatibility == None
      ensures solved ==> Finished()
    {
    }

    lemma FinishedFromParts()
      requires level >= 1 && Quiescent(trail, clauses, attached) && AllDecided(trail, rootPkg)
      ensures Finished()
    {
    }

    lemma SetupIsValid()
      requires Database() && Sound() && CacheOk(provider, cachedVersions, cachedCounts)
      requires WorklistOk(trail, clauses, attached, queue, []) && level == 0 && !solved
      ensures Valid()
    {
    }

    lemma SetupFromParts()
      requires level == 0 && !solved && clauses == [] && attached == {}
      requires decisions == 0 && propagations == 0 && conflicts == 0 && rootIncompatibility == None
      ensures Setup()
    {
    }

    lemma SolvedIsValid()
      requires Core() && WorklistOk(trail, clauses, attached, queue, []) && Finished()
      ensures Valid()
    {
    }

    lemma SolvedMeansSolution()
      requires Core() && Finished()
      ensures IsSolution(Selection(trail), provider, rootPkg, rootVersion, requirements)
              <==> RootFits(requirements, rootPkg, rootVersion)
      ensures RootFits(requirements, rootPkg, rootVersion) ==> Agrees(Selection(trail), trail)
    {
      if RootFits(requirements, rootPkg, rootVersion) {
        SelectionAgrees(trail, level, rootPkg, rootVersion, requirements);
      }
      QuietTrailIsSolution(provider, trail, level, rootPkg, rootVersion, requirements, clauses, attached);
    }

    lemma TrustedExit()
      requires Core() && exit.Some? && GiveUpOk(trail, clauses, rootPkg, exit.value)
      ensures (exists n :: Proven(provider, trail, clauses, exit.value.clause, n)) ==>
        forall m :: !IsSolution(m, provider, rootPkg, rootVersion, requirements)
      ensures level >= 1 && BlamesRoot(trail, level, exit.value) ==>
        exists n :: SettledAtRoot(trail, clauses[exit.value.clause].terms, n)
    {
      var k := exit.value.clause;
      if exists n :: Proven(provider, trail, clauses, k, n) {
        var n: nat :| Proven(provider, trail, clauses, k, n);
        ProvenIsUnsolvable(provider, trail, level, rootPkg, rootVersion, requirements, clauses, origins, k, n);
      }
      if level >= 1 && BlamesRoot(trail, level, exit.value) {
        BlamedRootIsSettled(provider, trail, level, rootPkg, rootVersion, requirements, clauses, origins, exit.value);
      }
    }

    lemma BudgetBound()
      ensures WithinBudget() <==>
        !BudgetSpent(decisions, propagations, conflicts, |pkgStates|, |trail|, |clauses|)
      ensures WithinBudget() ==>
        decisions < MAX_DECISIONS && propagations < MAX_PROPAGATIONS && conflicts < MAX_CONFLICTS
    {
    }

    lemma CoreParts()
      ensures Core() <==> Database() && Sound() && CacheOk(provider, cachedVersions, cachedCounts)
    {
    }

    constructor (provider: Provider, rootPkg: PackageId, rootVersion: Version)
      requires ProviderOk(provider)
      ensures Valid() && Setup() && requirements == []
      ensures this.provider == provider && this.rootPkg == rootPkg && this.rootVersion == rootVersion
    {
      this.provider, this.rootPkg, this.rootVersion := provider, rootPkg, rootVersion;
      trail, pkgStates := [], [];
      clauses, attached, lists := [], {}, [];
      level, queue, solved, rootIncompatibility := 0, [], false, None;
      cachedVersions, cachedCounts := [], [];
      cacheHits, cacheMisses, decisions, propagations, conflicts := 0, 0, 0, 0, 0;
      origins, requirements, exit := [], [], None;
    }

    /* ----------------------------------------------------------- reading the trail */

    /** One pass over the trail, as the source makes for every question about a term. */
    method TermStateNow(term: Term) returns (state: TermState)
      ensures state == StateOf(trail, term)
    {
      var positive: Option<Range> := None;
      var overlapped := false;
      for i := 0 to |trail|
        invariant positive == Positive(trail[..i], term.pkg)
        invariant term.positive ==> (overlapped <==> Overlapped(trail[..i], term))
      {
        var a := trail[i];
        assert trail[..i + 1] == trail[..i] + [a];
        PositiveAppend(trail[..i], a, term.pkg);
        OverlappedAppend(trail[..i], a, term);
        if a.pkg == term.pkg {
          if a.positive {
            positive := Some(if positive.None? then a.range else Intersect(positive.value, a.range));
          } else if term.positive && !Intersect(term.range, a.range).isEmpty {
            overlapped := true;
          }
        }
      }
      assert trail[..|trail|] == trail;
      state := Judge(positive, term, overlapped);
    }

    /** Fails when an intersection comes out empty, which feasible trails rule out. */
    method PositiveRange(pkg: PackageId) returns (ok: bool, range: Option<Range>)
      ensures ok ==> range == Positive(trail, pkg)
      ensures !ok ==> Positive(trail, pkg).Some? && !Proper(Positive(trail, pkg).value)
    {
      range := None;
      for i := 0 to |trail|
        invariant range == Positive(trail[..i], pkg)
      {
        var a := trail[i];
        assert trail[..i + 1] == trail[..i] + [a];
        PositiveAppend(trail[..i], a, pkg);
        if a.pkg == pkg && a.positive {
          if range.None? {
            range := Some(a.range);
          } else {
            range := Some(Intersect(range.value, a.range));
            if range.value.isEmpty {
              PositivePrefix(trail, i + 1, pkg);
              return false, range;
            }
          }
        }
      }
      assert trail[..|trail|] == trail;
      ok := true;
    }

    method IsForbidden(pkg: PackageId, v: Version) returns (b: bool)
      ensures b <==> !Permitted(trail, pkg, v)
    {
      for i := 0 to |trail|
        invariant forall j :: 0 <= j < i ==> !Forbids(trail[j], pkg, v)
      {
        var a := trail[i];
        if a.pkg == pkg && !a.positive && Contains(a.range, v) {
          assert Forbids(trail[i], pkg, v);
          return true;
        }
      }
      b := false;
    }

    /** The answer reported to the user: the first exact positive entry. */
    method GetSelectedVersion(pkg: int) returns (v: Option<Version>)
      ensures v == if pkg < 0 then None else Selected(trail, pkg)
    {
      for i := 0 to |trail|
        invariant pkg >= 0 ==> Selected(trail[..i], pkg) == None
      {
        var a := trail[i];
        assert trail[..i + 1][..i] == trail[..i];
        if a.pkg == pkg && a.positive && IsExact(a.range) {
          SelectedFirst(trail, i, pkg);
          return Some(a.range.lower.v);
        }
      }
      assert trail[..|trail|] == trail;
      v := None;
    }

    /* ------------------------------------------------------------- growing arrays */

    /** Reached from a positive capacity by doubling. */
    static predicate Doubled(capacity: nat, n: nat) {
      n == capacity || (capacity < n && n % 2 == 0 && Doubled(capacity, n / 2))
    }

    /** Capacity starts at pkg + 1 and doubles no further than needed. */
    static method Grown(capacity: nat, pkg: PackageId) returns (grown: nat)
      ensures grown > pkg && grown >= capacity
      ensures pkg < capacity ==> grown == capacity
      ensures capacity == 0 ==> grown == pkg + 1
      ensures 0 < capacity ==> Doubled(capacity, grown) && (grown > capacity ==> grown / 2 <= pkg)
    {
      if pkg < capacity {
        return capacity;
      }
      grown := if capacity == 0 then pkg + 1 else capacity;
      while grown <= pkg
        invariant grown >= 1 && grown >= capacity
        invariant capacity == 0 ==> grown == pkg + 1
        invariant 0 < capacity ==> Doubled(capacity, grown) && (grown > capacity ==> grown / 2 <= pkg)
        decreases pkg - grown
      {
        grown := grown * 2;
      }
    }

    method EnsureState(pkg: PackageId)
      requires StatesOk(trail, pkgStates)
      modifies `pkgStates
      ensures StatesOk(trail, pkgStates) && pkg < |pkgStates| && |old(pkgStates)| <= |pkgStates|
    {
      var capacity := Grown(|pkgStates|, pkg);
      forall p | |pkgStates| <= p < capacity ensures StateFrom(trail, p) == UNUSED {
        StateOfAbsent(trail, p);
      }
      pkgStates := pkgStates + seq(capacity - |pkgStates|, _ => UNUSED);
    }

    method EnsureList(pkg: PackageId)
      modifies `lists
      ensures pkg < |lists| && old(lists) <= lists
      ensures forall p :: |old(lists)| <= p < |lists| ==> lists[p] == []
    {
      var capacity := Grown(|lists|, pkg);
      lists := lists + seq(capacity - |lists|, _ => []);
    }

    /* ---------------------------------------------------------- recording clauses */

    /** Indexes a clause under the package of each of its terms and queues those packages. */
    method Attach(k: nat)
      requires IndexOk(clauses, attached, lists) && StatesOk(trail, pkgStates)
      requires k < |clauses| && k !in attached && clauses[k].terms != []
      modifies `pkgStates, `lists, `queue, `attached
      ensures IndexOk(clauses, attached, lists) && StatesOk(trail, pkgStates)
      ensures attached == old(attached) + {k}
      ensures queue == old(queue) + Packages(clauses[k].terms)
      ensures |old(pkgStates)| <= |pkgStates|
    {
      var terms := clauses[k].terms;
      for t := 0 to |terms|
        invariant StatesOk(trail, pkgStates) && |old(pkgStates)| <= |pkgStates|
        invariant attached == old(attached)
        invariant queue == old(queue) + Packages(terms)[..t]
        invariant forall j :: j in attached ==> j < |clauses| && clauses[j].terms != [] && Indexed(clauses[j].terms, lists)
        invariant Indexed(terms[..t], lists)
        invariant forall p, j: nat :: 0 <= p < |lists| ==>
          multiset(lists[p])[j] == Multiplicity(clauses, attached, p, j) + (if j == k then Occurrences(terms[..t], p) else 0)
      {
        var pkg := terms[t].pkg;
        assert terms[..t + 1] == terms[..t] + [terms[t]];
        EnsureState(pkg);
        ghost var before := lists;
        EnsureList(pkg);
        NewListsEmpty(clauses, attached, before, |lists|, terms[..t]);
        lists := lists[pkg := lists[pkg] + [k]];
        queue := queue + [pkg];
      }
      assert terms[..|terms|] == terms;
      attached := attached + {k};
    }

    /** Records and attaches a clause. */
    method AddClause(terms: seq<Term>, reason: Reason, ghost origin: Origin) returns (k: nat)
      requires Database() && StatesOk(trail, pkgStates) && terms != [] && TermsProper(terms)
      requires OriginOk(provider, rootPkg, rootVersion, clauses + [Clause(terms, reason, [])], |clauses|, origin)
      modifies `clauses, `origins, `pkgStates, `lists, `queue, `attached
      ensures Database() && StatesOk(trail, pkgStates) && |old(pkgStates)| <= |pkgStates|
      ensures k == |old(clauses)| && clauses == old(clauses) + [Clause(terms, reason, [])]
      ensures attached == old(attached) + {k} && origins == old(origins) + [origin]
      ensures queue == old(queue) + Packages(terms)
    {
      k := |clauses|;
      OriginsAppend(provider, rootPkg, rootVersion, clauses, origins, Clause(terms, reason, []), origin);
      clauses := clauses + [Clause(terms, reason, [])];
      origins := origins + [origin];
      IndexAppend(old(clauses), attached, lists, clauses[k]);
      Attach(k);
    }

    /* --------------------------------------------------------- pushing and undoing */

    method PushAssignment(a: Assignment)
      requires StatesOk(trail, pkgStates)
      modifies `trail, `pkgStates, `queue
      ensures trail == old(trail) + [a] && queue == old(queue) + [a.pkg]
      ensures StatesOk(trail, pkgStates) && |old(pkgStates)| <= |pkgStates|
    {
      EnsureState(a.pkg);
      forall p | 0 <= p < |pkgStates|
        ensures StateFrom(trail + [a], p) == if a.pkg == p then Record(pkgStates[p], a) else pkgStates[p]
      {
        StateAppend(trail, a, p);
      }
      trail := trail + [a];
      var state := pkgStates[a.pkg].(used := true);
      if a.decided && a.positive && IsExact(a.range) {
        state := state.(hasDecision := true, decision := a.range.lower.v);
      }
      pkgStates := pkgStates[a.pkg := state];
      queue := queue + [a.pkg];
    }

    /** Drops every entry above a level and rebuilds what was derived from the trail. */
    method BacktrackTo(target: int)
      requires StatesOk(trail, pkgStates)
      requires forall i, j :: 0 <= i < j < |trail| ==> trail[i].level <= trail[j].level
      modifies `trail, `pkgStates, `queue, `level
      ensures level == if target < 0 then 0 else target
      ensures |trail| <= |old(trail)| && trail == old(trail)[..|trail|]
      ensures forall i :: 0 <= i < |trail| ==> trail[i].level <= level
      ensures forall i :: |trail| <= i < |old(trail)| ==> old(trail)[i].level > level
      ensures queue == TrailPackages(trail)
      ensures StatesOk(trail, pkgStates) && |pkgStates| == |old(pkgStates)|
    {
      var to: nat := if target < 0 then 0 else target;
      var n := |trail|;
      while n > 0 && trail[n - 1].level > to
        invariant 0 <= n <= |trail|
        invariant forall i :: n <= i < |trail| ==> trail[i].level > to
      {
        n := n - 1;
      }
      trail := trail[..n];
      RebuildStates();
      level := to;
      Requeue();
    }

    /** Package states afresh from the whole trail. */
    method RebuildStates()
      requires forall i :: 0 <= i < |trail| ==> trail[i].pkg < |pkgStates|
      modifies `pkgStates
      ensures StatesOk(trail, pkgStates) && |pkgStates| == |old(pkgStates)|
    {
      pkgStates := seq(|pkgStates|, _ => UNUSED);
      for i := 0 to |trail|
        invariant |pkgStates| == |old(pkgStates)|
        invariant forall p :: 0 <= p < |pkgStates| ==> pkgStates[p] == StateFrom(trail[..i], p)
      {
        var a := trail[i];
        assert trail[..i + 1] == trail[..i] + [a];
        forall p | 0 <= p < |pkgStates|
          ensures StateFrom(trail[..i + 1], p) == if a.pkg == p then Record(pkgStates[p], a) else pkgStates[p]
        {
          StateAppend(trail[..i], a, p);
        }
        var state := pkgStates[a.pkg].(used := true);
        if a.decided && a.positive && IsExact(a.range) {
          state := state.(hasDecision := true, decision := a.range.lower.v);
        }
        pkgStates := pkgStates[a.pkg := state];
      }
      assert trail[..|trail|] == trail;
    }

    /** The queue afresh: the packages of the whole trail. */
    method Requeue()
      modifies `queue
      ensures queue == TrailPackages(trail)
    {
      queue := [];
      for i := 0 to |trail|
        invariant queue == TrailPackages(trail)[..i]
      {
        queue := queue + [trail[i].pkg];
      }
    }

    /* ------------------------------------------------------------ unit propagation */

    /** Classifies a clause: all terms satisfied, all but one, or neither. */
    method Inspect(k: nat) returns (verdict: Verdict)
      requires k < |clauses|
      ensures verdict.Conflict? <==> AllSatisfied(trail, clauses[k].terms)
      ensures verdict.Conflict? && k in attached ==> ConflictAt(trail, clauses, attached, k)
      ensures verdict.Unit? ==> verdict.term < |clauses[k].terms| && UnitAt(trail, clauses[k].terms, verdict.term)
      ensures verdict.Idle? ==> !NeedsAction(trail, clauses, k)
    {
      hide StateOf, Touched;
      var terms := clauses[k].terms;
      var open: Option<nat> := None;
      var satisfied := 0;
      for t := 0 to |terms|
        invariant open.Some? ==> open.value < t && StateOf(trail, terms[open.value]) == Inconclusive
        invariant forall u :: 0 <= u < t && open != Some(u) ==> StateOf(trail, terms[u]) == Satisfied
        invariant satisfied == if open.None? then t else t - 1
      {
        var state := TermStateNow(terms[t]);
        match state {
          case Satisfied => satisfied := satisfied + 1;
          case Contradicted => return Idle;
          case Inconclusive =>
            if open.Some? {
              return Idle;
            }
            open := Some(t);
        }
      }
      if open.None? {
        verdict := Conflict;
      } else {
        assert satisfied == |terms| - 1;
        verdict := Unit(open.value);
      }
    }

    /** Derives until a clause is in conflict or nothing is left to derive. */
    method UnitPropagate() returns (conflict: Option<nat>)
      requires Database() && Sound() && WorklistOk(trail, clauses, attached, queue, []) && level >= 1
      modifies `trail, `pkgStates, `queue
      ensures Sound() && |old(pkgStates)| <= |pkgStates| && DerivedFrom(old(trail), trail, level)
      ensures conflict.Some? ==> ConflictAt(trail, clauses, attached, conflict.value)
      ensures conflict.None? ==> queue == [] && Quiescent(trail, clauses, attached)
      ensures conflict.None? ==> WorklistOk(trail, clauses, attached, queue, [])
      ensures conflict.None? ==> forall k :: k in attached && k < |clauses| ==>
        ((exists t :: UnitAt(trail, clauses[k].terms, t)) <==>
         |clauses[k].terms| == 1 && !Touched(trail, clauses[k].terms[0].pkg))
      ensures conflict.None? ==> forall k :: !ConflictAt(old(trail), clauses, attached, k)
      ensures NoUnits(old(trail), clauses, attached) ==> trail == old(trail)
    {
      hide *;
      DerivedFromSelf(trail, level);
      conflict := None;
      while queue != [] && conflict.None?
        invariant NoUnits(old(trail), clauses, attached) ==> trail == old(trail)
        invariant Sound() && |old(pkgStates)| <= |pkgStates| && DerivedFrom(old(trail), trail, level)
        invariant conflict.None? ==> WorklistOk(trail, clauses, attached, queue, [])
        invariant conflict.Some? ==> ConflictAt(trail, clauses, attached, conflict.value)
        decreases Pending(trail, clauses), |queue|
      {
        ghost var before := trail;
        conflict := PropagateNext();
        DerivedFromTrans(old(trail), before, trail, level);
      }
      if conflict.None? {
        EmptyWorklist(trail, clauses, attached);
        QuietFromStart(old(trail), trail, clauses, attached, level);
        forall k | k in attached && k < |clauses|
          ensures (exists t :: UnitAt(trail, clauses[k].terms, t)) <==>
                  |clauses[k].terms| == 1 && !Touched(trail, clauses[k].terms[0].pkg)
        {
          UnitLeftBehind(trail, clauses, attached, k);
        }
      }
    }

    /** Takes the package queued last and visits its clauses. */
    method PropagateNext() returns (conflict: Option<nat>)
      requires Database() && Sound() && queue != [] && level >= 1
      requires WorklistOk(trail, clauses, attached, queue, [])
      modifies `trail, `pkgStates, `queue
      ensures Sound() && |old(pkgStates)| <= |pkgStates| && DerivedFrom(old(trail), trail, level)
      ensures conflict.Some? ==> ConflictAt(trail, clauses, attached, conflict.value)
      ensures conflict.None? ==> WorklistOk(trail, clauses, attached, queue, [])
      ensures Pending(trail, clauses) < old(Pending(trail, clauses)) ||
              (Pending(trail, clauses) == old(Pending(trail, clauses)) && |queue| < |old(queue)|)
      ensures NoUnits(old(trail), clauses, attached) ==> trail == old(trail)
    {
      hide *;
      DatabaseParts();
      DerivedFromSelf(trail, level);
      PoppedPackage(trail, clauses, attached, lists, queue);
      var pkg := queue[|queue| - 1];
      queue := queue[..|queue| - 1];
      conflict := None;
      if pkg < |lists| {
        conflict := ScanList(pkg);
      }
    }

    /** Visits the clauses of one package, latest first. */
    method ScanList(pkg: PackageId) returns (conflict: Option<nat>)
      requires Database() && Sound() && level >= 1 && pkg < |lists|
      requires WorklistOk(trail, clauses, attached, queue, lists[pkg])
      modifies `trail, `pkgStates, `queue
      ensures Sound() && |old(pkgStates)| <= |pkgStates| && DerivedFrom(old(trail), trail, level)
      ensures conflict.Some? ==> ConflictAt(trail, clauses, attached, conflict.value)
      ensures conflict.None? ==> WorklistOk(trail, clauses, attached, queue, [])
      ensures Pending(trail, clauses) < old(Pending(trail, clauses)) ||
              (Pending(trail, clauses) == old(Pending(trail, clauses)) && queue == old(queue))
      ensures NoUnits(old(trail), clauses, attached) ==> trail == old(trail)
    {
      hide *;
      DatabaseParts();
      DerivedFromSelf(trail, level);
      var list := lists[pkg];
      var idx := |list|;
      conflict := None;
      assert list[..idx] == list;
      while idx > 0 && conflict.None?
        invariant 0 <= idx <= |list|
        invariant Sound() && |old(pkgStates)| <= |pkgStates| && DerivedFrom(old(trail), trail, level)
        invariant NoUnits(old(trail), clauses, attached) ==> trail == old(trail)
        invariant conflict.None? ==> WorklistOk(trail, clauses, attached, queue, list[..idx])
        invariant conflict.Some? ==> ConflictAt(trail, clauses, attached, conflict.value)
        invariant Pending(trail, clauses) < old(Pending(trail, clauses)) ||
                  (Pending(trail, clauses) == old(Pending(trail, clauses)) && queue == old(queue))
      {
        idx := idx - 1;
        assert list[..idx + 1] == list[..idx] + [list[idx]];
        assert list[idx] in list;
        assert list[idx] in attached;
        ghost var before := trail;
        conflict := Visit(list[idx], list[..idx]);
        DerivedFromTrans(old(trail), before, trail, level);
      }
    }

    method Visit(k: nat, ghost rest: seq<nat>) returns (conflict: Option<nat>)
      requires Database() && Sound() && level >= 1 && k < |clauses| && k in attached
      requires WorklistOk(trail, clauses, attached, queue, rest + [k])
      modifies `trail, `pkgStates, `queue
      ensures Sound() && |old(pkgStates)| <= |pkgStates| && DerivedFrom(old(trail), trail, level)
      ensures conflict.Some? ==> conflict == Some(k) && ConflictAt(trail, clauses, attached, k)
      ensures conflict.None? ==> WorklistOk(trail, clauses, attached, queue, rest)
      ensures Pending(trail, clauses) < old(Pending(trail, clauses)) ||
              (trail == old(trail) && queue == old(queue))
      ensures NoUnits(old(trail), clauses, attached) ==> trail == old(trail)
    {
      hide *;
      DerivedFromSelf(trail, level);
      var verdict := Inspect(k);
      conflict := None;
      match verdict {
        case Conflict => conflict := Some(k);
        case Unit(t) =>
          UnitFound(trail, clauses, attached, k, t);
          Derive(k, t, rest);
        case Idle => IdleDone(trail, clauses, attached, queue, rest, k);
      }
    }

    /** Records the negation of the one open term of a clause. */
    method Derive(k: nat, t: nat, ghost rest: seq<nat>)
      requires Database() && Sound() && level >= 1 && k < |clauses| && UnitAt(trail, clauses[k].terms, t)
      requires t < |clauses[k].terms|
      requires WorklistOk(trail, clauses, attached, queue, rest + [k])
      modifies `trail, `pkgStates, `queue
      ensures Sound() && |old(pkgStates)| <= |pkgStates| && DerivedFrom(old(trail), trail, level)
      ensures trail == old(trail) + [Derived(clauses[k].terms[t], k, level)]
      ensures Pending(trail, clauses) < old(Pending(trail, clauses))
      ensures WorklistOk(trail, clauses, attached, queue, rest)
    {
      hide *;
      DatabaseParts();
      SoundParts();
      var a := Derived(clauses[k].terms[t], k, level);
      DerivationStep(provider, trail, level, rootPkg, rootVersion, requirements, clauses, attached, k, t, a, queue, rest);
      PushAssignment(a);
      SoundFromParts();
    }

    /* -------------------------------------------------------------------- lookahead */

    /** Whether choosing a version would settle every term of a clause of the package. */
    method ClauseWouldBeSatisfied(k: nat, pkg: PackageId, v: Version) returns (b: bool)
      requires k < |clauses|
      ensures b <==> WouldSatisfy(trail, clauses[k].terms, pkg, v) && Mentions(clauses[k].terms, [pkg])
    {
      hide StateOf, Contains;
      var terms := clauses[k].terms;
      var found := false;
      for t := 0 to |terms|
        invariant forall u :: 0 <= u < t ==> Foresees(trail, terms[u], pkg, v)
        invariant found <==> Mentions(terms[..t], [pkg])
      {
        assert terms[..t + 1] == terms[..t] + [terms[t]];
        MentionsAppend(terms[..t], terms[t], pkg);
        if terms[t].pkg == pkg {
          if terms[t].positive != Contains(terms[t].range, v) {
            assert !Foresees(trail, terms[t], pkg, v);
            return false;
          }
          found := true;
        } else {
          var state := TermStateNow(terms[t]);
          if state != Satisfied {
            assert !Foresees(trail, terms[t], pkg, v);
            return false;
          }
        }
      }
      assert terms[..|terms|] == terms;
      b := found;
    }

    method VersionWouldConflict(pkg: PackageId, v: Version) returns (b: bool)
      requires IndexOk(clauses, attached, lists)
      ensures b <==> Foreseen(trail, clauses, lists, pkg, v)
    {
      b := false;
      if pkg < |lists| {
        for i := 0 to |lists[pkg]|
          invariant forall j :: 0 <= j < i ==> !ForeseenBy(trail, clauses, lists[pkg][j], pkg, v)
        {
          var k := lists[pkg][i];
          IndexSound(clauses, attached, lists, pkg, k);
          ListedMentions(clauses, attached, lists, pkg, k);
          var hit := ClauseWouldBeSatisfied(k, pkg, v);
          if hit {
            assert ForeseenBy(trail, clauses, lists[pkg][i], pkg, v);
            return true;
          }
        }
      }
    }

    /* -------------------------------------------------------------------- decisions */

    /** The provider's versions, asked for once per package. */
    method FetchVersions(pkg: PackageId) returns (versions: Option<seq<Version>>)
      requires CacheOk(provider, cachedVersions, cachedCounts)
      modifies `cachedVersions, `cachedCounts, `cacheHits, `cacheMisses
      ensures CacheOk(provider, cachedVersions, cachedCounts)
      ensures versions == provider.versions(pkg)
      ensures pkg < |old(cachedCounts)| && old(cachedCounts)[pkg] != -1 ==>
        cacheHits == old(cacheHits) + 1 && cacheMisses == old(cacheMisses)
      ensures !(pkg < |old(cachedCounts)| && old(cachedCounts)[pkg] != -1) ==>
        cacheHits == old(cacheHits) && cacheMisses == old(cacheMisses) + 1
      ensures versions.Some? ==> pkg < |cachedCounts| && cachedCounts[pkg] != -1
    {
      if pkg < |cachedCounts| && cachedCounts[pkg] != -1 {
        cacheHits := cacheHits + 1;
        return Some(cachedVersions[pkg]);
      }
      cacheMisses := cacheMisses + 1;
      versions := provider.versions(pkg);
      if versions.None? {
        return;
      }
      if pkg >= |cachedCounts| {
        var more := (pkg + 1) * 2 - |cachedCounts|;
        cachedVersions := cachedVersions + seq(more, _ => []);
        cachedCounts := cachedCounts + seq(more, _ => -1);
      }
      cachedVersions := cachedVersions[pkg := versions.value];
      cachedCounts := cachedCounts[pkg := |versions.value|];
    }

    /** The three tests of the source, in its order. */
    method IsAcceptable(pkg: PackageId, required: Range, v: Version) returns (b: bool)
      requires IndexOk(clauses, attached, lists)
      ensures b <==> Acceptable(trail, clauses, lists, pkg, required, v)
    {
      hide Permitted, Foreseen, IndexOk;
      if !Contains(required, v) {
        return false;
      }
      var forbidden := IsForbidden(pkg, v);
      if forbidden {
        return false;
      }
      var conflicting := VersionWouldConflict(pkg, v);
      b := !conflicting;
    }

    /** Counts the acceptable versions and remembers the first. */
    method CountCandidates(versions: seq<Version>, pkg: PackageId, required: Range)
      returns (count: nat, first: Version)
      requires IndexOk(clauses, attached, lists)
      ensures var all := Candidates(versions, trail, clauses, lists, pkg, required);
              count == |all| && (count > 0 ==> first == all[0])
    {
      hide *;
      CandidatesStep(versions, trail, clauses, lists, pkg, required);
      count, first := 0, ZERO;
      for i := 0 to |versions|
        invariant var some := Candidates(versions[..i], trail, clauses, lists, pkg, required);
                  count == |some| && (count > 0 ==> first == some[0])
      {
        var acceptable := IsAcceptable(pkg, required, versions[i]);
        if acceptable {
          if count == 0 {
            first := versions[i];
          }
          count := count + 1;
        }
      }
      assert versions[..|versions|] == versions;
    }

    /** Evaluates a package if it is required and undecided. */
    method Assess(pkg: PackageId) returns (e: Evaluation)
      requires Database() && Sound() && CacheOk(provider, cachedVersions, cachedCounts) && pkg < |pkgStates|
      modifies `cachedVersions, `cachedCounts, `cacheHits, `cacheMisses
      ensures CacheOk(provider, cachedVersions, cachedCounts)
      ensures e.Skipped? <==> !Open(trail, rootPkg, pkg)
      ensures e.Failed? ==> provider.versions(pkg).None?
      ensures e.Found? ==> var all := CandidatesOf(provider, trail, clauses, lists, pkg);
                           all != [] && e == Found(|all|, all[0])
      ensures e.Found? ==> IsChoice(provider, trail, clauses, lists, rootPkg, Best(pkg, e.count, e.first))
      ensures e.NoneLeft? ==>
        && CandidatesOf(provider, trail, clauses, lists, pkg) == []
        && Positive(trail, pkg) == Some(e.required) && provider.versions(pkg).Some?
    {
      StateMeaning(trail, pkg);
      if Positive(trail, pkg).Some? {
        PositiveNeedsEntry(trail, pkg);
      }
      if pkg == rootPkg || !pkgStates[pkg].used || pkgStates[pkg].hasDecision {
        return Skipped;
      }
      var ok, required := PositiveRange(pkg);
      assert ok;
      if required.None? {
        return Skipped;
      }
      var versions := FetchVersions(pkg);
      if versions.None? {
        return Failed;
      }
      var count, first := CountCandidates(versions.value, pkg, required.value);
      e := if count > 0 then Found(count, first) else NoneLeft(required.value);
    }

    /** The undecided package with the fewest candidates, the smallest on a tie;
        the search stops at a package that has none. */
    method PickPackage() returns (pick: Pick)
      requires Database() && Sound() && CacheOk(provider, cachedVersions, cachedCounts)
      modifies `cachedVersions, `cachedCounts, `cacheHits, `cacheMisses
      ensures CacheOk(provider, cachedVersions, cachedCounts)
      ensures pick.PickFailed? ==> exists p :: provider.versions(p).None?
      ensures pick.Best? ==> IsChoice(provider, trail, clauses, lists, rootPkg, pick)
      ensures pick.Best? || pick.NoPick? ==> forall q :: NoWorse(provider, trail, clauses, lists, rootPkg, pick, q)
      ensures pick.Blocked? ==>
        && Open(trail, rootPkg, pick.pkg) && Positive(trail, pick.pkg) == Some(pick.required)
        && CandidatesOf(provider, trail, clauses, lists, pick.pkg) == [] && provider.versions(pick.pkg).Some?
    {
      hide *;
      SoundParts();
      pick := NoPick;
      for pkg := 0 to |pkgStates|
        invariant CacheOk(provider, cachedVersions, cachedCounts)
        invariant pick.NoPick? || (pick.Best? && IsChoice(provider, trail, clauses, lists, rootPkg, pick))
        invariant pick.Best? ==> pick.pkg < pkg
        invariant forall q :: 0 <= q < pkg ==> NoWorse(provider, trail, clauses, lists, rootPkg, pick, q)
      {
        var e := Assess(pkg);
        match e {
          case Skipped =>
            ClosedIsNoWorse(provider, trail, clauses, lists, rootPkg, pick, pkg);
          case Failed => return PickFailed;
          case NoneLeft(required) => return Blocked(pkg, required);
          case Found(count, first) =>
            if pick.NoPick? || count < pick.count || (count == pick.count && pkg < pick.pkg) {
              BetterPick(provider, trail, clauses, lists, rootPkg, pick, Best(pkg, count, first), pkg);
              pick := Best(pkg, count, first);
            } else {
              KeptIsNoWorse(provider, trail, clauses, lists, rootPkg, pick, pkg);
            }
        }
      }
      forall q: PackageId ensures NoWorse(provider, trail, clauses, lists, rootPkg, pick, q) {
        if q >= |pkgStates| {
          AbsentIsClosed(trail, pkgStates, rootPkg, q);
          ClosedIsNoWorse(provider, trail, clauses, lists, rootPkg, pick, q);
        }
      }
    }

    /** Records one clause for each dependency of a version. */
    method RegisterDependencies(pkg: PackageId, v: Version) returns (ok: bool)
      requires Database() && StatesOk(trail, pkgStates) && (pkg == rootPkg ==> v == rootVersion)
      requires WorklistOk(trail, clauses, attached, queue, [])
      modifies `clauses, `origins, `pkgStates, `lists, `queue, `attached
      ensures Database() && StatesOk(trail, pkgStates)
      ensures WorklistOk(trail, clauses, attached, queue, [])
      ensures old(clauses) <= clauses && old(attached) <= attached
      ensures forall k :: k in attached && k < |old(clauses)| ==> k in old(attached)
      ensures ok <==> provider.dependencies(pkg, v).Some?
      ensures ok ==> Registered(provider, clauses, attached, pkg, v)
      ensures ok ==> RecordsDependencies(old(clauses), clauses, pkg, v, provider.dependencies(pkg, v).value)
      ensures !ok ==> clauses == old(clauses) && attached == old(attached)
    {
      hide *;
      NothingRecorded(clauses, pkg, v);
      var ds := provider.dependencies(pkg, v);
      if ds.None? {
        return false;
      }
      for j := 0 to |ds.value|
        invariant Database() && StatesOk(trail, pkgStates)
        invariant WorklistOk(trail, clauses, attached, queue, [])
        invariant old(clauses) <= clauses && old(attached) <= attached
        invariant forall k :: k in attached && k < |old(clauses)| ==> k in old(attached)
        invariant forall i :: 0 <= i < j ==> HasClause(clauses, attached, DependencyTerms(pkg, v, ds.value[i]))
        invariant RecordsDependencies(old(clauses), clauses, pkg, v, ds.value[..j])
      {
        ghost var before := clauses;
        RegisterDependency(pkg, v, j);
        assert ds.value[..j + 1] == ds.value[..j] + [ds.value[j]];
        OneMoreRecorded(old(clauses), before, pkg, v, ds.value[..j], ds.value[j]);
      }
      assert ds.value[..|ds.value|] == ds.value;
      AllRegistered(provider, clauses, attached, pkg, v);
      ok := true;
    }

    method RegisterDependency(pkg: PackageId, v: Version, j: nat)
      requires Database() && StatesOk(trail, pkgStates) && (pkg == rootPkg ==> v == rootVersion)
      requires WorklistOk(trail, clauses, attached, queue, [])
      requires provider.dependencies(pkg, v).Some? && j < |provider.dependencies(pkg, v).value|
      modifies `clauses, `origins, `pkgStates, `lists, `queue, `attached
      ensures Database() && StatesOk(trail, pkgStates)
      ensures WorklistOk(trail, clauses, attached, queue, [])
      ensures clauses == old(clauses) +
        [Clause(DependencyTerms(pkg, v, provider.dependencies(pkg, v).value[j]), DependencyReason, [])]
      ensures attached == old(attached) + {|old(clauses)|}
      ensures HasClause(clauses, attached, DependencyTerms(pkg, v, provider.dependencies(pkg, v).value[j]))
      ensures forall terms :: old(HasClause(clauses, attached, terms)) ==> HasClause(clauses, attached, terms)
    {
      var terms := DependencyTerms(pkg, v, provider.dependencies(pkg, v).value[j]);
      assert DependenciesOk(provider.dependencies(pkg, v));
      WorklistAfterAdd(trail, clauses, attached, queue, Clause(terms, DependencyReason, []));
      var k := AddClause(terms, DependencyReason, FromDependency(pkg, v, j));
      assert clauses[k].terms == terms;
    }

    /** Decides a version and records its dependencies.  The caller sets the level. */
    method Commit(pkg: PackageId, v: Version, next: nat) returns (ok: bool)
      requires Database() && Sound() && next == level + 1
      requires WorklistOk(trail, clauses, attached, queue, [])
      requires !Decided(trail, pkg) && (level == 0 <==> pkg == rootPkg)
      requires pkg == rootPkg ==> v == rootVersion
      requires pkg != rootPkg ==> Offered(provider, pkg, v) && Permitted(trail, pkg, v)
      requires pkg != rootPkg ==> Positive(trail, pkg).Some? && Contains(Positive(trail, pkg).value, v)
      modifies `trail, `clauses, `origins, `pkgStates, `lists, `queue, `attached
      ensures Database() && StatesOk(trail, pkgStates)
      ensures ok ==> TrailOk(trail, next, rootPkg, rootVersion, requirements)
      ensures ok ==> AllJustified(trail, clauses) && ChoicesOk(provider, rootPkg, trail, clauses, attached)
      ensures WorklistOk(trail, clauses, attached, queue, [])
      ensures trail == old(trail) + [Decision(pkg, v, next)]
      ensures old(clauses) <= clauses && old(attached) <= attached
      ensures forall k :: k in attached && k < |old(clauses)| ==> k in old(attached)
      ensures ok <==> provider.dependencies(pkg, v).Some?
    {
      hide *;
      SoundParts();
      ghost var a := Decision(pkg, v, next);
      DecisionStep(trail, level, rootPkg, rootVersion, requirements, clauses, attached, pkg, v, queue);
      PushAssignment(Decision(pkg, v, next));
      ok := RegisterDependencies(pkg, v);
      if ok {
        DecisionRecorded(provider, rootPkg, old(trail), old(clauses), old(attached), clauses, attached, pkg, v, next);
      }
    }

    /** Decides the best package, or learns that none has to be decided or that one cannot be. */
    method MakeDecision() returns (r: DecisionResult)
      requires Core() && WorklistOk(trail, clauses, attached, queue, []) && level >= 1
      requires Quiescent(trail, clauses, attached)
      modifies `trail, `level, `cachedVersions, `cachedCounts, `cacheHits, `cacheMisses,
               `clauses, `origins, `pkgStates, `lists, `queue, `attached
      ensures r.NoAnswer? ==> !Answers(provider)
      ensures !r.NoAnswer? ==> Core() && WorklistOk(trail, clauses, attached, queue, [])
      ensures r.Made? ==>
        && IsChoice(provider, old(trail), old(clauses), old(lists), rootPkg, r.pick)
        && (forall q :: NoWorse(provider, old(trail), old(clauses), old(lists), rootPkg, r.pick, q))
        && level == old(level) + 1
        && trail == old(trail) + [Decision(r.pick.pkg, r.pick.version, level)]
        && FewestCandidates(provider, old(trail), old(clauses), old(lists), rootPkg, r.pick.pkg)
        && Offered(provider, r.pick.pkg, r.pick.version) && Admissible(old(trail), r.pick.pkg, r.pick.version)
        && (NewestFirst(provider.versions(r.pick.pkg).value) ==>
              NothingNewer(provider, old(trail), old(clauses), old(attached), r.pick.pkg, r.pick.version))
        && forall k :: k in old(attached) ==> k < |clauses| && !AllSatisfied(trail, clauses[k].terms)
      ensures !r.Made? && !r.NoAnswer? ==> trail == old(trail) && level == old(level)
      ensures r.NothingLeft? ==> clauses == old(clauses) && attached == old(attached) && AllDecided(trail, rootPkg)
      ensures r.Impossible? ==>
        && ConflictAt(trail, clauses, attached, r.clause)
        && Open(trail, rootPkg, r.pkg) && Positive(trail, r.pkg).Some?
        && CandidatesOf(provider, trail, old(clauses), old(lists), r.pkg) == []
        && OutOfVersions(provider, trail, old(clauses), old(attached), r.pkg, Positive(trail, r.pkg).value)
        && clauses == old(clauses) + [Clause([Term(r.pkg, Positive(trail, r.pkg).value, true)], NoVersionsReason, [])]
        && r.clause == |old(clauses)|
        && (SettledBelow(trail, clauses[r.clause].terms, |trail|) <==> OneCarriesBoth(trail, r.pkg))
    {
      hide *;
      CoreParts();
      var pick := PickPackage();
      match pick {
        case PickFailed =>
          SilentProvider(provider);
          r := NoAnswer;
        case NoPick =>
          NothingOpen(provider, trail, clauses, lists, rootPkg);
          r := NothingLeft;
        case Blocked(pkg, required) =>
          OpenFacts(trail, rootPkg, pkg);
          SoundParts();
          DatabaseParts();
          BlockedIsOut(provider, trail, clauses, attached, lists, pkg, required);
          FreshNoVersionsExact(trail, level, rootPkg, rootVersion, requirements, Term(pkg, required, true));
          var k := RecordNoVersions(pkg, required);
          r := Impossible(k, pkg);
        case Best(pkg, _, version) =>
          DatabaseParts();
          ChoiceFacts(provider, trail, clauses, attached, lists, rootPkg, pick, level + 1);
          NoneWorseIsFewest(provider, trail, clauses, lists, rootPkg, pick);
          ChoiceFits(provider, trail, clauses, attached, lists, rootPkg, pick);
          var ok := Commit(pkg, version, level + 1);
          if ok {
            level := level + 1;
            SoundFromParts();
            r := Made(pick);
          } else {
            SilentProvider(provider);
            r := NoAnswer;
          }
      }
      CoreParts();
    }

    /** No version of a required package is acceptable: a clause that says so. */
    method RecordNoVersions(pkg: PackageId, required: Range) returns (k: nat)
      requires Database() && Sound() && WorklistOk(trail, clauses, attached, queue, [])
      requires pkg != rootPkg && Positive(trail, pkg) == Some(required)
      requires OutOfVersions(provider, trail, clauses, attached, pkg, required)
      modifies `clauses, `origins, `pkgStates, `lists, `queue, `attached
      ensures Database() && Sound() && WorklistOk(trail, clauses, attached, queue, [])
      ensures k == |old(clauses)| && ConflictAt(trail, clauses, attached, k)
      ensures clauses == old(clauses) + [Clause([Term(pkg, required, true)], NoVersionsReason, [])]
    {
      var terms := [Term(pkg, required, true)];
      var c := Clause(terms, NoVersionsReason, []);
      assert Proper(required);
      WorklistAfterAdd(trail, clauses, attached, queue, c);
      JustifiedGrows(trail, clauses, clauses + [c]);
      ChoicesGrow(provider, rootPkg, trail, clauses, attached, clauses + [c], attached + {|clauses|});
      assert (clauses + [c])[..|clauses|] == clauses;
      k := AddClause(terms, NoVersionsReason, FromNoVersions(pkg, required, trail, attached));
    }

    /* ------------------------------------------------------------- conflict analysis */

    /** The shortest trail prefix whose entries settle every term one at a time. */
    method FindSatisfier(k: nat) returns (r: Option<(nat, nat)>)
      requires k < |clauses|
      ensures r.Some? ==> SatisfierAt(trail, clauses[k].terms, r.value.0, r.value.1)
      ensures r.Some? <==> clauses[k].terms != [] && SettledBelow(trail, clauses[k].terms, |trail|)
    {
      hide Settles;
      var terms := clauses[k].terms;
      r := None;
      if terms == [] {
        return;
      }
      var settled: seq<Option<nat>> := seq(|terms|, _ => None);
      assert FoundBelow(trail, terms[0], 0).None?;
      for i := 0 to |trail|
        invariant |settled| == |terms|
        invariant forall t :: 0 <= t < |terms| ==> settled[t] == FoundBelow(trail, terms[t], i)
        invariant exists u :: 0 <= u < |terms| && settled[u].None?
      {
        settled := SettleWith(terms, settled, i);
        var t := FirstSettledAt(settled, i);
        if t.Some? {
          return Some((i, t.value));
        }
      }
    }

    /** Lets one trail entry settle the terms it can. */
    method SettleWith(terms: seq<Term>, settled: seq<Option<nat>>, i: nat) returns (next: seq<Option<nat>>)
      requires i < |trail| && |settled| == |terms|
      requires forall t :: 0 <= t < |terms| ==> settled[t] == FoundBelow(trail, terms[t], i)
      ensures |next| == |terms| && forall t :: 0 <= t < |terms| ==> next[t] == FoundBelow(trail, terms[t], i + 1)
    {
      hide Settles;
      next := settled;
      for t := 0 to |terms|
        invariant |next| == |terms|
        invariant forall u :: 0 <= u < t ==> next[u] == FoundBelow(trail, terms[u], i + 1)
        invariant forall u :: t <= u < |terms| ==> next[u] == settled[u]
      {
        if next[t].None? && Settles(Fact(trail[i]), terms[t]) {
          FirstUnique(trail, terms[t], i);
          next := next[t := Some(i)];
        }
      }
    }

    /** If every term is settled: the first one settled by the given entry. */
    static method FirstSettledAt(settled: seq<Option<nat>>, i: nat) returns (r: Option<nat>)
      ensures r.Some? ==> r.value < |settled| && settled[r.value] == Some(i)
      ensures r.Some? ==> forall u :: 0 <= u < |settled| ==> settled[u].Some?
      ensures r.Some? ==> forall u :: 0 <= u < r.value ==> settled[u] != Some(i)
      ensures r.None? ==> (exists u :: 0 <= u < |settled| && settled[u].None?) ||
                          (forall u :: 0 <= u < |settled| ==> settled[u] != Some(i))
    {
      for t := 0 to |settled|
        invariant forall u :: 0 <= u < t ==> settled[u].Some?
      {
        if settled[t].None? {
          return None;
        }
      }
      for t := 0 to |settled|
        invariant forall u :: 0 <= u < t ==> settled[u] != Some(i)
      {
        if settled[t] == Some(i) {
          return Some(t);
        }
      }
      r := None;
    }

    /** The level of the latest entry that settles a term. */
    method LatestLevel(term: Term) returns (l: nat)
      ensures l == LastLevel(trail, term)
    {
      l := 0;
      var i := |trail|;
      assert trail[..i] == trail;
      while i > 0
        invariant 0 <= i <= |trail|
        invariant LastLevel(trail, term) == LastLevel(trail[..i], term)
      {
        i := i - 1;
        assert trail[..i + 1][..i] == trail[..i];
        if Settles(Fact(trail[i]), term) {
          return trail[i].level;
        }
      }
    }

    method PreviousLevelOf(k: nat, skip: PackageId) returns (l: nat)
      requires k < |clauses|
      ensures PreviousLevel(trail, clauses[k].terms, skip, l)
      ensures (forall i, j :: 0 <= i < j < |trail| ==> trail[i].level <= trail[j].level) ==>
        HighestElsewhere(trail, clauses[k].terms, skip, l)
    {
      var terms := clauses[k].terms;
      l := 0;
      for t := 0 to |terms|
        invariant PreviousLevel(trail, terms[..t], skip, l)
      {
        assert terms[..t + 1] == terms[..t] + [terms[t]];
        ghost var before := l;
        if terms[t].pkg != skip {
          var latest := LatestLevel(terms[t]);
          if latest > l {
            l := latest;
          }
        }
        PreviousLevelAppend(trail, terms[..t], terms[t], skip, before, l);
      }
      assert terms[..|terms|] == terms;
      if forall i, j :: 0 <= i < j < |trail| ==> trail[i].level <= trail[j].level {
        PreviousLevelExact(trail, terms, skip, l);
      }
    }

    /** The terms of both clauses, in order, without those on one package. */
    static method ResolveTerms(left: seq<Term>, right: seq<Term>, pkg: PackageId) returns (terms: seq<Term>)
      ensures terms == Resolvent(left, right, pkg)
    {
      terms := [];
      for i := 0 to |left|
        invariant terms == Without(left[..i], pkg)
      {
        assert left[..i + 1][..i] == left[..i];
        if left[i].pkg != pkg {
          terms := terms + [left[i]];
        }
      }
      assert left[..|left|] == left;
      for i := 0 to |right|
        invariant terms == Without(left, pkg) + Without(right[..i], pkg)
      {
        assert right[..i + 1][..i] == right[..i];
        if right[i].pkg != pkg {
          terms := terms + [right[i]];
        }
      }
      assert right[..|right|] == right;
    }

    /** Resolves a clause with the cause of its satisfier; the result is recorded
        but not attached. */
    method ResolveWith(left: nat, i: nat, t: nat) returns (k: nat)
      requires Database() && Sound() && left < |clauses| && AllSatisfied(trail, clauses[left].terms)
      requires SatisfierAt(trail, clauses[left].terms, i, t) && i < |trail| && t < |clauses[left].terms|
      requires trail[i].cause.Some?
      modifies `clauses, `origins
      ensures Database() && Sound()
      ensures trail[i].cause.value < |old(clauses)|
      ensures k == |old(clauses)|
      ensures clauses == old(clauses) + [Clause(
        Resolvent(old(clauses)[left].terms, old(clauses)[trail[i].cause.value].terms, old(clauses)[left].terms[t].pkg),
        InternalReason, [left, trail[i].cause.value])]
      ensures AllSatisfied(trail, clauses[k].terms) && AllWithinReach(trail, clauses[k].terms, i)
    {
      hide *;
      DatabaseParts();
      SoundParts();
      CauseExists(trail, clauses, i);
      var right := trail[i].cause.value;
      var terms := ResolveTerms(clauses[left].terms, clauses[right].terms, clauses[left].terms[t].pkg);
      ghost var o := ResolutionStep(provider, trail, level, rootPkg, rootVersion, requirements, clauses, origins,
                                    left, i, t, terms);
      JustifiedGrows(trail, clauses, clauses + [Clause(terms, InternalReason, [left, right])]);
      ChoicesGrow(provider, rootPkg, trail, clauses, attached,
                  clauses + [Clause(terms, InternalReason, [left, right])], attached);
      IndexAppend(clauses, attached, lists, Clause(terms, InternalReason, [left, right]));
      k := |clauses|;
      clauses := clauses + [Clause(terms, InternalReason, [left, right])];
      origins := origins + [o];
      DatabaseFromParts();
      SoundFromParts();
    }

    lemma DatabaseFromParts()
      requires ProviderOk(provider) && ClausesProper(clauses)
      requires OriginsOk(provider, rootPkg, rootVersion, clauses, origins)
      requires IndexOk(clauses, attached, lists)
      ensures Database()
    {
    }

    /** Looks at one clause of the walk: an exit, a clause to learn, or a satisfier
        whose cause to resolve with. */
    method Examine(k: nat) returns (e: Examination)
      requires Sound() && k < |clauses| && AllSatisfied(trail, clauses[k].terms)
      modifies `rootIncompatibility
      ensures e.Exit? ==> e.why.clause == k && GiveUpOk(trail, clauses, rootPkg, e.why)
      ensures e.Learn? ==> clauses[k].terms != [] && 1 <= e.level <= level
      ensures e.Learn? ==> StopsAt(trail, clauses[k].terms, e.satisfier, e.term, e.level)
      ensures e.Learn? ==>
        && e.satisfier < |trail| && (trail[e.satisfier].decided || e.level == trail[e.satisfier].level)
        && HighestElsewhere(trail, clauses[k].terms, trail[e.satisfier].pkg, e.level)
      ensures e.Resolve? ==> e.satisfier < |trail| && e.term < |clauses[k].terms|
      ensures e.Resolve? ==> SatisfierAt(trail, clauses[k].terms, e.satisfier, e.term)
      ensures e.Resolve? ==> !trail[e.satisfier].decided && trail[e.satisfier].cause.Some?
      ensures e.Resolve? ==> PreviousLevel(trail, clauses[k].terms, trail[e.satisfier].pkg, e.level)
      ensures e.Resolve? ==> e.level != trail[e.satisfier].level
      ensures e.Resolve? ==> GoesOn(trail, rootPkg, clauses[k].terms, e.satisfier, e.term)
      ensures !e.Resolve? ==> !GoesOnSomewhere(trail, rootPkg, clauses[k].terms)
      ensures e.Learn? ==> StopsFor(trail, clauses[k].terms, e.level)
      ensures e.Exit? ==> !Learns(trail, clauses[k].terms)
      ensures e.Exit? ==> Explained(clauses, e.why, old(rootIncompatibility), rootIncompatibility)
      ensures !e.Exit? ==> rootIncompatibility == old(rootIncompatibility)
    {
      hide *;
      ExplainedByItself(clauses, k, 0, 0, rootIncompatibility);
      var terms := clauses[k].terms;
      RootFailureExit(trail, clauses, rootPkg, k);
      if IsRootFailure(terms, rootPkg) {
        rootIncompatibility := Some(clauses[k]);
        EndsAtRootFailure(trail, rootPkg, terms);
        return Exit(RootFailure(k));
      }
      var satisfier := FindSatisfier(k);
      if satisfier.None? {
        NoSatisfierExit(trail, clauses, rootPkg, k);
        EndsUnsettled(trail, rootPkg, terms);
        return Exit(NoSatisfier(k));
      }
      var (i, t) := satisfier.value;
      SatisfierFacts(trail, terms, i, t);
      var a := trail[i];
      SoundParts();
      TrailLevels(trail, level, rootPkg, rootVersion, requirements);
      var previous := PreviousLevelOf(k, a.pkg);
      if a.decided || previous == a.level {
        EndsAtStop(trail, rootPkg, terms, i, t, previous);
        if previous < 1 {
          RootLevelExit(trail, clauses, rootPkg, k, i, t, previous);
          ExplainedByItself(clauses, k, i, t, rootIncompatibility);
          rootIncompatibility := Some(clauses[k]);
          return Exit(RootLevel(k, i, t));
        }
        PreviousLevelBound(trail, level, rootPkg, rootVersion, requirements, terms, a.pkg, previous);
        StopsHere(trail, terms, i, t, previous);
        return Learn(previous, i, t);
      }
      if a.cause.None? {
        EndsAtRequirement(trail, rootPkg, terms, i, t, previous);
        RootRequirementExit(trail, level, rootPkg, rootVersion, requirements, clauses, k, i, t);
        RootRequirementExplained(clauses, k, i, t, rootIncompatibility);
        rootIncompatibility := Some(Clause(terms[..t] + terms[t + 1..], InternalReason, [k]));
        return Exit(RootRequirement(k, i, t));
      }
      WalkGoesOn(trail, rootPkg, terms, i, t, previous);
      e := Resolve(previous, i, t);
    }

    /** Walks back from a conflict.  Every satisfier it resolves past comes before the
        one before, so it ends after at most as many resolutions as the trail is long. */
    method ResolveConflict(conflict: nat) returns (out: AnalysisResult)
      requires Database() && Sound() && conflict < |clauses| && AllSatisfied(trail, clauses[conflict].terms)
      modifies `clauses, `origins, `rootIncompatibility
      ensures Database() && Sound() && old(clauses) <= clauses
      ensures |clauses| <= |old(clauses)| + |trail|
      ensures out.Learned? ==>
        && out.clause < |clauses| && clauses[out.clause].terms != [] && 1 <= out.level <= level
        && AllSatisfied(trail, clauses[out.clause].terms)
        && StopsAt(trail, clauses[out.clause].terms, out.satisfier, out.term, out.level)
        && out.satisfier < |trail| && (trail[out.satisfier].decided || out.level == trail[out.satisfier].level)
        && HighestElsewhere(trail, clauses[out.clause].terms, trail[out.satisfier].pkg, out.level)
        && WalkOk(trail, clauses, |old(clauses)|, conflict, out.clause)
      ensures out.GaveUp? ==> WalkOk(trail, clauses, |old(clauses)|, conflict, out.why.clause)
      ensures out.GaveUp? ==> GiveUpOk(trail, clauses, rootPkg, out.why)
      ensures if out.GaveUp? then Explained(clauses, out.why, old(rootIncompatibility), rootIncompatibility)
              else rootIncompatibility == old(rootIncompatibility)
      ensures var ending := Ending(trail, old(clauses), rootPkg, conflict);
              if out.Learned?
              then StopsFor(trail, ending, out.level) && clauses[out.clause].terms == ending
              else !Learns(trail, ending) && out.why.clause < |clauses| && clauses[out.why.clause].terms == ending
      ensures Learns(trail, old(clauses)[conflict].terms) ==>
        clauses == old(clauses) && out.Learned? && out.clause == conflict
    {
      hide *;
      SoundParts();
      EndingIs(trail, clauses, rootPkg, conflict);
      ghost var fuel: nat := |trail|;
      ghost var first := clauses[conflict].terms;
      var current: nat := conflict;
      WalkStarts(trail, clauses, conflict);
      EverythingWithinReach(trail, clauses[conflict].terms);
      ghost var bound: nat := |trail|;
      while true
        invariant Database() && Sound() && old(clauses) <= clauses && current < |clauses|
        invariant AllSatisfied(trail, clauses[current].terms)
        invariant WalkOk(trail, clauses, |old(clauses)|, conflict, current)
        invariant AllWithinReach(trail, clauses[current].terms, bound)
        invariant |clauses| + bound <= |old(clauses)| + |trail|
        invariant bound <= fuel && rootIncompatibility == old(rootIncompatibility)
        invariant WalkEnd(trail, old(clauses), rootPkg, clauses[current].terms, fuel) ==
                  WalkEnd(trail, old(clauses), rootPkg, first, |trail|)
        invariant Learns(trail, first) ==> current == conflict && clauses == old(clauses)
        invariant current == conflict ==> clauses[current].terms == first
        decreases bound
      {
        var e := Examine(current);
        match e {
          case Exit(why) =>
            WalkEndHere(trail, old(clauses), rootPkg, clauses[current].terms, fuel);
            return GaveUp(why);
          case Learn(target, i, t) =>
            WalkEndHere(trail, old(clauses), rootPkg, clauses[current].terms, fuel);
            return Learned(current, target, i, t);
          case Resolve(previous, i, t) =>
            CausedIsBelow(trail, clauses[current].terms, i, t, bound);
            CauseExists(trail, old(clauses), i);
            GoesOnOrLearns(trail, rootPkg, clauses[current].terms, i, t);
            WalkEndStep(trail, old(clauses), rootPkg, clauses[current].terms, fuel, i, t);
            ghost var before, from := clauses, current;
            current := ResolveWith(current, i, t);
            WalkContinues(trail, before, |old(clauses)|, conflict, from, i, t, previous, clauses[current]);
            bound := i;
            fuel := fuel - 1;
        }
      }
    }

    /** Attaches the learned clause and undoes everything above the target level. */
    method Backjump(clause: nat, target: nat)
      requires Database() && Sound() && clause < |clauses| && clauses[clause].terms != []
      requires 1 <= target <= level
      modifies `trail, `pkgStates, `queue, `level, `lists, `attached
      ensures Database() && Sound() && WorklistOk(trail, clauses, attached, queue, [])
      ensures level == target && attached == old(attached) + {clause}
      ensures |trail| <= |old(trail)| && trail == old(trail)[..|trail|]
      ensures forall i :: |trail| <= i < |old(trail)| ==> old(trail)[i].level > target
      ensures |trail| < |old(trail)| <==> target < old(level)
      ensures queue == TrailPackages(trail)
    {
      hide *;
      DatabaseParts();
      SoundParts();
      SomethingToUndo(trail, level, rootPkg, rootVersion, requirements);
      TrailLevels(trail, level, rootPkg, rootVersion, requirements);
      if clause !in attached {
        Attach(clause);
        DatabaseFromParts();
      }
      ChoicesGrow(provider, rootPkg, trail, clauses, old(attached), clauses, attached);
      ghost var before := trail;
      BacktrackTo(target);
      BackjumpKeepsTrail(before, old(level), rootPkg, rootVersion, requirements, |trail|, target);
      JustifiedPrefix(before, clauses, |trail|);
      ChoicesPrefix(provider, rootPkg, before, clauses, attached, |trail|);
      IndexNonEmpty(clauses, attached, lists);
      WorklistOfTrail(trail, clauses, attached);
      SoundFromParts();
    }

    /* -------------------------------------------------------------------- solving */

    /** Adds a root requirement before solving. */
    method AddRootDependency(pkg: int, range: Range) returns (ok: bool)
      requires Valid() && Setup()
      modifies `trail, `pkgStates, `queue, `requirements
      ensures Setup()
      ensures Proper(range) || !ok ==> Valid()
      ensures ok <==> pkg >= 0 && (old(Positive(trail, pkg)).Some? ==>
                                     !Intersect(old(Positive(trail, pkg)).value, range).isEmpty)
      ensures ok ==> requirements == old(requirements) + [Dependency(pkg, range)] &&
                     trail == old(trail) + [Requirement(Dependency(pkg, range))]
      ensures !ok ==> requirements == old(requirements) && trail == old(trail)
    {
      hide *;
      ValidParts();
      SoundParts();
      if pkg < 0 {
        return false;
      }
      var has, existing := PositiveRange(pkg);
      if !has {
        InfeasibleIsEmpty(trail, level, rootPkg, rootVersion, requirements, pkg, range);
        return false;
      }
      if existing.Some? && Intersect(existing.value, range).isEmpty {
        return false;
      }
      ghost var d := Dependency(pkg, range);
      if Proper(range) {
        RequirementStep(provider, trail, rootPkg, rootVersion, requirements, clauses, attached, d, queue);
      }
      PushAssignment(Requirement(Dependency(pkg, range)));
      requirements := requirements + [d];
      if Proper(range) {
        SoundFromParts();
        SetupIsValid();
      }
      SetupFromParts();
      ok := true;
    }

    /** Within every budget of the solve loop. */
    predicate WithinBudget()
      reads `decisions, `propagations, `conflicts, `pkgStates, `trail, `clauses
    {
      && decisions < MAX_DECISIONS && propagations < MAX_PROPAGATIONS && conflicts < MAX_CONFLICTS
      && |pkgStates| <= MAX_PACKAGES && |trail| <= MAX_TRAIL_ASSIGNMENTS && |clauses| <= MAX_INCOMPATIBILITIES
    }

    /** Seeds the trail with the root decision. */
    method Begin() returns (ok: bool)
      requires Valid() && Setup()
      modifies `trail, `level, `clauses, `origins, `pkgStates, `lists, `queue, `attached
      ensures ok ==> Core() && WorklistOk(trail, clauses, attached, queue, []) && level == 1
      ensures !ok ==> !Answers(provider)
    {
      hide *;
      ValidParts();
      SoundParts();
      NothingDecided(trail, rootPkg, rootVersion, requirements);
      ok := Commit(rootPkg, rootVersion, 1);
      if ok {
        level := 1;
        SoundFromParts();
        CoreParts();
      } else {
        SilentProvider(provider);
      }
    }

    /** A decision, a finished search, a failed provider, or a conflict. */
    method Decide() returns (conflict: Option<nat>, next: Progress)
      requires Core() && WorklistOk(trail, clauses, attached, queue, []) && level >= 1
      requires Quiescent(trail, clauses, attached)
      modifies `trail, `level, `cachedVersions, `cachedCounts, `cacheHits, `cacheMisses,
               `clauses, `origins, `pkgStates, `lists, `queue, `attached, `decisions
      ensures conflict.Some? ==>
        && Core() && level >= 1 && decisions == old(decisions) && ConflictAt(trail, clauses, attached, conflict.value)
        && trail == old(trail) && conflict.value == |old(clauses)|
        && exists pkg, range :: RecordedFor(old(clauses), old(attached), pkg, range)
      ensures conflict.None? ==> Outcome(next) && next != Stop(NoSolution)
      ensures conflict.None? ==> decisions == old(decisions) + if next.Continue? then 1 else 0
    {
      hide *;
      conflict, next := None, Continue;
      var r := MakeDecision();
      match r {
        case NoAnswer =>
          next := Stop(InternalError);
          OutcomeFromParts(next);
        case NothingLeft =>
          FinishedFromParts();
          next := Stop(Success);
          OutcomeFromParts(next);
        case Made(_) =>
          decisions := decisions + 1;
          OutcomeFromParts(next);
        case Impossible(k, pkg) =>
          conflict := Some(k);
          RecordedForIs(old(clauses), old(attached), pkg, Positive(trail, pkg).value);
      }
    }

    /** The clause just recorded says that a package is out of versions, and it is. */
    ghost predicate RecordedFor(before: seq<Clause>, attachedBefore: set<nat>, pkg: PackageId, range: Range)
      reads `trail, `clauses
    {
      && clauses == before + [Clause([Term(pkg, range, true)], NoVersionsReason, [])]
      && OutOfVersions(provider, trail, before, attachedBefore, pkg, range)
    }

    lemma RecordedForIs(before: seq<Clause>, attachedBefore: set<nat>, pkg: PackageId, range: Range)
      requires clauses == before + [Clause([Term(pkg, range, true)], NoVersionsReason, [])]
      requires OutOfVersions(provider, trail, before, attachedBefore, pkg, range)
      ensures RecordedFor(before, attachedBefore, pkg, range)
    {
    }

    /** One round: propagate, then decide, then on a conflict analyse and backjump. */
    method Round() returns (next: Progress)
      requires Core() && WorklistOk(trail, clauses, attached, queue, []) && level >= 1
      modifies `trail, `level, `cachedVersions, `cachedCounts, `cacheHits, `cacheMisses,
               `clauses, `origins, `pkgStates, `lists, `queue, `attached,
               `rootIncompatibility, `exit, `decisions, `propagations, `conflicts
      ensures propagations == old(propagations) + 1
      ensures decisions <= old(decisions) + 1 && conflicts <= old(conflicts) + 1
      ensures next.Continue? ==> decisions + conflicts == old(decisions) + old(conflicts) + 1
      ensures Stuck(old(trail), old(clauses), old(attached), old(level)) ==>
        next.Continue? && trail == old(trail) && level == old(level) &&
        clauses == old(clauses) && attached == old(attached)
      ensures Outcome(next)
      ensures next.Continue? ==> rootIncompatibility == old(rootIncompatibility)
      ensures next == Stop(NoSolution) ==>
        exit.Some? && Explained(clauses, exit.value, old(rootIncompatibility), rootIncompatibility)
    {
      hide *;
      CoreParts();
      ghost var stuck := Stuck(trail, clauses, attached, level);
      if stuck {
        StuckParts(trail, clauses, attached, level);
      }
      var conflict := UnitPropagate();
      propagations := propagations + 1;
      CoreParts();
      if conflict.None? {
        conflict, next := Decide();
        if conflict.None? {
          return;
        }
      }
      conflicts := conflicts + 1;
      next := HandleConflict(conflict.value);
    }

    /** What a round promises, by the way it ends. */
    ghost predicate Outcome(next: Progress)
      reads this
    {
      && (next != Stop(InternalError) ==> Core() && level >= 1)
      && (next.Continue? ==> WorklistOk(trail, clauses, attached, queue, []))
      && (next.Stop? ==> next.status != BudgetExceeded)
      && (next == Stop(Success) ==> WorklistOk(trail, clauses, attached, queue, []) && Finished())
      && (next == Stop(NoSolution) ==> exit.Some? && GiveUpOk(trail, clauses, rootPkg, exit.value))
      && (next == Stop(InternalError) ==> !Answers(provider))
    }

    lemma OutcomeFromParts(next: Progress)
      requires next != Stop(InternalError) ==> Core() && level >= 1
      requires next.Continue? ==> WorklistOk(trail, clauses, attached, queue, [])
      requires next.Stop? ==> next.status != BudgetExceeded
      requires next == Stop(Success) ==> WorklistOk(trail, clauses, attached, queue, []) && Finished()
      requires next == Stop(NoSolution) ==> exit.Some? && GiveUpOk(trail, clauses, rootPkg, exit.value)
      requires next == Stop(InternalError) ==> !Answers(provider)
      ensures Outcome(next)
    {
    }

    lemma OutcomeParts(next: Progress)
      requires Outcome(next)
      ensures next != Stop(InternalError) ==> Core() && level >= 1
      ensures next.Continue? ==> WorklistOk(trail, clauses, attached, queue, [])
      ensures next.Stop? ==> next.status != BudgetExceeded
      ensures next == Stop(Success) ==> WorklistOk(trail, clauses, attached, queue, []) && Finished()
      ensures next == Stop(NoSolution) ==> exit.Some? && GiveUpOk(trail, clauses, rootPkg, exit.value)
      ensures next == Stop(InternalError) ==> !Answers(provider)
    {
    }

    /** Analyses a conflict, then learns and backjumps or gives up.  Going on, it has
        undone a level, or left the trail as it was with a clause still in conflict. */
    method HandleConflict(conflict: nat) returns (next: Progress)
      requires Core() && level >= 1 && ConflictAt(trail, clauses, attached, conflict)
      modifies `trail, `level, `clauses, `origins, `pkgStates, `lists, `queue, `attached, `rootIncompatibility, `exit
      ensures Outcome(next)
      ensures next.Continue? ==> rootIncompatibility == old(rootIncompatibility)
      ensures next == Stop(NoSolution) ==>
        exit.Some? && Explained(clauses, exit.value, old(rootIncompatibility), rootIncompatibility)
      ensures conflict < |old(clauses)|
      ensures next.Continue? ==>
        if level < old(level) then trail < old(trail)
        else level == old(level) && trail == old(trail) && exists k :: ConflictAt(trail, clauses, attached, k)
      ensures var ending := Ending(old(trail), old(clauses), rootPkg, conflict);
              (next.Continue? <==> Learns(old(trail), ending)) &&
              (next.Continue? ==> StopsFor(old(trail), ending, level))
      ensures StopsFor(old(trail), old(clauses)[conflict].terms, old(level)) ==>
        next.Continue? && trail == old(trail) && level == old(level) &&
        clauses == old(clauses) && attached == old(attached)
    {
      hide *;
      CoreParts();
      ConflictRecorded(trail, clauses, attached, conflict);
      SoundParts();
      LearnsAtLevel(trail, rootPkg, clauses, conflict, level);
      var out := ResolveConflict(conflict);
      match out {
        case GaveUp(why) =>
          exit := Some(why);
          next := Stop(NoSolution);
        case Learned(clause, target, _, _) =>
          StopsTell(trail, Ending(trail, old(clauses), rootPkg, conflict), target);
          Backjump(clause, target);
          assert |trail| == |old(trail)| ==> trail == old(trail);
          StillInConflict(trail, clauses, attached, clause);
          next := Continue;
      }
      CoreParts();
      OutcomeFromParts(next);
    }

    /** Rounds until one stops or a budget is used up.  Where the search is stuck
        nothing else can end it. */
    method Rounds() returns (status: Status)
      requires Core() && WorklistOk(trail, clauses, attached, queue, []) && level >= 1 && !solved
      requires decisions <= MAX_DECISIONS && propagations <= MAX_PROPAGATIONS && conflicts <= MAX_CONFLICTS
      modifies `trail, `level, `cachedVersions, `cachedCounts, `cacheHits, `cacheMisses,
               `clauses, `origins, `pkgStates, `lists, `queue, `attached,
               `rootIncompatibility, `exit, `decisions, `propagations, `conflicts
      ensures status != InternalError ==> Core() && level >= 1
      ensures status == Success ==> WorklistOk(trail, clauses, attached, queue, []) && Finished()
      ensures status == NoSolution ==> exit.Some? && GiveUpOk(trail, clauses, rootPkg, exit.value)
      ensures status == NoSolution ==>
        Explained(clauses, exit.value, old(rootIncompatibility), rootIncompatibility)
      ensures status == InternalError ==> !Answers(provider)
      ensures status == BudgetExceeded ==>
        BudgetSpent(decisions, propagations, conflicts, |pkgStates|, |trail|, |clauses|)
      ensures old(BudgetSpent(decisions, propagations, conflicts, |pkgStates|, |trail|, |clauses|)) ==>
        status == BudgetExceeded && trail == old(trail) && clauses == old(clauses)
      ensures decisions <= MAX_DECISIONS && propagations <= MAX_PROPAGATIONS && conflicts <= MAX_CONFLICTS
      ensures Stuck(old(trail), old(clauses), old(attached), old(level)) ==>
        status == BudgetExceeded && trail == old(trail) && level == old(level) && clauses == old(clauses)
    {
      hide *;
      BudgetBound();
      var next := Continue;
      while next.Continue?
        invariant next != Stop(InternalError) ==> Core() && level >= 1
        invariant next.Continue? || next == Stop(Success) ==> WorklistOk(trail, clauses, attached, queue, [])
        invariant next == Stop(Success) ==> Finished()
        invariant next == Stop(NoSolution) ==> exit.Some? && GiveUpOk(trail, clauses, rootPkg, exit.value)
        invariant next == Stop(InternalError) ==> !Answers(provider)
        invariant next == Stop(BudgetExceeded) ==> !WithinBudget()
        invariant next.Continue? || next == Stop(BudgetExceeded) ==> rootIncompatibility == old(rootIncompatibility)
        invariant next == Stop(NoSolution) ==>
          exit.Some? && Explained(clauses, exit.value, old(rootIncompatibility), rootIncompatibility)
        invariant old(!WithinBudget()) ==>
          next.Continue? || next == Stop(BudgetExceeded)
        invariant old(!WithinBudget()) ==> trail == old(trail) && clauses == old(clauses) && !WithinBudget()
        invariant decisions <= MAX_DECISIONS && propagations <= MAX_PROPAGATIONS && conflicts <= MAX_CONFLICTS
        invariant Stuck(old(trail), old(clauses), old(attached), old(level)) ==>
          (next.Continue? || next == Stop(BudgetExceeded)) && trail == old(trail) && level == old(level) &&
          clauses == old(clauses) && attached == old(attached)
        decreases MAX_PROPAGATIONS - propagations, next.Continue?
      {
        var within := WithinBudget();
        BudgetBound();
        if within {
          next := Round();
          OutcomeParts(next);
        } else {
          next := Stop(BudgetExceeded);
        }
      }
      BudgetBound();
      status := next.status;
    }

    /** The main entry point. */
    method Solve() returns (status: Status)
      requires Valid() && (Setup() || solved)
      modifies this
      ensures requirements == old(requirements)
      ensures status != InternalError ==> Core()
      ensures old(solved) ==> status == Success && trail == old(trail) && clauses == old(clauses)
      ensures status == Success ==> Valid() && solved
      ensures status == Success ==>
        (IsSolution(Selection(trail), provider, rootPkg, rootVersion, requirements)
         <==> RootFits(requirements, rootPkg, rootVersion))
      ensures status == Success && RootFits(requirements, rootPkg, rootVersion) ==> Agrees(Selection(trail), trail)
      ensures status == NoSolution ==> exit.Some? && GiveUpOk(trail, clauses, rootPkg, exit.value)
      ensures status == NoSolution && (exists n :: Proven(provider, trail, clauses, exit.value.clause, n)) ==>
        forall m :: !IsSolution(m, provider, rootPkg, rootVersion, requirements)
      ensures status == NoSolution && BlamesRoot(trail, level, exit.value) ==>
        exists n :: SettledAtRoot(trail, clauses[exit.value.clause].terms, n)
      ensures status == NoSolution ==> Explained(clauses, exit.value, None, rootIncompatibility)
      ensures status == InternalError ==> !Answers(provider)
      ensures status == BudgetExceeded ==>
        BudgetSpent(decisions, propagations, conflicts, |pkgStates|, |trail|, |clauses|)
      ensures !old(solved) ==>
        decisions <= MAX_DECISIONS && propagations <= MAX_PROPAGATIONS && conflicts <= MAX_CONFLICTS
    {
      hide *;
      ValidParts();
      if solved {
        SolvedMeansSolution();
        return Success;
      }
      var ok := Begin();
      if !ok {
        return InternalError;
      }
      status := Rounds();
      if status == Success {
        solved := true;
        SolvedIsValid();
        SolvedMeansSolution();
      } else if status == NoSolution {
        TrustedExit();
      }
    }
  }
}
