/** Unit propagation: why entries were derived, which clauses still call for
    action, why deriving ends, and what the derived entries mean. */
module Propagation {
  import opened Ranges
  import opened Terms
  import opened Clauses
  import opened Trails

  /* ----------------------------------------------------------- derived entries */

  /** Term t of a clause was the only one not yet satisfied when its negation was recorded. */
  ghost predicate UnitAt(trail: Trail, terms: seq<Term>, t: nat) {
    && t < |terms|
    && StateOf(trail, terms[t]) == Inconclusive
    && (forall u :: 0 <= u < |terms| && u != t ==> StateOf(trail, terms[u]) == Satisfied)
  }

  ghost predicate Explains(before: Trail, a: Assignment, terms: seq<Term>, t: nat) {
    UnitAt(before, terms, t) && Fact(a) == Negated(terms[t])
  }

  ghost predicate Justified(before: Trail, a: Assignment, clauses: seq<Clause>) {
    a.cause.Some? ==>
      a.cause.value < |clauses| && exists t :: Explains(before, a, clauses[a.cause.value].terms, t)
  }

  ghost predicate AllJustified(trail: Trail, clauses: seq<Clause>) {
    forall i :: 0 <= i < |trail| ==> Justified(trail[..i], trail[i], clauses)
  }

  lemma JustifiedAppend(trail: Trail, a: Assignment, clauses: seq<Clause>, t: nat)
    requires AllJustified(trail, clauses)
    requires a.cause.Some? ==>
      a.cause.value < |clauses| && Explains(trail, a, clauses[a.cause.value].terms, t)
    ensures AllJustified(trail + [a], clauses)
  {
    var next := trail + [a];
    forall i | 0 <= i < |next| ensures Justified(next[..i], next[i], clauses) {
      if i < |trail| {
        assert next[..i] == trail[..i];
        assert Justified(trail[..i], trail[i], clauses);
      } else {
        assert next[..i] == trail;
      }
    }
  }

  lemma JustifiedGrows(trail: Trail, clauses: seq<Clause>, clauses': seq<Clause>)
    requires AllJustified(trail, clauses) && clauses <= clauses'
    ensures AllJustified(trail, clauses')
  {
    forall i | 0 <= i < |trail| ensures Justified(trail[..i], trail[i], clauses') {
      assert Justified(trail[..i], trail[i], clauses);
    }
  }

  /* ------------------------------------------------------------------ worklist */

  ghost predicate AllSatisfied(trail: Trail, terms: seq<Term>) {
    forall t :: 0 <= t < |terms| ==> StateOf(trail, terms[t]) == Satisfied
  }

  /** Some entry concerns the package. */
  ghost predicate Touched(trail: Trail, pkg: PackageId) {
    exists i :: 0 <= i < |trail| && trail[i].pkg == pkg
  }

  /** A unit clause the work list can lead to: through another, satisfied term, or
      through an entry on the package of its only one. */
  ghost predicate ReachableUnit(trail: Trail, terms: seq<Term>, t: nat) {
    UnitAt(trail, terms, t) && (|terms| >= 2 || Touched(trail, terms[t].pkg))
  }

  /** A clause that calls for action: in conflict, or unit and within reach. */
  ghost predicate Actionable(trail: Trail, terms: seq<Term>) {
    AllSatisfied(trail, terms) || exists t :: ReachableUnit(trail, terms, t)
  }

  ghost predicate Mentions(terms: seq<Term>, pkgs: seq<PackageId>) {
    exists t :: 0 <= t < |terms| && terms[t].pkg in pkgs
  }

  ghost predicate NeedsAction(trail: Trail, clauses: seq<Clause>, k: nat) {
    k < |clauses| && Actionable(trail, clauses[k].terms)
  }

  ghost predicate Queued(clauses: seq<Clause>, k: nat, queue: seq<PackageId>) {
    k < |clauses| && Mentions(clauses[k].terms, queue)
  }

  /** Every attached clause that calls for action mentions a queued package, or is
      among the clauses still to be visited. */
  ghost predicate WorklistOk(trail: Trail, clauses: seq<Clause>, attached: set<nat>,
                             queue: seq<PackageId>, rest: seq<nat>) {
    forall k :: k in attached && NeedsAction(trail, clauses, k) ==> Queued(clauses, k, queue) || k in rest
  }

  /** No attached clause is in conflict and none with two or more terms is unit. */
  ghost predicate Quiescent(trail: Trail, clauses: seq<Clause>, attached: set<nat>) {
    forall k :: k in attached ==> !NeedsAction(trail, clauses, k)
  }

  lemma TouchedBefore(trail: Trail, a: Assignment, pkg: PackageId)
    requires a.pkg != pkg && Touched(trail + [a], pkg)
    ensures Touched(trail, pkg)
  {
    var i :| 0 <= i < |trail + [a]| && (trail + [a])[i].pkg == pkg;
    assert trail[i].pkg == pkg;
  }

  /** Only clauses that mention the package of a new entry can start to call for action. */
  lemma ActionableLocal(trail: Trail, a: Assignment, terms: seq<Term>)
    requires Actionable(trail + [a], terms) && !Mentions(terms, [a.pkg])
    ensures Actionable(trail, terms)
  {
    forall t | 0 <= t < |terms| ensures StateOf(trail + [a], terms[t]) == StateOf(trail, terms[t]) {
      assert terms[t].pkg in [a.pkg] <==> terms[t].pkg == a.pkg;
      StateLocal(trail, a, terms[t]);
    }
    if !AllSatisfied(trail + [a], terms) {
      var t: nat :| ReachableUnit(trail + [a], terms, t);
      assert UnitAt(trail, terms, t);
      if |terms| < 2 {
        TouchedBefore(trail, a, terms[t].pkg);
      }
      assert ReachableUnit(trail, terms, t);
    }
  }

  lemma ActionableMentionsTrail(trail: Trail, terms: seq<Term>, queue: seq<PackageId>)
    requires terms != [] && Actionable(trail, terms)
    requires |queue| == |trail| && forall i :: 0 <= i < |trail| ==> queue[i] == trail[i].pkg
    ensures Mentions(terms, queue)
  {
    var s: nat;
    if AllSatisfied(trail, terms) {
      s := 0;
      PositiveNeedsEntry(trail, terms[s].pkg);
    } else {
      var t: nat :| ReachableUnit(trail, terms, t);
      if |terms| >= 2 {
        s := if t == 0 then 1 else 0;
        assert StateOf(trail, terms[s]) == Satisfied;
        PositiveNeedsEntry(trail, terms[s].pkg);
      } else {
        s := t;
      }
    }
    var i :| 0 <= i < |trail| && trail[i].pkg == terms[s].pkg;
    assert queue[i] in queue;
  }

  /** What propagation can leave behind: in a quiescent state a recorded clause is unit
      exactly when it has one term, on a package without any entry. */
  lemma UnitLeftBehind(trail: Trail, clauses: seq<Clause>, attached: set<nat>, k: nat)
    requires Quiescent(trail, clauses, attached) && k in attached && k < |clauses|
    ensures (exists t :: UnitAt(trail, clauses[k].terms, t)) <==>
            |clauses[k].terms| == 1 && !Touched(trail, clauses[k].terms[0].pkg)
  {
    var terms := clauses[k].terms;
    assert !NeedsAction(trail, clauses, k);
    if exists t :: UnitAt(trail, terms, t) {
      var t: nat :| UnitAt(trail, terms, t);
      assert !ReachableUnit(trail, terms, t);
    }
    if |terms| == 1 && !Touched(trail, terms[0].pkg) {
      if Positive(trail, terms[0].pkg).Some? {
        PositiveNeedsEntry(trail, terms[0].pkg);
      }
      assert UnitAt(trail, terms, 0);
    }
  }

  function Packages(terms: seq<Term>): seq<PackageId> {
    seq(|terms|, i requires 0 <= i < |terms| => terms[i].pkg)
  }

  function TrailPackages(trail: Trail): seq<PackageId> {
    seq(|trail|, i requires 0 <= i < |trail| => trail[i].pkg)
  }

  lemma QueueGrows(clauses: seq<Clause>, k: nat, queue: seq<PackageId>, more: seq<PackageId>)
    requires Queued(clauses, k, queue) || Queued(clauses, k, more)
    ensures Queued(clauses, k, queue + more)
  {
    var terms := clauses[k].terms;
    var t :| 0 <= t < |terms| && (terms[t].pkg in queue || terms[t].pkg in more);
    assert terms[t].pkg in queue + more;
  }

  lemma IdleDone(trail: Trail, clauses: seq<Clause>, attached: set<nat>, queue: seq<PackageId>,
                 rest: seq<nat>, k: nat)
    requires WorklistOk(trail, clauses, attached, queue, rest + [k]) && !NeedsAction(trail, clauses, k)
    ensures WorklistOk(trail, clauses, attached, queue, rest)
  {
  }

  /** After a derivation from clause k, any clause that calls for action is
      queued through the new entry or was waiting before. */
  lemma WorklistAfterDerivation(trail: Trail, a: Assignment, clauses: seq<Clause>, attached: set<nat>,
                                k: nat, t: nat, queue: seq<PackageId>, rest: seq<nat>)
    requires WorklistOk(trail, clauses, attached, queue, rest + [k])
    requires k < |clauses| && UnitAt(trail, clauses[k].terms, t)
    requires Fact(a) == Negated(clauses[k].terms[t]) && Proper(a.range)
    ensures WorklistOk(trail + [a], clauses, attached, queue + [a.pkg], rest)
  {
    NegationContradicts(trail, clauses[k].terms[t], a);
    forall j | j in attached && NeedsAction(trail + [a], clauses, j) && j !in rest
      ensures Queued(clauses, j, queue + [a.pkg])
    {
      if !Queued(clauses, j, [a.pkg]) {
        ActionableLocal(trail, a, clauses[j].terms);
        assert NeedsAction(trail, clauses, j);
        assert j != k;
      }
      QueueGrows(clauses, j, queue, [a.pkg]);
    }
  }

  lemma WorklistAfterPush(trail: Trail, a: Assignment, clauses: seq<Clause>, attached: set<nat>, queue: seq<PackageId>)
    requires WorklistOk(trail, clauses, attached, queue, [])
    ensures WorklistOk(trail + [a], clauses, attached, queue + [a.pkg], [])
  {
    forall k | k in attached && NeedsAction(trail + [a], clauses, k)
      ensures Queued(clauses, k, queue + [a.pkg])
    {
      if !Queued(clauses, k, [a.pkg]) {
        ActionableLocal(trail, a, clauses[k].terms);
        assert NeedsAction(trail, clauses, k);
      }
      QueueGrows(clauses, k, queue, [a.pkg]);
    }
  }

  lemma WorklistAfterAdd(trail: Trail, clauses: seq<Clause>, attached: set<nat>, queue: seq<PackageId>, c: Clause)
    requires WorklistOk(trail, clauses, attached, queue, []) && c.terms != []
    requires forall k :: k in attached ==> k < |clauses|
    ensures WorklistOk(trail, clauses + [c], attached + {|clauses|}, queue + Packages(c.terms), [])
  {
    var next := clauses + [c];
    forall k | k in attached + {|clauses|} && NeedsAction(trail, next, k)
      ensures Queued(next, k, queue + Packages(c.terms))
    {
      if k < |clauses| {
        assert NeedsAction(trail, clauses, k) && Queued(clauses, k, queue);
        QueueGrows(next, k, queue, Packages(c.terms));
      } else {
        assert Packages(c.terms)[0] in Packages(c.terms);
        assert Queued(next, k, Packages(c.terms));
        QueueGrows(next, k, queue, Packages(c.terms));
      }
    }
  }

  lemma JustifiedPrefix(trail: Trail, clauses: seq<Clause>, n: nat)
    requires AllJustified(trail, clauses) && n <= |trail|
    ensures AllJustified(trail[..n], clauses)
  {
    forall i | 0 <= i < n ensures Justified(trail[..n][..i], trail[..n][i], clauses) {
      assert trail[..n][..i] == trail[..i];
      assert Justified(trail[..i], trail[i], clauses);
    }
  }

  /** After a backjump it is enough that the packages of the trail are queued. */
  lemma WorklistOfTrail(trail: Trail, clauses: seq<Clause>, attached: set<nat>)
    requires forall k :: k in attached && k < |clauses| ==> clauses[k].terms != []
    ensures WorklistOk(trail, clauses, attached, TrailPackages(trail), [])
  {
    forall k | k in attached && NeedsAction(trail, clauses, k)
      ensures Queued(clauses, k, TrailPackages(trail))
    {
      ActionableMentionsTrail(trail, clauses[k].terms, TrailPackages(trail));
    }
  }

  /** An attached clause in conflict. */
  ghost predicate ConflictAt(trail: Trail, clauses: seq<Clause>, attached: set<nat>, k: nat) {
    k in attached && k < |clauses| && AllSatisfied(trail, clauses[k].terms)
  }

  lemma ConflictRecorded(trail: Trail, clauses: seq<Clause>, attached: set<nat>, k: nat)
    requires ConflictAt(trail, clauses, attached, k)
    ensures k in attached && k < |clauses| && AllSatisfied(trail, clauses[k].terms)
  {
  }

  lemma StillInConflict(trail: Trail, clauses: seq<Clause>, attached: set<nat>, k: nat)
    requires k in attached && k < |clauses|
    ensures AllSatisfied(trail, clauses[k].terms) ==> ConflictAt(trail, clauses, attached, k)
  {
  }

  lemma EmptyWorklist(trail: Trail, clauses: seq<Clause>, attached: set<nat>)
    requires WorklistOk(trail, clauses, attached, [], [])
    ensures Quiescent(trail, clauses, attached)
  {
  }

  /** One trail extends another by entries derived at one level. */
  ghost predicate DerivedFrom(before: Trail, after: Trail, level: nat) {
    before <= after &&
    forall i :: |before| <= i < |after| ==> after[i].cause.Some? && after[i].level == level
  }

  lemma DerivedFromSelf(trail: Trail, level: nat)
    ensures DerivedFrom(trail, trail, level)
  {
  }

  lemma DerivedFromTrans(a: Trail, b: Trail, c: Trail, level: nat)
    requires DerivedFrom(a, b, level) && DerivedFrom(b, c, level)
    ensures DerivedFrom(a, c, level)
  {
  }

  /* --------------------------------------------------------------- termination */

  /** The (clause, term) pairs without a verdict; every derivation removes one. */
  ghost function Pending(trail: Trail, clauses: seq<Clause>): set<(nat, nat)> {
    set k: nat, t: nat | k < |clauses| && t < |clauses[k].terms| &&
                         StateOf(trail, clauses[k].terms[t]) == Inconclusive :: (k, t)
  }

  lemma {:induction false} PendingShrinks(trail: Trail, clauses: seq<Clause>, k: nat, t: nat, a: Assignment)
    requires k < |clauses| && t < |clauses[k].terms|
    requires StateOf(trail, clauses[k].terms[t]) == Inconclusive
    requires Fact(a) == Negated(clauses[k].terms[t]) && Proper(a.range)
    ensures Pending(trail + [a], clauses) < Pending(trail, clauses)
  {
    forall j: nat, u: nat | j < |clauses| && u < |clauses[j].terms| &&
                            StateOf(trail + [a], clauses[j].terms[u]) == Inconclusive
      ensures StateOf(trail, clauses[j].terms[u]) == Inconclusive
    {
      StateSettles(trail, a, clauses[j].terms[u]);
    }
    NegationContradicts(trail, clauses[k].terms[t], a);
    assert (k, t) in Pending(trail, clauses) && (k, t) !in Pending(trail + [a], clauses);
  }

  /* ---------------------------------------------------------------- entailment */

  /** The uncaused entries below an index: root requirements and decisions. */
  ghost predicate AgreesWithChoices(m: Model, trail: Trail, n: nat)
    requires n <= |trail|
  {
    forall i :: 0 <= i < n && trail[i].cause.None? ==> Holds(m, Fact(trail[i]))
  }

  /** A model breaks the clauses behind the derived entries below an index. */
  ghost predicate BreaksCauses(m: Model, trail: Trail, clauses: seq<Clause>, n: nat)
    requires n <= |trail|
  {
    forall i :: 0 <= i < n && trail[i].cause.Some? && trail[i].cause.value < |clauses| ==>
      Breaks(m, clauses[trail[i].cause.value].terms)
  }

  /** One step: if a model agrees with the trail below an explained entry and
      breaks the clause behind it, it agrees with the entry. */
  lemma ExplainedEntryEntailed(m: Model, before: Trail, a: Assignment, terms: seq<Term>, t: nat)
    requires Agrees(m, before) && Explains(before, a, terms, t)
    requires TermsProper(terms) && Breaks(m, terms)
    ensures Holds(m, Fact(a))
  {
    forall u | 0 <= u < |terms| && u != t ensures Holds(m, terms[u]) {
      SatisfiedIsSound(m, before, terms[u]);
    }
  }

  /** Every derived entry is entailed: a model that breaks the clauses behind a trail
      prefix and agrees with its choices agrees with the whole prefix. */
  lemma {:induction false} DerivedEntriesEntailed(m: Model, trail: Trail, clauses: seq<Clause>, n: nat)
    requires n <= |trail|
    requires AllJustified(trail, clauses) && ClausesProper(clauses)
    requires BreaksCauses(m, trail, clauses, n) && AgreesWithChoices(m, trail, n)
    ensures Agrees(m, trail[..n])
  {
    if n > 0 {
      DerivedEntriesEntailed(m, trail, clauses, n - 1);
      var a := trail[n - 1];
      assert Justified(trail[..n - 1], a, clauses);
      if a.cause.Some? {
        var terms := clauses[a.cause.value].terms;
        var t :| Explains(trail[..n - 1], a, terms, t);
        assert TermsProper(terms) && Breaks(m, terms);
        ExplainedEntryEntailed(m, trail[..n - 1], a, terms, t);
      }
      assert Holds(m, Fact(a));
      forall i | 0 <= i < n ensures Holds(m, Fact(trail[..n][i])) {
        if i < n - 1 {
          assert trail[..n][i] == trail[..n - 1][i];
        }
      }
    }
  }
}
