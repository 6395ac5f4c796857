/** The data the solver keeps to go faster, and the plain data each must agree with. */
module Bookkeeping {
  import opened Options
  import opened Versions
  import opened Ranges
  import opened Terms
  import opened Clauses
  import opened Trails
  import opened Propagation

  /* ------------------------------------------------------------ package states */

  datatype PkgState = PkgState(used: bool, hasDecision: bool, decision: Version)

  const UNUSED := PkgState(false, false, ZERO)

  /** Recording one entry in the state of its package. */
  function Record(s: PkgState, a: Assignment): PkgState {
    if a.decided && a.positive && IsExact(a.range) then PkgState(true, true, a.range.lower.v)
    else s.(used := true)
  }

  /** The state a trail gives a package. */
  function StateFrom(trail: Trail, pkg: PackageId): PkgState {
    if trail == [] then UNUSED
    else
      var n := |trail| - 1;
      var before := StateFrom(trail[..n], pkg);
      if trail[n].pkg == pkg then Record(before, trail[n]) else before
  }

  ghost predicate StatesOk(trail: Trail, states: seq<PkgState>) {
    && (forall i :: 0 <= i < |trail| ==> trail[i].pkg < |states|)
    && (forall p :: 0 <= p < |states| ==> states[p] == StateFrom(trail, p))
  }

  lemma StateAppend(trail: Trail, a: Assignment, pkg: PackageId)
    ensures StateFrom(trail + [a], pkg) ==
            if a.pkg == pkg then Record(StateFrom(trail, pkg), a) else StateFrom(trail, pkg)
  {
    assert (trail + [a])[..|trail|] == trail;
  }

  lemma {:induction false} StateOfAbsent(trail: Trail, pkg: PackageId)
    requires forall i :: 0 <= i < |trail| ==> trail[i].pkg != pkg
    ensures StateFrom(trail, pkg) == UNUSED
  {
    if trail != [] {
      StateOfAbsent(trail[..|trail| - 1], pkg);
    }
  }

  /** What the per-package state says about the trail, both ways. */
  lemma {:induction false} StateMeaning(trail: Trail, pkg: PackageId)
    requires forall i :: 0 <= i < |trail| ==> WellKinded(trail[i])
    ensures StateFrom(trail, pkg).used <==> exists i :: 0 <= i < |trail| && trail[i].pkg == pkg
    ensures StateFrom(trail, pkg).hasDecision <==>
            exists i :: 0 <= i < |trail| && trail[i].pkg == pkg && trail[i].decided
    ensures StateFrom(trail, pkg).hasDecision ==>
      exists i :: 0 <= i < |trail| && trail[i].pkg == pkg && trail[i].decided &&
                  trail[i].range == Exact(StateFrom(trail, pkg).decision)
  {
    if trail != [] {
      var n := |trail| - 1;
      var init := trail[..n];
      assert forall i :: 0 <= i < n ==> init[i] == trail[i];
      StateMeaning(init, pkg);
    }
  }

  /* -------------------------------------------------------------- clause index */

  function Occurrences(terms: seq<Term>, pkg: PackageId): nat {
    if terms == [] then 0
    else
      var n := |terms| - 1;
      Occurrences(terms[..n], pkg) + if terms[n].pkg == pkg then 1 else 0
  }

  lemma {:induction false} OccurrencesPositive(terms: seq<Term>, t: nat)
    requires t < |terms|
    ensures Occurrences(terms, terms[t].pkg) > 0
  {
    if t < |terms| - 1 {
      OccurrencesPositive(terms[..|terms| - 1], t);
    }
  }

  lemma {:induction false} OccurrencesZero(terms: seq<Term>, pkg: PackageId)
    requires forall t :: 0 <= t < |terms| ==> terms[t].pkg != pkg
    ensures Occurrences(terms, pkg) == 0
  {
    if terms != [] {
      OccurrencesZero(terms[..|terms| - 1], pkg);
    }
  }

  /** Each package's list holds each attached clause once per matching term, and nothing else. */
  ghost predicate IndexOk(clauses: seq<Clause>, attached: set<nat>, lists: seq<seq<nat>>) {
    && (forall k :: k in attached ==> k < |clauses| && clauses[k].terms != [] && Indexed(clauses[k].terms, lists))
    && (forall p, k: nat :: 0 <= p < |lists| ==>
          multiset(lists[p])[k] == Multiplicity(clauses, attached, p, k))
  }

  ghost predicate Indexed(terms: seq<Term>, lists: seq<seq<nat>>) {
    forall t :: 0 <= t < |terms| ==> terms[t].pkg < |lists|
  }

  function Multiplicity(clauses: seq<Clause>, attached: set<nat>, pkg: PackageId, k: nat): nat {
    if k in attached && k < |clauses| then Occurrences(clauses[k].terms, pkg) else 0
  }

  lemma IndexFinds(clauses: seq<Clause>, attached: set<nat>, lists: seq<seq<nat>>, k: nat, t: nat)
    requires IndexOk(clauses, attached, lists) && k in attached && t < |clauses[k].terms|
    ensures clauses[k].terms[t].pkg < |lists| && k in lists[clauses[k].terms[t].pkg]
  {
    var p := clauses[k].terms[t].pkg;
    assert Indexed(clauses[k].terms, lists);
    OccurrencesPositive(clauses[k].terms, t);
    assert multiset(lists[p])[k] == Multiplicity(clauses, attached, p, k);
  }

  lemma IndexSound(clauses: seq<Clause>, attached: set<nat>, lists: seq<seq<nat>>, p: nat, k: nat)
    requires IndexOk(clauses, attached, lists) && p < |lists| && k in lists[p]
    ensures k in attached && k < |clauses|
  {
    assert multiset(lists[p])[k] == Multiplicity(clauses, attached, p, k);
  }

  lemma ListedMentions(clauses: seq<Clause>, attached: set<nat>, lists: seq<seq<nat>>, p: nat, k: nat)
    requires IndexOk(clauses, attached, lists) && p < |lists| && k in lists[p]
    ensures k < |clauses| && Mentions(clauses[k].terms, [p])
  {
    assert multiset(lists[p])[k] == Multiplicity(clauses, attached, p, k);
    if forall t :: 0 <= t < |clauses[k].terms| ==> clauses[k].terms[t].pkg != p {
      OccurrencesZero(clauses[k].terms, p);
    } else {
      var t :| 0 <= t < |clauses[k].terms| && clauses[k].terms[t].pkg == p;
      assert clauses[k].terms[t].pkg in [p];
    }
  }

  /** Lists beyond the old capacity have nothing to hold yet. */
  lemma NewListsEmpty(clauses: seq<Clause>, attached: set<nat>, lists: seq<seq<nat>>, capacity: nat, terms: seq<Term>)
    requires forall j :: j in attached ==> j < |clauses| && clauses[j].terms != [] && Indexed(clauses[j].terms, lists)
    requires Indexed(terms, lists)
    ensures forall p, j: nat :: |lists| <= p < capacity ==> Multiplicity(clauses, attached, p, j) == 0
    ensures forall p :: |lists| <= p < capacity ==> Occurrences(terms, p) == 0
  {
    forall p, j: nat | |lists| <= p < capacity ensures Multiplicity(clauses, attached, p, j) == 0 {
      if j in attached {
        assert Indexed(clauses[j].terms, lists);
        OccurrencesZero(clauses[j].terms, p);
      }
    }
    forall p | |lists| <= p < capacity ensures Occurrences(terms, p) == 0 {
      OccurrencesZero(terms, p);
    }
  }

  lemma IndexNonEmpty(clauses: seq<Clause>, attached: set<nat>, lists: seq<seq<nat>>)
    requires IndexOk(clauses, attached, lists)
    ensures forall k :: k in attached && k < |clauses| ==> clauses[k].terms != []
  {
  }

  lemma IndexAppend(clauses: seq<Clause>, attached: set<nat>, lists: seq<seq<nat>>, c: Clause)
    requires IndexOk(clauses, attached, lists)
    ensures IndexOk(clauses + [c], attached, lists)
  {
    forall p, k: nat | 0 <= p < |lists|
      ensures multiset(lists[p])[k] == Multiplicity(clauses + [c], attached, p, k)
    {
      assert multiset(lists[p])[k] == Multiplicity(clauses, attached, p, k);
    }
  }

  /** Clauses mentioning a popped package are found in that package's list. */
  lemma PoppedPackage(trail: Trail, clauses: seq<Clause>, attached: set<nat>, lists: seq<seq<nat>>,
                      queue: seq<PackageId>)
    requires queue != [] && IndexOk(clauses, attached, lists)
    requires WorklistOk(trail, clauses, attached, queue, [])
    ensures var n := |queue| - 1;
            WorklistOk(trail, clauses, attached, queue[..n],
                       if queue[n] < |lists| then lists[queue[n]] else [])
  {
    var n := |queue| - 1;
    forall k | k in attached && NeedsAction(trail, clauses, k) && !Queued(clauses, k, queue[..n])
      ensures queue[n] < |lists| && k in lists[queue[n]]
    {
      assert Queued(clauses, k, queue);
      var terms := clauses[k].terms;
      var t :| 0 <= t < |terms| && terms[t].pkg in queue;
      assert terms[t].pkg !in queue[..n];
      assert terms[t].pkg == queue[n];
      IndexFinds(clauses, attached, lists, k, t);
    }
  }

  /* ------------------------------------------------------------- version cache */

  /** A count other than -1 marks an entry that equals the provider's answer. */
  ghost predicate CacheOk(p: Provider, versions: seq<seq<Version>>, counts: seq<int>) {
    && |versions| == |counts|
    && (forall i :: 0 <= i < |counts| && counts[i] != -1 ==>
          counts[i] == |versions[i]| && p.versions(i) == Some(versions[i]))
  }
}
