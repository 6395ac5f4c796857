/** "Did you mean": the four closest packages, kept in a small sorted array. */
module Suggestions {
  import opened EditDistance

  const MAX_SUGGESTIONS: nat := 4

  datatype Candidate = Candidate(author: string, name: string)

  /** What a version-2 registry records of a version. */
  datatype VersionStatus = Usable | Obsolete | Missing | MissingDependencies

  datatype Listing = Listing(author: string, name: string, statuses: seq<VersionStatus>)

  datatype Suggestion = Suggestion(author: string, name: string, score: nat)

  /** The official authors count as no distance at all. */
  function AuthorDistance(given: string, candidate: string): nat {
    if candidate == "elm" || candidate == "elm-explorations" then 0 else Distance(given, candidate)
  }

  function Scored(givenAuthor: string, givenName: string, c: Candidate): Suggestion {
    Suggestion(c.author, c.name, AuthorDistance(givenAuthor, c.author) + Distance(givenName, c.name))
  }

  /** The score is the least number of edits that turn the given name into the
      candidate's, and, unless the author is an official one, the author too. */
  lemma ScoreIsCheapest(givenAuthor: string, givenName: string, c: Candidate)
    returns (author: seq<Edit>, name: seq<Edit>)
    ensures Turns(name, givenName, c.name, |givenName|, |c.name|)
    ensures c.author != "elm" && c.author != "elm-explorations" ==>
      && Turns(author, givenAuthor, c.author, |givenAuthor|, |c.author|)
      && Scored(givenAuthor, givenName, c).score == Cost(author) + Cost(name)
      && forall x, y :: Turns(x, givenAuthor, c.author, |givenAuthor|, |c.author|) &&
                        Turns(y, givenName, c.name, |givenName|, |c.name|) ==>
                          Scored(givenAuthor, givenName, c).score <= Cost(x) + Cost(y)
    ensures c.author == "elm" || c.author == "elm-explorations" ==>
      && Scored(givenAuthor, givenName, c).score == Cost(name)
      && forall y :: Turns(y, givenName, c.name, |givenName|, |c.name|) ==>
                       Scored(givenAuthor, givenName, c).score <= Cost(y)
  {
    hide Osa, Turns, Cost;
    author := BestScript(givenAuthor, c.author, |givenAuthor|, |c.author|);
    name := BestScript(givenName, c.name, |givenName|, |c.name|);
    forall x | Turns(x, givenAuthor, c.author, |givenAuthor|, |c.author|)
      ensures Osa(givenAuthor, c.author, |givenAuthor|, |c.author|) <= Cost(x)
    {
      NoCheaperScript(x, givenAuthor, c.author, |givenAuthor|, |c.author|);
    }
    forall y | Turns(y, givenName, c.name, |givenName|, |c.name|)
      ensures Osa(givenName, c.name, |givenName|, |c.name|) <= Cost(y)
    {
      NoCheaperScript(y, givenName, c.name, |givenName|, |c.name|);
    }
  }

  function ScoredAll(givenAuthor: string, givenName: string, cs: seq<Candidate>): seq<Suggestion> {
    seq(|cs|, i requires 0 <= i < |cs| => Scored(givenAuthor, givenName, cs[i]))
  }

  /* --------------------------------------------------------------- stable sorting */

  /** Before the first entry with a larger score, hence after all equal ones. */
  function StableInsert(list: seq<Suggestion>, s: Suggestion): seq<Suggestion> {
    if list == [] then [s]
    else if s.score < list[0].score then [s] + list
    else [list[0]] + StableInsert(list[1..], s)
  }

  function StableSort(stream: seq<Suggestion>): seq<Suggestion> {
    if stream == [] then []
    else StableInsert(StableSort(stream[..|stream| - 1]), stream[|stream| - 1])
  }

  function Take(list: seq<Suggestion>, k: nat): seq<Suggestion> {
    if |list| <= k then list else list[..k]
  }

  ghost predicate Ascending(list: seq<Suggestion>) {
    forall i, j :: 0 <= i < j < |list| ==> list[i].score <= list[j].score
  }

  /** The entries with one score, in order. */
  function WithScore(list: seq<Suggestion>, score: nat): seq<Suggestion> {
    if list == [] then []
    else (if list[0].score == score then [list[0]] else []) + WithScore(list[1..], score)
  }

  lemma {:induction false} WithScoreAppend(list: seq<Suggestion>, s: Suggestion, score: nat)
    ensures WithScore(list + [s], score) == WithScore(list, score) + WithScore([s], score)
  {
    if list == [] {
      assert list + [s] == [s] && WithScore(list, score) == [];
    } else {
      WithScoreAppend(list[1..], s, score);
      assert (list + [s])[1..] == list[1..] + [s] && (list + [s])[0] == list[0];
      assert WithScore(list + [s], score) ==
             (if list[0].score == score then [list[0]] else []) + WithScore(list[1..] + [s], score);
    }
  }

  lemma {:induction false} StableInsertPermutes(list: seq<Suggestion>, s: Suggestion)
    ensures multiset(StableInsert(list, s)) == multiset(list) + multiset{s}
  {
    if list != [] {
      assert list == [list[0]] + list[1..];
      if s.score >= list[0].score {
        StableInsertPermutes(list[1..], s);
      }
    }
  }

  lemma {:induction false} StableInsertSorts(list: seq<Suggestion>, s: Suggestion)
    requires Ascending(list)
    ensures Ascending(StableInsert(list, s))
  {
    if list != [] && s.score >= list[0].score {
      StableInsertSorts(list[1..], s);
      StableInsertPermutes(list[1..], s);
      var rest := StableInsert(list[1..], s);
      forall i | 0 <= i < |rest| ensures list[0].score <= rest[i].score {
        assert rest[i] in multiset(rest);
        assert rest[i] in list[1..] || rest[i] == s;
      }
    } else if list != [] {
      assert forall i :: 0 <= i < |list| ==> list[0].score <= list[i].score;
    }
  }

  lemma {:induction false} StableInsertIsLast(list: seq<Suggestion>, s: Suggestion, score: nat)
    requires Ascending(list)
    ensures WithScore(StableInsert(list, s), score) == WithScore(list, score) + WithScore([s], score)
  {
    hide Ascending;
    if list == [] {
      assert WithScore(list, score) == [];
    } else if s.score < list[0].score {
      if score == s.score { NoneBelow(list, score); }
      assert ([s] + list)[1..] == list;
      assert [s][1..] == [];
    } else {
      TailAscending(list);
      StableInsertIsLast(list[1..], s, score);
    }
  }

  lemma TailAscending(list: seq<Suggestion>)
    requires Ascending(list) && list != []
    ensures Ascending(list[1..])
  {
  }

  lemma {:induction false} NoneBelow(list: seq<Suggestion>, score: nat)
    requires Ascending(list) && (list != [] ==> score < list[0].score)
    ensures WithScore(list, score) == []
  {
    if list != [] { NoneBelow(list[1..], score); }
  }

  lemma EmptyIsAscending(score: nat)
    ensures Ascending([]) && WithScore([], score) == []
  {
  }

  /** The sort of the specification sorts, permutes, and keeps ties in arrival order. */
  lemma {:induction false} StableSortIsStable(stream: seq<Suggestion>, score: nat)
    ensures Ascending(StableSort(stream))
    ensures multiset(StableSort(stream)) == multiset(stream)
    ensures WithScore(StableSort(stream), score) == WithScore(stream, score)
  {
    hide StableInsert, Ascending, WithScore;
    if stream == [] {
      EmptyIsAscending(score);
    } else {
      var n := |stream| - 1;
      StableSortIsStable(stream[..n], score);
      StableInsertSorts(StableSort(stream[..n]), stream[n]);
      StableInsertPermutes(StableSort(stream[..n]), stream[n]);
      StableInsertIsLast(StableSort(stream[..n]), stream[n], score);
      assert stream == stream[..n] + [stream[n]];
      WithScoreAppend(stream[..n], stream[n], score);
    }
  }

  /** Forgetting everything beyond the first k entries before an insertion does not
      show in the first k entries after it. */
  lemma {:induction false} TakeInsert(list: seq<Suggestion>, s: Suggestion, k: nat)
    ensures Take(StableInsert(Take(list, k), s), k) == Take(StableInsert(list, s), k)
  {
    if k == 0 || |list| <= k {
    } else if s.score < list[0].score {
      assert StableInsert(Take(list, k), s) == [s] + Take(list, k);
      TakeCons(s, Take(list, k), k);
      TakeCons(s, list, k);
      assert Take(Take(list, k), k - 1) == Take(list, k - 1);
    } else {
      TakeInsert(list[1..], s, k - 1);
      assert Take(list, k)[1..] == Take(list[1..], k - 1);
      TakeCons(list[0], StableInsert(Take(list[1..], k - 1), s), k);
      TakeCons(list[0], StableInsert(list[1..], s), k);
    }
  }

  lemma TakeCons(head: Suggestion, tail: seq<Suggestion>, k: nat)
    requires k > 0
    ensures Take([head] + tail, k) == [head] + Take(tail, k - 1)
  {
  }

  /** Where a full list ends with a score not above the new one, nothing changes. */
  lemma {:induction false} InsertBehind(list: seq<Suggestion>, s: Suggestion)
    requires forall i :: 0 <= i < |list| ==> list[i].score <= s.score
    ensures StableInsert(list, s) == list + [s]
  {
    if list != [] {
      InsertBehind(list[1..], s);
      assert list + [s] == [list[0]] + (list[1..] + [s]);
    }
  }

  lemma {:induction false} InsertAt(list: seq<Suggestion>, s: Suggestion, pos: nat)
    requires pos <= |list|
    requires forall i :: 0 <= i < pos ==> list[i].score <= s.score
    requires pos < |list| ==> s.score < list[pos].score
    ensures StableInsert(list, s) == list[..pos] + [s] + list[pos..]
  {
    if pos > 0 {
      InsertAt(list[1..], s, pos - 1);
      assert list[..pos] == [list[0]] + list[1..][..pos - 1];
    }
  }

  /* -------------------------------------------------------------- bounded array */

  /** Shifting insertion.  Called on a full array with a score that beats nothing, it
      overwrites the last place; its only caller rules that out. */
  method Insert(best: array<Suggestion>, count: nat, s: Suggestion) returns (newCount: nat)
    requires best.Length == MAX_SUGGESTIONS && count <= MAX_SUGGESTIONS
    modifies best
    ensures newCount == if count < MAX_SUGGESTIONS then count + 1 else MAX_SUGGESTIONS
    ensures count < MAX_SUGGESTIONS || (exists i :: 0 <= i < count && s.score < old(best[i]).score) ==>
      best[..newCount] == Take(StableInsert(old(best[..count]), s), MAX_SUGGESTIONS)
    ensures count == MAX_SUGGESTIONS && (forall i :: 0 <= i < count ==> old(best[i]).score <= s.score) ==>
      best[..newCount] == old(best[..count])[..MAX_SUGGESTIONS - 1] + [s]
  {
    ghost var before := best[..count];
    var pos := Position(best, count, s);
    InsertAt(before, s, pos);
    if pos == count && count >= MAX_SUGGESTIONS {
      pos := MAX_SUGGESTIONS - 1;
    }
    newCount := if count < MAX_SUGGESTIONS then count + 1 else MAX_SUGGESTIONS;
    if pos > newCount - 1 {
      pos := newCount - 1;
    }
    ShiftIn(best, count, pos, newCount, s);
  }

  /** The first place with a larger score, or the end. */
  method Position(best: array<Suggestion>, count: nat, s: Suggestion) returns (pos: nat)
    requires count <= best.Length
    ensures pos <= count
    ensures forall i :: 0 <= i < pos ==> best[i].score <= s.score
    ensures pos < count ==> s.score < best[pos].score
  {
    for i := 0 to count
      invariant forall j :: 0 <= j < i ==> best[j].score <= s.score
    {
      if s.score < best[i].score {
        return i;
      }
    }
    pos := count;
  }

  /** Moves everything from a place on one step back and fills the place. */
  method ShiftIn(best: array<Suggestion>, count: nat, pos: nat, newCount: nat, s: Suggestion)
    requires pos < newCount <= best.Length && count <= newCount <= count + 1
    modifies best
    ensures pos <= count
    ensures best[..newCount] == (old(best[..count])[..pos] + [s] + old(best[..count])[pos..])[..newCount]
  {
    ghost var before := best[..count];
    var i := newCount - 1;
    while i > pos
      invariant pos <= i <= newCount - 1
      invariant forall j :: 0 <= j <= i && j < count ==> best[j] == before[j]
      invariant forall j :: i < j < newCount ==> best[j] == before[j - 1]
    {
      best[i] := best[i - 1];
      i := i - 1;
    }
    best[pos] := s;
    ShiftedIn(before, best[..newCount], pos, s);
  }

  lemma ShiftedIn(before: seq<Suggestion>, after: seq<Suggestion>, pos: nat, s: Suggestion)
    requires pos <= |before| && pos < |after| && |before| <= |after| <= |before| + 1
    requires forall j :: 0 <= j < pos ==> after[j] == before[j]
    requires after[pos] == s
    requires forall j :: pos < j < |after| ==> after[j] == before[j - 1]
    ensures after == (before[..pos] + [s] + before[pos..])[..|after|]
  {
  }

  /** Offers one scored candidate; a full array turns away what would come last. */
  method Consider(best: array<Suggestion>, count: nat, s: Suggestion) returns (newCount: nat)
    requires best.Length == MAX_SUGGESTIONS && count <= MAX_SUGGESTIONS && Ascending(best[..count])
    modifies best
    ensures newCount <= MAX_SUGGESTIONS
    ensures best[..newCount] == Take(StableInsert(old(best[..count]), s), MAX_SUGGESTIONS)
  {
    if count == MAX_SUGGESTIONS && s.score >= best[MAX_SUGGESTIONS - 1].score {
      assert best[..count][count - 1] == best[MAX_SUGGESTIONS - 1];
      InsertBehind(best[..count], s);
      return count;
    }
    newCount := Insert(best, count, s);
  }

  /** Scores one candidate and offers it. */
  method Offer(givenAuthor: string, givenName: string, c: Candidate, best: array<Suggestion>, count: nat,
               ghost earlier: seq<Suggestion>) returns (newCount: nat)
    requires best.Length == MAX_SUGGESTIONS && count <= MAX_SUGGESTIONS
    requires best[..count] == Take(StableSort(earlier), MAX_SUGGESTIONS)
    modifies best
    ensures newCount <= MAX_SUGGESTIONS
    ensures best[..newCount] == Take(StableSort(earlier + [Scored(givenAuthor, givenName, c)]), MAX_SUGGESTIONS)
  {
    hide Distance;
    var nameDistance := OsaDistance(givenName, c.name);
    var authorDistance := 0;
    if c.author != "elm" && c.author != "elm-explorations" {
      authorDistance := OsaDistance(givenAuthor, c.author);
    }
    var s := Suggestion(c.author, c.name, authorDistance + nameDistance);
    assert s == Scored(givenAuthor, givenName, c);
    StableSortIsStable(earlier, 0);
    TakeInsert(StableSort(earlier), s, MAX_SUGGESTIONS);
    assert (earlier + [s])[..|earlier|] == earlier;
    newCount := Consider(best, count, s);
  }

  /** The reported suggestions: the first four of the stable sort of all candidates. */
  method SuggestNearby(givenAuthor: string, givenName: string, candidates: seq<Candidate>, best: array<Suggestion>)
    returns (count: nat)
    requires best.Length == MAX_SUGGESTIONS
    modifies best
    ensures count == if |candidates| < MAX_SUGGESTIONS then |candidates| else MAX_SUGGESTIONS
    ensures best[..count] ==
      Take(StableSort(ScoredAll(givenAuthor, givenName, candidates)), MAX_SUGGESTIONS)
  {
    hide Scored, StableSort;
    ghost var stream := ScoredAll(givenAuthor, givenName, candidates);
    count := 0;
    StableSortIsStable([], 0);
    SameLength([]);
    for i := 0 to |candidates|
      invariant count <= MAX_SUGGESTIONS
      invariant best[..count] == Take(StableSort(stream[..i]), MAX_SUGGESTIONS)
    {
      assert stream[..i + 1] == stream[..i] + [stream[i]];
      count := Offer(givenAuthor, givenName, candidates[i], best, count, stream[..i]);
    }
    assert stream[..|candidates|] == stream;
    StableSortIsStable(stream, 0);
    SameLength(stream);
  }

  /* ------------------------------------------------------- the version-2 registry */

  predicate HasUsable(l: Listing) {
    exists i :: 0 <= i < |l.statuses| && l.statuses[i].Usable?
  }

  /** The packages with a usable version, in registry order. */
  function UsableCandidates(listings: seq<Listing>): seq<Candidate> {
    if listings == [] then []
    else
      var last := listings[|listings| - 1];
      UsableCandidates(listings[..|listings| - 1]) +
      if HasUsable(last) then [Candidate(last.author, last.name)] else []
  }

  /** In registry order, exactly the packages that have a usable version. */
  lemma {:induction false} UsableExact(a: seq<Listing>, b: seq<Listing>, c: Candidate)
    ensures UsableCandidates(a + b) == UsableCandidates(a) + UsableCandidates(b)
    ensures c in UsableCandidates(b) <==>
            exists l :: l in b && l.author == c.author && l.name == c.name && HasUsable(l)
  {
    hide HasUsable;
    if b == [] {
      assert a + b == a;
    } else {
      var n := |b| - 1;
      assert (a + b)[..|a| + n] == a + b[..n] && b == b[..n] + [b[n]];
      UsableExact(a, b[..n], c);
    }
  }

  lemma UsableStep(listings: seq<Listing>, i: nat)
    requires i < |listings|
    ensures UsableCandidates(listings[..i + 1]) ==
            if HasUsable(listings[i])
            then UsableCandidates(listings[..i]) + [Candidate(listings[i].author, listings[i].name)]
            else UsableCandidates(listings[..i])
  {
    hide HasUsable;
    assert listings[..i + 1][..i] == listings[..i];
  }

  method HasValidVersion(l: Listing) returns (b: bool)
    ensures b <==> HasUsable(l)
  {
    for i := 0 to |l.statuses|
      invariant forall j :: 0 <= j < i ==> !l.statuses[j].Usable?
    {
      if l.statuses[i].Usable? {
        return true;
      }
    }
    b := false;
  }

  lemma ScoredAllAppend(givenAuthor: string, givenName: string, cs: seq<Candidate>, c: Candidate)
    ensures ScoredAll(givenAuthor, givenName, cs + [c]) ==
            ScoredAll(givenAuthor, givenName, cs) + [Scored(givenAuthor, givenName, c)]
  {
    hide Scored;
  }

  /** Packages without a usable version are passed over; the others compete as before. */
  method SuggestNearbyListed(givenAuthor: string, givenName: string, listings: seq<Listing>, best: array<Suggestion>)
    returns (count: nat)
    requires best.Length == MAX_SUGGESTIONS
    modifies best
    ensures var n := |UsableCandidates(listings)|; count == if n < MAX_SUGGESTIONS then n else MAX_SUGGESTIONS
    ensures best[..count] ==
      Take(StableSort(ScoredAll(givenAuthor, givenName, UsableCandidates(listings))), MAX_SUGGESTIONS)
  {
    hide Scored, StableSort, HasUsable;
    count := 0;
    StableSortIsStable([], 0);
    SameLength([]);
    assert listings[..0] == [] && ScoredAll(givenAuthor, givenName, UsableCandidates([])) == [];
    for i := 0 to |listings|
      invariant count <= MAX_SUGGESTIONS
      invariant best[..count] ==
        Take(StableSort(ScoredAll(givenAuthor, givenName, UsableCandidates(listings[..i]))), MAX_SUGGESTIONS)
    {
      var l := listings[i];
      UsableStep(listings, i);
      var valid := HasValidVersion(l);
      if valid {
        var c := Candidate(l.author, l.name);
        ScoredAllAppend(givenAuthor, givenName, UsableCandidates(listings[..i]), c);
        count := Offer(givenAuthor, givenName, c, best, count,
                       ScoredAll(givenAuthor, givenName, UsableCandidates(listings[..i])));
      }
    }
    assert listings[..|listings|] == listings;
    ghost var stream := ScoredAll(givenAuthor, givenName, UsableCandidates(listings));
    StableSortIsStable(stream, 0);
    SameLength(stream);
  }

  lemma SameLength(stream: seq<Suggestion>)
    requires multiset(StableSort(stream)) == multiset(stream)
    ensures |StableSort(stream)| == |stream|
  {
    assert |StableSort(stream)| == |multiset(StableSort(stream))| == |multiset(stream)| == |stream|;
  }
}
