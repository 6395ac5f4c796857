/** The package registry: entries with newest-first version arrays, edited in place. */
module Registry {
  import opened Versions
  import opened Machine

  /** A C string: its bytes without the terminator. */
  type Text = seq<Byte>

  datatype Key = Key(author: Text, name: Text)

  datatype Entry = Entry(key: Key, versions: seq<Version>)

  /** No two entries describe the same package, and each lists its versions newest first. */
  ghost predicate EntriesOk(entries: seq<Entry>) {
    && (forall i, j :: 0 <= i < j < |entries| ==> entries[i].key != entries[j].key)
    && (forall i :: 0 <= i < |entries| ==> NewestFirst(entries[i].versions))
  }

  /** The abstract content: which package has which versions. */
  ghost predicate Lists(entries: seq<Entry>, key: Key, v: Version) {
    exists i :: 0 <= i < |entries| && entries[i].key == key && v in entries[i].versions
  }

  ghost predicate HasKey(entries: seq<Entry>, key: Key) {
    exists i :: 0 <= i < |entries| && entries[i].key == key
  }

  /** The packages in storage order. */
  function KeysOf(entries: seq<Entry>): seq<Key> {
    seq(|entries|, i requires 0 <= i < |entries| => entries[i].key)
  }

  /** With unique keys the one entry of a package tells everything about it. */
  lemma ListsAt(entries: seq<Entry>, i: nat, v: Version)
    requires EntriesOk(entries) && i < |entries|
    ensures Lists(entries, entries[i].key, v) <==> v in entries[i].versions
  {
    if Lists(entries, entries[i].key, v) {
      var j :| 0 <= j < |entries| && entries[j].key == entries[i].key && v in entries[j].versions;
      assert !(i < j) && !(j < i);
    }
  }

  /** Rewriting the versions of one entry changes that package only. */
  lemma ListsUpdate(entries: seq<Entry>, i: nat, versions: seq<Version>, key: Key, v: Version)
    requires EntriesOk(entries) && i < |entries|
    requires EntriesOk(entries[i := entries[i].(versions := versions)])
    ensures Lists(entries[i := entries[i].(versions := versions)], key, v) <==>
            if key == entries[i].key then v in versions else Lists(entries, key, v)
  {
    var next := entries[i := entries[i].(versions := versions)];
    if key == entries[i].key {
      ListsAt(next, i, v);
    } else {
      assert forall j :: 0 <= j < |entries| && entries[j].key == key ==> next[j] == entries[j];
      assert forall j :: 0 <= j < |entries| && next[j].key == key ==> next[j] == entries[j];
    }
  }

  lemma ListsAppend(entries: seq<Entry>, key: Key, k: Key, v: Version)
    ensures Lists(entries + [Entry(key, [])], k, v) <==> Lists(entries, k, v)
    ensures HasKey(entries + [Entry(key, [])], k) <==> HasKey(entries, k) || k == key
  {
    var next := entries + [Entry(key, [])];
    assert next[|entries|].key == key;
    assert forall j :: 0 <= j < |entries| ==> next[j] == entries[j];
  }

  /** The entries left when one is taken out and the gap is closed. */
  function Closed(entries: seq<Entry>, i: nat): seq<Entry>
    requires i < |entries|
  {
    entries[..i] + entries[i + 1..]
  }

  /** Which entries remain, in both directions. */
  lemma ClosedEntries(entries: seq<Entry>, i: nat)
    requires i < |entries|
    ensures |Closed(entries, i)| == |entries| - 1
    ensures forall j :: 0 <= j < |entries| - 1 ==> Closed(entries, i)[j] == entries[if j < i then j else j + 1]
  {
  }

  lemma ClosedOk(entries: seq<Entry>, i: nat)
    requires EntriesOk(entries) && i < |entries|
    ensures EntriesOk(Closed(entries, i))
    ensures forall j :: 0 <= j < |entries| && j != i ==> entries[j].key != entries[i].key
  {
    hide NewestFirst, Closed;
    ClosedEntries(entries, i);
  }

  lemma ClosedMember(entries: seq<Entry>, i: nat, j: nat)
    requires i < |entries| && j < |entries| && j != i
    ensures entries[j] in Closed(entries, i)
  {
    var k := if j < i then j else j - 1;
    assert Closed(entries, i)[k] == entries[j];
  }

  lemma ListsRemove(entries: seq<Entry>, i: nat, k: Key, v: Version)
    requires EntriesOk(entries) && i < |entries|
    ensures Lists(Closed(entries, i), k, v) <==> Lists(entries, k, v) && k != entries[i].key
    ensures HasKey(Closed(entries, i), k) <==> HasKey(entries, k) && k != entries[i].key
  {
    hide EntriesOk, Closed;
    ClosedOk(entries, i);
    ClosedEntries(entries, i);
    if k == entries[i].key {
    } else if HasKey(entries, k) {
      var j :| 0 <= j < |entries| && entries[j].key == k;
      ClosedMember(entries, i, j);
      if Lists(entries, k, v) {
        var l :| 0 <= l < |entries| && entries[l].key == k && v in entries[l].versions;
        ClosedMember(entries, i, l);
      }
    }
  }

  /** Inserting at the position the source computes keeps the order. */
  lemma InsertKeepsOrder(versions: seq<Version>, pos: nat, v: Version)
    requires NewestFirst(versions) && pos <= |versions|
    requires forall i :: 0 <= i < pos ==> Rank(versions[i]) > Rank(v)
    requires pos < |versions| ==> Rank(v) > Rank(versions[pos])
    ensures NewestFirst(versions[..pos] + [v] + versions[pos..])
    ensures forall w :: w in versions[..pos] + [v] + versions[pos..] <==> w in versions || w == v
  {
    assert versions == versions[..pos] + versions[pos..];
  }

  lemma DeleteKeepsOrder(versions: seq<Version>, pos: nat)
    requires NewestFirst(versions) && pos < |versions|
    ensures NewestFirst(versions[..pos] + versions[pos + 1..])
    ensures forall w :: w in versions[..pos] + versions[pos + 1..] <==> w in versions && w != versions[pos]
  {
    var next := versions[..pos] + versions[pos + 1..];
    assert versions == versions[..pos] + [versions[pos]] + versions[pos + 1..];
    assert forall i :: 0 <= i < |next| ==> next[i] == versions[if i < pos then i else i + 1];
  }

  /* ------------------------------------------------------------------ key order */

  /** strcmp on unsigned bytes: negative, zero or positive. */
  function CompareText(a: Text, b: Text): int {
    if a == [] then (if b == [] then 0 else -1)
    else if b == [] then 1
    else if a[0] != b[0] then (if a[0] < b[0] then -1 else 1)
    else CompareText(a[1..], b[1..])
  }

  function CompareKeys(a: Key, b: Key): int {
    var c := CompareText(a.author, b.author);
    if c != 0 then c else CompareText(a.name, b.name)
  }

  lemma {:induction false} CompareTextOrder(a: Text, b: Text)
    ensures CompareText(a, b) == 0 <==> a == b
    ensures CompareText(b, a) == -CompareText(a, b)
  {
    if a != [] && b != [] {
      CompareTextOrder(a[1..], b[1..]);
      assert a == [a[0]] + a[1..] && b == [b[0]] + b[1..];
    }
  }

  lemma {:induction false} CompareTextTransitive(a: Text, b: Text, c: Text)
    requires CompareText(a, b) <= 0 && CompareText(b, c) <= 0
    ensures CompareText(a, c) <= 0
    ensures CompareText(a, c) == 0 ==> CompareText(a, b) == 0
  {
    if a != [] && b != [] && c != [] && a[0] == b[0] == c[0] {
      CompareTextTransitive(a[1..], b[1..], c[1..]);
    }
  }

  /** The comparison of keys is a total order. */
  lemma CompareKeysOrder(a: Key, b: Key)
    ensures CompareKeys(a, b) == 0 <==> a == b
    ensures CompareKeys(b, a) == -CompareKeys(a, b)
  {
    CompareTextOrder(a.author, b.author);
    CompareTextOrder(a.name, b.name);
  }

  lemma CompareKeysTransitive(a: Key, b: Key, c: Key)
    requires CompareKeys(a, b) <= 0 && CompareKeys(b, c) <= 0
    ensures CompareKeys(a, c) <= 0
  {
    CompareTextOrder(a.author, b.author);
    CompareTextOrder(b.author, c.author);
    CompareTextTransitive(a.author, b.author, c.author);
    if a.author == b.author == c.author {
      CompareTextTransitive(a.name, b.name, c.name);
    }
  }

  /** Dictionary order by unsigned bytes: a proper prefix comes first, otherwise the
      smaller byte at the first difference decides. */
  ghost predicate Before(a: Text, b: Text) {
    exists n: nat :: DiffersAt(a, b, n)
  }

  ghost predicate DiffersAt(a: Text, b: Text, n: nat) {
    && n <= |a| && n < |b| && a[..n] == b[..n]
    && (n == |a| || a[n] < b[n])
  }

  /** The comparison is negative exactly for texts in dictionary order. */
  lemma {:induction false} CompareTextExact(a: Text, b: Text)
    ensures CompareText(a, b) < 0 <==> Before(a, b)
  {
    if b != [] && (a == [] || a[0] < b[0]) {
      assert DiffersAt(a, b, 0);
    } else if a != [] && b != [] && a[0] == b[0] {
      CompareTextExact(a[1..], b[1..]);
      if Before(a[1..], b[1..]) {
        var n: nat :| DiffersAt(a[1..], b[1..], n);
        assert a[..n + 1] == [a[0]] + a[1..][..n] && b[..n + 1] == [b[0]] + b[1..][..n];
        assert DiffersAt(a, b, n + 1);
      }
      if Before(a, b) {
        var n: nat :| DiffersAt(a, b, n);
        assert n > 0;
        assert a[1..][..n - 1] == a[..n][1..] && b[1..][..n - 1] == b[..n][1..];
        assert DiffersAt(a[1..], b[1..], n - 1);
      }
    } else if a != [] && b != [] {
      forall n: nat | 0 < n <= |a| && n <= |b| ensures a[..n] != b[..n] {
        assert a[..n][0] != b[..n][0];
      }
    }
  }

  /** The author decides, and between packages of one author the name. */
  ghost predicate KeyBefore(a: Key, b: Key) {
    Before(a.author, b.author) || (a.author == b.author && Before(a.name, b.name))
  }

  lemma CompareKeysExact(a: Key, b: Key)
    ensures CompareKeys(a, b) < 0 <==> KeyBefore(a, b)
    ensures CompareKeys(a, b) == 0 <==> a == b
  {
    hide Before;
    CompareTextExact(a.author, b.author);
    CompareTextExact(a.name, b.name);
    CompareTextOrder(a.author, b.author);
    CompareTextOrder(a.name, b.name);
    if a.author == b.author {
      NotBeforeSelf(a.author);
    }
  }

  lemma NotBeforeSelf(a: Text)
    ensures !Before(a, a)
  {
  }

  /** From A to Z: each key comes before all later ones, unless they are equal. */
  ghost predicate Alphabetical(entries: seq<Entry>) {
    forall i, j :: 0 <= i < j < |entries| ==>
      KeyBefore(entries[i].key, entries[j].key) || entries[i].key == entries[j].key
  }

  lemma SortedIsAlphabetical(entries: seq<Entry>)
    ensures Sorted(entries) <==> Alphabetical(entries)
  {
    hide CompareKeys, KeyBefore;
    forall i, j | 0 <= i < j < |entries|
      ensures CompareKeys(entries[i].key, entries[j].key) <= 0 <==>
              KeyBefore(entries[i].key, entries[j].key) || entries[i].key == entries[j].key
    {
      CompareKeysExact(entries[i].key, entries[j].key);
    }
  }

  ghost predicate Sorted(entries: seq<Entry>) {
    forall i, j :: 0 <= i < j < |entries| ==> CompareKeys(entries[i].key, entries[j].key) <= 0
  }

  function InsertEntry(e: Entry, sorted: seq<Entry>): seq<Entry> {
    if sorted == [] then [e]
    else if CompareKeys(e.key, sorted[0].key) <= 0 then [e] + sorted
    else [sorted[0]] + InsertEntry(e, sorted[1..])
  }

  /** The effect of the library sort, whose own algorithm is not modelled. */
  function SortEntries(entries: seq<Entry>): seq<Entry> {
    if entries == [] then [] else InsertEntry(entries[0], SortEntries(entries[1..]))
  }

  lemma {:induction false} InsertEntryPermutes(e: Entry, sorted: seq<Entry>)
    ensures multiset(InsertEntry(e, sorted)) == multiset(sorted) + multiset{e}
  {
    hide CompareKeys;
    if sorted != [] {
      assert sorted == [sorted[0]] + sorted[1..];
      if CompareKeys(e.key, sorted[0].key) > 0 {
        InsertEntryPermutes(e, sorted[1..]);
      }
    }
  }

  lemma {:induction false} InsertEntrySorts(e: Entry, sorted: seq<Entry>)
    requires Sorted(sorted)
    ensures Sorted(InsertEntry(e, sorted))
  {
    hide CompareKeys;
    if sorted == [] {
    } else if CompareKeys(e.key, sorted[0].key) <= 0 {
      forall j | 0 <= j < |sorted| ensures CompareKeys(e.key, sorted[j].key) <= 0 {
        if j > 0 { CompareKeysTransitive(e.key, sorted[0].key, sorted[j].key); }
      }
    } else {
      InsertEntrySorts(e, sorted[1..]);
      InsertEntryPermutes(e, sorted[1..]);
      CompareKeysOrder(e.key, sorted[0].key);
      var rest := InsertEntry(e, sorted[1..]);
      forall j | 0 <= j < |rest| ensures CompareKeys(sorted[0].key, rest[j].key) <= 0 {
        assert rest[j] in multiset(rest);
        assert rest[j] in sorted[1..] || rest[j] == e;
      }
    }
  }

  /** Sorting yields a sorted permutation. */
  lemma {:induction false} SortEntriesSorts(entries: seq<Entry>)
    ensures Sorted(SortEntries(entries)) && multiset(SortEntries(entries)) == multiset(entries)
  {
    if entries != [] {
      SortEntriesSorts(entries[1..]);
      InsertEntrySorts(entries[0], SortEntries(entries[1..]));
      InsertEntryPermutes(entries[0], SortEntries(entries[1..]));
      assert entries == [entries[0]] + entries[1..];
    }
  }

  lemma SameHead(a: seq<Entry>, b: seq<Entry>)
    requires Sorted(a) && Sorted(b) && EntriesOk(a) && a != [] && b != []
    requires a[0] in b && b[0] in a
    ensures a[0] == b[0]
  {
    var i :| 0 <= i < |a| && a[i] == b[0];
    var j :| 0 <= j < |b| && b[j] == a[0];
    CompareKeysOrder(a[0].key, b[0].key);
    assert i > 0 ==> CompareKeys(a[0].key, a[i].key) <= 0;
    assert j > 0 ==> CompareKeys(b[0].key, b[j].key) <= 0;
  }

  lemma TailOf(a: seq<Entry>)
    requires a != []
    ensures a == [a[0]] + a[1..] && multiset(a[1..]) == multiset(a) - multiset{a[0]}
    ensures Sorted(a) ==> Sorted(a[1..])
    ensures EntriesOk(a) ==> EntriesOk(a[1..])
  {
    hide Sorted, EntriesOk;
    assert a == [a[0]] + a[1..];
    TailKeeps(a, a[1..]);
  }

  lemma TailKeeps(a: seq<Entry>, tail: seq<Entry>)
    requires |a| == |tail| + 1 && forall i :: 0 <= i < |tail| ==> tail[i] == a[i + 1]
    ensures Sorted(a) ==> Sorted(tail)
    ensures EntriesOk(a) ==> EntriesOk(tail)
  {
    hide NewestFirst, CompareKeys;
  }

  lemma SameMembers(a: seq<Entry>, b: seq<Entry>)
    requires multiset(a) == multiset(b)
    ensures |a| == |b| && forall e :: e in a <==> e in b
  {
    assert |a| == |multiset(a)| == |multiset(b)| == |b|;
    assert forall e :: e in a <==> e in multiset(a);
  }

  /** With unique keys there is only one sorted permutation, so it does not matter
      which algorithm sorts. */
  lemma {:induction false} SortedUnique(a: seq<Entry>, b: seq<Entry>)
    requires Sorted(a) && Sorted(b) && multiset(a) == multiset(b) && EntriesOk(a)
    ensures a == b
  {
    hide Sorted, EntriesOk;
    SameMembers(a, b);
    if a != [] {
      SameHead(a, b);
      TailOf(a);
      TailOf(b);
      SortedUnique(a[1..], b[1..]);
    }
  }

  lemma KeyCount(a: seq<Entry>, e: Entry, f: Entry)
    requires e in a && f in a && e.key == f.key && EntriesOk(a)
    ensures e == f && multiset(a)[e] == 1
  {
    var i :| 0 <= i < |a| && a[i] == e;
    var j :| 0 <= j < |a| && a[j] == f;
    assert i == j;
    assert a == a[..i] + [e] + a[i + 1..];
    assert e !in a[..i] && e !in a[i + 1..];
  }

  lemma DuplicateCounts(b: seq<Entry>, i: nat, j: nat)
    requires i < j < |b| && b[i] == b[j]
    ensures multiset(b)[b[i]] >= 2
  {
    assert b == b[..j] + [b[j]] + b[j + 1..];
    assert b[..j][i] == b[j];
  }

  /** Unique keys and ordered versions survive any permutation. */
  lemma PermutationOk(a: seq<Entry>, b: seq<Entry>)
    requires EntriesOk(a) && multiset(a) == multiset(b)
    ensures EntriesOk(b)
  {
    SameMembers(a, b);
    forall i | 0 <= i < |b| ensures NewestFirst(b[i].versions) {
      assert b[i] in a;
    }
    forall i, j | 0 <= i < j < |b| ensures b[i].key != b[j].key {
      if b[i].key == b[j].key {
        KeyCount(a, b[i], b[j]);
        DuplicateCounts(b, i, j);
      }
    }
  }
}
