/** The registry as an object: lookup, insertion, removal, merge, and the loops
    that read and write the file. */
module RegistryStore {
  import opened Versions
  import opened Ranges
  import opened Options
  import opened Machine
  import opened Registry
  import opened RegistryFile

  /* ----------------------------------------------------------------- file loops */

  /** An accumulated prefix in front of what a parser still returns. */
  function Prepend<T>(done: seq<T>, more: Parsed<seq<T>>): Parsed<seq<T>> {
    if more.Bad? then Bad else Good(done + more.value, more.rest)
  }

  method LoadEntry(s: seq<Byte>) returns (r: Parsed<Entry>)
    ensures r == ReadEntry(s)
  {
    hide ReadText, ReadVersion, ReadU64;
    var author := ReadText(s);
    if author.Bad? { return Bad; }
    var name := ReadText(author.rest);
    if name.Bad? { return Bad; }
    var newest := ReadVersion(name.rest);
    if newest.Bad? { return Bad; }
    var previous := ReadU64(newest.rest);
    if previous.Bad? { return Bad; }
    if previous.value > SIZE_MAX - 1 || 1 + previous.value > SIZE_MAX / SIZEOF_VERSION { return Bad; }
    var older: seq<Version>, rest := [], previous.rest;
    assert forall more: seq<Version> :: [] + more == more;
    for j := 0 to previous.value
      invariant ReadVersions(previous.rest, previous.value) ==
                Prepend(older, ReadVersions(rest, previous.value - j))
    {
      var v := ReadVersion(rest);
      if v.Bad? { return Bad; }
      assert forall more :: older + ([v.value] + more) == (older + [v.value]) + more;
      older, rest := older + [v.value], v.rest;
    }
    assert older + [] == older;
    r := Good(Entry(Key(author.value, name.value), [newest.value] + older), rest);
  }

  /** The entries come out in alphabetical order, whatever the order in the file. */
  method Load(s: seq<Byte>) returns (r: Option<Contents>)
    ensures r == Read(s)
    ensures r.Some? ==> Alphabetical(r.value.entries)
    ensures r.Some? ==> multiset(r.value.entries) == multiset(StoredEntries(s))
  {
    hide ReadU64, ReadEntry, SortEntries;
    var since := ReadU64(s);
    if since.Bad? { return None; }
    var count := ReadU64(since.rest);
    if count.Bad? || count.value > SIZE_MAX / SIZEOF_ENTRY { return None; }
    var entries: seq<Entry>, rest := [], count.rest;
    assert forall more: seq<Entry> :: [] + more == more;
    for i := 0 to count.value
      invariant ReadEntries(count.rest, count.value) == Prepend(entries, ReadEntries(rest, count.value - i))
    {
      var e := LoadEntry(rest);
      if e.Bad? { return None; }
      assert forall more :: entries + ([e.value] + more) == (entries + [e.value]) + more;
      entries, rest := entries + [e.value], e.rest;
    }
    assert entries + [] == entries;
    SortEntriesSorts(entries);
    SortedIsAlphabetical(SortEntries(entries));
    r := Some(Contents(since.value, SortEntries(entries)));
  }

  method Save(c: Contents) returns (r: Option<seq<Byte>>)
    ensures r == Write(c)
  {
    hide WriteU64, WriteEntry;
    var bytes := WriteU64(c.sinceCount) + WriteU64(|c.entries|);
    assert c.entries[0..] == c.entries;
    for i := 0 to |c.entries|
      invariant Write(c) == if WriteEntries(c.entries[i..]).None? then None
                            else Some(bytes + WriteEntries(c.entries[i..]).value)
    {
      var e := c.entries[i];
      assert c.entries[i..][1..] == c.entries[i + 1..];
      if e.versions == [] { return None; }
      assert forall more :: bytes + (WriteEntry(e) + more) == (bytes + WriteEntry(e)) + more;
      bytes := bytes + WriteEntry(e);
    }
    assert bytes + [] == bytes;
    r := Some(bytes);
  }

  /* --------------------------------------------------------------------- registry */

  class Store {
    var entries: seq<Entry>
    var sinceCount: nat

    ghost predicate Valid()
      reads this
    {
      EntriesOk(entries) && sinceCount <= SIZE_MAX
    }

    constructor ()
      ensures Valid() && entries == [] && sinceCount == 0
    {
      entries, sinceCount := [], 0;
    }

    /** A registry as read from a file. */
    constructor FromContents(c: Contents)
      ensures entries == c.entries && sinceCount == c.sinceCount
    {
      entries, sinceCount := c.entries, c.sinceCount;
    }

    /** Loading succeeds exactly on readable files; the registry is valid exactly when
        the file stores unique keys and newest-first versions. */
    static method Open(file: seq<Byte>) returns (r: Option<Store>)
      ensures r.Some? <==> Read(file).Some?
      ensures r.Some? ==> fresh(r.value) && r.value.Snapshot() == Read(file).value
      ensures r.Some? ==> (r.value.Valid() <==> EntriesOk(StoredEntries(file)))
    {
      var c := Load(file);
      if c.None? {
        return None;
      }
      ReadOkExact(file);
      var store := new Store.FromContents(c.value);
      r := Some(store);
    }

    function Snapshot(): Contents
      reads this
    {
      Contents(sinceCount, entries)
    }

    /** Saving fails exactly when an entry has no versions.  What it wrote reads back as
        a registry with the same versions for the same packages exactly when all names
        are short. */
    method SaveTo() returns (file: Option<seq<Byte>>)
      requires Valid() && |entries| <= SIZE_MAX / SIZEOF_ENTRY
      requires forall e :: e in entries && e.versions != [] ==> Writable(e)
      ensures file.Some? <==> forall e :: e in entries ==> e.versions != []
      ensures file.Some? ==>
        (Survives(Snapshot(), Read(file.value)) <==> forall e :: e in entries ==> ShortNames(e))
    {
      hide EntriesOk, Survives, Write, ShortNames;
      file := Save(Snapshot());
      WriteSucceeds(Snapshot());
      if file.Some? {
        ReloadExact(Snapshot());
      }
    }

    method Find(key: Key) returns (r: Option<nat>)
      ensures r.Some? <==> HasKey(entries, key)
      ensures r.Some? ==> r.value < |entries| && entries[r.value].key == key
    {
      for i := 0 to |entries|
        invariant forall j :: 0 <= j < i ==> entries[j].key != key
      {
        if entries[i].key == key { return Some(i); }
      }
      r := None;
    }

    /** Inserts a version into a package, creating the package when it is new.
        The counter moves only when asked, for a version that was not there; at its
        maximum the version is still inserted but the call reports failure. */
    method AddVersion(key: Key, version: Version, countForSince: bool) returns (ok: bool, added: bool)
      requires Valid()
      modifies this
      ensures Valid()
      ensures forall k, v :: Lists(entries, k, v) <==> old(Lists(entries, k, v)) || (k == key && v == version)
      ensures forall k :: HasKey(entries, k) <==> old(HasKey(entries, k)) || k == key
      ensures KeysOf(entries) == old(KeysOf(entries)) + if old(HasKey(entries, key)) then [] else [key]
      ensures added <==> !old(Lists(entries, key, version))
      ensures ok <==> !(added && countForSince && old(sinceCount) == SIZE_MAX)
      ensures sinceCount == old(sinceCount) + if added && countForSince && ok then 1 else 0
    {
      var i := FindOrCreate(key);
      var versions := entries[i].versions;
      for j := 0 to |versions|
        invariant forall l :: 0 <= l < j ==> versions[l] != version
      {
        if Compare(versions[j], version) == 0 {
          ListsAt(entries, i, version);
          return true, false;
        }
      }
      ListsAt(entries, i, version);
      InsertAt(i, version);
      if countForSince {
        if sinceCount == SIZE_MAX {
          return false, true;
        }
        sinceCount := sinceCount + 1;
      }
      return true, true;
    }

    method FindOrCreate(key: Key) returns (i: nat)
      requires EntriesOk(entries)
      modifies `entries
      ensures EntriesOk(entries) && i < |entries| && entries[i].key == key
      ensures forall k, v :: Lists(entries, k, v) <==> old(Lists(entries, k, v))
      ensures forall k :: HasKey(entries, k) <==> old(HasKey(entries, k)) || k == key
      ensures KeysOf(entries) == old(KeysOf(entries)) + if old(HasKey(entries, key)) then [] else [key]
    {
      var found := Find(key);
      if found.Some? {
        return found.value;
      }
      forall k, v ensures Lists(entries + [Entry(key, [])], k, v) <==> Lists(entries, k, v) {
        ListsAppend(entries, key, k, v);
      }
      forall k ensures HasKey(entries + [Entry(key, [])], k) <==> HasKey(entries, k) || k == key {
        ListsAppend(entries, key, k, ZERO);
      }
      i := |entries|;
      entries := entries + [Entry(key, [])];
    }

    /** Shifts the older versions down and puts the new one in its place. */
    method InsertAt(i: nat, version: Version)
      requires EntriesOk(entries) && i < |entries| && version !in entries[i].versions
      modifies `entries
      ensures EntriesOk(entries)
      ensures forall k, v :: Lists(entries, k, v) <==>
        old(Lists(entries, k, v)) || (k == old(entries)[i].key && v == version)
      ensures forall k :: HasKey(entries, k) <==> old(HasKey(entries, k))
      ensures KeysOf(entries) == old(KeysOf(entries))
    {
      var versions := entries[i].versions;
      var pos := 0;
      while pos < |versions| && Compare(version, versions[pos]) <= 0
        invariant 0 <= pos <= |versions|
        invariant forall j :: 0 <= j < pos ==> Rank(versions[j]) > Rank(version)
      {
        assert Compare(versions[pos], version) != 0;
        pos := pos + 1;
      }
      InsertKeepsOrder(versions, pos, version);
      SetVersions(i, versions[..pos] + [version] + versions[pos..]);
      forall k, v
        ensures Lists(entries, k, v) <==> old(Lists(entries, k, v)) || (k == old(entries)[i].key && v == version)
      {
        ListsAt(old(entries), i, v);
      }
    }

    method SetVersions(i: nat, versions: seq<Version>)
      requires EntriesOk(entries) && i < |entries| && NewestFirst(versions)
      modifies `entries
      ensures EntriesOk(entries) && |entries| == |old(entries)|
      ensures forall k, v :: Lists(entries, k, v) <==>
        if k == old(entries)[i].key then v in versions else old(Lists(entries, k, v))
      ensures forall k :: HasKey(entries, k) <==> old(HasKey(entries, k))
      ensures KeysOf(entries) == old(KeysOf(entries))
    {
      var next := entries[i := entries[i].(versions := versions)];
      assert forall j :: 0 <= j < |entries| ==> next[j].key == entries[j].key;
      forall k, v
        ensures Lists(next, k, v) <==> if k == entries[i].key then v in versions else Lists(entries, k, v)
      {
        ListsUpdate(entries, i, versions, k, v);
      }
      entries := next;
    }

    /** Removes a version, and the package with its last version.  The counter moves
        only when asked, for a version that was there, and never below zero. */
    method RemoveVersion(key: Key, version: Version, decrement: bool) returns (removed: bool)
      requires Valid()
      modifies this
      ensures Valid()
      ensures forall k, v :: Lists(entries, k, v) <==> old(Lists(entries, k, v)) && !(k == key && v == version)
      ensures removed <==> old(Lists(entries, key, version))
      ensures forall k :: HasKey(entries, k) <==>
        old(HasKey(entries, k)) && !(k == key && removed && forall v :: !Lists(entries, k, v))
      ensures sinceCount == if removed && decrement && old(sinceCount) > 0 then old(sinceCount) - 1 else old(sinceCount)
      ensures KeysOf(entries) == old(KeysOf(entries)) ||
        exists i :: 0 <= i < |old(entries)| && old(entries)[i].key == key &&
                    KeysOf(entries) == KeysOf(Closed(old(entries), i))
    {
      hide NewestFirst, Compare, Rank;
      var found := Find(key);
      if found.None? {
        return false;
      }
      var i := found.value;
      var versions := entries[i].versions;
      var j := 0;
      while j < |versions| && Compare(versions[j], version) != 0
        invariant 0 <= j <= |versions|
        invariant forall l :: 0 <= l < j ==> versions[l] != version
      {
        j := j + 1;
      }
      ListsAt(entries, i, version);
      if j == |versions| {
        return false;
      }
      if |versions| == 1 {
        RemoveEntry(i);
      } else {
        DeleteKeepsOrder(versions, j);
        SetVersions(i, versions[..j] + versions[j + 1..]);
        StillListed(old(entries), i, version);
      }
      forall v ensures old(Lists(entries, key, v)) <==> v in versions {
        ListsAt(old(entries), i, v);
      }
      if decrement && sinceCount > 0 {
        sinceCount := sinceCount - 1;
      }
      removed := true;
    }

    lemma StillListed(before: seq<Entry>, i: nat, version: Version)
      requires EntriesOk(before) && i < |before| && |before[i].versions| > 1
      ensures exists v :: v in before[i].versions && v != version
    {
      var vs := before[i].versions;
      assert vs[0] in vs && vs[1] in vs && Rank(vs[0]) != Rank(vs[1]);
    }

    /** Closes the gap left by an entry. */
    method RemoveEntry(i: nat)
      requires EntriesOk(entries) && i < |entries|
      modifies `entries
      ensures EntriesOk(entries)
      ensures forall k, v :: Lists(entries, k, v) <==> old(Lists(entries, k, v)) && k != old(entries)[i].key
      ensures forall k :: HasKey(entries, k) <==> old(HasKey(entries, k)) && k != old(entries)[i].key
      ensures entries == Closed(old(entries), i)
    {
      var next := Closed(entries, i);
      ClosedOk(entries, i);
      forall k, v ensures Lists(next, k, v) <==> Lists(entries, k, v) && k != entries[i].key {
        ListsRemove(entries, i, k, v);
      }
      forall k ensures HasKey(next, k) <==> HasKey(entries, k) && k != entries[i].key {
        ListsRemove(entries, i, k, ZERO);
      }
      entries := next;
    }

    /** Merges a registry file: a union, without touching the counter.  A file that
        cannot be read changes nothing. */
    method Merge(file: Option<seq<Byte>>) returns (ok: bool)
      requires Valid()
      modifies this
      ensures Valid() && ok && sinceCount == old(sinceCount)
      ensures file.None? || Read(file.value).None? ==> entries == old(entries)
      ensures file.Some? && Read(file.value).Some? ==>
        && Alphabetical(entries)
        && forall k, v :: Lists(entries, k, v) <==>
             old(Lists(entries, k, v)) || Lists(Read(file.value).value.entries, k, v)
    {
      if file.None? {
        return true;
      }
      var other := Load(file.value);
      if other.None? {
        return true;
      }
      var source := other.value.entries;
      for i := 0 to |source|
        invariant Valid() && sinceCount == old(sinceCount)
        invariant forall k, v :: Lists(entries, k, v) <==> old(Lists(entries, k, v)) || Lists(source[..i], k, v)
      {
        MergeEntry(source[i]);
        forall k, v ensures Lists(source[..i + 1], k, v) <==>
          Lists(source[..i], k, v) || (k == source[i].key && v in source[i].versions)
        {
          ListsPrefix(source, i, k, v);
        }
      }
      assert source[..|source|] == source;
      Sort();
      SortedIsAlphabetical(entries);
      ok := true;
    }

    method MergeEntry(e: Entry)
      requires Valid()
      modifies this
      ensures Valid() && sinceCount == old(sinceCount)
      ensures forall k, v :: Lists(entries, k, v) <==> old(Lists(entries, k, v)) || (k == e.key && v in e.versions)
    {
      for j := 0 to |e.versions|
        invariant Valid() && sinceCount == old(sinceCount)
        invariant forall k, v :: Lists(entries, k, v) <==>
          old(Lists(entries, k, v)) || (k == e.key && v in e.versions[..j])
      {
        var ok, _ := AddVersion(e.key, e.versions[j], false);
        assert e.versions[..j + 1] == e.versions[..j] + [e.versions[j]];
      }
      assert e.versions[..|e.versions|] == e.versions;
    }

    method Sort()
      requires Valid()
      modifies `entries
      ensures Valid() && Sorted(entries) && multiset(entries) == multiset(old(entries))
      ensures forall k, v :: Lists(entries, k, v) <==> old(Lists(entries, k, v))
    {
      SortEntriesSorts(entries);
      var next := SortEntries(entries);
      PermutationOk(entries, next);
      SortKeepsListing(entries);
      entries := next;
    }

    /** The first version in the range, which is the greatest there is. */
    method ResolveConstraint(key: Key, range: Option<Range>) returns (r: Option<Version>)
      requires Valid()
      ensures r.Some? ==>
        && range.Some? && Contains(range.value, r.value) && Lists(entries, key, r.value)
        && forall v :: Lists(entries, key, v) && Contains(range.value, v) ==> Rank(v) <= Rank(r.value)
      ensures r.None? ==> range.None? || forall v :: Lists(entries, key, v) ==> !Contains(range.value, v)
    {
      hide Contains, Rank;
      if range.None? {
        return None;
      }
      var found := Find(key);
      if found.None? {
        return None;
      }
      var versions := entries[found.value].versions;
      forall v ensures Lists(entries, key, v) <==> v in versions {
        ListsAt(entries, found.value, v);
      }
      for i := 0 to |versions|
        invariant forall j :: 0 <= j < i ==> !Contains(range.value, versions[j])
      {
        if Contains(range.value, versions[i]) {
          forall v | Lists(entries, key, v) && Contains(range.value, v) ensures Rank(v) <= Rank(versions[i]) {
            var j :| 0 <= j < |versions| && versions[j] == v;
            assert j >= i;
          }
          return Some(versions[i]);
        }
      }
      r := None;
    }
  }

  lemma ListsPrefix(source: seq<Entry>, i: nat, k: Key, v: Version)
    requires i < |source|
    ensures Lists(source[..i + 1], k, v) <==>
            Lists(source[..i], k, v) || (k == source[i].key && v in source[i].versions)
  {
    var next := source[..i + 1];
    assert forall j :: 0 <= j < i ==> next[j] == source[..i][j];
    assert next[i] == source[i];
  }
}
