/** The binary registry format: writer, reader, and their round trip. */
module RegistryFile {
  import opened Versions
  import opened Options
  import opened Machine
  import opened Registry

  /** The sizes behind the reader's overflow guards, on a 64-bit platform. */
  const SIZEOF_ENTRY: nat := 32
  const SIZEOF_VERSION: nat := 6

  datatype Parsed<+T> = Bad | Good(value: T, rest: seq<Byte>) {
    predicate IsFailure() { Bad? }
    function PropagateFailure<U>(): Parsed<U> requires Bad? { Bad }
    function Extract(): (T, seq<Byte>) requires Good? { (value, rest) }
  }

  datatype Contents = Contents(sinceCount: nat, entries: seq<Entry>)

  /* -------------------------------------------------------------------- numbers */

  function BigEndian(n: nat, width: nat): (bytes: seq<Byte>)
    ensures |bytes| == width
  {
    if width == 0 then [] else BigEndian(n / 256, width - 1) + [n % 256]
  }

  function Number(bytes: seq<Byte>): nat {
    if bytes == [] then 0
    else 256 * Number(bytes[..|bytes| - 1]) + bytes[|bytes| - 1]
  }

  function Pow256(width: nat): (r: nat)
    ensures r > 0
  {
    if width == 0 then 1 else 256 * Pow256(width - 1)
  }

  lemma {:induction false} NumberOfBigEndian(n: nat, width: nat)
    requires n < Pow256(width)
    ensures Number(BigEndian(n, width)) == n
  {
    if width > 0 {
      NumberOfBigEndian(n / 256, width - 1);
      assert BigEndian(n, width)[..width - 1] == BigEndian(n / 256, width - 1);
    }
  }

  /** The first byte counts most. */
  lemma {:induction false} MostSignificantFirst(first: Byte, rest: seq<Byte>)
    ensures Number([first] + rest) == first * Pow256(|rest|) + Number(rest)
  {
    var bytes := [first] + rest;
    if rest == [] {
      assert bytes[..0] == [];
    } else {
      var n := |rest| - 1;
      assert bytes[..|bytes| - 1] == [first] + rest[..n];
      MostSignificantFirst(first, rest[..n]);
      Regroup(first, Pow256(n));
    }
  }

  lemma Regroup(a: nat, p: nat)
    ensures 256 * (a * p) == a * (256 * p)
  {
  }

  lemma EightBytes()
    ensures Pow256(8) == SIZE_MAX + 1
  {
    assert Pow256(4) == 0x1_0000_0000;
    assert Pow256(8) == 256 * (256 * (256 * (256 * Pow256(4))));
  }

  function WriteU64(n: nat): seq<Byte> {
    BigEndian(n, 8)
  }

  function ReadU64(s: seq<Byte>): Parsed<nat> {
    if |s| < 8 then Bad else Good(Number(s[..8]), s[8..])
  }

  lemma U64RoundTrip(n: nat, tail: seq<Byte>)
    requires n <= SIZE_MAX
    ensures ReadU64(WriteU64(n) + tail) == Good(n, tail)
  {
    EightBytes();
    NumberOfBigEndian(n, 8);
    assert (WriteU64(n) + tail)[..8] == WriteU64(n) && (WriteU64(n) + tail)[8..] == tail;
  }

  /* ------------------------------------------------------------------- versions */

  function WriteVersion(v: Version): seq<Byte> {
    if v.major < 255 && v.minor < 256 && v.patch < 256 then [v.major, v.minor, v.patch]
    else [255] + WriteU64(v.major) + WriteU64(v.minor) + WriteU64(v.patch)
  }

  function Clamp(n: nat): U16 {
    if n > 65535 then 65535 else n
  }

  function ReadVersion(s: seq<Byte>): Parsed<Version> {
    if s == [] then Bad
    else if s[0] == 255 then
      var (major, s1) :- ReadU64(s[1..]);
      var (minor, s2) :- ReadU64(s1);
      var (patch, s3) :- ReadU64(s2);
      Good(Version(Clamp(major), Clamp(minor), Clamp(patch)), s3)
    else if |s| < 3 then Bad
    else Good(Version(s[0], s[1], s[2]), s[3..])
  }

  lemma VersionRoundTrip(v: Version, tail: seq<Byte>)
    ensures ReadVersion(WriteVersion(v) + tail) == Good(v, tail)
  {
    if !(v.major < 255 && v.minor < 256 && v.patch < 256) {
      var s := WriteVersion(v) + tail;
      assert s[1..] == WriteU64(v.major) + (WriteU64(v.minor) + (WriteU64(v.patch) + tail));
      U64RoundTrip(v.major, WriteU64(v.minor) + (WriteU64(v.patch) + tail));
      U64RoundTrip(v.minor, WriteU64(v.patch) + tail);
      U64RoundTrip(v.patch, tail);
    } else {
      assert (WriteVersion(v) + tail)[3..] == tail;
    }
  }

  /** Three bytes when they suffice, otherwise the tag 255 and three eight-byte numbers,
      major before minor before patch. */
  lemma VersionLayout(v: Version)
    ensures |WriteVersion(v)| == if v.major < 255 && v.minor < 256 && v.patch < 256 then 3 else 25
    ensures |WriteVersion(v)| == 3 ==>
      WriteVersion(v)[0] == v.major && WriteVersion(v)[1] == v.minor && WriteVersion(v)[2] == v.patch
    ensures |WriteVersion(v)| == 25 ==>
      && WriteVersion(v)[0] == 255
      && Number(WriteVersion(v)[1..9]) == v.major && Number(WriteVersion(v)[9..17]) == v.minor
      && Number(WriteVersion(v)[17..25]) == v.patch
  {
    hide BigEndian, Number;
    if |WriteVersion(v)| == 25 {
      var s := WriteVersion(v);
      assert s[1..9] == WriteU64(v.major) && s[9..17] == WriteU64(v.minor) && s[17..25] == WriteU64(v.patch);
      EightBytes();
      NumberOfBigEndian(v.major, 8);
      NumberOfBigEndian(v.minor, 8);
      NumberOfBigEndian(v.patch, 8);
    }
  }

  function AtMost(n: nat, limit: nat): nat {
    if n > limit then limit else n
  }

  /** What the reader makes of any bytes: short or tagged, numbers beyond 65535 cut
      to 65535, and too few bytes refused. */
  lemma ReadVersionExact(s: seq<Byte>)
    ensures ReadVersion(s).Good? <==> |s| >= 3 && (s[0] == 255 ==> |s| >= 25)
    ensures ReadVersion(s).Good? && s[0] != 255 ==>
      var r := ReadVersion(s);
      r.rest == s[3..] && r.value.major == s[0] && r.value.minor == s[1] && r.value.patch == s[2]
    ensures ReadVersion(s).Good? && s[0] == 255 ==>
      var r := ReadVersion(s);
      r.rest == s[25..] && r.value.major == AtMost(Number(s[1..9]), 65535) &&
      r.value.minor == AtMost(Number(s[9..17]), 65535) && r.value.patch == AtMost(Number(s[17..25]), 65535)
  {
    hide Number;
    if s != [] && s[0] == 255 {
      var s1 := s[1..];
      assert |s1| >= 8 ==> s1[..8] == s[1..9] && s1[8..] == s[9..];
      assert |s| >= 17 ==> s[9..][..8] == s[9..17] && s[9..][8..] == s[17..];
      assert |s| >= 25 ==> s[17..][..8] == s[17..25] && s[17..][8..] == s[25..];
    }
  }

  /** No encoding that reads as a version is shorter than the one written. */
  lemma VersionShortest(s: seq<Byte>)
    requires ReadVersion(s).Good?
    ensures |WriteVersion(ReadVersion(s).value)| <= |s| - |ReadVersion(s).rest|
  {
    hide Number, ReadVersion, WriteVersion;
    ReadVersionExact(s);
    VersionLayout(ReadVersion(s).value);
  }

  function WriteVersions(versions: seq<Version>): seq<Byte> {
    if versions == [] then [] else WriteVersion(versions[0]) + WriteVersions(versions[1..])
  }

  function ReadVersions(s: seq<Byte>, count: nat): Parsed<seq<Version>> {
    if count == 0 then Good([], s)
    else
      var (v, s1) :- ReadVersion(s);
      var (more, s2) :- ReadVersions(s1, count - 1);
      Good([v] + more, s2)
  }

  lemma {:induction false} VersionsRoundTrip(versions: seq<Version>, tail: seq<Byte>)
    ensures ReadVersions(WriteVersions(versions) + tail, |versions|) == Good(versions, tail)
  {
    if versions == [] {
      assert WriteVersions(versions) + tail == tail;
    } else {
      assert WriteVersions(versions) + tail == WriteVersion(versions[0]) + (WriteVersions(versions[1..]) + tail);
      VersionRoundTrip(versions[0], WriteVersions(versions[1..]) + tail);
      VersionsRoundTrip(versions[1..], tail);
      assert [versions[0]] + versions[1..] == versions;
    }
  }

  /* ----------------------------------------------------------------------- texts */

  /** The bytes a C string is made of: everything before the first NUL. */
  function CString(bytes: seq<Byte>): Text {
    if bytes == [] || bytes[0] == 0 then [] else [bytes[0]] + CString(bytes[1..])
  }

  predicate NulFree(t: Text) {
    forall i :: 0 <= i < |t| ==> t[i] != 0
  }

  lemma {:induction false} CStringOfText(t: Text)
    requires NulFree(t)
    ensures CString(t) == t
  {
    if t != [] {
      CStringOfText(t[1..]);
      assert t == [t[0]] + t[1..];
    }
  }

  /** ... which is the longest prefix without one. */
  lemma {:induction false} CStringExact(bytes: seq<Byte>)
    ensures CString(bytes) <= bytes && NulFree(CString(bytes))
    ensures |CString(bytes)| < |bytes| ==> bytes[|CString(bytes)|] == 0
  {
    if bytes != [] && bytes[0] != 0 {
      CStringExact(bytes[1..]);
      assert bytes == [bytes[0]] + bytes[1..];
    }
  }

  lemma {:induction false} CStringShortens(bytes: seq<Byte>)
    ensures |CString(bytes)| <= |bytes|
  {
    if bytes != [] && bytes[0] != 0 { CStringShortens(bytes[1..]); }
  }

  /** The length is cast to one byte, and only that many bytes are written. */
  function WriteText(t: Text): seq<Byte> {
    [|t| % 256] + t[..|t| % 256]
  }

  function ReadText(s: seq<Byte>): Parsed<Text> {
    if s == [] || |s| - 1 < s[0] then Bad
    else Good(CString(s[1..1 + s[0]]), s[1 + s[0]..])
  }

  /** What is left of a name: as many bytes as its length modulo 256. */
  function Cut(t: Text): Text {
    t[..|t| % 256]
  }

  /** A name of any length is read back cut. */
  lemma TextReadsBack(t: Text, tail: seq<Byte>)
    requires NulFree(t)
    ensures ReadText(WriteText(t) + tail) == Good(Cut(t), tail)
  {
    var s, n := WriteText(t) + tail, |t| % 256;
    assert s[1..1 + n] == t[..n] && s[1 + n..] == tail;
    CStringOfText(t[..n]);
  }

  /* --------------------------------------------------------------------- entries */

  function WriteEntry(e: Entry): seq<Byte>
    requires e.versions != []
  {
    WriteText(e.key.author) + WriteText(e.key.name) + WriteVersion(e.versions[0]) +
    WriteU64(|e.versions| - 1) + WriteVersions(e.versions[1..])
  }

  function ReadEntry(s: seq<Byte>): Parsed<Entry> {
    var (author, s1) :- ReadText(s);
    var (name, s2) :- ReadText(s1);
    var (newest, s3) :- ReadVersion(s2);
    var (previous, s4) :- ReadU64(s3);
    if previous > SIZE_MAX - 1 || 1 + previous > SIZE_MAX / SIZEOF_VERSION then Bad
    else
      var (older, s5) :- ReadVersions(s4, previous);
      Good(Entry(Key(author, name), [newest] + older), s5)
  }

  /** What the writer can represent; the version bound only says that the array fits in memory. */
  predicate Writable(e: Entry) {
    && NulFree(e.key.author) && NulFree(e.key.name)
    && 0 < |e.versions| <= SIZE_MAX / SIZEOF_VERSION
  }

  predicate ShortNames(e: Entry) {
    |e.key.author| < 256 && |e.key.name| < 256
  }

  function CutEntry(e: Entry): Entry {
    Entry(Key(Cut(e.key.author), Cut(e.key.name)), e.versions)
  }

  /** Every writable entry is read back with its names cut and its versions as they were. */
  lemma {:induction false} EntryReadsBack(e: Entry, tail: seq<Byte>)
    requires Writable(e)
    ensures ReadEntry(WriteEntry(e) + tail) == Good(CutEntry(e), tail)
  {
    hide WriteText, ReadText, WriteVersion, ReadVersion, WriteU64, ReadU64, WriteVersions, ReadVersions, NulFree, Cut;
    var t4 := WriteVersions(e.versions[1..]) + tail;
    var t3 := WriteU64(|e.versions| - 1) + t4;
    var t2 := WriteVersion(e.versions[0]) + t3;
    var t1 := WriteText(e.key.name) + t2;
    assert WriteEntry(e) + tail == WriteText(e.key.author) + t1;
    TextReadsBack(e.key.author, t1);
    TextReadsBack(e.key.name, t2);
    VersionRoundTrip(e.versions[0], t3);
    U64RoundTrip(|e.versions| - 1, t4);
    VersionsRoundTrip(e.versions[1..], tail);
    assert [e.versions[0]] + e.versions[1..] == e.versions;
  }

  lemma ShortIsUncut(e: Entry)
    requires ShortNames(e)
    ensures CutEntry(e) == e
  {
    assert Cut(e.key.author) == e.key.author && Cut(e.key.name) == e.key.name;
  }

  /** ... which with short names is the entry itself. */
  lemma {:induction false} EntryRoundTrip(e: Entry, tail: seq<Byte>)
    requires Writable(e) && ShortNames(e)
    ensures ReadEntry(WriteEntry(e) + tail) == Good(e, tail)
  {
    hide WriteEntry, ReadEntry, NulFree;
    EntryReadsBack(e, tail);
    ShortIsUncut(e);
  }

  /** Length byte and author, length byte and name, newest version, the number of older
      versions in eight bytes, the older versions. */
  lemma EntryLayout(e: Entry)
    requires ShortNames(e) && e.versions != []
    ensures var s, a, n, v := WriteEntry(e), |e.key.author|, |e.key.name|, |WriteVersion(e.versions[0])|;
            && |s| >= a + n + v + 10
            && s[0] == a && s[1..1 + a] == e.key.author
            && s[1 + a] == n && s[2 + a..2 + a + n] == e.key.name
            && s[2 + a + n..2 + a + n + v] == WriteVersion(e.versions[0])
            && s[2 + a + n + v..10 + a + n + v] == WriteU64(|e.versions| - 1)
            && s[10 + a + n + v..] == WriteVersions(e.versions[1..])
  {
    hide BigEndian, WriteVersion, WriteVersions;
    var author, name := WriteText(e.key.author), WriteText(e.key.name);
    assert author == [|e.key.author|] + e.key.author && name == [|e.key.name|] + e.key.name;
    var s, a, n, v := WriteEntry(e), |e.key.author|, |e.key.name|, WriteVersion(e.versions[0]);
    assert s[1..1 + a] == e.key.author;
    assert s[1 + a..] == name + v + WriteU64(|e.versions| - 1) + WriteVersions(e.versions[1..]);
    assert s[2 + a..2 + a + n] == e.key.name;
    assert s[2 + a + n..] == v + WriteU64(|e.versions| - 1) + WriteVersions(e.versions[1..]);
  }

  /** Encoded size of an entry as read is at most what was read. */
  lemma {:induction false} VersionsShortest(s: seq<Byte>, count: nat)
    requires ReadVersions(s, count).Good?
    ensures |WriteVersions(ReadVersions(s, count).value)| <= |s| - |ReadVersions(s, count).rest|
    decreases count
  {
    hide ReadVersion, WriteVersion;
    if count > 0 {
      VersionShortest(s);
      VersionsShortest(ReadVersion(s).rest, count - 1);
      var more := ReadVersions(ReadVersion(s).rest, count - 1).value;
      assert ([ReadVersion(s).value] + more)[1..] == more;
    }
  }

  lemma TextShortest(s: seq<Byte>)
    requires ReadText(s).Good?
    ensures |WriteText(ReadText(s).value)| <= |s| - |ReadText(s).rest|
  {
    CStringShortens(s[1..1 + s[0]]);
  }

  lemma EntryShortest(s: seq<Byte>)
    requires ReadEntry(s).Good?
    ensures ReadEntry(s).value.versions != []
    ensures |WriteEntry(ReadEntry(s).value)| <= |s| - |ReadEntry(s).rest|
  {
    hide ReadText, WriteText, ReadVersion, WriteVersion, ReadVersions, WriteVersions;
    var author := ReadText(s);
    var name := ReadText(author.rest);
    var newest := ReadVersion(name.rest);
    var previous := ReadU64(newest.rest);
    TextShortest(s);
    TextShortest(author.rest);
    VersionShortest(name.rest);
    VersionsShortest(previous.rest, previous.value);
    var older := ReadVersions(previous.rest, previous.value).value;
    assert ([newest.value] + older)[1..] == older;
  }

  function WriteEntries(entries: seq<Entry>): Option<seq<Byte>> {
    if entries == [] then Some([])
    else if entries[0].versions == [] then None
    else
      var more := WriteEntries(entries[1..]);
      if more.None? then None else Some(WriteEntry(entries[0]) + more.value)
  }

  function ReadEntries(s: seq<Byte>, count: nat): Parsed<seq<Entry>>
    decreases count
  {
    if count == 0 then Good([], s)
    else
      var (e, s1) :- ReadEntry(s);
      var (more, s2) :- ReadEntries(s1, count - 1);
      Good([e] + more, s2)
  }

  function CutAll(entries: seq<Entry>): seq<Entry> {
    if entries == [] then [] else [CutEntry(entries[0])] + CutAll(entries[1..])
  }

  lemma {:induction false} ShortNamesStay(entries: seq<Entry>)
    requires forall e :: e in entries ==> ShortNames(e)
    ensures CutAll(entries) == entries
  {
    if entries != [] {
      ShortIsUncut(entries[0]);
      ShortNamesStay(entries[1..]);
      assert entries == [entries[0]] + entries[1..];
    }
  }

  lemma {:induction false} EntriesReadBack(entries: seq<Entry>, tail: seq<Byte>)
    requires forall e :: e in entries ==> Writable(e)
    ensures WriteEntries(entries).Some?
    ensures ReadEntries(WriteEntries(entries).value + tail, |entries|) == Good(CutAll(entries), tail)
  {
    hide WriteEntry, ReadEntry, NulFree, CutEntry;
    if entries == [] {
      assert [] + tail == tail;
    } else {
      EntriesReadBack(entries[1..], tail);
      assert Writable(entries[0]) && entries[0].versions != [];
      var more := WriteEntries(entries[1..]).value;
      assert WriteEntries(entries).value + tail == WriteEntry(entries[0]) + (more + tail);
      EntryReadsBack(entries[0], more + tail);
    }
  }

  lemma {:induction false} EntriesRoundTrip(entries: seq<Entry>, tail: seq<Byte>)
    requires forall e :: e in entries ==> Writable(e) && ShortNames(e)
    ensures WriteEntries(entries).Some?
    ensures ReadEntries(WriteEntries(entries).value + tail, |entries|) == Good(entries, tail)
  {
    hide WriteEntries, ReadEntries, Writable, ShortNames, CutAll;
    EntriesReadBack(entries, tail);
    ShortNamesStay(entries);
  }

  /* ----------------------------------------------------------------------- files */

  /** Fails on an entry without versions, as the source does. */
  function Write(c: Contents): Option<seq<Byte>> {
    var entries := WriteEntries(c.entries);
    if entries.None? then None
    else Some(WriteU64(c.sinceCount) + WriteU64(|c.entries|) + entries.value)
  }

  /** Reads header and entries, sorts, and ignores whatever follows. */
  function Read(s: seq<Byte>): Option<Contents> {
    var since := ReadU64(s);
    if since.Bad? then None
    else
      var count := ReadU64(since.rest);
      if count.Bad? || count.value > SIZE_MAX / SIZEOF_ENTRY then None
      else
        var entries := ReadEntries(count.rest, count.value);
        if entries.Bad? then None else Some(Contents(since.value, SortEntries(entries.value)))
  }

  /** A registry as it can exist in memory. */
  ghost predicate InMemory(c: Contents) {
    && c.sinceCount <= SIZE_MAX && |c.entries| <= SIZE_MAX / SIZEOF_ENTRY
    && forall e :: e in c.entries ==> Writable(e)
  }

  /** Writing and reading back gives the same counter and, sorted by key, the entries
      with their names cut, whatever bytes follow in the file. */
  lemma {:induction false} ReadsBack(c: Contents, tail: seq<Byte>)
    requires InMemory(c)
    ensures Write(c).Some?
    ensures Read(Write(c).value + tail) == Some(Contents(c.sinceCount, SortEntries(CutAll(c.entries))))
  {
    hide WriteU64, ReadU64, WriteEntries, ReadEntries, SortEntries, Writable, CutAll;
    EntriesReadBack(c.entries, tail);
    var body := WriteEntries(c.entries).value;
    var s := Write(c).value + tail;
    assert s == WriteU64(c.sinceCount) + (WriteU64(|c.entries|) + (body + tail));
    U64RoundTrip(c.sinceCount, WriteU64(|c.entries|) + (body + tail));
    U64RoundTrip(|c.entries|, body + tail);
  }

  /** With short names that is the same registry up to the sort by key. */
  lemma {:induction false} RoundTrip(c: Contents, tail: seq<Byte>)
    requires InMemory(c) && forall e :: e in c.entries ==> ShortNames(e)
    ensures Write(c).Some?
    ensures Read(Write(c).value + tail) == Some(Contents(c.sinceCount, SortEntries(c.entries)))
  {
    hide Write, Read, SortEntries, ShortNames, CutAll, InMemory;
    ReadsBack(c, tail);
    ShortNamesStay(c.entries);
  }

  lemma TextIsShort(s: seq<Byte>)
    requires ReadText(s).Good?
    ensures |ReadText(s).value| < 256
  {
    CStringShortens(s[1..1 + s[0]]);
  }

  lemma ReadNameIsShort(s: seq<Byte>)
    requires ReadEntry(s).Good?
    ensures ShortNames(ReadEntry(s).value)
  {
    hide ReadText, ReadVersion, ReadVersions, ReadU64;
    TextIsShort(s);
    TextIsShort(ReadText(s).rest);
  }

  lemma {:induction false} ReadNamesAreShort(s: seq<Byte>, count: nat)
    requires ReadEntries(s, count).Good?
    ensures forall e :: e in ReadEntries(s, count).value ==> ShortNames(e)
    decreases count
  {
    hide ReadEntry, ShortNames;
    if count > 0 {
      ReadNameIsShort(s);
      ReadNamesAreShort(ReadEntry(s).rest, count - 1);
    }
  }

  /** Names are the one thing that can be lost: the round trip holds exactly when
      every author and package name has fewer than 256 bytes. */
  lemma {:induction false} RoundTripExact(c: Contents)
    requires InMemory(c) && Write(c).Some?
    ensures Read(Write(c).value) == Some(Contents(c.sinceCount, SortEntries(c.entries)))
            <==> forall e :: e in c.entries ==> ShortNames(e)
  {
    var s := Write(c).value;
    assert s + [] == s;
    if forall e :: e in c.entries ==> ShortNames(e) {
      RoundTrip(c, []);
    } else {
      var e :| e in c.entries && !ShortNames(e);
      SortEntriesSorts(c.entries);
      assert e in multiset(SortEntries(c.entries));
      if Read(s).Some? {
        var rest := ReadU64(ReadU64(s).rest);
        ReadNamesAreShort(rest.rest, rest.value);
        var read := ReadEntries(rest.rest, rest.value).value;
        SortEntriesSorts(read);
        assert e !in multiset(read);
        assert e !in multiset(SortEntries(read));
      }
    }
  }

  /** A file that announces more entries than an array can hold is refused, and so is an
      entry that announces more versions. */
  lemma HugeCountsRefused(s: seq<Byte>)
    ensures Read(s).Some? ==> ReadU64(ReadU64(s).rest).value <= SIZE_MAX / SIZEOF_ENTRY
    ensures ReadEntry(s).Good? ==> 0 < |ReadEntry(s).value.versions| <= SIZE_MAX / SIZEOF_VERSION
  {
    hide ReadU64, ReadText, ReadVersion, ReadEntries, ReadVersions;
    if ReadEntry(s).Good? {
      var previous := ReadU64(ReadVersion(ReadText(ReadText(s).rest).rest).rest);
      VersionsCount(previous.rest, previous.value);
    }
  }

  lemma {:induction false} VersionsCount(s: seq<Byte>, count: nat)
    requires ReadVersions(s, count).Good?
    ensures |ReadVersions(s, count).value| == count
    decreases count
  {
    hide ReadVersion;
    if count > 0 {
      VersionsCount(ReadVersion(s).rest, count - 1);
    }
  }

  /** The entries of a readable file, in file order. */
  function StoredEntries(s: seq<Byte>): seq<Entry>
    requires Read(s).Some?
  {
    ReadEntries(ReadU64(ReadU64(s).rest).rest, ReadU64(ReadU64(s).rest).value).value
  }

  lemma {:induction false} NumberBound(bytes: seq<Byte>)
    ensures Number(bytes) < Pow256(|bytes|)
  {
    if bytes != [] {
      NumberBound(bytes[..|bytes| - 1]);
    }
  }

  /** Nothing in the reader checks keys or order, so a file gives a registry with
      unique keys and newest-first versions exactly when it already stores one. */
  lemma {:induction false} ReadOkExact(s: seq<Byte>)
    requires Read(s).Some?
    ensures Read(s).value.sinceCount <= SIZE_MAX
    ensures EntriesOk(Read(s).value.entries) <==> EntriesOk(StoredEntries(s))
  {
    hide EntriesOk, ReadEntries, SortEntries;
    EightBytes();
    NumberBound(s[..8]);
    var stored := StoredEntries(s);
    SortEntriesSorts(stored);
    if EntriesOk(stored) {
      PermutationOk(stored, SortEntries(stored));
    }
    if EntriesOk(SortEntries(stored)) {
      PermutationOk(SortEntries(stored), stored);
    }
  }

  lemma {:induction false} EntriesShortest(s: seq<Byte>, count: nat)
    requires ReadEntries(s, count).Good?
    ensures WriteEntries(ReadEntries(s, count).value).Some?
    ensures |WriteEntries(ReadEntries(s, count).value).value| <= |s| - |ReadEntries(s, count).rest|
    ensures |ReadEntries(s, count).value| == count
    decreases count
  {
    hide ReadEntry, WriteEntry;
    if count > 0 {
      EntryShortest(s);
      EntriesShortest(ReadEntry(s).rest, count - 1);
      var more := ReadEntries(ReadEntry(s).rest, count - 1).value;
      assert ([ReadEntry(s).value] + more)[1..] == more;
    }
  }

  /** The writer is as short as the format allows: no readable file that stores the
      same is shorter than the one written for it. */
  lemma {:induction false} WriteShortest(s: seq<Byte>)
    requires Read(s).Some?
    ensures var w := Write(Contents(Read(s).value.sinceCount, StoredEntries(s)));
            w.Some? && |w.value| <= |s|
  {
    hide ReadEntries, WriteEntries, SortEntries, BigEndian;
    var count := ReadU64(ReadU64(s).rest);
    EntriesShortest(count.rest, count.value);
  }

  /** Counter and number of entries in eight bytes each. */
  lemma {:induction false} HeaderLayout(c: Contents)
    requires Write(c).Some? && c.sinceCount <= SIZE_MAX && |c.entries| <= SIZE_MAX
    ensures |Write(c).value| >= 16
    ensures Number(Write(c).value[..8]) == c.sinceCount && Number(Write(c).value[8..16]) == |c.entries|
  {
    hide WriteEntries, BigEndian, Number;
    assert Write(c).value[..8] == WriteU64(c.sinceCount) && Write(c).value[8..16] == WriteU64(|c.entries|);
    EightBytes();
    NumberOfBigEndian(c.sinceCount, 8);
    NumberOfBigEndian(|c.entries|, 8);
  }

  /* What follows the bytes a parser needs does not change what it reads. */

  lemma VersionIgnoresTail(s: seq<Byte>, tail: seq<Byte>)
    requires ReadVersion(s).Good?
    ensures ReadVersion(s + tail) == Good(ReadVersion(s).value, ReadVersion(s).rest + tail)
  {
    hide Number, ReadVersion;
    ReadVersionExact(s);
    ReadVersionExact(s + tail);
    var n := if s[0] == 255 then 25 else 3;
    assert (s + tail)[n..] == s[n..] + tail;
    if s[0] == 255 {
      assert (s + tail)[1..9] == s[1..9] && (s + tail)[9..17] == s[9..17] && (s + tail)[17..25] == s[17..25];
    }
  }

  lemma {:induction false} VersionsIgnoreTail(s: seq<Byte>, count: nat, tail: seq<Byte>)
    requires ReadVersions(s, count).Good?
    ensures ReadVersions(s + tail, count) == Good(ReadVersions(s, count).value, ReadVersions(s, count).rest + tail)
    decreases count
  {
    hide ReadVersion;
    if count > 0 {
      VersionIgnoresTail(s, tail);
      VersionsIgnoreTail(ReadVersion(s).rest, count - 1, tail);
    }
  }

  lemma U64IgnoresTail(s: seq<Byte>, tail: seq<Byte>)
    requires ReadU64(s).Good?
    ensures ReadU64(s + tail) == Good(ReadU64(s).value, ReadU64(s).rest + tail)
  {
    assert (s + tail)[..8] == s[..8] && (s + tail)[8..] == s[8..] + tail;
  }

  lemma TextIgnoresTail(s: seq<Byte>, tail: seq<Byte>)
    requires ReadText(s).Good?
    ensures ReadText(s + tail) == Good(ReadText(s).value, ReadText(s).rest + tail)
  {
    assert (s + tail)[1..1 + s[0]] == s[1..1 + s[0]] && (s + tail)[1 + s[0]..] == s[1 + s[0]..] + tail;
  }

  lemma EntryIgnoresTail(s: seq<Byte>, tail: seq<Byte>)
    requires ReadEntry(s).Good?
    ensures ReadEntry(s + tail) == Good(ReadEntry(s).value, ReadEntry(s).rest + tail)
  {
    hide ReadText, ReadVersion, ReadVersions, ReadU64;
    var author := ReadText(s);
    var name := ReadText(author.rest);
    var newest := ReadVersion(name.rest);
    var previous := ReadU64(newest.rest);
    TextIgnoresTail(s, tail);
    TextIgnoresTail(author.rest, tail);
    VersionIgnoresTail(name.rest, tail);
    U64IgnoresTail(newest.rest, tail);
    VersionsIgnoreTail(previous.rest, previous.value, tail);
  }

  lemma {:induction false} EntriesIgnoreTail(s: seq<Byte>, count: nat, tail: seq<Byte>)
    requires ReadEntries(s, count).Good?
    ensures ReadEntries(s + tail, count) == Good(ReadEntries(s, count).value, ReadEntries(s, count).rest + tail)
    decreases count
  {
    hide ReadEntry;
    if count > 0 {
      EntryIgnoresTail(s, tail);
      EntriesIgnoreTail(ReadEntry(s).rest, count - 1, tail);
    }
  }

  /** Bytes after a readable file are ignored. */
  lemma ReadIgnoresTail(s: seq<Byte>, tail: seq<Byte>)
    requires Read(s).Some?
    ensures Read(s + tail) == Read(s)
  {
    hide ReadU64, ReadEntries, SortEntries;
    var since := ReadU64(s);
    var count := ReadU64(since.rest);
    U64IgnoresTail(s, tail);
    U64IgnoresTail(since.rest, tail);
    EntriesIgnoreTail(count.rest, count.value, tail);
  }

  /** A file cut short anywhere cannot be read. */
  lemma {:induction false} TruncatedIsUnreadable(c: Contents, n: nat)
    requires InMemory(c) && (forall e :: e in c.entries ==> ShortNames(e))
    requires Write(c).Some? && n < |Write(c).value|
    ensures Read(Write(c).value[..n]).None?
  {
    hide ReadU64, ReadEntries, SortEntries, WriteEntries, Writable, ShortNames;
    var s := Write(c).value;
    var cut, tail := s[..n], s[n..];
    assert s == cut + tail && tail != [];
    EntriesRoundTrip(c.entries, []);
    var body := WriteEntries(c.entries).value;
    assert s == WriteU64(c.sinceCount) + (WriteU64(|c.entries|) + body) && body + [] == body;
    U64RoundTrip(c.sinceCount, WriteU64(|c.entries|) + body);
    U64RoundTrip(|c.entries|, body);
    if Read(cut).Some? {
      var since := ReadU64(cut);
      var count := ReadU64(since.rest);
      U64IgnoresTail(cut, tail);
      U64IgnoresTail(since.rest, tail);
      EntriesIgnoreTail(count.rest, count.value, tail);
    }
  }

  ghost predicate SameListing(a: seq<Entry>, b: seq<Entry>) {
    forall k, v :: Lists(a, k, v) <==> Lists(b, k, v)
  }

  lemma PermutationLists(a: seq<Entry>, b: seq<Entry>, k: Key, v: Version)
    requires multiset(a) == multiset(b) && Lists(a, k, v)
    ensures Lists(b, k, v)
  {
    var i :| 0 <= i < |a| && a[i].key == k && v in a[i].versions;
    assert a[i] in multiset(b);
  }

  lemma SortKeepsListing(entries: seq<Entry>)
    ensures SameListing(SortEntries(entries), entries)
  {
    SortEntriesSorts(entries);
    forall k, v ensures Lists(SortEntries(entries), k, v) <==> Lists(entries, k, v) {
      if Lists(entries, k, v) { PermutationLists(entries, SortEntries(entries), k, v); }
      if Lists(SortEntries(entries), k, v) { PermutationLists(SortEntries(entries), entries, k, v); }
    }
  }

  /** What was saved and read again is the same registry to its users. */
  ghost predicate Survives(c: Contents, read: Option<Contents>) {
    && read.Some? && read.value.sinceCount == c.sinceCount
    && EntriesOk(read.value.entries) && SameListing(read.value.entries, c.entries)
  }

  /** Saving a registry with unique keys and reading it back gives one again, with the
      same versions for the same packages, exactly when all names are short. */
  lemma {:induction false} ReloadExact(c: Contents)
    requires InMemory(c) && EntriesOk(c.entries) && Write(c).Some?
    ensures Survives(c, Read(Write(c).value)) <==> forall e :: e in c.entries ==> ShortNames(e)
  {
    hide EntriesOk, Write, Read, SortEntries;
    if forall e :: e in c.entries ==> ShortNames(e) {
      RoundTripExact(c);
      SortEntriesSorts(c.entries);
      PermutationOk(c.entries, SortEntries(c.entries));
      SortKeepsListing(c.entries);
    } else {
      var e :| e in c.entries && !ShortNames(e);
      assert Lists(c.entries, e.key, e.versions[0]);
      if Read(Write(c).value).Some? && Lists(Read(Write(c).value).value.entries, e.key, e.versions[0]) {
        ReadListsShort(Write(c).value, e.key, e.versions[0]);
      }
    }
  }

  lemma ReadListsShort(s: seq<Byte>, k: Key, v: Version)
    requires Read(s).Some? && Lists(Read(s).value.entries, k, v)
    ensures |k.author| < 256 && |k.name| < 256
  {
    hide ReadEntries, SortEntries, ReadU64;
    var rest := ReadU64(ReadU64(s).rest);
    ReadNamesAreShort(rest.rest, rest.value);
    SortKeepsListing(StoredEntries(s));
    var stored := StoredEntries(s);
    assert Lists(stored, k, v);
    var i :| 0 <= i < |stored| && stored[i].key == k && v in stored[i].versions;
    assert ShortNames(stored[i]);
  }

  /** Exactly the registries in which every entry has a version can be written. */
  lemma {:induction false} WriteEntriesSucceeds(entries: seq<Entry>)
    ensures WriteEntries(entries).Some? <==> forall e :: e in entries ==> e.versions != []
  {
    if entries != [] {
      WriteEntriesSucceeds(entries[1..]);
      assert entries == [entries[0]] + entries[1..];
    }
  }

  lemma WriteSucceeds(c: Contents)
    ensures Write(c).Some? <==> forall e :: e in c.entries ==> e.versions != []
  {
    WriteEntriesSucceeds(c.entries);
  }
}
