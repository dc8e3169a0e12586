/** The bytes of a Git tree object and reading them back. */
module TreeEntries {
  import opened Prelude
  import opened Hex

  const SPACE: byte := 32
  const NUL: byte := 0
  const SLASH: byte := 47
  /** "40000" and "100644" */
  const DIR_MODE: bytes := [52, 48, 48, 48, 48]
  const FILE_MODE: bytes := [49, 48, 48, 54, 52, 52]

  datatype TreeEntry = TreeEntry(mode: bytes, name: bytes, oid: string)

  // ----------------------------------------------------------------- reading

  function IndexByte(s: bytes, b: byte): (r: Option<nat>)
    ensures r.None? <==> b !in s
    ensures r.Some? ==> r.value < |s| && s[r.value] == b && forall k :: 0 <= k < r.value ==> s[k] != b
  {
    if s == [] then None
    else if s[0] == b then Some(0)
    else
      var rest := IndexByte(s[1..], b);
      assert s == [s[0]] + s[1..];
      if rest.None? then None
      else Some(rest.value + 1)
  }

  lemma IndexAfterPrefix(s: bytes, b: byte, t: bytes)
    requires b !in s
    ensures IndexByte(s + [b] + t, b) == Some(|s|)
  {
    var all := s + [b] + t;
    assert all[|s|] == b;
    assert forall k :: 0 <= k < |s| ==> all[k] == s[k];
  }

  /** The parts between separators; one more than there are separators. */
  function Split(s: bytes, sep: byte): (parts: seq<bytes>)
    ensures |parts| >= 1
  {
    if s == [] then [[]]
    else
      var rest := Split(s[1..], sep);
      if s[0] == sep then [[]] + rest else [[s[0]] + rest[0]] + rest[1..]
  }

  function Join(parts: seq<bytes>, sep: byte): bytes
    requires |parts| >= 1
  {
    if |parts| == 1 then parts[0] else parts[0] + [sep] + Join(parts[1..], sep)
  }

  /** The parts hold no separator and make up the text again. */
  lemma {:induction false} SplitJoins(s: bytes, sep: byte)
    ensures Join(Split(s, sep), sep) == s
    ensures forall part :: part in Split(s, sep) ==> sep !in part
  {
    if s != [] {
      SplitJoins(s[1..], sep);
      var rest := Split(s[1..], sep);
      assert s == [s[0]] + s[1..];
      if s[0] == sep {
        assert ([[]] + rest)[1..] == rest;
      } else {
        JoinFirst(s[0], rest, sep);
        assert sep !in rest[0];
      }
    }
  }

  /** One more byte in front of the first part. */
  lemma JoinFirst(b: byte, rest: seq<bytes>, sep: byte)
    requires rest != []
    ensures Join([[b] + rest[0]] + rest[1..], sep) == [b] + Join(rest, sep)
  {
    var parts := [[b] + rest[0]] + rest[1..];
    assert parts[1..] == rest[1..];
    if |rest| > 1 {
      assert [b] + rest[0] + [sep] + Join(rest[1..], sep) == [b] + (rest[0] + [sep] + Join(rest[1..], sep));
    }
  }

  /** What is before and after the first b. */
  function Cut(s: bytes, b: byte): (r: Option<(bytes, bytes)>)
    ensures r.Some? ==> |r.value.1| < |s|
  {
    match IndexByte(s, b)
    case None => None
    case Some(i) => Some((s[..i], s[i + 1..]))
  }

  lemma CutAfterPrefix(s: bytes, b: byte, t: bytes)
    requires b !in s
    ensures Cut(s + [b] + t, b) == Some((s, t))
  {
    IndexAfterPrefix(s, b, t);
    var all := s + [b] + t;
    assert all[..|s|] == s && all[|s| + 1..] == t;
  }

  /** The first entry and the bytes after it. */
  function ReadEntry(data: bytes): (r: Option<(TreeEntry, bytes)>)
    ensures r.Some? ==> |r.value.1| < |data|
  {
    match Cut(data, SPACE)
    case None => None
    case Some((mode, afterMode)) =>
      match Cut(afterMode, NUL)
      case None => None
      case Some((name, afterName)) =>
        if |afterName| < 20 then None
        else Some((TreeEntry(mode, name, HexEncode(afterName[..20])), afterName[20..]))
  }

  /** Entries up to the first one that is not whole. */
  function ParseEntries(data: bytes): seq<TreeEntry>
    decreases |data|
  {
    match ReadEntry(data)
    case None => []
    case Some((entry, rest)) => [entry] + ParseEntries(rest)
  }

  lemma CutAtOffset(data: bytes, offset: nat, b: byte)
    requires offset <= |data|
    ensures match IndexByte(data[offset..], b)
            case None => Cut(data[offset..], b) == None
            case Some(i) =>
              && offset + i < |data|
              && Cut(data[offset..], b) == Some((data[offset..offset + i], data[offset + i + 1..]))
  {
    var here := data[offset..];
    var i := IndexByte(here, b);
    if i.Some? {
      assert here[..i.value] == data[offset..offset + i.value];
      assert here[i.value + 1..] == data[offset + i.value + 1..];
    }
  }

  method ParseTreeEntries(data: bytes) returns (entries: seq<TreeEntry>)
    ensures entries == ParseEntries(data)
  {
    hide IndexByte, Cut, HexEncode;
    entries := [];
    var offset := 0;
    ghost var here := data;
    while offset < |data|
      invariant 0 <= offset <= |data| && here == data[offset..]
      invariant entries + ParseEntries(here) == ParseEntries(data)
    {
      CutAtOffset(data, offset, SPACE);
      var spaceIdx := IndexByte(data[offset..], SPACE);
      if spaceIdx.None? { return; }
      var mode := data[offset..offset + spaceIdx.value];
      offset := offset + spaceIdx.value + 1;
      CutAtOffset(data, offset, NUL);
      var nullIdx := IndexByte(data[offset..], NUL);
      if nullIdx.None? { return; }
      var name := data[offset..offset + nullIdx.value];
      offset := offset + nullIdx.value + 1;
      if offset + 20 > |data| { return; }
      var oid := HexEncode(data[offset..offset + 20]);
      ghost var afterName := data[offset..];
      assert afterName[..20] == data[offset..offset + 20];
      offset := offset + 20;
      assert afterName[20..] == data[offset..];
      AppendOne(entries, TreeEntry(mode, name, oid), here, data[offset..]);
      entries := entries + [TreeEntry(mode, name, oid)];
      here := data[offset..];
    }
    assert Cut([], SPACE).None? by { CutAtOffset([], 0, SPACE); }
  }

  lemma AppendOne(entries: seq<TreeEntry>, entry: TreeEntry, here: bytes, rest: bytes)
    requires ReadEntry(here) == Some((entry, rest))
    ensures entries + ParseEntries(here) == entries + [entry] + ParseEntries(rest)
  {
  }

  // ----------------------------------------------------------------- writing

  function OidBytes(oid: string): Option<bytes> {
    match HexDecode(oid)
    case Some(raw) => if |raw| == 20 then Some(raw) else None
    case None => None
  }

  /** The lower-case spelling that reading gives back. */
  function Canonical(oid: string): string
    requires OidBytes(oid).Some?
  {
    HexEncode(OidBytes(oid).value)
  }

  function EntryBytes(e: TreeEntry): bytes
    requires OidBytes(e.oid).Some?
  {
    e.mode + [SPACE] + e.name + [NUL] + OidBytes(e.oid).value
  }

  predicate AllValid(entries: seq<TreeEntry>) {
    forall i :: 0 <= i < |entries| ==> OidBytes(entries[i].oid).Some?
  }

  function EntriesBytes(entries: seq<TreeEntry>): bytes
    requires AllValid(entries)
  {
    if entries == [] then [] else EntriesBytes(entries[..|entries| - 1]) + EntryBytes(entries[|entries| - 1])
  }

  function CanonicalEntries(entries: seq<TreeEntry>): seq<TreeEntry>
    requires AllValid(entries)
  {
    seq(|entries|, i requires 0 <= i < |entries| => entries[i].(oid := Canonical(entries[i].oid)))
  }

  /** The separators do not occur in what they end. */
  predicate CleanEntry(e: TreeEntry) { SPACE !in e.mode && NUL !in e.name }

  lemma ReadWrittenEntry(e: TreeEntry, rest: bytes)
    requires OidBytes(e.oid).Some? && CleanEntry(e)
    ensures ReadEntry(EntryBytes(e) + rest) == Some((e.(oid := Canonical(e.oid)), rest))
  {
    hide Cut;
    var raw := OidBytes(e.oid).value;
    var afterName := raw + rest;
    var afterMode := e.name + [NUL] + afterName;
    assert EntryBytes(e) + rest == e.mode + [SPACE] + afterMode;
    CutAfterPrefix(e.mode, SPACE, afterMode);
    CutAfterPrefix(e.name, NUL, afterName);
    assert afterName[..20] == raw && afterName[20..] == rest;
  }

  /** Reading gives back the entries that were written, in order. */
  lemma {:induction false} TreeRoundTrip(entries: seq<TreeEntry>, rest: bytes)
    requires AllValid(entries) && forall i :: 0 <= i < |entries| ==> CleanEntry(entries[i])
    ensures ParseEntries(EntriesBytes(entries) + rest) == CanonicalEntries(entries) + ParseEntries(rest)
  {
    hide ReadEntry, EntryBytes, Canonical, OidBytes;
    if entries == [] {
      assert [] + rest == rest;
    } else {
      var n := |entries| - 1;
      var last := entries[n];
      assert EntriesBytes(entries) + rest == EntriesBytes(entries[..n]) + (EntryBytes(last) + rest);
      TreeRoundTrip(entries[..n], EntryBytes(last) + rest);
      ReadWrittenEntry(last, rest);
      var c := last.(oid := Canonical(last.oid));
      assert ParseEntries(EntryBytes(last) + rest) == [c] + ParseEntries(rest);
      assert CanonicalEntries(entries) == CanonicalEntries(entries[..n]) + [c];
    }
  }

  /** The bytes begin with this whole entry. */
  ghost predicate BeginsWithEntry(s: bytes, mode: bytes, name: bytes, raw: bytes, rest: bytes) {
    SPACE !in mode && NUL !in name && |raw| == 20 && s == mode + [SPACE] + (name + [NUL] + (raw + rest))
  }

  /** Reading goes entry by entry: it takes a whole entry and goes on with the rest,
      and stops where the bytes do not begin with one. */
  lemma ReadsWholeEntries(s: bytes)
    ensures forall mode, name, raw, rest :: BeginsWithEntry(s, mode, name, raw, rest) ==>
              ParseEntries(s) == [TreeEntry(mode, name, HexEncode(raw))] + ParseEntries(rest)
    ensures (forall mode, name, raw, rest :: !BeginsWithEntry(s, mode, name, raw, rest)) ==> ParseEntries(s) == []
  {
    hide HexEncode, Cut, IndexByte;
    forall mode, name, raw, rest | BeginsWithEntry(s, mode, name, raw, rest)
      ensures ParseEntries(s) == [TreeEntry(mode, name, HexEncode(raw))] + ParseEntries(rest)
    {
      CutAfterPrefix(mode, SPACE, name + [NUL] + (raw + rest));
      CutAfterPrefix(name, NUL, raw + rest);
      assert (raw + rest)[..20] == raw && (raw + rest)[20..] == rest;
    }
    if ReadEntry(s).Some? {
      CutBack(s, SPACE);
      var (mode, afterMode) := Cut(s, SPACE).value;
      CutBack(afterMode, NUL);
      var (name, afterName) := Cut(afterMode, NUL).value;
      assert afterName == afterName[..20] + afterName[20..];
      assert BeginsWithEntry(s, mode, name, afterName[..20], afterName[20..]);
    }
  }

  lemma CutBack(s: bytes, b: byte)
    requires Cut(s, b).Some?
    ensures var (before, after) := Cut(s, b).value; b !in before && s == before + [b] + after
  {
    var i := IndexByte(s, b).value;
    assert s == s[..i] + [s[i]] + s[i + 1..];
  }

  method WriteEntries(entries: seq<TreeEntry>) returns (r: Result<bytes, string>)
    ensures match r case Ok(data) => AllValid(entries) && data == EntriesBytes(entries) case Err(_) => !AllValid(entries)
  {
    hide EntryBytes, OidBytes;
    var data: bytes := [];
    for i := 0 to |entries|
      invariant AllValid(entries[..i]) && data == EntriesBytes(entries[..i])
    {
      var entry := entries[i];
      var oidBytes := OidBytes(entry.oid);
      if oidBytes.None? { return Err("invalid oid " + entry.oid); }
      assert entries[..i + 1] == entries[..i] + [entry];
      assert entries[..i + 1][..i] == entries[..i];
      data := data + EntryBytes(entry);
    }
    assert entries[..|entries|] == entries;
    return Ok(data);
  }

  // ----------------------------------------------------------------- sorting

  /** Byte order, a proper prefix first. */
  predicate NameLess(a: bytes, b: bytes) {
    b != [] && (a == [] || a[0] < b[0] || (a[0] == b[0] && NameLess(a[1..], b[1..])))
  }

  lemma {:induction false} NameLessTransitive(a: bytes, b: bytes, c: bytes)
    requires !NameLess(b, a) && !NameLess(c, b)
    ensures !NameLess(c, a)
  {
    if a != [] && b != [] && c != [] && a[0] == b[0] == c[0] { NameLessTransitive(a[1..], b[1..], c[1..]); }
  }

  ghost predicate Sorted(entries: seq<TreeEntry>) {
    forall i, j :: 0 <= i < j < |entries| ==> !NameLess(entries[j].name, entries[i].name)
  }

  lemma {:induction false} NameLessAsymmetric(a: bytes, b: bytes)
    requires NameLess(a, b)
    ensures !NameLess(b, a)
  {
    if a != [] && a[0] == b[0] { NameLessAsymmetric(a[1..], b[1..]); }
  }

  lemma InsertKeepsSorted(entries: seq<TreeEntry>, k: nat, e: TreeEntry)
    requires Sorted(entries) && k <= |entries|
    requires k > 0 ==> !NameLess(e.name, entries[k - 1].name)
    requires forall j :: k <= j < |entries| ==> NameLess(e.name, entries[j].name)
    ensures Sorted(entries[..k] + [e] + entries[k..])
  {
    forall i | 0 <= i < k ensures !NameLess(e.name, entries[i].name) {
      if i < k - 1 { NameLessTransitive(entries[i].name, entries[k - 1].name, e.name); }
    }
    forall j | k <= j < |entries| ensures !NameLess(entries[j].name, e.name) {
      NameLessAsymmetric(e.name, entries[j].name);
    }
  }

  lemma InsertKeepsBag(entries: seq<TreeEntry>, k: nat, e: TreeEntry)
    requires k <= |entries|
    ensures multiset(entries[..k] + [e] + entries[k..]) == multiset(entries) + multiset{e}
  {
    assert entries == entries[..k] + entries[k..];
  }

  lemma NothingSorted()
    ensures Sorted([])
  {
  }

  /** Any permutation in ascending order of name will do. */
  method SortEntries(entries: seq<TreeEntry>) returns (sorted: seq<TreeEntry>)
    ensures multiset(sorted) == multiset(entries) && Sorted(sorted)
  {
    hide NameLess, Sorted;
    sorted := [];
    NothingSorted();
    for i := 0 to |entries|
      invariant multiset(sorted) == multiset(entries[..i]) && Sorted(sorted)
    {
      var e := entries[i];
      var k := |sorted|;
      while k > 0 && NameLess(e.name, sorted[k - 1].name)
        invariant 0 <= k <= |sorted|
        invariant forall j :: k <= j < |sorted| ==> NameLess(e.name, sorted[j].name)
      {
        k := k - 1;
      }
      InsertKeepsSorted(sorted, k, e);
      InsertKeepsBag(sorted, k, e);
      assert entries[..i + 1] == entries[..i] + [e];
      sorted := sorted[..k] + [e] + sorted[k..];
    }
    assert entries[..|entries|] == entries;
  }
}
