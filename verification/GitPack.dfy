/** The pack writer and the pack parser.  SHA-1 and zlib are parameters. */
module GitPack {
  import opened BigEndian
  import opened Prelude
  import opened Hex
  import opened DeltaFormat
  import opened DeltaCodec

  const COMMIT := 1
  const TREE := 2
  const BLOB := 3
  const OFS_DELTA := 6
  const REF_DELTA := 7

  const OID_SIZE: nat := 20

  datatype GitObject = GitObject(kind: int, data: bytes, oid: string)

  /** The hash of an object of a kind, the checksum of a pack, and zlib: inflate
      gives the whole stream at the front of its input and its length. */
  datatype Codec = Codec(
    hash: (int, bytes) -> bytes,
    checksum: bytes -> bytes,
    deflate: bytes -> bytes,
    inflate: bytes -> Option<(bytes, nat)>)

  /** Hashes have 20 bytes; inflate undoes deflate, consuming exactly the
      compressed stream. */
  ghost predicate Lawful(c: Codec) {
    && (forall kind, data :: |c.hash(kind, data)| == OID_SIZE)
    && (forall s :: |c.checksum(s)| == OID_SIZE)
    && (forall data, rest :: c.inflate(c.deflate(data) + rest) == Some((data, |c.deflate(data)|)))
  }

  function Oid(c: Codec, kind: int, data: bytes): string {
    HexEncode(c.hash(kind, data))
  }

  function MakeObject(c: Codec, kind: int, data: bytes): GitObject {
    GitObject(kind, data, Oid(c, kind, data))
  }

  // --------------------------------------------------------- object header

  /** Type and low size bits in one byte, then the rest of the size. */
  function HeaderBytes(kind: nat, size: nat): bytes
    requires kind < 8
  {
    var first := kind * 16 + size % 16;
    if size / 16 == 0 then [first] else [first + 128] + SizeBytes(size / 16)
  }

  method EncodeObjectHeader(kind: nat, size: nat) returns (out: bytes)
    requires kind < 8
    ensures out == HeaderBytes(kind, size)
  {
    var first := kind * 16 + size % 16;
    var rest := size / 16;
    if rest > 0 { first := first + 0x80; }
    out := [first];
    while rest > 0
      invariant rest >= 0
      invariant out + Groups(rest) == HeaderBytes(kind, size)
    {
      ghost var before := rest;
      var b := rest % 128;
      rest := rest / 128;
      if rest > 0 { b := b + 0x80; }
      assert Groups(before) == [b] + Groups(rest);
      assert out + ([b] + Groups(rest)) == (out + [b]) + Groups(rest);
      out := out + [b];
    }
  }

  /** The size bytes after the first one. */
  function Groups(n: nat): bytes { if n == 0 then [] else SizeBytes(n) }

  /** Type, size and what follows; a size beyond 64 bits wraps around. */
  function ReadHeader(s: bytes): Option<(nat, int, bytes)> {
    if s == [] then None
    else
      var kind, low := s[0] as int / 16 % 8, s[0] as int % 16;
      if s[0] < 128 then Some((kind, low, s[1..]))
      else
        match ReadSize(s[1..])
        case None => None
        case Some((high, rest)) => Some((kind, ToInt64(low + 16 * high), rest))
  }

  lemma HeaderRoundTrip(kind: nat, size: nat, rest: bytes)
    requires kind < 8 && size <= MAX_INT
    ensures ReadHeader(HeaderBytes(kind, size) + rest) == Some((kind, size, rest))
  {
    var high, low := size / 16, size % 16;
    FirstByte(kind, low);
    if high == 0 {
      ReadShortHeader(kind * 16 + low, rest);
    } else {
      SizeRoundTrip(high, rest);
      ReadLongHeader(kind * 16 + low + 128, SizeBytes(high), high, rest);
    }
  }

  lemma ReadShortHeader(first: byte, rest: bytes)
    requires first < 128
    ensures ReadHeader([first] + rest) == Some((first as int / 16 % 8, first as int % 16, rest))
  {
    assert ([first] + rest)[1..] == rest;
  }

  lemma ReadLongHeader(first: byte, groups: bytes, high: nat, rest: bytes)
    requires first >= 128 && ReadSize(groups + rest) == Some((high, rest))
    ensures ReadHeader([first] + groups + rest)
         == Some((first as int / 16 % 8, ToInt64(first as int % 16 + 16 * high), rest))
  {
    assert ([first] + groups + rest)[1..] == groups + rest;
  }

  lemma FirstByte(kind: nat, low: nat)
    requires kind < 8 && low < 16
    ensures (kind * 16 + low) / 16 % 8 == kind && (kind * 16 + low) % 16 == low
    ensures (kind * 16 + low + 128) / 16 % 8 == kind && (kind * 16 + low + 128) % 16 == low
  {
  }

  lemma NoSize(data: bytes)
    ensures ReadSize(data[|data|..]) == None
  {
  }

  method ParseObjectHeader(data: bytes, start: nat) returns (r: Option<(nat, int, nat)>)
    requires start <= |data|
    ensures match ReadHeader(data[start..])
            case None => r == None
            case Some((kind, size, rest)) =>
              r.Some? && r.value.0 == kind && r.value.1 == size
              && start < r.value.2 <= |data| && data[r.value.2..] == rest
  {
    hide ReadSize;
    NoSize(data);
    if start == |data| { return None; }
    var b := data[start];
    assert data[start..][1..] == data[start + 1..];
    var kind, size: nat, weight: nat, offset := b as int / 16 % 8, b as int % 16, 16, start + 1;
    ghost var goal := if b < 128 then Some((size, data[offset..])) else Scaled(size, 16, ReadSize(data[offset..]));
    assert ReadHeader(data[start..])
        == if goal.None? then None else Some((kind, ToInt64(goal.value.0), goal.value.1));
    while b >= 128
      invariant start < offset <= |data|
      invariant goal == if b < 128 then Some((size, data[offset..])) else Scaled(size, weight, ReadSize(data[offset..]))
      decreases |data| - offset, b
    {
      if offset == |data| { return None; }
      ScaledStep(size, weight, data, offset);
      b := data[offset];
      size := size + b as int % 128 * weight;
      weight := weight * 128;
      offset := offset + 1;
    }
    return Some((kind, ToInt64(size), offset));
  }

  // -------------------------------------------------------------- writing

  /** An object to send, as a delta when both a delta and a base are given. */
  datatype Candidate = Candidate(obj: GitObject, baseOid: string, delta: Option<bytes>)

  predicate IsDelta(cand: Candidate) { cand.delta.Some? && cand.baseOid != "" }

  /** None for an object the writer rejects. */
  function CandidateBytes(c: Codec, cand: Candidate): Option<bytes> {
    if IsDelta(cand) then
      match HexDecode(cand.baseOid)
      case Some(raw) =>
        if |raw| != OID_SIZE then None
        else Some(HeaderBytes(REF_DELTA, |cand.delta.value|) + (raw + c.deflate(cand.delta.value)))
      case None => None
    else if COMMIT <= cand.obj.kind <= BLOB then
      Some(HeaderBytes(cand.obj.kind, |cand.obj.data|) + c.deflate(cand.obj.data))
    else None
  }

  function EntriesBytes(c: Codec, cands: seq<Candidate>): Option<bytes> {
    if cands == [] then Some([])
    else
      match (CandidateBytes(c, cands[0]), EntriesBytes(c, cands[1..]))
      case (Some(first), Some(rest)) => Some(first + rest)
      case _ => None
  }

  const MAGIC: bytes := [0x50, 0x41, 0x43, 0x4B]  // "PACK"
  const VERSION: bytes := [0, 0, 0, 2]

  function PackBytes(c: Codec, cands: seq<Candidate>): Option<bytes> {
    match EntriesBytes(c, cands)
    case None => None
    case Some(entries) =>
      var body := MAGIC + VERSION + PutUint32(|cands|) + entries;
      Some(body + c.checksum(body))
  }

  method WritePackWithDeltas(c: Codec, cands: seq<Candidate>) returns (r: Option<bytes>)
    ensures r == PackBytes(c, cands)
  {
    var entries := WriteCandidates(c, cands);
    if entries.None? { return None; }
    var buf := MAGIC + VERSION + PutUint32(|cands|) + entries.value;
    return Some(buf + c.checksum(buf));
  }

  /** The writer's loop, stopped by the first object it rejects. */
  method WriteCandidates(c: Codec, cands: seq<Candidate>) returns (r: Option<bytes>)
    ensures r == EntriesBytes(c, cands)
  {
    var buf: bytes, rest := [], cands;
    ghost var all := EntriesBytes(c, cands);
    assert all.Some? ==> [] + all.value == all.value;
    while rest != []
      invariant all == Joined(buf, EntriesBytes(c, rest))
    {
      var entry := WriteCandidate(c, rest[0]);
      if entry.None? { return None; }
      JoinedMore(buf, entry.value, EntriesBytes(c, rest[1..]));
      buf := buf + entry.value;
      rest := rest[1..];
    }
    assert buf + [] == buf;
    return Some(buf);
  }

  ghost function Joined(done: bytes, rest: Option<bytes>): Option<bytes> {
    match rest
    case None => None
    case Some(more) => Some(done + more)
  }

  lemma JoinedMore(done: bytes, one: bytes, rest: Option<bytes>)
    ensures Joined(done, Joined(one, rest)) == Joined(done + one, rest)
  {
    if rest.Some? { assert done + (one + rest.value) == done + one + rest.value; }
  }

  method WriteCandidate(c: Codec, cand: Candidate) returns (r: Option<bytes>)
    ensures r == CandidateBytes(c, cand)
  {
    if cand.delta.Some? && cand.baseOid != "" {
      var raw := HexDecode(cand.baseOid);
      if raw.None? || |raw.value| != OID_SIZE { return None; }
      var header := EncodeObjectHeader(REF_DELTA, |cand.delta.value|);
      return Some(header + (raw.value + c.deflate(cand.delta.value)));
    } else {
      if cand.obj.kind != COMMIT && cand.obj.kind != TREE && cand.obj.kind != BLOB { return None; }
      var header := EncodeObjectHeader(cand.obj.kind, |cand.obj.data|);
      return Some(header + c.deflate(cand.obj.data));
    }
  }

  /** What the writer accepts: a delta with a base's name in 20 bytes of hexadecimal,
      or a full commit, tree or blob. */
  predicate Accepted(cand: Candidate) {
    if cand.delta.Some? && cand.baseOid != "" then
      HexDecode(cand.baseOid).Some? && |HexDecode(cand.baseOid).value| == 20
    else cand.obj.kind == COMMIT || cand.obj.kind == TREE || cand.obj.kind == BLOB
  }

  /** A pack is written exactly when every candidate is accepted; it begins with its
      magic, version and count and ends with the checksum of all before it. */
  lemma PackShape(c: Codec, cands: seq<Candidate>)
    requires Lawful(c)
    ensures PackBytes(c, cands).Some? <==> forall cand :: cand in cands ==> Accepted(cand)
    ensures PackBytes(c, cands).Some? ==>
              var p := PackBytes(c, cands).value;
              && |p| >= 32 && p[|p| - 20..] == c.checksum(p[..|p| - 20])
              && p[..8] == [0x50, 0x41, 0x43, 0x4B, 0, 0, 0, 2] && Uint32(p[8..12]) == |cands| % 0x1_0000_0000
  {
    hide HexDecode, HeaderBytes;
    AllAccepted(c, cands);
    if PackBytes(c, cands).Some? {
      var p := PackBytes(c, cands).value;
      var entries := EntriesBytes(c, cands).value;
      var head := MAGIC + VERSION + PutUint32(|cands|);
      var body := head + entries;
      Uint32RoundTrip(|cands|);
      assert |head| == 12 && p == body + c.checksum(body);
      assert p[..|p| - 20] == body && p[|p| - 20..] == c.checksum(body);
      assert p[8..12] == PutUint32(|cands|) && p[..8] == MAGIC + VERSION;
    }
  }

  lemma {:induction false} AllAccepted(c: Codec, cands: seq<Candidate>)
    ensures EntriesBytes(c, cands).Some? <==> forall cand :: cand in cands ==> Accepted(cand)
  {
    hide HexDecode, HeaderBytes;
    if cands != [] {
      AllAccepted(c, cands[1..]);
      assert cands == [cands[0]] + cands[1..];
      OneAccepted(c, cands[0]);
    }
  }

  lemma OneAccepted(c: Codec, cand: Candidate)
    ensures CandidateBytes(c, cand).Some? <==> Accepted(cand)
  {
    hide HexDecode, HeaderBytes;
  }

  // -------------------------------------------------------------- parsing

  datatype PackError =
    | PackTooShort | BadMagic | BadVersion | Truncated | BadZlib | TruncatedOffset | TruncatedBase
    | BadType | BadDelta(error: DeltaError) | Panicked

  datatype Entry = Full(obj: GitObject) | RefDelta(base: string, delta: bytes) | OfsDelta(delta: bytes)

  /** At most size bytes of the stream at the front of s.  A stream that ends
      early is an error unless it is empty.  (zlib never consumes more than it
      is given; a codec that does is treated as the slice panic it would cause.) */
  function Unzip(c: Codec, s: bytes, size: int): (r: Result<(bytes, bytes), PackError>)
    ensures r.Ok? ==> |r.value.1| <= |s|
  {
    if size < 0 then Err(Panicked)
    else
      match c.inflate(s)
      case None => Err(BadZlib)
      case Some((content, used)) =>
        if used > |s| then Err(Panicked)
        else if size <= |content| then Ok((content[..size], s[used..]))
        else if content == [] then Ok(([], s[used..]))
        else Err(BadZlib)
  }

  /** The bytes of an offset delta's base offset, skipped. */
  function SkipOffset(s: bytes): (r: Option<bytes>)
    ensures r.Some? ==> |r.value| < |s|
  {
    if s == [] then None
    else if s[0] < 128 then Some(s[1..])
    else SkipOffset(s[1..])
  }

  function ReadEntry(c: Codec, s: bytes): Result<(Entry, bytes), PackError>
  {
    if |s| <= OID_SIZE then Err(Truncated)
    else
      match ReadHeader(s)
      case None => Err(Panicked)
      case Some((kind, size, rest)) =>
        if COMMIT <= kind <= BLOB then
          match Unzip(c, rest, size)
          case Err(e) => Err(e)
          case Ok((content, after)) => Ok((Full(MakeObject(c, kind, content)), after))
        else if kind == OFS_DELTA then
          match SkipOffset(rest)
          case None => Err(TruncatedOffset)
          case Some(stream) =>
            match Unzip(c, stream, size)
            case Err(e) => Err(e)
            case Ok((content, after)) => Ok((OfsDelta(content), after))
        else if kind == REF_DELTA then ReadRefDelta(c, rest, size)
        else Err(BadType)
  }

  /** The n entries at the front of s, behind those already read. */
  function ReadEntries(c: Codec, s: bytes, n: nat, done: seq<Entry>): Result<seq<Entry>, PackError>
    decreases n
  {
    if n == 0 then Ok(done)
    else
      match ReadEntry(c, s)
      case Err(e) => Err(e)
      case Ok((entry, rest)) => ReadEntries(c, rest, n - 1, done + [entry])
  }

  type ObjectMap = map<string, GitObject>

  function FullObjects(entries: seq<Entry>, m: ObjectMap): ObjectMap {
    if entries == [] then m
    else FullObjects(entries[1..], if entries[0].Full? then m[entries[0].obj.oid := entries[0].obj] else m)
  }

  function Lookup(m: ObjectMap, existing: ObjectMap, oid: string): Option<GitObject> {
    if oid in m then Some(m[oid]) else if oid in existing then Some(existing[oid]) else None
  }

  /** One pass over the deltas, in order; one whose base is unknown is skipped. */
  function ResolveDeltas(c: Codec, entries: seq<Entry>, m: ObjectMap, existing: ObjectMap): Result<ObjectMap, PackError> {
    if entries == [] then Ok(m)
    else if !entries[0].RefDelta? then ResolveDeltas(c, entries[1..], m, existing)
    else
      match Lookup(m, existing, entries[0].base)
      case None => ResolveDeltas(c, entries[1..], m, existing)
      case Some(base) =>
        match Apply(base.data, entries[0].delta)
        case Err(e) => Err(BadDelta(e))
        case Ok(data) =>
          var made := MakeObject(c, base.kind, data);
          ResolveDeltas(c, entries[1..], m[made.oid := made], existing)
  }

  function ParsePack(c: Codec, data: bytes, existing: ObjectMap): Result<ObjectMap, PackError>
  {
    if |data| < 12 then Err(PackTooShort)
    else if data[0..4] != MAGIC then Err(BadMagic)
    else if data[4..8] != VERSION then Err(BadVersion)
    else
      match ReadEntries(c, data[12..], Uint32(data[8..12]), [])
      case Err(e) => Err(e)
      case Ok(entries) => ResolveDeltas(c, entries, FullObjects(entries, map[]), existing)
  }

  /** What does not begin like a version 2 pack is refused as such. */
  lemma ParseRejects(c: Codec, data: bytes, existing: ObjectMap)
    ensures var r := ParsePack(c, data, existing);
            && (r == Err(PackTooShort) <==> |data| < 12)
            && (r == Err(BadMagic) <==> |data| >= 12 && data[..4] != [0x50, 0x41, 0x43, 0x4B])
            && (r == Err(BadVersion) <==> |data| >= 12 && data[..4] == [0x50, 0x41, 0x43, 0x4B] && data[4..8] != [0, 0, 0, 2])
  {
    assert |data| >= 12 ==> data[0..4] == data[..4];
    if |data| >= 12 {
      EntryErrors(c, data[12..], Uint32(data[8..12]), []);
      var r := ReadEntries(c, data[12..], Uint32(data[8..12]), []);
      if r.Ok? { DeltaErrors(c, r.value, FullObjects(r.value, map[]), existing); }
    }
  }

  /** Errors about the beginning come from nowhere else. */
  predicate AboutStart(e: PackError) { e.PackTooShort? || e.BadMagic? || e.BadVersion? }

  lemma {:induction false} EntryErrors(c: Codec, s: bytes, n: nat, done: seq<Entry>)
    ensures ReadEntries(c, s, n, done).Err? ==> !AboutStart(ReadEntries(c, s, n, done).error)
    decreases n
  {
    hide ReadEntry;
    if n > 0 {
      OneEntryError(c, s);
      match ReadEntry(c, s)
      case Err(_) =>
      case Ok((entry, rest)) => EntryErrors(c, rest, n - 1, done + [entry]);
    }
  }

  lemma OneEntryError(c: Codec, s: bytes)
    ensures ReadEntry(c, s).Err? ==> !AboutStart(ReadEntry(c, s).error)
  {
  }

  lemma {:induction false} DeltaErrors(c: Codec, entries: seq<Entry>, m: ObjectMap, existing: ObjectMap)
    ensures ResolveDeltas(c, entries, m, existing).Err? ==> !AboutStart(ResolveDeltas(c, entries, m, existing).error)
  {
    hide Apply, MakeObject;
    if entries != [] {
      if !entries[0].RefDelta? || Lookup(m, existing, entries[0].base).None? {
        DeltaErrors(c, entries[1..], m, existing);
      } else {
        var base := Lookup(m, existing, entries[0].base).value;
        match Apply(base.data, entries[0].delta)
        case Err(_) =>
        case Ok(data) =>
          var made := MakeObject(c, base.kind, data);
          DeltaErrors(c, entries[1..], m[made.oid := made], existing);
      }
    }
  }

  method ParseGitPack(c: Codec, data: bytes, existing: ObjectMap) returns (r: Result<ObjectMap, PackError>)
    ensures r == ParsePack(c, data, existing)
  {
    if |data| < 12 { return Err(PackTooShort); }
    if data[0..4] != MAGIC { return Err(BadMagic); }
    if data[4..8] != VERSION { return Err(BadVersion); }
    var numObjects := Uint32(data[8..12]);
    var parsed := ParseEntries(c, data, 12, numObjects);
    if parsed.Err? { return Err(parsed.error); }
    var (objects, deltas) := parsed.value;
    ResolveOnlyDeltas(c, ReadEntries(c, data[12..], numObjects, []).value, objects, existing);
    r := ApplyDeltas(c, deltas, objects, existing);
  }

  /** The first loop: full objects into the map, deltas into the list. */
  method ParseEntries(c: Codec, data: bytes, start: nat, numObjects: nat) returns (r: Result<(ObjectMap, seq<Entry>), PackError>)
    requires start <= |data|
    ensures match ReadEntries(c, data[start..], numObjects, [])
            case Err(e) => r == Err(e)
            case Ok(entries) => r == Ok((FullObjects(entries, map[]), Deltas(entries)))
  {
    hide ReadEntry;
    var objects: ObjectMap, deltas: seq<Entry> := map[], [];
    var offset, i := start, 0;
    ghost var rest, left: nat, done: seq<Entry> := data[start..], numObjects, [];
    ghost var all := ReadEntries(c, rest, left, done);
    while i < numObjects
      invariant 0 <= i <= numObjects && 0 <= offset <= |data| && left == numObjects - i
      invariant rest == data[offset..] && ReadEntries(c, rest, left, done) == all
      invariant objects == FullObjects(done, map[]) && deltas == Deltas(done)
    {
      if offset >= |data| - OID_SIZE {
        ReadTruncated(c, rest);
        return Err(Truncated);
      }
      var entry := ParseEntry(c, data, offset);
      if entry.Err? { return Err(entry.error); }
      var (e, next) := entry.value;
      EntryParsed(done, e);
      if e.Full? {
        objects := objects[e.obj.oid := e.obj];
      } else {
        deltas := deltas + [e];
      }
      rest, left, done := data[next..], left - 1, done + [e];
      offset := next;
      i := i + 1;
    }
    return Ok((objects, deltas));
  }

  lemma ReadTruncated(c: Codec, s: bytes)
    requires |s| <= OID_SIZE
    ensures ReadEntry(c, s) == Err(Truncated)
  {
  }

  lemma EntryParsed(done: seq<Entry>, e: Entry)
    ensures FullObjects(done + [e], map[])
         == if e.Full? then FullObjects(done, map[])[e.obj.oid := e.obj] else FullObjects(done, map[])
    ensures Deltas(done + [e]) == if e.Full? then Deltas(done) else Deltas(done) + [e]
  {
    FullObjectsMore(done, e, map[]);
    DeltasMore(done, e);
  }

  /** The deltas among the entries, in order. */
  function Deltas(entries: seq<Entry>): seq<Entry> {
    if entries == [] then []
    else (if entries[0].Full? then [] else [entries[0]]) + Deltas(entries[1..])
  }

  lemma {:induction false} DeltasMore(done: seq<Entry>, e: Entry)
    ensures Deltas(done + [e]) == Deltas(done) + if e.Full? then [] else [e]
  {
    var last := if e.Full? then [] else [e];
    if done == [] {
      assert done + [e] == [e] && [e][1..] == [];
      assert Deltas([e]) == last + Deltas([]);
    } else {
      assert (done + [e])[1..] == done[1..] + [e];
      DeltasMore(done[1..], e);
      var first := if done[0].Full? then [] else [done[0]];
      assert first + (Deltas(done[1..]) + last) == first + Deltas(done[1..]) + last;
    }
  }

  lemma {:induction false} FullObjectsMore(done: seq<Entry>, e: Entry, m: ObjectMap)
    ensures FullObjects(done + [e], m)
         == if e.Full? then FullObjects(done, m)[e.obj.oid := e.obj] else FullObjects(done, m)
  {
    if done == [] {
      assert (done + [e])[1..] == [];
    } else {
      assert (done + [e])[1..] == done[1..] + [e];
      FullObjectsMore(done[1..], e, if done[0].Full? then m[done[0].obj.oid := done[0].obj] else m);
    }
  }

  lemma {:induction false} ResolveOnlyDeltas(c: Codec, entries: seq<Entry>, m: ObjectMap, existing: ObjectMap)
    ensures ResolveDeltas(c, Deltas(entries), m, existing) == ResolveDeltas(c, entries, m, existing)
    decreases |entries|
  {
    if entries != [] {
      var ds := Deltas(entries);
      if entries[0].Full? {
        assert ds == Deltas(entries[1..]);
        ResolveOnlyDeltas(c, entries[1..], m, existing);
      } else {
        assert ds[1..] == Deltas(entries[1..]);
        ResolveOnlyDeltas(c, entries[1..], m, existing);
        if entries[0].RefDelta? {
          var base := Lookup(m, existing, entries[0].base);
          if base.Some? && Apply(base.value.data, entries[0].delta).Ok? {
            var made := MakeObject(c, base.value.kind, Apply(base.value.data, entries[0].delta).value);
            ResolveOnlyDeltas(c, entries[1..], m[made.oid := made], existing);
          }
        }
      }
    }
  }

  /** The second loop: every delta against what is known by then. */
  /** One entry: a full object or an offset delta is nothing to resolve; a delta is
      skipped when its base is unknown; else it makes an object of the
      base's kind under its own name, or fails as applying it does. */
  lemma ResolveOne(c: Codec, e: Entry, m: ObjectMap, existing: ObjectMap)
    ensures ResolveDeltas(c, [e], m, existing) ==
              if !e.RefDelta? then Ok(m)
              else if e.base !in m && e.base !in existing then Ok(m)
              else
                var base := if e.base in m then m[e.base] else existing[e.base];
                match Apply(base.data, e.delta)
                case Err(error) => Err(BadDelta(error))
                case Ok(data) => Ok(m[Oid(c, base.kind, data) := GitObject(base.kind, data, Oid(c, base.kind, data))])
  {
    assert [e][1..] == [];
  }

  /** The rest goes on with what the first part leaves, or is not looked at. */
  lemma {:induction false} ResolveConcat(c: Codec, a: seq<Entry>, b: seq<Entry>, m: ObjectMap, existing: ObjectMap)
    ensures ResolveDeltas(c, a + b, m, existing) ==
              match ResolveDeltas(c, a, m, existing)
              case Err(error) => Err(error)
              case Ok(known) => ResolveDeltas(c, b, known, existing)
  {
    hide Apply, MakeObject;
    if a == [] {
      assert a + b == b;
    } else {
      assert (a + b)[1..] == a[1..] + b;
      if !a[0].RefDelta? || Lookup(m, existing, a[0].base).None? {
        ResolveConcat(c, a[1..], b, m, existing);
      } else {
        var base := Lookup(m, existing, a[0].base).value;
        match Apply(base.data, a[0].delta)
        case Err(_) =>
        case Ok(data) =>
          var made := MakeObject(c, base.kind, data);
          ResolveConcat(c, a[1..], b, m[made.oid := made], existing);
      }
    }
  }

  /** A delta whose base is not known by then is left out, and nothing else is. */
  lemma UnknownBaseSkipsOnlyItself(c: Codec, a: seq<Entry>, e: Entry, b: seq<Entry>, m: ObjectMap, existing: ObjectMap)
    requires e.RefDelta? && e.base !in existing
    requires ResolveDeltas(c, a, m, existing).Ok? && e.base !in ResolveDeltas(c, a, m, existing).value
    ensures ResolveDeltas(c, a + [e] + b, m, existing) == ResolveDeltas(c, a + b, m, existing)
  {
    hide ResolveDeltas;
    ResolveConcat(c, a, b, m, existing);
    ResolveConcat(c, a + [e], b, m, existing);
    ResolveConcat(c, a, [e], m, existing);
    ResolveOne(c, e, ResolveDeltas(c, a, m, existing).value, existing);
  }

  method ApplyDeltas(c: Codec, deltas: seq<Entry>, full: ObjectMap, existing: ObjectMap) returns (r: Result<ObjectMap, PackError>)
    ensures r == ResolveDeltas(c, deltas, full, existing)
  {
    var objects, i := full, 0;
    assert deltas[0..] == deltas;
    while i < |deltas|
      invariant 0 <= i <= |deltas|
      invariant ResolveDeltas(c, deltas[i..], objects, existing) == ResolveDeltas(c, deltas, full, existing)
    {
      var delta := deltas[i];
      assert deltas[i..][1..] == deltas[i + 1..];
      i := i + 1;
      if delta.RefDelta? {
        var base := Lookup(objects, existing, delta.base);
        if base.Some? {
          var result := ApplyDelta(base.value.data, delta.delta);
          if result.Err? { return Err(BadDelta(result.error)); }
          var made := MakeObject(c, base.value.kind, result.value);
          objects := objects[made.oid := made];
        }
      }
    }
    return Ok(objects);
  }

  method ParseEntry(c: Codec, data: bytes, start: nat) returns (r: Result<(Entry, nat), PackError>)
    requires start < |data| - OID_SIZE
    ensures match ReadEntry(c, data[start..])
            case Err(e) => r == Err(e)
            case Ok((entry, rest)) =>
              r.Ok? && r.value.0 == entry && start <= r.value.1 <= |data| && data[r.value.1..] == rest
  {
    var header := ParseObjectHeader(data, start);
    if header.None? { return Err(Panicked); }
    var (kind, size, offset) := header.value;
    if kind == COMMIT || kind == TREE || kind == BLOB {
      var content := ZlibDecompress(c, data, offset, size);
      if content.Err? { return Err(content.error); }
      return Ok((Full(MakeObject(c, kind, content.value.0)), content.value.1));
    } else if kind == OFS_DELTA {
      var stream := SkipOffsetBytes(data, offset);
      if stream.None? { return Err(TruncatedOffset); }
      var content := ZlibDecompress(c, data, stream.value, size);
      if content.Err? { return Err(content.error); }
      return Ok((OfsDelta(content.value.0), content.value.1));
    } else if kind == REF_DELTA {
      r := ParseRefDelta(c, data, offset, size);
    } else {
      return Err(BadType);
    }
  }

  method SkipOffsetBytes(data: bytes, start: nat) returns (r: Option<nat>)
    requires start <= |data|
    ensures match SkipOffset(data[start..])
            case None => r == None
            case Some(rest) => r.Some? && start <= r.value <= |data| && data[r.value..] == rest
  {
    var offset := start;
    while true
      invariant start <= offset <= |data|
      invariant SkipOffset(data[offset..]) == SkipOffset(data[start..])
      decreases |data| - offset
    {
      if offset >= |data| { return None; }
      var b := data[offset];
      assert data[offset..][1..] == data[offset + 1..];
      offset := offset + 1;
      if b < 128 { return Some(offset); }
    }
  }

  /** The base's name and the delta, what follows the header of a REF_DELTA. */
  function ReadRefDelta(c: Codec, s: bytes, size: int): Result<(Entry, bytes), PackError>
  {
    if |s| < OID_SIZE then Err(TruncatedBase)
    else
      match Unzip(c, s[OID_SIZE..], size)
      case Err(e) => Err(e)
      case Ok((content, after)) => Ok((RefDelta(HexEncode(s[..OID_SIZE]), content), after))
  }

  method ParseRefDelta(c: Codec, data: bytes, offset: nat, size: int) returns (r: Result<(Entry, nat), PackError>)
    requires offset <= |data|
    ensures match ReadRefDelta(c, data[offset..], size)
            case Err(e) => r == Err(e)
            case Ok((entry, rest)) =>
              r.Ok? && r.value.0 == entry && offset <= r.value.1 <= |data| && data[r.value.1..] == rest
  {
    if offset + OID_SIZE > |data| { return Err(TruncatedBase); }
    assert data[offset..][OID_SIZE..] == data[offset + OID_SIZE..];
    assert data[offset..][..OID_SIZE] == data[offset..offset + OID_SIZE];
    var content := ZlibDecompress(c, data, offset + OID_SIZE, size);
    if content.Err? { return Err(content.error); }
    return Ok((RefDelta(HexEncode(data[offset..offset + OID_SIZE]), content.value.0), content.value.1));
  }

  method ZlibDecompress(c: Codec, data: bytes, start: nat, size: int) returns (r: Result<(bytes, nat), PackError>)
    requires start <= |data|
    ensures match Unzip(c, data[start..], size)
            case Err(e) => r == Err(e)
            case Ok((content, rest)) =>
              r.Ok? && r.value.0 == content && start <= r.value.1 <= |data| && data[r.value.1..] == rest
  {
    if size < 0 { return Err(Panicked); }
    var stream := c.inflate(data[start..]);
    if stream.None? { return Err(BadZlib); }
    var (content, used) := stream.value;
    if used > |data| - start { return Err(Panicked); }
    assert data[start..][used..] == data[start + used..];
    if size <= |content| { return Ok((content[..size], start + used)); }
    if |content| == 0 { return Ok(([], start + used)); }
    return Err(BadZlib);
  }
}
