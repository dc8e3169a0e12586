/** Parsing a written pack gives back exactly the objects that were sent. */
module PackRoundTrip {
  import opened BigEndian
  import opened Prelude
  import opened Hex
  import opened DeltaFormat
  import opened DeltaCodec
  import opened GitPack

  // --------------------------------------------------- what the sender owes

  ghost predicate GoodObject(c: Codec, obj: GitObject) {
    && COMMIT <= obj.kind <= BLOB
    && |obj.data| <= MAX_INT
    && obj.oid == Oid(c, obj.kind, obj.data)
  }

  /** Objects of the same name are the same object, in the pack and among those
      the receiver already has. */
  ghost predicate NoCollisions(cands: seq<Candidate>, existing: ObjectMap) {
    && (forall i, j :: 0 <= i < |cands| && 0 <= j < |cands| && cands[i].obj.oid == cands[j].obj.oid ==>
          cands[i].obj == cands[j].obj)
    && (forall i :: 0 <= i < |cands| && cands[i].obj.oid in existing ==> existing[cands[i].obj.oid] == cands[i].obj)
  }

  /** Object b can be the base of candidate i: it is sent in full anywhere in
      the pack, or as a delta before i, or the receiver has it. */
  ghost predicate Available(cands: seq<Candidate>, existing: ObjectMap, i: nat, b: GitObject) {
    || (b.oid in existing && existing[b.oid] == b)
    || exists j :: 0 <= j < |cands| && cands[j].obj == b && (j < i || !IsDelta(cands[j]))
  }

  ghost predicate GoodDelta(c: Codec, cands: seq<Candidate>, existing: ObjectMap, i: nat)
    requires i < |cands| && IsDelta(cands[i])
  {
    && |cands[i].delta.value| <= MAX_INT
    && exists b :: Available(cands, existing, i, b) && GoodObject(c, b)
         && b.oid == cands[i].baseOid && b.kind == cands[i].obj.kind
         && Apply(b.data, cands[i].delta.value) == Ok(cands[i].obj.data)
  }

  ghost predicate GoodCandidates(c: Codec, cands: seq<Candidate>, existing: ObjectMap) {
    && (forall i :: 0 <= i < |cands| ==> GoodObject(c, cands[i].obj))
    && (forall i :: 0 <= i < |cands| && IsDelta(cands[i]) ==> GoodDelta(c, cands, existing, i))
    && NoCollisions(cands, existing)
  }

  // ------------------------------------------------------ reading the bytes

  function EntryOf(cand: Candidate): Entry {
    if IsDelta(cand) then RefDelta(cand.baseOid, cand.delta.value) else Full(cand.obj)
  }

  function EntriesOf(cands: seq<Candidate>): seq<Entry> {
    seq(|cands|, i requires 0 <= i < |cands| => EntryOf(cands[i]))
  }

  /** What the format needs of a candidate, delta or not. */
  ghost predicate Writable(c: Codec, cand: Candidate) {
    && GoodObject(c, cand.obj)
    && (IsDelta(cand) ==> |cand.delta.value| <= MAX_INT && exists kind, data :: cand.baseOid == Oid(c, kind, data))
  }

  lemma GoodIsWritable(c: Codec, cands: seq<Candidate>, existing: ObjectMap, i: nat)
    requires GoodCandidates(c, cands, existing) && i < |cands|
    ensures Writable(c, cands[i])
  {
    if IsDelta(cands[i]) {
      assert GoodDelta(c, cands, existing, i);
      var b :| Available(cands, existing, i, b) && GoodObject(c, b) && b.oid == cands[i].baseOid;
      assert cands[i].baseOid == Oid(c, b.kind, b.data);
    }
  }

  lemma UnzipDeflated(c: Codec, data: bytes, rest: bytes)
    requires Lawful(c)
    ensures Unzip(c, c.deflate(data) + rest, |data|) == Ok((data, rest))
  {
    var s := c.deflate(data) + rest;
    assert c.inflate(s) == Some((data, |c.deflate(data)|));
    assert s[|c.deflate(data)|..] == rest && data[..|data|] == data;
  }

  lemma FullRoundTrip(c: Codec, obj: GitObject, rest: bytes)
    requires Lawful(c) && GoodObject(c, obj) && |rest| >= OID_SIZE
    ensures ReadEntry(c, HeaderBytes(obj.kind, |obj.data|) + c.deflate(obj.data) + rest) == Ok((Full(obj), rest))
  {
    var header, body := HeaderBytes(obj.kind, |obj.data|), c.deflate(obj.data);
    assert header + body + rest == header + (body + rest);
    HeaderRoundTrip(obj.kind, |obj.data|, body + rest);
    UnzipDeflated(c, obj.data, rest);
  }

  lemma DeltaEntryRoundTrip(c: Codec, raw: bytes, delta: bytes, rest: bytes)
    requires Lawful(c) && |raw| == OID_SIZE && |delta| <= MAX_INT && |rest| >= OID_SIZE
    ensures ReadEntry(c, HeaderBytes(REF_DELTA, |delta|) + (raw + c.deflate(delta)) + rest)
         == Ok((RefDelta(HexEncode(raw), delta), rest))
  {
    var header, body := HeaderBytes(REF_DELTA, |delta|), c.deflate(delta);
    var after := raw + (body + rest);
    assert header + (raw + body) + rest == header + after;
    HeaderRoundTrip(REF_DELTA, |delta|, after);
    assert after[OID_SIZE..] == body + rest && after[..OID_SIZE] == raw;
    UnzipDeflated(c, delta, rest);
  }

  lemma EntryRoundTrip(c: Codec, cand: Candidate, rest: bytes)
    requires Lawful(c) && Writable(c, cand) && |rest| >= OID_SIZE
    ensures CandidateBytes(c, cand).Some?
    ensures ReadEntry(c, CandidateBytes(c, cand).value + rest) == Ok((EntryOf(cand), rest))
  {
    if IsDelta(cand) {
      var kind, data :| cand.baseOid == Oid(c, kind, data);
      HexRoundTrip(c.hash(kind, data));
      DeltaEntryRoundTrip(c, c.hash(kind, data), cand.delta.value, rest);
    } else {
      FullRoundTrip(c, cand.obj, rest);
    }
  }

  /** An offset delta, which the writer never makes, is read and passed over with
      its offset; annotated tags and types that are none are refused. */
  lemma OtherEntries(c: Codec, kind: nat, data: bytes, offset: bytes, last: byte, rest: bytes)
    requires Lawful(c) && |data| <= MAX_INT && |rest| >= OID_SIZE && kind < 8
    requires last < 128 && forall b :: b in offset ==> b >= 128
    ensures ReadEntry(c, HeaderBytes(6, |data|) + (offset + [last] + (c.deflate(data) + rest))) == Ok((OfsDelta(data), rest))
    ensures kind in {0, 4, 5} ==> ReadEntry(c, HeaderBytes(kind, |data|) + rest) == Err(BadType)
  {
    var stream := c.deflate(data) + rest;
    HeaderRoundTrip(6, |data|, offset + [last] + stream);
    HeaderRoundTrip(kind, |data|, rest);
    SkipsOffset(offset, last, stream);
    UnzipDeflated(c, data, rest);
  }

  lemma {:induction false} SkipsOffset(offset: bytes, last: byte, rest: bytes)
    requires last < 128 && forall b :: b in offset ==> b >= 128
    ensures SkipOffset(offset + [last] + rest) == Some(rest)
  {
    var s := offset + [last] + rest;
    if offset == [] {
      assert s[0] == last && s[1..] == rest;
    } else {
      assert s[0] == offset[0] && s[1..] == offset[1..] + [last] + rest;
      assert offset[0] in offset && forall b :: b in offset[1..] ==> b in offset;
      SkipsOffset(offset[1..], last, rest);
    }
  }

  lemma {:induction false} EntriesRoundTrip(c: Codec, cands: seq<Candidate>, n: nat, rest: bytes, done: seq<Entry>)
    requires Lawful(c) && |rest| >= OID_SIZE && n == |cands|
    requires forall i :: 0 <= i < |cands| ==> Writable(c, cands[i])
    ensures EntriesBytes(c, cands).Some?
    ensures ReadEntries(c, EntriesBytes(c, cands).value + rest, n, done) == Ok(done + EntriesOf(cands))
  {
    hide ReadEntry, CandidateBytes;
    if n == 0 {
      assert done + EntriesOf(cands) == done;
    } else {
      var entry := EntryOf(cands[0]);
      EntriesRoundTrip(c, cands[1..], n - 1, rest, done + [entry]);
      EntryRoundTrip(c, cands[0], EntriesBytes(c, cands[1..]).value + rest);
      ReadOneMore(c, cands, n, rest, done);
    }
  }

  lemma ReadOneMore(c: Codec, cands: seq<Candidate>, n: nat, rest: bytes, done: seq<Entry>)
    requires cands != [] && n > 0
    requires CandidateBytes(c, cands[0]).Some? && EntriesBytes(c, cands[1..]).Some?
    requires var others := EntriesBytes(c, cands[1..]).value + rest;
             && ReadEntry(c, CandidateBytes(c, cands[0]).value + others) == Ok((EntryOf(cands[0]), others))
             && ReadEntries(c, others, n - 1, done + [EntryOf(cands[0])])
                == Ok(done + [EntryOf(cands[0])] + EntriesOf(cands[1..]))
    ensures EntriesBytes(c, cands).Some?
    ensures ReadEntries(c, EntriesBytes(c, cands).value + rest, n, done) == Ok(done + EntriesOf(cands))
  {
    hide ReadEntry, CandidateBytes;
    var first, others := CandidateBytes(c, cands[0]).value, EntriesBytes(c, cands[1..]).value;
    assert EntriesBytes(c, cands).value + rest == first + (others + rest);
    assert done + [EntryOf(cands[0])] + EntriesOf(cands[1..]) == done + EntriesOf(cands);
  }

  // ---------------------------------------------------- resolving the deltas

  /** m holds exactly the objects sent in full, and the deltas before n. */
  ghost predicate Holds(m: ObjectMap, cands: seq<Candidate>, n: nat) {
    && (forall i :: 0 <= i < |cands| && (i < n || !IsDelta(cands[i])) ==> cands[i].obj.oid in m)
    && (forall oid :: oid in m ==>
          exists i :: 0 <= i < |cands| && (i < n || !IsDelta(cands[i])) && m[oid] == cands[i].obj && oid == cands[i].obj.oid)
  }

  /** m holds exactly the objects sent in full among the first n. */
  ghost predicate HoldsFull(m: ObjectMap, cands: seq<Candidate>, n: nat)
    requires n <= |cands|
  {
    && (forall i :: 0 <= i < n && !IsDelta(cands[i]) ==> cands[i].obj.oid in m)
    && (forall oid :: oid in m ==>
          exists i :: 0 <= i < n && !IsDelta(cands[i]) && m[oid] == cands[i].obj && oid == cands[i].obj.oid)
  }

  lemma {:induction false} FullObjectsHold(cands: seq<Candidate>, n: nat, m: ObjectMap)
    requires n <= |cands| && HoldsFull(m, cands, n)
    ensures Holds(FullObjects(EntriesOf(cands)[n..], m), cands, 0)
    decreases |cands| - n
  {
    var es := EntriesOf(cands)[n..];
    if n < |cands| {
      assert es[0] == EntryOf(cands[n]) && es[1..] == EntriesOf(cands)[n + 1..];
      var m' := if IsDelta(cands[n]) then m else m[cands[n].obj.oid := cands[n].obj];
      HoldsFullMore(cands, n, m, m');
      FullObjectsHold(cands, n + 1, m');
    }
  }

  lemma HoldsFullMore(cands: seq<Candidate>, n: nat, m: ObjectMap, m': ObjectMap)
    requires n < |cands| && HoldsFull(m, cands, n)
    requires m' == if IsDelta(cands[n]) then m else m[cands[n].obj.oid := cands[n].obj]
    ensures HoldsFull(m', cands, n + 1)
  {
    forall oid | oid in m'
      ensures exists i :: 0 <= i < n + 1 && !IsDelta(cands[i]) && m'[oid] == cands[i].obj && oid == cands[i].obj.oid
    {
      if !IsDelta(cands[n]) && oid == cands[n].obj.oid {
        assert m'[oid] == cands[n].obj;
      } else {
        var i :| 0 <= i < n && !IsDelta(cands[i]) && m[oid] == cands[i].obj && oid == cands[i].obj.oid;
      }
    }
  }

  lemma {:induction false} DeltasResolve(c: Codec, cands: seq<Candidate>, existing: ObjectMap, n: nat, m: ObjectMap)
    requires GoodCandidates(c, cands, existing) && n <= |cands| && Holds(m, cands, n)
    ensures ResolveDeltas(c, EntriesOf(cands)[n..], m, existing).Ok?
    ensures Holds(ResolveDeltas(c, EntriesOf(cands)[n..], m, existing).value, cands, |cands|)
    decreases |cands| - n
  {
    if n < |cands| {
      var m' := CandidateResolves(c, cands, existing, n, m);
      DeltasResolve(c, cands, existing, n + 1, m');
    }
  }

  lemma CandidateResolves(c: Codec, cands: seq<Candidate>, existing: ObjectMap, n: nat, m: ObjectMap) returns (m': ObjectMap)
    requires GoodCandidates(c, cands, existing) && n < |cands| && Holds(m, cands, n)
    ensures Holds(m', cands, n + 1)
    ensures ResolveDeltas(c, EntriesOf(cands)[n..], m, existing) == ResolveDeltas(c, EntriesOf(cands)[n + 1..], m', existing)
  {
    var es := EntriesOf(cands)[n..];
    assert es[0] == EntryOf(cands[n]) && es[1..] == EntriesOf(cands)[n + 1..];
    m' := m;
    if IsDelta(cands[n]) {
      m' := m[cands[n].obj.oid := cands[n].obj];
      DeltaResolves(c, cands, existing, n, m);
      ResolveOne(c, es, m, existing, Lookup(m, existing, cands[n].baseOid).value, cands[n].obj.data);
      HoldsMore(cands, n, m);
    }
  }

  lemma ResolveOne(c: Codec, es: seq<Entry>, m: ObjectMap, existing: ObjectMap, base: GitObject, data: bytes)
    requires es != [] && es[0].RefDelta? && Lookup(m, existing, es[0].base) == Some(base)
    requires Apply(base.data, es[0].delta) == Ok(data)
    ensures var made := MakeObject(c, base.kind, data);
            ResolveDeltas(c, es, m, existing) == ResolveDeltas(c, es[1..], m[made.oid := made], existing)
  {
  }

  lemma HoldsMore(cands: seq<Candidate>, n: nat, m: ObjectMap)
    requires n < |cands| && IsDelta(cands[n]) && Holds(m, cands, n)
    ensures Holds(m[cands[n].obj.oid := cands[n].obj], cands, n + 1)
  {
    var m' := m[cands[n].obj.oid := cands[n].obj];
    forall oid | oid in m'
      ensures exists i :: 0 <= i < |cands| && (i < n + 1 || !IsDelta(cands[i])) && m'[oid] == cands[i].obj && oid == cands[i].obj.oid
    {
      if oid == cands[n].obj.oid {
        assert m'[oid] == cands[n].obj;
      } else {
        var i :| 0 <= i < |cands| && (i < n || !IsDelta(cands[i])) && m[oid] == cands[i].obj && oid == cands[i].obj.oid;
      }
    }
  }

  /** The base found is the base meant, and the object made is the one sent. */
  lemma DeltaResolves(c: Codec, cands: seq<Candidate>, existing: ObjectMap, n: nat, m: ObjectMap)
    requires GoodCandidates(c, cands, existing) && n < |cands| && IsDelta(cands[n]) && Holds(m, cands, n)
    ensures var found := Lookup(m, existing, cands[n].baseOid);
            found.Some?
            && Apply(found.value.data, cands[n].delta.value) == Ok(cands[n].obj.data)
            && MakeObject(c, found.value.kind, cands[n].obj.data) == cands[n].obj
  {
    assert GoodDelta(c, cands, existing, n);
    var b :| Available(cands, existing, n, b) && GoodObject(c, b)
             && b.oid == cands[n].baseOid && b.kind == cands[n].obj.kind
             && Apply(b.data, cands[n].delta.value) == Ok(cands[n].obj.data);
    assert GoodObject(c, cands[n].obj);
    LookupFinds(cands, existing, n, m, b);
  }

  lemma LookupFinds(cands: seq<Candidate>, existing: ObjectMap, n: nat, m: ObjectMap, b: GitObject)
    requires NoCollisions(cands, existing) && Holds(m, cands, n) && Available(cands, existing, n, b)
    ensures Lookup(m, existing, b.oid) == Some(b)
  {
    if b.oid in m {
      var i :| 0 <= i < |cands| && m[b.oid] == cands[i].obj && b.oid == cands[i].obj.oid;
      if !(b.oid in existing && existing[b.oid] == b) {
        var j :| 0 <= j < |cands| && cands[j].obj == b;
        assert cands[i].obj == cands[j].obj;
      }
    } else {
      assert b.oid in existing && existing[b.oid] == b;
    }
  }

  // ---------------------------------------------------------------- theorem

  /** The pack round trip: parsing what was written yields one entry for every
      name sent, no others, and under each name the object that was sent. */
  lemma PackRoundTrip(c: Codec, cands: seq<Candidate>, existing: ObjectMap)
    requires Lawful(c) && GoodCandidates(c, cands, existing) && |cands| < 0x1_0000_0000
    ensures PackBytes(c, cands).Some?
    ensures var r := ParsePack(c, PackBytes(c, cands).value, existing);
            && r.Ok?
            && r.value.Keys == (set i | 0 <= i < |cands| :: cands[i].obj.oid)
            && forall i :: 0 <= i < |cands| ==> r.value[cands[i].obj.oid] == cands[i].obj
  {
    forall i | 0 <= i < |cands| ensures Writable(c, cands[i]) { GoodIsWritable(c, cands, existing, i); }
    EntriesRead(c, cands, existing);
    var es := EntriesOf(cands);
    assert es[0..] == es;
    FullObjectsHold(cands, 0, map[]);
    DeltasResolve(c, cands, existing, 0, FullObjects(es, map[]));
    var m := ResolveDeltas(c, es, FullObjects(es, map[]), existing).value;
    HoldsAll(cands, existing, m);
  }

  lemma EntriesRead(c: Codec, cands: seq<Candidate>, existing: ObjectMap)
    requires Lawful(c) && |cands| < 0x1_0000_0000
    requires forall i :: 0 <= i < |cands| ==> Writable(c, cands[i])
    ensures PackBytes(c, cands).Some?
    ensures ParsePack(c, PackBytes(c, cands).value, existing)
         == ResolveDeltas(c, EntriesOf(cands), FullObjects(EntriesOf(cands), map[]), existing)
  {
    hide Uint32, PutUint32;
    EntriesWritten(c, cands);
    var entries := EntriesBytes(c, cands).value;
    EntriesRoundTrip(c, cands, |cands|, c.checksum(Body(|cands|, entries)), []);
    assert [] + EntriesOf(cands) == EntriesOf(cands);
    Uint32Exact(|cands|);
    PackBytesAre(c, cands, entries);
    BodyRead(c, |cands|, entries, EntriesOf(cands), existing);
  }

  /** All of a pack but its checksum. */
  function Body(n: nat, entries: bytes): bytes { MAGIC + VERSION + PutUint32(n) + entries }

  lemma BodyRead(c: Codec, n: nat, entries: bytes, es: seq<Entry>, existing: ObjectMap)
    requires Uint32(PutUint32(n)) == n
    requires ReadEntries(c, entries + c.checksum(Body(n, entries)), n, []) == Ok(es)
    ensures ParsePack(c, Body(n, entries) + c.checksum(Body(n, entries)), existing)
         == ResolveDeltas(c, es, FullObjects(es, map[]), existing)
  {
    LayoutRead(c, PutUint32(n), entries, c.checksum(Body(n, entries)), es, existing);
  }

  lemma PackBytesAre(c: Codec, cands: seq<Candidate>, entries: bytes)
    requires EntriesBytes(c, cands) == Some(entries)
    ensures PackBytes(c, cands) == Some(Body(|cands|, entries) + c.checksum(Body(|cands|, entries)))
  {
  }

  lemma EntriesWritten(c: Codec, cands: seq<Candidate>)
    requires Lawful(c)
    requires forall i :: 0 <= i < |cands| ==> Writable(c, cands[i])
    ensures EntriesBytes(c, cands).Some?
  {
    EntriesRoundTrip(c, cands, |cands|, seq(OID_SIZE, _ => 0), []);
  }

  lemma LayoutRead(c: Codec, count: bytes, entries: bytes, sum: bytes, es: seq<Entry>, existing: ObjectMap)
    requires |count| == 4
    requires ReadEntries(c, entries + sum, Uint32(count), []) == Ok(es)
    ensures ParsePack(c, (MAGIC + VERSION + count + entries) + sum, existing)
         == ResolveDeltas(c, es, FullObjects(es, map[]), existing)
  {
    Slices(MAGIC, VERSION, count, entries, sum);
  }

  lemma Slices(magic: bytes, version: bytes, count: bytes, entries: bytes, sum: bytes)
    requires |magic| == |version| == |count| == 4
    ensures var pack := magic + version + count + entries + sum;
            |pack| >= 12 && pack[0..4] == magic && pack[4..8] == version && pack[8..12] == count
            && pack[12..] == entries + sum
  {
  }

  lemma HoldsAll(cands: seq<Candidate>, existing: ObjectMap, m: ObjectMap)
    requires NoCollisions(cands, existing) && Holds(m, cands, |cands|)
    ensures m.Keys == set i | 0 <= i < |cands| :: cands[i].obj.oid
    ensures forall i :: 0 <= i < |cands| ==> m[cands[i].obj.oid] == cands[i].obj
  {
    forall i | 0 <= i < |cands| ensures cands[i].obj.oid in m && m[cands[i].obj.oid] == cands[i].obj {
      var j :| 0 <= j < |cands| && m[cands[i].obj.oid] == cands[j].obj && cands[i].obj.oid == cands[j].obj.oid;
    }
  }

  /** Candidate i is a delta that the generator made against a base of the same
      type that the receiver can have by then, within the generator's bounds. */
  ghost predicate GeneratedDelta(c: Codec, cands: seq<Candidate>, existing: ObjectMap, i: nat)
    requires i < |cands| && IsDelta(cands[i])
  {
    exists b :: Available(cands, existing, i, b) && GoodObject(c, b)
      && b.oid == cands[i].baseOid && b.kind == cands[i].obj.kind
      && |b.data| <= 0x1_0000_0000 && (|b.data| < 0x100_0000 || |cands[i].obj.data| < 0x100_0000)
      && cands[i].delta == Delta(b.data, cands[i].obj.data)
  }

  /** The deltas the generator makes are good deltas, within its bounds: such a
      pack can always be read back, whether a base is sent in full, sent before
      as a delta, or with the receiver already. */
  lemma ThinPackRoundTrip(c: Codec, cands: seq<Candidate>, existing: ObjectMap)
    requires Lawful(c) && |cands| < 0x1_0000_0000 && NoCollisions(cands, existing)
    requires forall i :: 0 <= i < |cands| ==> GoodObject(c, cands[i].obj)
    requires forall i :: 0 <= i < |cands| && IsDelta(cands[i]) ==> GeneratedDelta(c, cands, existing, i)
    ensures PackBytes(c, cands).Some?
    ensures var r := ParsePack(c, PackBytes(c, cands).value, existing);
            && r.Ok?
            && r.value.Keys == (set i | 0 <= i < |cands| :: cands[i].obj.oid)
            && forall i :: 0 <= i < |cands| ==> r.value[cands[i].obj.oid] == cands[i].obj
  {
    forall i | 0 <= i < |cands| && IsDelta(cands[i]) ensures GoodDelta(c, cands, existing, i) {
      GeneratedIsGood(c, cands, existing, i);
    }
    PackRoundTrip(c, cands, existing);
  }

  lemma GeneratedIsGood(c: Codec, cands: seq<Candidate>, existing: ObjectMap, i: nat)
    requires i < |cands| && IsDelta(cands[i]) && GoodObject(c, cands[i].obj) && GeneratedDelta(c, cands, existing, i)
    ensures GoodDelta(c, cands, existing, i)
  {
    hide Available, Apply;
    var b :| Available(cands, existing, i, b) && GoodObject(c, b)
      && b.oid == cands[i].baseOid && b.kind == cands[i].obj.kind
      && |b.data| <= 0x1_0000_0000 && (|b.data| < 0x100_0000 || |cands[i].obj.data| < 0x100_0000)
      && cands[i].delta == Delta(b.data, cands[i].obj.data);
    DeltaRoundTrip(b.data, cands[i].obj.data);
    assert |cands[i].delta.value| < |cands[i].obj.data|;
  }
}
