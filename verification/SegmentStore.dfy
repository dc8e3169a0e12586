/** Packs of objects, stored as whole segments and indexed by digest. */
module SegmentStore {
  import opened BigEndian
  import opened Prelude

  type int64 = x: int | -0x8000_0000_0000_0000 <= x <= MAX_INT

  /** A header line: where in the data an object lies. */
  datatype PackEntry = PackEntry(digest: bytes, kind: string, offset: int64, length: int64)

  datatype PackObject = PackObject(digest: bytes, kind: string, content: bytes)

  datatype Segment = Segment(checksum: bytes, blob: bytes)

  /** A row of the object index; segments are numbered from 0. */
  datatype Info = Info(segment: nat, offset: int64, length: int64, kind: string)

  datatype Store = Store(segments: seq<Segment>, objects: map<bytes, Info>)

  /** Hash, compression and the JSON form of the header. */
  datatype Tools = Tools(
    hash: bytes -> bytes,
    zip: bytes -> bytes,
    unzip: bytes -> Option<bytes>,
    encode: seq<PackEntry> -> bytes,
    decode: bytes -> Option<seq<PackEntry>>)

  ghost predicate Lawful(t: Tools) {
    && (forall s :: t.unzip(t.zip(s)) == Some(s))
    && (forall es :: t.decode(t.encode(es)) == Some(es))
  }

  datatype IngestError = BadStream | ShortPack | HeaderTooLarge | BadHeader | BeyondData | DigestMismatch | Panic

  datatype ReadError = ObjectNotFound | SegmentNotFound | BeyondSegment | SlicePanic

  const HEADER_LENGTH_SIZE: nat := 4
  const MAX_HEADER_SIZE: nat := 10 * 1024 * 1024

  // ------------------------------------------------------------------ ingest

  function ReadPack(t: Tools, input: bytes): Result<(seq<PackEntry>, bytes), IngestError> {
    match t.unzip(input)
    case None => Err(BadStream)
    case Some(raw) =>
      if |raw| < HEADER_LENGTH_SIZE then Err(ShortPack)
      else
        var n := Uint32(raw[..HEADER_LENGTH_SIZE]);
        if n > MAX_HEADER_SIZE then Err(HeaderTooLarge)
        else if |raw| < HEADER_LENGTH_SIZE + n then Err(ShortPack)
        else
          match t.decode(raw[HEADER_LENGTH_SIZE..HEADER_LENGTH_SIZE + n])
          case None => Err(BadHeader)
          case Some(entries) => Ok((entries, raw[HEADER_LENGTH_SIZE + n..]))
  }

  /** What is wrong with a header line, in the order the checks are made; the
      end of an object wraps around at 64 bits, and a bad slice panics. */
  function Fault(t: Tools, e: PackEntry, data: bytes): Option<IngestError> {
    var end := ToInt64(e.offset + e.length);
    if end > |data| then Some(if |e.digest| < 8 then Panic else BeyondData)
    else if !(0 <= e.offset <= end) then Some(Panic)
    else if t.hash(data[e.offset..end]) != e.digest then Some(DigestMismatch)
    else None
  }

  /** A digest already indexed keeps its place. */
  function InsertObject(objects: map<bytes, Info>, e: PackEntry, segment: nat): map<bytes, Info> {
    if e.digest in objects then objects else objects[e.digest := Info(segment, e.offset, e.length, e.kind)]
  }

  function IndexAll(t: Tools, objects: map<bytes, Info>, entries: seq<PackEntry>, data: bytes, segment: nat): Result<map<bytes, Info>, IngestError>
    decreases |entries|
  {
    if entries == [] then Ok(objects)
    else
      match Fault(t, entries[0], data)
      case Some(fault) => Err(fault)
      case None => IndexAll(t, InsertObject(objects, entries[0], segment), entries[1..], data, segment)
  }

  /** New state, and the new segment's number with the count of lines indexed. */
  function Ingest(t: Tools, st: Store, input: bytes): (Store, Result<(nat, nat), IngestError>) {
    match ReadPack(t, input)
    case Err(error) => (st, Err(error))
    case Ok((entries, data)) =>
      match IndexAll(t, st.objects, entries, data, |st.segments|)
      case Err(error) => (st, Err(error))
      case Ok(objects) =>
        (Store(st.segments + [Segment(t.hash(t.unzip(input).value), data)], objects), Ok((|st.segments|, |entries|)))
  }

  function Run(t: Tools, st: Store, inputs: seq<bytes>): Store
    decreases |inputs|
  {
    if inputs == [] then st else Ingest(t, Run(t, st, inputs[..|inputs| - 1]), inputs[|inputs| - 1]).0
  }

  const EMPTY := Store([], map[])

  function Extract(st: Store, digest: bytes): Result<(bytes, string), ReadError> {
    if digest !in st.objects then Err(ObjectNotFound)
    else
      var info := st.objects[digest];
      if info.segment >= |st.segments| then Err(SegmentNotFound)
      else
        var blob := st.segments[info.segment].blob;
        var end := ToInt64(info.offset + info.length);
        if end > |blob| then Err(BeyondSegment)
        else if !(0 <= info.offset <= end) then Err(SlicePanic)
        else Ok((blob[info.offset..end], info.kind))
  }

  // -------------------------------------------------------------- invariants

  ghost predicate Points(t: Tools, segments: seq<Segment>, digest: bytes, info: Info) {
    && info.segment < |segments|
    && 0 <= info.offset && 0 <= info.length && info.offset + info.length <= |segments[info.segment].blob| <= MAX_INT
    && t.hash(segments[info.segment].blob[info.offset..info.offset + info.length]) == digest
  }

  /** Every indexed digest is the hash of its slice. */
  ghost predicate Sound(t: Tools, st: Store) {
    forall d :: d in st.objects ==> Points(t, st.segments, d, st.objects[d])
  }

  lemma SoundIsReadable(t: Tools, st: Store, d: bytes)
    requires Sound(t, st) && d in st.objects
    ensures var info := st.objects[d];
            Extract(st, d) == Ok((st.segments[info.segment].blob[info.offset..info.offset + info.length], info.kind))
    ensures t.hash(Extract(st, d).value.0) == d
  {
    assert Points(t, st.segments, d, st.objects[d]);
  }

  lemma NoFaultPoints(t: Tools, segments: seq<Segment>, e: PackEntry, last: Segment)
    requires Fault(t, e, last.blob) == None && |last.blob| <= MAX_INT
    ensures Points(t, segments + [last], e.digest, Info(|segments|, e.offset, e.length, e.kind))
  {
    assert ToInt64(e.offset + e.length) == e.offset + e.length;
  }

  lemma {:induction false} IndexAllPoints(t: Tools, segments: seq<Segment>, last: Segment, objects: map<bytes, Info>, entries: seq<PackEntry>)
    requires |last.blob| <= MAX_INT
    requires forall d :: d in objects ==> Points(t, segments + [last], d, objects[d])
    requires IndexAll(t, objects, entries, last.blob, |segments|).Ok?
    ensures var next := IndexAll(t, objects, entries, last.blob, |segments|).value;
            && (forall d :: d in next ==> Points(t, segments + [last], d, next[d]))
            && (forall d :: d in objects ==> d in next && next[d] == objects[d])
    decreases |entries|
  {
    hide Points, Fault;
    if entries != [] {
      NoFaultPoints(t, segments, entries[0], last);
      IndexAllPoints(t, segments, last, InsertObject(objects, entries[0], |segments|), entries[1..]);
    }
  }

  lemma PointsStays(t: Tools, segments: seq<Segment>, last: Segment, d: bytes, info: Info)
    requires Points(t, segments, d, info)
    ensures Points(t, segments + [last], d, info)
  {
  }

  /** No input is longer than a Go slice can be. */
  ghost predicate FitsMemory(t: Tools, input: bytes) {
    t.unzip(input).Some? ==> |t.unzip(input).value| <= MAX_INT
  }

  /** Ingesting anything keeps every digest the hash of its slice; what could
      be read before reads the same, and a failure changes nothing. */
  lemma IngestKeepsSound(t: Tools, st: Store, input: bytes)
    requires Sound(t, st) && FitsMemory(t, input)
    ensures var (next, r) := Ingest(t, st, input);
            && Sound(t, next)
            && (r.Err? ==> next == st)
            && forall d :: d in st.objects ==> d in next.objects && Extract(next, d) == Extract(st, d)
  {
    hide Points, IndexAll, ToInt64;
    var (next, r) := Ingest(t, st, input);
    if r.Ok? {
      var (entries, data) := ReadPack(t, input).value;
      var last := Segment(t.hash(t.unzip(input).value), data);
      forall d | d in st.objects ensures Points(t, st.segments + [last], d, st.objects[d]) {
        PointsStays(t, st.segments, last, d, st.objects[d]);
      }
      IndexAllPoints(t, st.segments, last, st.objects, entries);
      forall d | d in st.objects ensures d in next.objects && Extract(next, d) == Extract(st, d) {
        SameSlice(t, st, next, d);
      }
    }
  }

  lemma SameSlice(t: Tools, st: Store, next: Store, d: bytes)
    requires d in st.objects && d in next.objects && next.objects[d] == st.objects[d]
    requires Points(t, st.segments, d, st.objects[d]) && st.segments <= next.segments
    ensures Extract(next, d) == Extract(st, d)
  {
  }

  /** Over any run: sound, and nothing readable is ever lost or changed. */
  lemma {:induction false} RunKeepsSound(t: Tools, st: Store, inputs: seq<bytes>)
    requires Sound(t, st) && forall i :: 0 <= i < |inputs| ==> FitsMemory(t, inputs[i])
    ensures Sound(t, Run(t, st, inputs))
    ensures forall d :: d in st.objects ==> d in Run(t, st, inputs).objects && Extract(Run(t, st, inputs), d) == Extract(st, d)
    decreases |inputs|
  {
    hide Sound, Extract, Ingest, FitsMemory;
    if inputs != [] {
      var n := |inputs| - 1;
      RunKeepsSound(t, st, inputs[..n]);
      IngestKeepsSound(t, Run(t, st, inputs[..n]), inputs[n]);
    }
  }

  // ------------------------------------------------------------------- packs

  /** Header lines for objects whose contents follow each other from start. */
  function EntriesOf(objects: seq<PackObject>, start: nat): seq<PackEntry>
    requires start + |DataOf(objects)| <= MAX_INT
  {
    if objects == [] then []
    else
      var o := objects[0];
      [PackEntry(o.digest, o.kind, start, |o.content|)] + EntriesOf(objects[1..], start + |o.content|)
  }

  function DataOf(objects: seq<PackObject>): bytes {
    if objects == [] then [] else objects[0].content + DataOf(objects[1..])
  }

  function HeaderOf(t: Tools, objects: seq<PackObject>): bytes
    requires |DataOf(objects)| <= MAX_INT
  {
    t.encode(EntriesOf(objects, 0))
  }

  function RawPack(t: Tools, objects: seq<PackObject>): bytes
    requires |DataOf(objects)| <= MAX_INT
  {
    PutUint32(|HeaderOf(t, objects)|) + HeaderOf(t, objects) + DataOf(objects)
  }

  method BuildPack(t: Tools, objects: seq<PackObject>) returns (pack: bytes)
    requires |DataOf(objects)| <= MAX_INT
    ensures pack == t.zip(RawPack(t, objects))
  {
    hide EntriesOf, DataOf, PutUint32;
    var entries: seq<PackEntry>, data: bytes := [], [];
    ghost var rest := objects;
    for i := 0 to |objects|
      invariant rest == objects[i..]
      invariant data + DataOf(rest) == DataOf(objects)
      invariant entries + EntriesOf(rest, |data|) == EntriesOf(objects, 0)
    {
      var o := objects[i];
      PackOneMore(objects, rest, entries, data);
      entries := entries + [PackEntry(o.digest, o.kind, |data|, |o.content|)];
      data := data + o.content;
      assert objects[i..][1..] == objects[i + 1..];
      rest := rest[1..];
    }
    NothingToPack(|data|);
    var header := t.encode(entries);
    assert rest == [];
    assert data + [] == data && entries + [] == entries;
    pack := t.zip(PutUint32(|header|) + header + data);
  }

  lemma PackOneMore(objects: seq<PackObject>, rest: seq<PackObject>, entries: seq<PackEntry>, data: bytes)
    requires rest != [] && data + DataOf(rest) == DataOf(objects) && |DataOf(objects)| <= MAX_INT
    requires entries + EntriesOf(rest, |data|) == EntriesOf(objects, 0)
    ensures var o := rest[0];
            && |data| + |o.content| <= MAX_INT
            && data + o.content + DataOf(rest[1..]) == DataOf(objects)
            && entries + [PackEntry(o.digest, o.kind, |data|, |o.content|)] + EntriesOf(rest[1..], |data + o.content|) == EntriesOf(objects, 0)
  {
    hide EntriesOf, DataOf;
    var o := rest[0];
    PackStep(rest, |data|);
    Regroup(data, o.content, DataOf(rest[1..]));
    var entry := PackEntry(o.digest, o.kind, |data|, |o.content|);
    Regroup(entries, [entry], EntriesOf(rest[1..], |data + o.content|));
  }

  lemma PackStep(objects: seq<PackObject>, start: nat)
    requires objects != [] && start + |DataOf(objects)| <= MAX_INT
    ensures var o := objects[0];
            && DataOf(objects) == o.content + DataOf(objects[1..])
            && EntriesOf(objects, start) == [PackEntry(o.digest, o.kind, start, |o.content|)] + EntriesOf(objects[1..], start + |o.content|)
  {
  }

  lemma Regroup<T>(a: seq<T>, b: seq<T>, c: seq<T>)
    ensures a + (b + c) == a + b + c
  {
  }

  lemma NothingToPack(start: nat)
    requires start <= MAX_INT
    ensures DataOf([]) == [] && EntriesOf([], start) == []
  {
  }

  /** Every object's digest is its content's hash. */
  ghost predicate CorrectDigests(t: Tools, objects: seq<PackObject>) {
    forall o :: o in objects ==> t.hash(o.content) == o.digest
  }

  /** The first object of a digest decides. */
  function FirstOf(objects: seq<PackObject>, digest: bytes): Option<PackObject> {
    if objects == [] then None
    else if objects[0].digest == digest then Some(objects[0])
    else FirstOf(objects[1..], digest)
  }

  lemma ReadBuiltPack(t: Tools, objects: seq<PackObject>)
    requires Lawful(t) && |DataOf(objects)| <= MAX_INT && |HeaderOf(t, objects)| < 0x1_0000_0000
    ensures ReadPack(t, t.zip(RawPack(t, objects))) ==
              if |HeaderOf(t, objects)| > MAX_HEADER_SIZE then Err(HeaderTooLarge)
              else Ok((EntriesOf(objects, 0), DataOf(objects)))
  {
    hide EntriesOf, DataOf, Uint32, PutUint32;
    var header, raw := HeaderOf(t, objects), RawPack(t, objects);
    var n := |header|;
    Uint32RoundTrip(n);
    assert raw[..4] == PutUint32(n);
    assert raw[4..4 + n] == header;
    assert raw[4 + n..] == DataOf(objects);
    assert t.unzip(t.zip(raw)) == Some(raw);
    assert t.decode(header) == Some(EntriesOf(objects, 0));
  }

  lemma BuiltEntryFault(t: Tools, o: PackObject, before: bytes, after: bytes)
    requires |before + o.content + after| <= MAX_INT
    ensures Fault(t, PackEntry(o.digest, o.kind, |before|, |o.content|), before + o.content + after) ==
              if t.hash(o.content) == o.digest then None else Some(DigestMismatch)
  {
    var all := before + o.content + after;
    assert all[|before|..|before| + |o.content|] == o.content;
  }

  /** Where the index of a built pack points. */
  ghost predicate PointsTo(objects: seq<PackObject>, data: bytes, segment: nat, digest: bytes, info: Info) {
    var first := FirstOf(objects, digest);
    && first.Some? && info.segment == segment && info.kind == first.value.kind
    && 0 <= info.offset && 0 <= info.length && info.offset + info.length <= |data|
    && data[info.offset..info.offset + info.length] == first.value.content
  }

  lemma {:induction false} IndexBuiltPack(t: Tools, was: map<bytes, Info>, objects: seq<PackObject>, before: bytes, data: bytes, segment: nat)
    requires data == before + DataOf(objects) && |data| <= MAX_INT
    ensures var r := IndexAll(t, was, EntriesOf(objects, |before|), data, segment);
            && (r.Ok? <==> CorrectDigests(t, objects))
            && (r.Ok? ==> forall d ::
                  (d in was ==> d in r.value && r.value[d] == was[d]) &&
                  (d in r.value && d !in was ==> PointsTo(objects, data, segment, d, r.value[d])) &&
                  (FirstOf(objects, d).Some? ==> d in r.value))
    decreases |objects|
  {
    hide Fault;
    if objects != [] {
      var o := objects[0];
      var after := DataOf(objects[1..]);
      assert data == before + o.content + after;
      BuiltEntryFault(t, o, before, after);
      var entry := EntriesOf(objects, |before|)[0];
      assert EntriesOf(objects, |before|)[1..] == EntriesOf(objects[1..], |before + o.content|);
      if t.hash(o.content) == o.digest {
        var next := InsertObject(was, entry, segment);
        IndexBuiltPack(t, next, objects[1..], before + o.content, data, segment);
        assert data[|before|..|before| + |o.content|] == o.content;
        assert CorrectDigests(t, objects) <==> CorrectDigests(t, objects[1..]) by {
          assert forall x :: x in objects <==> x == o || x in objects[1..];
        }
      }
    }
  }

  ghost predicate ReadsAs(st: Store, next: Store, objects: seq<PackObject>, digest: bytes) {
    var first := FirstOf(objects, digest);
    && first.Some?
    && Extract(next, digest) == if digest in st.objects then Extract(st, digest) else Ok((first.value.content, first.value.kind))
  }

  /** Ingesting a pack that BuildPack made goes through exactly when its header
      is at most 10MB and the digests are right.  Then every object can be read:
      one indexed before reads as before, any other as the first object with its
      digest. */
  lemma BuiltPackIngests(t: Tools, st: Store, objects: seq<PackObject>)
    requires Lawful(t) && Sound(t, st)
    requires |DataOf(objects)| <= MAX_INT && |RawPack(t, objects)| <= MAX_INT && |HeaderOf(t, objects)| < 0x1_0000_0000
    ensures var (next, r) := Ingest(t, st, t.zip(RawPack(t, objects)));
            && (r.Ok? <==> |HeaderOf(t, objects)| <= MAX_HEADER_SIZE && CorrectDigests(t, objects))
            && (r.Ok? ==>
                  && r.value == (|st.segments|, |EntriesOf(objects, 0)|)
                  && forall o :: o in objects ==> ReadsAs(st, next, objects, o.digest))
  {
    hide Points, IndexAll, EntriesOf, DataOf, PutUint32, Fault;
    var input := t.zip(RawPack(t, objects));
    ReadBuiltPack(t, objects);
    assert t.unzip(input) == Some(RawPack(t, objects));
    IngestKeepsSound(t, st, input);
    if |HeaderOf(t, objects)| <= MAX_HEADER_SIZE {
      assert DataOf(objects) == [] + DataOf(objects);
      IndexBuiltPack(t, st.objects, objects, [], DataOf(objects), |st.segments|);
      var (next, r) := Ingest(t, st, input);
      if r.Ok? {
        forall o | o in objects ensures ReadsAs(st, next, objects, o.digest) {
          HasFirst(objects, o);
          SoundIsReadable(t, next, o.digest);
        }
      }
    }
  }

  lemma {:induction false} HasFirst(objects: seq<PackObject>, o: PackObject)
    requires o in objects
    ensures FirstOf(objects, o.digest).Some?
    decreases |objects|
  {
    if objects[0] != o { HasFirst(objects[1..], o); }
  }

  /** What is read under an ingested object's digest is its content, or a
      different text with the same hash. */
  lemma ReadsContentOrCollision(t: Tools, st: Store, objects: seq<PackObject>, o: PackObject)
    requires Lawful(t) && Sound(t, st) && o in objects
    requires |DataOf(objects)| <= MAX_INT && |RawPack(t, objects)| <= MAX_INT && |HeaderOf(t, objects)| <= MAX_HEADER_SIZE
    requires CorrectDigests(t, objects)
    ensures var r := Extract(Ingest(t, st, t.zip(RawPack(t, objects))).0, o.digest);
            r.Ok? && (r.value.0 == o.content || t.hash(r.value.0) == t.hash(o.content))
  {
    hide RawPack, Points, Ingest, Extract;
    BuiltPackIngests(t, st, objects);
    UnzipsTo(t, RawPack(t, objects));
    IngestKeepsSound(t, st, t.zip(RawPack(t, objects)));
    var next := Ingest(t, st, t.zip(RawPack(t, objects))).0;
    assert ReadsAs(st, next, objects, o.digest);
    if o.digest in st.objects {
      SoundIsReadable(t, st, o.digest);
    } else {
      FirstHasDigest(objects, o.digest);
    }
  }

  lemma UnzipsTo(t: Tools, raw: bytes)
    requires Lawful(t)
    ensures t.unzip(t.zip(raw)) == Some(raw)
  {
  }

  lemma {:induction false} FirstHasDigest(objects: seq<PackObject>, digest: bytes)
    requires FirstOf(objects, digest).Some?
    ensures FirstOf(objects, digest).value in objects && FirstOf(objects, digest).value.digest == digest
    decreases |objects|
  {
    if objects[0].digest != digest { FirstHasDigest(objects[1..], digest); }
  }

  // --------------------------------------------------------------- the store

  class SegmentDb {
    const tools: Tools
    var segments: seq<Segment>
    var objects: map<bytes, Info>

    constructor (tools: Tools)
      ensures this.tools == tools && State() == EMPTY
    {
      this.tools, segments, objects := tools, [], map[];
    }

    function State(): Store
      reads this
    {
      Store(segments, objects)
    }

    /** Index the lines one by one, as far as the first bad one. */
    /** One header line against the data. */
    method Check(obj: PackEntry, data: bytes) returns (fault: Option<IngestError>)
      ensures fault == Fault(tools, obj, data)
    {
      var end := ToInt64(obj.offset + obj.length);
      if end > |data| {
        return Some(if |obj.digest| < 8 then Panic else BeyondData);
      }
      if !(0 <= obj.offset <= end) {
        return Some(Panic);
      }
      var content := data[obj.offset..end];
      return if tools.hash(content) != obj.digest then Some(DigestMismatch) else None;
    }

    method IndexObjects(entries: seq<PackEntry>, data: bytes, segment: nat) returns (fault: Option<IngestError>)
      modifies `objects
      ensures match IndexAll(tools, old(objects), entries, data, segment)
              case Err(error) => fault == Some(error)
              case Ok(next) => fault == None && objects == next
    {
      hide Fault;
      ghost var rest := entries;
      for i := 0 to |entries|
        invariant rest == entries[i..]
        invariant IndexAll(tools, objects, rest, data, segment) == IndexAll(tools, old(objects), entries, data, segment)
      {
        var obj := entries[i];
        fault := Check(obj, data);
        if fault.Some? { return; }
        if obj.digest !in objects {
          objects := objects[obj.digest := Info(segment, obj.offset, obj.length, obj.kind)];
        }
        assert entries[i..][1..] == entries[i + 1..];
        rest := rest[1..];
      }
      return None;
    }

    /** The segment and its index, or nothing. */
    method IngestSegment(input: bytes) returns (r: Result<(nat, nat), IngestError>)
      modifies this
      ensures (State(), r) == Ingest(tools, old(State()), input)
    {
      hide IndexAll;
      var raw := tools.unzip(input);
      if raw.None? { return Err(BadStream); }
      var stream := raw.value;
      if |stream| < HEADER_LENGTH_SIZE { return Err(ShortPack); }
      var headerLen := Uint32(stream[..HEADER_LENGTH_SIZE]);
      if headerLen > MAX_HEADER_SIZE { return Err(HeaderTooLarge); }
      if |stream| < HEADER_LENGTH_SIZE + headerLen { return Err(ShortPack); }
      var header := tools.decode(stream[HEADER_LENGTH_SIZE..HEADER_LENGTH_SIZE + headerLen]);
      if header.None? { return Err(BadHeader); }
      var objectBytes := stream[HEADER_LENGTH_SIZE + headerLen..];
      var savedSegments, savedObjects := segments, objects;
      var segment := |segments|;
      segments := segments + [Segment(tools.hash(stream), objectBytes)];
      var fault := IndexObjects(header.value, objectBytes, segment);
      if fault.Some? {
        segments, objects := savedSegments, savedObjects;
        return Err(fault.value);
      }
      return Ok((segment, |header.value|));
    }

    method ExtractObject(digest: bytes) returns (r: Result<(bytes, string), ReadError>)
      ensures r == Extract(State(), digest)
    {
      if digest !in objects { return Err(ObjectNotFound); }
      var info := objects[digest];
      if info.segment >= |segments| { return Err(SegmentNotFound); }
      var blob := segments[info.segment].blob;
      var end := ToInt64(info.offset + info.length);
      if end > |blob| { return Err(BeyondSegment); }
      if !(0 <= info.offset <= end) { return Err(SlicePanic); }
      return Ok((blob[info.offset..end], info.kind));
    }
  }
}
