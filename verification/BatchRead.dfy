/** Reading objects one at a time and in batches, with an external copy of the
    segments that may fail on any call. */
module BatchRead {
  import opened Hex
  import opened Prelude
  import opened SegmentStore

  datatype ObjectContent = ObjectContent(data: bytes, kind: string)

  /** The external copy: call number n is answered when answers(n), unless it
      asks for what is not stored.  An answer is what was stored; of a range that
      runs past the end, what is left. */
  class BlobStore {
    const isExternal: bool
    const answers: nat -> bool
    var calls: nat

    constructor (isExternal: bool, answers: nat -> bool)
      ensures this.isExternal == isExternal && this.answers == answers && calls == 0
    {
      this.isExternal, this.answers, calls := isExternal, answers, 0;
    }

    method GetRange(st: Store, segment: nat, offset: int64, length: int64) returns (r: Option<bytes>)
      requires 0 <= offset <= offset + length
      modifies this
      ensures r == if answers(old(calls)) && StartsIn(st, segment, offset) then Some(Range(st, segment, offset, length)) else None
    {
      r := if answers(calls) && StartsIn(st, segment, offset) then Some(Range(st, segment, offset, length)) else None;
      calls := calls + 1;
    }

    method Get(st: Store, segment: nat) returns (r: Option<bytes>)
      modifies this
      ensures r == if answers(old(calls)) && segment < |st.segments| then Some(st.segments[segment].blob) else None
    {
      r := if answers(calls) && segment < |st.segments| then Some(st.segments[segment].blob) else None;
      calls := calls + 1;
    }
  }

  predicate InSegment(st: Store, segment: nat, offset: int64, length: int64) {
    segment < |st.segments| && offset + length <= |st.segments[segment].blob|
  }

  predicate StartsIn(st: Store, segment: nat, offset: int64) {
    segment < |st.segments| && offset < |st.segments[segment].blob|
  }

  function Range(st: Store, segment: nat, offset: int64, length: int64): bytes
    requires StartsIn(st, segment, offset) && 0 <= offset <= offset + length
  {
    var blob := st.segments[segment].blob;
    if offset + length <= |blob| then blob[offset..offset + length] else blob[offset..]
  }

  /** The digest's row starts in its segment and runs past its end. */
  ghost predicate Spills(st: Store, d: bytes) {
    d in st.objects
    && var info := st.objects[d];
       0 <= info.offset && StartsIn(st, info.segment, info.offset) && !InSegment(st, info.segment, info.offset, info.length)
  }

  /** What a read can come to: the specified extraction, or of a row that spills
      what is left of its segment. */
  ghost predicate MayRead(st: Store, d: bytes, r: Result<(bytes, string), ReadError>) {
    || r == Extract(st, d)
    || (Spills(st, d) && var info := st.objects[d]; r == Ok((st.segments[info.segment].blob[info.offset..], info.kind)))
  }

  /** The reads of a digest come to the specified extraction alone if and only if
      its row does not spill. */
  lemma OneReadIffNoSpill(st: Store, d: bytes)
    requires RowsFit(st)
    ensures (forall r :: MayRead(st, d, r) ==> r == Extract(st, d)) <==> !Spills(st, d)
  {
    if Spills(st, d) {
      var info := st.objects[d];
      assert Extract(st, d) == Err(BeyondSegment);
      assert MayRead(st, d, Ok((st.segments[info.segment].blob[info.offset..], info.kind)));
    }
  }

  /** Every row has a range of its own size; it may lie beyond its segment, and
      the segment may be missing. */
  ghost predicate RowsFit(st: Store) {
    forall d :: d in st.objects ==>
      var info := st.objects[d];
      0 <= info.offset && 0 <= info.length && info.offset + info.length <= MAX_INT
  }

  /** What ingestion leaves is such an index, and no row of it spills. */
  lemma SoundRowsFit(t: Tools, st: Store)
    requires Sound(t, st)
    ensures RowsFit(st) && forall d :: !Spills(st, d)
  {
    forall d ensures !Spills(st, d) {
      if d in st.objects { assert Points(t, st.segments, d, st.objects[d]); }
    }
    forall d | d in st.objects
      ensures var info := st.objects[d]; 0 <= info.offset && 0 <= info.length && info.offset + info.length <= MAX_INT
    {
      assert Points(t, st.segments, d, st.objects[d]);
    }
  }

  /** The external copy when it answers with something, else the inline blob. */
  method GetSegmentBlobByID(st: Store, segment: nat, blobs: BlobStore) returns (r: Result<bytes, ReadError>)
    modifies blobs
    ensures r == if segment < |st.segments| then Ok(st.segments[segment].blob) else Err(SegmentNotFound)
  {
    if blobs.isExternal {
      var data := blobs.Get(st, segment);
      if data.Some? && |data.value| > 0 { return Ok(data.value); }
    }
    if segment >= |st.segments| { return Err(SegmentNotFound); }
    return Ok(st.segments[segment].blob);
  }

  /** Whatever the external copy does, the stored object is returned; only of a
      row that spills it may be what is left. */
  method ExtractObject(st: Store, digest: bytes, blobs: BlobStore) returns (r: Result<(bytes, string), ReadError>)
    requires RowsFit(st)
    modifies blobs
    ensures MayRead(st, digest, r)
  {
    if digest !in st.objects { return Err(ObjectNotFound); }
    var info := st.objects[digest];
    if blobs.isExternal {
      var content := blobs.GetRange(st, info.segment, info.offset, info.length);
      if content.Some? && |content.value| > 0 { return Ok((content.value, info.kind)); }
    }
    var blob := GetSegmentBlobByID(st, info.segment, blobs);
    if blob.Err? { return Err(blob.error); }
    if ToInt64(info.offset + info.length) > |blob.value| { return Err(BeyondSegment); }
    return Ok((blob.value[info.offset..info.offset + info.length], info.kind));
  }

  // ------------------------------------------------------------------- batch

  datatype ObjectRef = ObjectRef(digest: bytes, offset: int64, length: int64, kind: string)

  /** The reference is the index row of its digest, in that segment. */
  ghost predicate Listed(st: Store, segment: nat, ref: ObjectRef) {
    ref.digest in st.objects && st.objects[ref.digest] == Info(segment, ref.offset, ref.length, ref.kind)
  }

  ghost predicate Grouped(st: Store, groups: map<nat, seq<ObjectRef>>, digests: set<bytes>) {
    && (forall s, ref :: s in groups && ref in groups[s] ==> ref.digest in digests && Listed(st, s, ref))
    && (forall d :: d in digests && d in st.objects ==>
          st.objects[d].segment in groups && exists ref :: ref in groups[st.objects[d].segment] && ref.digest == d)
  }

  /** What the query returns, by segment. */
  method GroupBySegment(st: Store, digests: set<bytes>) returns (groups: map<nat, seq<ObjectRef>>)
    ensures Grouped(st, groups, digests)
  {
    groups := map[];
    var left := digests;
    while left != {}
      invariant left <= digests && Grouped(st, groups, digests - left)
      decreases |left|
    {
      var d :| d in left;
      if d in st.objects {
        GroupOneMore(st, groups, digests - left, d);
        var info := st.objects[d];
        var refs := if info.segment in groups then groups[info.segment] else [];
        groups := groups[info.segment := refs + [ObjectRef(d, info.offset, info.length, info.kind)]];
      }
      assert digests - left + {d} == digests - (left - {d});
      left := left - {d};
    }
    assert digests - left == digests;
  }

  lemma GroupOneMore(st: Store, groups: map<nat, seq<ObjectRef>>, digests: set<bytes>, d: bytes)
    requires Grouped(st, groups, digests) && d in st.objects
    ensures var info := st.objects[d];
            var refs := if info.segment in groups then groups[info.segment] else [];
            Grouped(st, groups[info.segment := refs + [ObjectRef(d, info.offset, info.length, info.kind)]], digests + {d})
  {
    var info := st.objects[d];
    var refs := if info.segment in groups then groups[info.segment] else [];
    var more := refs + [ObjectRef(d, info.offset, info.length, info.kind)];
    var groups': map<nat, seq<ObjectRef>> := groups[info.segment := more];
    forall e | e in digests + {d} && e in st.objects
      ensures st.objects[e].segment in groups' && exists ref :: ref in groups'[st.objects[e].segment] && ref.digest == e
    {
      if e == d {
        assert ObjectRef(d, info.offset, info.length, info.kind) in more;
      } else {
        var ref :| ref in groups[st.objects[e].segment] && ref.digest == e;
        assert ref in groups'[st.objects[e].segment];
      }
    }
  }

  /** The entry under the digest's name is a result of the single read. */
  ghost predicate Serves(st: Store, result: map<string, ObjectContent>, d: bytes) {
    && HexEncode(d) in result
    && MayRead(st, d, Ok((result[HexEncode(d)].data, result[HexEncode(d)].kind)))
  }

  /** From before to after, only entries of these digests were written, rightly. */
  ghost predicate Filled(st: Store, before: map<string, ObjectContent>, after: map<string, ObjectContent>, refs: seq<ObjectRef>) {
    && before.Keys <= after.Keys
    && forall k :: k in after && (k in before ==> after[k] != before[k]) ==>
         exists ref :: ref in refs && k == HexEncode(ref.digest) && Serves(st, after, ref.digest)
  }

  lemma FilledOneMore(st: Store, before: map<string, ObjectContent>, now: map<string, ObjectContent>, refs: seq<ObjectRef>,
                      ref: ObjectRef, content: ObjectContent)
    requires Filled(st, before, now, refs) && ref in refs
    requires MayRead(st, ref.digest, Ok((content.data, content.kind)))
    ensures var next := now[HexEncode(ref.digest) := content];
            && Filled(st, before, next, refs) && Serves(st, next, ref.digest)
            && forall d :: Serves(st, now, d) ==> Serves(st, next, d)
  {
    hide HexEncode, MayRead;
    var next := now[HexEncode(ref.digest) := content];
    forall d | Serves(st, now, d) ensures Serves(st, next, d) {
      if HexEncode(d) == HexEncode(ref.digest) { HexInjective(d, ref.digest); }
    }
    forall k | k in next && (k in before ==> next[k] != before[k])
      ensures exists r :: r in refs && k == HexEncode(r.digest) && Serves(st, next, r.digest)
    {
      if k != HexEncode(ref.digest) {
        var r :| r in refs && k == HexEncode(r.digest) && Serves(st, now, r.digest);
      }
    }
  }

  /** What a listed row reads as. */
  lemma RowReads(st: Store, segment: nat, ref: ObjectRef)
    requires RowsFit(st) && Listed(st, segment, ref)
    ensures 0 <= ref.offset <= ref.offset + ref.length <= MAX_INT && ToInt64(ref.offset + ref.length) == ref.offset + ref.length
    ensures Extract(st, ref.digest) ==
              if InSegment(st, segment, ref.offset, ref.length)
              then Ok((st.segments[segment].blob[ref.offset..ref.offset + ref.length], ref.kind))
              else if segment >= |st.segments| then Err(SegmentNotFound)
              else Err(BeyondSegment)
    ensures MayRead(st, ref.digest, Extract(st, ref.digest))
    ensures StartsIn(st, segment, ref.offset) ==> MayRead(st, ref.digest, Ok((Range(st, segment, ref.offset, ref.length), ref.kind)))
  {
  }

  /** Object by object from the external copy, until one read fails. */
  method ReadExternal(st: Store, segment: nat, refs: seq<ObjectRef>, result: map<string, ObjectContent>, blobs: BlobStore)
    returns (more: map<string, ObjectContent>, allOk: bool)
    requires RowsFit(st) && forall ref :: ref in refs ==> Listed(st, segment, ref)
    modifies blobs
    ensures Filled(st, result, more, refs)
    ensures allOk ==> forall ref :: ref in refs ==> Serves(st, more, ref.digest)
  {
    hide HexEncode, Extract, MayRead, Filled, RowsFit;
    more := result;
    NothingFilled(st, result, refs);
    for i := 0 to |refs|
      invariant Filled(st, result, more, refs)
      invariant forall k :: 0 <= k < i ==> Serves(st, more, refs[k].digest)
    {
      var ref := refs[i];
      RowReads(st, segment, ref);
      var data := blobs.GetRange(st, segment, ref.offset, ref.length);
      if data.None? || |data.value| == 0 { return more, false; }
      var content := ObjectContent(data.value, ref.kind);
      FilledOneMore(st, result, more, refs, ref, content);
      more := more[HexEncode(ref.digest) := content];
    }
    return more, true;
  }

  lemma NothingFilled(st: Store, result: map<string, ObjectContent>, refs: seq<ObjectRef>)
    ensures Filled(st, result, result, refs)
  {
  }

  /** All of a segment's objects from its whole blob, but for rows beyond it. */
  method ReadInline(st: Store, segment: nat, refs: seq<ObjectRef>, blob: bytes, result: map<string, ObjectContent>)
    returns (more: map<string, ObjectContent>)
    requires RowsFit(st) && forall ref :: ref in refs ==> Listed(st, segment, ref)
    requires segment < |st.segments| && blob == st.segments[segment].blob
    ensures Filled(st, result, more, refs)
    ensures forall ref :: ref in refs && Extract(st, ref.digest).Ok? ==> Serves(st, more, ref.digest)
  {
    hide HexEncode, Extract, MayRead, Filled, RowsFit;
    more := result;
    NothingFilled(st, result, refs);
    for i := 0 to |refs|
      invariant Filled(st, result, more, refs)
      invariant forall k :: 0 <= k < i && Extract(st, refs[k].digest).Ok? ==> Serves(st, more, refs[k].digest)
    {
      var ref := refs[i];
      RowReads(st, segment, ref);
      if ToInt64(ref.offset + ref.length) <= |blob| {
        var content := ObjectContent(blob[ref.offset..ref.offset + ref.length], ref.kind);
        FilledOneMore(st, result, more, refs, ref, content);
        more := more[HexEncode(ref.digest) := content];
      }
    }
  }

  method ReadSegment(st: Store, segment: nat, refs: seq<ObjectRef>, result: map<string, ObjectContent>, blobs: BlobStore)
    returns (more: map<string, ObjectContent>)
    requires RowsFit(st) && forall ref :: ref in refs ==> Listed(st, segment, ref)
    modifies blobs
    ensures Filled(st, result, more, refs)
    ensures forall ref :: ref in refs && Extract(st, ref.digest).Ok? ==> Serves(st, more, ref.digest)
  {
    hide Filled, Serves, Extract, RowsFit;
    more := result;
    NothingFilled(st, result, refs);
    if blobs.isExternal {
      var allOk;
      more, allOk := ReadExternal(st, segment, refs, result, blobs);
      if allOk { return; }
    }
    var blob := GetSegmentBlobByID(st, segment, blobs);
    if blob.Err? {
      forall ref | ref in refs ensures Extract(st, ref.digest).Err? { RowReads(st, segment, ref); }
      return;
    }
    var now := more;
    more := ReadInline(st, segment, refs, blob.value, now);
    FilledTwice(st, result, now, more, refs);
  }

  lemma FilledTwice(st: Store, a: map<string, ObjectContent>, b: map<string, ObjectContent>, c: map<string, ObjectContent>, refs: seq<ObjectRef>)
    requires Filled(st, a, b, refs) && Filled(st, b, c, refs)
    ensures Filled(st, a, c, refs)
  {
    hide HexEncode, MayRead;
    forall k | k in c && (k in a ==> c[k] != a[k])
      ensures exists r :: r in refs && k == HexEncode(r.digest) && Serves(st, c, r.digest)
    {
      if k in b && c[k] == b[k] {
        var r :| r in refs && k == HexEncode(r.digest) && Serves(st, b, r.digest);
      }
    }
  }

  /** The batch has an entry for the requested digests that extraction finds, and
      every entry is a result of the single read of a requested digest. */
  ghost predicate Agrees(st: Store, digests: set<bytes>, result: map<string, ObjectContent>) {
    && (forall d :: d in digests && Extract(st, d).Ok? ==> Serves(st, result, d))
    && (forall k :: k in result ==> exists d :: d in digests && k == HexEncode(d) && Serves(st, result, d))
  }

  /** The batch has an entry for exactly the requested digests that extraction
      finds, with the same bytes and kind. */
  ghost predicate AgreesExactly(st: Store, digests: set<bytes>, result: map<string, ObjectContent>) {
    && (forall d :: d in digests && Extract(st, d).Ok? ==>
          HexEncode(d) in result && Extract(st, d) == Ok((result[HexEncode(d)].data, result[HexEncode(d)].kind)))
    && (forall k :: k in result ==> exists d :: d in digests && Extract(st, d).Ok? && k == HexEncode(d))
  }

  lemma NoSpillAgrees(st: Store, digests: set<bytes>, result: map<string, ObjectContent>)
    requires Agrees(st, digests, result) && forall d :: d in digests ==> !Spills(st, d)
    ensures AgreesExactly(st, digests, result)
  {
    hide HexEncode, Extract, Spills;
    forall k | k in result ensures exists d :: d in digests && Extract(st, d).Ok? && k == HexEncode(d) {
      var d :| d in digests && k == HexEncode(d) && Serves(st, result, d);
    }
  }

  lemma AgreesMore(st: Store, done: set<bytes>, before: map<string, ObjectContent>, after: map<string, ObjectContent>,
                   refs: seq<ObjectRef>)
    requires Agrees(st, done, before) && Filled(st, before, after, refs)
    requires forall ref :: ref in refs && Extract(st, ref.digest).Ok? ==> Serves(st, after, ref.digest)
    ensures Agrees(st, done + (set ref | ref in refs :: ref.digest), after)
  {
    hide HexEncode, Extract, MayRead;
    var more := done + (set ref | ref in refs :: ref.digest);
    forall d | d in more && Extract(st, d).Ok? ensures Serves(st, after, d) {
      if d in done && after[HexEncode(d)] != before[HexEncode(d)] {
        var r :| r in refs && HexEncode(d) == HexEncode(r.digest) && Serves(st, after, r.digest);
        HexInjective(d, r.digest);
      }
    }
    forall k | k in after ensures exists d :: d in more && k == HexEncode(d) && Serves(st, after, d) {
      if k in before && after[k] == before[k] {
        var d :| d in done && k == HexEncode(d) && Serves(st, before, d);
        assert d in more;
      } else {
        var r :| r in refs && k == HexEncode(r.digest) && Serves(st, after, r.digest);
        assert r.digest in more;
      }
    }
  }

  method BatchGetObjects(st: Store, digests: seq<bytes>, blobs: BlobStore) returns (result: map<string, ObjectContent>)
    requires RowsFit(st)
    modifies blobs
    ensures Agrees(st, (set d | d in digests), result)
    ensures (forall d :: d in digests ==> !Spills(st, d)) ==> AgreesExactly(st, (set d | d in digests), result)
  {
    hide RowsFit, Serves, Filled, Agrees, AgreesExactly, Spills, HexEncode, Extract;
    ghost var all := set d | d in digests;
    result := map[];
    ghost var done: set<bytes> := {};
    NothingAsked(st);
    var wanted := set d | d in digests;
    var groups := GroupBySegment(st, wanted);
    var left := groups.Keys;
    while left != {}
      invariant left <= groups.Keys && Agrees(st, done, result)
      invariant forall s, ref :: s in groups && s !in left && ref in groups[s] ==> ref.digest in done
      invariant done <= all
      decreases |left|
    {
      var segment :| segment in left;
      var refs := groups[segment];
      var more := ReadSegment(st, segment, refs, result, blobs);
      AgreesMore(st, done, result, more, refs);
      result := more;
      done := done + (set ref | ref in refs :: ref.digest);
      left := left - {segment};
    }
    AllAsked(st, all, done, groups, result);
    if forall d :: d in digests ==> !Spills(st, d) { NoSpillAgrees(st, all, result); }
  }

  lemma NothingAsked(st: Store)
    ensures Agrees(st, {}, map[])
  {
  }

  lemma AllAsked(st: Store, all: set<bytes>, done: set<bytes>, groups: map<nat, seq<ObjectRef>>, result: map<string, ObjectContent>)
    requires Grouped(st, groups, all) && done <= all && Agrees(st, done, result)
    requires forall s, ref :: s in groups && ref in groups[s] ==> ref.digest in done
    ensures Agrees(st, all, result)
  {
    hide Serves, HexEncode;
    forall d | d in all && Extract(st, d).Ok? ensures Serves(st, result, d) {
      var ref :| ref in groups[st.objects[d].segment] && ref.digest == d;
    }
  }
}
