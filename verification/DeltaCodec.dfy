/** Greedy delta generation, and what applying a generated delta gives back. */
module DeltaCodec {
  import opened Prelude
  import opened DeltaFormat
  import opened DeltaIndexing

  const MAX_INSERT: nat := 127

  // -------------------------------------------------------------- encoding

  function InsertBytes(data: bytes): bytes {
    if data == [] then []
    else
      var n := if |data| > MAX_INSERT then MAX_INSERT else |data|;
      [n] + data[..n] + InsertBytes(data[n..])
  }

  method EncodeInsert(data: bytes) returns (result: bytes)
    ensures result == InsertBytes(data)
  {
    result := [];
    var rest := data;
    while |rest| > 0
      invariant result + InsertBytes(rest) == InsertBytes(data)
    {
      var n := |rest|;
      if n > MAX_INSERT { n := MAX_INSERT; }
      ghost var chunk := [n] + rest[..n];
      assert result + (chunk + InsertBytes(rest[n..])) == (result + chunk) + InsertBytes(rest[n..]);
      result := result + ([n] + rest[..n]);
      rest := rest[n..];
    }
  }

  function OpBytes(op: Op): bytes {
    match op
    case Copy(offset, size) => CopyBytes(offset, size)
    case Insert(data) => InsertBytes(data)
  }

  function ScriptBytes(ops: seq<Op>): bytes {
    if ops == [] then [] else OpBytes(ops[0]) + ScriptBytes(ops[1..])
  }

  lemma {:induction false} ScriptBytesConcat(a: seq<Op>, b: seq<Op>)
    ensures ScriptBytes(a + b) == ScriptBytes(a) + ScriptBytes(b)
  {
    if a == [] {
      assert a + b == b;
    } else {
      assert (a + b)[1..] == a[1..] + b;
      ScriptBytesConcat(a[1..], b);
    }
  }

  // ------------------------------------------------------------ generation

  function Flush(pending: bytes): seq<Op> {
    if pending == [] then [] else [Insert(pending)]
  }

  datatype Turn = Turn(emitted: seq<Op>, tgtOff: nat, pending: bytes)

  /** One turn at tgtOff with pending literals buffered: a copy flushes the
      buffer first, a literal joins it, and a full buffer is flushed. */
  function TakeTurn(src: bytes, tgt: bytes, tgtOff: nat, pending: bytes): (t: Turn)
    requires tgtOff < |tgt|
    ensures tgtOff < t.tgtOff <= |tgt|
  {
    var m := BestMatch(src, tgt, tgtOff);
    BestMatchIsBest(src, tgt, tgtOff);
    if m.len >= MIN_MATCH then
      Turn(Flush(pending) + [Copy(m.srcOff, m.len)], tgtOff + m.len, [])
    else
      var more := pending + [tgt[tgtOff]];
      if |more| == MAX_INSERT then Turn(Flush(more), tgtOff + 1, [])
      else Turn([], tgtOff + 1, more)
  }

  /** The instructions chosen from tgtOff on. */
  function Plan(src: bytes, tgt: bytes, tgtOff: nat, pending: bytes): seq<Op>
    requires tgtOff <= |tgt|
    decreases |tgt| - tgtOff
  {
    if tgtOff == |tgt| then Flush(pending)
    else
      var t := TakeTurn(src, tgt, tgtOff, pending);
      t.emitted + Plan(src, tgt, t.tgtOff, t.pending)
  }

  function Script(src: bytes, tgt: bytes): seq<Op> { Plan(src, tgt, 0, []) }

  function DeltaBytes(src: bytes, tgt: bytes): bytes {
    SizeBytes(|src|) + (SizeBytes(|tgt|) + ScriptBytes(Script(src, tgt)))
  }

  /** The sizes for which the generator does not even try. */
  predicate NotWorthwhile(src: bytes, tgt: bytes) {
    || |tgt| < 16
    || (|src| > 0 && |tgt| < |src| / 16)
    || |src| < BLOCK
  }

  function Delta(src: bytes, tgt: bytes): Option<bytes> {
    if NotWorthwhile(src, tgt) then None
    else if |DeltaBytes(src, tgt)| + 20 >= |tgt| then None
    else Some(DeltaBytes(src, tgt))
  }

  lemma DeltaParts(src: bytes, tgt: bytes)
    ensures DeltaBytes(src, tgt) == SizeBytes(|src|) + SizeBytes(|tgt|) + ScriptBytes(Script(src, tgt))
  {
  }

  lemma DeltaProducedIff(src: bytes, tgt: bytes)
    ensures Delta(src, tgt).Some? <==> |tgt| >= 16 && |src| / 16 <= |tgt| && |src| >= 16 && |DeltaBytes(src, tgt)| + 20 < |tgt|
    ensures Delta(src, tgt).Some? ==> Delta(src, tgt).value == DeltaBytes(src, tgt)
  {
  }

  /** A delta is produced exactly when the target has sixteen bytes or more and is
      at least a sixteenth of the source, the source has a block, and the delta
      with a base's name is shorter than the target. */
  method GenerateDelta(src: bytes, tgt: bytes) returns (r: Option<bytes>)
    ensures r == Delta(src, tgt)
    ensures r.Some? <==> |tgt| >= 16 && |src| / 16 <= |tgt| && |src| >= 16 && |DeltaBytes(src, tgt)| + 20 < |tgt|
  {
    hide DeltaBytes, Script, ScriptBytes, SizeBytes, Delta;
    DeltaProducedIff(src, tgt);
    if |tgt| < 16 { return None; }
    if |src| > 0 && |tgt| < |src| / 16 { return None; }
    var idx := new DeltaIndex(src);
    if idx.table == null { return None; }
    var srcSize := EncodeSize(|src|);
    var tgtSize := EncodeSize(|tgt|);
    var delta := srcSize + tgtSize;
    var script := GenerateScript(idx, tgt);
    delta := delta + script;
    DeltaParts(src, tgt);
    if |delta| + 20 >= |tgt| { return None; }
    return Some(delta);
  }

  /** The generator's main loop. */
  method GenerateScript(idx: DeltaIndex, tgt: bytes) returns (delta: bytes)
    requires idx.Valid()
    ensures delta == ScriptBytes(Script(idx.src, tgt))
  {
    var src := idx.src;
    delta := [];
    assert ScriptBytes([]) == [];
    hide TakeTurn, ScriptBytes;
    var insertBuf: bytes, tgtOff := [], 0;
    ghost var done: seq<Op> := [];
    ghost var plan := Script(src, tgt);
    assert done + plan == plan;
    while tgtOff < |tgt|
      invariant tgtOff <= |tgt| && |insertBuf| < MAX_INSERT
      invariant delta == ScriptBytes(done)
      invariant done + Plan(src, tgt, tgtOff, insertBuf) == plan
      decreases |tgt| - tgtOff
    {
      ghost var turn := TakeTurn(src, tgt, tgtOff, insertBuf);
      assert done + (turn.emitted + Plan(src, tgt, turn.tgtOff, turn.pending))
          == done + turn.emitted + Plan(src, tgt, turn.tgtOff, turn.pending);
      delta, tgtOff, insertBuf := GenerateTurn(idx, tgt, tgtOff, insertBuf, delta, done);
      done := done + turn.emitted;
    }
    delta := EmitInsert(delta, insertBuf, done);
  }

  /** The body of that loop. */
  method GenerateTurn(idx: DeltaIndex, tgt: bytes, tgtOff: nat, insertBuf: bytes, delta: bytes, ghost done: seq<Op>)
    returns (delta': bytes, tgtOff': nat, insertBuf': bytes)
    requires idx.Valid() && tgtOff < |tgt| && |insertBuf| < MAX_INSERT
    requires delta == ScriptBytes(done)
    ensures var turn := TakeTurn(idx.src, tgt, tgtOff, insertBuf);
            tgtOff' == turn.tgtOff && insertBuf' == turn.pending && delta' == ScriptBytes(done + turn.emitted)
    ensures |insertBuf'| < MAX_INSERT
  {
    hide BestMatch, Longest, ScriptBytes;
    BestMatchIsBest(idx.src, tgt, tgtOff);
    var m := idx.FindMatch(tgt, tgtOff);
    if m.len >= MIN_MATCH {
      delta' := EmitInsert(delta, insertBuf, done);
      delta' := EmitCopy(delta', m.srcOff, m.len, done + Flush(insertBuf));
      assert done + Flush(insertBuf) + [Copy(m.srcOff, m.len)] == done + (Flush(insertBuf) + [Copy(m.srcOff, m.len)]);
      insertBuf' := [];
      tgtOff' := tgtOff + m.len;
    } else {
      delta' := delta;
      insertBuf' := insertBuf + [tgt[tgtOff]];
      tgtOff' := tgtOff + 1;
      if |insertBuf'| == MAX_INSERT {
        delta' := EmitInsert(delta, insertBuf', done);
        insertBuf' := [];
      } else {
        assert done + [] == done;
      }
    }
  }

  /** Where nothing matches there is no delta: the literals alone are as long as
      the target. */
  lemma NoMatchNoDelta(src: bytes, tgt: bytes)
    requires forall off: nat :: off < |tgt| ==> BestMatch(src, tgt, off) == NO_MATCH
    ensures Delta(src, tgt) == None
  {
    LiteralsAreLong(src, tgt, 0, []);
  }

  lemma {:induction false} LiteralsAreLong(src: bytes, tgt: bytes, tgtOff: nat, pending: bytes)
    requires tgtOff <= |tgt| && forall off: nat :: off < |tgt| ==> BestMatch(src, tgt, off) == NO_MATCH
    ensures |ScriptBytes(Plan(src, tgt, tgtOff, pending))| >= |pending| + |tgt| - tgtOff
    decreases |tgt| - tgtOff
  {
    hide ScriptBytes;
    if tgtOff == |tgt| {
      FlushIsLong(pending);
    } else {
      var t := TakeTurn(src, tgt, tgtOff, pending);
      LiteralsAreLong(src, tgt, t.tgtOff, t.pending);
      ScriptBytesConcat(t.emitted, Plan(src, tgt, t.tgtOff, t.pending));
      FlushIsLong(pending + [tgt[tgtOff]]);
      FlushIsLong([]);
    }
  }

  lemma FlushIsLong(pending: bytes)
    ensures |ScriptBytes(Flush(pending))| >= |pending|
    ensures Flush([]) == []
  {
    if pending != [] {
      InsertIsLong(pending);
      assert [Insert(pending)][1..] == [];
    }
  }

  lemma {:induction false} InsertIsLong(data: bytes)
    ensures |InsertBytes(data)| >= |data|
  {
    if data != [] { InsertIsLong(data[if |data| > MAX_INSERT then MAX_INSERT else |data|..]); }
  }

  /** Flushes the literals buffered so far, if any. */
  method EmitInsert(delta: bytes, insertBuf: bytes, ghost done: seq<Op>) returns (r: bytes)
    requires delta == ScriptBytes(done)
    ensures r == ScriptBytes(done + Flush(insertBuf))
  {
    r := delta;
    if |insertBuf| > 0 {
      var insert := EncodeInsert(insertBuf);
      r := r + insert;
      EmitOne(done, Insert(insertBuf));
    } else {
      assert done + [] == done;
    }
  }

  method EmitCopy(delta: bytes, srcOff: nat, len: nat, ghost done: seq<Op>) returns (r: bytes)
    requires delta == ScriptBytes(done)
    ensures r == ScriptBytes(done + [Copy(srcOff, len)])
  {
    var copy := EncodeCopy(srcOff, len);
    EmitOne(done, Copy(srcOff, len));
    r := delta + copy;
  }

  lemma EmitOne(done: seq<Op>, op: Op)
    ensures ScriptBytes(done + [op]) == ScriptBytes(done) + OpBytes(op)
  {
    ScriptBytesConcat(done, [op]);
    assert ScriptBytes([op]) == OpBytes(op) + ScriptBytes([]);
  }

  // ------------------------------------------------- what a script writes

  ghost predicate ScriptInRange(base: bytes, ops: seq<Op>) {
    forall op :: op in ops ==> InRange(base, op) && (op.Copy? ==> op.size > 0)
  }

  function Written(base: bytes, ops: seq<Op>): bytes
    requires ScriptInRange(base, ops)
  {
    if ops == [] then [] else Meaning(base, ops[0]) + Written(base, ops[1..])
  }

  lemma {:induction false} WrittenConcat(base: bytes, a: seq<Op>, b: seq<Op>)
    requires ScriptInRange(base, a) && ScriptInRange(base, b)
    ensures ScriptInRange(base, a + b)
    ensures Written(base, a + b) == Written(base, a) + Written(base, b)
  {
    if a == [] {
      assert a + b == b;
    } else {
      assert (a + b)[1..] == a[1..] + b;
      WrittenConcat(base, a[1..], b);
    }
  }

  lemma WrittenOne(base: bytes, op: Op)
    requires ScriptInRange(base, [op])
    ensures Written(base, [op]) == Meaning(base, op)
  {
    assert Written(base, [op]) == Meaning(base, op) + Written(base, []);
  }

  /** A turn accounts for what it consumes: the literals pending afterwards are
      always the tail of the target consumed so far. */
  lemma TurnWrites(src: bytes, tgt: bytes, tgtOff: nat, pending: bytes)
    requires tgtOff < |tgt|
    ensures var t := TakeTurn(src, tgt, tgtOff, pending);
            ScriptInRange(src, t.emitted)
            && Written(src, t.emitted) + t.pending == pending + tgt[tgtOff..t.tgtOff]
  {
    hide BestMatch, Written, ScriptInRange, Flush;
    var m := BestMatch(src, tgt, tgtOff);
    BestMatchIsBest(src, tgt, tgtOff);
    NothingWritten(src);
    if m.len >= MIN_MATCH {
      CopyWrites(src, tgt, tgtOff, pending, m);
    } else {
      var more := pending + [tgt[tgtOff]];
      WrittenFlush(src, more);
      assert tgt[tgtOff..tgtOff + 1] == [tgt[tgtOff]];
      assert more + [] == more && [] + more == more;
    }
  }

  lemma CopyWrites(src: bytes, tgt: bytes, tgtOff: nat, pending: bytes, m: Match)
    requires m.len > 0 && 0 <= m.srcOff && m.srcOff + m.len <= |src| && tgtOff + m.len <= |tgt|
    requires src[m.srcOff..m.srcOff + m.len] == tgt[tgtOff..tgtOff + m.len]
    ensures var out := Flush(pending) + [Copy(m.srcOff, m.len)];
            ScriptInRange(src, out) && Written(src, out) + [] == pending + tgt[tgtOff..tgtOff + m.len]
  {
    hide Written, Flush;
    WrittenFlush(src, pending);
    WrittenOne(src, Copy(m.srcOff, m.len));
    WrittenConcat(src, Flush(pending), [Copy(m.srcOff, m.len)]);
  }

  lemma NothingWritten(src: bytes)
    ensures ScriptInRange(src, []) && Written(src, []) == []
  {
  }

  lemma WrittenFlush(src: bytes, pending: bytes)
    ensures ScriptInRange(src, Flush(pending)) && Written(src, Flush(pending)) == pending
  {
    if pending != [] { WrittenOne(src, Insert(pending)); }
  }

  /** The plan spells out the target. */
  lemma {:induction false} PlanWritesTarget(src: bytes, tgt: bytes, tgtOff: nat, pending: bytes)
    requires tgtOff <= |tgt|
    ensures ScriptInRange(src, Plan(src, tgt, tgtOff, pending))
    ensures Written(src, Plan(src, tgt, tgtOff, pending)) == pending + tgt[tgtOff..]
    decreases |tgt| - tgtOff
  {
    if tgtOff == |tgt| {
      WrittenFlush(src, pending);
    } else {
      var t := TakeTurn(src, tgt, tgtOff, pending);
      TurnWrites(src, tgt, tgtOff, pending);
      PlanWritesTarget(src, tgt, t.tgtOff, t.pending);
      var rest := Plan(src, tgt, t.tgtOff, t.pending);
      WrittenConcat(src, t.emitted, rest);
      Rejoin(Written(src, t.emitted), t.pending, pending, tgt, tgtOff, t.tgtOff);
    }
  }

  lemma Rejoin(out: bytes, pending': bytes, pending: bytes, tgt: bytes, i: nat, j: nat)
    requires i <= j <= |tgt| && out + pending' == pending + tgt[i..j]
    ensures out + (pending' + tgt[j..]) == pending + tgt[i..]
  {
    assert tgt[i..j] + tgt[j..] == tgt[i..];
    assert out + (pending' + tgt[j..]) == (out + pending') + tgt[j..];
  }

  lemma ScriptWritesTarget(src: bytes, tgt: bytes)
    ensures ScriptInRange(src, Script(src, tgt)) && Written(src, Script(src, tgt)) == tgt
  {
    PlanWritesTarget(src, tgt, 0, []);
    assert [] + tgt[0..] == tgt;
  }

  // ------------------------------------------------------------ round trip

  /** What the decoder reads back for an instruction: a copy keeps the low four
      bytes of its offset and the low three of its size. */
  function Decoded(op: Op): Op {
    match op
    case Copy(offset, size) =>
      Copy(offset % 0x1_0000_0000, if size % 0x100_0000 == 0 then 0x1_0000 else size % 0x100_0000)
    case Insert(data) => op
  }

  function DecodedScript(ops: seq<Op>): seq<Op> {
    seq(|ops|, i requires 0 <= i < |ops| => Decoded(ops[i]))
  }

  lemma DecodedInRange(base: bytes, ops: seq<Op>)
    requires ScriptInRange(base, ops)
    ensures ScriptInRange(base, DecodedScript(ops))
  {
    forall op | op in ops ensures InRange(base, Decoded(op)) && (op.Copy? ==> Decoded(op).size > 0) {
      assert InRange(base, op);
    }
  }

  /** Inserts come back as they were. */
  lemma {:induction false} RunInsert(base: bytes, data: bytes, rest: bytes)
    ensures Run(base, InsertBytes(data) + rest) == After(data, Run(base, rest))
  {
    if data == [] {
      assert [] + rest == rest;
      AfterNothing(Run(base, rest));
    } else {
      var n := if |data| > MAX_INSERT then MAX_INSERT else |data|;
      var tail := InsertBytes(data[n..]) + rest;
      var s := InsertBytes(data) + rest;
      assert s == [n] + data[..n] + tail;
      assert s[1..1 + n] == data[..n] && s[1 + n..] == tail;
      RunInsert(base, data[n..], rest);
      AfterAfter(data[..n], data[n..], Run(base, rest));
      assert data[..n] + data[n..] == data;
    }
  }

  /** Copies come back decoded. */
  lemma RunCopy(base: bytes, copy: Op, rest: bytes)
    requires copy.Copy? && InRange(base, copy) && copy.size > 0
    ensures InRange(base, Decoded(copy))
    ensures Run(base, OpBytes(copy) + rest) == After(Meaning(base, Decoded(copy)), Run(base, rest))
  {
    StepCopy(base, copy, rest);
    hide Step, OpBytes, Meaning, Decoded;
  }

  lemma StepCopy(base: bytes, copy: Op, rest: bytes)
    requires copy.Copy? && InRange(base, copy) && copy.size > 0
    ensures InRange(base, Decoded(copy)) && OpBytes(copy) != []
    ensures Step(base, OpBytes(copy) + rest) == Ok((Meaning(base, Decoded(copy)), rest))
  {
    hide ReadCopy, OpBytes, Decoded;
    DecodedCopyInRange(base, copy);
    CopyIsDecoded(copy, rest);
  }

  lemma DecodedCopyInRange(base: bytes, copy: Op)
    requires copy.Copy? && InRange(base, copy) && copy.size > 0
    ensures Decoded(copy).Copy? && InRange(base, Decoded(copy))
  {
  }

  lemma CopyIsDecoded(copy: Op, rest: bytes)
    requires copy.Copy?
    ensures var s, d := OpBytes(copy) + rest, Decoded(copy);
            d.Copy? && OpBytes(copy) != [] && s[0] >= 128 && ReadCopy(s[0], s[1..]) == Some((d.offset, d.size, rest))
  {
    hide ReadCopy, CopyBytes;
    CopyRoundTrip(copy.offset, copy.size, rest);
    CopyHasCommand(copy.offset, copy.size);
  }

  lemma CopyHasCommand(offset: nat, size: nat)
    ensures CopyBytes(offset, size) != []
  {
  }

  /** Good instructions are carried out, then the rest is read. */
  lemma {:induction false} RunThen(base: bytes, ops: seq<Op>, rest: bytes)
    requires ScriptInRange(base, ops)
    ensures ScriptInRange(base, DecodedScript(ops))
    ensures Run(base, ScriptBytes(ops) + rest) == After(Written(base, DecodedScript(ops)), Run(base, rest))
  {
    hide OpBytes, Decoded, Step, InRange;
    DecodedInRange(base, ops);
    if ops == [] {
      assert ScriptBytes(ops) + rest == rest && DecodedScript(ops) == [];
      NothingWritten(base);
      AfterNothing(Run(base, rest));
    } else {
      var later := ScriptBytes(ops[1..]) + rest;
      assert ScriptBytes(ops) + rest == OpBytes(ops[0]) + later;
      RunThen(base, ops[1..], rest);
      RunOne(base, ops[0], later);
      assert DecodedScript(ops)[1..] == DecodedScript(ops[1..]);
      AfterAfter(Meaning(base, Decoded(ops[0])), Written(base, DecodedScript(ops[1..])), Run(base, rest));
    }
  }

  lemma RunOne(base: bytes, op: Op, rest: bytes)
    requires InRange(base, op) && (op.Copy? ==> op.size > 0)
    ensures InRange(base, Decoded(op))
    ensures Run(base, OpBytes(op) + rest) == After(Meaning(base, Decoded(op)), Run(base, rest))
  {
    hide Run;
    match op
    case Copy(_, _) => RunCopy(base, op, rest);
    case Insert(data) => RunInsert(base, data, rest);
  }

  /** Running an encoded script is running the script the decoder sees. */
  lemma RunScript(base: bytes, ops: seq<Op>)
    requires ScriptInRange(base, ops)
    ensures ScriptInRange(base, DecodedScript(ops))
    ensures Run(base, ScriptBytes(ops)) == Ok(Written(base, DecodedScript(ops)))
  {
    RunThen(base, ops, []);
    assert ScriptBytes(ops) + [] == ScriptBytes(ops);
    assert Written(base, DecodedScript(ops)) + [] == Written(base, DecodedScript(ops));
  }

  /** The decoder gives a copy its intended bytes. */
  ghost predicate Survives(base: bytes, op: Op)
    requires InRange(base, op) && (op.Copy? ==> op.size > 0)
  {
    op.Copy? ==> op.size < 0x100_0000 && Meaning(base, Decoded(op)) == Meaning(base, op)
  }

  ghost predicate AllSurvive(base: bytes, ops: seq<Op>)
    requires ScriptInRange(base, ops)
  {
    forall op :: op in ops ==> Survives(base, op)
  }

  lemma AllSurviveSplit(base: bytes, ops: seq<Op>)
    requires ScriptInRange(base, ops) && ops != []
    ensures AllSurvive(base, ops) <==> Survives(base, ops[0]) && AllSurvive(base, ops[1..])
  {
    assert forall op :: op in ops <==> op == ops[0] || op in ops[1..];
  }

  /** Decoding never lengthens what an instruction writes, so the whole is
      preserved only if every part is. */
  lemma {:induction false} DecodedScriptWrites(base: bytes, ops: seq<Op>)
    requires ScriptInRange(base, ops)
    ensures ScriptInRange(base, DecodedScript(ops))
    ensures |Written(base, DecodedScript(ops))| <= |Written(base, ops)|
    ensures Written(base, DecodedScript(ops)) == Written(base, ops) <==> AllSurvive(base, ops)
  {
    DecodedInRange(base, ops);
    if ops != [] {
      DecodedScriptWrites(base, ops[1..]);
      assert DecodedScript(ops)[1..] == DecodedScript(ops[1..]);
      DecodedWrites(base, ops[0]);
      AllSurviveSplit(base, ops);
      SplitEqual(Meaning(base, Decoded(ops[0])), Written(base, DecodedScript(ops[1..])),
                 Meaning(base, ops[0]), Written(base, ops[1..]));
    }
  }

  lemma DecodedWrites(base: bytes, op: Op)
    requires InRange(base, op) && (op.Copy? ==> op.size > 0)
    ensures InRange(base, Decoded(op))
    ensures |Meaning(base, Decoded(op))| <= |Meaning(base, op)|
    ensures Meaning(base, Decoded(op)) == Meaning(base, op) <==> Survives(base, op)
  {
    if op.Copy? {
      assert |Meaning(base, op)| == op.size && |Meaning(base, Decoded(op))| == Decoded(op).size;
    }
  }

  lemma SplitEqual(a': bytes, b': bytes, a: bytes, b: bytes)
    requires |a'| <= |a| && |b'| <= |b|
    ensures a' + b' == a + b <==> a' == a && b' == b
  {
    if a' + b' == a + b {
      assert |a' + b'| == |a + b|;
      assert a == (a + b)[..|a|] && a' == (a' + b')[..|a'|];
      assert b == (a + b)[|a|..] && b' == (a' + b')[|a'|..];
    }
  }

  /** After good instructions, a copy that leaves the source and an insert that is
      cut short are refused. */
  lemma BadInstructionIsRefused(base: bytes, ops: seq<Op>, offset: nat, size: nat, n: byte, data: bytes, rest: bytes)
    requires ScriptInRange(base, ops)
    ensures offset < 0x1_0000_0000 && 0 < size < 0x100_0000 && offset + size > |base| ==>
              Run(base, ScriptBytes(ops) + (CopyBytes(offset, size) + rest)) == Err(CopyPastBase)
    ensures |data| < n as int < 128 ==> Run(base, ScriptBytes(ops) + ([n] + data)) == Err(InsertPastDelta)
  {
    hide Run, ScriptBytes, CopyBytes, Written, DecodedScript;
    RunThen(base, ops, CopyBytes(offset, size) + rest);
    RunThen(base, ops, [n] + data);
    CopyLeavesBase(base, offset, size, rest);
    InsertIsCut(base, n, data);
  }

  lemma CopyLeavesBase(base: bytes, offset: nat, size: nat, rest: bytes)
    ensures offset < 0x1_0000_0000 && 0 < size < 0x100_0000 && offset + size > |base| ==>
              Run(base, CopyBytes(offset, size) + rest) == Err(CopyPastBase)
  {
    hide ReadCopy, CopyBytes;
    CopyRoundTrip(offset, size, rest);
    CopyHasCommand(offset, size);
  }

  lemma InsertIsCut(base: bytes, n: byte, data: bytes)
    ensures |data| < n as int < 128 ==> Run(base, [n] + data) == Err(InsertPastDelta)
  {
  }

  /** A generated delta is refused by a base of another size. */
  lemma WrongBaseIsRefused(src: bytes, tgt: bytes, base: bytes)
    requires |src| <= MAX_INT && Delta(src, tgt).Some? && |base| != |src|
    ensures Apply(base, Delta(src, tgt).value) == Err(BaseSizeMismatch)
  {
    hide Script, ScriptBytes, Run;
    var rest := SizeBytes(|tgt|) + ScriptBytes(Script(src, tgt));
    DeltaParts(src, tgt);
    assert DeltaBytes(src, tgt) == SizeBytes(|src|) + rest;
    SizeRoundTrip(|src|, rest);
    SizeNotEmpty(|src|);
    SizeNotEmpty(|tgt|);
  }

  lemma SizeNotEmpty(n: nat)
    ensures SizeBytes(n) != []
  {
  }

  lemma ApplyHeader(src: bytes, tgt: bytes, script: bytes)
    requires |src| <= MAX_INT && |tgt| <= MAX_INT
    ensures Apply(src, SizeBytes(|src|) + (SizeBytes(|tgt|) + script)) == Run(src, script)
  {
    SizeRoundTrip(|src|, SizeBytes(|tgt|) + script);
    SizeRoundTrip(|tgt|, script);
    assert |SizeBytes(|src|) + (SizeBytes(|tgt|) + script)| >= |SizeBytes(|src|)| + |SizeBytes(|tgt|)|;
  }

  /** The delta round trip, exactly: a generated delta always applies without
      error, and gives the target back just when every copy survives. */
  lemma DeltaRoundTripExactly(src: bytes, tgt: bytes)
    requires |src| <= MAX_INT && |tgt| <= MAX_INT
    requires Delta(src, tgt).Some?
    ensures ScriptInRange(src, Script(src, tgt))
    ensures Apply(src, Delta(src, tgt).value).Ok?
    ensures Apply(src, Delta(src, tgt).value) == Ok(tgt)
            <==> AllSurvive(src, Script(src, tgt))
  {
    var plan := Script(src, tgt);
    ScriptWritesTarget(src, tgt);
    ApplyHeader(src, tgt, ScriptBytes(plan));
    RunScript(src, plan);
    DecodedScriptWrites(src, plan);
  }

  /** For a source whose offsets fit four bytes: the delta restores the target if
      and only if no copy instruction is as long as 2^24 bytes. */
  lemma RestoresIffCopiesAreShort(src: bytes, tgt: bytes)
    requires |src| <= 0x1_0000_0000 && |tgt| <= MAX_INT
    requires Delta(src, tgt).Some?
    ensures Apply(src, Delta(src, tgt).value) == Ok(tgt)
            <==> forall op :: op in Script(src, tgt) && op.Copy? ==> op.size < 0x100_0000
  {
    hide Survives, Delta, Apply, Script;
    var plan := Script(src, tgt);
    DeltaRoundTripExactly(src, tgt);
    forall op | op in plan ensures Survives(src, op) <==> (op.Copy? ==> op.size < 0x100_0000) {
      NearCopySurvives(src, op);
    }
  }

  lemma NearCopySurvives(base: bytes, op: Op)
    requires InRange(base, op) && (op.Copy? ==> op.size > 0) && |base| <= 0x1_0000_0000
    ensures Survives(base, op) <==> (op.Copy? ==> op.size < 0x100_0000)
  {
  }

  /** The bound a caller can check beforehand: offsets fit four bytes, and no
      match can need more than three bytes of size. */
  lemma DeltaRoundTrip(src: bytes, tgt: bytes)
    requires |src| <= 0x1_0000_0000 && |tgt| <= MAX_INT
    requires |src| < 0x100_0000 || |tgt| < 0x100_0000
    requires Delta(src, tgt).Some?
    ensures Apply(src, Delta(src, tgt).value) == Ok(tgt)
  {
    var plan := Script(src, tgt);
    DeltaRoundTripExactly(src, tgt);
    ScriptWritesTarget(src, tgt);
    forall op | op in plan ensures Survives(src, op) {
      PartOfWritten(src, plan, op);
      SmallCopySurvives(src, op);
    }
  }

  lemma SmallCopySurvives(base: bytes, op: Op)
    requires InRange(base, op)
    requires op.Copy? ==> op.offset < 0x1_0000_0000 && 0 < op.size < 0x100_0000
    ensures Survives(base, op)
  {
  }

  lemma {:induction false} PartOfWritten(base: bytes, ops: seq<Op>, op: Op)
    requires ScriptInRange(base, ops) && op in ops
    ensures |Meaning(base, op)| <= |Written(base, ops)|
  {
    if op != ops[0] { PartOfWritten(base, ops[1..], op); }
  }
}
