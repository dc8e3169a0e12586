/** The delta instruction format: variable-length sizes, copy and insert
    instructions, and the interpreter that applies a delta to its base. */
module DeltaFormat {
  import opened Prelude
  import opened Arithmetic

  // ---------------------------------------------------------------- sizes

  /** Seven bits a byte, least significant group first, high bit set on every
      byte but the last. */
  function SizeBytes(n: nat): (s: bytes)
    ensures s != []
  {
    if n < 128 then [n] else [n % 128 + 128] + SizeBytes(n / 128)
  }

  /** Reads a size off the front of s: its mathematical value and what follows,
      or nothing when s ends inside the size. */
  function ReadSize(s: bytes): Option<(nat, bytes)> {
    if s == [] then None
    else if s[0] < 128 then Some((s[0], s[1..]))
    else
      match ReadSize(s[1..])
      case None => None
      case Some((high, rest)) => Some((s[0] - 128 + 128 * high, rest))
  }

  lemma {:induction false} SizeRoundTrip(n: nat, rest: bytes)
    ensures ReadSize(SizeBytes(n) + rest) == Some((n, rest))
  {
    var s := SizeBytes(n) + rest;
    if n < 128 {
      assert s[1..] == rest;
    } else {
      assert s[1..] == SizeBytes(n / 128) + rest;
      SizeRoundTrip(n / 128, rest);
    }
  }

  method EncodeSize(n: nat) returns (buf: bytes)
    ensures buf == SizeBytes(n)
  {
    hide SizeBytes;
    buf := [];
    var c, size := n % 128, n / 128;
    SizeStep(n);
    assert [] + SizeBytes(n) == SizeBytes(n);
    while size > 0
      invariant 0 <= c < 128 && size >= 0
      invariant buf + (if size == 0 then [c] else [c + 128] + SizeBytes(size)) == SizeBytes(n)
      decreases size
    {
      SizeStep(size);
      assert buf + ([c + 128] + SizeBytes(size)) == buf + [c + 128] + SizeBytes(size);
      buf := buf + [c + 128];
      c, size := size % 128, size / 128;
    }
    buf := buf + [c];
  }

  lemma SizeStep(n: nat)
    ensures SizeBytes(n) == if n / 128 == 0 then [n % 128] else [n % 128 + 128] + SizeBytes(n / 128)
  {
  }

  /** The decoder's loop: an index past the end of data is a run-time panic,
      here None.  The groups shifted in never overlap, so the 64-bit wrap-around
      of the Go code is applied once, to the sum. */
  method DecodeSize(data: bytes, start: nat) returns (r: Option<(int, nat)>)
    requires start <= |data|
    ensures match ReadSize(data[start..])
            case None => r == None
            case Some((n, rest)) => r.Some? && r.value.0 == ToInt64(n)
                                    && start < r.value.1 <= |data| && data[r.value.1..] == rest
  {
    var size: nat, weight: nat, offset: nat := 0, 1, start;
    ghost var whole := ReadSize(data[start..]);
    while true
      invariant start <= offset <= |data|
      invariant whole == Scaled(size, weight, ReadSize(data[offset..]))
      decreases |data| - offset
    {
      if offset == |data| { return None; }
      var b := data[offset];
      ScaledStep(size, weight, data, offset);
      offset := offset + 1;
      size := size + (b as int) % 128 * weight;
      weight := weight * 128;
      if b < 128 { break; }
    }
    return Some((ToInt64(size), offset));
  }

  /** The size read so far plus weight times the size still to be read. */
  ghost function Scaled(size: nat, weight: nat, r: Option<(nat, bytes)>): Option<(nat, bytes)> {
    match r
    case None => None
    case Some((n, rest)) => Some((size + weight * n, rest))
  }

  lemma ScaledStep(size: nat, weight: nat, data: bytes, offset: nat)
    requires offset < |data|
    ensures data[offset] < 128 ==>
      Scaled(size, weight, ReadSize(data[offset..])) == Some((size + data[offset] * weight, data[offset + 1..]))
    ensures data[offset] >= 128 ==>
      Scaled(size, weight, ReadSize(data[offset..]))
      == Scaled(size + data[offset] % 128 * weight, weight * 128, ReadSize(data[offset + 1..]))
  {
    assert data[offset..][1..] == data[offset + 1..];
    match ReadSize(data[offset + 1..])
    case None =>
    case Some((high, rest)) =>
      Distribute(weight, data[offset] as int - 128, high);
  }

  // --------------------------------------------------------- instructions

  datatype Op = Copy(offset: nat, size: nat) | Insert(data: bytes)

  /** What an instruction is meant to append to the result. */
  function Meaning(base: bytes, op: Op): bytes
    requires InRange(base, op)
  {
    match op
    case Copy(offset, size) => base[offset..offset + size]
    case Insert(data) => data
  }

  predicate InRange(base: bytes, op: Op) {
    op.Copy? ==> op.offset + op.size <= |base|
  }

  /** Byte number k of n, least significant first. */
  function ByteAt(n: nat, k: nat): byte
    requires k < 4
  {
    if k == 0 then n % 0x100
    else if k == 1 then n / 0x100 % 0x100
    else if k == 2 then n / 0x1_0000 % 0x100
    else n / 0x100_0000 % 0x100
  }

  /** The seven argument bytes of a copy: four of offset, three of size, where
      size 0x10000 is written as no size bytes at all. */
  function CopyFields(offset: nat, size: nat): bytes {
    var s := if size == 0x1_0000 then 0 else size;
    [ByteAt(offset, 0), ByteAt(offset, 1), ByteAt(offset, 2), ByteAt(offset, 3),
     ByteAt(s, 0), ByteAt(s, 1), ByteAt(s, 2)]
  }

  function FieldsOffset(f: bytes): nat
    requires |f| == 7
  {
    f[0] as int + 0x100 * (f[1] as int) + 0x1_0000 * (f[2] as int) + 0x100_0000 * (f[3] as int)
  }

  function FieldsSize(f: bytes): nat
    requires |f| == 7
  {
    var size := f[4] as int + 0x100 * (f[5] as int) + 0x1_0000 * (f[6] as int);
    if size == 0 then 0x1_0000 else size
  }

  function Present(b: byte): nat { if b != 0 then 1 else 0 }

  /** Bit k says whether field k is written; the bit above the last field is
      set, which is what marks a command byte as a copy. */
  function Mask(fields: bytes): (m: nat)
    ensures Pow2(|fields|) <= m < 2 * Pow2(|fields|)
  {
    if fields == [] then 1 else Present(fields[0]) + 2 * Mask(fields[1..])
  }

  function NonZero(b: byte): bytes { if b != 0 then [b] else [] }

  function Packed(fields: bytes): bytes {
    if fields == [] then [] else NonZero(fields[0]) + Packed(fields[1..])
  }

  /** Reads n fields off the front of s; a field whose mask bit is clear is 0. */
  function Unpack(mask: nat, n: nat, s: bytes): (r: Option<(bytes, bytes)>)
    ensures r.Some? ==> |r.value.0| == n && |r.value.1| <= |s|
  {
    if n == 0 then Some(([], s))
    else if mask % 2 == 1 && s == [] then None
    else
      match Unpack(mask / 2, n - 1, if mask % 2 == 1 then s[1..] else s)
      case None => None
      case Some((fields, rest)) => Some(([if mask % 2 == 1 then s[0] else 0] + fields, rest))
  }

  lemma {:induction false} UnpackPacked(fields: bytes, rest: bytes)
    ensures Unpack(Mask(fields), |fields|, Packed(fields) + rest) == Some((fields, rest))
  {
    hide Unpack, Mask, Packed, NonZero;
    if fields == [] {
      NothingPacked(rest);
    } else {
      UnpackPacked(fields[1..], rest);
      FirstField(fields);
      UnpackFirst(Mask(fields), |fields|, fields[0], Packed(fields[1..]) + rest, fields[1..], rest);
      assert Packed(fields) + rest == NonZero(fields[0]) + (Packed(fields[1..]) + rest);
      assert fields == [fields[0]] + fields[1..];
    }
  }

  lemma FirstField(fields: bytes)
    requires fields != []
    ensures Mask(fields) / 2 == Mask(fields[1..]) && (Mask(fields) % 2 == 1 <==> fields[0] != 0)
    ensures Packed(fields) == NonZero(fields[0]) + Packed(fields[1..])
  {
  }

  lemma NothingPacked(rest: bytes)
    ensures Unpack(Mask([]), 0, Packed([]) + rest) == Some(([], rest))
  {
    assert Packed([]) + rest == rest;
  }

  lemma UnpackFirst(mask: nat, n: nat, b: byte, tail: bytes, fields: bytes, rest: bytes)
    requires n > 0 && (mask % 2 == 1 <==> b != 0) && Unpack(mask / 2, n - 1, tail) == Some((fields, rest))
    ensures Unpack(mask, n, NonZero(b) + tail) == Some(([b] + fields, rest))
  {
    var s := NonZero(b) + tail;
    if b != 0 { assert s[0] == b && s[1..] == tail; } else { assert s == tail; }
  }

  function CopyCommand(offset: nat, size: nat): (cmd: byte)
    ensures cmd >= 128
  {
    assert Pow2(7) == 128 by { assert Pow2(4) == 16; }
    Mask(CopyFields(offset, size))
  }

  function CopyBytes(offset: nat, size: nat): bytes {
    [CopyCommand(offset, size)] + Packed(CopyFields(offset, size))
  }

  function ShiftRight(cmd: nat, k: nat): nat {
    if k == 0 then cmd else ShiftRight(cmd / 2, k - 1)
  }

  lemma {:induction false} ShiftOneMore(cmd: nat, k: nat)
    ensures ShiftRight(cmd, k + 1) == ShiftRight(cmd, k) / 2
  {
    if k > 0 { ShiftOneMore(cmd / 2, k - 1); }
  }

  /** The bit of cmd that says field k is present. */
  predicate HasField(cmd: nat, k: nat) { ShiftRight(cmd, k) % 2 == 1 }

  lemma {:induction false} MaskBits(fields: bytes, k: nat)
    requires k < |fields|
    ensures HasField(Mask(fields), k) <==> fields[k] != 0
  {
    if k > 0 { MaskBits(fields[1..], k - 1); }
  }

  method EncodeCopy(offset: nat, size: nat) returns (buf: bytes)
    ensures buf == CopyBytes(offset, size)
  {
    hide CopyFields, Mask;
    FieldsAre(offset, size);
    ghost var f := CopyFields(offset, size);
    var cmd := CopyFlags(offset, size);
    buf := [cmd];
    buf := AppendField(buf, cmd, offset % 0x100, f, 0);
    buf := AppendField(buf, cmd, offset / 0x100 % 0x100, f, 1);
    buf := AppendField(buf, cmd, offset / 0x1_0000 % 0x100, f, 2);
    buf := AppendField(buf, cmd, offset / 0x100_0000 % 0x100, f, 3);
    buf := AppendField(buf, cmd, size % 0x100, f, 4);
    buf := AppendField(buf, cmd, size / 0x100 % 0x100, f, 5);
    buf := AppendField(buf, cmd, size / 0x1_0000 % 0x100, f, 6);
    assert f[..7] == f;
  }

  lemma FieldsAre(offset: nat, size: nat)
    ensures var f, s := CopyFields(offset, size), if size == 0x1_0000 then 0 else size;
            && |f| == 7
            && f[0] == offset % 0x100 && f[1] == offset / 0x100 % 0x100
            && f[2] == offset / 0x1_0000 % 0x100 && f[3] == offset / 0x100_0000 % 0x100
            && f[4] == s % 0x100 && f[5] == s / 0x100 % 0x100 && f[6] == s / 0x1_0000 % 0x100
  {
  }

  /** The first half of the encoder: the command byte, flag by flag. */
  method CopyFlags(offset: nat, size: nat) returns (cmd: byte)
    ensures cmd == CopyCommand(offset, size)
  {
    hide Mask, CopyFields;
    ghost var f := CopyFields(offset, size);
    FieldsAre(offset, size);
    var flags: nat := 0x80;
    if offset % 0x100 != 0 { flags := flags + 0x01; }
    assert flags == 0x80 + Present(f[0]);
    if offset / 0x100 % 0x100 != 0 { flags := flags + 0x02; }
    if offset / 0x1_0000 % 0x100 != 0 { flags := flags + 0x04; }
    assert flags == 0x80 + Present(f[0]) + 2 * Present(f[1]) + 4 * Present(f[2]);
    if offset / 0x100_0000 % 0x100 != 0 { flags := flags + 0x08; }
    ghost var half := 0x80 + Present(f[0]) + 2 * Present(f[1]) + 4 * Present(f[2]) + 8 * Present(f[3]);
    assert flags == half;
    if size != 0x1_0000 {
      if size % 0x100 != 0 { flags := flags + 0x10; }
      assert flags == half + 16 * Present(f[4]);
      if size / 0x100 % 0x100 != 0 { flags := flags + 0x20; }
      assert flags == half + 16 * Present(f[4]) + 32 * Present(f[5]);
      if size / 0x1_0000 % 0x100 != 0 { flags := flags + 0x40; }
    }
    assert flags == half + 16 * Present(f[4]) + 32 * Present(f[5]) + 64 * Present(f[6]);
    MaskOfSeven(f);
    cmd := flags;
  }

  lemma MaskOfSeven(f: bytes)
    requires |f| == 7
    ensures Mask(f) == 0x80 + Present(f[0]) + 2 * Present(f[1]) + 4 * Present(f[2]) + 8 * Present(f[3])
                       + 16 * Present(f[4]) + 32 * Present(f[5]) + 64 * Present(f[6])
  {
    MaskSplit(f, 6); MaskSplit(f, 5); MaskSplit(f, 4); MaskSplit(f, 3); MaskSplit(f, 2); MaskSplit(f, 1);
  }

  lemma {:induction false} PackedSnoc(f: bytes, b: byte)
    ensures Packed(f + [b]) == Packed(f) + NonZero(b)
  {
    if f == [] {
      assert f + [b] == [b] && Packed([b]) == NonZero(b) + Packed([]);
    } else {
      assert (f + [b])[1..] == f[1..] + [b];
      PackedSnoc(f[1..], b);
    }
  }

  lemma MaskSplit(f: bytes, k: nat)
    requires k < |f|
    ensures Mask(f[k..]) == Present(f[k]) + 2 * Mask(f[k + 1..])
  {
    assert f[k..][1..] == f[k + 1..];
  }

  /** One of the seven conditional appends: byte b, the low byte of field k. */
  method AppendField(buf: bytes, cmd: nat, b: byte, ghost f: bytes, k: nat) returns (r: bytes)
    requires |f| == 7 && k < 7 && cmd == Mask(f)
    requires f[k] != 0 ==> b == f[k]
    requires buf == [cmd] + Packed(f[..k])
    ensures r == [cmd] + Packed(f[..k + 1])
  {
    MaskBits(f, k);
    PackedSnoc(f[..k], f[k]);
    assert f[..k] + [f[k]] == f[..k + 1];
    r := buf;
    if HasField(cmd, k) { r := r + [b]; }
  }

  /** What the decoder makes of the encoding of a copy: the offset loses all but
      four bytes, the size all but three. */
  lemma DecodedFields(offset: nat, size: nat)
    ensures FieldsOffset(CopyFields(offset, size)) == offset % 0x1_0000_0000
    ensures FieldsSize(CopyFields(offset, size)) == if size % 0x100_0000 == 0 then 0x1_0000 else size % 0x100_0000
  {
    BytesOf(offset);
    BytesOf(size);
  }

  lemma BytesOf(n: nat)
    ensures ByteAt(n, 0) as int + 0x100 * (ByteAt(n, 1) as int) + 0x1_0000 * (ByteAt(n, 2) as int) == n % 0x100_0000
    ensures n % 0x100_0000 + 0x100_0000 * (ByteAt(n, 3) as int) == n % 0x1_0000_0000
  {
    var m1 := n / 0x100;
    var m2 := m1 / 0x100;
    var m3 := m2 / 0x100;
    var low2 := n % 0x100 + 0x100 * (m1 % 0x100);
    var low3 := low2 + 0x1_0000 * (m2 % 0x100);
    DivUnique(n, 0x1_0000, m2, low2);
    DivUnique(n, 0x100_0000, m3, low3);
    DivUnique(n, 0x1_0000_0000, m3 / 0x100, low3 + 0x100_0000 * (m3 % 0x100));
  }

  /** The round trip of one copy instruction, and exactly when it holds. */
  lemma CopyRoundTrip(offset: nat, size: nat, rest: bytes)
    ensures var s := CopyBytes(offset, size) + rest;
            && s[0] >= 128
            && ReadCopy(s[0], s[1..]) == Some((offset % 0x1_0000_0000,
                                               if size % 0x100_0000 == 0 then 0x1_0000 else size % 0x100_0000,
                                               rest))
    ensures var s := CopyBytes(offset, size) + rest;
            ReadCopy(s[0], s[1..]) == Some((offset, size, rest))
            <==> offset < 0x1_0000_0000 && 0 < size < 0x100_0000
  {
    CopyReadBack(offset, size, rest);
    CopyFits(offset, size);
  }

  lemma CopyReadBack(offset: nat, size: nat, rest: bytes)
    ensures var s := CopyBytes(offset, size) + rest;
            var f := CopyFields(offset, size);
            s[0] == CopyCommand(offset, size)
            && ReadCopy(s[0], s[1..]) == Some((FieldsOffset(f), FieldsSize(f), rest))
  {
    var f := CopyFields(offset, size);
    assert (CopyBytes(offset, size) + rest)[1..] == Packed(f) + rest;
    UnpackPacked(f, rest);
  }

  lemma CopyFits(offset: nat, size: nat)
    ensures var f := CopyFields(offset, size);
            && FieldsOffset(f) == offset % 0x1_0000_0000
            && FieldsSize(f) == (if size % 0x100_0000 == 0 then 0x1_0000 else size % 0x100_0000)
            && (FieldsOffset(f) == offset && FieldsSize(f) == size
                <==> offset < 0x1_0000_0000 && 0 < size < 0x100_0000)
  {
    DecodedFields(offset, size);
  }

  // ---------------------------------------------------------- interpreter

  datatype DeltaError = TooShort | BaseSizeMismatch | CopyPastBase | InsertPastDelta | Panic

  /** The arguments of the copy command cmd, read off the front of s. */
  function ReadCopy(cmd: byte, s: bytes): (r: Option<(nat, nat, bytes)>)
    ensures r.Some? ==> |r.value.2| <= |s|
  {
    match Unpack(cmd, 7, s)
    case None => None
    case Some((fields, rest)) => Some((FieldsOffset(fields), FieldsSize(fields), rest))
  }

  /** One instruction: what it appends, and what follows it. */
  function Step(base: bytes, s: bytes): (r: Result<(bytes, bytes), DeltaError>)
    requires s != []
    ensures r.Ok? ==> |r.value.1| < |s|
  {
    var cmd := s[0];
    if cmd >= 128 then
      match ReadCopy(cmd, s[1..])
      case None => Err(Panic)
      case Some((offset, size, rest)) =>
        if offset + size > |base| then Err(CopyPastBase) else Ok((base[offset..offset + size], rest))
    else if cmd as int > |s| - 1 then Err(InsertPastDelta)
    else Ok((s[1..1 + cmd as int], s[1 + cmd as int..]))
  }

  /** The instructions in s, run in order up to the first error. */
  function Run(base: bytes, s: bytes): Result<bytes, DeltaError>
    decreases |s|
  {
    if s == [] then Ok([])
    else
      match Step(base, s)
      case Err(e) => Err(e)
      case Ok((out, rest)) => After(out, Run(base, rest))
  }

  function After(done: bytes, r: Result<bytes, DeltaError>): Result<bytes, DeltaError> {
    match r
    case Ok(out) => Ok(done + out)
    case Err(e) => Err(e)
  }

  function Apply(base: bytes, delta: bytes): Result<bytes, DeltaError> {
    if |delta| < 2 then Err(TooShort)
    else
      match ReadSize(delta)
      case None => Err(Panic)
      case Some((baseSize, afterBase)) =>
        if ToInt64(baseSize) != |base| then Err(BaseSizeMismatch)
        else
          match ReadSize(afterBase)
          case None => Err(Panic)
          case Some((resultSize, code)) =>
            if ToInt64(resultSize) < 0 then Err(Panic) else Run(base, code)
  }

  /** Reading past the end of delta, or asking for a result buffer of negative
      capacity, is a run-time panic; a zero command byte does nothing. */
  method ApplyDelta(base: bytes, delta: bytes) returns (r: Result<bytes, DeltaError>)
    ensures r == Apply(base, delta)
  {
    if |delta| < 2 { return Err(TooShort); }
    assert delta[0..] == delta;
    var baseSize := DecodeSize(delta, 0);
    if baseSize.None? { return Err(Panic); }
    if baseSize.value.0 != |base| { return Err(BaseSizeMismatch); }
    var resultSize := DecodeSize(delta, baseSize.value.1);
    if resultSize.None? { return Err(Panic); }
    if resultSize.value.0 < 0 { return Err(Panic); }
    r := RunInstructions(base, delta, resultSize.value.1);
  }

  /** The decoder's main loop. */
  method RunInstructions(base: bytes, delta: bytes, start: nat) returns (r: Result<bytes, DeltaError>)
    requires start <= |delta|
    ensures r == Run(base, delta[start..])
  {
    hide Run, After, Step, ReadCopy;
    var result: bytes, offset := [], start;
    AfterNothing(Run(base, delta[start..]));
    while offset < |delta|
      invariant offset <= |delta|
      invariant Run(base, delta[start..]) == After(result, Run(base, delta[offset..]))
    {
      var cmd := delta[offset];
      var next := offset + 1;
      assert delta[offset..][1..] == delta[next..];
      if cmd >= 128 {
        var args := DecodeCopyArgs(delta, next, cmd);
        CopyStep(base, delta, offset);
        Stuck(base, delta[offset..], result);
        if args.None? { return Err(Panic); }
        var (copyOffset, copySize, afterArgs) := args.value;
        if copyOffset + copySize > |base| { return Err(CopyPastBase); }
        Advance(base, delta, offset, result, base[copyOffset..copyOffset + copySize], afterArgs);
        result := result + base[copyOffset..copyOffset + copySize];
        offset := afterArgs;
      } else if cmd != 0 {
        var insertSize := cmd as int;
        if next + insertSize > |delta| {
          LongInsert(base, delta, offset);
          Stuck(base, delta[offset..], result);
          return Err(InsertPastDelta);
        }
        InsertStep(base, delta, offset);
        Advance(base, delta, offset, result, delta[next..next + insertSize], next + insertSize);
        result := result + delta[next..next + insertSize];
        offset := next + insertSize;
      } else {
        InsertStep(base, delta, offset);
        assert delta[next..next] == [];
        Advance(base, delta, offset, result, [], next);
        assert result + [] == result;
        offset := next;
      }
    }
    assert delta[offset..] == [];
    Finished(base, result);
    return Ok(result);
  }

  lemma Finished(base: bytes, done: bytes)
    ensures After(done, Run(base, [])) == Ok(done)
  {
    assert done + [] == done;
  }

  /** An instruction that fails ends the run. */
  lemma Stuck(base: bytes, s: bytes, done: bytes)
    requires s != []
    ensures Step(base, s).Err? ==> After(done, Run(base, s)) == Err(Step(base, s).error)
  {
  }

  lemma CopyStep(base: bytes, delta: bytes, offset: nat)
    requires offset < |delta| && delta[offset] >= 128
    ensures Step(base, delta[offset..]) ==
              match ReadCopy(delta[offset], delta[offset + 1..])
              case None => Err(Panic)
              case Some((from, size, rest)) => if from + size > |base| then Err(CopyPastBase) else Ok((base[from..from + size], rest))
  {
    assert delta[offset..][1..] == delta[offset + 1..];
  }

  lemma LongInsert(base: bytes, delta: bytes, offset: nat)
    requires offset < |delta| && delta[offset] < 128 && offset + 1 + delta[offset] as int > |delta|
    ensures Step(base, delta[offset..]) == Err(InsertPastDelta)
  {
  }

  lemma InsertStep(base: bytes, delta: bytes, offset: nat)
    requires offset < |delta| && delta[offset] < 128 && offset + 1 + delta[offset] as int <= |delta|
    ensures var next := offset + 1 + delta[offset] as int;
            Step(base, delta[offset..]) == Ok((delta[offset + 1..next], delta[next..]))
  {
    var s, n := delta[offset..], delta[offset] as int;
    assert s[1..1 + n] == delta[offset + 1..offset + 1 + n] && s[1 + n..] == delta[offset + 1 + n..];
  }

  lemma Advance(base: bytes, delta: bytes, offset: nat, done: bytes, out: bytes, next: nat)
    requires offset < next <= |delta|
    requires Step(base, delta[offset..]) == Ok((out, delta[next..]))
    ensures After(done, Run(base, delta[offset..])) == After(done + out, Run(base, delta[next..]))
  {
    AfterAfter(done, out, Run(base, delta[next..]));
  }

  lemma AfterNothing(r: Result<bytes, DeltaError>)
    ensures After([], r) == r
  {
    if r.Ok? { assert [] + r.value == r.value; }
  }

  lemma AfterAfter(a: bytes, b: bytes, r: Result<bytes, DeltaError>)
    ensures After(a, After(b, r)) == After(a + b, r)
  {
    if r.Ok? { assert a + (b + r.value) == (a + b) + r.value; }
  }

  /** Seven conditional byte reads, then the arithmetic on them. */
  method DecodeCopyArgs(delta: bytes, start: nat, cmd: byte) returns (r: Option<(nat, nat, nat)>)
    requires start <= |delta| && cmd >= 128
    ensures match ReadCopy(cmd, delta[start..])
            case None => r == None
            case Some((offset, size, rest)) =>
              r.Some? && r.value.0 == offset && r.value.1 == size
              && r.value.2 <= |delta| && delta[r.value.2..] == rest
  {
    ghost var all := Unpack(cmd, 7, delta[start..]);
    assert ShiftRight(cmd, 0) == cmd as nat && (all.Some? ==> [] + all.value.0 == all.value.0);
    var copyOffset, gotOffset := DecodeOffsetArgs(delta, start, cmd);
    if copyOffset.None? { return None; }
    var copySize, gotAll := DecodeSizeArgs(delta, copyOffset.value.1, cmd, gotOffset, start);
    if copySize.None? { return None; }
    assert gotAll + [] == gotAll;
    return Some((copyOffset.value.0, copySize.value.0, copySize.value.1));
  }

  method DecodeOffsetArgs(delta: bytes, start: nat, cmd: byte) returns (r: Option<(nat, nat)>, ghost got: bytes)
    requires Decoding(delta, start, cmd, [], start)
    ensures r.None? ==> Unpack(cmd, 7, delta[start..]) == None
    ensures r.Some? ==> |got| == 4 && Decoding(delta, start, cmd, got, r.value.1)
                        && r.value.0 == got[0] as int + 0x100 * (got[1] as int) + 0x1_0000 * (got[2] as int) + 0x100_0000 * (got[3] as int)
  {
    r, got := None, [];
    var f0, got0 := DecodeField(delta, start, cmd, 0, [], start);
    if f0.None? { return; }
    var f1, got1 := DecodeField(delta, f0.value.1, cmd, 1, got0, start);
    if f1.None? { return; }
    var f2, got2 := DecodeField(delta, f1.value.1, cmd, 2, got1, start);
    if f2.None? { return; }
    var f3, got3 := DecodeField(delta, f2.value.1, cmd, 3, got2, start);
    if f3.None? { return; }
    var offset := f0.value.0 as int + 0x100 * (f1.value.0 as int) + 0x1_0000 * (f2.value.0 as int) + 0x100_0000 * (f3.value.0 as int);
    r, got := Some((offset, f3.value.1)), got3;
  }

  method DecodeSizeArgs(delta: bytes, from: nat, cmd: byte, ghost got4: bytes, ghost start: nat)
    returns (r: Option<(nat, nat)>, ghost got: bytes)
    requires |got4| == 4 && Decoding(delta, start, cmd, got4, from)
    ensures r.None? ==> Unpack(cmd, 7, delta[start..]) == None
    ensures r.Some? ==> |got| == 7 && got[..4] == got4 && Decoding(delta, start, cmd, got, r.value.1)
                        && r.value.0 == FieldsSize(got)
  {
    r, got := None, [];
    var f4, got5 := DecodeField(delta, from, cmd, 4, got4, start);
    if f4.None? { return; }
    var f5, got6 := DecodeField(delta, f4.value.1, cmd, 5, got5, start);
    if f5.None? { return; }
    var f6, got7 := DecodeField(delta, f5.value.1, cmd, 6, got6, start);
    if f6.None? { return; }
    var size := f4.value.0 as int + 0x100 * (f5.value.0 as int) + 0x1_0000 * (f6.value.0 as int);
    if size == 0 { size := 0x1_0000; }
    r, got := Some((size, f6.value.1)), got7;
  }

  /** The fields got so far have been read, and the rest are still to come. */
  ghost predicate Decoding(delta: bytes, start: nat, cmd: byte, got: bytes, offset: nat) {
    && |got| <= 7 && start <= |delta| && offset <= |delta|
    && Unpack(cmd, 7, delta[start..]) == Prefixed(got, Unpack(ShiftRight(cmd, |got|), 7 - |got|, delta[offset..]))
  }

  ghost function Prefixed(got: bytes, r: Option<(bytes, bytes)>): Option<(bytes, bytes)> {
    match r
    case None => None
    case Some((fields, rest)) => Some((got + fields, rest))
  }

  method DecodeField(delta: bytes, offset: nat, cmd: byte, k: nat, ghost got: bytes, ghost start: nat)
    returns (r: Option<(byte, nat)>, ghost more: bytes)
    requires k == |got| < 7
    requires Decoding(delta, start, cmd, got, offset)
    ensures r.None? ==> Unpack(cmd, 7, delta[start..]) == None
    ensures r.Some? ==> more == got + [r.value.0] && Decoding(delta, start, cmd, more, r.value.1)
  {
    more := got;
    ShiftOneMore(cmd, k);
    if HasField(cmd, k) {
      if offset == |delta| { return None, got; }
      assert delta[offset..][1..] == delta[offset + 1..];
      r := Some((delta[offset], offset + 1));
    } else {
      r := Some((0, offset));
    }
    PrefixedMore(got, r.value.0, Unpack(ShiftRight(cmd, k + 1), 6 - k, delta[r.value.1..]));
    more := got + [r.value.0];
  }

  lemma PrefixedMore(got: bytes, b: byte, r: Option<(bytes, bytes)>)
    ensures Prefixed(got, Prefixed([b], r)) == Prefixed(got + [b], r)
  {
    if r.Some? { assert got + ([b] + r.value.0) == got + [b] + r.value.0; }
  }
}
