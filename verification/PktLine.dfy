/** pkt-line framing and the side-band writer on top of it. */
module PktLine {
  import opened Prelude
  import opened Hex

  const MAX_PKT := 0xffff
  const HEADER_SIZE: nat := 4

  datatype PktType = PktData | PktFlush | PktDelim

  datatype PktError = ShortHeader | BadHeader | BadLength | ShortPayload

  // --------------------------------------------------------------- writing

  function DigitByte(n: nat): byte
    requires n < 16
  {
    HexDigit(n) as int
  }

  /** Four hexadecimal digits. */
  function LengthHeader(n: nat): bytes
    requires n <= MAX_PKT
  {
    [DigitByte(n / 0x1000), DigitByte(n / 0x100 % 0x10), DigitByte(n / 0x10 % 0x10), DigitByte(n % 0x10)]
  }

  predicate Fits(payload: bytes) { |payload| + HEADER_SIZE <= MAX_PKT }

  function Packet(payload: bytes): bytes
    requires Fits(payload)
  {
    LengthHeader(|payload| + HEADER_SIZE) + payload
  }

  // --------------------------------------------------------------- reading

  function ByteDigit(b: byte): (r: Option<nat>)
    ensures r.Some? ==> r.value < 16
  {
    if b < 128 then DigitValue(b as char) else None
  }

  /** Hexadecimal digits, most significant first. */
  function ParseDigits(s: bytes): Option<nat> {
    if s == [] then Some(0)
    else
      match (ParseDigits(s[..|s| - 1]), ByteDigit(s[|s| - 1]))
      case (Some(high), Some(low)) => Some(high * 16 + low)
      case _ => None
  }

  const PLUS: byte := 0x2B
  const MINUS: byte := 0x2D

  /** The library's base 16 reading of four bytes: a sign is accepted too. */
  function ParseHeader(h: bytes): Option<int>
    requires |h| == HEADER_SIZE
  {
    if h[0] == PLUS || h[0] == MINUS then
      match ParseDigits(h[1..])
      case None => None
      case Some(n) => Some(if h[0] == MINUS then -(n as int) else n as int)
    else ParseDigits(h)
  }

  const DELIM: bytes := [0x30, 0x30, 0x30, 0x31]

  function ReadPacket(s: bytes): (r: Result<(bytes, PktType, bytes), PktError>)
    ensures r.Ok? ==> |r.value.2| < |s|
  {
    if |s| < HEADER_SIZE then Err(ShortHeader)
    else if s[..HEADER_SIZE] == DELIM then Ok(([], PktDelim, s[HEADER_SIZE..]))
    else
      match ParseHeader(s[..HEADER_SIZE])
      case None => Err(BadHeader)
      case Some(n) =>
        if n == 0 then Ok(([], PktFlush, s[HEADER_SIZE..]))
        else if n < 4 then Err(BadLength)
        else if |s| < n then Err(ShortPayload)
        else Ok((s[HEADER_SIZE..n], PktData, s[n..]))
  }

  /** Every packet of a stream, to its end. */
  function ReadAll(s: bytes): Result<seq<(bytes, PktType)>, PktError>
    decreases |s|
  {
    if s == [] then Ok([])
    else
      match ReadPacket(s)
      case Err(e) => Err(e)
      case Ok((payload, kind, rest)) =>
        match ReadAll(rest)
        case Err(e) => Err(e)
        case Ok(more) => Ok([(payload, kind)] + more)
  }

  // ------------------------------------------------------------ round trip

  lemma DigitByteRoundTrip(n: nat)
    requires n < 16
    ensures ByteDigit(DigitByte(n)) == Some(n)
    ensures DigitByte(n) != PLUS && DigitByte(n) != MINUS
    ensures DigitByte(n) == 0x30 <==> n == 0
    ensures DigitByte(n) == 0x31 <==> n == 1
  {
  }

  lemma FourDigits(a: byte, b: byte, c: byte, d: byte, w: nat, x: nat, y: nat, z: nat)
    requires ByteDigit(a) == Some(w) && ByteDigit(b) == Some(x) && ByteDigit(c) == Some(y) && ByteDigit(d) == Some(z)
    ensures ParseDigits([a, b, c, d]) == Some(((w * 16 + x) * 16 + y) * 16 + z)
  {
    assert [a, b, c, d][..3] == [a, b, c] && [a, b, c][..2] == [a, b] && [a, b][..1] == [a] && [a][..0] == [];
    assert ParseDigits([a]) == Some(w);
    assert ParseDigits([a, b]) == Some(w * 16 + x);
    assert ParseDigits([a, b, c]) == Some((w * 16 + x) * 16 + y);
  }

  /** A header reads back as its length, and is never taken for the two special
      packets unless its length is theirs. */
  lemma HeaderRoundTrip(n: nat)
    requires n <= MAX_PKT
    ensures ParseHeader(LengthHeader(n)) == Some(n)
    ensures LengthHeader(n) == DELIM <==> n == 1
  {
    hide ParseHeader, DigitByte;
    Recompose(n);
    DigitsRoundTrip(n / 0x1000, n / 0x100 % 0x10, n / 0x10 % 0x10, n % 0x10);
  }

  lemma DigitsRoundTrip(w: nat, x: nat, y: nat, z: nat)
    requires w < 16 && x < 16 && y < 16 && z < 16
    ensures var h := [DigitByte(w), DigitByte(x), DigitByte(y), DigitByte(z)];
            && ParseHeader(h) == Some(((w * 16 + x) * 16 + y) * 16 + z)
            && (h == DELIM <==> w == 0 && x == 0 && y == 0 && z == 1)
  {
    DigitByteRoundTrip(w); DigitByteRoundTrip(x); DigitByteRoundTrip(y); DigitByteRoundTrip(z);
    hide DigitByte, ByteDigit;
    FourDigits(DigitByte(w), DigitByte(x), DigitByte(y), DigitByte(z), w, x, y, z);
    NotDelim(DigitByte(w), DigitByte(x), DigitByte(y), DigitByte(z));
  }

  lemma Recompose(n: nat)
    requires n <= MAX_PKT
    ensures n / 0x1000 < 16
    ensures ((n / 0x1000 * 16 + n / 0x100 % 0x10) * 16 + n / 0x10 % 0x10) * 16 + n % 0x10 == n
  {
    var a := n / 0x10;
    var b := a / 0x10;
    assert n / 0x100 == b && n / 0x1000 == b / 0x10;
    assert n / 0x1000 * 16 + n / 0x100 % 0x10 == b;
    assert b * 16 + n / 0x10 % 0x10 == a;
  }

  lemma NotDelim(a: byte, b: byte, c: byte, d: byte)
    ensures [a, b, c, d] == DELIM <==> a == 0x30 && b == 0x30 && c == 0x30 && d == 0x31
  {
    if [a, b, c, d] == DELIM {
      assert [a, b, c, d][0] == DELIM[0] && [a, b, c, d][1] == DELIM[1];
      assert [a, b, c, d][2] == DELIM[2] && [a, b, c, d][3] == DELIM[3];
    }
  }

  lemma PacketRoundTrip(payload: bytes, rest: bytes)
    requires Fits(payload)
    ensures ReadPacket(Packet(payload) + rest) == Ok((payload, PktData, rest))
  {
    var s, n := Packet(payload) + rest, |payload| + HEADER_SIZE;
    HeaderRoundTrip(n);
    assert s[..HEADER_SIZE] == LengthHeader(n) && s[HEADER_SIZE..n] == payload && s[n..] == rest;
  }

  // ------------------------------------------------------------- side band

  /** The input cut into pieces of maxData bytes, the last one shorter. */
  function Chunks(p: bytes, maxData: nat): seq<bytes>
    requires maxData > 0
  {
    if p == [] then []
    else if |p| <= maxData then [p]
    else [p[..maxData]] + Chunks(p[maxData..], maxData)
  }

  function Concat(chunks: seq<bytes>): bytes {
    if chunks == [] then [] else chunks[0] + Concat(chunks[1..])
  }

  ghost predicate AllFit(chunks: seq<bytes>) {
    forall chunk :: chunk in chunks ==> |chunk| + 1 + HEADER_SIZE <= MAX_PKT
  }

  function Framed(chunks: seq<bytes>, channel: byte): bytes
    requires AllFit(chunks)
  {
    if chunks == [] then [] else Packet([channel] + chunks[0]) + Framed(chunks[1..], channel)
  }

  lemma {:induction false} ChunksCut(p: bytes, maxData: nat)
    requires maxData > 0
    ensures Concat(Chunks(p, maxData)) == p
    ensures forall chunk :: chunk in Chunks(p, maxData) ==> 0 < |chunk| <= maxData && |chunk| <= |p|
    decreases |p|
  {
    hide Chunks, Concat;
    if |p| <= maxData {
      LastChunk(p, maxData);
    } else {
      ChunksCut(p[maxData..], maxData);
      assert p[..maxData] + p[maxData..] == p;
      FirstChunk(p, maxData);
    }
  }

  lemma FirstChunk(p: bytes, maxData: nat)
    requires 0 < maxData < |p|
    ensures Concat(Chunks(p, maxData)) == p[..maxData] + Concat(Chunks(p[maxData..], maxData))
    ensures forall chunk :: chunk in Chunks(p, maxData) <==> chunk == p[..maxData] || chunk in Chunks(p[maxData..], maxData)
  {
    assert Chunks(p, maxData) == [p[..maxData]] + Chunks(p[maxData..], maxData);
    assert Chunks(p, maxData)[1..] == Chunks(p[maxData..], maxData);
  }

  lemma LastChunk(p: bytes, maxData: nat)
    requires |p| <= maxData && maxData > 0
    ensures Concat(Chunks(p, maxData)) == p
    ensures forall chunk :: chunk in Chunks(p, maxData) ==> 0 < |chunk| && chunk == p
  {
    if p != [] { assert [p][1..] == []; }
  }

  function DataPackets(chunks: seq<bytes>, channel: byte): seq<(bytes, PktType)> {
    seq(|chunks|, i requires 0 <= i < |chunks| => ([channel] + chunks[i], PktData))
  }

  /** What every length header is read as: 0 flushes, 1 delimits, 2 and 3 are no
      lengths, and any other takes that many bytes with itself, or is refused. */
  lemma ReadsEveryLength(n: nat, rest: bytes)
    requires n <= MAX_PKT
    ensures ReadPacket(LengthHeader(n) + rest) ==
              if n == 0 then Ok(([], PktFlush, rest))
              else if n == 1 then Ok(([], PktDelim, rest))
              else if n < 4 then Err(BadLength)
              else if |rest| < n - 4 then Err(ShortPayload)
              else Ok((rest[..n - 4], PktData, rest[n - 4..]))
    ensures |rest| < 4 ==> ReadPacket(rest) == Err(ShortHeader)
  {
    hide LengthHeader, ParseHeader;
    HeaderRoundTrip(n);
    HeaderIsFour(n);
    var s := LengthHeader(n) + rest;
    assert s[..4] == LengthHeader(n) && s[4..] == rest;
    if 4 <= n <= |s| { assert s[4..n] == rest[..n - 4] && s[n..] == rest[n - 4..]; }
  }

  lemma HeaderIsFour(n: nat)
    requires n <= MAX_PKT
    ensures |LengthHeader(n)| == 4
  {
  }

  lemma {:induction false} FramedReadsBack(chunks: seq<bytes>, channel: byte)
    requires AllFit(chunks)
    ensures ReadAll(Framed(chunks, channel)) == Ok(DataPackets(chunks, channel))
  {
    hide ReadPacket, Packet;
    if chunks == [] {
      assert DataPackets(chunks, channel) == [];
    } else {
      FramedReadsBack(chunks[1..], channel);
      assert Framed(chunks, channel) == Packet([channel] + chunks[0]) + Framed(chunks[1..], channel);
      PacketRoundTrip([channel] + chunks[0], Framed(chunks[1..], channel));
      assert DataPackets(chunks, channel) == [([channel] + chunks[0], PktData)] + DataPackets(chunks[1..], channel);
    }
  }

  function Tails(packets: seq<(bytes, PktType)>): bytes
    requires forall p :: p in packets ==> p.0 != []
  {
    if packets == [] then [] else packets[0].0[1..] + Tails(packets[1..])
  }

  lemma {:induction false} TailsOfData(chunks: seq<bytes>, channel: byte)
    ensures forall p :: p in DataPackets(chunks, channel) ==> p.0 != []
    ensures Tails(DataPackets(chunks, channel)) == Concat(chunks)
  {
    if chunks != [] {
      TailsOfData(chunks[1..], channel);
      assert DataPackets(chunks, channel)[1..] == DataPackets(chunks[1..], channel);
      assert DataPackets(chunks, channel)[0].0[1..] == chunks[0];
    }
  }

  /** Side-band framing inverts: the reader sees data packets only, each carries
      the channel byte and is within the limit, and what follows the channel
      bytes is the input. */
  lemma SideBandRoundTrip(p: bytes, maxData: nat, channel: byte)
    requires 1 <= maxData <= MAX_PKT - HEADER_SIZE - 1
    ensures AllFit(Chunks(p, maxData))
    ensures var r := ReadAll(Framed(Chunks(p, maxData), channel));
            && r.Ok?
            && (forall q :: q in r.value ==> q.1 == PktData && q.0 != [] && q.0[0] == channel
                                             && |q.0| + HEADER_SIZE <= maxData + 5)
            && Tails(r.value) == p
  {
    var chunks := Chunks(p, maxData);
    ChunksCut(p, maxData);
    FramedReadsBack(chunks, channel);
    TailsOfData(chunks, channel);
  }

  // --------------------------------------------------------------- streams

  /** An underlying writer: call number n fails when fails(n), and then takes
      only some of the bytes, accepts(n) at most. */
  class PktWriter {
    const fails: nat -> bool
    const accepts: nat -> nat
    var calls: nat
    var out: bytes

    constructor (fails: nat -> bool, accepts: nat -> nat)
      ensures this.fails == fails && this.accepts == accepts && out == []
    {
      this.fails, this.accepts, calls, out := fails, accepts, 0, [];
    }

    method WriteBytes(data: bytes) returns (ok: bool)
      modifies this
      ensures ok <==> !fails(old(calls))
      ensures if ok then out == old(out) + data else old(out) <= out <= old(out) + data
    {
      var n := if fails(calls) && accepts(calls) < |data| then accepts(calls) else |data|;
      ok := !fails(calls);
      calls := calls + 1;
      out := out + data[..n];
      assert data[..|data|] == data;
      assert data == data[..n] + data[n..];
      assert old(out) + data == out + data[n..];
    }

    /** One pkt-line; nothing when it would be too long, and a part of it when
        the writer fails. */
    method WritePktLineBytes(payload: bytes) returns (ok: bool)
      modifies this
      ensures ok ==> Fits(payload) && out == old(out) + Packet(payload)
      ensures !Fits(payload) ==> !ok && out == old(out)
      ensures Fits(payload) && !ok ==> old(out) <= out <= old(out) + Packet(payload)
      ensures Fits(payload) && (forall n :: !fails(n)) ==> ok
    {
      var size := |payload| + 4;
      if size > 0xffff { return false; }
      ghost var all := old(out) + Packet(payload);
      ghost var header := LengthHeader(size);
      assert all == old(out) + header + payload;
      ok := WriteBytes(LengthHeader(size));
      if !ok {
        PrefixOfMore(out, old(out) + header, payload);
        return false;
      }
      ok := WriteBytes(payload);
    }
  }

  lemma PrefixOfMore(a: bytes, b: bytes, c: bytes)
    requires a <= b
    ensures a <= b + c
  {
  }

  class SideBandWriter {
    const w: PktWriter
    const maxData: nat
    const channelID: byte

    constructor (w: PktWriter, maxData: nat, channelID: byte)
      requires maxData > 0
      ensures this.w == w && this.maxData == maxData && this.channelID == channelID
    {
      this.w, this.maxData, this.channelID := w, maxData, channelID;
    }

    /** All of it, or the packets sent before the writer failed and a part of
        the next; nothing at all when a packet would be too long, because the
        first packet is the longest. */
    method Write(p: bytes) returns (written: nat, ok: bool, ghost sent: seq<bytes>)
      requires maxData > 0
      modifies w
      ensures sent <= Chunks(p, maxData) && AllFit(sent) && written == |Concat(sent)|
      ensures ok ==> sent == Chunks(p, maxData) && written == |p| && w.out == old(w.out) + Framed(sent, channelID)
      ensures !ok && !Sendable(p, maxData) ==> sent == [] && w.out == old(w.out)
      ensures !ok && Sendable(p, maxData) ==> Broken(p, maxData, channelID, sent, old(w.out), w.out)
      ensures ok ==> Sendable(p, maxData)
      ensures Sendable(p, maxData) && (forall n :: !w.fails(n)) ==> ok
    {
      hide Packet, Framed, Chunks;
      NothingSent(p, maxData, channelID);
      written, sent := 0, [];
      var rest := p;
      assert [] + Chunks(p, maxData) == Chunks(p, maxData);
      while |rest| > 0
        invariant written + |rest| == |p| && written == |Concat(sent)|
        invariant Chunks(p, maxData) == sent + Chunks(rest, maxData)
        invariant AllFit(sent) && w.out == old(w.out) + Framed(sent, channelID)
        invariant if sent == [] then rest == p else Sendable(p, maxData)
      {
        var chunk := |rest|;
        if chunk > maxData { chunk := maxData; }
        var payload := [channelID] + rest[..chunk];
        ghost var before := w.out;
        NextChunk(rest, maxData, chunk);
        ChunksStep(sent, rest, maxData, chunk);
        ok := w.WritePktLineBytes(payload);
        if !ok {
          assert Chunks(p, maxData)[|sent|] == rest[..chunk];
          return;
        }
        FramedMore(sent, rest[..chunk], channelID);
        ConcatMore(sent, rest[..chunk]);
        sent := sent + [rest[..chunk]];
        written := written + chunk;
        rest := rest[chunk..];
      }
      NoChunks(maxData);
      assert sent + [] == sent;
      ok := true;
    }
  }

  /** What a failing writer leaves: whole packets, then a part of the next. */
  ghost predicate Broken(p: bytes, maxData: nat, channel: byte, sent: seq<bytes>, before: bytes, after: bytes)
    requires maxData > 0 && AllFit(sent)
  {
    && |sent| < |Chunks(p, maxData)| && Fits([channel] + Chunks(p, maxData)[|sent|])
    && before + Framed(sent, channel) <= after
    && after <= before + Framed(sent, channel) + Packet([channel] + Chunks(p, maxData)[|sent|])
  }

  lemma NothingSent(p: bytes, maxData: nat, channel: byte)
    requires maxData > 0
    ensures Framed([], channel) == [] && Concat([]) == [] && (p == [] ==> Sendable(p, maxData))
  {
  }

  lemma NoChunks(maxData: nat)
    requires maxData > 0
    ensures Chunks([], maxData) == []
  {
  }

  lemma NextChunk(rest: bytes, maxData: nat, chunk: nat)
    requires maxData > 0 && rest != [] && chunk == if |rest| > maxData then maxData else |rest|
    ensures Chunks(rest, maxData) != [] && Chunks(rest, maxData)[0] == rest[..chunk]
  {
    if |rest| <= maxData { assert rest[..chunk] == rest; }
  }

  lemma {:induction false} ConcatMore(chunks: seq<bytes>, chunk: bytes)
    ensures Concat(chunks + [chunk]) == Concat(chunks) + chunk
  {
    if chunks == [] {
      assert chunks + [chunk] == [chunk] && Concat([chunk]) == chunk + Concat([]);
    } else {
      assert (chunks + [chunk])[1..] == chunks[1..] + [chunk];
      ConcatMore(chunks[1..], chunk);
    }
  }

  /** The longest packet this input needs is within the limit. */
  predicate Sendable(p: bytes, maxData: nat) {
    |p| <= MAX_PKT - HEADER_SIZE - 1 || maxData <= MAX_PKT - HEADER_SIZE - 1
  }

  lemma ChunksStep(done: seq<bytes>, rest: bytes, maxData: nat, chunk: nat)
    requires maxData > 0 && rest != []
    requires chunk == if |rest| > maxData then maxData else |rest|
    ensures done + Chunks(rest, maxData) == done + [rest[..chunk]] + Chunks(rest[chunk..], maxData)
  {
    if |rest| <= maxData { assert rest[..chunk] == rest && rest[chunk..] == []; }
  }

  lemma {:induction false} FramedMore(done: seq<bytes>, chunk: bytes, channel: byte)
    requires AllFit(done) && |chunk| + 1 + HEADER_SIZE <= MAX_PKT
    ensures AllFit(done + [chunk])
    ensures Framed(done + [chunk], channel) == Framed(done, channel) + Packet([channel] + chunk)
  {
    if done == [] {
      assert done + [chunk] == [chunk];
      assert Framed([chunk], channel) == Packet([channel] + chunk) + Framed([], channel);
    } else {
      assert (done + [chunk])[1..] == done[1..] + [chunk];
      FramedMore(done[1..], chunk, channel);
    }
  }

  class PktReader {
    var rest: bytes

    constructor (input: bytes)
      ensures rest == input
    {
      rest := input;
    }

    /** The first n bytes still unread, or nothing, and all are consumed. */
    method ReadFull(n: nat) returns (r: Option<bytes>)
      modifies this
      ensures n <= |old(rest)| ==> r == Some(old(rest)[..n]) && rest == old(rest)[n..]
      ensures n > |old(rest)| ==> r == None && rest == []
    {
      if n > |rest| {
        rest := [];
        return None;
      }
      r := Some(rest[..n]);
      rest := rest[n..];
    }

    method ReadPktLineV2() returns (r: Result<(bytes, PktType), PktError>)
      modifies this
      ensures match ReadPacket(old(rest))
              case Err(e) => r == Err(e)
              case Ok((payload, kind, more)) => r == Ok((payload, kind)) && rest == more
    {
      var header := ReadFull(4);
      if header.None? { return Err(ShortHeader); }
      if header.value == DELIM { return Ok(([], PktDelim)); }
      var n := ParseHeader(header.value);
      if n.None? { return Err(BadHeader); }
      if n.value == 0 { return Ok(([], PktFlush)); }
      if n.value < 4 { return Err(BadLength); }
      var payload := ReadFull(n.value - 4);
      if payload.None? { return Err(ShortPayload); }
      assert old(rest)[4..][..n.value - 4] == old(rest)[4..n.value];
      assert old(rest)[4..][n.value - 4..] == old(rest)[n.value..];
      return Ok((payload.value, PktData));
    }
  }
}
