/** The hash-chained index over the source of a delta, and the search for the
    longest match it supports. */
module DeltaIndexing {
  import opened Prelude
  import opened Arithmetic

  const MIN_MATCH: nat := 4
  const BLOCK: nat := 16
  const MAX_CHAIN: nat := 64

  // ----------------------------------------------------------------- hash

  const WORD: nat := 0x1_0000_0000_0000_0000

  /** The rolling hash before it is cut to a machine word. */
  function Rolled(s: bytes): nat {
    if s == [] then 0 else Rolled(s[..|s| - 1]) * 31 + s[|s| - 1] as int
  }

  function BlockHash(s: bytes): (h: nat)
    ensures h < 0x8000_0000
  {
    Rolled(s) % 0x8000_0000
  }

  /** At most one block from start on. */
  function BlockAt(data: bytes, start: nat): bytes
    requires start <= |data|
  {
    if start + BLOCK <= |data| then data[start..start + BLOCK] else data[start..]
  }

  /** The running value wraps around at 64 bits; only its low 31 bits count. */
  method HashBlock(data: bytes, start: nat) returns (hash: nat)
    requires start <= |data|
    ensures hash == BlockHash(BlockAt(data, start))
  {
    var h: nat, i := 0, 0;
    while i < BLOCK && i < |data| - start
      invariant 0 <= i <= BLOCK && start + i <= |data|
      invariant h == Rolled(data[start..start + i]) % WORD
    {
      var block := data[start..start + i + 1];
      assert block[..|block| - 1] == data[start..start + i];
      WrapStep(Rolled(data[start..start + i]), data[start + i]);
      h := (h * 31 + data[start + i] as int) % WORD;
      i := i + 1;
    }
    assert data[start..start + i] == BlockAt(data, start);
    LowBits(Rolled(BlockAt(data, start)));
    hash := h % 0x8000_0000;
  }

  lemma WrapStep(x: nat, b: byte)
    ensures (x % WORD * 31 + b as int) % WORD == (x * 31 + b as int) % WORD
  {
    var q := x / WORD;
    assert x * 31 + b as int == x % WORD * 31 + b as int + WORD * (31 * q);
    ModAddMultiple(x % WORD * 31 + b as int, WORD, 31 * q);
  }

  lemma LowBits(x: nat)
    ensures x % WORD % 0x8000_0000 == x % 0x8000_0000
  {
    var q := x / WORD;
    assert x == x % WORD + 0x8000_0000 * (0x2_0000_0000 * q);
    ModAddMultiple(x % WORD, 0x8000_0000, 0x2_0000_0000 * q);
  }

  // ------------------------------------------------------------ the table

  /** The smallest power of two reaching limit, found by doubling t. */
  function Doubled(t: nat, limit: nat): (size: nat)
    requires t > 0
    decreases limit - t
  {
    if t < limit then Doubled(2 * t, limit) else t
  }

  function TableSize(n: nat): (size: nat)
    ensures size >= 256
  {
    var t := Doubled(1, n / BLOCK);
    if t < 256 then 256 else t
  }

  /** Masking with size - 1 is the remainder by size, because size is a power
      of two. */
  lemma TableSizeIsPowerOfTwo(n: nat) returns (k: nat)
    ensures TableSize(n) == Pow2(k)
  {
    k := DoubledIsPowerOfTwo(0, n / BLOCK);
    if Doubled(1, n / BLOCK) < 256 {
      k := 8;
      assert Pow2(4) == 16;
    }
  }

  lemma {:induction false} DoubledIsPowerOfTwo(k: nat, limit: nat) returns (r: nat)
    ensures Doubled(Pow2(k), limit) == Pow2(r)
    decreases limit - Pow2(k)
  {
    r := k;
    if Pow2(k) < limit {
      r := DoubledIsPowerOfTwo(k + 1, limit);
    }
  }

  function Bucket(src: bytes, i: nat, size: nat): (b: nat)
    requires i + BLOCK <= |src| && size > 0
    ensures b < size
  {
    BlockHash(src[i..i + BLOCK]) % size
  }

  /** The offsets below n whose block falls into bucket b, latest first. */
  function Chain(src: bytes, n: nat, b: nat, size: nat): seq<nat>
    requires n + BLOCK <= |src| + 1 && size > 0
  {
    if n == 0 then []
    else if Bucket(src, n - 1, size) == b then [n - 1] + Chain(src, n - 1, b, size)
    else Chain(src, n - 1, b, size)
  }

  /** The linked list that starts at x and continues through next. */
  ghost function Follow(next: seq<int>, x: int): seq<nat>
    requires Descending(next) && -1 <= x < |next|
    decreases x + 1
  {
    if x < 0 then [] else [x] + Follow(next, next[x])
  }

  /** Links only ever lead to smaller offsets, so every chain ends. */
  ghost predicate Descending(next: seq<int>) {
    forall i :: 0 <= i < |next| ==> -1 <= next[i] < i
  }

  lemma {:induction false} FollowUnchanged(next: seq<int>, next': seq<int>, x: int)
    requires Descending(next) && Descending(next') && |next| == |next'|
    requires -1 <= x < |next|
    requires forall i :: 0 <= i <= x ==> next[i] == next'[i]
    ensures Follow(next, x) == Follow(next', x)
    decreases x + 1
  {
    if x >= 0 { FollowUnchanged(next, next', next[x]); }
  }

  // -------------------------------------------------------------- matches

  /** How many bytes agree from the two offsets on. */
  function MatchLen(src: bytes, srcOff: nat, tgt: bytes, tgtOff: nat): (len: nat)
    ensures len > 0 ==> srcOff + len <= |src| && tgtOff + len <= |tgt|
    decreases |src| - srcOff
  {
    if srcOff < |src| && tgtOff < |tgt| && src[srcOff] == tgt[tgtOff]
    then 1 + MatchLen(src, srcOff + 1, tgt, tgtOff + 1)
    else 0
  }

  /** The agreeing bytes agree, and the next ones, if any, do not. */
  lemma {:induction false} MatchLenIsLongest(src: bytes, srcOff: nat, tgt: bytes, tgtOff: nat)
    requires srcOff <= |src| && tgtOff <= |tgt|
    ensures var len := MatchLen(src, srcOff, tgt, tgtOff);
            && src[srcOff..srcOff + len] == tgt[tgtOff..tgtOff + len]
            && (srcOff + len == |src| || tgtOff + len == |tgt| || src[srcOff + len] != tgt[tgtOff + len])
    decreases |src| - srcOff
  {
    if srcOff < |src| && tgtOff < |tgt| && src[srcOff] == tgt[tgtOff] {
      MatchLenIsLongest(src, srcOff + 1, tgt, tgtOff + 1);
      var len := MatchLen(src, srcOff, tgt, tgtOff);
      assert src[srcOff..srcOff + len] == [src[srcOff]] + src[srcOff + 1..srcOff + len];
      assert tgt[tgtOff..tgtOff + len] == [tgt[tgtOff]] + tgt[tgtOff + 1..tgtOff + len];
    }
  }

  datatype Match = Match(srcOff: int, len: nat)

  const NO_MATCH := Match(-1, 0)

  /** The first longest match among the candidates, if longer than best. */
  function Longest(src: bytes, tgt: bytes, tgtOff: nat, candidates: seq<nat>, best: Match): Match {
    if candidates == [] then best
    else
      var len := MatchLen(src, candidates[0], tgt, tgtOff);
      Longest(src, tgt, tgtOff, candidates[1..], if len > best.len then Match(candidates[0], len) else best)
  }

  function Capped(chain: seq<nat>): seq<nat> {
    if |chain| <= MAX_CHAIN then chain else chain[..MAX_CHAIN]
  }

  /** The offsets the search looks at for the block at tgtOff. */
  function Candidates(src: bytes, tgt: bytes, tgtOff: nat): seq<nat>
    requires |src| >= BLOCK && tgtOff + BLOCK <= |tgt|
  {
    var size := TableSize(|src|);
    Capped(Chain(src, |src| - BLOCK + 1, Bucket(tgt, tgtOff, size), size))
  }

  function BestMatch(src: bytes, tgt: bytes, tgtOff: nat): Match {
    if |src| < BLOCK || tgtOff + BLOCK > |tgt| then NO_MATCH
    else
      var best := Longest(src, tgt, tgtOff, Candidates(src, tgt, tgtOff), NO_MATCH);
      if best.len < MIN_MATCH then NO_MATCH else best
  }

  lemma {:induction false} LongestIsLongest(src: bytes, tgt: bytes, tgtOff: nat, cs: seq<nat>, best: Match)
    ensures var r := Longest(src, tgt, tgtOff, cs, best);
            && (forall c :: c in cs ==> MatchLen(src, c, tgt, tgtOff) <= r.len)
            && best.len <= r.len
            && (r == best || (r.srcOff in cs && r.len == MatchLen(src, r.srcOff, tgt, tgtOff)))
  {
    if cs != [] {
      var len := MatchLen(src, cs[0], tgt, tgtOff);
      LongestIsLongest(src, tgt, tgtOff, cs[1..], if len > best.len then Match(cs[0], len) else best);
    }
  }

  /** What the search promises: it finds nothing only when no candidate agrees
      on four bytes, and what it finds are equal bytes, at least as many as at
      any candidate. */
  lemma BestMatchIsBest(src: bytes, tgt: bytes, tgtOff: nat)
    ensures var m := BestMatch(src, tgt, tgtOff);
            && (m == NO_MATCH || m.len >= MIN_MATCH)
            && (m != NO_MATCH ==>
                  && 0 <= m.srcOff && m.srcOff + m.len <= |src| && tgtOff + m.len <= |tgt|
                  && src[m.srcOff..m.srcOff + m.len] == tgt[tgtOff..tgtOff + m.len])
            && (|src| >= BLOCK && tgtOff + BLOCK <= |tgt| ==>
                  forall c :: c in Candidates(src, tgt, tgtOff) ==>
                    MatchLen(src, c, tgt, tgtOff) <= if m == NO_MATCH then MIN_MATCH - 1 else m.len)
  {
    if |src| >= BLOCK && tgtOff + BLOCK <= |tgt| {
      LongestIsLongest(src, tgt, tgtOff, Candidates(src, tgt, tgtOff), NO_MATCH);
      var m := BestMatch(src, tgt, tgtOff);
      if m != NO_MATCH { MatchLenIsLongest(src, m.srcOff, tgt, tgtOff); }
    }
  }

  lemma WhenMatching(src: bytes, tgt: bytes, tgtOff: nat)
    ensures BestMatch(src, tgt, tgtOff) ==
              if |src| < BLOCK || tgtOff + BLOCK > |tgt| then NO_MATCH
              else
                var best := Longest(src, tgt, tgtOff, Candidates(src, tgt, tgtOff), NO_MATCH);
                if best.len < MIN_MATCH then NO_MATCH else best
  {
  }

  lemma LinkedAt(table: seq<int>, next: seq<int>, src: bytes, n: nat, b: nat)
    requires n + BLOCK <= |src| + 1 && Linked(table, next, src, n) && b < |table|
    ensures -1 <= table[b] < n <= |next| && Descending(next) && Follow(next, table[b]) == Chain(src, n, b, |table|)
  {
  }

  lemma FollowStep(next: seq<int>, x: int)
    requires Descending(next) && 0 <= x < |next|
    ensures Follow(next, x) == [x] + Follow(next, next[x])
  {
  }

  lemma FollowEnd(next: seq<int>)
    requires Descending(next)
    ensures Follow(next, -1) == []
  {
  }

  lemma LongestStep(src: bytes, tgt: bytes, tgtOff: nat, cs: seq<nat>, best: Match)
    requires cs != []
    ensures var len := MatchLen(src, cs[0], tgt, tgtOff);
            Longest(src, tgt, tgtOff, cs, best) == Longest(src, tgt, tgtOff, cs[1..], if len > best.len then Match(cs[0], len) else best)
  {
  }

  lemma LongestOfNone(src: bytes, tgt: bytes, tgtOff: nat, best: Match)
    ensures Longest(src, tgt, tgtOff, [], best) == best
  {
  }

  class DeltaIndex {
    const src: bytes
    var table: array?<int>  // bucket -> latest offset, -1 if empty
    var next: array?<int>   // offset -> previous offset in its bucket, -1 if none

    /** A source too short to hold one block has no table; otherwise every
        bucket links exactly the offsets whose block hashes into it. */
    ghost predicate Valid()
      reads this, table, next
    {
      && (table == null <==> |src| < BLOCK)
      && (table != null ==>
            && next != null
            && table.Length == TableSize(|src|)
            && next.Length == |src| - BLOCK + 1
            && Linked(table[..], next[..], src, next.Length))
    }

    constructor (src: bytes)
      ensures Valid() && this.src == src
    {
      this.src := src;
      var heads: array?<int>, links: array?<int> := null, null;
      if |src| >= BLOCK {
        var size := ComputeTableSize(|src|);
        heads := new int[size](_ => -1);
        links := new int[|src| - BLOCK + 1](_ => -1);
      }
      table, next := heads, links;
      new;
      if table != null {
        Fill(this.src, table, next);
      }
    }

    /** The longest match at tgtOff among the candidates on the chain. */
    method FindMatch(tgt: bytes, tgtOff: nat) returns (m: Match)
      requires Valid()
      requires tgtOff <= |tgt|
      ensures m == BestMatch(src, tgt, tgtOff)
    {
      hide Linked, TableSize, BlockHash, Chain, Longest, BestMatch, MatchLen;
      WhenMatching(src, tgt, tgtOff);
      if table == null || tgtOff + BLOCK > |tgt| { return NO_MATCH; }
      var h := HashBlock(tgt, tgtOff);
      LinkedAt(table[..], next[..], src, next.Length, h % table.Length);
      var srcOff := table[h % table.Length];
      var best, chainLen := NO_MATCH, 0;
      ghost var chain := Follow(next[..], srcOff);
      ghost var cs := Capped(chain);
      ghost var left := cs;
      while srcOff >= 0 && chainLen < MAX_CHAIN
        invariant -1 <= srcOff < next.Length
        invariant 0 <= chainLen <= MAX_CHAIN && chainLen <= |chain|
        invariant Follow(next[..], srcOff) == chain[chainLen..]
        invariant left == cs[chainLen..]
        invariant Longest(src, tgt, tgtOff, cs, NO_MATCH) == Longest(src, tgt, tgtOff, left, best)
      {
        FollowStep(next[..], srcOff);
        assert chain[chainLen..][1..] == chain[chainLen + 1..];
        assert left[0] == srcOff && left[1..] == cs[chainLen + 1..];
        LongestStep(src, tgt, tgtOff, left, best);
        var matchLen := MatchLength(srcOff, tgt, tgtOff);
        if matchLen > best.len {
          best := Match(srcOff, matchLen);
        }
        srcOff := next[srcOff];
        chainLen := chainLen + 1;
        left := left[1..];
      }
      assert left == [] by { if srcOff < 0 { FollowEnd(next[..]); } }
      LongestOfNone(src, tgt, tgtOff, best);
      m := if best.len < MIN_MATCH then NO_MATCH else best;
    }

    method MatchLength(srcOff: nat, tgt: bytes, tgtOff: nat) returns (length: nat)
      requires srcOff <= |src| && tgtOff <= |tgt|
      ensures length == MatchLen(src, srcOff, tgt, tgtOff)
    {
      var maxLen := |src| - srcOff;
      if |tgt| - tgtOff < maxLen { maxLen := |tgt| - tgtOff; }
      length := 0;
      while length < maxLen && src[srcOff + length] == tgt[tgtOff + length]
        invariant 0 <= length <= maxLen
        invariant length + MatchLen(src, srcOff + length, tgt, tgtOff + length) == MatchLen(src, srcOff, tgt, tgtOff)
      {
        length := length + 1;
      }
    }
  }

  /** Pushes every block offset onto the chain of its bucket. */
  method Fill(src: bytes, table: array<int>, next: array<int>)
    requires |src| >= BLOCK && table != next
    requires table.Length == TableSize(|src|) && next.Length == |src| - BLOCK + 1
    requires forall b :: 0 <= b < table.Length ==> table[b] == -1
    requires forall k :: 0 <= k < next.Length ==> next[k] == -1
    modifies table, next
    ensures Linked(table[..], next[..], src, next.Length)
  {
    var i := 0;
    while i <= |src| - BLOCK
      invariant 0 <= i <= next.Length
      invariant Linked(table[..], next[..], src, i)
      invariant forall k :: i <= k < next.Length ==> next[k] == -1
    {
      var h := HashBlock(src, i);
      var tIdx := h % table.Length;
      ghost var table0, next0 := table[..], next[..];
      next[i] := table[tIdx];
      table[tIdx] := i;
      LinkedPush(table0, next0, src, i, tIdx, table[..], next[..]);
      i := i + 1;
    }
  }

  lemma LinkedPush(table: seq<int>, next: seq<int>, src: bytes, i: nat, t: nat, table': seq<int>, next': seq<int>)
    requires i + BLOCK <= |src| && i < |next| && t < |table|
    requires Linked(table, next, src, i)
    requires t == Bucket(src, i, |table|)
    requires next' == next[i := table[t]] && table' == table[t := i]
    ensures Linked(table', next', src, i + 1)
  {
    forall b | 0 <= b < |table|
      ensures -1 <= table'[b] < i + 1 && Follow(next', table'[b]) == Chain(src, i + 1, b, |table|)
    {
      FollowUnchanged(next, next', table[b]);
    }
  }

  /** Every bucket links the offsets below n that belong to it. */
  ghost predicate Linked(table: seq<int>, next: seq<int>, src: bytes, n: nat)
    requires n + BLOCK <= |src| + 1
  {
    && Descending(next) && n <= |next|
    && |table| > 0
    && forall b :: 0 <= b < |table| ==>
         -1 <= table[b] < n && Follow(next, table[b]) == Chain(src, n, b, |table|)
  }

  method ComputeTableSize(n: nat) returns (size: nat)
    ensures size == TableSize(n)
  {
    size := 1;
    while size < n / BLOCK
      invariant size > 0 && Doubled(size, n / BLOCK) == Doubled(1, n / BLOCK)
      decreases n / BLOCK - size
    {
      size := 2 * size;
    }
    if size < 256 { size := 256; }
  }
}
