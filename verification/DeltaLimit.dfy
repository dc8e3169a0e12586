/** Where the delta round trip stops: from 2^24 bytes on there is a file that,
    deltified against itself, is one long match, and a copy instruction has only
    three bytes for its size. */
module DeltaLimit {
  import opened Prelude
  import opened DeltaFormat
  import opened DeltaIndexing
  import opened DeltaCodec

  /** A one followed by zeros: the first block is alone in its bucket. */
  function LoneBlock(zeros: nat): bytes {
    [1] + seq(zeros, _ => 0)
  }

  lemma {:induction false} RolledZeros(s: bytes)
    requires forall i :: 0 <= i < |s| ==> s[i] == 0
    ensures Rolled(s) == 0
  {
    if s != [] { RolledZeros(s[..|s| - 1]); }
  }

  lemma {:induction false} RolledOneIsOdd(s: bytes)
    requires s != [] && s[0] == 1
    requires forall i :: 1 <= i < |s| ==> s[i] == 0
    ensures Rolled(s) % 2 == 1
  {
    var t := s[..|s| - 1];
    if |s| == 1 {
      assert t == [] && Rolled(t) == 0;
    } else {
      RolledOneIsOdd(t);
      OddTimesOdd(Rolled(t));
      assert Rolled(s) == Rolled(t) * 31 + 0;
    }
  }

  lemma OddTimesOdd(n: nat)
    requires n % 2 == 1
    ensures n * 31 % 2 == 1
  {
    var q := n / 2;
    assert n * 31 == 2 * (31 * q + 15) + 1;
  }

  lemma OddRemainder(h: nat, k: nat)
    requires h % 2 == 1
    ensures h % (2 * Pow2(k)) != 0
  {
    hide Pow2;
    var d := 2 * Pow2(k);
    assert h == 2 * (Pow2(k) * (h / d)) + h % d;
  }

  lemma LoneBuckets(zeros: nat, size: nat, k: nat)
    requires zeros >= BLOCK && size == 2 * Pow2(k)
    ensures Bucket(LoneBlock(zeros), 0, size) != 0
    ensures forall i :: 1 <= i && i + BLOCK <= zeros + 1 ==> Bucket(LoneBlock(zeros), i, size) == 0
  {
    FirstBucket(LoneBlock(zeros)[0..BLOCK], k);
    forall i | 1 <= i && i + BLOCK <= zeros + 1 ensures Bucket(LoneBlock(zeros), i, size) == 0 {
      ZeroBucket(LoneBlock(zeros), i, size);
    }
  }

  lemma ZeroBucket(s: bytes, i: nat, size: nat)
    requires i + BLOCK <= |s| && size > 0
    requires forall j :: i <= j < |s| ==> s[j] == 0
    ensures Bucket(s, i, size) == 0
  {
    RolledZeros(s[i..i + BLOCK]);
  }

  lemma OddHash(first: bytes)
    requires first != [] && first[0] == 1
    requires forall i :: 1 <= i < |first| ==> first[i] == 0
    ensures BlockHash(first) % 2 == 1
  {
    RolledOneIsOdd(first);
    OddBelow(Rolled(first), 0x4000_0000);
  }

  lemma OddBelow(h: nat, half: nat)
    requires h % 2 == 1 && half > 0
    ensures h % (2 * half) % 2 == 1
  {
    var q := h / (2 * half);
    assert h == 2 * (half * q) + h % (2 * half);
  }

  lemma FirstBucket(first: bytes, k: nat)
    requires first != [] && first[0] == 1
    requires forall i :: 1 <= i < |first| ==> first[i] == 0
    ensures BlockHash(first) % (2 * Pow2(k)) != 0
  {
    hide BlockHash, Pow2;
    OddHash(first);
    OddRemainder(BlockHash(first), k);
  }

  lemma {:induction false} LoneChain(zeros: nat, n: nat, size: nat)
    requires zeros >= BLOCK && 1 <= n <= zeros + 2 - BLOCK && size > 0
    requires Bucket(LoneBlock(zeros), 0, size) != 0
    requires forall i :: 1 <= i && i + BLOCK <= zeros + 1 ==> Bucket(LoneBlock(zeros), i, size) == 0
    ensures Chain(LoneBlock(zeros), n, Bucket(LoneBlock(zeros), 0, size), size) == [0]
  {
    var s, b := LoneBlock(zeros), Bucket(LoneBlock(zeros), 0, size);
    if n == 1 {
      assert Chain(s, 0, b, size) == [];
    } else {
      assert Bucket(s, n - 1, size) != b;
      LoneChain(zeros, n - 1, size);
    }
  }

  lemma {:induction false} MatchesItself(s: bytes, i: nat)
    requires i <= |s|
    ensures MatchLen(s, i, s, i) == |s| - i
    decreases |s| - i
  {
    if i < |s| { MatchesItself(s, i + 1); }
  }

  lemma LoneMatch(zeros: nat)
    requires zeros >= BLOCK
    ensures BestMatch(LoneBlock(zeros), LoneBlock(zeros), 0) == Match(0, zeros + 1)
  {
    var s, size := LoneBlock(zeros), TableSize(zeros + 1);
    var k := TableSizeIsPowerOfTwo(zeros + 1);
    assert k > 0 && size == 2 * Pow2(k - 1);
    LoneBuckets(zeros, size, k - 1);
    LoneChain(zeros, |s| - BLOCK + 1, size);
    assert Candidates(s, s, 0) == [0];
    MatchesItself(s, 0);
    var best := Match(0, zeros + 1);
    assert Longest(s, s, 0, [0], NO_MATCH) == Longest(s, s, 0, [0][1..], best);
    assert [0][1..] == [];
  }

  lemma LoneScript(zeros: nat)
    requires zeros >= BLOCK
    ensures Script(LoneBlock(zeros), LoneBlock(zeros)) == [Copy(0, zeros + 1)]
  {
    var s := LoneBlock(zeros);
    LoneMatch(zeros);
    var t := TakeTurn(s, s, 0, []);
    assert t.emitted == [Copy(0, zeros + 1)] && t.tgtOff == |s|;
    assert Plan(s, s, |s|, []) == [];
  }

  lemma {:induction false} ShortSize(n: nat, k: nat)
    requires n < 128 * Pow2(7 * k)
    ensures |SizeBytes(n)| <= k + 1
  {
    if n >= 128 && k > 0 {
      Pow2Seven(7 * (k - 1));
      ShortSize(n / 128, k - 1);
    }
  }

  lemma Pow2Seven(k: nat)
    ensures Pow2(k + 7) == 128 * Pow2(k)
  {
    assert Pow2(k + 2) == 4 * Pow2(k) by { assert Pow2(k + 1) == 2 * Pow2(k); }
    assert Pow2(k + 4) == 4 * Pow2(k + 2) by { assert Pow2(k + 3) == 2 * Pow2(k + 2); }
    assert Pow2(k + 6) == 4 * Pow2(k + 4) by { assert Pow2(k + 5) == 2 * Pow2(k + 4); }
  }

  lemma {:induction false} PackedShort(fields: bytes)
    ensures |Packed(fields)| <= |fields|
  {
    if fields != [] { PackedShort(fields[1..]); }
  }

  /** A Go slice's length takes at most nine bytes. */
  lemma SizeFitsNine(n: nat)
    requires n <= MAX_INT
    ensures |SizeBytes(n)| <= 9
  {
    hide Pow2;
    BigPower();
    ShortSize(n, 8);
  }

  lemma BigPower()
    ensures 128 * Pow2(56) == MAX_INT + 1
  {
    var half := Pow2(28);
    assert half == 0x1000_0000 by {
      hide Pow2;
      Pow2Seven(21); Pow2Seven(14); Pow2Seven(7); Pow2Seven(0);
      PowerOfNothing();
    }
    hide Pow2;
    Pow2Seven(49); Pow2Seven(42); Pow2Seven(35); Pow2Seven(28);
  }

  lemma PowerOfNothing()
    ensures Pow2(0) == 1
  {
  }

  /** A target that the source has as a whole, at one of the candidates for the
      target's start, is copied from there in one instruction: from 47 bytes on
      there is a delta. */
  lemma WholeMatchIsWorthIt(src: bytes, tgt: bytes, at: nat)
    requires |src| >= BLOCK && 47 <= |tgt| && |src| / 16 <= |tgt| && |src| <= MAX_INT && |tgt| <= MAX_INT
    requires at in Candidates(src, tgt, 0) && MatchLen(src, at, tgt, 0) == |tgt|
    ensures Delta(src, tgt).Some?
  {
    hide BestMatch, Candidates, MatchLen, SizeBytes, CopyBytes;
    BestMatchIsBest(src, tgt, 0);
    var m := BestMatch(src, tgt, 0);
    assert m == Match(m.srcOff, |tgt|);
    var copy := Copy(m.srcOff, |tgt|);
    WholeScript(src, tgt, m.srcOff);
    SizeFitsNine(|src|);
    SizeFitsNine(|tgt|);
    CopyFitsEight(m.srcOff, |tgt|);
    assert [copy][1..] == [] && ScriptBytes([copy]) == OpBytes(copy) + ScriptBytes([]);
  }

  lemma WholeScript(src: bytes, tgt: bytes, at: nat)
    requires |tgt| >= MIN_MATCH && BestMatch(src, tgt, 0) == Match(at, |tgt|)
    ensures Script(src, tgt) == [Copy(at, |tgt|)]
  {
    hide BestMatch;
    var t := TakeTurn(src, tgt, 0, []);
    assert t.emitted == [Copy(at, |tgt|)] && t.tgtOff == |tgt|;
    assert Plan(src, tgt, |tgt|, []) == [];
  }

  lemma CopyFitsEight(offset: nat, size: nat)
    ensures |CopyBytes(offset, size)| <= 8
  {
    PackedShort(CopyFields(offset, size));
  }

  /** From 2^24 on, for every length there is a file for which the generator
      returns a delta that does not restore it. */
  lemma LongMatchIsTruncated(n: nat)
    requires 0x100_0000 <= n <= MAX_INT
    ensures var s := LoneBlock(n - 1);
            && |s| == n
            && Delta(s, s).Some?
            && Apply(s, Delta(s, s).value).Ok?
            && Apply(s, Delta(s, s).value) != Ok(s)
  {
    var s := LoneBlock(n - 1);
    LoneScript(n - 1);
    var copy := Copy(0, n);
    SizeFitsNine(n);
    PackedShort(CopyFields(0, n));
    assert ScriptBytes([copy]) == OpBytes(copy) + ScriptBytes([]);
    DeltaRoundTripExactly(s, s);
    assert copy in Script(s, s) && !Survives(s, copy);
  }
}
