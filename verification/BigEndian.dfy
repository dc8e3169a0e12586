/** 32-bit integers in network byte order. */
module BigEndian {
  import opened Arithmetic
  import opened Prelude

  /** Big-endian, the value's low 32 bits. */
  function PutUint32(n: nat): (s: bytes)
    ensures |s| == 4
  {
    [n / 0x100_0000 % 0x100, n / 0x1_0000 % 0x100, n / 0x100 % 0x100, n % 0x100]
  }

  function Uint32(s: bytes): nat
    requires |s| == 4
  {
    s[0] as int * 0x100_0000 + s[1] as int * 0x1_0000 + s[2] as int * 0x100 + s[3] as int
  }

  lemma Uint32RoundTrip(n: nat)
    ensures Uint32(PutUint32(n)) == n % 0x1_0000_0000
  {
    var m1 := n / 0x100;
    var m2 := m1 / 0x100;
    var m3 := m2 / 0x100;
    var low2 := n % 0x100 + 0x100 * (m1 % 0x100);
    var low3 := low2 + 0x1_0000 * (m2 % 0x100);
    DivUnique(n, 0x1_0000, m2, low2);
    DivUnique(n, 0x100_0000, m3, low3);
    DivUnique(n, 0x1_0000_0000, m3 / 0x100, low3 + 0x100_0000 * (m3 % 0x100));
  }

  lemma Uint32Exact(n: nat)
    requires n < 0x1_0000_0000
    ensures Uint32(PutUint32(n)) == n
  {
    Uint32RoundTrip(n);
  }
}
