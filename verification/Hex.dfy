/** Hexadecimal text, as object names are written. */
module Hex {
  import opened Prelude

  function HexDigit(n: nat): char
    requires n < 16
  {
    "0123456789abcdef"[n]
  }

  /** Either letter case is read. */
  function DigitValue(c: char): (r: Option<nat>)
    ensures r.Some? ==> r.value < 16
  {
    if '0' <= c <= '9' then Some((c - '0') as nat)
    else if 'a' <= c <= 'f' then Some((c - 'a') as nat + 10)
    else if 'A' <= c <= 'F' then Some((c - 'A') as nat + 10)
    else None
  }

  function HexEncode(s: bytes): string {
    if s == [] then "" else [HexDigit(s[0] as int / 16), HexDigit(s[0] as int % 16)] + HexEncode(s[1..])
  }

  function HexDecode(t: string): Option<bytes> {
    if t == "" then Some([])
    else if |t| == 1 then None
    else
      match (DigitValue(t[0]), DigitValue(t[1]), HexDecode(t[2..]))
      case (Some(high), Some(low), Some(rest)) => Some([high * 16 + low] + rest)
      case _ => None
  }

  lemma {:induction false} HexRoundTrip(s: bytes)
    ensures HexDecode(HexEncode(s)) == Some(s)
  {
    hide HexDecode, DigitValue, HexDigit;
    DecodeNothing();
    if s != [] {
      HexRoundTrip(s[1..]);
      var high, low := s[0] as int / 16, s[0] as int % 16;
      DigitRoundTrip(high);
      DigitRoundTrip(low);
      DecodeOneMore(HexDigit(high), HexDigit(low), HexEncode(s[1..]), s[0], s[1..]);
      assert s == [s[0]] + s[1..];
    }
  }

  lemma DecodeNothing()
    ensures HexDecode("") == Some([])
  {
  }

  lemma DecodeOneMore(c: char, d: char, t: string, b: byte, rest: bytes)
    requires DigitValue(c) == Some(b as int / 16) && DigitValue(d) == Some(b as int % 16)
    requires HexDecode(t) == Some(rest)
    ensures HexDecode([c, d] + t) == Some([b] + rest)
  {
    assert ([c, d] + t)[2..] == t;
  }

  lemma DigitRoundTrip(n: nat)
    requires n < 16
    ensures DigitValue(HexDigit(n)) == Some(n)
  {
  }

  /** Distinct names, distinct bytes. */
  lemma HexInjective(s: bytes, t: bytes)
    requires HexEncode(s) == HexEncode(t)
    ensures s == t
  {
    HexRoundTrip(s);
    HexRoundTrip(t);
  }
}
