/** Machine integers of the original and their little-endian byte forms. */
module Bytes {

  type byte = x: int | 0 <= x < 0x100
  type half = x: int | 0 <= x < 0x1_0000
  type word = x: int | 0 <= x < 0x1_0000_0000

  /** n zero bytes, the value of every `{0}` initialiser and of every reset field. */
  function Zeros(n: nat): (s: seq<byte>)
    ensures |s| == n
  {
    seq(n, _ => 0)
  }

  function EncodeHalf(x: half): (s: seq<byte>)
    ensures |s| == 2
  {
    [x % 0x100, x / 0x100]
  }

  function DecodeHalf(s: seq<byte>): half
    requires |s| == 2
  {
    s[0] as int + 0x100 * s[1] as int
  }

  function EncodeWord(x: word): (s: seq<byte>)
    ensures |s| == 4
  {
    EncodeHalf(x % 0x1_0000) + EncodeHalf(x / 0x1_0000)
  }

  function DecodeWord(s: seq<byte>): word
    requires |s| == 4
  {
    DecodeHalf(s[..2]) as int + 0x1_0000 * DecodeHalf(s[2..]) as int
  }

  lemma Divided(b: int, a: int, hi: int)
    requires 0 <= a < 0x100 && 0 <= b < 0x100
    ensures (a + 0x100 * (b + 0x100 * hi)) % 0x100 == a
    ensures (a + 0x100 * (b + 0x100 * hi)) / 0x100 % 0x100 == b
    ensures (a + 0x100 * (b + 0x100 * hi)) / 0x1_0000 == hi
  {
  }

  lemma WordBytes(x: word)
    ensures EncodeWord(x) == [x % 0x100, x / 0x100 % 0x100, x / 0x1_0000 % 0x100, x / 0x100_0000]
  {
    var lo, hi := x % 0x1_0000, x / 0x1_0000;
    Divided(lo / 0x100, lo % 0x100, hi);
    Divided(hi / 0x100, hi % 0x100, 0);
    assert x == lo % 0x100 + 0x100 * (lo / 0x100 + 0x100 * hi);
  }

  lemma WordRoundTrip(x: word)
    ensures DecodeWord(EncodeWord(x)) == x
  {
    var lo, hi := EncodeHalf(x % 0x1_0000), EncodeHalf(x / 0x1_0000);
    assert (lo + hi)[..2] == lo && (lo + hi)[2..] == hi;
  }

  lemma WordBytesRoundTrip(s: seq<byte>)
    requires |s| == 4
    ensures EncodeWord(DecodeWord(s)) == s
  {
    var lo: int, hi: int := DecodeHalf(s[..2]), DecodeHalf(s[2..]);
    assert (lo + 0x1_0000 * hi) % 0x1_0000 == lo && (lo + 0x1_0000 * hi) / 0x1_0000 == hi;
    assert EncodeHalf(lo) == s[..2] && EncodeHalf(hi) == s[2..];
  }
}
