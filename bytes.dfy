/**
  Byte strings as the bidding scripts build them: unsigned big-endian integers
  of a fixed width (viem's `numberToHex` with a `size`), and lower-case `0x` hex
  text (viem's `toHex` / `keccak256` output).
 */
module Bytes {
  import opened Wrappers

  newtype byte = b: int | 0 <= b < 256

  type Bytes20 = s: seq<byte> | |s| == 20 witness Zeros(20)
  type Bytes32 = s: seq<byte> | |s| == 32 witness Zeros(32)

  /** keccak256 is left uninterpreted: every user takes it as a parameter. */
  type Keccak = seq<byte> -> Bytes32

  function Zeros(n: nat): (z: seq<byte>)
    ensures |z| == n && forall i :: 0 <= i < n ==> z[i] == 0
  {
    seq(n, _ => 0)
  }

  /** 256 to the power n: the number of values an n-byte word can hold. */
  function Pow256(n: nat): (p: nat)
    ensures p >= 1 && (n > 0 ==> p >= 256)
  {
    if n == 0 then 1 else 256 * Pow256(n - 1)
  }

  /** The number of values of a uint32 and of a uint256. */
  const Uint32Limit: nat := Pow256(4)
  const Uint256Limit: nat := Pow256(32)

  /** The unsigned integer a byte string denotes, most significant byte first. */
  function BigEndian(s: seq<byte>): (v: nat)
    ensures v < Pow256(|s|)
  {
    if s == [] then 0
    else
      var high := BigEndian(s[..|s| - 1]);
      assert high * 256 + 255 < Pow256(|s| - 1) * 256 by {
        assert high + 1 <= Pow256(|s| - 1);
      }
      high * 256 + s[|s| - 1] as nat
  }

  /** The n-byte big-endian word holding x. */
  function ToBigEndian(x: nat, n: nat): (s: seq<byte>)
    requires x < Pow256(n)
    ensures |s| == n && BigEndian(s) == x
  {
    if n == 0 then []
    else
      assert x / 256 < Pow256(n - 1);
      var h := ToBigEndian(x / 256, n - 1);
      var s := h + [(x % 256) as byte];
      assert s[..n - 1] == h;
      assert BigEndian(s) == BigEndian(h) * 256 + x % 256;
      s
  }

  /** Two words of one width that denote the same integer are the same word. */
  lemma {:induction false} BigEndianInjective(s: seq<byte>, t: seq<byte>)
    requires |s| == |t| && BigEndian(s) == BigEndian(t)
    ensures s == t
  {
    if s != [] {
      var n := |s|;
      var hs, ht := BigEndian(s[..n - 1]), BigEndian(t[..n - 1]);
      assert hs * 256 + s[n - 1] as int == ht * 256 + t[n - 1] as int;
      assert s[n - 1] == t[n - 1] && hs == ht by {
        assert (hs * 256 + s[n - 1] as int) % 256 == s[n - 1] as int;
        assert (ht * 256 + t[n - 1] as int) % 256 == t[n - 1] as int;
      }
      BigEndianInjective(s[..n - 1], t[..n - 1]);
      assert s == s[..n - 1] + [s[n - 1]];
      assert t == t[..n - 1] + [t[n - 1]];
    }
  }

  /**
    An unsigned integer written as an n-byte big-endian word, or None where
    viem refuses it (IntegerOutOfRangeError): negative, or too wide for n bytes.
   */
  function EncodeUint(x: int, n: nat): (r: Option<seq<byte>>)
    ensures r.Some? <==> 0 <= x < Pow256(n)
    ensures r.Some? ==> |r.value| == n && BigEndian(r.value) == x
  {
    if 0 <= x < Pow256(n) then Some(ToBigEndian(x, n)) else None
  }

  /** The lower-case hex digit of a nibble: `0`-`9`, then `a`-`f`. */
  function HexDigit(d: nat): char
    requires d < 16
  {
    if d < 10 then ('0' as int + d) as char else ('a' as int + d - 10) as char
  }

  /** The two lower-case hex digits of one byte. */
  function HexPair(b: byte): (h: string)
    ensures |h| == 2
  {
    [HexDigit(b as int / 16), HexDigit(b as int % 16)]
  }

  function HexBody(s: seq<byte>): (h: string)
    ensures |h| == 2 * |s|
  {
    if s == [] then "" else HexPair(s[0]) + HexBody(s[1..])
  }

  /** viem's hex text of a byte string: `0x` and two lower-case digits per byte. */
  function ToHex(s: seq<byte>): (h: string)
    ensures |h| == 2 + 2 * |s| && h[..2] == "0x"
  {
    "0x" + HexBody(s)
  }

  lemma HexPairInjective(a: byte, b: byte)
    requires HexPair(a) == HexPair(b)
    ensures a == b
  {
    assert HexDigit(a as int / 16) == HexDigit(b as int / 16);
    assert HexDigit(a as int % 16) == HexDigit(b as int % 16);
    assert a as int == (a as int / 16) * 16 + a as int % 16;
  }

  /** Distinct byte strings have distinct hex text, so comparing hex text compares the bytes. */
  lemma {:induction false} ToHexInjective(s: seq<byte>, t: seq<byte>)
    requires ToHex(s) == ToHex(t)
    ensures s == t
  {
    assert HexBody(s) == ToHex(s)[2..] == ToHex(t)[2..] == HexBody(t);
    HexBodyInjective(s, t);
  }

  lemma {:induction false} HexBodyInjective(s: seq<byte>, t: seq<byte>)
    requires HexBody(s) == HexBody(t)
    ensures s == t
  {
    if s != [] {
      assert |t| == |s|;
      assert HexBody(s)[..2] == HexPair(s[0]) && HexBody(t)[..2] == HexPair(t[0]);
      HexPairInjective(s[0], t[0]);
      assert HexBody(s)[2..] == HexBody(s[1..]) && HexBody(t)[2..] == HexBody(t[1..]);
      HexBodyInjective(s[1..], t[1..]);
      assert s == [s[0]] + s[1..] && t == [t[0]] + t[1..];
    }
  }
}
