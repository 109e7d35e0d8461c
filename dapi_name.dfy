/**
  The bytes32 form of a dAPI name, `toHex(name.padEnd(32, "\0"), { size: 32 })`:
  the name is padded with NUL characters to 32 UTF-16 code units, encoded as
  UTF-8, and refused when the encoding is longer than 32 bytes. The registry
  looks the feed up by keccak256 of those 32 bytes.
 */
module DapiName {
  import opened Wrappers
  import opened Bytes

  const NameSize: nat := 32

  /** UTF-16 code units of one character: two for a character outside the basic plane. */
  function Utf16Units(c: char): nat {
    if c as int < 0x10000 then 1 else 2
  }

  /** `length` of a JavaScript string. */
  function Utf16Length(s: string): (n: nat)
    ensures n >= |s|
  {
    if s == [] then 0 else Utf16Units(s[0]) + Utf16Length(s[1..])
  }

  /** `padEnd(n, "\0")`: NUL characters appended until the string is n code units long. */
  function PadEnd(s: string, n: nat): (p: string)
    ensures |p| >= |s|
    ensures Utf16Length(s) >= n ==> p == s
    ensures Utf16Length(s) < n ==> Utf16Length(p) == n && p[..|s|] == s
    ensures forall i :: |s| <= i < |p| ==> p[i] == '\0'
  {
    if Utf16Length(s) >= n then s
    else
      var nuls := seq(n - Utf16Length(s), _ => '\0');
      Utf16LengthConcat(s, nuls);
      assert Utf16Length(nuls) == |nuls| by { AsciiUtf16Length(nuls); }
      assert (s + nuls)[..|s|] == s;
      s + nuls
  }

  /** The UTF-8 encoding of one character (`TextEncoder`). */
  function Utf8Char(c: char): (bs: seq<byte>)
    ensures |bs| == (if c as int < 0x80 then 1 else if c as int < 0x800 then 2 else if c as int < 0x10000 then 3 else 4)
    ensures c as int < 0x80 ==> bs == [c as int as byte]
  {
    var v := c as int;
    if v < 0x80 then [v as byte]
    else if v < 0x800 then [(0xC0 + v / 0x40) as byte, (0x80 + v % 0x40) as byte]
    else if v < 0x10000 then
      [(0xE0 + v / 0x1000) as byte, (0x80 + v / 0x40 % 0x40) as byte, (0x80 + v % 0x40) as byte]
    else
      [(0xF0 + v / 0x40000) as byte, (0x80 + v / 0x1000 % 0x40) as byte,
       (0x80 + v / 0x40 % 0x40) as byte, (0x80 + v % 0x40) as byte]
  }

  function Utf8(s: string): seq<byte> {
    if s == [] then [] else Utf8Char(s[0]) + Utf8(s[1..])
  }

  predicate AllAscii(s: string) {
    forall i :: 0 <= i < |s| ==> s[i] as int < 0x80
  }

  /** The bytes of an ASCII string, one per character. */
  function AsciiBytes(s: string): (bs: seq<byte>)
    requires AllAscii(s)
    ensures |bs| == |s| && forall i :: 0 <= i < |s| ==> bs[i] as int == s[i] as int
  {
    seq(|s|, i requires 0 <= i < |s| => s[i] as int as byte)
  }

  datatype EncodeError = SizeOverflow(givenSize: nat, maxSize: nat)

  /** viem's `bytesToHex(bytes, { size })`: refused when longer than size, else padded on the right with zeros. */
  function Sized(bs: seq<byte>, size: nat): (r: Result<seq<byte>, EncodeError>)
    ensures r.Ok? <==> |bs| <= size
    ensures r.Ok? ==> r.value == bs + Zeros(size - |bs|)
  {
    if |bs| > size then Err(SizeOverflow(|bs|, size)) else Ok(bs + Zeros(size - |bs|))
  }

  /** `toHex(name.padEnd(32, "\0"), { size: 32 })`, as bytes. */
  function EncodeDapiName(name: string): (r: Result<Bytes32, EncodeError>) {
    match Sized(Utf8(PadEnd(name, NameSize)), NameSize)
    case Ok(bs) => Ok(bs)
    case Err(e) => Err(e)
  }

  /** keccak256 of the encoded name: the key `dapiNameHashToDataFeedId` is read with. */
  function DapiNameHash(keccak: Keccak, name: string): (h: Result<Bytes32, EncodeError>)
    ensures h.Ok? <==> EncodeDapiName(name).Ok?
  {
    match EncodeDapiName(name)
    case Ok(bs) => Ok(keccak(bs))
    case Err(e) => Err(e)
  }

  lemma {:induction false} Utf16LengthConcat(a: string, b: string)
    ensures Utf16Length(a + b) == Utf16Length(a) + Utf16Length(b)
  {
    if a != [] {
      assert (a + b)[1..] == a[1..] + b;
      Utf16LengthConcat(a[1..], b);
    } else {
      assert a + b == b;
    }
  }

  lemma {:induction false} Utf8Concat(a: string, b: string)
    ensures Utf8(a + b) == Utf8(a) + Utf8(b)
  {
    if a != [] {
      assert (a + b)[1..] == a[1..] + b;
      Utf8Concat(a[1..], b);
    } else {
      assert a + b == b;
    }
  }

  lemma {:induction false} AsciiUtf16Length(s: string)
    requires AllAscii(s)
    ensures Utf16Length(s) == |s|
  {
    if s != [] {
      AsciiUtf16Length(s[1..]);
    }
  }

  /** UTF-8 never takes fewer bytes than UTF-16 code units, and takes as many only for ASCII. */
  lemma {:induction false} Utf8AtLeastUtf16(s: string)
    ensures |Utf8(s)| >= Utf16Length(s)
    ensures |Utf8(s)| == Utf16Length(s) <==> AllAscii(s)
  {
    if s != [] {
      Utf8AtLeastUtf16(s[1..]);
      if AllAscii(s[1..]) && s[0] as int < 0x80 {
        forall i | 0 <= i < |s| ensures s[i] as int < 0x80 {
          if i > 0 { assert s[i] == s[1..][i - 1]; }
        }
      }
      if AllAscii(s) {
        assert forall i :: 0 <= i < |s[1..]| ==> s[1..][i] == s[i + 1];
      }
    }
  }

  lemma {:induction false} AsciiUtf8(s: string)
    requires AllAscii(s)
    ensures Utf8(s) == AsciiBytes(s)
  {
    if s != [] {
      AsciiUtf8(s[1..]);
      assert AsciiBytes(s) == [s[0] as int as byte] + AsciiBytes(s[1..]);
    }
  }

  /**
    The name encodes exactly when it is ASCII and at most 32 characters long,
    and then its bytes are the characters followed by zero bytes.
   */
  lemma EncodeDapiNameExact(name: string)
    ensures EncodeDapiName(name).Ok? <==> AllAscii(name) && |name| <= NameSize
    ensures EncodeDapiName(name).Ok? ==> AllAscii(name) && EncodeDapiName(name).value == AsciiBytes(name) + Zeros(NameSize - |name|)
  {
    var padded := PadEnd(name, NameSize);
    Utf8AtLeastUtf16(name);
    if Utf16Length(name) >= NameSize {
      if AllAscii(name) {
        AsciiUtf16Length(name);
        if |name| == NameSize {
          AsciiUtf8(name);
        }
      }
    } else {
      var nuls := padded[|name|..];
      assert padded == name + nuls;
      assert AllAscii(nuls);
      AsciiUtf16Length(nuls);
      AsciiUtf8(nuls);
      Utf8Concat(name, nuls);
      Utf16LengthConcat(name, nuls);
      if AllAscii(name) {
        AsciiUtf16Length(name);
        AsciiUtf8(name);
        assert AsciiBytes(nuls) == Zeros(|nuls|);
        assert |nuls| == NameSize - |name|;
        assert Utf8(padded) + Zeros(0) == AsciiBytes(name) + Zeros(NameSize - |name|);
      }
    }
  }

  /** The name an encoded dAPI name holds: the bytes before the first zero, one character each. */
  function DecodeDapiName(bs: seq<byte>): (name: string)
    ensures |name| <= |bs| && '\0' !in name
  {
    if bs == [] || bs[0] == 0 then []
    else [bs[0] as int as char] + DecodeDapiName(bs[1..])
  }

  /** Decoding gives back every ASCII name without NUL characters of at most 32 characters. */
  lemma DapiNameRoundTrip(name: string)
    requires AllAscii(name) && |name| <= NameSize && '\0' !in name
    ensures EncodeDapiName(name).Ok? && DecodeDapiName(EncodeDapiName(name).value) == name
  {
    EncodeDapiNameExact(name);
    DecodeAsciiPadded(name, NameSize - |name|);
  }

  lemma {:induction false} DecodeAsciiPadded(name: string, k: nat)
    requires AllAscii(name) && '\0' !in name
    ensures DecodeDapiName(AsciiBytes(name) + Zeros(k)) == name
  {
    var bs := AsciiBytes(name) + Zeros(k);
    if name == [] {
      assert bs == Zeros(k);
      if k > 0 { assert bs[0] == 0; }
    } else {
      assert name[0] in name;
      assert bs[1..] == AsciiBytes(name[1..]) + Zeros(k);
      assert '\0' !in name[1..] by {
        forall i | 0 <= i < |name[1..]| ensures name[1..][i] != '\0' { assert name[1..][i] == name[i + 1]; assert name[i + 1] in name; }
      }
      DecodeAsciiPadded(name[1..], k);
    }
  }

  /** Two names of the round trip that encode alike are the same name. */
  lemma EncodeDapiNameInjective(a: string, b: string)
    requires AllAscii(a) && |a| <= NameSize && '\0' !in a
    requires AllAscii(b) && |b| <= NameSize && '\0' !in b
    requires EncodeDapiName(a) == EncodeDapiName(b)
    ensures a == b
  {
    DapiNameRoundTrip(a);
    DapiNameRoundTrip(b);
  }
}
