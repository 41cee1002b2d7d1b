/** The rendering step of `generateToken`: a run of byte values written as
    lowercase hexadecimal, two zero-padded digits per byte, in order. The bytes
    themselves come from a random source, which is a parameter here. */
module Tokens {
  import opened Wrappers

  /** A value drawn from `uniform_int_distribution<>(0, 255)`. */
  newtype uint8 = x: int | 0 <= x < 256

  /** How many bytes one token is made of. */
  const TokenBytes := 32

  /** The characters `std::hex` writes: decimal digits and lowercase `a`-`f`. */
  predicate IsHexChar(c: char) {
    '0' <= c <= '9' || 'a' <= c <= 'f'
  }

  /** The digit `std::hex` writes for a value below sixteen. */
  function HexDigit(n: int): (c: char)
    requires 0 <= n < 16
    ensures IsHexChar(c)
  {
    if n < 10 then ('0' as int + n) as char else ('a' as int + n - 10) as char
  }

  /** The value of a lowercase hex digit; `None` for any other character. */
  function DigitValue(c: char): (v: Option<int>)
    ensures v.Some? <==> IsHexChar(c)
    ensures v.Some? ==> 0 <= v.value < 16 && HexDigit(v.value) == c
    ensures forall n :: 0 <= n < 16 && HexDigit(n) == c ==> v == Some(n)
  {
    if '0' <= c <= '9' then Some(c as int - '0' as int)
    else if 'a' <= c <= 'f' then Some(c as int - 'a' as int + 10)
    else None
  }

  /** One byte as `std::setw(2) << std::setfill('0')` writes it in hex. */
  function HexByte(b: uint8): (s: string)
    ensures |s| == 2
    ensures DigitValue(s[0]) == Some(b as int / 16) && DigitValue(s[1]) == Some(b as int % 16)
    ensures b < 16 ==> s[0] == '0'
  {
    [HexDigit(b as int / 16), HexDigit(b as int % 16)]
  }

  /** Every character is a lowercase hex digit. */
  predicate IsLowerHex(s: string) {
    forall i :: 0 <= i < |s| ==> IsHexChar(s[i])
  }

  /** The whole rendering: byte `k` becomes characters `2k` and `2k+1`. */
  function HexString(bs: seq<uint8>): (s: string)
    ensures |s| == 2 * |bs|
    ensures IsLowerHex(s)
  {
    if bs == [] then "" else HexString(bs[..|bs| - 1]) + HexByte(bs[|bs| - 1])
  }

  /** Byte `k` becomes characters `2k` and `2k+1`, in order. */
  lemma {:induction false} HexStringAt(bs: seq<uint8>, k: nat)
    requires k < |bs|
    ensures HexString(bs)[2 * k..2 * k + 2] == HexByte(bs[k])
  {
    var init := bs[..|bs| - 1];
    if k < |bs| - 1 {
      HexStringAt(init, k);
      assert HexString(bs)[..2 * |init|] == HexString(init);
    }
  }

  /** Reads a lowercase hex string back into bytes; `None` when its length is
      odd or it holds any other character. */
  function DecodeHex(s: string): (r: Option<seq<uint8>>)
    ensures r.Some? ==> 2 * |r.value| == |s|
  {
    if |s| < 2 then (if s == [] then Some([]) else None)
    else
      var init := DecodeHex(s[..|s| - 2]);
      var hi := DigitValue(s[|s| - 2]);
      var lo := DigitValue(s[|s| - 1]);
      if init.Some? && hi.Some? && lo.Some? then Some(init.value + [(16 * hi.value + lo.value) as uint8])
      else None
  }

  /** Decoding undoes rendering. */
  lemma {:induction false} DecodeHexString(bs: seq<uint8>)
    ensures DecodeHex(HexString(bs)) == Some(bs)
  {
    if bs != [] {
      var init := bs[..|bs| - 1];
      var b := bs[|bs| - 1];
      var s := HexString(bs);
      assert s == HexString(init) + HexByte(b);
      DecodeHexString(init);
      assert s[..|s| - 2] == HexString(init);
      assert s[|s| - 2] == HexByte(b)[0] && s[|s| - 1] == HexByte(b)[1];
      assert 16 * (b as int / 16) + b as int % 16 == b as int;
      assert init + [b] == bs;
    }
  }

  /** A string decodes exactly when it has even length and only lowercase
      hex digits: the strings rendering can produce. */
  lemma {:induction false} LowerHexDecodes(s: string)
    ensures DecodeHex(s).Some? <==> |s| % 2 == 0 && IsLowerHex(s)
  {
    if |s| >= 2 {
      var init := s[..|s| - 2];
      LowerHexDecodes(init);
      assert forall i :: 0 <= i < |init| ==> init[i] == s[i];
      if |s| % 2 == 0 && IsLowerHex(s) {
        assert IsLowerHex(init);
      }
      if DecodeHex(s).Some? {
        forall i | 0 <= i < |s| ensures IsHexChar(s[i]) {
          if i < |init| {
            assert init[i] == s[i];
          }
        }
      }
    } else if |s| == 1 {
      assert !(|s| % 2 == 0);
    }
  }

  /** Rendering undoes decoding: every decodable string is the rendering of
      its decoding. With LowerHexDecodes and DecodeHexString, rendering is a
      bijection from byte runs onto even-length lowercase hex strings. */
  lemma {:induction false} HexStringDecoded(s: string)
    requires DecodeHex(s).Some?
    ensures HexString(DecodeHex(s).value) == s
  {
    if |s| >= 2 {
      var bs := DecodeHex(s).value;
      var hi := DigitValue(s[|s| - 2]).value;
      var lo := DigitValue(s[|s| - 1]).value;
      var b := (16 * hi + lo) as uint8;
      var init := DecodeHex(s[..|s| - 2]).value;
      assert bs == init + [b];
      assert bs[..|bs| - 1] == init && bs[|bs| - 1] == b;
      HexStringDecoded(s[..|s| - 2]);
      assert b as int / 16 == hi && b as int % 16 == lo;
      assert HexByte(b) == s[|s| - 2..];
      assert s == s[..|s| - 2] + s[|s| - 2..];
    }
  }

  /** generateToken with its random draws supplied as `bytes`. */
  method GenerateToken(bytes: seq<uint8>) returns (token: string)
    requires |bytes| == TokenBytes
    ensures token == HexString(bytes)
    ensures |token| == 2 * TokenBytes && IsLowerHex(token)
  {
    token := "";
    for i := 0 to TokenBytes
      invariant token == HexString(bytes[..i])
    {
      assert bytes[..i + 1][..i] == bytes[..i];
      token := token + HexByte(bytes[i]);
    }
    assert bytes[..TokenBytes] == bytes;
  }
}
