/** Base16 encoding as in section 8 of RFC 4648, the way the `hex` crate
    implements it: decoding accepts upper- and lower-case digits and fails on
    an odd length or a non-hex character; encoding emits lower-case digits. */
module Hex {
  import opened Wrappers
  import Ascii

  type byte = x: int | 0 <= x < 256

  predicate IsHexDigit(c: char) { '0' <= c <= '9' || 'a' <= c <= 'f' || 'A' <= c <= 'F' }

  predicate IsLowerHexDigit(c: char) { '0' <= c <= '9' || 'a' <= c <= 'f' }

  /** Text that decodes: an even number of hex digits of either case. */
  predicate IsHex(s: string) {
    |s| % 2 == 0 && forall i :: 0 <= i < |s| ==> IsHexDigit(s[i])
  }

  /** Text in the canonical form that encoding produces. */
  predicate IsLowerHex(s: string) {
    |s| % 2 == 0 && forall i :: 0 <= i < |s| ==> IsLowerHexDigit(s[i])
  }

  function DigitValue(c: char): (v: nat)
    requires IsHexDigit(c)
    ensures v < 16
  {
    if '0' <= c <= '9' then c as int - '0' as int
    else if 'a' <= c <= 'f' then c as int - 'a' as int + 10
    else c as int - 'A' as int + 10
  }

  /** The lower-case digit for a nibble; `DigitValue` is its inverse. */
  function LowerDigit(v: nat): (c: char)
    requires v < 16
    ensures IsLowerHexDigit(c)
    ensures DigitValue(c) == v
  {
    if v < 10 then ('0' as int + v) as char else ('a' as int + v - 10) as char
  }

  /** Decoding (`hex::decode(s).ok()`): fails exactly on malformed text, and
      otherwise yields one byte per digit pair (see `DecodeBytes`). */
  function Decode(s: string): (r: Option<seq<byte>>)
    ensures r.Some? <==> IsHex(s)
    ensures r.Some? ==> |r.value| == |s| / 2
    decreases |s|
  {
    if |s| == 0 then Some([])
    else if |s| == 1 || !IsHexDigit(s[0]) || !IsHexDigit(s[1]) then None
    else
      match Decode(s[2..])
      case None => None
      case Some(rest) => Some([16 * DigitValue(s[0]) + DigitValue(s[1])] + rest)
  }

  /** Byte j of a decoding is the value of the digit pair at positions 2j, 2j+1. */
  lemma {:induction false} DecodeBytes(s: string)
    requires IsHex(s)
    ensures Decode(s).Some?
    ensures forall j :: 0 <= j < |s| / 2 ==>
              Decode(s).value[j] == 16 * DigitValue(s[2 * j]) + DigitValue(s[2 * j + 1])
  {
    if |s| > 0 {
      DecodeFirstPair(s);
      DecodeBytes(s[2..]);
      var b := Decode(s).value;
      forall j | 1 <= j < |s| / 2
        ensures b[j] == 16 * DigitValue(s[2 * j]) + DigitValue(s[2 * j + 1])
      {
        assert b[j] == Decode(s[2..]).value[j - 1];
        assert s[2..][2 * (j - 1)] == s[2 * j];
        assert s[2..][2 * (j - 1) + 1] == s[2 * j + 1];
      }
    }
  }

  /** Encoding (`hex::encode`): two lower-case digits per byte, high nibble first. */
  function Encode(bs: seq<byte>): (s: string)
    ensures |s| == 2 * |bs|
    ensures IsLowerHex(s)
  {
    if |bs| == 0 then []
    else [LowerDigit(bs[0] / 16), LowerDigit(bs[0] % 16)] + Encode(bs[1..])
  }

  /** Case folding of hex text; the canonical form of a decodable string. */
  function LowerHex(s: string): (t: string)
    ensures |t| == |s|
  {
    seq(|s|, i requires 0 <= i < |s| => Ascii.ToLower(s[i]))
  }

  /** A digit re-encoded from its value is the digit folded to lower case. */
  lemma LowerDigitOfValue(c: char)
    requires IsHexDigit(c)
    ensures LowerDigit(DigitValue(c)) == Ascii.ToLower(c)
  {
    if 'A' <= c <= 'F' {
      assert Ascii.ToLower(c) as int == c as int + 32;
    }
  }

  lemma ByteSplit(b: byte)
    ensures b / 16 < 16 && 16 * (b / 16) + b % 16 == b
  {
  }

  /** Decoding inverts encoding. */
  lemma {:induction false} DecodeEncode(bs: seq<byte>)
    ensures Decode(Encode(bs)) == Some(bs)
  {
    if |bs| > 0 {
      var s := Encode(bs);
      var hi, lo := bs[0] / 16, bs[0] % 16;
      assert s == [LowerDigit(hi), LowerDigit(lo)] + Encode(bs[1..]);
      assert s[0] == LowerDigit(hi) && s[1] == LowerDigit(lo);
      assert s[2..] == Encode(bs[1..]);
      DecodeEncode(bs[1..]);
      assert IsHexDigit(s[0]) && IsHexDigit(s[1]);
      assert Decode(s[2..]) == Some(bs[1..]);
      assert DigitValue(s[0]) == hi && DigitValue(s[1]) == lo;
      assert Decode(s) == Some([16 * hi + lo] + bs[1..]);
      ByteSplit(bs[0]);
      assert [bs[0]] + bs[1..] == bs;
    }
  }

  /** Encoding what was decoded gives back the text, folded to lower case. */
  lemma {:induction false} EncodeDecode(s: string)
    requires IsHex(s)
    ensures Decode(s).Some? && Encode(Decode(s).value) == LowerHex(s)
  {
    if |s| > 0 {
      var rest := s[2..];
      HexTail(s);
      EncodeDecode(rest);
      var v := 16 * DigitValue(s[0]) + DigitValue(s[1]);
      var tail := Decode(rest).value;
      DecodeFirstPair(s);
      FirstPairRoundTrip(s[0], s[1]);
      var pair := [Ascii.ToLower(s[0]), Ascii.ToLower(s[1])];
      calc {
        Encode(Decode(s).value);
        Encode([v] + tail);
        [LowerDigit(v / 16), LowerDigit(v % 16)] + Encode(tail);
        pair + LowerHex(rest);
        { LowerHexFirstPair(s); }
        LowerHex(s);
      }
    }
  }

  lemma HexTail(s: string)
    requires IsHex(s) && |s| >= 2
    ensures IsHex(s[2..])
  {
    var rest := s[2..];
    forall i | 0 <= i < |rest| ensures IsHexDigit(rest[i]) {
      assert rest[i] == s[i + 2];
    }
  }

  lemma DecodeFirstPair(s: string)
    requires IsHex(s) && |s| >= 2
    ensures IsHex(s[2..])
    ensures Decode(s).value == [16 * DigitValue(s[0]) + DigitValue(s[1])] + Decode(s[2..]).value
  {
    HexTail(s);
  }

  lemma LowerHexFirstPair(s: string)
    requires |s| >= 2
    ensures LowerHex(s) == [Ascii.ToLower(s[0]), Ascii.ToLower(s[1])] + LowerHex(s[2..])
  {
  }

  lemma FirstPairRoundTrip(c0: char, c1: char)
    requires IsHexDigit(c0) && IsHexDigit(c1)
    ensures var v := 16 * DigitValue(c0) + DigitValue(c1);
      LowerDigit(v / 16) == Ascii.ToLower(c0) && LowerDigit(v % 16) == Ascii.ToLower(c1)
  {
    var v := 16 * DigitValue(c0) + DigitValue(c1);
    assert v / 16 == DigitValue(c0) && v % 16 == DigitValue(c1);
    LowerDigitOfValue(c0);
    LowerDigitOfValue(c1);
  }

  /** Distinct byte strings have distinct encodings. */
  lemma EncodeInjective(a: seq<byte>, b: seq<byte>)
    requires Encode(a) == Encode(b)
    ensures a == b
  {
    DecodeEncode(a);
    DecodeEncode(b);
  }

}
