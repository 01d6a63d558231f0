/** Bytes, and the hex form src/hookguard_core/stricthex.py accepts (RFC 4648 section 8, either
  * letter case). */
module Hex {
  import opened Wrappers
  import opened Text

  type byte = x: int | 0 <= x < 256

  function HexDigit(n: int): char
    requires 0 <= n < 16
  {
    if n < 10 then ('0' as int + n) as char else ('a' as int + n - 10) as char
  }

  predicate IsHexDigit(c: char) {
    '0' <= c <= '9' || 'a' <= c <= 'f' || 'A' <= c <= 'F'
  }

  function Nibble(c: char): (n: int)
    requires IsHexDigit(c)
    ensures 0 <= n < 16
  {
    if '0' <= c <= '9' then c as int - '0' as int
    else if 'a' <= c <= 'f' then c as int - 'a' as int + 10
    else c as int - 'A' as int + 10
  }

  function EncodeByte(b: byte): string {
    [HexDigit(b / 16), HexDigit(b % 16)]
  }

  function DecodeByte(high: char, low: char): byte
    requires IsHexDigit(high) && IsHexDigit(low)
  {
    16 * Nibble(high) + Nibble(low)
  }

  /** `bytes.hex()`. */
  function Encode(bs: seq<byte>): string {
    if bs == [] then "" else EncodeByte(bs[0]) + Encode(bs[1..])
  }

  /** `bytes.fromhex`: pairs of hex digits, with ASCII whitespace skipped between pairs. */
  function FromHex(s: string): Option<seq<byte>> {
    if s == "" then Some([])
    else if IsAsciiSpace(s[0]) then FromHex(s[1..])
    else if |s| < 2 || !IsHexDigit(s[0]) || !IsHexDigit(s[1]) then None
    else
      match FromHex(s[2..])
      case None => None
      case Some(tail) => Some([DecodeByte(s[0], s[1])] + tail)
  }

  /** What the strict decoder takes: hex digits in pairs. */
  predicate IsHex(s: string) {
    |s| % 2 == 0 && forall i :: 0 <= i < |s| ==> IsHexDigit(s[i])
  }

  /** `decode_hex`: the shape test, then the lenient conversion. */
  function Decode(s: string): Option<seq<byte>> {
    if !IsHex(s) then None else FromHex(s)
  }

  lemma NibbleOfDigit(n: int)
    requires 0 <= n < 16
    ensures IsHexDigit(HexDigit(n)) && !IsAsciiSpace(HexDigit(n)) && Nibble(HexDigit(n)) == n
  {}

  lemma DecodeEncodeByte(b: byte)
    ensures var s := EncodeByte(b);
            && |s| == 2 && IsHexDigit(s[0]) && IsHexDigit(s[1]) && !IsAsciiSpace(s[0])
            && DecodeByte(s[0], s[1]) == b
  {
    NibbleOfDigit(b / 16);
    NibbleOfDigit(b % 16);
  }

  lemma EncodeDecodeByte(high: char, low: char)
    requires IsHexDigit(high) && IsHexDigit(low)
    ensures EncodeByte(DecodeByte(high, low)) == [LowerChar(high), LowerChar(low)]
  {
    var b := DecodeByte(high, low);
    assert b / 16 == Nibble(high) && b % 16 == Nibble(low);
  }

  lemma FromHexPair(s: string, tail: seq<byte>)
    requires |s| >= 2 && IsHexDigit(s[0]) && IsHexDigit(s[1]) && !IsAsciiSpace(s[0])
    requires FromHex(s[2..]) == Some(tail)
    ensures FromHex(s) == Some([DecodeByte(s[0], s[1])] + tail)
  {}

  lemma {:induction false} EncodeIsHex(bs: seq<byte>)
    ensures IsHex(Encode(bs))
  {
    if bs == [] {
    } else {
      EncodeIsHex(bs[1..]);
      DecodeEncodeByte(bs[0]);
    }
  }

  /** Encoding then decoding gives the bytes back, through either decoder. */
  lemma {:induction false} DecodeEncode(bs: seq<byte>)
    ensures FromHex(Encode(bs)) == Some(bs) && Decode(Encode(bs)) == Some(bs)
  {
    EncodeIsHex(bs);
    if bs == [] {
    } else {
      DecodeEncode(bs[1..]);
      DecodeEncodeByte(bs[0]);
      var s, pair := Encode(bs), EncodeByte(bs[0]);
      assert s[0] == pair[0] && s[1] == pair[1] && s[2..] == Encode(bs[1..]);
      FromHexPair(s, bs[1..]);
      assert [bs[0]] + bs[1..] == bs;
    }
  }

  /** Every string of the strict shape decodes, and encoding the result restores it up to case. */
  lemma {:induction false} EncodeDecode(s: string)
    requires IsHex(s)
    ensures FromHex(s).Some? && Encode(FromHex(s).value) == Lower(s)
  {
    if s == "" {
    } else {
      EncodeDecode(s[2..]);
      EncodeDecodeByte(s[0], s[1]);
      var bs := FromHex(s).value;
      assert bs[1..] == FromHex(s[2..]).value;
      assert Lower(s) == [LowerChar(s[0]), LowerChar(s[1])] + Lower(s[2..]);
    }
  }

  /** Exactly the strict shapes decode. */
  lemma DecodesIffHex(s: string)
    ensures Decode(s).Some? <==> IsHex(s)
  {
    if IsHex(s) {
      EncodeDecode(s);
    }
  }

  const HEX_DIGITS: string := "0123456789abcdef"

  /** Two digits a byte, the high four bits first. */
  lemma {:induction false} EncodedDigits(bs: seq<byte>, i: nat)
    requires i < |bs|
    ensures |Encode(bs)| == 2 * |bs|
    ensures Encode(bs)[2 * i] == HEX_DIGITS[bs[i] / 16] && Encode(bs)[2 * i + 1] == HEX_DIGITS[bs[i] % 16]
  {
    if |bs| == 1 {
      assert bs[1..] == [];
    } else {
      EncodedDigits(bs[1..], if i == 0 then 0 else i - 1);
    }
  }

  /** A string decodes to `bs` iff, up to letter case, it is the encoding of `bs`. */
  lemma DecodesTo(s: string, bs: seq<byte>)
    ensures Decode(s) == Some(bs) <==> Lower(s) == Encode(bs)
  {
    DecodeEncode(bs);
    EncodeIsHex(bs);
    if Decode(s) == Some(bs) {
      EncodeDecode(s);
    }
    if Lower(s) == Encode(bs) {
      assert forall i :: 0 <= i < |s| ==> Lower(s)[i] == LowerChar(s[i]);
      assert IsHex(s);
      EncodeDecode(s);
      DecodeEncode(FromHex(s).value);
    }
  }

  lemma {:induction false} FromHexPast(pre: string, s: string)
    requires forall i :: 0 <= i < |pre| ==> pre[i] == ' ' || '\t' <= pre[i] <= '\r'
    ensures FromHex(pre + s) == FromHex(s)
  {
    if pre == "" {
      assert pre + s == s;
    } else {
      assert (pre + s)[0] == pre[0] && (pre + s)[1..] == pre[1..] + s;
      FromHexPast(pre[1..], s);
    }
  }

  lemma FromHexByte(b: byte, s: string, tail: seq<byte>)
    requires FromHex(s) == Some(tail)
    ensures FromHex(EncodeByte(b) + s) == Some([b] + tail)
  {
    var pair := EncodeByte(b);
    DecodeEncodeByte(b);
    assert (pair + s)[0] == pair[0] && (pair + s)[1] == pair[1] && (pair + s)[2..] == s;
    FromHexPair(pair + s, tail);
  }

  lemma {:induction false} FromHexAfter(a: seq<byte>, s: string, tail: seq<byte>)
    requires FromHex(s) == Some(tail)
    ensures FromHex(Encode(a) + s) == Some(a + tail)
  {
    if a == [] {
      assert "" + s == s && a + tail == tail;
    } else {
      FromHexAfter(a[1..], s, tail);
      FromHexByte(a[0], Encode(a[1..]) + s, a[1..] + tail);
      assert Encode(a) + s == EncodeByte(a[0]) + (Encode(a[1..]) + s);
      assert [a[0]] + (a[1..] + tail) == a + tail;
    }
  }

  /** Whitespace between pairs changes nothing for the lenient decoder. */
  lemma SpaceBetweenPairs(a: seq<byte>, pre: string, b: seq<byte>)
    requires forall i :: 0 <= i < |pre| ==> pre[i] == ' ' || '\t' <= pre[i] <= '\r'
    ensures FromHex(Encode(a) + (pre + Encode(b))) == Some(a + b)
  {
    DecodeEncode(b);
    FromHexPast(pre, Encode(b));
    FromHexAfter(a, pre + Encode(b), b);
  }

  /** The lenient decoder alone accepts more: a space before any hex string changes nothing. */
  lemma LenientIsNotStrict(bs: seq<byte>)
    ensures FromHex(" " + Encode(bs)) == Some(bs) && Decode(" " + Encode(bs)) == None
  {
    DecodeEncode(bs);
    assert (" " + Encode(bs))[1..] == Encode(bs);
  }
}
