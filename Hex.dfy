/** Base16 as `binascii.hexlify` and `binascii.unhexlify` implement it
    (section 8 of RFC 4648): encoding writes two lower-case digits per byte,
    decoding accepts digits of either case and refuses an odd length or a
    character that is not a hex digit. */
module Hex {
  import opened Wrappers
  import Text

  type Byte = b: int | 0 <= b < 256

  predicate IsLowerHexDigit(c: char) {
    '0' <= c <= '9' || 'a' <= c <= 'f'
  }

  /** The lower-case digit for a nibble. */
  function HexDigit(v: int): (c: char)
    requires 0 <= v < 16
    ensures IsLowerHexDigit(c)
  {
    if v < 10 then ('0' as int + v) as char else ('a' as int + v - 10) as char
  }

  /** The nibble a digit of either case stands for; `None` for any other
      character. */
  function HexValue(c: char): (r: Option<int>)
    ensures r.Some? ==> 0 <= r.value < 16
    ensures r.Some? <==> IsLowerHexDigit(Text.LowerChar(c))
  {
    if '0' <= c <= '9' then Some(c as int - '0' as int)
    else if 'a' <= c <= 'f' then Some(c as int - 'a' as int + 10)
    else if 'A' <= c <= 'F' then Some(c as int - 'A' as int + 10)
    else None
  }

  /** `binascii.hexlify(b).decode()`: two lower-case hex digits per byte,
      the high nibble first. */
  function Hexlify(b: seq<Byte>): (r: string)
    ensures |r| == 2 * |b|
    ensures forall k :: 0 <= k < |r| ==> IsLowerHexDigit(r[k])
    ensures forall i :: 0 <= i < |b| ==> r[2 * i] == HexDigit(b[i] / 16) && r[2 * i + 1] == HexDigit(b[i] % 16)
  {
    if b == [] then []
    else
      var rest := Hexlify(b[1..]);
      assert forall i :: 1 <= i < |b| ==> b[i] == b[1..][i - 1];
      [HexDigit(b[0] / 16), HexDigit(b[0] % 16)] + rest
  }

  /** `binascii.unhexlify(s)`; `None` stands for the `binascii.Error` it
      raises. */
  function Unhexlify(s: string): (r: Option<seq<Byte>>)
    ensures r.Some? ==> 2 * |r.value| == |s|
  {
    if s == [] then Some([])
    else if |s| == 1 then None
    else match (HexValue(s[0]), HexValue(s[1]), Unhexlify(s[2..]))
      case (Some(hi), Some(lo), Some(rest)) => Some([hi * 16 + lo] + rest)
      case _ => None
  }

  lemma HexValueOfDigit(v: int)
    requires 0 <= v < 16
    ensures HexValue(HexDigit(v)) == Some(v)
  {
  }

  /** Decoding undoes encoding: `unhexlify(hexlify(b)) == b`. */
  lemma {:induction false} UnhexlifyHexlify(b: seq<Byte>)
    ensures Unhexlify(Hexlify(b)) == Some(b)
  {
    if b != [] {
      var s := Hexlify(b);
      UnhexlifyHexlify(b[1..]);
      HexValueOfDigit(b[0] / 16);
      HexValueOfDigit(b[0] % 16);
      assert s[2..] == Hexlify(b[1..]);
      assert [b[0]] + b[1..] == b;
    }
  }

  /** Encoding is injective, so two different keys never share a hex form. */
  lemma HexlifyInjective(a: seq<Byte>, b: seq<Byte>)
    requires Hexlify(a) == Hexlify(b)
    ensures a == b
  {
    UnhexlifyHexlify(a);
    UnhexlifyHexlify(b);
  }

  /** Exactly the strings of even length made of hex digits of either case
      decode. */
  lemma {:induction false} UnhexlifyDefined(s: string)
    ensures Unhexlify(s).Some? <==> |s| % 2 == 0 && forall k :: 0 <= k < |s| ==> HexValue(s[k]).Some?
  {
    if |s| >= 2 {
      UnhexlifyDefined(s[2..]);
      assert forall k :: 2 <= k < |s| ==> s[k] == s[2..][k - 2];
      if Unhexlify(s).Some? {
        forall k | 0 <= k < |s| ensures HexValue(s[k]).Some? {
          if k >= 2 {
            assert s[k] == s[2..][k - 2];
          }
        }
      }
    }
  }

  lemma HexDigitOfValue(c: char)
    requires HexValue(c).Some?
    ensures HexDigit(HexValue(c).value) == Text.LowerChar(c)
  {
  }

  /** Re-encoding what was decoded gives the input lower-cased: the only
      information decoding loses is the case of the digits. */
  lemma {:induction false} HexlifyUnhexlify(s: string)
    requires Unhexlify(s).Some?
    ensures Hexlify(Unhexlify(s).value) == Text.AsciiLower(s)
  {
    if s != [] {
      var b := Unhexlify(s).value;
      var hi, lo := HexValue(s[0]).value, HexValue(s[1]).value;
      HexlifyUnhexlify(s[2..]);
      assert b == [hi * 16 + lo] + Unhexlify(s[2..]).value;
      assert b[0] / 16 == hi && b[0] % 16 == lo;
      assert b[1..] == Unhexlify(s[2..]).value;
      HexDigitOfValue(s[0]);
      HexDigitOfValue(s[1]);
      var l := Text.AsciiLower(s);
      var r := Hexlify(b);
      assert forall k :: 2 <= k < |s| ==> l[k] == Text.AsciiLower(s[2..])[k - 2];
      assert forall k :: 0 <= k < |s| ==> r[k] == l[k];
    }
  }

  /** A string that is already lower-case hex is exactly the encoding of
      what it decodes to. */
  lemma HexlifyUnhexlifyLower(s: string)
    requires Unhexlify(s).Some?
    requires forall k :: 0 <= k < |s| ==> IsLowerHexDigit(s[k])
    ensures Hexlify(Unhexlify(s).value) == s
  {
    HexlifyUnhexlify(s);
    Text.AsciiLowerFixed(s);
  }
}
