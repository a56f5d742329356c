/**
 * Hexadecimal form of object identifiers. The driver's `ObjectIDFromHex` and
 * `ObjectID.Hex` are not part of this model; these are hand-written
 * stand-ins under the assumption that the first accepts exactly 24
 * hexadecimal digits of either case and that the second writes 24 lower-case
 * digits.
 */
module ObjectIdHex {
  import opened Wrappers
  import opened Bson

  /** Number of hexadecimal digits in an identifier's text form. */
  const HexLength := 2 * ObjectIdLength

  const LowerDigits := "0123456789abcdef"

  predicate IsHexDigit(c: char) {
    ('0' <= c <= '9') || ('a' <= c <= 'f') || ('A' <= c <= 'F')
  }

  predicate IsLowerHexDigit(c: char) {
    ('0' <= c <= '9') || ('a' <= c <= 'f')
  }

  /** The text form `FromHex` accepts: 24 hexadecimal digits. */
  predicate IsObjectIdHex(s: string) {
    |s| == HexLength && forall i :: 0 <= i < |s| ==> IsHexDigit(s[i])
  }

  /** The value of one hexadecimal digit. */
  function DigitValue(c: char): (d: nat)
    requires IsHexDigit(c)
    ensures d < 16
    ensures IsLowerHexDigit(c) ==> LowerDigits[d] == c
  {
    if '0' <= c <= '9' then c as int - '0' as int
    else if 'a' <= c <= 'f' then c as int - 'a' as int + 10
    else c as int - 'A' as int + 10
  }

  /** `hex.DecodeString` on an even-length string: two digits per byte. */
  function DecodeBytes(s: string): (r: Option<seq<byte>>)
    requires |s| % 2 == 0
    ensures r.Some? <==> forall i :: 0 <= i < |s| ==> IsHexDigit(s[i])
    ensures r.Some? ==> 2 * |r.value| == |s|
  {
    if s == [] then Some([])
    else if !IsHexDigit(s[0]) || !IsHexDigit(s[1]) then None
    else
      match DecodeBytes(s[2..])
      case None => None
      case Some(rest) => Some([16 * DigitValue(s[0]) + DigitValue(s[1])] + rest)
  }

  /** Stand-in for `primitive.ObjectIDFromHex`. */
  function FromHex(s: string): (r: Option<ObjectId>)
    ensures r.Some? <==> IsObjectIdHex(s)
  {
    if |s| != HexLength then None
    else
      match DecodeBytes(s)
      case None => None
      case Some(bs) => Some(bs)
  }

  /** `hex.EncodeToString`: two lower-case digits per byte. */
  function EncodeBytes(bs: seq<byte>): (s: string)
    ensures |s| == 2 * |bs|
    ensures forall i :: 0 <= i < |s| ==> IsLowerHexDigit(s[i])
  {
    if bs == [] then ""
    else [LowerDigits[bs[0] / 16], LowerDigits[bs[0] % 16]] + EncodeBytes(bs[1..])
  }

  /** Stand-in for `primitive.ObjectID.Hex`. */
  function Hex(o: ObjectId): (s: string)
    ensures IsObjectIdHex(s)
    ensures forall i :: 0 <= i < |s| ==> IsLowerHexDigit(s[i])
  {
    EncodeBytes(o)
  }

  /** Every lower-case digit decodes to its position in `LowerDigits`. */
  lemma LowerDigitValue(d: nat)
    requires d < 16
    ensures IsLowerHexDigit(LowerDigits[d]) && DigitValue(LowerDigits[d]) == d
  {
  }

  /** One byte survives being split into two digits and joined again. */
  lemma ByteDigits(hi: nat, lo: nat)
    requires hi < 16 && lo < 16
    ensures (16 * hi + lo) / 16 == hi && (16 * hi + lo) % 16 == lo
  {
  }

  lemma {:induction false} DecodeEncodeBytes(bs: seq<byte>)
    ensures DecodeBytes(EncodeBytes(bs)) == Some(bs)
  {
    if bs != [] {
      var s := EncodeBytes(bs);
      var b := bs[0];
      assert s[2..] == EncodeBytes(bs[1..]);
      LowerDigitValue(b / 16);
      LowerDigitValue(b % 16);
      assert 16 * (b / 16) + b % 16 == b;
      DecodeEncodeBytes(bs[1..]);
      assert [b] + bs[1..] == bs;
    }
  }

  /** Encoding a byte in front of others puts its two digits in front. */
  lemma EncodeBytesCons(b: byte, rest: seq<byte>)
    ensures EncodeBytes([b] + rest) == [LowerDigits[b / 16], LowerDigits[b % 16]] + EncodeBytes(rest)
  {
    assert ([b] + rest)[1..] == rest;
  }

  lemma {:induction false} EncodeDecodeBytes(s: string)
    requires |s| % 2 == 0
    requires forall i :: 0 <= i < |s| ==> IsLowerHexDigit(s[i])
    ensures DecodeBytes(s).Some? && EncodeBytes(DecodeBytes(s).value) == s
  {
    if s != [] {
      var tail := s[2..];
      assert forall i :: 0 <= i < |tail| ==> tail[i] == s[i + 2];
      EncodeDecodeBytes(tail);
      var rest := DecodeBytes(tail).value;
      assert IsHexDigit(s[0]) && IsHexDigit(s[1]);
      var hi, lo := DigitValue(s[0]), DigitValue(s[1]);
      ByteDigits(hi, lo);
      var b: byte := 16 * hi + lo;
      var bs := [b] + rest;
      assert DecodeBytes(s) == Some(bs);
      EncodeBytesCons(b, rest);
      assert LowerDigits[hi] == s[0] && LowerDigits[lo] == s[1];
      assert EncodeBytes(bs) == [s[0], s[1]] + tail;
      assert [s[0], s[1]] + tail == s;
    }
  }

  /** Parsing the hex form of an identifier gives the identifier back. */
  lemma FromHexOfHex(o: ObjectId)
    ensures FromHex(Hex(o)) == Some(o)
  {
    DecodeEncodeBytes(o);
  }

  /** A lower-case identifier text is exactly the hex form of what it parses to. */
  lemma HexOfFromHex(s: string)
    requires |s| == HexLength
    requires forall i :: 0 <= i < |s| ==> IsLowerHexDigit(s[i])
    ensures FromHex(s).Some? && Hex(FromHex(s).value) == s
  {
    EncodeDecodeBytes(s);
  }
}
