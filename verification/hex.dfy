/** The entity codec of `SimpleMultiChainRepository`: JSON bytes become
    hexadecimal text through `java.math.BigInteger`, and back. Encoding reads
    the bytes as an unsigned big-endian number and prints it in minimal
    lower-case hexadecimal; decoding parses the text as a signed number and
    returns its minimal two's-complement bytes. The round trip is therefore
    exact whenever the first byte lies in 1..0x7f, as it does for JSON text.
    Outside that range it may differ: a first byte of 0x80 or more gains a
    0x00 byte, and a leading 0x00 is dropped when the next byte lies in
    1..0x7f, while a lone 0x00, or one before a byte of 0x80 or more,
    survives. */
module Hex {
  import opened Base
  import Numerals

  type byte = b: int | 0 <= b < 256

  function HexDigit(d: nat): char
    requires d < 16
  {
    "0123456789abcdef"[d]
  }

  predicate IsLowerHexDigit(c: char)
  {
    ('0' <= c <= '9') || ('a' <= c <= 'f')
  }

  /** Characters `Character.digit(c, 16)` accepts, restricted to ASCII. */
  predicate IsHexDigit(c: char)
  {
    ('0' <= c <= '9') || ('a' <= c <= 'f') || ('A' <= c <= 'F')
  }

  function HexValue(c: char): (d: nat)
    requires IsHexDigit(c)
    ensures d < 16
  {
    if c <= '9' then c as int - '0' as int
    else if c <= 'F' then c as int - 'A' as int + 10
    else c as int - 'a' as int + 10
  }

  /** Text `BigInteger.toString(16)` can produce for a non-negative value:
      lower-case digits only, and no leading zero unless it is "0". */
  predicate IsMinimalHex(s: string)
  {
    && |s| >= 1
    && (forall i :: 0 <= i < |s| ==> IsLowerHexDigit(s[i]))
    && (s[0] == '0' ==> s == "0")
  }

  /** `BigInteger.toString(16)` for a non-negative value. */
  function ToHex(n: nat): (s: string)
    ensures IsMinimalHex(s)
  {
    var ds := Numerals.NatToDigits(n, 16);
    seq(|ds|, i requires 0 <= i < |ds| => HexDigit(ds[i]))
  }

  /** `new BigInteger(s, 16)`: an optional sign, then one or more digits;
      anything else is a NumberFormatException. */
  function ParseHex(s: string): (r: Result<int>)
    ensures r.Failure? ==> r.error == NumberFormat
    ensures s == [] ==> r.Failure?
  {
    var start := if s != [] && (s[0] == '-' || s[0] == '+') then 1 else 0;
    var digits := s[start..];
    if digits == [] || exists i :: 0 <= i < |digits| && !IsHexDigit(digits[i]) then
      Failure(NumberFormat)
    else
      var magnitude: int := Numerals.DigitsToNat(seq(|digits|, i requires 0 <= i < |digits| => HexValue(digits[i])), 16);
      Success(if s[0] == '-' then -magnitude else magnitude)
  }

  lemma HexDigitValue(d: nat)
    requires d < 16
    ensures IsHexDigit(HexDigit(d)) && HexValue(HexDigit(d)) == d
  {
    assert "0123456789abcdef"[d] == HexDigit(d);
  }

  /** The hexadecimal rendering parses back to the same number. */
  lemma ToHexParses(n: nat)
    ensures ParseHex(ToHex(n)) == Success(n)
  {
    var ds := Numerals.NatToDigits(n, 16);
    var s := ToHex(n);
    assert s[0] != '-' && s[0] != '+';
    assert s[0..] == s;
    forall i | 0 <= i < |s|
      ensures IsHexDigit(s[i]) && HexValue(s[i]) == ds[i]
    {
      HexDigitValue(ds[i]);
    }
    var back := seq(|s|, i requires 0 <= i < |s| => HexValue(s[i]));
    assert back == ds;
    Numerals.DigitsRoundTrip(n, 16);
  }

  /** `new BigInteger(1, bytes)`: the bytes as an unsigned big-endian number. */
  function Unsigned(b: seq<byte>): nat
  {
    if b == [] then 0 else Unsigned(b[..|b| - 1]) * 256 + b[|b| - 1]
  }

  /** Length of `BigInteger.toByteArray()`: one more than the number of
      whole bytes in the two's-complement bit length. */
  function ByteLength(x: int): (len: nat)
    ensures len >= 1
    decreases if x < 0 then -x else x
  {
    if x < 0 then ByteLength(-x - 1)
    else if x < 128 then 1
    else 1 + ByteLength(x / 256)
  }

  /** The `len` low-order bytes of `v`, big-endian. */
  function LowBytes(v: nat, len: nat): (b: seq<byte>)
    ensures |b| == len
  {
    if len == 0 then [] else LowBytes(v / 256, len - 1) + [v % 256]
  }

  /** `BigInteger.toByteArray()`: the minimal two's-complement encoding. */
  function ToByteArray(x: int): (b: seq<byte>)
    ensures |b| == ByteLength(x)
  {
    var len := ByteLength(x);
    LowBytes(x % Numerals.Pow(256, len), len)
  }

  /** `jsonToHex`: null stays null; otherwise the bytes become minimal
      lower-case hexadecimal text. */
  function JsonToHex(json: Option<seq<byte>>): (hex: Option<string>)
    ensures json.None? <==> hex.None?
    ensures hex.Some? ==> IsMinimalHex(hex.value)
  {
    match json
    case None => None
    case Some(b) => Some(ToHex(Unsigned(b)))
  }

  /** `hexToJson`: null stays null; text that is not a hexadecimal number,
      the empty text included, throws; otherwise the parsed number's bytes. */
  function HexToJson(hex: Option<string>): (json: Result<Option<seq<byte>>>)
    ensures hex.None? ==> json == Success(None)
    ensures hex.Some? && json.Success? ==> json.value.Some? && |json.value.value| >= 1
    ensures hex.Some? && json.Failure? ==> json.error == NumberFormat
    ensures hex == Some("") ==> json == Failure(NumberFormat)
  {
    match hex
    case None => Success(None)
    case Some(h) =>
      match ParseHex(h)
      case Failure(e) => Failure(e)
      case Success(x) => Success(Some(ToByteArray(x)))
  }

  // ---- Properties of the byte-level conversions ----

  /** Dropping the last byte divides by 256; the last byte is the remainder. */
  lemma UnsignedSplit(b: seq<byte>)
    requires b != []
    ensures Unsigned(b) / 256 == Unsigned(b[..|b| - 1])
    ensures Unsigned(b) % 256 == b[|b| - 1]
  {
    Numerals.DivideByBase(Unsigned(b), 256);
    var q, r := Unsigned(b[..|b| - 1]), b[|b| - 1];
    assert Unsigned(b) == q * 256 + r;
  }

  lemma {:induction false} UnsignedBelow(b: seq<byte>)
    ensures Unsigned(b) < Numerals.Pow(256, |b|)
  {
    if b != [] {
      var p := b[..|b| - 1];
      UnsignedBelow(p);
      Numerals.MulMonotone(Unsigned(p) + 1, Numerals.Pow(256, |p|), 256);
    }
  }

  lemma {:induction false} UnsignedPositive(b: seq<byte>)
    requires b != [] && b[0] >= 1
    ensures Unsigned(b) >= 1
  {
    if |b| > 1 {
      var p := b[..|b| - 1];
      assert p[0] == b[0];
      UnsignedPositive(p);
    }
  }

  /** A leading zero byte does not change the number. */
  lemma {:induction false} UnsignedLeadingZero(b: seq<byte>)
    requires b != [] && b[0] == 0
    ensures Unsigned(b) == Unsigned(b[1..])
  {
    if |b| > 1 {
      var p := b[..|b| - 1];
      assert p[0] == 0;
      UnsignedLeadingZero(p);
      assert p[1..] == b[1..][..|b[1..]| - 1];
    }
  }

  /** With a non-zero first byte, the minimal two's-complement length is the
      byte count, plus one for the sign byte when the top bit is set. */
  lemma {:induction false} ByteLengthOfUnsigned(b: seq<byte>)
    requires b != [] && b[0] >= 1
    ensures ByteLength(Unsigned(b)) == |b| + (if b[0] >= 128 then 1 else 0)
  {
    var x := Unsigned(b);
    if |b| == 1 {
      assert x == b[0];
      if x >= 128 {
        assert x / 256 == 0;
      }
    } else {
      var p := b[..|b| - 1];
      assert p[0] == b[0];
      UnsignedPositive(p);
      UnsignedSplit(b);
      assert x >= 256;
      ByteLengthOfUnsigned(p);
    }
  }

  /** Writing the number back in its own byte count gives the bytes. */
  lemma {:induction false} LowBytesOfUnsigned(b: seq<byte>)
    ensures LowBytes(Unsigned(b), |b|) == b
  {
    if b != [] {
      UnsignedSplit(b);
      LowBytesOfUnsigned(b[..|b| - 1]);
    }
  }

  /** Asking for one byte more than the number needs adds a zero in front. */
  lemma {:induction false} LowBytesExtra(v: nat, len: nat)
    requires v < Numerals.Pow(256, len)
    ensures LowBytes(v, len + 1) == [0] + LowBytes(v, len)
  {
    if len > 0 {
      Numerals.QuotientBelow(v, 256, Numerals.Pow(256, len - 1));
      LowBytesExtra(v / 256, len - 1);
    }
  }

  lemma ModBelow(v: nat, m: nat)
    requires v < m
    ensures v % m == v
  {}

  /** The encoding of JSON text: an unsigned number, written in hexadecimal,
      parsed back and turned into minimal two's-complement bytes. */
  lemma RoundTripIsToByteArray(b: seq<byte>)
    ensures HexToJson(JsonToHex(Some(b))) == Success(Some(ToByteArray(Unsigned(b))))
  {
    ToHexParses(Unsigned(b));
  }

  /** The round trip is exact when the first byte is 1..0x7f, as for any
      JSON text that starts with an ASCII character such as `{`. */
  lemma {:induction false} HexRoundTrip(b: seq<byte>)
    requires b != [] && 1 <= b[0] < 128
    ensures HexToJson(JsonToHex(Some(b))) == Success(Some(b))
  {
    RoundTripIsToByteArray(b);
    ByteLengthOfUnsigned(b);
    UnsignedBelow(b);
    ModBelow(Unsigned(b), Numerals.Pow(256, |b|));
    LowBytesOfUnsigned(b);
  }

  /** A first byte of 0x80 or more comes back with a 0x00 sign byte in front. */
  lemma {:induction false} HighFirstByteGainsZero(b: seq<byte>)
    requires b != [] && b[0] >= 128
    ensures HexToJson(JsonToHex(Some(b))) == Success(Some([0] + b))
  {
    RoundTripIsToByteArray(b);
    ByteLengthOfUnsigned(b);
    UnsignedBelow(b);
    ModBelow(Unsigned(b), Numerals.Pow(256, |b| + 1));
    LowBytesExtra(Unsigned(b), |b|);
    LowBytesOfUnsigned(b);
  }

  /** A leading 0x00 byte leaves no trace in the hexadecimal text; it is
      dropped on the way back when the next byte lies in 1..0x7f. */
  lemma {:induction false} LeadingZeroLost(b: seq<byte>)
    requires b != [] && b[0] == 0
    ensures JsonToHex(Some(b)) == JsonToHex(Some(b[1..]))
    ensures b[1..] != [] && 1 <= b[1] < 128 ==> HexToJson(JsonToHex(Some(b))) == Success(Some(b[1..]))
  {
    UnsignedLeadingZero(b);
    if b[1..] != [] && 1 <= b[1] < 128 {
      HexRoundTrip(b[1..]);
    }
  }

  /** Empty JSON text encodes as "0" and decodes as the single byte 0x00. */
  lemma EmptyJsonGainsZero()
    ensures JsonToHex(Some([])) == Some("0")
    ensures HexToJson(Some("0")) == Success(Some([0]))
  {
    assert Numerals.NatToDigits(0, 16) == [0];
    assert ToHex(0) == "0";
    ToHexParses(0);
    assert ByteLength(0) == 1;
    assert ToByteArray(0) == LowBytes(0, 1) == [0];
  }

  /** A lone 0x00 byte survives the round trip: it encodes as "0". */
  lemma SingleZeroSurvives()
    ensures JsonToHex(Some([0])) == Some("0")
    ensures HexToJson(JsonToHex(Some([0]))) == Success(Some([0]))
  {
    assert Unsigned([0]) == 0 by {
      assert [0 as byte][..0] == [];
    }
    EmptyJsonGainsZero();
  }

  /** A leading 0x00 before a byte of 0x80 or more survives the round trip:
      decoding restores it as the sign byte. */
  lemma ZeroBeforeHighByteSurvives(b: seq<byte>)
    requires |b| >= 2 && b[0] == 0 && b[1] >= 128
    ensures HexToJson(JsonToHex(Some(b))) == Success(Some(b))
  {
    LeadingZeroLost(b);
    HighFirstByteGainsZero(b[1..]);
    assert [0] + b[1..] == b;
  }
}
