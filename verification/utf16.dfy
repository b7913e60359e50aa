/** UTF-16 as the MicroSIP.ini reader and writer use it: bytes paired into 16-bit
    code units low byte first, `String::from_utf16_lossy` and `str::encode_utf16`.
    The encoding form is the one of section 3.9 of The Unicode Standard (D91):
    a scalar value below 0x10000 is one unit, any other is a high surrogate
    followed by a low surrogate. */
module Utf16 {

  type Byte = b: int | 0 <= b < 0x100

  type Unit = u: int | 0 <= u < 0x1_0000

  /** U+FFFD, which the lossy decoder puts in place of an unpaired surrogate. */
  const Replacement: char := '\U{FFFD}'

  /** U+FEFF, the byte order mark the ini file starts with. */
  const Bom: char := '\U{FEFF}'

  predicate IsHigh(u: Unit) { 0xD800 <= u < 0xDC00 }

  predicate IsLow(u: Unit) { 0xDC00 <= u < 0xE000 }

  predicate IsSurrogate(u: Unit) { 0xD800 <= u < 0xE000 }

  // ---------------------------------------------------------------------------
  // Bytes and code units

  /** `chunks_exact(2)` with each pair read low byte first; an odd trailing byte
      is dropped. */
  function PairBytes(bytes: seq<Byte>): (units: seq<Unit>)
    ensures |units| == |bytes| / 2
    decreases |bytes|
  {
    if |bytes| < 2 then [] else [bytes[0] as int + 0x100 * (bytes[1] as int)] + PairBytes(bytes[2..])
  }

  /** Unit `k` is made of bytes `2k` (low) and `2k + 1` (high). */
  lemma {:induction false} PairBytesAt(bytes: seq<Byte>, k: nat)
    requires k < |bytes| / 2
    ensures PairBytes(bytes)[k] == bytes[2 * k] as int + 0x100 * (bytes[2 * k + 1] as int)
    decreases k
  {
    if k > 0 {
      PairBytesAt(bytes[2..], k - 1);
    }
  }

  /** A trailing odd byte contributes no unit. */
  lemma {:induction false} PairDropsOddByte(bytes: seq<Byte>, b: Byte)
    requires |bytes| % 2 == 0
    ensures PairBytes(bytes + [b]) == PairBytes(bytes)
    decreases |bytes|
  {
    if |bytes| >= 2 {
      assert (bytes + [b])[2..] == bytes[2..] + [b];
      PairDropsOddByte(bytes[2..], b);
    } else {
      assert |bytes| == 0;
    }
  }

  /** The bytes written for each unit, low byte first. */
  function UnitBytes(units: seq<Unit>): (bytes: seq<Byte>)
    ensures |bytes| == 2 * |units|
  {
    if units == [] then [] else [units[0] % 0x100, units[0] / 0x100] + UnitBytes(units[1..])
  }

  /** Reading back what was written gives the same units. */
  lemma {:induction false} PairUnitBytes(units: seq<Unit>)
    ensures PairBytes(UnitBytes(units)) == units
  {
    if units != [] {
      var bytes := UnitBytes(units);
      assert bytes[2..] == UnitBytes(units[1..]);
      PairUnitBytes(units[1..]);
      assert units == [units[0]] + units[1..];
    }
  }

  /** Writing back units read from an even number of bytes gives those bytes. */
  lemma {:induction false} UnitPairBytes(bytes: seq<Byte>)
    requires |bytes| % 2 == 0
    ensures UnitBytes(PairBytes(bytes)) == bytes
    decreases |bytes|
  {
    if |bytes| >= 2 {
      var u := bytes[0] as int + 0x100 * (bytes[1] as int);
      assert u % 0x100 == bytes[0] && u / 0x100 == bytes[1];
      UnitPairBytes(bytes[2..]);
      assert bytes == [bytes[0], bytes[1]] + bytes[2..];
    } else {
      assert |bytes| == 0;
    }
  }

  // ---------------------------------------------------------------------------
  // Code units and text

  /** The scalar value a surrogate pair stands for. */
  function PairValue(hi: Unit, lo: Unit): (v: int)
    requires IsHigh(hi) && IsLow(lo)
    ensures 0x10000 <= v < 0x110000
  {
    0x10000 + (hi - 0xD800) * 0x400 + (lo - 0xDC00)
  }

  /** `String::from_utf16_lossy`: a unit outside the surrogate range is a char; a
      high surrogate followed by a low one is the char of the pair; any other
      surrogate becomes U+FFFD and decoding resumes at the next unit. */
  function Decode(units: seq<Unit>): (s: string)
    ensures |s| <= |units|
    decreases |units|
  {
    if units == [] then []
    else if !IsSurrogate(units[0]) then [units[0] as char] + Decode(units[1..])
    else if IsHigh(units[0]) && |units| >= 2 && IsLow(units[1]) then
      [PairValue(units[0], units[1]) as char] + Decode(units[2..])
    else [Replacement] + Decode(units[1..])
  }

  /** The units of one char. */
  function EncodeChar(c: char): (us: seq<Unit>)
    ensures 1 <= |us| <= 2
  {
    var v := c as int;
    if v < 0x10000 then [v]
    else [0xD800 + (v - 0x10000) / 0x400, 0xDC00 + (v - 0x10000) % 0x400]
  }

  /** `str::encode_utf16`. */
  function Encode(s: string): (units: seq<Unit>)
    ensures |s| <= |units| <= 2 * |s|
  {
    if s == [] then [] else EncodeChar(s[0]) + Encode(s[1..])
  }

  /** Well-formed UTF-16: every high surrogate is followed by a low one and every
      low surrogate follows a high one. */
  predicate WellFormed(units: seq<Unit>)
    decreases |units|
  {
    || units == []
    || (!IsSurrogate(units[0]) && WellFormed(units[1..]))
    || (|units| >= 2 && IsHigh(units[0]) && IsLow(units[1]) && WellFormed(units[2..]))
  }

  // ---------------------------------------------------------------------------
  // Round trips

  /** Decoding the units of one char gives that char back. */
  lemma DecodeEncodeChar(c: char, rest: seq<Unit>)
    ensures Decode(EncodeChar(c) + rest) == [c] + Decode(rest)
  {
    var us := EncodeChar(c) + rest;
    var v := c as int;
    if v < 0x10000 {
      assert us[0] == v && us[1..] == rest;
    } else {
      var w := v - 0x10000;
      assert w == (w / 0x400) * 0x400 + w % 0x400;
      assert us[0] == 0xD800 + w / 0x400 && us[1] == 0xDC00 + w % 0x400;
      assert PairValue(us[0], us[1]) == v;
      assert us[2..] == rest;
    }
  }

  /** Decoding an encoded string gives it back. */
  lemma {:induction false} DecodeEncode(s: string)
    ensures Decode(Encode(s)) == s
  {
    if s != [] {
      DecodeEncodeChar(s[0], Encode(s[1..]));
      DecodeEncode(s[1..]);
      assert s == [s[0]] + s[1..];
    }
  }

  /** The units of a pair encode its char again. */
  lemma EncodePair(hi: Unit, lo: Unit)
    requires IsHigh(hi) && IsLow(lo)
    ensures EncodeChar(PairValue(hi, lo) as char) == [hi, lo]
  {
    var x := hi - 0xD800;
    var y := lo - 0xDC00;
    var w := PairValue(hi, lo) - 0x10000;
    assert w == x * 0x400 + y;
    assert w / 0x400 == x && w % 0x400 == y;
  }

  /** Re-encoding decoded well-formed units reproduces them. */
  lemma {:induction false} EncodeDecode(units: seq<Unit>)
    requires WellFormed(units)
    ensures Encode(Decode(units)) == units
    decreases |units|
  {
    if units != [] {
      if !IsSurrogate(units[0]) {
        EncodeDecode(units[1..]);
        assert units == [units[0]] + units[1..];
      } else {
        EncodeDecode(units[2..]);
        EncodePair(units[0], units[1]);
        assert units == [units[0], units[1]] + units[2..];
      }
    }
  }

  /** Encoded text is well-formed. */
  lemma {:induction false} EncodeWellFormed(s: string)
    ensures WellFormed(Encode(s))
  {
    if s != [] {
      EncodeWellFormed(s[1..]);
      var rest := Encode(s[1..]);
      var us := Encode(s);
      assert us == EncodeChar(s[0]) + rest;
      if (s[0] as int) < 0x10000 {
        assert us[1..] == rest;
      } else {
        assert us[2..] == rest;
      }
    }
  }

  /** Decoding then encoding is the identity exactly on well-formed units. */
  lemma RoundTripIffWellFormed(units: seq<Unit>)
    ensures Encode(Decode(units)) == units <==> WellFormed(units)
  {
    if WellFormed(units) {
      EncodeDecode(units);
    }
    EncodeWellFormed(Decode(units));
  }

  /** Units that are not well-formed decode to text holding U+FFFD. */
  lemma {:induction false} IllFormedReplaced(units: seq<Unit>)
    requires !WellFormed(units)
    ensures Replacement in Decode(units)
    decreases |units|
  {
    var s := Decode(units);
    if !IsSurrogate(units[0]) {
      IllFormedReplaced(units[1..]);
      assert s[1..] == Decode(units[1..]);
    } else if IsHigh(units[0]) && |units| >= 2 && IsLow(units[1]) {
      IllFormedReplaced(units[2..]);
      assert s[1..] == Decode(units[2..]);
    } else {
      assert s[0] == Replacement;
    }
  }

  /** A leading byte order mark is kept as the char U+FEFF. */
  lemma DecodeKeepsBom(units: seq<Unit>)
    ensures Decode([0xFEFF] + units) == [Bom] + Decode(units)
  {
    assert ([0xFEFF] + units)[1..] == units;
  }
}
