/** UTF-16 as in RFC 2781, decoded the way `String::from_utf16_lossy` does, and the names
    `utf16_name` (core/src/drive_layout.rs) reads. */
module Utf16 {
  import opened Machine
  import opened Text
  import opened Sorting

  const REPLACEMENT: char := '\U{FFFD}'

  predicate IsHigh(u: u16) {
    0xD800 <= u <= 0xDBFF
  }

  predicate IsLow(u: u16) {
    0xDC00 <= u <= 0xDFFF
  }

  /** The character a pair of surrogates stands for (section 2.2 of RFC 2781). */
  function Join(high: u16, low: u16): char
    requires IsHigh(high) && IsLow(low)
  {
    (0x1_0000 + (high - 0xD800) * 0x400 + (low - 0xDC00)) as char
  }

  function Decode(units: seq<u16>): string {
    if units == [] then []
    else if IsHigh(units[0]) then
      if |units| > 1 && IsLow(units[1]) then [Join(units[0], units[1])] + Decode(units[2..])
      else [REPLACEMENT] + Decode(units[1..])
    else if IsLow(units[0]) then [REPLACEMENT] + Decode(units[1..])
    else [units[0] as char] + Decode(units[1..])
  }

  /** Section 2.1 of RFC 2781. */
  function EncodeChar(c: char): (units: seq<u16>)
    ensures 1 <= |units| <= 2
  {
    var n := c as int;
    if n < 0x1_0000 then [n]
    else [0xD800 + (n - 0x1_0000) / 0x400, 0xDC00 + (n - 0x1_0000) % 0x400]
  }

  function Encode(s: string): seq<u16> {
    if s == [] then [] else EncodeChar(s[0]) + Encode(s[1..])
  }

  lemma {:induction false} DecodeUndoesEncode(s: string)
    ensures Decode(Encode(s)) == s
  {
    if s != [] {
      DecodeUndoesEncode(s[1..]);
      var n, rest := s[0] as int, Encode(s[1..]);
      var units := EncodeChar(s[0]) + rest;
      if n < 0x1_0000 {
        assert units[1..] == rest;
      } else {
        assert units[2..] == rest;
        assert Join(units[0], units[1]) as int == n;
      }
      assert s == [s[0]] + s[1..];
    }
  }

  /** A character beyond 16 bits is read from its pair of units (section 2.2 of RFC 2781), any
      other from its only unit, and a surrogate that is not half of a pair as U+FFFD. */
  lemma {:induction false} DecodesByUnits(n: nat, rest: seq<u16>)
    ensures 0x1_0000 <= n <= 0x10_FFFF ==>
      Decode([0xD800 + (n - 0x1_0000) / 0x400, 0xDC00 + (n - 0x1_0000) % 0x400] + rest) == [n as char] + Decode(rest)
    ensures n < 0xD800 || 0xE000 <= n < 0x1_0000 ==> Decode([n] + rest) == [n as char] + Decode(rest)
    ensures 0xDC00 <= n < 0xE000 || (0xD800 <= n < 0xDC00 && (rest == [] || !(0xDC00 <= rest[0] < 0xE000))) ==>
      Decode([n] + rest) == ['\U{FFFD}'] + Decode(rest)
  {
    if n <= 0xFFFF {
      assert ([n] + rest)[1..] == rest;
    } else if n <= 0x10_FFFF {
      var units: seq<u16> := [0xD800 + (n - 0x1_0000) / 0x400, 0xDC00 + (n - 0x1_0000) % 0x400] + rest;
      assert units[2..] == rest;
      assert Join(units[0], units[1]) as int == n;
    }
  }

  /** Every surrogate is half of a pair. */
  predicate WellFormed(units: seq<u16>) {
    if units == [] then true
    else if IsHigh(units[0]) then |units| > 1 && IsLow(units[1]) && WellFormed(units[2..])
    else !IsLow(units[0]) && WellFormed(units[1..])
  }

  /** Decoding loses nothing exactly on well-formed input. */
  lemma {:induction false} EncodeUndoesDecodeExactly(units: seq<u16>)
    ensures Encode(Decode(units)) == units <==> WellFormed(units)
  {
    if units == [] {
    } else if IsHigh(units[0]) && |units| > 1 && IsLow(units[1]) {
      EncodeUndoesDecodeExactly(units[2..]);
      var c, rest := Join(units[0], units[1]), Decode(units[2..]);
      assert Decode(units) == [c] + rest && ([c] + rest)[1..] == rest;
      assert EncodeChar(c) == [units[0], units[1]];
      assert units == [units[0], units[1]] + units[2..];
    } else {
      EncodeUndoesDecodeExactly(units[1..]);
      var rest := Decode(units[1..]);
      assert Decode(units)[1..] == rest;
      assert units == [units[0]] + units[1..];
      var c := Decode(units)[0];
      assert EncodeChar(c) == [c as int];
      assert Encode(Decode(units)) == [c as int] + Encode(rest);
    }
  }

  // ----- names -----

  function UnitOf(low: byte, high: byte): u16 {
    low as int + 256 * high as int
  }

  /** `chunks_exact(2)` read as little-endian units. */
  function Units(b: seq<byte>): seq<u16> {
    if |b| < 2 then [] else [UnitOf(b[0], b[1])] + Units(b[2..])
  }

  /** A unit has its low byte first; an odd byte at the end is ignored. */
  lemma {:induction false} UnitsAt(b: seq<byte>)
    ensures |Units(b)| == |b| / 2
    ensures forall i :: 0 <= i < |b| / 2 ==> Units(b)[i] == b[2 * i] + 0x100 * (b[2 * i + 1] as int)
  {
    if |b| >= 2 {
      UnitsAt(b[2..]);
      forall i | 0 < i < |b| / 2 ensures Units(b)[i] == b[2 * i] + 0x100 * (b[2 * i + 1] as int) {
        assert Units(b)[i] == Units(b[2..])[i - 1];
        assert b[2..][2 * (i - 1)] == b[2 * i] && b[2..][2 * (i - 1) + 1] == b[2 * i + 1];
      }
    }
  }

  function UntilNul(units: seq<u16>): seq<u16> {
    if units == [] || units[0] == 0 then [] else [units[0]] + UntilNul(units[1..])
  }

  /** `utf16_name`: the text up to the first NUL, trimmed. */
  function Name(b: seq<byte>): string {
    Trim(Decode(UntilNul(Units(b))))
  }

  function UnitBytes(units: seq<u16>): (b: seq<byte>)
    ensures |b| == 2 * |units|
  {
    if units == [] then [] else [units[0] % 256, units[0] / 256] + UnitBytes(units[1..])
  }

  lemma {:induction false} UnitsCons(u: u16, rest: seq<byte>)
    ensures Units([u % 256, u / 256] + rest) == [u] + Units(rest)
  {
    var b: seq<byte> := [u % 256, u / 256] + rest;
    assert b[2..] == rest;
    assert UnitOf(b[0], b[1]) == u;
  }

  lemma {:induction false} UnitBytesCons(units: seq<u16>, tail: seq<byte>)
    requires units != []
    ensures UnitBytes(units) + tail == [units[0] % 256, units[0] / 256] + (UnitBytes(units[1..]) + tail)
  {
    ConcatAssociative([units[0] % 256, units[0] / 256], UnitBytes(units[1..]), tail);
  }

  lemma {:induction false} UnitsReadBack(units: seq<u16>, tail: seq<byte>)
    ensures Units(UnitBytes(units) + tail) == units + Units(tail)
  {
    if units == [] {
      assert UnitBytes(units) + tail == tail;
    } else {
      UnitBytesCons(units, tail);
      UnitsReadBack(units[1..], tail);
      UnitsCons(units[0], UnitBytes(units[1..]) + tail);
      ConsBack(units, Units(tail));
    }
  }

  lemma {:induction false} ConsBack(units: seq<u16>, rest: seq<u16>)
    requires units != []
    ensures [units[0]] + (units[1..] + rest) == units + rest
  {
  }

  lemma {:induction false} UntilNulStops(units: seq<u16>, tail: seq<u16>)
    requires 0 !in units && (tail != [] ==> tail[0] == 0)
    ensures UntilNul(units + tail) == units
  {
    if units == [] {
      assert units + tail == tail;
    } else {
      assert units[0] in units;
      UntilNulStops(units[1..], tail);
      assert (units + tail)[1..] == units[1..] + tail;
    }
  }

  lemma {:induction false} EncodeHasNoNul(s: string)
    requires '\0' !in s
    ensures 0 !in Encode(s)
  {
    if s != [] {
      EncodeHasNoNul(s[1..]);
      assert s[0] in s;
      assert s[0] as int != 0;
    }
  }

  lemma {:induction false} BlankHasNoNul(s: string)
    requires Blank(s)
    ensures '\0' !in s
  {
  }

  /** A name field is read back without the whitespace around the name, whatever follows its
      terminating NUL. */
  lemma {:induction false} NameReadsBack(pre: string, name: string, post: string, junk: seq<byte>)
    requires Blank(pre) && Blank(post) && Trimmed(name) && '\0' !in name
    requires junk == [] || (|junk| >= 2 && junk[0] == 0 && junk[1] == 0)
    ensures Name(UnitBytes(Encode(pre + name + post)) + junk) == name
  {
    var text := pre + name + post;
    BlankHasNoNul(pre);
    BlankHasNoNul(post);
    UnitsReadBack(Encode(text), junk);
    EncodeHasNoNul(text);
    UntilNulStops(Encode(text), Units(junk));
    DecodeUndoesEncode(text);
    TrimDrops(pre, name, post);
  }

  /** What a name field of 36 units can hold and give back: no NUL, and nothing to trim. */
  type FieldName = s: string | Trimmed(s) && '\0' !in s && |Encode(s)| <= 36 witness []

  /** A name written over the old contents of a field of 72 bytes, with a NUL behind it if there is room. */
  function NameField(name: FieldName, was: seq<byte>): (b: seq<byte>)
    requires |was| == 72
    ensures |b| == 72
  {
    var text := UnitBytes(Encode(name));
    if |text| == 72 then text else text + ([0, 0] + was[|text| + 2..])
  }

  lemma {:induction false} NameFieldReadsBack(name: FieldName, was: seq<byte>)
    requires |was| == 72
    ensures Name(NameField(name, was)) == name
  {
    var text := UnitBytes(Encode(name));
    assert [] + name + [] == name;
    if |text| == 72 {
      NameReadsBack([], name, [], []);
      assert text + [] == text;
    } else {
      var junk := [0, 0] + was[|text| + 2..];
      NameReadsBack([], name, [], junk);
      assert NameField(name, was) == text + junk;
    }
  }
}
