/** Little-endian fields, and hexadecimal digits. */
module Bytes {
  import opened Machine

  function LittleEndian(b: seq<byte>): nat {
    if b == [] then 0 else b[0] + 256 * LittleEndian(b[1..])
  }

  function ToBytes(v: nat, n: nat): (b: seq<byte>)
    ensures |b| == n
  {
    if n == 0 then [] else [v % 256] + ToBytes(v / 256, n - 1)
  }

  /** The first byte counts least. */
  lemma {:induction false} LeastFirst(b: seq<byte>)
    ensures |b| == 1 ==> LittleEndian(b) == b[0]
    ensures |b| == 2 ==> LittleEndian(b) == b[0] + 0x100 * (b[1] as int)
    ensures |b| == 4 ==>
      LittleEndian(b) == b[0] + 0x100 * (b[1] as int) + 0x1_0000 * (b[2] as int) + 0x100_0000 * (b[3] as int)
    ensures |b| == 8 ==> LittleEndian(b) == LittleEndian(b[..4]) + 0x1_0000_0000 * LittleEndian(b[4..])
  {
    if |b| == 1 {
      assert b[1..] == [];
    } else if |b| == 2 {
      LeastFirst(b[1..]);
    } else if |b| == 4 {
      LeastFour(b);
    } else if |b| == 8 {
      LeastFour(b);
      LeastFour(b[..4]);
    }
  }

  lemma {:induction false} LeastFour(b: seq<byte>)
    requires |b| >= 4
    ensures LittleEndian(b) == b[0] + 0x100 * (b[1] as int) + 0x1_0000 * (b[2] as int) + 0x100_0000 * (b[3] as int)
                               + 0x1_0000_0000 * LittleEndian(b[4..])
  {
    var b1, b2, b3 := b[1..], b[2..], b[3..];
    assert b1[1..] == b2 && b2[1..] == b3 && b3[1..] == b[4..];
    assert LittleEndian(b3) == b[3] + 256 * LittleEndian(b[4..]);
    assert LittleEndian(b2) == b[2] + 256 * LittleEndian(b3);
    assert LittleEndian(b1) == b[1] + 256 * LittleEndian(b2);
  }

  function Pow256(n: nat): nat {
    if n == 0 then 1 else 256 * Pow256(n - 1)
  }

  lemma {:induction false} FieldReadsBack(v: nat, n: nat)
    requires v < Pow256(n)
    ensures LittleEndian(ToBytes(v, n)) == v
  {
    if n > 0 {
      FieldReadsBack(v / 256, n - 1);
      assert ToBytes(v, n)[1..] == ToBytes(v / 256, n - 1);
    }
  }

  lemma {:induction false} FieldFits(b: seq<byte>)
    ensures LittleEndian(b) < Pow256(|b|)
  {
    if b != [] {
      FieldFits(b[1..]);
    }
  }

  lemma {:induction false} FieldSizes()
    ensures Pow256(4) == U32_LIMIT && Pow256(8) == U64_LIMIT
  {
    assert Pow256(1) == 256;
    assert Pow256(2) == 0x1_0000;
    assert Pow256(3) == 0x100_0000;
    assert Pow256(4) == 0x1_0000_0000;
    assert Pow256(5) == 0x100_0000_0000;
    assert Pow256(6) == 0x1_0000_0000_0000;
    assert Pow256(7) == 0x100_0000_0000_0000;
  }

  /** A field of n bytes at offset o; 0 when it is not all there. */
  function Field(b: seq<byte>, o: nat, n: nat): nat {
    if o + n <= |b| then LittleEndian(b[o..o + n]) else 0
  }

  function ReadU32(b: seq<byte>, o: nat): (v: u32)
    ensures v == if o + 4 > |b| then 0 else LittleEndian(b[o..o + 4])
  {
    FieldSizes();
    if o + 4 <= |b| then FieldFits(b[o..o + 4]); Field(b, o, 4) else 0
  }

  function ReadU64(b: seq<byte>, o: nat): (v: u64)
    ensures v == if o + 8 > |b| then 0 else LittleEndian(b[o..o + 8])
  {
    FieldSizes();
    if o + 8 <= |b| then FieldFits(b[o..o + 8]); Field(b, o, 8) else 0
  }

  /** `i64_le`: the same bits as a signed value. */
  function ReadI64(b: seq<byte>, o: nat): (x: int)
    ensures o + 8 > |b| ==> x == 0
    ensures o + 8 <= |b| ==> (x - LittleEndian(b[o..o + 8])) % 0x1_0000_0000_0000_0000 == 0
    ensures -0x8000_0000_0000_0000 <= x < 0x8000_0000_0000_0000
  {
    Signed(ReadU64(b, o))
  }

  function Signed(u: u64): (x: int)
    ensures -0x8000_0000_0000_0000 <= x < 0x8000_0000_0000_0000
    ensures x == u || x + 0x1_0000_0000_0000_0000 == u
  {
    if u < U64_LIMIT / 2 then u else u - U64_LIMIT
  }

  /** The 64 bits of a signed value. */
  function Unsigned(x: i64): u64 {
    if x < 0 then x + U64_LIMIT else x
  }

  lemma {:induction false} SignedReadsBack(x: i64)
    ensures Signed(Unsigned(x)) == x
    ensures NonNegative(Unsigned(x)) == Max(0, x)
  {
  }

  /** `.max(0) as u64` of the signed value. */
  function NonNegative(u: u64): u64 {
    if u < U64_LIMIT / 2 then u else 0
  }

  function Zeros(n: nat): (b: seq<byte>)
    ensures |b| == n && forall i :: 0 <= i < n ==> b[i] == 0
  {
    seq(n, i => 0)
  }

  lemma {:induction false} ZeroField(b: seq<byte>)
    requires forall i :: 0 <= i < |b| ==> b[i] == 0
    ensures LittleEndian(b) == 0
  {
    if b != [] {
      ZeroField(b[1..]);
    }
  }

  // ----- hexadecimal -----

  function HexDigit(d: nat): char
    requires d < 16
  {
    if d < 10 then ('0' as int + d) as char else ('A' as int + (d - 10)) as char
  }

  function HexPair(b: byte): (s: string)
    ensures |s| == 2
  {
    [HexDigit(b / 16), HexDigit(b % 16)]
  }

  lemma {:induction false} HexPairInjective(a: byte, b: byte)
    requires HexPair(a) == HexPair(b)
    ensures a == b
  {
    HexDigitInjective(a / 16, b / 16);
    HexDigitInjective(a % 16, b % 16);
    assert HexPair(a)[0] == HexPair(b)[0] && HexPair(a)[1] == HexPair(b)[1];
  }

  lemma {:induction false} HexDigitInjective(a: nat, b: nat)
    requires a < 16 && b < 16
    ensures HexDigit(a) == HexDigit(b) ==> a == b
  {
  }

  /** What a hexadecimal digit stands for, by character code; letters must be upper case. */
  function ReadDigit(c: char): Option<nat> {
    var n := c as int;
    if 48 <= n <= 57 then Some(n - 48) else if 65 <= n <= 70 then Some(n - 55) else None
  }

  /** The number a string of hexadecimal digits stands for, the first digit counting most. */
  function ReadHex(s: string): Option<nat> {
    if s == [] then Some(0)
    else
      match (ReadHex(s[..|s| - 1]), ReadDigit(s[|s| - 1]))
      case (Some(v), Some(d)) => Some(16 * v + d)
      case _ => None
  }

  lemma {:induction false} DigitReads(d: nat)
    requires d < 16
    ensures ReadDigit(HexDigit(d)) == Some(d)
  {
  }

  lemma {:induction false} ReadHexSnoc(s: string, c: char)
    requires ReadHex(s).Some? && ReadDigit(c).Some?
    ensures ReadHex(s + [c]) == Some(16 * ReadHex(s).value + ReadDigit(c).value)
  {
    assert (s + [c])[..|s|] == s;
  }

  /** A byte is written in two digits. */
  lemma {:induction false} PairAppended(s: string, b: byte)
    requires ReadHex(s).Some?
    ensures ReadHex(s + HexPair(b)) == Some(256 * ReadHex(s).value + b)
  {
    DigitReads(b / 16);
    DigitReads(b % 16);
    ReadHexSnoc(s, HexDigit(b / 16));
    ReadHexSnoc(s + [HexDigit(b / 16)], HexDigit(b % 16));
    assert s + HexPair(b) == s + [HexDigit(b / 16)] + [HexDigit(b % 16)];
  }

  lemma {:induction false} PairReads(b: byte)
    ensures ReadHex(HexPair(b)) == Some(b)
  {
    PairAppended([], b);
    assert [] + HexPair(b) == HexPair(b);
  }

  function HexBytes(bs: seq<byte>): (s: string)
    ensures |s| == 2 * |bs|
  {
    if bs == [] then [] else HexPair(bs[0]) + HexBytes(bs[1..])
  }

  lemma {:induction false} HexBytesInjective(a: seq<byte>, b: seq<byte>)
    requires |a| == |b| && HexBytes(a) == HexBytes(b)
    ensures a == b
  {
    if a != [] {
      assert HexBytes(a)[..2] == HexPair(a[0]) && HexBytes(b)[..2] == HexPair(b[0]);
      assert HexBytes(a)[2..] == HexBytes(a[1..]) && HexBytes(b)[2..] == HexBytes(b[1..]);
      HexPairInjective(a[0], b[0]);
      HexBytesInjective(a[1..], b[1..]);
      assert a == [a[0]] + a[1..] && b == [b[0]] + b[1..];
    }
  }

  /** A single byte of a row of bytes is read from its own two digits. */
  lemma {:induction false} ByteReads(bs: seq<byte>, k: nat)
    requires k < |bs|
    ensures ReadHex(HexBytes(bs)[2 * k..2 * k + 2]) == Some(bs[k])
  {
    if k == 0 {
      PairReads(bs[0]);
      assert HexBytes(bs)[0..2] == HexPair(bs[0]);
    } else {
      ByteReads(bs[1..], k - 1);
      assert HexBytes(bs)[2 * k..2 * k + 2] == HexBytes(bs[1..])[2 * (k - 1)..2 * (k - 1) + 2];
    }
  }

  lemma {:induction false} HexBytesSnoc(bs: seq<byte>, b: byte)
    ensures HexBytes(bs + [b]) == HexBytes(bs) + HexPair(b)
  {
    if bs == [] {
      assert [] + [b] == [b] && [b][1..] == [];
    } else {
      HexBytesSnoc(bs[1..], b);
      assert (bs + [b])[1..] == bs[1..] + [b];
    }
  }

  /** A row of bytes is read as one number, the last byte counting least. */
  lemma {:induction false} RowReads(bs: seq<byte>)
    ensures ReadHex(HexBytes(bs)).Some?
    ensures |bs| > 0 ==>
      match ReadHex(HexBytes(bs[..|bs| - 1]))
      case Some(v) => ReadHex(HexBytes(bs)) == Some(256 * v + bs[|bs| - 1])
      case None => false
  {
    if bs != [] {
      var n := |bs| - 1;
      RowReads(bs[..n]);
      HexBytesSnoc(bs[..n], bs[n]);
      assert bs == bs[..n] + [bs[n]];
      PairAppended(HexBytes(bs[..n]), bs[n]);
    }
  }

  lemma {:induction false} TwoBytesRead(a: byte, b: byte)
    ensures ReadHex(HexBytes([a, b])) == Some(0x100 * a + b)
  {
    RowReads([a, b]);
    RowReads([a]);
    assert [a, b][..1] == [a] && [a][..0] == [];
    assert ReadHex(HexBytes([a])) == Some(a);
  }

  lemma {:induction false} FourBytesRead(a: byte, b: byte, c: byte, d: byte)
    ensures ReadHex(HexBytes([a, b, c, d])) == Some(0x100_0000 * a + 0x1_0000 * b + 0x100 * c + d)
  {
    TwoBytesRead(a, b);
    RowReads([a, b, c]);
    RowReads([a, b, c, d]);
    assert [a, b, c, d][..3] == [a, b, c] && [a, b, c][..2] == [a, b];
  }
}
