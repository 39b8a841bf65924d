/** `parse_drive_layout` (core/src/drive_layout.rs): partition records from the bytes of a
    DRIVE_LAYOUT_INFORMATION_EX structure. */
module DriveLayout {
  import opened Machine
  import opened Bytes
  import opened Sorting
  import Text
  import Utf16

  const PARTITION_ENTRY_OFFSET: nat := 48
  const ENTRY_SIZE: nat := 144
  const STYLE_MBR: u32 := 0
  const STYLE_GPT: u32 := 1
  const STYLE_NONE: u32 := 0xFFFF_FFFF

  datatype ParsedPartition = ParsedPartition(
    number: u32,
    startOffset: u64,
    length: u64,
    typeDesc: Option<string>,
    name: Option<string>)

  datatype ParsedLayout = ParsedLayout(style: u32, partitions: seq<ParsedPartition>)

  // ----- type names -----

  function ZeroFilled(b: seq<byte>): (raw: seq<byte>)
    ensures |raw| == 16
    ensures forall i :: 0 <= i < 16 ==> raw[i] == if i < |b| then b[i] else 0
  {
    seq(16, i requires 0 <= i < 16 => if i < |b| then b[i] else 0)
  }

  /** The text of a GUID whose first three fields are stored little-endian (section 4 of RFC 9562). */
  function GuidText(raw: seq<byte>): (s: string)
    requires |raw| == 16
    ensures |s| == 36
  {
    HexBytes([raw[3], raw[2], raw[1], raw[0]])
    + "-" + HexBytes([raw[5], raw[4]]) + "-" + HexBytes([raw[7], raw[6]])
    + "-" + HexBytes(raw[8..10]) + "-" + HexBytes(raw[10..])
  }

  /** The text spells a GUID in upper case: three fields stored with the least byte first, and
      the last eight bytes in order. */
  ghost predicate SpellsGuid(s: string, raw: seq<byte>)
    requires |raw| == 16
  {
    && |s| == 36 && s[8] == s[13] == s[18] == s[23] == '-'
    && ReadHex(s[..8]) == Some(LittleEndian(raw[..4]))
    && ReadHex(s[9..13]) == Some(LittleEndian(raw[4..6]))
    && ReadHex(s[14..18]) == Some(LittleEndian(raw[6..8]))
    && (forall k :: 8 <= k < 10 ==> ReadHex(s[2 * k + 3..2 * k + 5]) == Some(raw[k]))
    && (forall k :: 10 <= k < 16 ==> ReadHex(s[2 * k + 4..2 * k + 6]) == Some(raw[k]))
  }

  lemma {:induction false} FieldsSpell(raw: seq<byte>)
    requires |raw| == 16
    ensures ReadHex(HexBytes([raw[3], raw[2], raw[1], raw[0]])) == Some(LittleEndian(raw[..4]))
    ensures ReadHex(HexBytes([raw[5], raw[4]])) == Some(LittleEndian(raw[4..6]))
    ensures ReadHex(HexBytes([raw[7], raw[6]])) == Some(LittleEndian(raw[6..8]))
  {
    FourBytesRead(raw[3], raw[2], raw[1], raw[0]);
    TwoBytesRead(raw[5], raw[4]);
    TwoBytesRead(raw[7], raw[6]);
    LeastFirst(raw[..4]);
    LeastFirst(raw[4..6]);
    LeastFirst(raw[6..8]);
  }

  lemma {:induction false} GuidTextParts(raw: seq<byte>)
    requires |raw| == 16
    ensures var s := GuidText(raw);
            && s[8] == s[13] == s[18] == s[23] == '-'
            && s[..8] == HexBytes([raw[3], raw[2], raw[1], raw[0]])
            && s[9..13] == HexBytes([raw[5], raw[4]]) && s[14..18] == HexBytes([raw[7], raw[6]])
            && s[19..23] == HexBytes(raw[8..10]) && s[24..36] == HexBytes(raw[10..])
  {
  }

  lemma {:induction false} SpelledByte(s: string, at: nat, bs: seq<byte>, k: nat)
    requires at + 2 * |bs| <= |s| && s[at..at + 2 * |bs|] == HexBytes(bs) && k < |bs|
    ensures ReadHex(s[at + 2 * k..at + 2 * k + 2]) == Some(bs[k])
  {
    ByteReads(bs, k);
    SliceOfSlice(s, at, at + 2 * |bs|, 2 * k, 2 * k + 2);
  }

  /** A GUID's text spells it. */
  lemma {:induction false} GuidTextSpells(raw: seq<byte>)
    requires |raw| == 16
    ensures SpellsGuid(GuidText(raw), raw)
  {
    var s := GuidText(raw);
    GuidTextParts(raw);
    FieldsSpell(raw);
    forall k | 8 <= k < 10 ensures ReadHex(s[2 * k + 3..2 * k + 5]) == Some(raw[k]) {
      SpelledByte(s, 19, raw[8..10], k - 8);
    }
    forall k | 10 <= k < 16 ensures ReadHex(s[2 * k + 4..2 * k + 6]) == Some(raw[k]) {
      SpelledByte(s, 24, raw[10..], k - 10);
    }
  }

  method FormatGuid(b: seq<byte>) returns (s: string)
    ensures s == GuidText(ZeroFilled(b))
    ensures SpellsGuid(s, ZeroFilled(b))
  {
    var raw := new byte[16](i => 0);
    var n := if |b| < 16 then |b| else 16;
    for i := 0 to n
      invariant forall k :: 0 <= k < 16 ==> raw[k] == if k < i then b[k] else 0
    {
      raw[i] := b[i];
    }
    assert raw[..] == ZeroFilled(b);
    s := GuidText(raw[..]);
    GuidTextSpells(ZeroFilled(b));
  }

  lemma {:induction false} PeelEnd(p: string, q: string, x: string, y: string)
    requires |x| == |y| && p + x == q + y
    ensures p == q && x == y
  {
    assert (p + x)[..|p|] == p && (q + y)[..|q|] == q;
    assert (p + x)[|p|..] == x && (q + y)[|q|..] == y;
  }

  /** Different GUIDs have different texts. */
  lemma {:induction false} GuidTextInjective(a: seq<byte>, b: seq<byte>)
    requires |a| == |b| == 16 && GuidText(a) == GuidText(b)
    ensures a == b
  {
    var a0, b0 := HexBytes([a[3], a[2], a[1], a[0]]), HexBytes([b[3], b[2], b[1], b[0]]);
    var a1, b1 := HexBytes([a[5], a[4]]), HexBytes([b[5], b[4]]);
    var a2, b2 := HexBytes([a[7], a[6]]), HexBytes([b[7], b[6]]);
    var a3, b3 := HexBytes(a[8..10]), HexBytes(b[8..10]);
    PeelEnd(a0 + "-" + a1 + "-" + a2 + "-" + a3 + "-", b0 + "-" + b1 + "-" + b2 + "-" + b3 + "-",
            HexBytes(a[10..]), HexBytes(b[10..]));
    PeelEnd(a0 + "-" + a1 + "-" + a2 + "-" + a3, b0 + "-" + b1 + "-" + b2 + "-" + b3, "-", "-");
    PeelEnd(a0 + "-" + a1 + "-" + a2 + "-", b0 + "-" + b1 + "-" + b2 + "-", a3, b3);
    PeelEnd(a0 + "-" + a1 + "-" + a2, b0 + "-" + b1 + "-" + b2, "-", "-");
    PeelEnd(a0 + "-" + a1 + "-", b0 + "-" + b1 + "-", a2, b2);
    PeelEnd(a0 + "-" + a1, b0 + "-" + b1, "-", "-");
    PeelEnd(a0 + "-", b0 + "-", a1, b1);
    PeelEnd(a0, b0, "-", "-");
    HexBytesInjective([a[3], a[2], a[1], a[0]], [b[3], b[2], b[1], b[0]]);
    HexBytesInjective([a[5], a[4]], [b[5], b[4]]);
    HexBytesInjective([a[7], a[6]], [b[7], b[6]]);
    HexBytesInjective(a[8..10], b[8..10]);
    HexBytesInjective(a[10..], b[10..]);
    SameByParts(a, b);
  }

  lemma {:induction false} SameByParts(a: seq<byte>, b: seq<byte>)
    requires |a| == |b| == 16
    requires [a[3], a[2], a[1], a[0]] == [b[3], b[2], b[1], b[0]]
    requires [a[5], a[4]] == [b[5], b[4]] && [a[7], a[6]] == [b[7], b[6]]
    requires a[8..10] == b[8..10] && a[10..] == b[10..]
    ensures a == b
  {
    forall i | 0 <= i < 16 ensures a[i] == b[i] {
      if i < 4 {
        assert [a[3], a[2], a[1], a[0]][3 - i] == [b[3], b[2], b[1], b[0]][3 - i];
      } else if i < 6 {
        assert [a[5], a[4]][5 - i] == [b[5], b[4]][5 - i];
      } else if i < 8 {
        assert [a[7], a[6]][7 - i] == [b[7], b[6]][7 - i];
      } else if i < 10 {
        assert a[8..10][i - 8] == b[8..10][i - 8];
      } else {
        assert a[10..][i - 10] == b[10..][i - 10];
      }
    }
  }

  // ----- parsing -----

  type Entry = b: seq<byte> | |b| == ENTRY_SIZE witness Zeros(ENTRY_SIZE)

  /** The type and the name an entry of some style gives a partition; None if it is to be skipped. */
  function Describe(style: u32, entry: Entry): Option<(Option<string>, Option<string>)> {
    if style == STYLE_GPT then
      var name := Utf16.Name(entry[72..144]);
      Some((Some(GuidText(ZeroFilled(entry[32..48]))), if name == [] then None else Some(name)))
    else if style == STYLE_MBR then
      if entry[32] == 0 then None else Some((Some("0x" + HexPair(entry[32])), None))
    else Some((None, None))
  }

  /** The partition in an entry, unless the slot is empty. */
  function ParseEntry(style: u32, entry: Entry): Option<ParsedPartition> {
    var length := NonNegative(ReadU64(entry, 16));
    if length == 0 then None
    else
      match Describe(style, entry)
      case None => None
      case Some(d) => Some(ParsedPartition(ReadU32(entry, 24), NonNegative(ReadU64(entry, 8)), length, d.0, d.1))
  }

  function ParserOf(style: u32): Entry -> Option<ParsedPartition> {
    (entry: Entry) => ParseEntry(style, entry)
  }

  function EntryStart(i: nat): nat {
    PARTITION_ENTRY_OFFSET + i * ENTRY_SIZE
  }

  predicate HasEntry(buf: seq<byte>, i: nat) {
    EntryStart(i) + ENTRY_SIZE <= |buf|
  }

  function EntryAt(buf: seq<byte>, i: nat): Entry
    requires HasEntry(buf, i)
  {
    buf[EntryStart(i)..EntryStart(i) + ENTRY_SIZE]
  }

  function AsList<T>(o: Option<T>): seq<T> {
    match o case Some(x) => [x] case None => []
  }

  /** What a parser finds in entries i to count, as far as the buffer goes. */
  function ParseFrom<T>(buf: seq<byte>, i: nat, count: nat, parse: Entry -> Option<T>): seq<T>
    decreases count - i
  {
    if i >= count || !HasEntry(buf, i) then []
    else AsList(parse(EntryAt(buf, i))) + ParseFrom(buf, i + 1, count, parse)
  }

  function ParsedLayoutOf(buf: seq<byte>): ParsedLayout {
    if |buf| < 8 then ParsedLayout(STYLE_NONE, [])
    else ParsedLayout(ReadU32(buf, 0), ParseFrom(buf, 0, ReadU32(buf, 4), ParserOf(ReadU32(buf, 0))))
  }

  /** `i64_le(..).max(0) as u64`. */
  function ReadNonNegative(b: seq<byte>, o: nat): u64 {
    Max(ReadI64(b, o), 0)
  }

  /** The body of the loop over the entries; None where the original continues with the next one. */
  method ReadEntry(style: u32, entry: Entry) returns (p: Option<ParsedPartition>)
    ensures p == ParseEntry(style, entry)
  {
    var length := ReadNonNegative(entry, 16);
    if length == 0 {
      return None;
    }
    var typeDesc: Option<string>, name: Option<string> := None, None;
    if style == STYLE_GPT {
      var n := Utf16.Name(entry[72..144]);
      var guid := FormatGuid(entry[32..48]);
      typeDesc, name := Some(guid), if n == [] then None else Some(n);
    } else if style == STYLE_MBR {
      var ty := entry[32];
      if ty == 0 {
        return None;
      }
      typeDesc := Some("0x" + HexPair(ty));
    }
    p := Some(ParsedPartition(ReadU32(entry, 24), ReadNonNegative(entry, 8), length, typeDesc, name));
  }

  /** What a parser finds in the first i entries. */
  ghost function Found<T>(buf: seq<byte>, i: nat, parse: Entry -> Option<T>): seq<T> {
    if i == 0 then []
    else Found(buf, i - 1, parse) + (if HasEntry(buf, i - 1) then AsList(parse(EntryAt(buf, i - 1))) else [])
  }

  lemma {:induction false} FoundThenParsed<T>(buf: seq<byte>, i: nat, count: nat, parse: Entry -> Option<T>)
    requires i <= count && (i > 0 ==> HasEntry(buf, i - 1))
    ensures ParseFrom(buf, 0, count, parse) == Found(buf, i, parse) + ParseFrom(buf, i, count, parse)
  {
    if i > 0 {
      FoundThenParsed(buf, i - 1, count, parse);
    }
  }

  lemma {:induction false} FoundAll<T>(buf: seq<byte>, i: nat, count: nat, parse: Entry -> Option<T>)
    requires i <= count && (i > 0 ==> HasEntry(buf, i - 1)) && (i == count || !HasEntry(buf, i))
    ensures ParseFrom(buf, 0, count, parse) == Found(buf, i, parse)
  {
    FoundThenParsed(buf, i, count, parse);
  }

  method ParseDriveLayout(buf: seq<byte>) returns (layout: ParsedLayout)
    ensures layout == ParsedLayoutOf(buf)
  {
    if |buf| < 8 {
      return ParsedLayout(STYLE_NONE, []);
    }
    var style := ReadU32(buf, 0);
    var count := ReadU32(buf, 4);
    var partitions: seq<ParsedPartition> := [];
    var i := 0;
    while i < count
      invariant i <= count && (i > 0 ==> HasEntry(buf, i - 1))
      invariant partitions == Found(buf, i, ParserOf(style))
      decreases count - i
    {
      var e := PARTITION_ENTRY_OFFSET + i * ENTRY_SIZE;
      if e + ENTRY_SIZE > |buf| {
        break;
      }
      var p := ReadEntry(style, buf[e..e + ENTRY_SIZE]);
      i := i + 1;
      if p.None? {
        continue;
      }
      partitions := partitions + [p.value];
    }
    FoundAll(buf, i, count, ParserOf(style));
    layout := ParsedLayout(style, partitions);
  }

  // ----- serialising -----

  type Guid = b: seq<byte> | |b| == 16 witness Zeros(16)

  /** What the style of a layout makes of an entry's last 112 bytes. */
  datatype Kind =
    | Gpt(guid: Guid, name: Utf16.FieldName)
    | Mbr(code: byte)
    | Other

  /** An entry of a layout as the operating system means it. */
  datatype Record = Record(number: u32, start: i64, length: i64, kind: Kind)

  predicate FitsStyle(style: u32, r: Record) {
    match r.kind
    case Gpt(_, _) => style == 1
    case Mbr(_) => style == 0
    case Other => style != 0 && style != 1
  }

  /** The bytes of a kind, written over what was there. */
  function KindBytes(kind: Kind, was: seq<byte>): (b: seq<byte>)
    requires |was| == 112
    ensures |b| == 112
  {
    match kind
    case Gpt(guid, name) => guid + was[16..40] + Utf16.NameField(name, was[40..])
    case Mbr(code) => [code] + was[1..]
    case Other => was
  }

  /** The bytes of a record, written over an old entry: what it does not mean stays as it was. */
  function EntryBytes(r: Record, was: Entry): Entry {
    was[..8] + ToBytes(Unsigned(r.start), 8) + ToBytes(Unsigned(r.length), 8) + ToBytes(r.number, 4)
    + was[28..32] + KindBytes(r.kind, was[32..])
  }

  function TableBytes(entries: seq<Entry>): (b: seq<byte>)
    ensures |b| == |entries| * ENTRY_SIZE
  {
    if entries == [] then [] else entries[0] + TableBytes(entries[1..])
  }

  /** A layout buffer: style, entry count, 40 bytes of style-specific header, the entries, and
      whatever follows them. */
  function Serialize(style: u32, header: seq<byte>, entries: seq<Entry>, trailer: seq<byte>): seq<byte>
    requires |header| == 40 && |entries| < U32_LIMIT
  {
    ToBytes(style, 4) + ToBytes(|entries|, 4) + header + TableBytes(entries) + trailer
  }

  /** Records written over old entries. */
  function Written(records: seq<Record>, was: seq<Entry>): (entries: seq<Entry>)
    requires |records| == |was|
    ensures |entries| == |was|
  {
    if records == [] then [] else [EntryBytes(records[0], was[0])] + Written(records[1..], was[1..])
  }

  /** The slot is taken: its length is above zero, and its MBR type is not 0. */
  predicate IsUsed(r: Record) {
    r.length > 0 && r.kind != Mbr(0)
  }

  /** The partition a record stands for. */
  function Shown(r: Record): ParsedPartition {
    var typeDesc := match r.kind
      case Gpt(guid, _) => Some(GuidText(guid))
      case Mbr(code) => Some("0x" + HexPair(code))
      case Other => None;
    var name := if r.kind.Gpt? && r.kind.name != [] then Some(r.kind.name) else None;
    ParsedPartition(r.number, Max(0, r.start), Max(0, r.length), typeDesc, name)
  }

  lemma {:induction false} NumbersReadBack(r: Record, was: Entry)
    ensures var b := EntryBytes(r, was);
            && NonNegative(ReadU64(b, 8)) == Max(0, r.start) && NonNegative(ReadU64(b, 16)) == Max(0, r.length)
            && ReadU32(b, 24) == r.number && b[32..] == KindBytes(r.kind, was[32..])
  {
    var b := EntryBytes(r, was);
    FieldSizes();
    FieldReadsBack(Unsigned(r.start), 8);
    FieldReadsBack(Unsigned(r.length), 8);
    FieldReadsBack(r.number, 4);
    assert b[8..16] == ToBytes(Unsigned(r.start), 8);
    assert b[16..24] == ToBytes(Unsigned(r.length), 8);
    assert b[24..28] == ToBytes(r.number, 4);
    SignedReadsBack(r.start);
    SignedReadsBack(r.length);
  }

  lemma {:induction false} KindReadsBack(style: u32, r: Record, entry: Entry, was: seq<byte>)
    requires FitsStyle(style, r) && |was| == 112 && entry[32..] == KindBytes(r.kind, was)
    ensures Describe(style, entry) == if r.kind == Mbr(0) then None else Some((Shown(r).typeDesc, Shown(r).name))
  {
    var body := entry[32..];
    assert entry[32..48] == body[..16] && entry[72..144] == body[40..] && entry[32] == body[0];
    match r.kind {
      case Gpt(guid, name) =>
        Utf16.NameFieldReadsBack(name, was[40..]);
        assert body[..16] == guid && body[40..] == Utf16.NameField(name, was[40..]);
        assert ZeroFilled(guid) == guid;
      case Mbr(_) =>
      case Other =>
    }
  }

  /** A record is read back from its entry, whatever else the entry holds. */
  lemma {:induction false} RecordReadsBack(style: u32, r: Record, was: Entry)
    requires FitsStyle(style, r)
    ensures ParseEntry(style, EntryBytes(r, was)) == if IsUsed(r) then Some(Shown(r)) else None
  {
    NumbersReadBack(r, was);
    KindReadsBack(style, r, EntryBytes(r, was), was[32..]);
  }

  lemma {:induction false} TableSplits(entries: seq<Entry>, i: nat)
    requires i < |entries|
    ensures TableBytes(entries)[i * ENTRY_SIZE..(i + 1) * ENTRY_SIZE] == entries[i]
  {
    if i > 0 {
      TableSplits(entries[1..], i - 1);
      var b, rest := TableBytes(entries), TableBytes(entries[1..]);
      assert b[ENTRY_SIZE..] == rest;
      assert b[i * ENTRY_SIZE..(i + 1) * ENTRY_SIZE] == rest[(i - 1) * ENTRY_SIZE..i * ENTRY_SIZE];
    }
  }

  lemma {:induction false} SliceOfSlice<T>(s: seq<T>, a: nat, b: nat, c: nat, d: nat)
    requires a <= b <= |s| && c <= d <= b - a
    ensures s[a..b][c..d] == s[a + c..a + d]
  {
    var l, r := s[a..b][c..d], s[a + c..a + d];
    forall k | 0 <= k < d - c ensures l[k] == r[k] {
      assert l[k] == s[a..b][c + k] == s[a + (c + k)];
    }
  }

  /** The buffer holds the entries, from the first one's place on. */
  predicate HoldsTable(buf: seq<byte>, entries: seq<Entry>) {
    EntryStart(|entries|) <= |buf| && buf[EntryStart(0)..EntryStart(|entries|)] == TableBytes(entries)
  }

  lemma {:induction false} PlaceOfEntry(i: nat, n: nat)
    requires i < n
    ensures (i + 1) * ENTRY_SIZE == i * ENTRY_SIZE + ENTRY_SIZE
    ensures EntryStart(i) + ENTRY_SIZE <= EntryStart(n)
  {
  }

  lemma {:induction false} EntryOfTable(buf: seq<byte>, entries: seq<Entry>, i: nat)
    requires i < |entries| && HoldsTable(buf, entries)
    ensures HasEntry(buf, i) && EntryAt(buf, i) == entries[i]
  {
    var at := i * ENTRY_SIZE;
    TableSplits(entries, i);
    PlaceOfEntry(i, |entries|);
    assert TableBytes(entries)[at..at + ENTRY_SIZE] == entries[i];
    SliceOfSlice(buf, EntryStart(0), EntryStart(|entries|), at, at + ENTRY_SIZE);
    assert EntryStart(i) == EntryStart(0) + at;
  }

  lemma {:induction false} HeaderReadsBack(style: u32, header: seq<byte>, entries: seq<Entry>, trailer: seq<byte>)
    requires |header| == 40 && |entries| < U32_LIMIT
    ensures var buf := Serialize(style, header, entries, trailer);
            |buf| >= 8 && ReadU32(buf, 0) == style && ReadU32(buf, 4) == |entries| && HoldsTable(buf, entries)
  {
    var buf := Serialize(style, header, entries, trailer);
    FieldSizes();
    FieldReadsBack(style, 4);
    FieldReadsBack(|entries|, 4);
    assert buf[0..4] == ToBytes(style, 4);
    assert buf[4..8] == ToBytes(|entries|, 4);
  }

  lemma {:induction false} WrittenAt(records: seq<Record>, was: seq<Entry>, i: nat)
    requires |records| == |was| && i < |records|
    ensures Written(records, was)[i] == EntryBytes(records[i], was[i])
  {
    if i > 0 {
      WrittenAt(records[1..], was[1..], i - 1);
    }
  }

  lemma {:induction false} RecordAt(buf: seq<byte>, style: u32, records: seq<Record>, was: seq<Entry>, i: nat)
    requires i < |records| == |was| && FitsStyle(style, records[i]) && HoldsTable(buf, Written(records, was))
    ensures HasEntry(buf, i)
    ensures ParseEntry(style, EntryAt(buf, i)) == if IsUsed(records[i]) then Some(Shown(records[i])) else None
  {
    EntryOfTable(buf, Written(records, was), i);
    WrittenAt(records, was, i);
    RecordReadsBack(style, records[i], was[i]);
  }

  /** The partitions of the used records, in order. */
  function AllShown(records: seq<Record>): seq<ParsedPartition> {
    Apply(Shown, Filter(records, IsUsed))
  }

  lemma {:induction false} ShownCons(records: seq<Record>, i: nat)
    requires i < |records|
    ensures AllShown(records[i..])
         == (if IsUsed(records[i]) then [Shown(records[i])] else []) + AllShown(records[i + 1..])
  {
    assert records[i..] == [records[i]] + records[i + 1..];
    FilterCons(records[i], records[i + 1..], IsUsed);
  }

  lemma {:induction false} RecordsReadBack(buf: seq<byte>, style: u32, records: seq<Record>, was: seq<Entry>, i: nat)
    requires i <= |records| == |was| && forall r :: r in records ==> FitsStyle(style, r)
    requires HoldsTable(buf, Written(records, was))
    ensures ParseFrom(buf, i, |records|, ParserOf(style)) == AllShown(records[i..])
    decreases |records| - i
  {
    if i < |records| {
      RecordsReadBack(buf, style, records, was, i + 1);
      RecordAt(buf, style, records, was, i);
      ShownCons(records, i);
    }
  }

  /** Parsing a serialised layout gives back its style and exactly the partitions of the used
      records, in table order, field by field, whatever the filler. */
  lemma {:induction false} LayoutReadsBack(style: u32, header: seq<byte>, records: seq<Record>, was: seq<Entry>,
                                           trailer: seq<byte>)
    requires |header| == 40 && |records| == |was| < U32_LIMIT
    requires forall r :: r in records ==> FitsStyle(style, r)
    ensures ParsedLayoutOf(Serialize(style, header, Written(records, was), trailer))
         == ParsedLayout(style, AllShown(records))
  {
    var buf := Serialize(style, header, Written(records, was), trailer);
    HeaderReadsBack(style, header, Written(records, was), trailer);
    RecordsReadBack(buf, style, records, was, 0);
    assert records[0..] == records;
  }

  /** The partition says what the record says. */
  ghost predicate Says(p: ParsedPartition, r: Record) {
    && p.number == r.number && p.length == r.length
    && p.startOffset == (if r.start < 0 then 0 else r.start)
    && match r.kind
       case Gpt(guid, name) =>
         && p.typeDesc.Some? && SpellsGuid(p.typeDesc.value, guid)
         && p.name == if name == "" then None else Some(name)
       case Mbr(code) =>
         && p.typeDesc.Some? && |p.typeDesc.value| == 4
         && p.typeDesc.value[..2] == "0x" && ReadHex(p.typeDesc.value[2..]) == Some(code)
         && p.name == None
       case Other => p.typeDesc == None && p.name == None
  }

  lemma {:induction false} ShownSays(r: Record)
    requires IsUsed(r)
    ensures Says(Shown(r), r)
  {
    match r.kind {
      case Gpt(guid, _) => GuidTextSpells(guid);
      case Mbr(code) =>
        PairReads(code);
        assert ("0x" + HexPair(code))[2..] == HexPair(code);
      case Other =>
    }
  }

  /** The parsed layout has one partition for each record whose length is above zero and whose
      MBR type is not 0, in table order, and each says what its record says. */
  lemma {:induction false} LayoutSays(style: u32, header: seq<byte>, records: seq<Record>, was: seq<Entry>,
                                      trailer: seq<byte>)
    requires |header| == 40 && |records| == |was| < U32_LIMIT
    requires forall r :: r in records ==> FitsStyle(style, r)
    ensures var layout := ParsedLayoutOf(Serialize(style, header, Written(records, was), trailer));
            var used := Filter(records, IsUsed);
            && layout.style == style && |layout.partitions| == |used|
            && (forall k :: 0 <= k < |used| ==> Says(layout.partitions[k], used[k]))
            && (forall r :: r in records ==> (r in used <==> r.length > 0 && r.kind != Mbr(0)))
  {
    LayoutReadsBack(style, header, records, was, trailer);
    var used := Filter(records, IsUsed);
    FilterMembers(records, IsUsed);
    forall k | 0 <= k < |used| ensures Says(AllShown(records)[k], used[k]) {
      assert used[k] in used && IsUsed(used[k]);
      ShownSays(used[k]);
    }
  }

  /** Different records are shown differently: from a used record that starts at or above zero
      nothing is lost. */
  lemma {:induction false} ShownInjective(style: u32, r: Record, s: Record)
    requires FitsStyle(style, r) && FitsStyle(style, s) && IsUsed(r) && IsUsed(s)
    requires r.start >= 0 && s.start >= 0 && Shown(r) == Shown(s)
    ensures r == s
  {
    match (r.kind, s.kind) {
      case (Gpt(a, _), Gpt(b, _)) => GuidTextInjective(a, b);
      case (Mbr(a), Mbr(b)) =>
        assert ("0x" + HexPair(a))[2..] == HexPair(a) && ("0x" + HexPair(b))[2..] == HexPair(b);
        HexPairInjective(a, b);
      case _ =>
    }
  }

  /** So the parsed partitions determine the used records. */
  lemma {:induction false} RecordsAreRecovered(style: u32, a: seq<Record>, b: seq<Record>)
    requires forall r :: r in a || r in b ==> FitsStyle(style, r) && r.start >= 0
    requires AllShown(a) == AllShown(b)
    ensures Filter(a, IsUsed) == Filter(b, IsUsed)
  {
    var x, y := Filter(a, IsUsed), Filter(b, IsUsed);
    FilterMembers(a, IsUsed);
    FilterMembers(b, IsUsed);
    assert |x| == |AllShown(a)| == |y|;
    forall i | 0 <= i < |x| ensures x[i] == y[i] {
      assert x[i] in x && y[i] in y;
      assert Shown(x[i]) == AllShown(a)[i] == AllShown(b)[i] == Shown(y[i]);
      ShownInjective(style, x[i], y[i]);
    }
  }

  // ----- truncation and padding -----

  lemma {:induction false} EntrySurvives(a: seq<byte>, b: seq<byte>, i: nat)
    requires a <= b && HasEntry(a, i)
    ensures HasEntry(b, i) && EntryAt(a, i) == EntryAt(b, i)
  {
  }

  lemma {:induction false} TruncatedFrom<T>(a: seq<byte>, b: seq<byte>, i: nat, count: nat, parse: Entry -> Option<T>)
    requires a <= b
    ensures ParseFrom(a, i, count, parse) <= ParseFrom(b, i, count, parse)
    decreases count - i
  {
    if i < count && HasEntry(a, i) {
      TruncatedFrom(a, b, i + 1, count, parse);
      EntrySurvives(a, b, i);
    }
  }

  lemma {:induction false} HeaderSurvives(a: seq<byte>, b: seq<byte>)
    requires |a| >= 8 && a <= b
    ensures ReadU32(a, 0) == ReadU32(b, 0) && ReadU32(a, 4) == ReadU32(b, 4)
  {
    assert a[0..4] == b[0..4] && a[4..8] == b[4..8];
  }

  /** A truncated buffer still gives the style, and the first of the partitions; a buffer without
      room for style and count gives style 0xFFFFFFFF and no partitions. */
  lemma {:induction false} TruncationKeepsPrefix(buf: seq<byte>, k: nat)
    requires k <= |buf|
    ensures k >= 8 ==> ParsedLayoutOf(buf[..k]).style == ParsedLayoutOf(buf).style
    ensures k < 8 ==> ParsedLayoutOf(buf[..k]).style == 0xFFFF_FFFF && ParsedLayoutOf(buf[..k]).partitions == []
    ensures ParsedLayoutOf(buf[..k]).partitions <= ParsedLayoutOf(buf).partitions
  {
    if k >= 8 {
      HeaderSurvives(buf[..k], buf);
      TruncatedFrom(buf[..k], buf, 0, ReadU32(buf, 4), ParserOf(ReadU32(buf, 0)));
    }
  }

  /** How many entries fit a buffer whole. */
  function WholeEntries(buf: seq<byte>): (n: nat)
    ensures !HasEntry(buf, n)
    ensures n > 0 ==> EntryStart(n) <= |buf|
  {
    if |buf| < PARTITION_ENTRY_OFFSET then 0 else (|buf| - PARTITION_ENTRY_OFFSET) / ENTRY_SIZE
  }

  /** The entry a buffer breaks off in, filled up with zeros. */
  function BrokenEntry(buf: seq<byte>): Entry {
    var e := EntryStart(WholeEntries(buf));
    var part := if e <= |buf| then buf[e..] else [];
    part + Zeros(ENTRY_SIZE - |part|)
  }

  /** Zeros after the buffer are harmless: no more entries are announced than it holds, or the
      one it breaks off in, filled up with zeros, has no length above zero or the MBR type 0. */
  predicate PaddingSafe(buf: seq<byte>)
    requires |buf| >= 8
  {
    || ReadU32(buf, 4) <= WholeEntries(buf)
    || Signed(ReadU64(BrokenEntry(buf), 16)) <= 0
    || (ReadU32(buf, 0) == STYLE_MBR && BrokenEntry(buf)[32] == 0)
  }

  lemma {:induction false} ZeroEntryIsEmpty(style: u32, entry: Entry)
    requires forall i :: 16 <= i < 24 ==> entry[i] == 0
    ensures ParseEntry(style, entry).None?
  {
    ZeroField(entry[16..24]);
  }

  /** A parser that finds nothing in an entry of zeros. */
  predicate SkipsZeros<T(!new)>(parse: Entry -> Option<T>) {
    parse(Zeros(ENTRY_SIZE)).None?
  }

  lemma {:induction false} PaddedTail<T(!new)>(buf: seq<byte>, n: nat, i: nat, count: nat, parse: Entry -> Option<T>)
    requires i > WholeEntries(buf) && SkipsZeros(parse)
    ensures ParseFrom(buf + Zeros(n), i, count, parse) == []
    decreases count - i
  {
    var padded := buf + Zeros(n);
    assert EntryStart(i) >= EntryStart(WholeEntries(buf)) + ENTRY_SIZE;
    if i < count && HasEntry(padded, i) {
      assert EntryAt(padded, i) == Zeros(ENTRY_SIZE);
      PaddedTail(buf, n, i + 1, count, parse);
    }
  }

  lemma {:induction false} BrokenEntryOf(buf: seq<byte>, n: nat)
    requires HasEntry(buf + Zeros(n), WholeEntries(buf))
    ensures EntryAt(buf + Zeros(n), WholeEntries(buf)) == BrokenEntry(buf)
  {
  }

  lemma {:induction false} WholeEntriesFit(buf: seq<byte>, i: nat)
    requires i < WholeEntries(buf)
    ensures HasEntry(buf, i)
  {
  }

  /** What padding adds: at most the partition in the broken entry. */
  function Added<T>(buf: seq<byte>, n: nat, count: nat, parse: Entry -> Option<T>): seq<T> {
    if WholeEntries(buf) < count && HasEntry(buf + Zeros(n), WholeEntries(buf))
    then AsList(parse(BrokenEntry(buf)))
    else []
  }

  lemma {:induction false} PaddedFrom<T(!new)>(buf: seq<byte>, n: nat, i: nat, count: nat, parse: Entry -> Option<T>)
    requires i <= WholeEntries(buf) && SkipsZeros(parse)
    ensures ParseFrom(buf + Zeros(n), i, count, parse)
         == ParseFrom(buf, i, count, parse) + Added(buf, n, count, parse)
    decreases WholeEntries(buf) - i
  {
    var padded := buf + Zeros(n);
    if i < count {
      if i < WholeEntries(buf) {
        WholeEntriesFit(buf, i);
        PaddedFrom(buf, n, i + 1, count, parse);
        EntrySurvives(buf, padded, i);
      } else if HasEntry(padded, i) {
        BrokenEntryOf(buf, n);
        PaddedTail(buf, n, i + 1, count, parse);
      }
    }
  }

  lemma {:induction false} PaddedLayout(buf: seq<byte>, n: nat)
    requires |buf| >= 8
    ensures var style, count := ReadU32(buf, 0), ReadU32(buf, 4);
            ParsedLayoutOf(buf + Zeros(n))
            == ParsedLayout(style, ParsedLayoutOf(buf).partitions + Added(buf, n, count, ParserOf(style)))
  {
    HeaderSurvives(buf, buf + Zeros(n));
    ZeroEntryIsEmpty(ReadU32(buf, 0), Zeros(ENTRY_SIZE));
    PaddedFrom(buf, n, 0, ReadU32(buf, 4), ParserOf(ReadU32(buf, 0)));
  }

  /** Appending any number of zeros changes nothing exactly if padding is safe. */
  lemma {:induction false} PaddingExactly(buf: seq<byte>)
    requires |buf| >= 8
    ensures (forall n: nat :: ParsedLayoutOf(buf + Zeros(n)) == ParsedLayoutOf(buf)) <==> PaddingSafe(buf)
  {
    var style, count, w := ReadU32(buf, 0), ReadU32(buf, 4), WholeEntries(buf);
    if PaddingSafe(buf) {
      forall n: nat ensures ParsedLayoutOf(buf + Zeros(n)) == ParsedLayoutOf(buf) {
        PaddedLayout(buf, n);
        assert Added(buf, n, count, ParserOf(style)) == [];
      }
    } else {
      var n := EntryStart(w) + ENTRY_SIZE;
      PaddedLayout(buf, n);
      assert |Added(buf, n, count, ParserOf(style))| == 1;
      assert |ParsedLayoutOf(buf + Zeros(n)).partitions| == |ParsedLayoutOf(buf).partitions| + 1;
    }
  }

  /** In particular a buffer that ends between entries, before the first one, or within the
      first 16 bytes of one may be padded. */
  lemma {:induction false} EntryBoundariesAreSafe(buf: seq<byte>)
    requires |buf| >= 8
    requires |buf| <= PARTITION_ENTRY_OFFSET + 16 || (|buf| - PARTITION_ENTRY_OFFSET) % ENTRY_SIZE <= 16
    ensures PaddingSafe(buf)
  {
    ZeroEntryIsEmpty(ReadU32(buf, 0), BrokenEntry(buf));
  }
}
