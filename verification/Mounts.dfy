/** `parse_mounts` (core/src/sysfs.rs): the device mounts listed in /proc/mounts. */
module Mounts {
  import opened Machine
  import opened Text
  import opened Octal
  import opened Sorting

  datatype Mount = Mount(dev: string, point: string, fs: string)

  const DEV: string := "/dev/"

  /** The mount a line lists, if its first field is below /dev/ and two more follow. */
  function ParseLine(line: string): Option<Mount> {
    var f := Fields(line);
    if |f| >= 3 && StartsWith(f[0], DEV) then Some(Mount(f[0][|DEV|..], Decode(f[1]), f[2])) else None
  }

  function ParseLines(lines: seq<string>): seq<Mount> {
    if lines == [] then []
    else (match ParseLine(lines[0]) case Some(m) => [m] case None => []) + ParseLines(lines[1..])
  }

  function ParseMounts(content: string): seq<Mount> {
    ParseLines(Lines(content))
  }

  // ----- printing -----

  /** A line of the table: a mount with whatever follows its type, or a line about something else. */
  datatype Line = Listed(m: Mount, rest: string) | Other(text: string)

  function PrintLine(l: Line, marked: set<char>): string
    requires Escapable(marked)
  {
    match l
    case Listed(m, rest) => "/dev/" + m.dev + " " + Escape(m.point, marked) + " " + m.fs + rest
    case Other(text) => text
  }

  function Print(lines: seq<Line>, marked: set<char>): string
    requires Escapable(marked)
  {
    if lines == [] then [] else PrintLine(lines[0], marked) + ['\n'] + Print(lines[1..], marked)
  }

  /** A line fits the table: its parts stay apart when printed with spaces between them, the
      whitespace of the mount point is marked for escaping, and a line about something else
      is not a mount of a device. */
  predicate Printable(l: Line, marked: set<char>) {
    match l
    case Listed(m, rest) =>
      && Solid(m.dev) && m.fs != [] && Solid(m.fs)
      && m.point != [] && (forall i :: 0 <= i < |m.point| && IsWhitespace(m.point[i]) ==> m.point[i] in marked)
      && '\n' !in rest && (rest != [] ==> IsWhitespace(rest[0]))
    case Other(text) =>
      && '\n' !in text
      && (|Fields(text)| < 3 || !("/dev/" <= Fields(text)[0]))
  }

  function MountsOf(lines: seq<Line>): seq<Mount> {
    if lines == [] then []
    else (if lines[0].Listed? then [lines[0].m] else []) + MountsOf(lines[1..])
  }

  lemma {:induction false} ThreeFields(a: string, b: string, c: string, rest: string)
    requires a != [] && b != [] && c != [] && Solid(a) && Solid(b) && Solid(c)
    requires rest != [] ==> IsWhitespace(rest[0])
    ensures Fields(a + " " + b + " " + c + rest) == [a] + ([b] + ([c] + Fields(rest)))
  {
    var line := a + " " + b + " " + c + rest;
    assert line == a + ([' '] + (b + ([' '] + (c + rest))));
    FieldsOfWord(a, [' '] + (b + ([' '] + (c + rest))));
    FieldsSkipSpace(' ', b + ([' '] + (c + rest)));
    FieldsOfWord(b, [' '] + (c + rest));
    FieldsSkipSpace(' ', c + rest);
    FieldsOfWord(c, rest);
  }

  lemma {:induction false} ParseOfWords(dev: string, point: string, fs: string, rest: string)
    requires Solid(dev) && Solid(point) && Solid(fs) && point != [] && fs != []
    requires rest != [] ==> IsWhitespace(rest[0])
    ensures ParseLine(DEV + dev + " " + point + " " + fs + rest) == Some(Mount(dev, Decode(point), fs))
  {
    var d := DEV + dev;
    ThreeFields(d, point, fs, rest);
    assert d[|DEV|..] == dev;
  }

  lemma {:induction false} LineReadsBack(l: Line, marked: set<char>)
    requires Escapable(marked) && Reversible(marked) && Printable(l, marked)
    ensures ParseLine(PrintLine(l, marked)) == if l.Listed? then Some(l.m) else None
  {
    if l.Listed? {
      var m := l.m;
      EscapedIsSolid(m.point, marked);
      DecodeUndoesEscape(m.point, marked);
      ParseOfWords(m.dev, Escape(m.point, marked), m.fs, l.rest);
    }
  }

  lemma {:induction false} PrintsOneLine(l: Line, marked: set<char>)
    requires Escapable(marked) && Printable(l, marked)
    ensures '\n' !in PrintLine(l, marked)
  {
    if l.Listed? {
      EscapedIsSolid(l.m.point, marked);
      assert Solid(DEV + l.m.dev);
    }
  }

  lemma {:induction false} ParseIgnoresLineEnd(line: string)
    ensures ParseLine(StripCarriageReturn(line)) == ParseLine(line)
  {
    FieldsOfStripped(line);
  }

  lemma {:induction false} LineThenText(line: string, text: string)
    requires '\n' !in line
    ensures ParseMounts(line + ['\n'] + text)
         == (match ParseLine(line) case Some(m) => [m] case None => []) + ParseMounts(text)
  {
    LinesCons(line, text);
    ParseIgnoresLineEnd(line);
    assert ([StripCarriageReturn(line)] + Lines(text))[1..] == Lines(text);
  }

  /** A printed table is read on its own, whatever text follows. */
  lemma {:induction false} TableThenText(lines: seq<Line>, text: string, marked: set<char>)
    requires Escapable(marked) && Reversible(marked)
    requires forall i :: 0 <= i < |lines| ==> Printable(lines[i], marked)
    ensures ParseMounts(Print(lines, marked) + text) == MountsOf(lines) + ParseMounts(text)
  {
    if lines == [] {
      assert Print(lines, marked) + text == text;
    } else {
      var line, rest := PrintLine(lines[0], marked), Print(lines[1..], marked);
      PrintsOneLine(lines[0], marked);
      ConcatAssociative(line + ['\n'], rest, text);
      LineThenText(line, rest + text);
      LineReadsBack(lines[0], marked);
      TableThenText(lines[1..], text, marked);
      ConcatAssociative(if lines[0].Listed? then [lines[0].m] else [], MountsOf(lines[1..]), ParseMounts(text));
    }
  }

  /** Reading a printed table gives back exactly its mounts, in order. */
  lemma {:induction false} MountsReadBack(lines: seq<Line>, marked: set<char>)
    requires Escapable(marked) && Reversible(marked)
    requires forall i :: 0 <= i < |lines| ==> Printable(lines[i], marked)
    ensures ParseMounts(Print(lines, marked)) == MountsOf(lines)
  {
    TableThenText(lines, [], marked);
    assert Print(lines, marked) + [] == Print(lines, marked);
  }

  lemma {:induction false} MountsOfSnoc(lines: seq<Line>, l: Line)
    ensures MountsOf(lines + [l]) == MountsOf(lines) + (if l.Listed? then [l.m] else [])
  {
    if lines == [] {
      assert [] + [l] == [l] && [l][1..] == [];
    } else {
      MountsOfSnoc(lines[1..], l);
      assert (lines + [l])[1..] == lines[1..] + [l];
    }
  }

  lemma {:induction false} NoNewlineAhead(line: string)
    requires '\n' !in line
    ensures IndexOfNewline(line) == |line|
  {
    if line != [] {
      NoNewlineAhead(line[1..]);
    }
  }

  lemma {:induction false} OnlyLine(line: string)
    requires '\n' !in line && line != []
    ensures ParseMounts(line) == match ParseLine(line) case Some(m) => [m] case None => []
  {
    NoNewlineAhead(line);
    assert Lines(line) == [line];
    var found := match ParseLine(line) case Some(m) => [m] case None => [];
    assert [line][1..] == [];
    assert ParseLines([line]) == found + ParseLines([]);
  }

  lemma {:induction false} LastLineParsed(l: Line, marked: set<char>)
    requires Escapable(marked) && Reversible(marked) && Printable(l, marked)
    ensures ParseMounts(PrintLine(l, marked)) == if l.Listed? then [l.m] else []
  {
    var line := PrintLine(l, marked);
    LineReadsBack(l, marked);
    PrintsOneLine(l, marked);
    if line == [] {
      assert l.Listed? ==> |line| >= |"/dev/"|;
    } else {
      OnlyLine(line);
    }
  }

  /** A last line counts although no newline ends it. */
  lemma {:induction false} LastLineReadsBack(lines: seq<Line>, last: Line, marked: set<char>)
    requires Escapable(marked) && Reversible(marked) && Printable(last, marked)
    requires forall i :: 0 <= i < |lines| ==> Printable(lines[i], marked)
    ensures ParseMounts(Print(lines, marked) + PrintLine(last, marked)) == MountsOf(lines + [last])
  {
    MountsOfSnoc(lines, last);
    TableThenText(lines, PrintLine(last, marked), marked);
    LastLineParsed(last, marked);
  }
}
