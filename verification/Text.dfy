/** The string operations of Rust's standard library that the parsers use. */
module Text {
  import opened Machine

  /** Unicode's White_Space property. */
  predicate IsWhitespace(c: char) {
    var n := c as int;
    || 9 <= n <= 13 || n == 0x20 || n == 0x85 || n == 0xA0 || n == 0x1680
    || 0x2000 <= n <= 0x200A || n == 0x2028 || n == 0x2029 || n == 0x202F || n == 0x205F || n == 0x3000
  }

  predicate Blank(s: string) {
    forall i :: 0 <= i < |s| ==> IsWhitespace(s[i])
  }

  predicate Solid(s: string) {
    forall i :: 0 <= i < |s| ==> !IsWhitespace(s[i])
  }

  predicate StartsWith(s: string, prefix: string) {
    prefix <= s
  }

  // ----- trimming -----

  function TrimStart(s: string): string {
    if s != [] && IsWhitespace(s[0]) then TrimStart(s[1..]) else s
  }

  function TrimEnd(s: string): string {
    if s != [] && IsWhitespace(s[|s| - 1]) then TrimEnd(s[..|s| - 1]) else s
  }

  function Trim(s: string): string {
    TrimEnd(TrimStart(s))
  }

  /** Neither end is whitespace. */
  predicate Trimmed(s: string) {
    s != [] ==> !IsWhitespace(s[0]) && !IsWhitespace(s[|s| - 1])
  }

  lemma {:induction false} TrimStartDrops(pre: string, s: string)
    requires Blank(pre)
    ensures TrimStart(pre + s) == TrimStart(s)
  {
    if pre == [] {
      assert pre + s == s;
    } else {
      TrimStartDrops(pre[1..], s);
      assert (pre + s)[1..] == pre[1..] + s;
    }
  }

  lemma {:induction false} TrimEndDrops(s: string, post: string)
    requires Blank(post)
    ensures TrimEnd(s + post) == TrimEnd(s)
  {
    if post == [] {
      assert s + post == s;
    } else {
      var n := |post| - 1;
      TrimEndDrops(s, post[..n]);
      assert (s + post)[..|s| + n] == s + post[..n];
    }
  }

  /** Trimming takes off surrounding whitespace and nothing else. */
  lemma {:induction false} TrimDrops(pre: string, core: string, post: string)
    requires Blank(pre) && Blank(post) && Trimmed(core)
    ensures Trim(pre + core + post) == core
  {
    if core == [] {
      assert pre + core + post == (pre + post) + [];
      TrimStartDrops(pre + post, []);
    } else {
      assert pre + core + post == pre + (core + post);
      TrimStartDrops(pre, core + post);
      TrimEndDrops(core, post);
    }
  }

  // ----- decimal numbers -----

  predicate IsDigit(c: char) {
    '0' <= c <= '9'
  }

  predicate Digits(s: string) {
    forall i :: 0 <= i < |s| ==> IsDigit(s[i])
  }

  function DigitValue(c: char): nat
    requires IsDigit(c)
  {
    c as int - '0' as int
  }

  function Value(s: string): nat
    requires Digits(s)
  {
    if s == [] then 0 else 10 * Value(s[..|s| - 1]) + DigitValue(s[|s| - 1])
  }

  /** `str::parse::<u64>`: digits, after at most one plus sign, of a value that fits. */
  function ParseUnsigned(s: string): Option<u64> {
    var digits := if s != [] && s[0] == '+' then s[1..] else s;
    if digits == [] || !Digits(digits) || Value(digits) > U64_MAX then None else Some(Value(digits))
  }

  /** A digit more behind a number makes it ten times as much and the digit. */
  lemma {:induction false} ValueByTens(s: string, c: char)
    requires Digits(s) && IsDigit(c)
    ensures Value([]) == 0 && Value(s + [c]) == 10 * Value(s) + (c as int - 48)
  {
    assert (s + [c])[..|s|] == s;
  }

  /** What is read as a number: digits, after at most one plus sign, up to 2^64 - 1. */
  lemma {:induction false} ParsesExactly(s: string, v: nat)
    ensures ParseUnsigned(s) == Some(v)
       <==> v <= 0xFFFF_FFFF_FFFF_FFFF
            && exists d :: d != [] && (forall i :: 0 <= i < |d| ==> 48 <= d[i] as int <= 57) && Digits(d)
                           && Value(d) == v && (s == d || s == "+" + d)
  {
    if ParseUnsigned(s) == Some(v) {
      var d := if s[0] == '+' then s[1..] else s;
      assert s[0] == '+' ==> s == "+" + s[1..];
      assert Digits(d);
    }
    if d :| d != [] && Digits(d) && Value(d) == v && (s == d || s == "+" + d) && v <= U64_MAX {
      assert IsDigit(d[0]);
      assert ("+" + d)[1..] == d;
    }
  }

  function Decimal(n: nat): (s: string)
    ensures s != [] && Digits(s)
  {
    var last := ('0' as int + n % 10) as char;
    if n < 10 then [last] else Decimal(n / 10) + [last]
  }

  lemma {:induction false} DecimalValue(n: nat)
    ensures Value(Decimal(n)) == n
  {
    var last := ('0' as int + n % 10) as char;
    assert DigitValue(last) == n % 10;
    if n >= 10 {
      DecimalValue(n / 10);
      assert Decimal(n)[..|Decimal(n)| - 1] == Decimal(n / 10);
    }
  }

  lemma {:induction false} ParseOfDecimal(n: nat)
    ensures ParseUnsigned(Decimal(n)) == if n <= U64_MAX then Some(n) else None
  {
    DecimalValue(n);
    assert IsDigit(Decimal(n)[0]);
  }

  // ----- order -----

  /** Lexicographic order of strings. */
  predicate NotAfter(a: string, b: string) {
    if a == [] then true
    else if b == [] then false
    else a[0] < b[0] || (a[0] == b[0] && NotAfter(a[1..], b[1..]))
  }

  lemma {:induction false} NotAfterTotal(a: string, b: string)
    ensures NotAfter(a, b) || NotAfter(b, a)
    ensures NotAfter(a, b) && NotAfter(b, a) ==> a == b
  {
    if a != [] && b != [] {
      NotAfterTotal(a[1..], b[1..]);
      assert a == [a[0]] + a[1..] && b == [b[0]] + b[1..];
    }
  }

  lemma {:induction false} NotAfterTransitive(a: string, b: string, c: string)
    requires NotAfter(a, b) && NotAfter(b, c)
    ensures NotAfter(a, c)
  {
    if a != [] {
      if a[0] == b[0] && b[0] == c[0] {
        NotAfterTransitive(a[1..], b[1..], c[1..]);
      }
    }
  }

  /** Up to position k the strings agree, and there a has the smaller character. */
  predicate LessAt(a: string, b: string, k: int) {
    0 <= k < |a| && k < |b| && a[..k] == b[..k] && a[k] < b[k]
  }

  lemma {:induction false} SharedFirst(a: string, b: string)
    requires a != [] && b != [] && a[0] == b[0]
    ensures (exists k :: LessAt(a, b, k)) <==> exists k :: LessAt(a[1..], b[1..], k)
  {
    if k :| LessAt(a, b, k) {
      assert a[1..][..k - 1] == a[..k][1..] && b[1..][..k - 1] == b[..k][1..];
      assert LessAt(a[1..], b[1..], k - 1);
    }
    if k :| LessAt(a[1..], b[1..], k) {
      assert a[..k + 1] == [a[0]] + a[1..][..k] && b[..k + 1] == [b[0]] + b[1..][..k];
      assert LessAt(a, b, k + 1);
    }
  }

  lemma {:induction false} FirstDecides(a: string, b: string, k: int)
    requires a != [] && b != [] && a[0] > b[0]
    ensures !LessAt(a, b, k)
  {
    if 0 < k < |a| && k < |b| {
      assert a[..k][0] == a[0] && b[..k][0] == b[0];
    }
  }

  /** One string comes before another if it is a prefix of it, or has the smaller character
      where they first differ. */
  lemma {:induction false} NotAfterExactly(a: string, b: string)
    ensures NotAfter(a, b) <==> a <= b || exists k :: LessAt(a, b, k)
  {
    if a != [] && b != [] {
      if a[0] == b[0] {
        NotAfterExactly(a[1..], b[1..]);
        SharedFirst(a, b);
        assert a <= b <==> a[1..] <= b[1..] by {
          assert a == [a[0]] + a[1..] && b == [b[0]] + b[1..];
        }
      } else if a[0] < b[0] {
        assert LessAt(a, b, 0);
      } else {
        forall k ensures !LessAt(a, b, k) {
          FirstDecides(a, b, k);
        }
      }
    }
  }

  // ----- words and lines -----

  /** The longest prefix without whitespace. */
  function Word(s: string): (w: string)
    ensures w <= s && Solid(w)
    ensures |w| < |s| ==> IsWhitespace(s[|w|])
  {
    if s == [] || IsWhitespace(s[0]) then [] else [s[0]] + Word(s[1..])
  }

  lemma {:induction false} TrimStartShrinks(s: string)
    ensures |TrimStart(s)| <= |s|
    ensures TrimStart(s) != [] ==> !IsWhitespace(TrimStart(s)[0])
  {
    if s != [] {
      TrimStartShrinks(s[1..]);
    }
  }

  /** `split_whitespace`. */
  function Fields(s: string): (f: seq<string>)
    ensures forall i :: 0 <= i < |f| ==> f[i] != [] && Solid(f[i])
    decreases |s|
  {
    TrimStartShrinks(s);
    var t := TrimStart(s);
    if t == [] then [] else [Word(t)] + Fields(t[|Word(t)|..])
  }

  lemma {:induction false} WordOf(w: string, rest: string)
    requires Solid(w) && (rest != [] ==> IsWhitespace(rest[0]))
    ensures Word(w + rest) == w
  {
    if w == [] {
      assert w + rest == rest;
    } else {
      WordOf(w[1..], rest);
      assert (w + rest)[1..] == w[1..] + rest;
    }
  }

  /** The first field of a line that starts with a word. */
  lemma {:induction false} FieldsOfWord(w: string, rest: string)
    requires w != [] && Solid(w) && (rest != [] ==> IsWhitespace(rest[0]))
    ensures Fields(w + rest) == [w] + Fields(rest)
  {
    WordOf(w, rest);
    assert (w + rest)[|w|..] == rest;
    assert !IsWhitespace((w + rest)[0]);
  }

  lemma {:induction false} FieldsSkipSpace(c: char, rest: string)
    requires IsWhitespace(c)
    ensures Fields([c] + rest) == Fields(rest)
  {
    TrimStartDrops([c], rest);
  }

  lemma {:induction false} FieldsIgnoreTrailingSpace(s: string, c: char)
    requires IsWhitespace(c)
    ensures Fields(s + [c]) == Fields(s)
    decreases |s|
  {
    TrimStartShrinks(s);
    TrimStartOfSpaced(s, c);
    var t := TrimStart(s);
    if t == [] {
      TrimStartShrinks(s + [c]);
    } else {
      var w := Word(t);
      assert t == w + t[|w|..];
      assert t + [c] == w + (t[|w|..] + [c]);
      WordOf(w, t[|w|..] + [c]);
      assert (t + [c])[|w|..] == t[|w|..] + [c];
      FieldsIgnoreTrailingSpace(t[|w|..], c);
    }
  }

  lemma {:induction false} TrimStartOfSpaced(s: string, c: char)
    requires IsWhitespace(c)
    ensures TrimStart(s + [c]) == if TrimStart(s) == [] then [] else TrimStart(s) + [c]
  {
    if s == [] {
      assert s + [c] == [c];
      assert [c][1..] == [];
    } else {
      assert (s + [c])[1..] == s[1..] + [c];
      if IsWhitespace(s[0]) {
        TrimStartOfSpaced(s[1..], c);
      }
    }
  }

  function IndexOfNewline(s: string): (k: nat)
    ensures k <= |s| && '\n' !in s[..k] && (k < |s| ==> s[k] == '\n')
  {
    if s == [] || s[0] == '\n' then 0
    else
      var k := IndexOfNewline(s[1..]);
      assert s[..k + 1] == [s[0]] + s[1..][..k];
      k + 1
  }

  function StripCarriageReturn(line: string): string {
    if line != [] && line[|line| - 1] == '\r' then line[..|line| - 1] else line
  }

  /** `str::lines`: lines end in a newline, with or without a carriage return, or at the end. */
  function Lines(s: string): seq<string>
    decreases |s|
  {
    if s == [] then []
    else
      var k := IndexOfNewline(s);
      if k == |s| then [s] else [StripCarriageReturn(s[..k])] + Lines(s[k + 1..])
  }

  lemma {:induction false} NewlineIndex(line: string, rest: string)
    requires '\n' !in line
    ensures IndexOfNewline(line + ['\n'] + rest) == |line|
  {
    var s := line + ['\n'] + rest;
    if line == [] {
    } else {
      NewlineIndex(line[1..], rest);
      assert s[1..] == line[1..] + ['\n'] + rest;
      assert s[0] == line[0] && line[0] in line;
    }
  }

  lemma {:induction false} LinesCons(line: string, rest: string)
    requires '\n' !in line
    ensures Lines(line + ['\n'] + rest) == [StripCarriageReturn(line)] + Lines(rest)
  {
    NewlineIndex(line, rest);
    var s := line + ['\n'] + rest;
    assert s[..|line|] == line && s[|line| + 1..] == rest;
  }

  /** The fields of a line do not depend on how it ends. */
  lemma {:induction false} FieldsOfStripped(line: string)
    ensures Fields(StripCarriageReturn(line)) == Fields(line)
  {
    if line != [] && line[|line| - 1] == '\r' {
      var n := |line| - 1;
      FieldsIgnoreTrailingSpace(line[..n], '\r');
      assert line == line[..n] + ['\r'];
    }
  }
}
