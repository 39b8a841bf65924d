/** `decode_octal` (core/src/sysfs.rs): undoing the octal escapes of /proc/mounts. */
module Octal {
  import opened Machine
  import opened Text
  import opened Sorting

  predicate IsOctal(c: char) {
    '0' <= c <= '7'
  }

  function OctalDigit(c: char): nat
    requires IsOctal(c)
  {
    c as int - '0' as int
  }

  function OctalValue(a: char, b: char, c: char): nat
    requires IsOctal(a) && IsOctal(b) && IsOctal(c)
  {
    64 * OctalDigit(a) + 8 * OctalDigit(b) + OctalDigit(c)
  }

  /** A backslash and three octal digits of a value that fits a byte start at position i. */
  predicate EscapeAt(s: string, i: nat) {
    && i + 3 < |s|
    && s[i] == '\\' && IsOctal(s[i + 1]) && IsOctal(s[i + 2]) && IsOctal(s[i + 3])
    && OctalValue(s[i + 1], s[i + 2], s[i + 3]) <= 255
  }

  /** What the escapes stand for; everything else stands for itself. */
  function Decode(s: string): string {
    if s == [] then []
    else if EscapeAt(s, 0) then [OctalValue(s[1], s[2], s[3]) as char] + Decode(s[4..])
    else [s[0]] + Decode(s[1..])
  }

  method DecodeOctal(s: string) returns (out: string)
    ensures out == Decode(s)
  {
    out := [];
    var i := 0;
    while i < |s|
      invariant i <= |s| && out + Decode(s[i..]) == Decode(s)
    {
      var c := s[i];
      ghost var start := i;
      DecodeStep(s, i, out);
      i := i + 1;
      var decoded: Option<nat> := None;
      if c == '\\' {
        var digits := s[i..if i + 3 <= |s| then i + 3 else |s|];
        if |digits| == 3 && (forall d :: 0 <= d < 3 ==> IsOctal(digits[d])) {
          var v := OctalValue(digits[0], digits[1], digits[2]);
          decoded := if v <= 255 then Some(v) else None;
        }
      }
      assert decoded.Some? <==> EscapeAt(s, start);
      match decoded {
        case Some(v) =>
          out := out + [v as char];
          i := i + 3;
        case None =>
          out := out + [c];
      }
    }
  }

  /** What is left to decode after the next character or escape. */
  lemma {:induction false} DecodeStep(s: string, i: nat, out: string)
    requires i < |s|
    ensures if EscapeAt(s, i)
            then out + Decode(s[i..]) == out + [OctalValue(s[i + 1], s[i + 2], s[i + 3]) as char] + Decode(s[i + 4..])
            else out + Decode(s[i..]) == out + [s[i]] + Decode(s[i + 1..])
  {
    var tail := s[i..];
    if EscapeAt(s, i) {
      assert EscapeAt(tail, 0) && tail[4..] == s[i + 4..];
      ConcatAssociative(out, [OctalValue(s[i + 1], s[i + 2], s[i + 3]) as char], Decode(s[i + 4..]));
    } else {
      assert !EscapeAt(tail, 0) && tail[1..] == s[i + 1..];
      ConcatAssociative(out, [s[i]], Decode(s[i + 1..]));
    }
  }

  // ----- escaping -----

  function OctalChar(d: nat): (c: char)
    requires d < 8
    ensures IsOctal(c) && OctalDigit(c) == d
  {
    ('0' as int + d) as char
  }

  function EscapeChar(c: char): string
    requires c as int <= 255
  {
    var n := c as int;
    ['\\', OctalChar(n / 64), OctalChar(n / 8 % 8), OctalChar(n % 8)]
  }

  /** The characters an escaper escapes must fit three octal digits. */
  predicate Escapable(marked: set<char>) {
    forall c :: c in marked ==> c as int <= 255
  }

  /** Writes the marked characters as a backslash and three octal digits. */
  function Escape(s: string, marked: set<char>): string
    requires Escapable(marked)
  {
    if s == [] then []
    else (if s[0] in marked then EscapeChar(s[0]) else [s[0]]) + Escape(s[1..], marked)
  }

  lemma {:induction false} OctalDigitsOf(n: nat)
    requires n <= 255
    ensures n / 64 < 8 && 64 * (n / 64) + 8 * (n / 8 % 8) + n % 8 == n
  {
  }

  lemma {:induction false} DecodeEscapedChar(c: char, rest: string)
    requires c as int <= 255
    ensures Decode(EscapeChar(c) + rest) == [c] + Decode(rest)
  {
    var s := EscapeChar(c) + rest;
    OctalDigitsOf(c as int);
    assert s[4..] == rest;
    assert s[1] == OctalChar(c as int / 64) && s[2] == OctalChar(c as int / 8 % 8) && s[3] == OctalChar(c as int % 8);
  }

  /** An escaper that marks the backslash, or every digit an escape can start with. */
  predicate Reversible(marked: set<char>) {
    '\\' in marked || {'0', '1', '2', '3'} <= marked
  }

  lemma {:induction false} RawCharStands(c: char, rest: string, marked: set<char>)
    requires Escapable(marked) && Reversible(marked) && c !in marked
    ensures !EscapeAt([c] + Escape(rest, marked), 0)
  {
    var e := Escape(rest, marked);
    if c == '\\' && rest != [] {
      assert e[0] == '\\' || e[0] == rest[0];
      assert ([c] + e)[1] == e[0];
      assert e[0] !in {'0', '1', '2', '3'};
    }
  }

  lemma {:induction false} DecodeUndoesEscape(s: string, marked: set<char>)
    requires Escapable(marked) && Reversible(marked)
    ensures Decode(Escape(s, marked)) == s
  {
    if s != [] {
      DecodeUndoesEscape(s[1..], marked);
      var rest := Escape(s[1..], marked);
      if s[0] in marked {
        DecodeEscapedChar(s[0], rest);
      } else {
        RawCharStands(s[0], s[1..], marked);
        assert ([s[0]] + rest)[1..] == rest;
      }
      assert s == [s[0]] + s[1..];
    }
  }

  lemma {:induction false} UnmarkedEscapeIsLost(d: char, marked: set<char>)
    requires Escapable(marked) && '\\' !in marked && d !in marked && '0' <= d <= '3'
    ensures Decode(Escape(['\\', d, d, d], marked)) != ['\\', d, d, d]
  {
    var s := ['\\', d, d, d];
    assert s[1..] == [d, d, d] && [d, d, d][1..] == [d, d] && [d, d][1..] == [d] && [d][1..] == [];
    assert Escape([d], marked) == [d];
    assert Escape([d, d], marked) == [d, d];
    assert Escape([d, d, d], marked) == [d, d, d];
    assert Escape(s, marked) == s;
    assert EscapeAt(s, 0);
    assert s[4..] == [];
    assert |Decode(s)| == 1;
  }

  /** Decoding undoes an octal escaper on every string exactly if the escaper marks the
      backslash, or failing that the digits 0 to 3. */
  lemma {:induction false} DecodeUndoesExactly(marked: set<char>)
    requires Escapable(marked)
    ensures (forall s: string :: Decode(Escape(s, marked)) == s) <==> Reversible(marked)
  {
    if Reversible(marked) {
      forall s: string ensures Decode(Escape(s, marked)) == s {
        DecodeUndoesEscape(s, marked);
      }
    } else {
      var d :| d in {'0', '1', '2', '3'} && d !in marked;
      UnmarkedEscapeIsLost(d, marked);
    }
  }

  /** Decoding never lengthens a string, and changes it exactly if there is an escape in it. */
  lemma {:induction false} DecodeShortens(s: string)
    ensures |Decode(s)| <= |s|
    ensures Decode(s) == s <==> forall i :: 0 <= i < |s| ==> !EscapeAt(s, i)
    ensures Decode(s) != s ==> |Decode(s)| < |s|
  {
    if s == [] {
    } else if EscapeAt(s, 0) {
      DecodeShortens(s[4..]);
    } else {
      var t := s[1..];
      DecodeShortens(t);
      assert s == [s[0]] + t;
      assert Decode(s) == s <==> Decode(t) == t;
      assert forall i :: 0 < i < |s| ==> EscapeAt(s, i) == EscapeAt(t, i - 1);
      assert forall i :: 0 <= i < |t| ==> EscapeAt(t, i) == EscapeAt(s, i + 1);
    }
  }

  /** At every position: a backslash and three digits from 0 to 7, worth at most 255, stand for
      the character of that value; anything else at the start of a string stands for itself. */
  lemma {:induction false} DecodesByDigits(s: string, rest: string)
    requires |s| == 4 && s[0] == '\\'
    requires forall i :: 1 <= i < 4 ==> 48 <= s[i] as int <= 55
    ensures var v := 64 * (s[1] as int - 48) + 8 * (s[2] as int - 48) + (s[3] as int - 48);
            Decode(s + rest) == if v <= 255 then [v as char] + Decode(rest) else ['\\'] + Decode(s[1..] + rest)
  {
    assert (s + rest)[4..] == rest && (s + rest)[1..] == s[1..] + rest;
    assert forall i :: 0 <= i < 4 ==> (s + rest)[i] == s[i];
  }

  /** A character with no escape behind it stands for itself: it is not a backslash, or fewer
      than three characters follow, or one of the three is no digit from 0 to 7. */
  lemma {:induction false} OthersStand(s: string)
    requires s != []
    requires s[0] != '\\' || |s| < 4 || exists i :: 1 <= i < 4 && !(48 <= s[i] as int <= 55)
    ensures Decode(s) == [s[0]] + Decode(s[1..])
  {
  }

  /** So text in which no backslash is followed by three digits from 0 to 7 stays as it is, with
      8 and 9 anywhere. */
  lemma {:induction false} PlainStays(s: string)
    requires forall i :: 0 <= i && i + 3 < |s| && s[i] == '\\' ==>
      !('0' <= s[i + 1] <= '7' && '0' <= s[i + 2] <= '7' && '0' <= s[i + 3] <= '7')
    ensures Decode(s) == s
  {
    DecodeShortens(s);
  }

  /** Escaped output holds no whitespace if all the whitespace was marked. */
  lemma {:induction false} EscapedIsSolid(s: string, marked: set<char>)
    requires Escapable(marked) && forall i :: 0 <= i < |s| && IsWhitespace(s[i]) ==> s[i] in marked
    ensures Solid(Escape(s, marked)) && (s != [] ==> Escape(s, marked) != [])
  {
    if s != [] {
      EscapedIsSolid(s[1..], marked);
    }
  }
}
