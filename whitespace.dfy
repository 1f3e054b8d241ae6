/** Whitespace made visible: `spaces` for the plain-text form, and the
    wrapping of each whitespace glyph in a styled span that ends `htmltext`. */
module Whitespace {
  import opened Strings

  const MiddleDot: char := '\U{00B7}'
  const NotSign: char := '\U{00AC}'
  const Triangle: char := '\U{2023}'

  predicate IsWhitespace(c: char)
  {
    c == ' ' || c == '\t' || c == '\r' || c == '\n'
  }

  /** The glyph that stands for one character in the plain-text form. */
  function Glyph(c: char): char
  {
    if c == ' ' then MiddleDot
    else if c == '\r' || c == '\n' then NotSign
    else if c == '\t' then Triangle
    else c
  }

  /** `spaces(str)`: four global replaces, in the source's order. Together
      they act character by character: each space becomes a middle dot, CR
      and LF a not sign, a tab a triangle, and any other character stays; so
      the length is kept and no whitespace is left. */
  function Spaces(s: string): (r: string)
    ensures |r| == |s|
    ensures forall i :: 0 <= i < |s| ==> r[i] == Glyph(s[i])
    ensures forall i :: 0 <= i < |s| ==> !IsWhitespace(r[i])
  {
    var s1 := ReplaceAll(s, ' ', [MiddleDot]);
    var s2 := ReplaceAll(s1, '\r', [NotSign]);
    var s3 := ReplaceAll(s2, '\t', [Triangle]);
    ReplaceAllByChar(s, ' ', MiddleDot);
    ReplaceAllByChar(s1, '\r', NotSign);
    ReplaceAllByChar(s2, '\t', Triangle);
    ReplaceAllByChar(s3, '\n', NotSign);
    ReplaceAll(s3, '\n', [NotSign])
  }

  const SpaceSpan: string := "<span class=\"whitespace space\">\U{00B7}</span>"
  const NewlineSpan: string := "<span class=\"whitespace newline\">\U{00AC}</span>"
  const TabSpan: string := "<span class=\"whitespace tab\">\U{2023}</span>"

  /** The tail of `htmltext`: four more global replaces, in the source's
      order. A string with none of the four wrapped characters passes through
      unchanged. */
  function WrapWhitespace(s: string): (r: string)
    ensures MiddleDot !in s && '\r' !in s && '\t' !in s && '\n' !in s ==> r == s
  {
    var r := ReplaceAll(ReplaceAll(ReplaceAll(ReplaceAll(s, MiddleDot, SpaceSpan), '\r', NewlineSpan), '\t', TabSpan), '\n', NewlineSpan);
    if MiddleDot !in s && '\r' !in s && '\t' !in s && '\n' !in s then
      ReplaceAllAbsent(s, MiddleDot, SpaceSpan);
      ReplaceAllAbsent(s, '\r', NewlineSpan);
      ReplaceAllAbsent(s, '\t', TabSpan);
      ReplaceAllAbsent(s, '\n', NewlineSpan);
      r
    else
      r
  }

  /** What one character becomes in the HTML form (reference definition). */
  function WrapChar(c: char): string
  {
    if c == MiddleDot then SpaceSpan
    else if c == '\r' || c == '\n' then NewlineSpan
    else if c == '\t' then TabSpan
    else [c]
  }

  function WrapChars(s: string): string
  {
    if |s| == 0 then "" else WrapChar(s[0]) + WrapChars(s[1..])
  }

  lemma WrapWhitespaceConcat(a: string, b: string)
    ensures WrapWhitespace(a + b) == WrapWhitespace(a) + WrapWhitespace(b)
  {
    var s1a, s1b := ReplaceAll(a, MiddleDot, SpaceSpan), ReplaceAll(b, MiddleDot, SpaceSpan);
    ReplaceAllConcat(a, b, MiddleDot, SpaceSpan);
    var s2a, s2b := ReplaceAll(s1a, '\r', NewlineSpan), ReplaceAll(s1b, '\r', NewlineSpan);
    ReplaceAllConcat(s1a, s1b, '\r', NewlineSpan);
    var s3a, s3b := ReplaceAll(s2a, '\t', TabSpan), ReplaceAll(s2b, '\t', TabSpan);
    ReplaceAllConcat(s2a, s2b, '\t', TabSpan);
    ReplaceAllConcat(s3a, s3b, '\n', NewlineSpan);
  }

  /** None of the three spans holds a character that a later replace targets. */
  lemma SpaceSpanAvoidsTargets()
    ensures '\r' !in SpaceSpan && '\t' !in SpaceSpan && '\n' !in SpaceSpan
  {
    forall i | 0 <= i < |SpaceSpan| ensures SpaceSpan[i] == MiddleDot || ' ' <= SpaceSpan[i] <= '~' {
    }
  }

  lemma NewlineSpanAvoidsTargets()
    ensures '\t' !in NewlineSpan && '\n' !in NewlineSpan
  {
    forall i | 0 <= i < |NewlineSpan| ensures NewlineSpan[i] == NotSign || ' ' <= NewlineSpan[i] <= '~' {
    }
  }

  lemma TabSpanAvoidsTargets()
    ensures '\n' !in TabSpan
  {
    forall i | 0 <= i < |TabSpan| ensures TabSpan[i] == Triangle || ' ' <= TabSpan[i] <= '~' {
    }
  }

  lemma ReplaceAllOne(c: char, x: char, r: string)
    ensures ReplaceAll([c], x, r) == if c == x then r else [c]
  {
    assert [c][1..] == [];
  }

  lemma WrapWhitespaceOne(c: char)
    ensures WrapWhitespace([c]) == WrapChar(c)
  {
    var s1 := ReplaceAll([c], MiddleDot, SpaceSpan);
    var s2 := ReplaceAll(s1, '\r', NewlineSpan);
    var s3 := ReplaceAll(s2, '\t', TabSpan);
    ReplaceAllOne(c, MiddleDot, SpaceSpan);
    if c == MiddleDot {
      SpaceSpanAvoidsTargets();
      ReplaceAllAbsent(SpaceSpan, '\r', NewlineSpan);
      ReplaceAllAbsent(SpaceSpan, '\t', TabSpan);
      ReplaceAllAbsent(SpaceSpan, '\n', NewlineSpan);
    } else if c == '\r' {
      ReplaceAllOne(c, '\r', NewlineSpan);
      NewlineSpanAvoidsTargets();
      ReplaceAllAbsent(NewlineSpan, '\t', TabSpan);
      ReplaceAllAbsent(NewlineSpan, '\n', NewlineSpan);
    } else if c == '\t' {
      ReplaceAllOne(c, '\r', NewlineSpan);
      ReplaceAllOne(c, '\t', TabSpan);
      TabSpanAvoidsTargets();
      ReplaceAllAbsent(TabSpan, '\n', NewlineSpan);
    } else {
      ReplaceAllOne(c, '\r', NewlineSpan);
      ReplaceAllOne(c, '\t', TabSpan);
      ReplaceAllOne(c, '\n', NewlineSpan);
    }
  }

  /** No replace re-introduces a character that a later replace targets, so
      the four replaces wrap each glyph exactly once, character by character. */
  lemma {:induction false} WrapWhitespaceIsPerChar(s: string)
    ensures WrapWhitespace(s) == WrapChars(s)
  {
    if |s| > 0 {
      WrapWhitespaceIsPerChar(s[1..]);
      WrapWhitespaceConcat([s[0]], s[1..]);
      WrapWhitespaceOne(s[0]);
      assert [s[0]] + s[1..] == s;
    }
  }
}
