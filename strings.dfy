/** String helpers shared by the renderer: the JavaScript string and array
    operations the module relies on, written out over `seq<char>`. */
module Strings {

  /** `Array.prototype.join(sep)`: the parts with `sep` between neighbours. */
  function Join(parts: seq<string>, sep: string): string
  {
    if |parts| == 0 then ""
    else if |parts| == 1 then parts[0]
    else parts[0] + sep + Join(parts[1..], sep)
  }

  /** `n` copies of `str`, one after the other (reference definition). */
  function Copies(str: string, n: nat): string
  {
    if n == 0 then "" else str + Copies(str, n - 1)
  }

  /** `repeat(str, n)`, written as the source writes it: an array of `n + 1`
      holes joined by `str`. */
  function Repeat(str: string, n: nat): (r: string)
    ensures r == Copies(str, n)
    ensures |r| == n * |str|
  {
    RepeatIsCopies(str, n);
    CopiesLength(str, n);
    Join(seq(n + 1, _ => ""), str)
  }

  lemma {:induction false} RepeatIsCopies(str: string, n: nat)
    ensures Join(seq(n + 1, _ => ""), str) == Copies(str, n)
  {
    if n > 0 {
      var holes := seq(n + 1, _ => "");
      assert holes[1..] == seq(n, _ => "");
      RepeatIsCopies(str, n - 1);
    }
  }

  lemma {:induction false} CopiesLength(str: string, n: nat)
    ensures |Copies(str, n)| == n * |str|
  {
    if n > 0 {
      CopiesLength(str, n - 1);
    }
  }

  /** Every character of `Copies(str, n)` is a character of `str`. */
  lemma {:induction false} CopiesChars(str: string, n: nat, i: nat)
    requires i < |Copies(str, n)|
    ensures Copies(str, n)[i] in str
  {
    if i >= |str| {
      CopiesChars(str, n - 1, i - |str|);
    }
  }

  /** Extending a prefix by one element. */
  lemma PrefixStep<T>(s: seq<T>, k: nat)
    requires k < |s|
    ensures s[..k + 1] == s[..k] + [s[k]]
  {
  }

  /** The pieces of `s` between occurrences of `c` (reference inverse of `Join`). */
  function Split(s: string, c: char): (r: seq<string>)
    ensures |r| >= 1
  {
    if |s| == 0 then [""]
    else
      var rest := Split(s[1..], c);
      if s[0] == c then [""] + rest else [[s[0]] + rest[0]] + rest[1..]
  }

  lemma {:induction false} SplitNoSeparator(a: string, c: char)
    requires c !in a
    ensures Split(a, c) == [a]
  {
    if |a| > 0 {
      assert a[0] != c;
      SplitNoSeparator(a[1..], c);
      assert [a[0]] + a[1..] == a;
    }
  }

  lemma {:induction false} SplitAtFirstSeparator(a: string, c: char, b: string)
    requires c !in a
    ensures Split(a + [c] + b, c) == [a] + Split(b, c)
  {
    if |a| == 0 {
      assert a + [c] + b == [c] + b;
      assert ([c] + b)[1..] == b;
    } else {
      assert (a + [c] + b)[1..] == a[1..] + [c] + b;
      SplitAtFirstSeparator(a[1..], c, b);
      assert [a[0]] + a[1..] == a;
    }
  }

  /** Joining with one character and splitting on it gives the parts back,
      as long as no part contains that character. */
  lemma {:induction false} SplitJoin(parts: seq<string>, c: char)
    requires |parts| >= 1
    requires forall i :: 0 <= i < |parts| ==> c !in parts[i]
    ensures Split(Join(parts, [c]), c) == parts
  {
    if |parts| == 1 {
      SplitNoSeparator(parts[0], c);
    } else {
      SplitJoin(parts[1..], c);
      SplitAtFirstSeparator(parts[0], c, Join(parts[1..], [c]));
      assert [parts[0]] + parts[1..] == parts;
    }
  }

  /** A character found in neither the parts nor the separator is not in the join. */
  lemma {:induction false} JoinAvoids(parts: seq<string>, sep: string, c: char)
    requires c !in sep
    requires forall i :: 0 <= i < |parts| ==> c !in parts[i]
    ensures c !in Join(parts, sep)
  {
    if |parts| > 1 {
      JoinAvoids(parts[1..], sep, c);
    }
  }

  /** `s.replace(/c/g, r)`: every occurrence of the character `c` becomes `r`. */
  function ReplaceAll(s: string, c: char, r: string): string
  {
    if |s| == 0 then ""
    else (if s[0] == c then r else [s[0]]) + ReplaceAll(s[1..], c, r)
  }

  /** Replacing a character by one character acts position by position. */
  lemma {:induction false} ReplaceAllByChar(s: string, c: char, d: char)
    ensures |ReplaceAll(s, c, [d])| == |s|
    ensures forall i :: 0 <= i < |s| ==> ReplaceAll(s, c, [d])[i] == if s[i] == c then d else s[i]
  {
    if |s| > 0 {
      ReplaceAllByChar(s[1..], c, d);
      var head := if s[0] == c then [d] else [s[0]];
      assert ReplaceAll(s, c, [d]) == head + ReplaceAll(s[1..], c, [d]);
      forall i | 0 <= i < |s|
        ensures ReplaceAll(s, c, [d])[i] == if s[i] == c then d else s[i]
      {
        if i > 0 {
          assert ReplaceAll(s, c, [d])[i] == ReplaceAll(s[1..], c, [d])[i - 1];
        }
      }
    }
  }

  lemma {:induction false} ReplaceAllConcat(a: string, b: string, c: char, r: string)
    ensures ReplaceAll(a + b, c, r) == ReplaceAll(a, c, r) + ReplaceAll(b, c, r)
  {
    if |a| > 0 {
      assert (a + b)[1..] == a[1..] + b;
      ReplaceAllConcat(a[1..], b, c, r);
    } else {
      assert a + b == b;
    }
  }

  lemma {:induction false} ReplaceAllAbsent(s: string, c: char, r: string)
    requires c !in s
    ensures ReplaceAll(s, c, r) == s
  {
    if |s| > 0 {
      ReplaceAllAbsent(s[1..], c, r);
    }
  }

  /** The smaller of two naturals. */
  function Min(a: nat, b: nat): nat
  {
    if a < b then a else b
  }

  /** `s.slice(from, to)` for non-negative offsets: both offsets are clamped
      to the length, and an empty string comes back when `to` is not beyond `from`. */
  function Slice(s: string, from: nat, to: nat): (r: string)
    ensures |r| == if Min(from, |s|) < Min(to, |s|) then Min(to, |s|) - Min(from, |s|) else 0
    ensures Min(from, |s|) <= Min(to, |s|) ==> s[..Min(from, |s|)] + r + s[Min(to, |s|)..] == s
  {
    var lo := Min(from, |s|);
    var hi := Min(to, |s|);
    if hi <= lo then "" else s[lo..hi]
  }

  /** `s.slice(from)` for a non-negative offset: what is left after the first
      `from` characters (nothing when `from` is beyond the end). */
  function SliceFrom(s: string, from: nat): (r: string)
    ensures |r| == |s| - Min(from, |s|)
    ensures s[..Min(from, |s|)] + r == s
  {
    s[Min(from, |s|)..]
  }

  /** Cutting a string at `a` and `b` with the two slicing forms loses no
      character: the three pieces put back together give the string. */
  lemma SliceSplice(s: string, a: nat, b: nat)
    requires a <= b
    ensures Slice(s, 0, a) + Slice(s, a, b) + SliceFrom(s, b) == s
  {
    var lo, hi := Min(a, |s|), Min(b, |s|);
    assert Slice(s, 0, a) == s[..lo];
    assert s[..lo] + Slice(s, a, b) + s[hi..] == s;
  }

  /** ASCII `toLowerCase` of one character. */
  function LowerChar(c: char): char
  {
    if 'A' <= c <= 'Z' then (c as int + 32) as char else c
  }

  /** `toLowerCase`, restricted to ASCII letters. */
  function Lower(s: string): (r: string)
    ensures |r| == |s|
    ensures forall i :: 0 <= i < |s| ==> r[i] == LowerChar(s[i])
  {
    if |s| == 0 then "" else [LowerChar(s[0])] + Lower(s[1..])
  }

  function DigitChar(d: nat): char
    requires d < 10
  {
    "0123456789"[d]
  }

  /** The decimal form of `n`, as string concatenation writes a number. */
  function NatToString(n: nat): string
  {
    if n < 10 then [DigitChar(n)] else NatToString(n / 10) + [DigitChar(n % 10)]
  }
}
