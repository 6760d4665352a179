/**
 * The few Python string operations the record store relies on: `str.strip()`,
 * `str.lower()`, the substring test `a in b`, `str.split(',')` and
 * `", ".join(...)`.
 */
module Text {

  /** The characters Python's `str.isspace()` accepts, which `str.strip()` removes. */
  predicate IsSpace(c: char) {
    || ('\t' <= c <= '\r')
    || ('\U{1c}' <= c <= '\U{1f}')
    || c == ' ' || c == '\U{85}' || c == '\U{a0}' || c == '\U{1680}'
    || ('\U{2000}' <= c <= '\U{200a}')
    || c == '\U{2028}' || c == '\U{2029}' || c == '\U{202f}' || c == '\U{205f}' || c == '\U{3000}'
  }

  predicate AllSpace(s: string) {
    forall i :: 0 <= i < |s| ==> IsSpace(s[i])
  }

  /** `s.lstrip()`: `s` without its leading whitespace. */
  function StripLeft(s: string): string {
    if s != [] && IsSpace(s[0]) then StripLeft(s[1..]) else s
  }

  /** `s.rstrip()`: `s` without its trailing whitespace. */
  function StripRight(s: string): string {
    if s != [] && IsSpace(s[|s| - 1]) then StripRight(s[..|s| - 1]) else s
  }

  /** `s.strip()`: `s` without its leading and trailing whitespace. */
  function Strip(s: string): string {
    StripRight(StripLeft(s))
  }

  /** `lstrip()` stops at the first non-blank, and returns nothing only for a blank string. */
  lemma {:induction false} StripLeftShape(s: string)
    ensures StripLeft(s) == [] <==> AllSpace(s)
    ensures StripLeft(s) == [] || !IsSpace(StripLeft(s)[0])
  {
    if s != [] && IsSpace(s[0]) {
      StripLeftShape(s[1..]);
      assert AllSpace(s) <==> AllSpace(s[1..]) by {
        if AllSpace(s[1..]) {
          forall i | 0 <= i < |s| ensures IsSpace(s[i]) {
            if i > 0 { assert s[i] == s[1..][i - 1]; }
          }
        }
      }
    }
  }

  /** `rstrip()` returns nothing only for a blank string, and otherwise keeps the first character. */
  lemma {:induction false} StripRightShape(s: string)
    ensures StripRight(s) == [] <==> AllSpace(s)
    ensures StripRight(s) != [] ==> StripRight(s)[0] == s[0]
  {
    if s != [] && IsSpace(s[|s| - 1]) {
      var t := s[..|s| - 1];
      StripRightShape(t);
      assert AllSpace(s) <==> AllSpace(t) by {
        if AllSpace(t) {
          forall i | 0 <= i < |s| ensures IsSpace(s[i]) {
            if i < |s| - 1 { assert s[i] == t[i]; }
          }
        }
      }
    }
  }

  /** What `strip()` returns is empty exactly when the string is blank. */
  lemma StripBlank(s: string)
    ensures Strip(s) == [] <==> AllSpace(s)
  {
    var l := StripLeft(s);
    StripLeftShape(s);
    StripRightShape(l);
  }

  /** `StripBlank` for every string at once. */
  lemma StripBlankEverywhere()
    ensures forall s :: Strip(s) == [] <==> AllSpace(s)
  {
    forall s: string
      ensures Strip(s) == [] <==> AllSpace(s)
    {
      StripBlank(s);
    }
  }

  /** Leading whitespace does not change what `strip()` returns. */
  lemma StripLeadingSpace(c: char, s: string)
    requires IsSpace(c)
    ensures Strip([c] + s) == Strip(s)
  {
    assert ([c] + s)[1..] == s;
  }

  /** `lstrip()` removes a blank prefix: what it returns is the rest of `s`. */
  lemma {:induction false} StripLeftSuffix(s: string)
    ensures |StripLeft(s)| <= |s|
    ensures s[|s| - |StripLeft(s)|..] == StripLeft(s)
    ensures AllSpace(s[..|s| - |StripLeft(s)|])
  {
    if s != [] && IsSpace(s[0]) {
      var t := s[1..];
      StripLeftSuffix(t);
      var k := |t| - |StripLeft(t)|;
      assert s[k + 1..] == t[k..];
      assert s[..k + 1] == [s[0]] + t[..k];
    }
  }

  /** `rstrip()` removes a blank suffix: what it returns is the start of `s`, ending in a non-blank. */
  lemma {:induction false} StripRightPrefix(s: string)
    ensures |StripRight(s)| <= |s|
    ensures s[..|StripRight(s)|] == StripRight(s)
    ensures AllSpace(s[|StripRight(s)|..])
    ensures StripRight(s) == [] || !IsSpace(StripRight(s)[|StripRight(s)| - 1])
  {
    if s != [] && IsSpace(s[|s| - 1]) {
      var t := s[..|s| - 1];
      StripRightPrefix(t);
      var k := |StripRight(t)|;
      assert s[..k] == t[..k];
      assert forall i :: 0 <= i < |s| - k - 1 ==> s[k..][i] == t[k..][i];
    }
  }

  /**
   * What `strip()` means: `s` is a blank prefix, then `Strip(s)`, then a
   * blank suffix, and `Strip(s)` neither starts nor ends with whitespace.
   */
  lemma StripMeaning(s: string)
    ensures exists i :: 0 <= i <= |s| - |Strip(s)| && AllSpace(s[..i])
                        && s[i..i + |Strip(s)|] == Strip(s) && AllSpace(s[i + |Strip(s)|..])
    ensures Strip(s) == [] || (!IsSpace(Strip(s)[0]) && !IsSpace(Strip(s)[|Strip(s)| - 1]))
  {
    var l := StripLeft(s);
    var t := Strip(s);
    StripLeftSuffix(s);
    StripLeftShape(s);
    StripRightPrefix(l);
    StripRightShape(l);
    var i := |s| - |l|;
    assert s[i..i + |t|] == l[..|t|];
    assert s[i + |t|..] == l[|t|..];
  }

  /** `str.lower()` on one character, for the ASCII letters. */
  function LowerChar(c: char): char {
    if 'A' <= c <= 'Z' then (c as int - 'A' as int + 'a' as int) as char else c
  }

  /** `str.lower()`, character by character. */
  function Lower(s: string): (r: string)
    ensures |r| == |s|
  {
    seq(|s|, i requires 0 <= i < |s| => LowerChar(s[i]))
  }

  /** `s.startswith(p)`. */
  predicate IsPrefix(p: string, s: string) {
    |p| <= |s| && s[..|p|] == p
  }

  /** Python's `sub in s` on strings: `sub` occurs somewhere in `s` (the empty string occurs everywhere). */
  predicate Contains(s: string, sub: string)
    decreases |s|
  {
    IsPrefix(sub, s) || (s != [] && Contains(s[1..], sub))
  }

  /** A string occurs in any string that ends with it. */
  lemma {:induction false} ContainsSuffix(x: string, y: string)
    ensures Contains(x + y, y)
  {
    if x != [] {
      ContainsSuffix(x[1..], y);
      assert (x + y)[1..] == x[1..] + y;
    }
  }

  /** `s.split(c)`: the pieces of `s` between the occurrences of `c`. */
  function Split(s: string, c: char): seq<string> {
    if s == [] then [""]
    else
      var rest := Split(s[1..], c);
      if s[0] == c then [""] + rest else [[s[0]] + Head(rest)] + Tail(rest)
  }

  function Head(pieces: seq<string>): string {
    if pieces == [] then "" else pieces[0]
  }

  function Tail(pieces: seq<string>): seq<string> {
    if pieces == [] then [] else pieces[1..]
  }

  /** `split` never returns an empty list. */
  lemma SplitNonEmpty(s: string, c: char)
    ensures |Split(s, c)| >= 1
  {
  }

  /** `Split` unfolded once on a string given as first character and rest. */
  lemma SplitCons(h: char, t: string, c: char)
    ensures Split([h] + t, c) ==
      if h == c then [""] + Split(t, c) else [[h] + Head(Split(t, c))] + Tail(Split(t, c))
  {
    assert ([h] + t)[1..] == t;
  }

  /** Putting the same first character in front of two strings keeps a common tail of their pieces. */
  lemma SplitConsKeepsTail(h: char, x: string, y: string, tail: seq<string>, c: char)
    requires Split(x, c) == Split(y, c) + tail
    ensures Split([h] + x, c) == Split([h] + y, c) + tail
  {
    SplitNonEmpty(y, c);
    if h == c {
      SplitSeparatorKeepsTail(h, x, y, tail, c);
    } else {
      SplitCharKeepsTail(h, x, y, tail, c);
    }
  }

  lemma SplitSeparatorKeepsTail(h: char, x: string, y: string, tail: seq<string>, c: char)
    requires h == c && Split(x, c) == Split(y, c) + tail
    ensures Split([h] + x, c) == Split([h] + y, c) + tail
  {
    var ry := Split(y, c);
    calc {
      Split([h] + x, c);
      { SplitCons(h, x, c); }
      [""] + (ry + tail);
      ([""] + ry) + tail;
      { SplitCons(h, y, c); }
      Split([h] + y, c) + tail;
    }
  }

  lemma SplitCharKeepsTail(h: char, x: string, y: string, tail: seq<string>, c: char)
    requires h != c && Split(x, c) == Split(y, c) + tail && Split(y, c) != []
    ensures Split([h] + x, c) == Split([h] + y, c) + tail
  {
    var ry := Split(y, c);
    var w := [h] + Head(ry);
    HeadTailAppend(ry, tail);
    SplitCons(h, x, c);
    SplitCons(h, y, c);
    ConsAppend(w, Tail(ry), tail);
  }

  lemma ConsAppend(w: string, pieces: seq<string>, tail: seq<string>)
    ensures [w] + (pieces + tail) == ([w] + pieces) + tail
  {
  }

  lemma HeadTailAppend(pieces: seq<string>, tail: seq<string>)
    requires pieces != []
    ensures Head(pieces + tail) == Head(pieces)
    ensures Tail(pieces + tail) == Tail(pieces) + tail
  {
    assert (pieces + tail)[1..] == pieces[1..] + tail;
  }

  /** Splitting at one separator splits the string into the pieces before it and the pieces after it. */
  lemma {:induction false} SplitAppend(a: string, c: char, b: string)
    ensures Split(a + [c] + b, c) == Split(a, c) + Split(b, c)
  {
    if a == [] {
      assert a + [c] + b == [c] + b;
      SplitCons(c, b, c);
    } else {
      var h, a' := a[0], a[1..];
      SplitAppend(a', c, b);
      assert a + [c] + b == [h] + (a' + [c] + b);
      assert a == [h] + a';
      SplitConsKeepsTail(h, a' + [c] + b, a', Split(b, c), c);
    }
  }

  /** A string without the separator is one piece. */
  lemma {:induction false} SplitWithoutSeparator(s: string, c: char)
    requires c !in s
    ensures Split(s, c) == [s]
  {
    if s != [] {
      SplitWithoutSeparator(s[1..], c);
      assert [s[0]] + s[1..] == s;
    }
  }

  /** `sep.join(xs)`. */
  function Join(xs: seq<string>, sep: string): (r: string)
    ensures xs != [] ==> IsPrefix(xs[0], r)
  {
    if xs == [] then ""
    else if |xs| == 1 then xs[0]
    else xs[0] + sep + Join(xs[1..], sep)
  }
}
