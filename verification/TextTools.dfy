/** Splitting text at a character, and removing characters from it. */
module TextTools {

  /** The part of `s` before the first `c`; all of it when there is none. */
  function Before(s: string, c: char): string {
    if s == [] || s[0] == c then [] else [s[0]] + Before(s[1..], c)
  }

  /** The part of `s` after the first `c`. */
  function After(s: string, c: char): string {
    if s == [] then [] else if s[0] == c then s[1..] else After(s[1..], c)
  }

  lemma {:induction false} BeforeAbsent(s: string, c: char)
    requires c !in s
    ensures Before(s, c) == s
  {
    if s != [] { BeforeAbsent(s[1..], c); assert s == [s[0]] + s[1..]; }
  }

  lemma {:induction false} SplitAt(head: string, c: char, tail: string)
    requires c !in head
    ensures Before(head + [c] + tail, c) == head && After(head + [c] + tail, c) == tail
  {
    var s := head + [c] + tail;
    if head == [] {
      assert s == [c] + tail;
    } else {
      assert s[1..] == head[1..] + [c] + tail;
      SplitAt(head[1..], c, tail);
      assert head == [head[0]] + head[1..];
    }
  }

  /** White space as `str.strip` sees it. */
  predicate IsSpace(c: char) {
    || c == ' ' || '\U{9}' <= c <= '\U{D}' || '\U{1C}' <= c <= '\U{1F}' || c == '\U{85}' || c == '\U{A0}'
    || c == '\U{1680}' || '\U{2000}' <= c <= '\U{200A}' || c == '\U{2028}' || c == '\U{2029}'
    || c == '\U{202F}' || c == '\U{205F}' || c == '\U{3000}'
  }

  /** The characters of `str.isspace`, one by one. */
  lemma SpaceCharacters(c: char)
    ensures IsSpace(c) <==> c in [
      ' ', '\t', '\n', '\U{B}', '\U{C}', '\r', '\U{1C}', '\U{1D}', '\U{1E}', '\U{1F}', '\U{85}', '\U{A0}', '\U{1680}',
      '\U{2000}', '\U{2001}', '\U{2002}', '\U{2003}', '\U{2004}', '\U{2005}', '\U{2006}', '\U{2007}', '\U{2008}', '\U{2009}',
      '\U{200A}', '\U{2028}', '\U{2029}', '\U{202F}', '\U{205F}', '\U{3000}']
  {}

  function RStrip(s: string): string {
    if s != [] && IsSpace(s[|s| - 1]) then RStrip(s[..|s| - 1]) else s
  }

  function LStrip(s: string): string {
    if s != [] && IsSpace(s[0]) then LStrip(s[1..]) else s
  }

  function Strip(s: string): string { LStrip(RStrip(s)) }

  lemma StripFixed(s: string)
    requires s == [] || (!IsSpace(s[0]) && !IsSpace(s[|s| - 1]))
    ensures Strip(s) == s
  {}

  /** `s.replace(c, "")`. */
  function Without(s: string, c: char): string {
    if s == [] then [] else (if s[0] == c then [] else [s[0]]) + Without(s[1..], c)
  }

  lemma {:induction false} WithoutAbsent(s: string, c: char)
    requires c !in s
    ensures Without(s, c) == s
  {
    if s != [] { WithoutAbsent(s[1..], c); assert s == [s[0]] + s[1..]; }
  }

  ghost predicate AllSpace(s: string) { forall i :: 0 <= i < |s| ==> IsSpace(s[i]) }

  lemma {:induction false} LStripMeaning(s: string) returns (left: string)
    ensures s == left + LStrip(s) && AllSpace(left)
    ensures LStrip(s) != [] ==> !IsSpace(LStrip(s)[0])
  {
    if s != [] && IsSpace(s[0]) {
      var more := LStripMeaning(s[1..]);
      left := [s[0]] + more;
      assert s == [s[0]] + s[1..];
    } else {
      left := [];
    }
  }

  lemma {:induction false} RStripMeaning(s: string) returns (right: string)
    ensures s == RStrip(s) + right && AllSpace(right)
    ensures RStrip(s) != [] ==> !IsSpace(RStrip(s)[|RStrip(s)| - 1])
  {
    if s != [] && IsSpace(s[|s| - 1]) {
      var more := RStripMeaning(s[..|s| - 1]);
      right := more + [s[|s| - 1]];
      assert s == s[..|s| - 1] + [s[|s| - 1]];
    } else {
      right := [];
      assert s + [] == s;
    }
  }

  /** Stripping removes exactly the white space at both ends. */
  lemma StripMeaning(s: string) returns (left: string, right: string)
    ensures s == left + Strip(s) + right && AllSpace(left) && AllSpace(right)
    ensures Strip(s) != [] ==> !IsSpace(Strip(s)[0]) && !IsSpace(Strip(s)[|Strip(s)| - 1])
    ensures Strip(s) == [] <==> AllSpace(s)
  {
    right := RStripMeaning(s);
    left := LStripMeaning(RStrip(s));
    var kept := RStrip(s);
    if Strip(s) != [] {
      assert kept[|kept| - 1] == Strip(s)[|Strip(s)| - 1];
      assert s[|left|] == Strip(s)[0];
    }
  }

  /** What is before the first `c`: no `c` in it, and then a `c` unless there is none. */
  lemma BeforeMeaning(s: string, c: char)
    ensures c !in Before(s, c) && Before(s, c) <= s
    ensures c in s ==> s == Before(s, c) + [c] + After(s, c)
    ensures c !in s ==> Before(s, c) == s && After(s, c) == []
  {
    BeforeHasNone(s, c);
    if c in s { CutAtFirst(s, c); } else { BeforeAbsent(s, c); }
  }

  lemma {:induction false} BeforeHasNone(s: string, c: char)
    ensures c !in Before(s, c)
  {
    if s != [] && s[0] != c { BeforeHasNone(s[1..], c); }
  }

  lemma {:induction false} CutAtFirst(s: string, c: char)
    requires c in s
    ensures s == Before(s, c) + ([c] + After(s, c))
  {
    assert s == [s[0]] + s[1..];
    if s[0] != c {
      CutAtFirst(s[1..], c);
      assert [s[0]] + (Before(s[1..], c) + ([c] + After(s, c))) == Before(s, c) + ([c] + After(s, c));
    }
  }
}
