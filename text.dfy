/** String and sequence helpers shared by the chapter locator and the response parsers:
    Python's `in` on strings, `str.strip()`, `str.lower()`, `str.replace(' ', '_')`,
    slicing with clamped bounds and `list.index`. Whitespace and case are ASCII only. */
module Text {

  datatype Option<T> = None | Some(value: T)

  /** `sub in text` for Python strings: `sub` occurs as a contiguous piece of `text`.
      The empty string occurs in every string. */
  predicate Contains(text: string, sub: string)
    decreases |text|
  {
    sub <= text || (|text| > 0 && Contains(text[1..], sub))
  }

  /** A string occurs in `text` exactly when it is found at some offset. */
  lemma {:induction false} ContainsAt(text: string, sub: string, k: nat)
    requires k + |sub| <= |text| && text[k..k + |sub|] == sub
    ensures Contains(text, sub)
    decreases k
  {
    if k > 0 {
      assert text[1..][k - 1..k - 1 + |sub|] == text[k..k + |sub|];
      ContainsAt(text[1..], sub, k - 1);
    } else {
      assert sub <= text;
    }
  }

  /** The converse of ContainsAt: an occurrence has an offset. */
  lemma {:induction false} ContainsHasOffset(text: string, sub: string) returns (k: nat)
    requires Contains(text, sub)
    ensures k + |sub| <= |text| && text[k..k + |sub|] == sub
    decreases |text|
  {
    if sub <= text {
      k := 0;
    } else {
      var k' := ContainsHasOffset(text[1..], sub);
      k := k' + 1;
      assert text[k..k + |sub|] == text[1..][k'..k' + |sub|];
    }
  }

  /** Anything found in a piece of `text` is found in `text`. */
  lemma ContainsInSlice(text: string, i: nat, j: nat, sub: string)
    requires i <= j <= |text|
    requires Contains(text[i..j], sub)
    ensures Contains(text, sub)
  {
    var piece := text[i..j];
    var k := ContainsHasOffset(piece, sub);
    assert |piece| == j - i;
    assert forall m :: 0 <= m < |piece| ==> piece[m] == text[i + m];
    assert text[i + k..i + k + |sub|] == piece[k..k + |sub|];
    ContainsAt(text, sub, i + k);
  }

  /** A string whose first character does not occur in `text` does not occur in it. */
  lemma {:induction false} NotContainsWithoutFirstChar(text: string, sub: string)
    requires |sub| > 0 && sub[0] !in text
    ensures !Contains(text, sub)
    decreases |text|
  {
    if |text| > 0 {
      assert text[0] != sub[0];
      NotContainsWithoutFirstChar(text[1..], sub);
    }
  }

  /** Whitespace as CPython's `str.isspace` sees it in the ASCII range:
      tab, line feed, vertical tab, form feed, carriage return, the four
      information separators 0x1C-0x1F, and space. */
  predicate IsSpace(c: char)
  {
    (9 <= c as int <= 13) || (28 <= c as int <= 32)
  }

  /** `str.lstrip()`. */
  function StripLeading(s: string): string
  {
    if s != [] && IsSpace(s[0]) then StripLeading(s[1..]) else s
  }

  /** `str.rstrip()`. */
  function StripTrailing(s: string): string
  {
    if s != [] && IsSpace(s[|s| - 1]) then StripTrailing(s[..|s| - 1]) else s
  }

  /** `str.strip()`: drop leading and trailing whitespace. */
  function Strip(s: string): string
  {
    StripTrailing(StripLeading(s))
  }

  /** `s.lstrip()` is `s` without its whitespace prefix. */
  lemma {:induction false} StripLeadingSlice(s: string) returns (i: nat)
    ensures i <= |s| && StripLeading(s) == s[i..]
    ensures forall k :: 0 <= k < i ==> IsSpace(s[k])
    ensures i < |s| ==> !IsSpace(s[i])
  {
    if s != [] && IsSpace(s[0]) {
      var i' := StripLeadingSlice(s[1..]);
      i := i' + 1;
      assert s[1..][i'..] == s[i..];
    } else {
      i := 0;
    }
  }

  /** `s.rstrip()` is `s` without its whitespace suffix. */
  lemma {:induction false} StripTrailingSlice(s: string) returns (j: nat)
    ensures j <= |s| && StripTrailing(s) == s[..j]
    ensures forall k :: j <= k < |s| ==> IsSpace(s[k])
    ensures 0 < j ==> !IsSpace(s[j - 1])
  {
    if s != [] && IsSpace(s[|s| - 1]) {
      j := StripTrailingSlice(s[..|s| - 1]);
      assert s[..|s| - 1][..j] == s[..j];
    } else {
      j := |s|;
    }
  }

  /** `s.strip()` is the piece `s[i..j]` left between a whitespace prefix and a
      whitespace suffix, and it neither begins nor ends with whitespace. */
  lemma StripSlice(s: string) returns (i: nat, j: nat)
    ensures i <= j <= |s| && Strip(s) == s[i..j]
    ensures forall k :: 0 <= k < i ==> IsSpace(s[k])
    ensures forall k :: j <= k < |s| ==> IsSpace(s[k])
    ensures Strip(s) == [] || (!IsSpace(s[i]) && !IsSpace(s[j - 1]))
  {
    i := StripLeadingSlice(s);
    var t := s[i..];
    var j' := StripTrailingSlice(t);
    j := i + j';
    assert t[..j'] == s[i..j];
    forall k | j <= k < |s| ensures IsSpace(s[k]) {
      assert s[k] == t[k - i];
    }
    if j' > 0 {
      assert s[j - 1] == t[j' - 1];
    }
  }

  /** `str.strip()` leaves no whitespace at either end. */
  lemma StripClean(s: string)
    ensures var r := Strip(s); r == [] || (!IsSpace(r[0]) && !IsSpace(r[|r| - 1]))
  {
    var i, j := StripSlice(s);
  }

  /** A string with no whitespace at either end is its own strip. */
  lemma StripOfClean(s: string)
    requires s == [] || (!IsSpace(s[0]) && !IsSpace(s[|s| - 1]))
    ensures Strip(s) == s
  {
  }

  /** Stripping removes only whitespace: what is left is a piece of the input,
      so it cannot hold anything the input does not hold. */
  lemma StripContains(s: string, sub: string)
    requires Contains(Strip(s), sub)
    ensures Contains(s, sub)
  {
    var i, j := StripSlice(s);
    ContainsInSlice(s, i, j, sub);
  }

  /** Stripping twice is stripping once. */
  lemma StripIdempotent(s: string)
    ensures Strip(Strip(s)) == Strip(s)
  {
    StripClean(s);
    StripOfClean(Strip(s));
  }

  /** ASCII `str.lower()` on one character. */
  function LowerChar(c: char): char
  {
    if 'A' <= c <= 'Z' then (c as int - 'A' as int + 'a' as int) as char else c
  }

  /** ASCII `str.lower()`. */
  function Lower(s: string): (r: string)
    ensures |r| == |s|
    ensures forall k :: 0 <= k < |s| ==> r[k] == LowerChar(s[k])
  {
    seq(|s|, k requires 0 <= k < |s| => LowerChar(s[k]))
  }

  /** `str.replace(' ', '_')`. */
  function SpacesToUnderscores(s: string): (r: string)
    ensures |r| == |s|
    ensures forall k :: 0 <= k < |s| ==> r[k] == (if s[k] == ' ' then '_' else s[k])
  {
    seq(|s|, k requires 0 <= k < |s| => if s[k] == ' ' then '_' else s[k])
  }

  /** Python's `s[a:b]` for offsets inside the string: empty when `b <= a`. */
  function Slice(s: string, a: nat, b: nat): (r: string)
    requires a <= |s| && b <= |s|
    ensures a < b ==> r == s[a..b]
    ensures b <= a ==> r == ""
  {
    if a < b then s[a..b] else ""
  }

  /** `list.index(x)`: the position of the first occurrence of `x`. */
  function IndexOf<T(==)>(xs: seq<T>, x: T): (i: nat)
    requires x in xs
    ensures i < |xs| && xs[i] == x
    ensures forall j :: 0 <= j < i ==> xs[j] != x
  {
    if xs[0] == x then 0 else 1 + IndexOf(xs[1..], x)
  }

  /** Appending an element leaves the position of an element already present. */
  lemma {:induction false} IndexOfAppend<T>(xs: seq<T>, x: T, y: T)
    requires x in xs
    ensures IndexOf(xs + [y], x) == IndexOf(xs, x)
  {
    if xs[0] != x {
      assert (xs + [y])[1..] == xs[1..] + [y];
      IndexOfAppend(xs[1..], x, y);
    }
  }

  /** An element appended to a sequence that lacks it is found at the end. */
  lemma {:induction false} IndexOfLast<T>(xs: seq<T>, x: T)
    requires x !in xs
    ensures IndexOf(xs + [x], x) == |xs|
  {
    if xs != [] {
      assert (xs + [x])[1..] == xs[1..] + [x];
      IndexOfLast(xs[1..], x);
    }
  }

  /** IndexOfAppend for every element of `ys`. */
  lemma IndexOfAppendAll<T>(xs: seq<T>, ys: seq<T>, y: T)
    requires forall i :: 0 <= i < |ys| ==> ys[i] in xs
    ensures forall i :: 0 <= i < |ys| ==> IndexOf(xs + [y], ys[i]) == IndexOf(xs, ys[i])
  {
    forall i | 0 <= i < |ys| ensures IndexOf(xs + [y], ys[i]) == IndexOf(xs, ys[i]) {
      IndexOfAppend(xs, ys[i], y);
    }
  }
}
