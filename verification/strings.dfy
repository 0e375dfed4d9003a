/**
 The Python string operations the extractor relies on: `str.strip()`, `str.lower()`,
 the substring test `a in b`, `str.replace` and the extension part of `os.path.splitext`.
 Strings are sequences of code points.
 */
module Strings {

  /** Python's `str.isspace` set, which is what `str.strip()` with no argument removes. */
  predicate IsSpace(c: char) {
    var n := c as int;
    || (9 <= n <= 13)          // \t \n \v \f \r
    || (0x1C <= n <= 0x20)     // file/group/record/unit separators and space
    || n == 0x85 || n == 0xA0 || n == 0x1680
    || (0x2000 <= n <= 0x200A)
    || n == 0x2028 || n == 0x2029 || n == 0x202F || n == 0x205F || n == 0x3000
  }

  /** Python's `s.strip()`: cuts whitespace from both ends, so the result neither starts nor
      ends with whitespace. */
  function Strip(s: string): (r: string)
    ensures |r| <= |s|
    ensures r == [] || (!IsSpace(r[0]) && !IsSpace(r[|r| - 1]))
    decreases |s|
  {
    if s != [] && IsSpace(s[0]) then Strip(s[1..])
    else if s != [] && IsSpace(s[|s| - 1]) then Strip(s[..|s| - 1])
    else s
  }

  /** `r` sits in `s` at offset `i` and everything around it in `s` is whitespace. */
  predicate TrimmedAt(s: string, r: string, i: int) {
    && 0 <= i <= |s| - |r|
    && s[i..i + |r|] == r
    && (forall k :: 0 <= k < i ==> IsSpace(s[k]))
    && (forall k :: i + |r| <= k < |s| ==> IsSpace(s[k]))
  }

  /** A leading whitespace character in front of a trimmed slice is just more whitespace. */
  lemma TrimmedAfterLeadingSpace(s: string, r: string, i: int)
    requires s != [] && IsSpace(s[0]) && TrimmedAt(s[1..], r, i)
    ensures TrimmedAt(s, r, i + 1)
  {
    assert s[i + 1..i + 1 + |r|] == s[1..][i..i + |r|];
    forall k | 0 <= k < i + 1
      ensures IsSpace(s[k])
    {
      if k > 0 {
        assert s[k] == s[1..][k - 1];
      }
    }
    forall k | i + 1 + |r| <= k < |s|
      ensures IsSpace(s[k])
    {
      assert s[k] == s[1..][k - 1];
    }
  }

  /** Likewise for a trailing whitespace character. */
  lemma TrimmedBeforeTrailingSpace(s: string, r: string, i: int)
    requires s != [] && IsSpace(s[|s| - 1]) && TrimmedAt(s[..|s| - 1], r, i)
    ensures TrimmedAt(s, r, i)
  {
    var init := s[..|s| - 1];
    assert s[i..i + |r|] == init[i..i + |r|];
    forall k | 0 <= k < i
      ensures IsSpace(s[k])
    {
      assert s[k] == init[k];
    }
    forall k | i + |r| <= k < |s|
      ensures IsSpace(s[k])
    {
      if k < |s| - 1 {
        assert s[k] == init[k];
      }
    }
  }

  /** `Strip` only cuts: its result is a slice of `s` with nothing but whitespace around it. */
  lemma {:induction false} StripTrims(s: string)
    ensures exists i :: TrimmedAt(s, Strip(s), i)
    decreases |s|
  {
    var r := Strip(s);
    if s != [] && IsSpace(s[0]) {
      StripTrims(s[1..]);
      var i :| TrimmedAt(s[1..], r, i);
      TrimmedAfterLeadingSpace(s, r, i);
    } else if s != [] && IsSpace(s[|s| - 1]) {
      StripTrims(s[..|s| - 1]);
      var i :| TrimmedAt(s[..|s| - 1], r, i);
      TrimmedBeforeTrailingSpace(s, r, i);
    } else {
      assert s[0..|s|] == s;
      assert TrimmedAt(s, r, 0);
    }
  }

  /** Stripping a string that already has no surrounding whitespace returns it unchanged,
      so in particular `Strip` is idempotent. */
  lemma StripFixesTrimmed(s: string)
    requires s == [] || (!IsSpace(s[0]) && !IsSpace(s[|s| - 1]))
    ensures Strip(s) == s
  {
  }

  lemma StripIdempotent(s: string)
    ensures Strip(Strip(s)) == Strip(s)
  {
    StripFixesTrimmed(Strip(s));
  }

  /** A string made only of whitespace strips to the empty string. */
  lemma {:induction false} StripAllSpace(s: string)
    requires forall k :: 0 <= k < |s| ==> IsSpace(s[k])
    ensures Strip(s) == []
  {
    if s != [] {
      assert IsSpace(s[0]);
      StripAllSpace(s[1..]);
    }
  }

  /** `str.lower()` restricted to ASCII: 'A'..'Z' become 'a'..'z', every other code point stays. */
  function LowerChar(c: char): char {
    if 'A' <= c <= 'Z' then (c as int + 32) as char else c
  }

  function Lower(s: string): (r: string)
    ensures |r| == |s|
    ensures forall k :: 0 <= k < |s| ==> r[k] == LowerChar(s[k])
  {
    seq(|s|, k requires 0 <= k < |s| => LowerChar(s[k]))
  }

  /** Lowering never produces an upper-case ASCII letter, and lowering twice is lowering once. */
  lemma LowerIdempotent(s: string)
    ensures forall k :: 0 <= k < |s| ==> !('A' <= Lower(s)[k] <= 'Z')
    ensures Lower(Lower(s)) == Lower(s)
  {
  }

  predicate StartsWith(s: string, prefix: string) {
    |prefix| <= |s| && s[..|prefix|] == prefix
  }

  /** Python's `needle in hay`, scanning the start positions left to right. */
  predicate Contains(hay: string, needle: string)
    decreases |hay|
  {
    StartsWith(hay, needle) || (hay != [] && Contains(hay[1..], needle))
  }

  /** `needle` occurs in `hay` starting at position `i`. */
  predicate OccursAt(hay: string, needle: string, i: int) {
    0 <= i <= |hay| - |needle| && hay[i..i + |needle|] == needle
  }

  /** `Contains` holds exactly when `needle` occurs in `hay` at some position. */
  lemma {:induction false} ContainsIff(hay: string, needle: string)
    ensures Contains(hay, needle) <==> exists i :: OccursAt(hay, needle, i)
  {
    if StartsWith(hay, needle) {
      assert OccursAt(hay, needle, 0);
    }
    if hay != [] {
      ContainsIff(hay[1..], needle);
      if Contains(hay[1..], needle) {
        var i :| OccursAt(hay[1..], needle, i);
        assert OccursAt(hay, needle, i + 1);
      }
      if exists i :: OccursAt(hay, needle, i) {
        var i :| OccursAt(hay, needle, i);
        if i > 0 {
          assert OccursAt(hay[1..], needle, i - 1);
        }
      }
    }
  }

  /** Python's `s.replace(old, new)`: every non-overlapping occurrence of `old`, found left to
      right, is replaced; an empty `old` inserts `new` before every character and at the end. */
  function ReplaceAll(s: string, pat: string, rep: string): string
    decreases |s|
  {
    if pat == [] then
      if s == [] then rep else rep + [s[0]] + ReplaceAll(s[1..], pat, rep)
    else if StartsWith(s, pat) then
      rep + ReplaceAll(s[|pat|..], pat, rep)
    else if s == [] then
      []
    else
      [s[0]] + ReplaceAll(s[1..], pat, rep)
  }

  /** A string in which the pattern does not occur comes back from `ReplaceAll` unchanged. */
  lemma {:induction false} ReplaceAbsent(s: string, pat: string, rep: string)
    requires pat != [] && !Contains(s, pat)
    ensures ReplaceAll(s, pat, rep) == s
  {
    if s != [] {
      ReplaceAbsent(s[1..], pat, rep);
    }
  }

  /** A string that does not start with the pattern's first character loses only its head to
      one step of `ReplaceAll`. */
  lemma ReplaceStep(a: string, b: string, pat: string, rep: string)
    requires pat != [] && a != [] && a[0] != pat[0]
    ensures ReplaceAll(a + b, pat, rep) == [a[0]] + ReplaceAll(a[1..] + b, pat, rep)
  {
    var s := a + b;
    assert s[0] == a[0] && s[1..] == a[1..] + b;
    assert !StartsWith(s, pat) by {
      if |pat| <= |s| {
        assert s[..|pat|][0] == s[0];
      }
    }
  }

  /** A stretch that never contains the pattern's first character is copied through unchanged. */
  lemma {:induction false} ReplaceSkipsFree(a: string, b: string, pat: string, rep: string)
    requires pat != []
    requires forall k :: 0 <= k < |a| ==> a[k] != pat[0]
    ensures ReplaceAll(a + b, pat, rep) == a + ReplaceAll(b, pat, rep)
    decreases |a|
  {
    if a == [] {
      assert a + b == b;
    } else {
      ReplaceStep(a, b, pat, rep);
      ReplaceSkipsFree(a[1..], b, pat, rep);
      ConsAppend(a, ReplaceAll(b, pat, rep));
    }
  }

  /** Re-associating a non-empty prefix split into its head and tail. */
  lemma ConsAppend<T>(x: seq<T>, y: seq<T>)
    requires x != []
    ensures [x[0]] + (x[1..] + y) == x + y
  {
    assert x == [x[0]] + x[1..];
  }

  /** Index of the last occurrence of `c` in `s`, or -1. */
  function LastIndexOf(s: string, c: char): (r: int)
    ensures -1 <= r < |s|
    ensures r >= 0 ==> s[r] == c
    ensures forall k :: r < k < |s| ==> s[k] != c
    decreases |s|
  {
    if s == [] then -1
    else if s[|s| - 1] == c then |s| - 1
    else LastIndexOf(s[..|s| - 1], c)
  }

  /** The extension `os.path.splitext` reports for a bare file name (no directory part): from the
      last dot to the end, provided some character before that dot is not a dot; otherwise empty. */
  function Extension(name: string): (ext: string)
    ensures ext == [] || (ext[0] == '.' && |ext| <= |name| && ext == name[|name| - |ext|..])
    ensures ext != [] ==> forall k :: 0 < k < |ext| ==> ext[k] != '.'
    ensures ext != [] ==> exists k :: 0 <= k < |name| - |ext| && name[k] != '.'
    ensures ext == [] <==>
              forall d :: 0 <= d < |name| && name[d] == '.' ==> forall k :: 0 <= k < d ==> name[k] == '.'
  {
    var dot := LastIndexOf(name, '.');
    if dot >= 0 && exists k :: 0 <= k < dot && name[k] != '.' then name[dot..] else []
  }
}
