/** Character classes and the few `str` operations the extractor relies on,
    with Python's meaning: `isspace`/`\s`, `strip`, `replace(pat, '')`,
    `split(c, 1)`, `find` and `re.split` on a literal separator. */
module Text {
  import opened Results

  /** `str.isspace()` of one character; in a `str` pattern `\s` matches exactly these. */
  predicate IsSpace(c: char) {
    var n := c as int;
    (9 <= n <= 13) || (0x1C <= n <= 0x20) || n == 0x85 || n == 0xA0 || n == 0x1680
    || (0x2000 <= n <= 0x200A) || n == 0x2028 || n == 0x2029 || n == 0x202F
    || n == 0x205F || n == 0x3000
  }

  predicate IsAsciiLetter(c: char) { 'A' <= c <= 'Z' || 'a' <= c <= 'z' }

  predicate IsAsciiDigit(c: char) { '0' <= c <= '9' }

  /** The class `[A-Za-z0-9]`. */
  predicate IsAsciiAlnum(c: char) { IsAsciiLetter(c) || IsAsciiDigit(c) }

  /** The class `[^}]`. */
  predicate NotCloseBrace(c: char) { c != '}' }

  /** The class `[^{}]`. */
  predicate NotBrace(c: char) { c != '{' && c != '}' }

  /** Length of the longest prefix of `s` whose characters all satisfy `p`:
      what a greedy `[class]*` consumes. */
  function Span(s: string, p: char -> bool): (k: nat)
    ensures k <= |s|
    ensures forall i :: 0 <= i < k ==> p(s[i])
    ensures k == |s| || !p(s[k])
    decreases |s|
  {
    if |s| > 0 && p(s[0]) then 1 + Span(s[1..], p) else 0
  }

  /** `s` without its trailing whitespace. */
  function TrimEnd(s: string): (r: string)
    ensures |r| <= |s| && r == s[..|r|]
    ensures r == [] || !IsSpace(r[|r| - 1])
    ensures forall i :: |r| <= i < |s| ==> IsSpace(s[i])
    decreases |s|
  {
    if |s| > 0 && IsSpace(s[|s| - 1]) then TrimEnd(s[..|s| - 1]) else s
  }

  /** `str.strip()`: the slice of `s` left when the whitespace at both ends is removed. */
  function Strip(s: string): (r: string)
    ensures r == [] || (!IsSpace(r[0]) && !IsSpace(r[|r| - 1]))
    ensures var a := Span(s, IsSpace);
      a + |r| <= |s| && r == s[a..a + |r|]
      && (forall i :: 0 <= i < a ==> IsSpace(s[i]))
      && (forall i :: a + |r| <= i < |s| ==> IsSpace(s[i]))
  {
    TrimEnd(s[Span(s, IsSpace)..])
  }

  lemma StripKeepsTrimmed(s: string)
    requires s == [] || (!IsSpace(s[0]) && !IsSpace(s[|s| - 1]))
    ensures Strip(s) == s
  {
  }

  /** Stripping twice is stripping once. */
  lemma StripTwice(s: string)
    ensures Strip(Strip(s)) == Strip(s)
  {
    StripKeepsTrimmed(Strip(s));
  }

  /** A run of `p` at the front is part of the span. */
  lemma {:induction false} SpanSkip(s: string, k: nat, p: char -> bool)
    requires k <= |s| && forall i :: 0 <= i < k ==> p(s[i])
    ensures Span(s, p) == k + Span(s[k..], p)
    decreases k
  {
    if k > 0 {
      assert s[1..][k - 1..] == s[k..];
      SpanSkip(s[1..], k - 1, p);
    }
  }

  /** The span of a run followed by a character outside the class is the run. */
  lemma {:induction false} SpanStops(x: string, y: string, p: char -> bool)
    requires forall i :: 0 <= i < |x| ==> p(x[i])
    requires |y| > 0 && !p(y[0])
    ensures Span(x + y, p) == |x|
    decreases |x|
  {
    if x != [] {
      assert (x + y)[1..] == x[1..] + y;
      SpanStops(x[1..], y, p);
    } else {
      assert x + y == y;
    }
  }

  /** Where a greedy `[class]*` tried at index `k` of `t` stops: `Span` read off by
      position, without taking a slice. */
  function RunEnd(t: string, k: nat, p: char -> bool): (e: nat)
    requires k <= |t|
    ensures k <= e <= |t|
    decreases |t| - k
  {
    if k < |t| && p(t[k]) then RunEnd(t, k + 1, p) else k
  }

  /** A run of `p` from `k` to `e`, followed by the end or a character outside the class,
      is exactly what `RunEnd` takes. */
  lemma {:induction false} RunEndOver(t: string, k: nat, e: nat, p: char -> bool)
    requires k <= e <= |t|
    requires forall i :: k <= i < e ==> p(t[i])
    requires e == |t| || !p(t[e])
    ensures RunEnd(t, k, p) == e
    decreases e - k
  {
    if k < e {
      RunEndOver(t, k + 1, e, p);
    }
  }

  /** Conversely, everything `RunEnd` takes is in the class and it stops at the end or at a
      character outside it. */
  lemma {:induction false} RunEndStops(t: string, k: nat, p: char -> bool)
    requires k <= |t|
    ensures var e := RunEnd(t, k, p);
      (forall i :: k <= i < e ==> p(t[i])) && (e == |t| || !p(t[e]))
    decreases |t| - k
  {
    if k < |t| && p(t[k]) {
      RunEndStops(t, k + 1, p);
    }
  }

  /** Leading whitespace makes no difference to `strip`. */
  lemma StripSkipsSpace(s: string, k: nat)
    requires k <= |s| && forall i :: 0 <= i < k ==> IsSpace(s[i])
    ensures Strip(s[k..]) == Strip(s)
  {
    SpanSkip(s, k, IsSpace);
    assert s[Span(s, IsSpace)..] == s[k..][Span(s[k..], IsSpace)..];
  }

  /** `s.replace(pat, '')`: every leftmost, non-overlapping occurrence of `pat` removed. */
  function Remove(s: string, pat: string): (r: string)
    requires |pat| > 0
    ensures |r| <= |s|
    ensures forall c :: c in r ==> c in s
    ensures |pat| == 1 ==> pat[0] !in r
    decreases |s|
  {
    if |s| == 0 then []
    else if pat <= s then Remove(s[|pat|..], pat)
    else [s[0]] + Remove(s[1..], pat)
  }

  /** Removing a pattern whose first character does not occur changes nothing. */
  lemma {:induction false} RemoveAbsent(s: string, pat: string)
    requires |pat| > 0 && pat[0] !in s
    ensures Remove(s, pat) == s
    decreases |s|
  {
    if |s| > 0 {
      assert !(pat <= s) by { assert s[0] != pat[0]; }
      RemoveAbsent(s[1..], pat);
      assert [s[0]] + s[1..] == s;
    }
  }

  /** Removing one character distributes over concatenation. */
  lemma {:induction false} RemoveCharConcat(x: string, y: string, c: char)
    ensures Remove(x + y, [c]) == Remove(x, [c]) + Remove(y, [c])
    decreases |x|
  {
    if x != [] {
      RemoveCharConcat(x[1..], y, c);
      assert (x + y)[1..] == x[1..] + y;
      assert [c] <= x + y <==> [c] <= x;
    } else {
      assert x + y == y;
    }
  }

  /** Index of the first `c` in `s` (`str.index`). */
  function IndexOf(s: string, c: char): (i: nat)
    requires c in s
    ensures i < |s| && s[i] == c && c !in s[..i]
  {
    if s[0] == c then 0
    else
      var j := IndexOf(s[1..], c);
      assert s[..j + 1] == [s[0]] + s[1..][..j];
      j + 1
  }

  /** `s.split(c, 1)` when `c` occurs in `s`: the text before its first occurrence and the text after. */
  function SplitAtFirst(s: string, c: char): (r: (string, string))
    requires c in s
    ensures r.0 + [c] + r.1 == s && c !in r.0
  {
    var i := IndexOf(s, c);
    assert s[..i] + [c] + s[i + 1..] == s;
    (s[..i], s[i + 1..])
  }

  /** Splitting at the first `c` is the only split of `s` around a `c` with no `c` before it. */
  lemma SplitAtFirstUnique(s: string, c: char, lhs: string, rhs: string)
    requires s == lhs + [c] + rhs && c !in lhs
    ensures c in s && SplitAtFirst(s, c) == (lhs, rhs)
  {
    assert s[|lhs|] == c;
    var i := IndexOf(s, c);
    assert forall j :: 0 <= j < |lhs| ==> s[j] == lhs[j];
    assert s[..i] == lhs;
    assert s[i + 1..] == rhs;
  }

  /** A slice has no character its sequence lacks. */
  lemma SliceChars(t: string, a: nat, b: nat)
    requires a <= b <= |t|
    ensures forall x :: x in t[a..b] ==> x in t
  {
    forall x | x in t[a..b] ensures x in t {
      var i :| 0 <= i < b - a && t[a..b][i] == x;
      assert t[a + i] == x;
    }
  }

  /** No `c` in `s[a..b]`. */
  predicate NoneOf(s: string, c: char, a: nat, b: nat)
    requires a <= b <= |s|
  {
    forall k :: a <= k < b ==> s[k] != c
  }

  lemma NoneOfSlice(s: string, c: char, a: nat, b: nat)
    requires a <= b <= |s|
    ensures NoneOf(s, c, a, b) <==> c !in s[a..b]
  {
    if NoneOf(s, c, a, b) {
      forall j | 0 <= j < b - a ensures s[a..b][j] != c {
        assert s[a..b][j] == s[a + j];
      }
    } else {
      var k :| a <= k < b && s[k] == c;
      assert s[a..b][k - a] == c;
    }
  }

  /** `pat` occurs in `s` at index `k`. */
  predicate At(s: string, pat: string, k: nat)
    requires k <= |s|
  {
    pat <= s[k..]
  }

  /** An occurrence is the slice it covers. */
  lemma AtSlice(s: string, pat: string, k: nat, j: nat)
    requires k <= |s| && At(s, pat, k) && j == k + |pat|
    ensures j <= |s| && s[k..j] == pat
  {
    assert s[k..][..|pat|] == s[k..j];
  }

  /** `pat` does not occur anywhere in `s`. */
  predicate Free(s: string, pat: string) {
    forall k :: 0 <= k <= |s| ==> !At(s, pat, k)
  }

  lemma FreeSlice(s: string, pat: string, a: nat, b: nat)
    requires a <= b <= |s| && Free(s, pat)
    ensures Free(s[a..b], pat)
  {
    forall k | 0 <= k <= b - a
      ensures !At(s[a..b], pat, k)
    {
      assert !At(s, pat, a + k);
      assert s[a..b][k..] == s[a + k..][..b - a - k];
    }
  }

  /** The first index at or after `from` where `pat` starts, if any. */
  function FindFrom(s: string, pat: string, from: nat): (r: Option<nat>)
    requires |pat| > 0 && from <= |s|
    ensures r.Some? ==> from <= r.value && r.value + |pat| <= |s| && At(s, pat, r.value)
    ensures r.Some? ==> forall k :: from <= k < r.value ==> !At(s, pat, k)
    ensures r.None? ==> forall k :: from <= k <= |s| ==> !At(s, pat, k)
    decreases |s| - from
  {
    if pat <= s[from..] then Some(from)
    else if from == |s| then None
    else FindFrom(s, pat, from + 1)
  }

  /** A pattern whose first character is missing before `e` is first found at `e`. */
  lemma FindFromFirst(s: string, pat: string, from: nat, e: nat)
    requires |pat| > 0 && from <= e <= |s| && At(s, pat, e) && NoneOf(s, pat[0], from, e)
    ensures FindFrom(s, pat, from) == Some(e)
  {
  }

  /** `re.split(re.escape(sep), s)`: the pieces between leftmost, non-overlapping occurrences of `sep`. */
  function SplitOn(s: string, sep: string): (pieces: seq<string>)
    requires |sep| > 0
    ensures |pieces| > 0
    ensures forall i :: 0 <= i < |pieces| ==> Free(pieces[i], sep)
    decreases |s|
  {
    match FindFrom(s, sep, 0)
    case None =>
      assert Free(s, sep);
      [s]
    case Some(k) =>
      assert Free(s[..k], sep) by {
        forall j | 0 <= j <= k ensures !At(s[..k], sep, j) {
          if j < k {
            assert !At(s, sep, j);
            assert s[..k][j..] == s[j..][..k - j];
          }
        }
      }
      [s[..k]] + SplitOn(s[k + |sep|..], sep)
  }

  /** `sep.join(pieces)`. */
  function Join(pieces: seq<string>, sep: string): string
    requires |pieces| > 0
  {
    if |pieces| == 1 then pieces[0] else pieces[0] + sep + Join(pieces[1..], sep)
  }

  /** Splitting loses nothing: joining the pieces with the separator gives the text back. */
  lemma {:induction false} SplitJoin(s: string, sep: string)
    requires |sep| > 0
    ensures Join(SplitOn(s, sep), sep) == s
    decreases |s|
  {
    match FindFrom(s, sep, 0)
    case None =>
    case Some(k) =>
      var rest := s[k + |sep|..];
      SplitJoin(rest, sep);
      assert SplitOn(s, sep) == [s[..k]] + SplitOn(rest, sep);
      assert s[k..k + |sep|] == sep;
      assert s == s[..k] + s[k..k + |sep|] + rest;
  }

  /** A text without `c` has no occurrence of a pattern starting with `c`. */
  lemma FindFromAbsent(s: string, pat: string, from: nat)
    requires |pat| > 0 && from <= |s| && NoneOf(s, pat[0], from, |s|)
    ensures FindFrom(s, pat, from).None?
  {
  }

  /** Joining pieces without the separator's first character and splitting again gives
      the pieces back. */
  lemma {:induction false} JoinSplit(pieces: seq<string>, sep: string)
    requires |sep| > 0 && |pieces| > 0
    requires forall i :: 0 <= i < |pieces| ==> sep[0] !in pieces[i]
    ensures SplitOn(Join(pieces, sep), sep) == pieces
    decreases |pieces|
  {
    var p0 := pieces[0];
    assert NoneOf(p0, sep[0], 0, |p0|) by { NoneOfSlice(p0, sep[0], 0, |p0|); assert p0[0..|p0|] == p0; }
    if |pieces| == 1 {
      FindFromAbsent(p0, sep, 0);
    } else {
      var rest := Join(pieces[1..], sep);
      var s := p0 + sep + rest;
      assert s == Join(pieces, sep);
      assert NoneOf(s, sep[0], 0, |p0|) by {
        forall k | 0 <= k < |p0| ensures s[k] != sep[0] { assert s[k] == p0[k]; }
      }
      assert At(s, sep, |p0|) by { assert s[|p0|..] == sep + rest; }
      FindFromFirst(s, sep, 0, |p0|);
      assert s[..|p0|] == p0;
      assert s[|p0| + |sep|..] == rest;
      JoinSplit(pieces[1..], sep);
    }
  }
}
