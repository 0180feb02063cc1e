/** Python's `re.sub(pattern, repl, s)` as a left-to-right scanner.

    A pattern is given by a matcher: applied to the rest of the subject from the
    current position, it says whether the pattern matches there, how many
    characters the match consumes and what replaces them. None of the patterns of
    the extractor has a look-behind or an anchor, so whether they match at a
    position depends only on the text from that position on; none of them
    matches the empty string. */
module Rewrite {

  datatype Match = NoMatch | Match(len: nat, repl: string)

  /** Every match consumes at least one character and no more than there is. */
  ghost predicate ValidMatcher(m: string -> Match) {
    forall t :: m(t).Match? ==> 0 < m(t).len <= |t|
  }

  /** Leftmost, non-overlapping replacement: where the pattern matches, emit the
      replacement and resume after the match; elsewhere copy one character. */
  function ReSub(s: string, m: string -> Match): string
    requires ValidMatcher(m)
    decreases |s|
  {
    if s == [] then []
    else match m(s)
      case Match(k, rep) => rep + ReSub(s[k..], m)
      case NoMatch => [s[0]] + ReSub(s[1..], m)
  }

  /** The first character of a rewrite: the replacement's, or the copied one. */
  lemma ReSubHead(t: string, m: string -> Match)
    requires ValidMatcher(m) && |t| > 0
    ensures m(t).NoMatch? ==> |ReSub(t, m)| > 0 && ReSub(t, m)[0] == t[0]
    ensures m(t).Match? && |m(t).repl| > 0 ==> |ReSub(t, m)| > 0 && ReSub(t, m)[0] == m(t).repl[0]
  {
  }

  /** The pattern matches at no position of `s`. */
  ghost predicate Unmatched(s: string, m: string -> Match) {
    forall k :: 0 <= k < |s| ==> m(s[k..]).NoMatch?
  }

  /** A rewrite with no match leaves the text as it was. */
  lemma {:induction false} ReSubUnmatched(s: string, m: string -> Match)
    requires ValidMatcher(m) && Unmatched(s, m)
    ensures ReSub(s, m) == s
    decreases |s|
  {
    if s != [] {
      assert s[0..] == s;
      assert Unmatched(s[1..], m) by {
        forall k | 0 <= k < |s| - 1 ensures m(s[1..][k..]).NoMatch? {
          assert s[1..][k..] == s[k + 1..];
        }
      }
      ReSubUnmatched(s[1..], m);
      assert [s[0]] + s[1..] == s;
    }
  }

  /** The replacement of `r`, if any, is made of characters of `t` and of `lits`. */
  predicate Drawn(t: string, r: Match, lits: string) {
    r.Match? ==> forall c :: c in r.repl ==> c in t || c in lits
  }

  /** Each replacement is made of characters of the text it was matched in and of `lits`. */
  ghost predicate DrawsFrom(m: string -> Match, lits: string) {
    forall t :: Drawn(t, m(t), lits)
  }

  /** Then the rewrite introduces no character outside the input and `lits`. */
  lemma {:induction false} ReSubDrawsFrom(s: string, m: string -> Match, lits: string)
    requires ValidMatcher(m) && DrawsFrom(m, lits)
    ensures forall c :: c in ReSub(s, m) ==> c in s || c in lits
    decreases |s|
  {
    if s != [] {
      match m(s)
      case Match(k, rep) =>
        ReSubDrawsFrom(s[k..], m, lits);
        assert Drawn(s, m(s), lits);
        assert forall c :: c in s[k..] ==> c in s;
      case NoMatch =>
        ReSubDrawsFrom(s[1..], m, lits);
        assert forall c :: c in s[1..] ==> c in s;
    }
  }

  /** A character neither in the input nor among `lits` is not in the output. */
  lemma ReSubAvoids(s: string, m: string -> Match, lits: string, c: char)
    requires ValidMatcher(m) && DrawsFrom(m, lits) && c !in s && c !in lits
    ensures c !in ReSub(s, m)
  {
    ReSubDrawsFrom(s, m, lits);
  }

  /** Every replacement holds one `x` fewer than the text it replaces. */
  ghost predicate RemovesOne(m: string -> Match, x: char) {
    forall t :: m(t).Match? ==> m(t).len <= |t| && multiset(m(t).repl)[x] + 1 == multiset(t[..m(t).len])[x]
  }

  /** The count of `x` in a concatenation. */
  lemma CountConcat(a: string, b: string, x: char)
    ensures multiset(a + b)[x] == multiset(a)[x] + multiset(b)[x]
  {
  }

  /** A step of the rewrite where the pattern matches, in counts of `x`. */
  lemma CountMatchStep(s: string, m: string -> Match, x: char, k: nat, rep: string)
    requires ValidMatcher(m) && s != [] && m(s) == Match(k, rep)
    ensures multiset(ReSub(s, m))[x] == multiset(rep)[x] + multiset(ReSub(s[k..], m))[x]
    ensures multiset(s)[x] == multiset(s[..k])[x] + multiset(s[k..])[x]
  {
    var tail := ReSub(s[k..], m);
    assert ReSub(s, m) == rep + tail;
    CountSplit(ReSub(s, m), rep, tail, x);
    CountAt(s, k, x);
  }

  /** The count of `x` in a text split at `k`. */
  lemma CountAt(s: string, k: nat, x: char)
    requires k <= |s|
    ensures multiset(s)[x] == multiset(s[..k])[x] + multiset(s[k..])[x]
  {
    assert s == s[..k] + s[k..];
    CountConcat(s[..k], s[k..], x);
  }

  /** `CountConcat` for a text known to be the concatenation. */
  lemma CountSplit(t: string, a: string, b: string, x: char)
    requires t == a + b
    ensures multiset(t)[x] == multiset(a)[x] + multiset(b)[x]
  {
    CountConcat(a, b, x);
  }

  /** A step of the rewrite where the first character is copied, in counts of `x`. */
  lemma CountCopyStep(s: string, m: string -> Match, x: char)
    requires ValidMatcher(m) && s != [] && m(s).NoMatch?
    ensures multiset(ReSub(s, m))[x] == multiset([s[0]])[x] + multiset(ReSub(s[1..], m))[x]
    ensures multiset(s)[x] == multiset([s[0]])[x] + multiset(s[1..])[x]
  {
    assert ReSub(s, m) == [s[0]] + ReSub(s[1..], m);
    CountConcat([s[0]], ReSub(s[1..], m), x);
    assert s == [s[0]] + s[1..];
    CountConcat([s[0]], s[1..], x);
  }

  /** Then a rewrite never adds an `x`, */
  lemma {:induction false} ReSubCountKeeps(s: string, m: string -> Match, x: char)
    requires ValidMatcher(m) && RemovesOne(m, x)
    ensures multiset(ReSub(s, m))[x] <= multiset(s)[x]
    decreases |s|
  {
    if s != [] {
      if m(s).Match? {
        CountMatchStep(s, m, x, m(s).len, m(s).repl);
        ReSubCountKeeps(s[m(s).len..], m, x);
      } else {
        CountCopyStep(s, m, x);
        ReSubCountKeeps(s[1..], m, x);
      }
    }
  }

  /** and it removes at least one when the pattern matches somewhere, at `j`: that
      match is taken, or an earlier one that overlaps it. */
  lemma {:induction false} ReSubCountShrinks(s: string, m: string -> Match, x: char, j: nat)
    requires ValidMatcher(m) && RemovesOne(m, x)
    requires j < |s| && m(s[j..]).Match?
    ensures multiset(ReSub(s, m))[x] < multiset(s)[x]
    decreases j
  {
    if m(s).Match? {
      CountMatchStep(s, m, x, m(s).len, m(s).repl);
      ReSubCountKeeps(s[m(s).len..], m, x);
    } else {
      CountCopyStep(s, m, x);
      assert s[0..] == s;
      assert s[1..][j - 1..] == s[j..];
      ReSubCountShrinks(s[1..], m, x, j - 1);
    }
  }

  /** A rewrite whose every match removes one `x` changes the text exactly when the
      pattern matches somewhere in it, and then leaves fewer `x`s. */
  lemma ReSubCount(s: string, m: string -> Match, x: char)
    requires ValidMatcher(m) && RemovesOne(m, x)
    ensures var r := ReSub(s, m);
      multiset(r)[x] <= multiset(s)[x]
      && Unmatched(s, m) == (r == s)
      && (r == s || multiset(r)[x] < multiset(s)[x])
  {
    ReSubCountKeeps(s, m, x);
    if Unmatched(s, m) {
      ReSubUnmatched(s, m);
    } else {
      var j :| 0 <= j < |s| && m(s[j..]).Match?;
      ReSubCountShrinks(s, m, x, j);
    }
  }

  // ---------------------------------------------------------------------------
  // Forbidden neighbours: no character of class `p` directly before one of class `q`
  // ---------------------------------------------------------------------------

  predicate NoPair(s: string, p: char -> bool, q: char -> bool) {
    forall i :: 0 <= i < |s| - 1 ==> !(p(s[i]) && q(s[i + 1]))
  }

  lemma NoPairConcat(a: string, b: string, p: char -> bool, q: char -> bool)
    requires NoPair(a, p, q) && NoPair(b, p, q)
    requires a != [] && b != [] ==> !(p(a[|a| - 1]) && q(b[0]))
    ensures NoPair(a + b, p, q)
  {
    forall i | 0 <= i < |a + b| - 1 ensures !(p((a + b)[i]) && q((a + b)[i + 1])) {
      if i + 1 < |a| {
        assert (a + b)[i] == a[i] && (a + b)[i + 1] == a[i + 1];
      } else if i + 1 == |a| {
        assert (a + b)[i] == a[i] && (a + b)[i + 1] == b[0];
      } else {
        assert (a + b)[i] == b[i - |a|] && (a + b)[i + 1] == b[i + 1 - |a|];
      }
    }
  }

  lemma NoPairSlice(s: string, p: char -> bool, q: char -> bool, a: nat, b: nat)
    requires a <= b <= |s| && NoPair(s, p, q)
    ensures NoPair(s[a..b], p, q)
  {
    forall i | 0 <= i < b - a - 1 ensures !(p(s[a..b][i]) && q(s[a..b][i + 1])) {
      assert s[a..b][i] == s[a + i] && s[a..b][i + 1] == s[a + i + 1];
    }
  }

  /** The match at `s[i..]`, if any, leaves no forbidden pair inside its replacement
      nor at either end of it: a `p` at its end is followed by a character that is
      copied and is not a `q`, and a `q` at its start follows no copied `p`. */
  ghost predicate SafeAt(s: string, i: nat, m: string -> Match, p: char -> bool, q: char -> bool)
    requires ValidMatcher(m) && i < |s|
  {
    match m(s[i..])
    case NoMatch => true
    case Match(k, rep) =>
      rep != [] && NoPair(rep, p, q)
      && (p(rep[|rep| - 1]) ==> i + k == |s| || (m(s[i + k..]).NoMatch? && !q(s[i + k])))
      && (0 < i && p(s[i - 1]) && m(s[i - 1..]).NoMatch? ==> !q(rep[0]))
  }

  /** Every forbidden pair of `s` starts where the pattern matches, and every match is safe. */
  ghost predicate Clears(s: string, m: string -> Match, p: char -> bool, q: char -> bool)
    requires ValidMatcher(m)
  {
    (forall i :: 0 <= i < |s| - 1 && p(s[i]) && q(s[i + 1]) ==> m(s[i..]).Match?)
    && (forall i :: 0 <= i < |s| ==> SafeAt(s, i, m, p, q))
  }

  lemma ClearsSuffix(s: string, m: string -> Match, p: char -> bool, q: char -> bool, k: nat)
    requires ValidMatcher(m) && Clears(s, m, p, q) && k <= |s|
    ensures Clears(s[k..], m, p, q)
  {
    var u := s[k..];
    forall i | 0 <= i < |u| - 1 && p(u[i]) && q(u[i + 1]) ensures m(u[i..]).Match? {
      assert u[i..] == s[k + i..] && u[i] == s[k + i] && u[i + 1] == s[k + i + 1];
    }
    forall i | 0 <= i < |u| ensures SafeAt(u, i, m, p, q) {
      SafeAtShift(s, m, p, q, k, i);
    }
  }

  /** Whether a match is safe does not depend on the text before the character that
      precedes it. */
  lemma SafeAtShift(s: string, m: string -> Match, p: char -> bool, q: char -> bool, k: nat, i: nat)
    requires ValidMatcher(m) && k + i < |s|
    requires SafeAt(s, k + i, m, p, q)
    ensures SafeAt(s[k..], i, m, p, q)
  {
    var u := s[k..];
    assert u[i..] == s[k + i..];
    match m(u[i..])
    case NoMatch =>
    case Match(n, rep) =>
      assert u[i + n..] == s[k + i + n..];
      if 0 < i {
        assert u[i - 1..] == s[k + i - 1..];
      }
  }

  /** Then the rewrite leaves no forbidden pair. */
  lemma {:induction false} ReSubNoPair(s: string, m: string -> Match, p: char -> bool, q: char -> bool)
    requires ValidMatcher(m) && Clears(s, m, p, q)
    ensures NoPair(ReSub(s, m), p, q)
    decreases |s|
  {
    if s != [] {
      assert s[0..] == s;
      match m(s)
      case Match(k, rep) =>
        ClearsSuffix(s, m, p, q, k);
        ReSubNoPair(s[k..], m, p, q);
        assert SafeAt(s, 0, m, p, q);
        if k < |s| {
          ReSubHead(s[k..], m);
        }
        NoPairConcat(rep, ReSub(s[k..], m), p, q);
      case NoMatch =>
        ClearsSuffix(s, m, p, q, 1);
        ReSubNoPair(s[1..], m, p, q);
        if 1 < |s| {
          ReSubHead(s[1..], m);
          assert SafeAt(s, 1, m, p, q);
        }
        NoPairConcat([s[0]], ReSub(s[1..], m), p, q);
    }
  }

  /** Every match of `m` needs a `c` in the text it is tried on. */
  ghost predicate NeedsChar(m: string -> Match, c: char) {
    forall t :: m(t).Match? ==> c in t
  }

  /** Then a text without `c` is left as it is. */
  lemma ReSubIdle(s: string, m: string -> Match, c: char)
    requires ValidMatcher(m) && NeedsChar(m, c) && c !in s
    ensures ReSub(s, m) == s
  {
    forall k | 0 <= k < |s| ensures m(s[k..]).NoMatch? {
      assert forall x :: x in s[k..] ==> x in s;
    }
    ReSubUnmatched(s, m);
  }
}
