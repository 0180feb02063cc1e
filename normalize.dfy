/** The text normaliser of core_eqs.py (`_normalize_text_subscripts`,
    `_normalize_dots`, `_normalize_for_parsers`): an ordered chain of regular
    expression substitutions. Each pattern is written out as a matcher whose
    greedy and lazy repetitions and backtracking are resolved by hand (the
    comment on each says how), and each substitution is `Rewrite.ReSub`. */
module Normalize {
  import opened Results
  import opened Text
  import opened Rewrite

  // ---------------------------------------------------------------------------
  // Character classes of the patterns
  // ---------------------------------------------------------------------------

  /** `[^\[\]]` */
  predicate NotSquare(c: char) { c != '[' && c != ']' }

  /** `[A-Za-z\\]` */
  predicate IsBaseChar(c: char) { IsAsciiLetter(c) || c == '\\' }

  const TextOpen := "_{\\text{"
  const MathrmOpen := "_{\\mathrm{"
  const DotOpen := "\\dot{"

  // ---------------------------------------------------------------------------
  // Rule 1: `_SPACING_CMDS`, `\left\s*`, `\right\s*` and `&` are deleted
  // ---------------------------------------------------------------------------

  /** `(?:\\,|\\!|\\;|\\:|\\quad|\\qquad)`; at most one alternative can match at a position. */
  function SpacingMatch(t: string): (r: Match)
    ensures r.Match? ==> 0 < r.len <= |t| && r.repl == []
  {
    if |t| >= 2 && t[0] == '\\' && t[1] in ",!;:" then Match(2, "")
    else if "\\quad" <= t then Match(5, "")
    else if "\\qquad" <= t then Match(6, "")
    else NoMatch
  }

  /** `\\left\s*`: the macro and all the whitespace after it. */
  function LeftMatch(t: string): (r: Match)
    ensures r.Match? ==> 0 < r.len <= |t| && r.repl == []
  {
    if "\\left" <= t then Match(5 + Span(t[5..], IsSpace), "") else NoMatch
  }

  /** `\\right\s*` */
  function RightMatch(t: string): (r: Match)
    ensures r.Match? ==> 0 < r.len <= |t| && r.repl == []
  {
    if "\\right" <= t then Match(6 + Span(t[6..], IsSpace), "") else NoMatch
  }

  /** `s.replace('&', '')`, which is the substitution of the one-character pattern `&`. */
  function AmpMatch(t: string): (r: Match)
    ensures r.Match? ==> 0 < r.len <= |t| && r.repl == []
    ensures |t| > 0 && t[0] == '&' ==> r.Match?
  {
    if |t| > 0 && t[0] == '&' then Match(1, "") else NoMatch
  }

  lemma {:induction false} AmpGone(s: string)
    ensures '&' !in ReSub(s, AmpMatch)
    ensures forall c :: c in ReSub(s, AmpMatch) ==> c in s
    decreases |s|
  {
    if s != [] {
      match AmpMatch(s)
      case Match(k, rep) =>
        AmpGone(s[k..]);
        assert forall c :: c in s[k..] ==> c in s;
      case NoMatch =>
        AmpGone(s[1..]);
        assert forall c :: c in s[1..] ==> c in s;
    }
  }

  // ---------------------------------------------------------------------------
  // Rule 2: `_normalize_text_subscripts`
  // ---------------------------------------------------------------------------

  /** Where `(?:_\{[^}]+\})?` stops when tried at index `b` of `t`: `[^}]+` runs to the
      first `}`, so the group matches exactly when that `}` exists after at least one
      character. */
  function OptBracedEnd(t: string, b: nat): (k: nat)
    requires b <= |t|
    ensures b <= k <= |t|
  {
    if b + 2 <= |t| && t[b] == '_' && t[b + 1] == '{' then
      var e := RunEnd(t, b + 2, NotCloseBrace);
      if b + 2 < e < |t| then e + 1 else b
    else b
  }

  /** `\(\s*([A-Za-z\\]+(?:_\{[^}]+\})?)\s*\)`, shared by the two parenthesised-base
      rules: the bounds of group 1 and the index of the `)`. Whitespace, `[A-Za-z\\]`
      and `_` are disjoint, so each repetition takes its longest run and no
      backtracking can succeed where that fails. */
  function ParenBase(t: string): (r: Option<(nat, nat, nat)>)
    ensures r.Some? ==> 0 < r.value.0 < r.value.1 <= r.value.2 < |t| && t[r.value.2] == ')'
  {
    if |t| == 0 || t[0] != '(' then None
    else
      var a := RunEnd(t, 1, IsSpace);
      var b := RunEnd(t, a, IsBaseChar);
      if b == a then None
      else
        var c := OptBracedEnd(t, b);
        var d := RunEnd(t, c, IsSpace);
        if d < |t| && t[d] == ')' then Some((a, c, d)) else None
  }

  /** `OPEN([^}]+)CLOSE` replaced by `_{\1}`, for OPEN one of `_{`, `_{\text{` and
      `_{\mathrm{`, and CLOSE `}` or `}}`: `[^}]+` runs to the first `}`. */
  function UnwrapMatch(t: string, open: string, close: string): (r: Match)
    requires |open| > 0
    ensures r.Match? ==> 0 < r.len <= |t|
    ensures Drawn(t, r, "_{}")
  {
    if !(open <= t) then NoMatch
    else
      var e := |open|;
      var f := e + Span(t[e..], NotCloseBrace);
      if e < f && close <= t[f..] then
        SliceChars(t, e, f);
        Match(f + |close|, "_{" + t[e..f] + "}")
      else NoMatch
  }

  /** A parenthesised base followed by a subscript that `UnwrapMatch` accepts: the
      parentheses and the whitespace inside them are dropped, `\1_{\2}`. */
  function ParenUnwrapMatch(t: string, open: string, close: string): (r: Match)
    requires |open| > 0
    ensures r.Match? ==> 0 < r.len <= |t|
    ensures Drawn(t, r, "_{}")
  {
    match ParenBase(t)
    case None => NoMatch
    case Some((a, c, d)) =>
      match UnwrapMatch(t[d + 1..], open, close)
      case NoMatch => NoMatch
      case Match(k, rep) =>
        SliceChars(t, a, c);
        SliceChars(t, d + 1, |t|);
        Match(d + 1 + k, t[a..c] + rep)
  }

  /** `\(\s*(BASE)\s*\)_\{\\text\{([^}]+)\}\}` replaced by `\1_{\2}`. */
  function ParenTextSubMatch(t: string): (r: Match)
    ensures r.Match? ==> 0 < r.len <= |t|
    ensures Drawn(t, r, "_{}")
  {
    ParenUnwrapMatch(t, TextOpen, "}}")
  }

  /** `\(\s*(BASE)\s*\)_\{([^}]+)\}` replaced by `\1_{\2}`. */
  function ParenSubMatch(t: string): (r: Match)
    ensures r.Match? ==> 0 < r.len <= |t|
    ensures Drawn(t, r, "_{}")
  {
    ParenUnwrapMatch(t, "_{", "}")
  }

  /** `_\{\\text\{([^}]+)\}\}` replaced by `_{\1}`. */
  function TextSubMatch(t: string): (r: Match)
    ensures r.Match? ==> 0 < r.len <= |t|
    ensures Drawn(t, r, "_{}")
  {
    UnwrapMatch(t, TextOpen, "}}")
  }

  /** `_\{\\mathrm\{([^}]+)\}\}` replaced by `_{\1}`. */
  function MathrmSubMatch(t: string): (r: Match)
    ensures r.Match? ==> 0 < r.len <= |t|
    ensures Drawn(t, r, "_{}")
  {
    UnwrapMatch(t, MathrmOpen, "}}")
  }

  /** A run of whitespace. */
  predicate AllSpace(w: string) {
    forall i :: 0 <= i < |w| ==> IsSpace(w[i])
  }

  /** Group 1 of the parenthesised-base rules: a non-empty run of `[A-Za-z\\]` and then
      either nothing or `_{s}` with `s` non-empty and free of `}`. */
  predicate BaseForm(base: string, sub: string) {
    && base != []
    && (forall i :: 0 <= i < |base| ==> IsBaseChar(base[i]))
    && (sub == [] || BracedForm(sub))
  }

  /** `_{s}` with `s` non-empty and free of `}`. */
  predicate BracedForm(v: string) {
    && |v| >= 4 && v[..2] == "_{" && v[|v| - 1] == '}'
    && forall i :: 2 <= i < |v| - 1 ==> v[i] != '}'
  }

  /** Every group that `OptBracedEnd` takes is a braced subscript. */
  lemma OptBracedShape(t: string, b: nat)
    requires b <= |t|
    ensures var k := OptBracedEnd(t, b); k > b ==> BracedForm(t[b..k])
  {
    var k := OptBracedEnd(t, b);
    if k > b {
      RunEndStops(t, b + 2, NotCloseBrace);
      assert forall i :: 0 <= i < k - b ==> t[b..k][i] == t[b + i];
    }
  }

  /** `OptBracedEnd` takes a braced subscript from `b` to `c` in front of anything, and
      nothing (`c == b`) in front of the end or a character other than `_`. */
  lemma OptBracedOver(t: string, b: nat, c: nat)
    requires b <= c <= |t|
    requires c > b ==> BracedForm(t[b..c])
    requires c == b ==> c == |t| || t[c] != '_'
    ensures OptBracedEnd(t, b) == c
  {
    if c > b {
      assert t[b] == t[b..c][0] && t[b + 1] == t[b..c][1] && t[c - 1] == t[b..c][c - b - 1];
      assert forall i :: b + 2 <= i < c - 1 ==> t[i] == t[b..c][i - b];
      RunEndOver(t, b + 2, c - 1, NotCloseBrace);
    }
  }

  /** The parenthesised base read off by position: `(` at 0, whitespace up to `a`, group 1
      from `a` to `c` made of a base run up to `b` and an optional braced subscript,
      whitespace up to `d` and the `)` at `d`. */
  lemma ParenBaseOf(t: string, a: nat, b: nat, c: nat, d: nat)
    requires 0 < a <= b <= c <= d < |t| && t[0] == '(' && t[d] == ')'
    requires AllSpace(t[1..a]) && BaseForm(t[a..b], t[b..c]) && AllSpace(t[c..d])
    ensures ParenBase(t) == Some((a, c, d))
  {
    assert forall i :: 1 <= i < a ==> IsSpace(t[i]) by {
      forall i | 1 <= i < a ensures IsSpace(t[i]) { assert t[i] == t[1..a][i - 1]; }
    }
    assert forall i :: a <= i < b ==> IsBaseChar(t[i]) by {
      forall i | a <= i < b ensures IsBaseChar(t[i]) { assert t[i] == t[a..b][i - a]; }
    }
    assert forall i :: c <= i < d ==> IsSpace(t[i]) by {
      forall i | c <= i < d ensures IsSpace(t[i]) { assert t[i] == t[c..d][i - c]; }
    }
    assert t[b] == '_' || IsSpace(t[b]) || t[b] == ')' by {
      if b < c { assert t[b] == t[b..c][0]; }
    }
    RunEndOver(t, 1, a, IsSpace);
    RunEndOver(t, a, b, IsBaseChar);
    OptBracedOver(t, b, c);
    RunEndOver(t, c, d, IsSpace);
  }

  /** The parenthesised base `( w1 base sub w2 )`, whitespace `w1` and `w2` included,
      is found whatever follows it: group 1 is `base + sub` and `d` is the `)`. */
  lemma ParenBaseAt(t: string, w1: string, base: string, sub: string, w2: string, u: string)
    requires AllSpace(w1) && BaseForm(base, sub) && AllSpace(w2)
    requires t == "(" + w1 + base + sub + w2 + ")" + u
    ensures ParenBase(t) == Some((1 + |w1|, 1 + |w1| + |base| + |sub|, 1 + |w1| + |base| + |sub| + |w2|))
    ensures t[1 + |w1|..1 + |w1| + |base| + |sub|] == base + sub
    ensures t[1 + |w1| + |base| + |sub| + |w2| + 1..] == u
  {
    ParenPieces(t, w1, base, sub, w2, u);
    ParenBaseOf(t, 1 + |w1|, 1 + |w1| + |base|, 1 + |w1| + |base| + |sub|, 1 + |w1| + |base| + |sub| + |w2|);
  }

  /** Where the pieces of `( w1 base sub w2 ) u` lie. */
  lemma ParenPieces(t: string, w1: string, base: string, sub: string, w2: string, u: string)
    requires t == "(" + w1 + base + sub + w2 + ")" + u
    ensures var a := 1 + |w1|; var b := a + |base|; var c := b + |sub|; var d := c + |w2|;
      && d < |t| && t[0] == '(' && t[d] == ')'
      && t[1..a] == w1 && t[a..b] == base && t[b..c] == sub && t[c..d] == w2
      && t[a..c] == base + sub && t[d + 1..] == u
  {
    var a := 1 + |w1|;
    var b := a + |base|;
    var c := b + |sub|;
    var d := c + |w2|;
    assert t[a..c] == base + sub;
    assert t[d + 1..] == u;
  }

  /** The subscript `open c close`, with `c` non-empty and free of `}`, is rewritten to
      `_{c}` whatever follows it. */
  lemma UnwrapAt(t: string, open: string, c: string, close: string, rest: string)
    requires |open| > 0 && c != [] && '}' !in c && |close| > 0 && close[0] == '}'
    requires t == open + c + close + rest
    ensures UnwrapMatch(t, open, close) == Match(|open| + |c| + |close|, "_{" + c + "}")
  {
    var e := |open|;
    assert t[e..] == c + (close + rest);
    SpanStops(c, close + rest, NotCloseBrace);
    assert t[e + |c|..] == close + rest;
    assert t[e..e + |c|] == c;
  }

  /** Conversely, every match of `UnwrapMatch` is such a subscript: `open`, a non-empty
      run free of `}`, then `close`, and the replacement wraps that run in `_{…}`. */
  lemma UnwrapShape(t: string, open: string, close: string)
    requires |open| > 0
    ensures var r := UnwrapMatch(t, open, close);
      r.Match? ==>
        var f := r.len - |close|;
        && open <= t && |open| < f && t[f..r.len] == close
        && '}' !in t[|open|..f] && r.repl == "_{" + t[|open|..f] + "}"
  {
    var r := UnwrapMatch(t, open, close);
    if r.Match? {
      var e := |open|;
      var f := r.len - |close|;
      assert f == e + Span(t[e..], NotCloseBrace);
      assert forall i :: e <= i < f ==> t[i] != '}' by {
        forall i | e <= i < f ensures t[i] != '}' {
          assert t[e..][i - e] == t[i];
        }
      }
    }
  }

  /** A parenthesised base directly before a subscript that `UnwrapMatch` takes loses its
      parentheses and inner whitespace: `( w1 base sub w2 )` then `open c close` becomes
      `base sub _{c}`. */
  lemma ParenUnwrapAt(t: string, w1: string, base: string, sub: string, w2: string,
                      u: string, open: string, c: string, close: string, rest: string)
    requires AllSpace(w1) && BaseForm(base, sub) && AllSpace(w2)
    requires |open| > 0 && c != [] && '}' !in c && |close| > 0 && close[0] == '}'
    requires t == "(" + w1 + base + sub + w2 + ")" + u && u == open + c + close + rest
    ensures ParenUnwrapMatch(t, open, close)
      == Match(|w1| + |base| + |sub| + |w2| + 2 + |open| + |c| + |close|, base + sub + "_{" + c + "}")
  {
    var a, e := 1 + |w1|, 1 + |w1| + |base| + |sub|;
    var d := e + |w2|;
    assert ParenBase(t) == Some((a, e, d)) && t[a..e] == base + sub && t[d + 1..] == u by {
      ParenBaseAt(t, w1, base, sub, w2, u);
    }
    assert UnwrapMatch(u, open, close) == Match(|open| + |c| + |close|, "_{" + c + "}") by {
      UnwrapAt(u, open, c, close, rest);
    }
    ParenUnwrapFrom(t, a, e, d, base + sub, u, open, close, |open| + |c| + |close|, "_{" + c + "}");
    Regroup(base + sub, c);
  }

  /** `ParenUnwrapMatch` once the base has been found from `a` to `e` with its `)` at `d`,
      and the subscript after it has matched. */
  lemma ParenUnwrapFrom(t: string, a: nat, e: nat, d: nat, g: string, u: string,
                        open: string, close: string, k: nat, rep: string)
    requires |open| > 0 && ParenBase(t) == Some((a, e, d)) && t[a..e] == g && t[d + 1..] == u
    requires UnwrapMatch(u, open, close) == Match(k, rep)
    ensures ParenUnwrapMatch(t, open, close) == Match(d + 1 + k, g + rep)
  {
    ParenUnwrapSteps(t, open, close, u);
  }

  lemma Regroup(g: string, c: string)
    ensures g + ("_{" + c + "}") == g + "_{" + c + "}"
  {
  }

  /** `ParenUnwrapMatch` put together from the base it finds and what follows its `)`. */
  lemma ParenUnwrapSteps(t: string, open: string, close: string, u: string)
    requires |open| > 0 && ParenBase(t).Some? && t[ParenBase(t).value.2 + 1..] == u
    requires UnwrapMatch(u, open, close).Match?
    ensures var (a, c, d) := ParenBase(t).value; var r := UnwrapMatch(u, open, close);
      ParenUnwrapMatch(t, open, close) == Match(d + 1 + r.len, t[a..c] + r.repl)
  {
  }

  /** Rule 2a on its own pattern: `(BASE)_{\text{c}}` becomes `BASE_{c}`. */
  lemma ParenTextSubRewrites(w1: string, base: string, sub: string, w2: string, c: string, rest: string)
    requires AllSpace(w1) && BaseForm(base, sub) && AllSpace(w2) && c != [] && '}' !in c
    ensures var t := "(" + w1 + base + sub + w2 + ")" + (TextOpen + c + "}}" + rest);
      ParenTextSubMatch(t)
        == Match(|w1| + |base| + |sub| + |w2| + 2 + |TextOpen| + |c| + 2, base + sub + "_{" + c + "}")
  {
    var u := TextOpen + c + "}}" + rest;
    ParenUnwrapAt("(" + w1 + base + sub + w2 + ")" + u, w1, base, sub, w2, u, TextOpen, c, "}}", rest);
  }

  /** Rule 2b on its own pattern: `(BASE)_{c}` becomes `BASE_{c}`. */
  lemma ParenSubRewrites(w1: string, base: string, sub: string, w2: string, c: string, rest: string)
    requires AllSpace(w1) && BaseForm(base, sub) && AllSpace(w2) && c != [] && '}' !in c
    ensures var t := "(" + w1 + base + sub + w2 + ")" + ("_{" + c + "}" + rest);
      ParenSubMatch(t) == Match(|w1| + |base| + |sub| + |w2| + 2 + 2 + |c| + 1, base + sub + "_{" + c + "}")
  {
    var u := "_{" + c + "}" + rest;
    ParenUnwrapAt("(" + w1 + base + sub + w2 + ")" + u, w1, base, sub, w2, u, "_{", c, "}", rest);
  }

  /** Rule 2c on its own pattern: `_{\text{c}}` becomes `_{c}`. */
  lemma TextSubRewrites(c: string, rest: string)
    requires c != [] && '}' !in c
    ensures TextSubMatch(TextOpen + c + "}}" + rest) == Match(|TextOpen| + |c| + 2, "_{" + c + "}")
  {
    UnwrapAt(TextOpen + c + "}}" + rest, TextOpen, c, "}}", rest);
  }

  /** Rule 2d on its own pattern: `_{\mathrm{c}}` becomes `_{c}`. */
  lemma MathrmSubRewrites(c: string, rest: string)
    requires c != [] && '}' !in c
    ensures MathrmSubMatch(MathrmOpen + c + "}}" + rest) == Match(|MathrmOpen| + |c| + 2, "_{" + c + "}")
  {
    UnwrapAt(MathrmOpen + c + "}}" + rest, MathrmOpen, c, "}}", rest);
  }

  /** The comma found by `([^{}]+),` when the pattern is tried on `run`: the greedy
      group backtracks from the end, so it is the last comma that leaves both
      groups non-empty. */
  function CommaAtOrBelow(run: string, j: int): (r: Option<nat>)
    requires j < |run|
    ensures r.Some? ==> 1 <= r.value <= j && run[r.value] == ','
    ensures r.Some? ==> forall i :: r.value < i <= j ==> run[i] != ','
    ensures r.None? ==> forall i :: 1 <= i <= j ==> run[i] != ','
    decreases j
  {
    if j < 1 then None
    else if run[j] == ',' then Some(j)
    else CommaAtOrBelow(run, j - 1)
  }

  lemma SpacesHaveNoComma(u: string)
    requires forall i :: 0 <= i < |u| ==> IsSpace(u[i])
    ensures multiset(u)[','] == 0
  {
    assert ',' !in u by {
      assert !IsSpace(',');
    }
  }

  /** The replacement of the comma rule for the comma at `t[2 + c]` and `w` spaces after it:
      one comma fewer than the text it replaces, and nothing new but `_`. */
  lemma CommaReplacement(t: string, n: nat, c: nat, w: nat)
    requires 2 + n < |t| && t[..2] == "_{" && t[2 + n] == '}'
    requires 1 <= c && c + 1 + w < n && t[2 + c] == ','
    requires forall i :: 3 + c <= i < 3 + c + w ==> IsSpace(t[i])
    ensures var rep := "_{" + t[2..2 + c] + "_" + t[3 + c + w..2 + n] + "}";
      multiset(rep)[','] + 1 == multiset(t[..n + 3])[',']
      && forall x :: x in rep ==> x in t || x in "_{}"
  {
    assert t[..n + 3] == t[..2] + t[2..2 + c] + [','] + t[3 + c..3 + c + w] + t[3 + c + w..2 + n] + "}";
    SpacesHaveNoComma(t[3 + c..3 + c + w]);
    SliceChars(t, 2, 2 + c);
    SliceChars(t, 3 + c + w, 2 + n);
  }

  /** `t` starts with `_{`, then a run of `n` characters without braces closed by `}`,
      with a comma at index `c` of the run and a character on either side of it. */
  predicate CommaSubscript(t: string, n: nat, c: nat) {
    2 + n < |t| && t[0] == '_' && t[1] == '{' && t[2 + n] == '}'
    && (forall i :: 2 <= i < 2 + n ==> NotBrace(t[i]))
    && 1 <= c && c + 2 <= n && t[2 + c] == ','
  }

  /** Where `_\{([^{}]+),` lands when tried on `t`: the brace-free run after `_{` must
      end at a `}`, and the comma is the last one with a character on either side. */
  function CommaSite(t: string): (r: Option<(nat, nat)>)
    ensures r.Some? ==> CommaSubscript(t, r.value.0, r.value.1)
  {
    if |t| < 2 || t[0] != '_' || t[1] != '{' then None
    else
      var n := Span(t[2..], NotBrace);
      if 2 + n == |t| || t[2 + n] != '}' then None
      else
        match CommaAtOrBelow(t[2..2 + n], n - 2)
        case None => None
        case Some(c) =>
          assert t[2 + c] == t[2..2 + n][c];
          assert t[2 + n] == t[2..][n];
          assert forall i :: 2 <= i < 2 + n ==> t[i] == t[2..][i - 2];
          Some((n, c))
  }

  /** The replacement `_{\1_\2}` for the subscript `CommaSubscript(t, n, c)` describes:
      `\s*` takes the spaces after the comma, but gives the last one back when nothing
      else is left for group 2. */
  function CommaRep(t: string, n: nat, c: nat): (rep: string)
    requires CommaSubscript(t, n, c)
    ensures multiset(rep)[','] + 1 == multiset(t[..n + 3])[',']
    ensures forall x :: x in rep ==> x in t || x in "_{}"
  {
    var sp := Span(t[3 + c..2 + n], IsSpace);
    var w := if sp == n - c - 1 then sp - 1 else sp;
    assert t[..2] == "_{";
    CommaReplacement(t, n, c, w);
    "_{" + t[2..2 + c] + "_" + t[3 + c + w..2 + n] + "}"
  }

  /** `_\{([^{}]+),\s*([^{}]+)\}` replaced by `_{\1_\2}`. */
  function CommaSubMatch(t: string): (r: Match)
    ensures r.Match? ==> 0 < r.len <= |t|
    ensures Drawn(t, r, "_{}")
  {
    match CommaSite(t)
    case None => NoMatch
    case Some((n, c)) => Match(n + 3, CommaRep(t, n, c))
  }

  /** A brace-free `_{…,…}` subscript starts `t`. */
  ghost predicate CommaSubscriptAt(t: string) {
    exists n: nat, c: nat :: CommaSubscript(t, n, c)
  }

  /** The comma rule matches exactly where such a subscript starts. */
  lemma CommaSubMatchIff(t: string)
    ensures CommaSubMatch(t).Match? <==> CommaSubscriptAt(t)
  {
    if CommaSubscriptAt(t) {
      CommaSiteComplete(t);
    }
    if CommaSubMatch(t).Match? {
      var (n, c) := CommaSite(t).value;
      assert CommaSubscript(t, n, c);
    }
  }

  lemma CommaSiteComplete(t: string)
    requires CommaSubscriptAt(t)
    ensures CommaSite(t).Some?
  {
    var e: nat, j: nat :| CommaSubscript(t, e, j);
    var n := Span(t[2..], NotBrace);
    assert n == e by {
      assert forall i :: 0 <= i < e ==> t[2..][i] == t[2 + i];
      assert t[2..][e] == '}';
    }
    assert t[2..2 + n][j] == ',';
    assert CommaAtOrBelow(t[2..2 + n], n - 2).Some?;
  }

  /** Every match of the comma rule removes exactly one comma. */
  lemma CommaRemovesOne()
    ensures ValidMatcher(CommaSubMatch) && RemovesOne(CommaSubMatch, ',')
  {
    forall t ensures CommaSubMatch(t).Match? ==>
      0 < CommaSubMatch(t).len <= |t| && multiset(CommaSubMatch(t).repl)[','] + 1 == multiset(t[..CommaSubMatch(t).len])[',']
    {
      if CommaSubMatch(t).Match? {
        var (n, c) := CommaSite(t).value;
        assert CommaSubMatch(t) == Match(n + 3, CommaRep(t, n, c));
      }
    }
  }

  /** One pass of the comma rule never adds commas, removes at least one when the
      pattern matches somewhere, and changes the text exactly when it matches. */
  lemma CommaPassCount(s: string)
    ensures var r := ReSub(s, CommaSubMatch);
      multiset(r)[','] <= multiset(s)[',']
      && Unmatched(s, CommaSubMatch) == (r == s)
      && (r == s || multiset(r)[','] < multiset(s)[','])
  {
    CommaRemovesOne();
    ReSubCount(s, CommaSubMatch, ',');
  }

  /** The comma rule applied until the text stops changing. Each pass that changes
      the text removes a comma, which bounds the number of passes. */
  function CollapseCommas(s: string): (r: string)
    ensures Unmatched(r, CommaSubMatch)
    ensures forall c :: c in r ==> c in s || c in "_{}"
    decreases multiset(s)[',']
  {
    CommaPassCount(s);
    var s2 := ReSub(s, CommaSubMatch);
    ReSubDrawsFrom(s, CommaSubMatch, "_{}");
    if s2 == s then s else CollapseCommas(s2)
  }

  /** `_normalize_text_subscripts` */
  function TextSubscripts(s: string): (r: string)
    ensures forall c :: c in r ==> c in s || c in "_{}"
  {
    ReSubDrawsFrom(s, ParenTextSubMatch, "_{}");
    ReSubDrawsFrom(ReSub(s, ParenTextSubMatch), ParenSubMatch, "_{}");
    ReSubDrawsFrom(ReSub(ReSub(s, ParenTextSubMatch), ParenSubMatch), TextSubMatch, "_{}");
    ReSubDrawsFrom(ReSub(ReSub(ReSub(s, ParenTextSubMatch), ParenSubMatch), TextSubMatch), MathrmSubMatch, "_{}");
    var s1 := ReSub(s, ParenTextSubMatch);
    var s2 := ReSub(s1, ParenSubMatch);
    var s3 := ReSub(s2, TextSubMatch);
    var s4 := ReSub(s3, MathrmSubMatch);
    CollapseCommas(s4)
  }

  /** `_normalize_text_subscripts` as the source runs it: four substitutions, then the
      comma rule in a loop that stops at the first pass that changes nothing. */
  method NormalizeTextSubscripts(s: string) returns (r: string)
    ensures r == TextSubscripts(s)
    ensures Unmatched(r, CommaSubMatch)
  {
    r := ReSub(s, ParenTextSubMatch);
    r := ReSub(r, ParenSubMatch);
    r := ReSub(r, TextSubMatch);
    r := ReSub(r, MathrmSubMatch);
    while true
      invariant CollapseCommas(r) == TextSubscripts(s)
      decreases multiset(r)[',']
    {
      var r2 := ReSub(r, CommaSubMatch);
      CommaPassCount(r);
      if r2 == r {
        break;
      }
      r := r2;
    }
  }

  // ---------------------------------------------------------------------------
  // Rule 3: `_normalize_dots`
  // ---------------------------------------------------------------------------

  /** Where `(?:_[A-Za-z0-9]+|\_\{[^}]+\})?` stops when tried at index `q` of `t` on the
      way to a match. After `_` an alphanumeric selects the first alternative and `{` the second;
      when the chosen one fails, or is not followed by `}`, no other choice is followed
      by `}` either. */
  function DotSuffixEnd(t: string, q: nat): (k: nat)
    requires q <= |t|
    ensures q <= k <= |t|
  {
    if q + 2 <= |t| && t[q] == '_' && IsAsciiAlnum(t[q + 1]) then RunEnd(t, q + 1, IsAsciiAlnum)
    else OptBracedEnd(t, q)
  }

  /** `\\dot\{([A-Za-z](?:_[A-Za-z0-9]+|\_\{[^}]+\})?)\}` replaced by `\1dot`. */
  function DotMatch(t: string): (r: Match)
    ensures r.Match? ==> 0 < r.len <= |t|
    ensures Drawn(t, r, "dot")
  {
    if !(DotOpen <= t) || |t| < 6 || !IsAsciiLetter(t[5]) then NoMatch
    else
      var q := DotSuffixEnd(t, 6);
      if q < |t| && t[q] == '}' then
        SliceChars(t, 5, q);
        Match(q + 1, t[5..q] + "dot")
      else NoMatch
  }

  /** `_normalize_dots` */
  function Dots(s: string): string {
    ReSub(s, DotMatch)
  }

  /** The optional suffix of the dotted symbol: nothing, `_` and a run of ASCII letters
      and digits, or a braced subscript. */
  predicate DotSuffixForm(v: string) {
    || v == []
    || (|v| >= 2 && v[0] == '_' && forall i :: 1 <= i < |v| ==> IsAsciiAlnum(v[i]))
    || BracedForm(v)
  }

  /** `DotSuffixEnd` takes a suffix from `q` to `k` in front of the `}` that closes the
      dotted symbol. */
  lemma DotSuffixOver(t: string, q: nat, k: nat)
    requires q <= k < |t| && t[k] == '}' && DotSuffixForm(t[q..k])
    ensures DotSuffixEnd(t, q) == k
  {
    if k == q {
      OptBracedOver(t, q, k);
    } else if BracedForm(t[q..k]) {
      assert t[q] == t[q..k][0] && t[q + 1] == t[q..k][1];
      OptBracedOver(t, q, k);
    } else {
      assert t[q] == t[q..k][0] && t[q + 1] == t[q..k][1];
      assert forall i :: q + 1 <= i < k ==> t[i] == t[q..k][i - q];
      RunEndOver(t, q + 1, k, IsAsciiAlnum);
    }
  }

  /** Everything `DotSuffixEnd` takes is such a suffix. */
  lemma DotSuffixShape(t: string, q: nat)
    requires q <= |t|
    ensures DotSuffixForm(t[q..DotSuffixEnd(t, q)])
  {
    var k := DotSuffixEnd(t, q);
    if q + 2 <= |t| && t[q] == '_' && IsAsciiAlnum(t[q + 1]) {
      RunEndStops(t, q + 1, IsAsciiAlnum);
      assert forall i :: 0 <= i < k - q ==> t[q..k][i] == t[q + i];
    } else {
      OptBracedShape(t, q);
    }
  }

  /** The dotted symbol read off by position: `\dot{`, a letter at 5, a suffix up to `q`
      and the closing `}` at `q`. */
  lemma DotOf(t: string, q: nat)
    requires DotOpen <= t && 6 <= q < |t| && IsAsciiLetter(t[5]) && t[q] == '}'
    requires DotSuffixForm(t[6..q])
    ensures DotMatch(t) == Match(q + 1, t[5..q] + "dot")
  {
    DotSuffixOver(t, 6, q);
  }

  /** Rule 3 on its own pattern: `\dot{x v}` becomes `x v dot` whatever follows, for a
      letter `x` and a suffix `v` (so `\dot{W}` gives `Wdot` and `\dot{p_c}` gives
      `p_cdot`). */
  lemma DotRewrites(x: char, v: string, rest: string)
    requires IsAsciiLetter(x) && DotSuffixForm(v)
    ensures DotMatch(DotOpen + [x] + v + "}" + rest) == Match(7 + |v|, [x] + v + "dot")
  {
    var t := DotOpen + [x] + v + "}" + rest;
    assert DotOpen <= t && t[5] == x && t[6 + |v|] == '}';
    assert t[6..6 + |v|] == v && t[5..6 + |v|] == [x] + v;
    DotOf(t, 6 + |v|);
  }

  /** Conversely, every match of rule 3 is such a symbol, and the replacement is its
      letter and suffix followed by `dot`. */
  lemma DotShape(t: string)
    ensures var r := DotMatch(t);
      r.Match? ==>
        && DotOpen <= t && 7 <= r.len && IsAsciiLetter(t[5]) && t[r.len - 1] == '}'
        && DotSuffixForm(t[6..r.len - 1]) && r.repl == t[5..r.len - 1] + "dot"
  {
    if DotOpen <= t && |t| >= 6 && IsAsciiLetter(t[5]) {
      DotSuffixShape(t, 6);
    }
  }

  /** The two examples of the source's comment: `\dot{W}` gives `Wdot` and `\dot{p_c}`
      gives `p_cdot`. */
  lemma DotsExamples()
    ensures Dots("\\dot{W}") == "Wdot"
    ensures Dots("\\dot{p_c}") == "p_cdot"
  {
    DotRewrites('W', "", "");
    assert DotOpen + ['W'] + "" + "}" + "" == "\\dot{W}";
    assert ReSub("\\dot{W}"[7..], DotMatch) == [];
    DotRewrites('p', "_c", "");
    assert DotOpen + ['p'] + "_c" + "}" + "" == "\\dot{p_c}";
    assert ReSub("\\dot{p_c}"[9..], DotMatch) == [];
  }

  /** Text without `\dot{` is left alone by `_normalize_dots`. */
  lemma DotsIdle(s: string)
    requires !exists i :: 0 <= i <= |s| && At(s, DotOpen, i)
    ensures Dots(s) == s
  {
    assert Unmatched(s, DotMatch) by {
      forall i | 0 <= i < |s| ensures DotMatch(s[i..]).NoMatch? {
        assert !At(s, DotOpen, i);
      }
    }
    ReSubUnmatched(s, DotMatch);
  }

  // ---------------------------------------------------------------------------
  // Rules 4 to 6: bare scripts, square brackets, whitespace
  // ---------------------------------------------------------------------------

  /** `M([A-Za-z0-9])` replaced by `M{\1}` for the marker `M`. */
  function BareMatch(t: string, marker: char): (r: Match)
    ensures r.Match? ==> r.len == 2 <= |t| && r.repl == [marker, '{', t[1], '}']
    ensures r.NoMatch? ==> |t| < 2 || t[0] != marker || !IsAsciiAlnum(t[1])
  {
    if |t| >= 2 && t[0] == marker && IsAsciiAlnum(t[1]) then Match(2, [marker, '{', t[1], '}'])
    else NoMatch
  }

  /** `_SUB_BARE`, `_(?!\{)([A-Za-z0-9])` replaced by `_{\1}`; the look-ahead is implied by the class. */
  function SubBareMatch(t: string): (r: Match)
    ensures r.Match? ==> 0 < r.len <= |t|
    ensures Drawn(t, r, "_{}")
  {
    BareMatch(t, '_')
  }

  /** `_EXP_BARE`, `\^([A-Za-z0-9])` replaced by `^{\1}`. */
  function ExpBareMatch(t: string): (r: Match)
    ensures r.Match? ==> 0 < r.len <= |t|
    ensures Drawn(t, r, "^{}")
  {
    BareMatch(t, '^')
  }

  /** `_BRACK_GROUP`, `\[([^\[\]]+)\]` replaced by `(\1)`: only brackets with no bracket inside. */
  function BrackMatch(t: string): (r: Match)
    ensures r.Match? ==> 3 <= r.len <= |t| && r.repl == "(" + t[1..r.len - 1] + ")"
    ensures r.Match? ==>
      t[0] == '[' && t[r.len - 1] == ']' && forall i :: 1 <= i < r.len - 1 ==> NotSquare(t[i])
    ensures Drawn(t, r, "()")
  {
    if |t| == 0 || t[0] != '[' then NoMatch
    else
      var n := Span(t[1..], NotSquare);
      if 0 < n && 1 + n < |t| && t[1 + n] == ']' then
        SliceChars(t, 1, 1 + n);
        assert forall i :: 1 <= i < 1 + n ==> t[i] == t[1..][i - 1];
        Match(n + 2, "(" + t[1..1 + n] + ")")
      else NoMatch
  }

  /** `\s+` replaced by a single space. */
  function SpaceRunMatch(t: string): (r: Match)
    ensures r.Match? ==> 0 < r.len <= |t| && r.repl == " "
    ensures r.Match? ==> r.len == |t| || !IsSpace(t[r.len])
    ensures |t| > 0 && !IsSpace(t[0]) ==> r.NoMatch?
    ensures Drawn(t, r, " ")
  {
    if |t| > 0 && IsSpace(t[0]) then Match(Span(t, IsSpace), " ") else NoMatch
  }

  predicate IsUnderscore(c: char) { c == '_' }

  predicate IsCaret(c: char) { c == '^' }

  /** `_SUB_BARE` leaves no `_` directly before a letter or digit. */
  lemma SubBareClears(s: string)
    ensures Clears(s, SubBareMatch, IsUnderscore, IsAsciiAlnum)
  {
    forall i | 0 <= i < |s| ensures SafeAt(s, i, SubBareMatch, IsUnderscore, IsAsciiAlnum) {
      assert s[i..][0] == s[i];
    }
  }

  /** `_EXP_BARE` leaves no `^` directly before a letter or digit, */
  lemma ExpBareClears(s: string)
    ensures Clears(s, ExpBareMatch, IsCaret, IsAsciiAlnum)
  {
    forall i | 0 <= i < |s| ensures SafeAt(s, i, ExpBareMatch, IsCaret, IsAsciiAlnum) {
      assert s[i..][0] == s[i];
    }
  }

  /** and adds none after a `_`. */
  lemma ExpBareKeeps(s: string)
    requires NoPair(s, IsUnderscore, IsAsciiAlnum)
    ensures Clears(s, ExpBareMatch, IsUnderscore, IsAsciiAlnum)
  {
    forall i | 0 <= i < |s| ensures SafeAt(s, i, ExpBareMatch, IsUnderscore, IsAsciiAlnum) {
      assert s[i..][0] == s[i];
    }
  }

  /** `_BRACK_GROUP` puts a bracket's content between parentheses, so it adds no
      letter or digit after a marker that is not a parenthesis. */
  lemma BrackKeeps(s: string, marker: char -> bool)
    requires !marker('(') && !marker(')') && NoPair(s, marker, IsAsciiAlnum)
    ensures Clears(s, BrackMatch, marker, IsAsciiAlnum)
  {
    forall i | 0 <= i < |s| ensures SafeAt(s, i, BrackMatch, marker, IsAsciiAlnum) {
      match BrackMatch(s[i..])
      case NoMatch =>
      case Match(k, rep) =>
        NoPairSlice(s, marker, IsAsciiAlnum, i + 1, i + k - 1);
        assert s[i..][1..k - 1] == s[i + 1..i + k - 1];
        NoPairConcat("(", s[i + 1..i + k - 1], marker, IsAsciiAlnum);
        NoPairConcat("(" + s[i + 1..i + k - 1], ")", marker, IsAsciiAlnum);
    }
  }

  /** `\s+` becomes one space, which is neither a marker nor a letter or digit. */
  lemma SpaceRunKeeps(s: string, marker: char -> bool)
    requires !marker(' ') && NoPair(s, marker, IsAsciiAlnum)
    ensures Clears(s, SpaceRunMatch, marker, IsAsciiAlnum)
  {
  }

  /** After `\s+` is collapsed no two whitespace characters are adjacent: a run is
      replaced whole, and what follows it is not whitespace. */
  lemma SpaceRunClears(s: string)
    ensures Clears(s, SpaceRunMatch, IsSpace, IsSpace)
  {
    forall i | 0 <= i < |s| ensures SafeAt(s, i, SpaceRunMatch, IsSpace, IsSpace) {
      assert s[i..][0] == s[i];
      match SpaceRunMatch(s[i..])
      case NoMatch =>
      case Match(k, rep) =>
        if i + k < |s| {
          assert s[i + k..][0] == s[i..][k];
        }
        if 0 < i {
          assert s[i - 1..][0] == s[i - 1];
        }
    }
  }

  // ---------------------------------------------------------------------------
  // The pipeline
  // ---------------------------------------------------------------------------

  /** The first four substitutions of `_normalize_for_parsers`: spacing commands,
      `\left`, `\right` and `&` are deleted. */
  function StripMarkup(raw: string): (r: string)
    ensures '&' !in r
  {
    var s3 := ReSub(ReSub(ReSub(raw, SpacingMatch), LeftMatch), RightMatch);
    AmpGone(s3);
    ReSub(s3, AmpMatch)
  }

  /** The last four: bare subscripts and exponents braced, innermost square brackets
      made parentheses, whitespace runs collapsed to one space. */
  function BraceAndCollapse(s: string): string {
    ReSub(ReSub(ReSub(ReSub(s, SubBareMatch), ExpBareMatch), BrackMatch), SpaceRunMatch)
  }

  /** `_normalize_for_parsers`: the rules in the source's order, then `strip()`. */
  function NormalizeForParsers(raw: string): string {
    Strip(BraceAndCollapse(Dots(TextSubscripts(StripMarkup(raw)))))
  }

  lemma BraceAndCollapsePairs(s6: string)
    ensures var s10 := BraceAndCollapse(s6);
      NoPair(s10, IsSpace, IsSpace)
      && NoPair(s10, IsUnderscore, IsAsciiAlnum)
      && NoPair(s10, IsCaret, IsAsciiAlnum)
  {
    var s7 := ReSub(s6, SubBareMatch);
    var s8 := ReSub(s7, ExpBareMatch);
    var s9 := ReSub(s8, BrackMatch);
    SubBareClears(s6);
    ReSubNoPair(s6, SubBareMatch, IsUnderscore, IsAsciiAlnum);
    ExpBareKeeps(s7);
    ReSubNoPair(s7, ExpBareMatch, IsUnderscore, IsAsciiAlnum);
    ExpBareClears(s7);
    ReSubNoPair(s7, ExpBareMatch, IsCaret, IsAsciiAlnum);
    BrackKeeps(s8, IsUnderscore);
    ReSubNoPair(s8, BrackMatch, IsUnderscore, IsAsciiAlnum);
    BrackKeeps(s8, IsCaret);
    ReSubNoPair(s8, BrackMatch, IsCaret, IsAsciiAlnum);
    SpaceRunKeeps(s9, IsUnderscore);
    ReSubNoPair(s9, SpaceRunMatch, IsUnderscore, IsAsciiAlnum);
    SpaceRunKeeps(s9, IsCaret);
    ReSubNoPair(s9, SpaceRunMatch, IsCaret, IsAsciiAlnum);
    SpaceRunClears(s9);
    ReSubNoPair(s9, SpaceRunMatch, IsSpace, IsSpace);
  }

  /** The characters each rule after the comma rule may write. */
  lemma LaterRulesDraw()
    ensures DrawsFrom(DotMatch, "dot") && DrawsFrom(SubBareMatch, "_{}")
      && DrawsFrom(ExpBareMatch, "^{}") && DrawsFrom(BrackMatch, "()")
      && DrawsFrom(SpaceRunMatch, " ")
  {
  }

  /** No rule after the removal of `&` writes an `&`. */
  lemma NoAmpAfter(s5: string)
    requires '&' !in s5
    ensures '&' !in BraceAndCollapse(Dots(s5))
  {
    LaterRulesDraw();
    var s6 := Dots(s5);
    ReSubAvoids(s5, DotMatch, "dot", '&');
    var s7 := ReSub(s6, SubBareMatch);
    ReSubAvoids(s6, SubBareMatch, "_{}", '&');
    var s8 := ReSub(s7, ExpBareMatch);
    ReSubAvoids(s7, ExpBareMatch, "^{}", '&');
    var s9 := ReSub(s8, BrackMatch);
    ReSubAvoids(s8, BrackMatch, "()", '&');
    ReSubAvoids(s9, SpaceRunMatch, " ", '&');
  }

  /** `strip()` keeps what is said of forbidden neighbours and of absent characters. */
  lemma StripKeeps(s: string, p: char -> bool, q: char -> bool)
    requires NoPair(s, p, q)
    ensures NoPair(Strip(s), p, q)
    ensures forall c :: c in Strip(s) ==> c in s
  {
    var a := Span(s, IsSpace);
    var r := Strip(s);
    NoPairSlice(s, p, q, a, a + |r|);
    SliceChars(s, a, a + |r|);
  }

  /** What the normaliser guarantees of its output: no `&`; no whitespace at either end;
      no two whitespace characters in a row; no `_` or `^` directly before an ASCII
      letter or digit. */
  lemma NormalizedForm(raw: string)
    ensures var r := NormalizeForParsers(raw);
      '&' !in r
      && (r == [] || (!IsSpace(r[0]) && !IsSpace(r[|r| - 1])))
      && NoPair(r, IsSpace, IsSpace)
      && NoPair(r, IsUnderscore, IsAsciiAlnum)
      && NoPair(r, IsCaret, IsAsciiAlnum)
  {
    var s5 := TextSubscripts(StripMarkup(raw));
    var s10 := BraceAndCollapse(Dots(s5));
    NoAmpAfter(s5);
    BraceAndCollapsePairs(Dots(s5));
    StripKeeps(s10, IsSpace, IsSpace);
    StripKeeps(s10, IsUnderscore, IsAsciiAlnum);
    StripKeeps(s10, IsCaret, IsAsciiAlnum);
  }

  /** After `_normalize_text_subscripts` no brace-free `_{…,…}` subscript is left. */
  lemma NoCommaSubscriptLeft(s: string)
    ensures var r := TextSubscripts(s);
      forall k :: 0 <= k < |r| ==> !CommaSubscriptAt(r[k..])
  {
    var r := TextSubscripts(s);
    forall k | 0 <= k < |r| ensures !CommaSubscriptAt(r[k..]) {
      CommaSubMatchIff(r[k..]);
    }
  }

  /** Which character each rule needs before it can match. */
  lemma MarkupRulesNeed()
    ensures NeedsChar(SpacingMatch, '\\') && NeedsChar(LeftMatch, '\\') && NeedsChar(RightMatch, '\\')
      && NeedsChar(AmpMatch, '&') && NeedsChar(DotMatch, '\\')
  {
    forall t | SpacingMatch(t).Match? || LeftMatch(t).Match? || RightMatch(t).Match? || DotMatch(t).Match?
      ensures '\\' in t
    {
      assert t[0] == '\\';
    }
  }

  lemma SubscriptRulesNeed()
    ensures NeedsChar(ParenTextSubMatch, '_') && NeedsChar(ParenSubMatch, '_')
      && NeedsChar(TextSubMatch, '_') && NeedsChar(MathrmSubMatch, '_')
      && NeedsChar(CommaSubMatch, '_') && NeedsChar(SubBareMatch, '_') && NeedsChar(ExpBareMatch, '^')
  {
    forall t | TextSubMatch(t).Match? || MathrmSubMatch(t).Match? || CommaSubMatch(t).Match? || SubBareMatch(t).Match?
      ensures '_' in t
    {
      assert t[0] == '_';
    }
    forall t | ParenTextSubMatch(t).Match? || ParenSubMatch(t).Match? ensures '_' in t {
      var d := ParenBase(t).value.2;
      assert t[d + 1..][0] == '_';
      assert t[d + 1] == '_';
    }
    forall t | ExpBareMatch(t).Match? ensures '^' in t {
      assert t[0] == '^';
    }
  }

  /** Other characters each subscript rule and the bracket rule need. */
  lemma OpeningRulesNeed()
    ensures NeedsChar(ParenTextSubMatch, '(') && NeedsChar(ParenSubMatch, '(')
      && NeedsChar(TextSubMatch, '\\') && NeedsChar(MathrmSubMatch, '\\')
      && NeedsChar(CommaSubMatch, ',') && NeedsChar(BrackMatch, '[')
  {
    ParenRulesNeed();
    forall t | TextSubMatch(t).Match? || MathrmSubMatch(t).Match? ensures '\\' in t {
      assert t[2] == '\\';
    }
    forall t | CommaSubMatch(t).Match? ensures ',' in t {
      var (n, c) := CommaSite(t).value;
      assert t[2 + c] == ',';
    }
    forall t | BrackMatch(t).Match? ensures '[' in t {
      assert t[0] == '[';
    }
  }

  lemma ParenRulesNeed()
    ensures NeedsChar(ParenTextSubMatch, '(') && NeedsChar(ParenSubMatch, '(')
  {
    forall t | ParenTextSubMatch(t).Match? || ParenSubMatch(t).Match? ensures '(' in t {
      assert ParenBase(t).Some?;
      assert t[0] == '(';
    }
  }

  /** The `_` at `s[k]`, if there is one, is followed by `{`. */
  predicate OpensBrace(s: string, k: nat)
    requires k < |s|
  {
    s[k] == '_' ==> k + 1 < |s| && s[k + 1] == '{'
  }

  lemma SubBareNeeds(t: string, c0: char, c1: char)
    requires |t| > 0 && t[0] == c0 && (|t| > 1 ==> t[1] == c1)
    requires c0 == '_' ==> |t| > 1 && c1 == '{'
    ensures SubBareMatch(t).NoMatch?
  {
  }

  /** No bare subscript in text whose every `_` opens a brace. */
  lemma SubBareIdle(s: string)
    requires forall k :: 0 <= k < |s| ==> OpensBrace(s, k)
    ensures ReSub(s, SubBareMatch) == s
  {
    assert Unmatched(s, SubBareMatch) by {
      forall k | 0 <= k < |s| ensures SubBareMatch(s[k..]).NoMatch? {
        assert OpensBrace(s, k);
        SubBareNeeds(s[k..], s[k], if k + 1 < |s| then s[k + 1] else 'x');
      }
    }
    ReSubUnmatched(s, SubBareMatch);
  }

  /** Text that no rule applies to: no backslash, `&`, `(`, `,`, `^`, `[` or whitespace,
      and every `_` followed by `{`. The normaliser gives it back unchanged. */
  lemma NormalizeKeeps(s: string)
    requires '\\' !in s && '&' !in s && '(' !in s && ',' !in s && '^' !in s && '[' !in s
    requires forall i :: 0 <= i < |s| ==> !IsSpace(s[i])
    requires forall k :: 0 <= k < |s| ==> OpensBrace(s, k)
    ensures NormalizeForParsers(s) == s
  {
    MarkupRulesNeed();
    SubscriptRulesNeed();
    OpeningRulesNeed();
    assert StripMarkup(s) == s by {
      ReSubIdle(s, SpacingMatch, '\\');
      ReSubIdle(s, LeftMatch, '\\');
      ReSubIdle(s, RightMatch, '\\');
      ReSubIdle(s, AmpMatch, '&');
    }
    assert TextSubscripts(s) == s by {
      ReSubIdle(s, ParenTextSubMatch, '(');
      ReSubIdle(s, ParenSubMatch, '(');
      ReSubIdle(s, TextSubMatch, '\\');
      ReSubIdle(s, MathrmSubMatch, '\\');
      ReSubIdle(s, CommaSubMatch, ',');
    }
    assert Dots(s) == s by {
      ReSubIdle(s, DotMatch, '\\');
    }
    assert BraceAndCollapse(s) == ReSub(s, SpaceRunMatch) by {
      SubBareIdle(s);
      ReSubIdle(s, ExpBareMatch, '^');
      ReSubIdle(s, BrackMatch, '[');
    }
    NoSpaceIdle(s);
  }

  /** On text without backslash, `&` or `_` the rules before the bare scripts change nothing. */
  lemma EarlyRulesIdle(s: string)
    requires '\\' !in s && '&' !in s && '_' !in s
    ensures Dots(TextSubscripts(StripMarkup(s))) == s
  {
    MarkupRulesNeed();
    SubscriptRulesNeed();
    ReSubIdle(s, SpacingMatch, '\\');
    ReSubIdle(s, LeftMatch, '\\');
    ReSubIdle(s, RightMatch, '\\');
    ReSubIdle(s, AmpMatch, '&');
    ReSubIdle(s, ParenTextSubMatch, '_');
    ReSubIdle(s, ParenSubMatch, '_');
    ReSubIdle(s, TextSubMatch, '_');
    ReSubIdle(s, MathrmSubMatch, '_');
    ReSubIdle(s, CommaSubMatch, '_');
    ReSubIdle(s, DotMatch, '\\');
  }

  /** On text without backslash, `&`, `_` or `^` only the bracket and whitespace rules act. */
  lemma PlainText(s: string)
    requires '\\' !in s && '&' !in s && '_' !in s && '^' !in s
    ensures NormalizeForParsers(s) == Strip(ReSub(ReSub(s, BrackMatch), SpaceRunMatch))
  {
    EarlyRulesIdle(s);
    SubscriptRulesNeed();
    ReSubIdle(s, SubBareMatch, '_');
    ReSubIdle(s, ExpBareMatch, '^');
  }

  /** Text without whitespace is left alone by the whitespace rule and by `strip()`. */
  lemma NoSpaceIdle(s: string)
    requires forall i :: 0 <= i < |s| ==> !IsSpace(s[i])
    ensures Strip(ReSub(s, SpaceRunMatch)) == s
  {
    forall k | 0 <= k < |s| ensures SpaceRunMatch(s[k..]).NoMatch? {
      assert s[k..][0] == s[k];
    }
    ReSubUnmatched(s, SpaceRunMatch);
    StripKeepsTrimmed(s);
  }

  /** The texts of the example below hold no whitespace. */
  lemma ExampleHasNoSpace(c: char)
    requires IsAsciiLetter(c)
    ensures forall i :: 0 <= i < 5 ==> !IsSpace(['[', '(', c, ')', ']'][i])
    ensures forall i :: 0 <= i < 5 ==> !IsSpace(['(', '(', c, ')', ')'][i])
  {
  }

  /** `_BRACK_GROUP` on `[[c]]` and on `[(c)]`: only a bracket with no bracket inside
      is rewritten. */
  lemma BrackInnermost(c: char)
    requires IsAsciiLetter(c)
    ensures ReSub(['[', '[', c, ']', ']'], BrackMatch) == ['[', '(', c, ')', ']']
    ensures ReSub(['[', '(', c, ')', ']'], BrackMatch) == ['(', '(', c, ')', ')']
  {
    BrackNested(c);
    BrackOuter(c);
  }

  lemma BrackNested(c: char)
    requires IsAsciiLetter(c)
    ensures ReSub(['[', '[', c, ']', ']'], BrackMatch) == ['[', '(', c, ')', ']']
  {
    var nested: string := ['[', '[', c, ']', ']'];
    assert Span(nested[1..], NotSquare) == 0;
    assert BrackMatch(nested) == NoMatch;
    var inner := nested[1..];
    assert Span(inner[1..], NotSquare) == 1 by {
      assert inner[1..][1..] == [']', ']'];
    }
    assert BrackMatch(inner) == Match(3, ['(', c, ')']);
    assert inner[3..] == [']'];
    assert ReSub([']'], BrackMatch) == [']'];
  }

  lemma BrackOuter(c: char)
    requires IsAsciiLetter(c)
    ensures ReSub(['[', '(', c, ')', ']'], BrackMatch) == ['(', '(', c, ')', ')']
  {
    var outer: string := ['[', '(', c, ')', ']'];
    assert Span([')', ']'], NotSquare) == 1 by {
      assert [')', ']'][1..] == [']'];
    }
    assert Span([c, ')', ']'], NotSquare) == 2 by {
      assert [c, ')', ']'][1..] == [')', ']'];
    }
    assert Span(['(', c, ')', ']'], NotSquare) == 3 by {
      assert ['(', c, ')', ']'][1..] == [c, ')', ']'];
    }
    assert outer[1..] == ['(', c, ')', ']'];
    assert BrackMatch(outer) == Match(5, ['(', '(', c, ')', ')']);
    assert outer[5..] == [];
  }

  /** The normaliser is not idempotent: `_BRACK_GROUP` rewrites only innermost brackets,
      so `[[c]]` becomes `[(c)]` on one pass, and `((c))` on the next. */
  lemma NotIdempotent(c: char)
    requires IsAsciiLetter(c)
    ensures NormalizeForParsers(['[', '[', c, ']', ']']) == ['[', '(', c, ')', ']']
    ensures NormalizeForParsers(['[', '(', c, ')', ']']) == ['(', '(', c, ')', ')']
  {
    BracketPasses(c);
    ExampleHasNoSpace(c);
    NoSpaceIdle(['[', '(', c, ')', ']']);
    NoSpaceIdle(['(', '(', c, ')', ')']);
  }

  lemma BracketPasses(c: char)
    requires IsAsciiLetter(c)
    ensures NormalizeForParsers(['[', '[', c, ']', ']']) == Strip(ReSub(['[', '(', c, ')', ']'], SpaceRunMatch))
    ensures NormalizeForParsers(['[', '(', c, ')', ']']) == Strip(ReSub(['(', '(', c, ')', ')'], SpaceRunMatch))
  {
    PlainText(['[', '[', c, ']', ']']);
    PlainText(['[', '(', c, ')', ']']);
    BrackInnermost(c);
  }
}
