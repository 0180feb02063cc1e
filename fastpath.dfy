/** The fast path of core_eqs.py (`_latex_name_to_symbol`, `_fast_path_expr`): plain
    names and ratios of names are turned into expressions without calling a LaTeX
    parser. */
module FastPath {
  import opened Results
  import opened Text
  import opened Algebra

  /** `_SIMPLE_NAME_RE`, `^[A-Za-z][A-Za-z0-9_]*$`. */
  predicate IsSimpleName(s: string) {
    |s| > 0 && IsAsciiLetter(s[0])
    && forall i :: 1 <= i < |s| ==> IsAsciiAlnum(s[i]) || s[i] == '_'
  }

  /** `str.isalpha()`: non-empty and all letters (ASCII letters here). */
  predicate IsAlpha(s: string) {
    |s| > 0 && forall i :: 0 <= i < |s| ==> IsAsciiLetter(s[i])
  }

  /** `re.sub(r'\s+', '', s)`: every whitespace character removed. */
  function DropSpaces(s: string): (r: string)
    ensures forall i :: 0 <= i < |r| ==> !IsSpace(r[i])
    ensures forall c :: c in r ==> c in s
    decreases |s|
  {
    if s == [] then []
    else if IsSpace(s[0]) then DropSpaces(s[1..])
    else [s[0]] + DropSpaces(s[1..])
  }

  lemma {:induction false} DropSpacesIdle(s: string)
    requires forall i :: 0 <= i < |s| ==> !IsSpace(s[i])
    ensures DropSpaces(s) == s
    decreases |s|
  {
    if s != [] {
      DropSpacesIdle(s[1..]);
      assert [s[0]] + s[1..] == s;
    }
  }

  /** `s[1:]` when `s` is a backslash followed by letters only (`\epsilon`), else `s`. */
  function DropEscape(t: string): string {
    if |t| > 0 && t[0] == '\\' && IsAlpha(t[1..]) then t[1..] else t
  }

  /** Braces removed, then `\mathrm` and `\text` in that order, then all whitespace. */
  function Clean(u: string): string {
    Tidy(Remove(Remove(u, "{"), "}"))
  }

  function Tidy(v: string): string {
    DropSpaces(Remove(Remove(v, "\\mathrm"), "\\text"))
  }

  /** The text `_latex_name_to_symbol` tests. */
  function NameText(s: string): string {
    Clean(DropEscape(Strip(s)))
  }

  /** `_latex_name_to_symbol`, giving the symbol's name. */
  function LatexName(s: string): (r: Option<string>)
    ensures r.Some? ==> IsSimpleName(r.value)
  {
    var n := NameText(s);
    if IsSimpleName(n) then Some(n) else None
  }

  /** Text with no backslash or whitespace is left as it is by the last removals. */
  lemma TidyPlain(s: string)
    requires '\\' !in s
    requires forall i :: 0 <= i < |s| ==> !IsSpace(s[i])
    ensures Tidy(s) == s
  {
    assert Remove(s, "\\mathrm") == s by {
      RemoveAbsent(s, "\\mathrm");
    }
    assert Remove(s, "\\text") == s by {
      RemoveAbsent(s, "\\text");
    }
    assert DropSpaces(s) == s by {
      DropSpacesIdle(s);
    }
  }

  /** Text with no brace, backslash or whitespace is left as it is by the cleaning. */
  lemma CleanPlain(s: string)
    requires '{' !in s && '}' !in s && '\\' !in s
    requires forall i :: 0 <= i < |s| ==> !IsSpace(s[i])
    ensures Clean(s) == s
  {
    assert Remove(s, "{") == s by {
      RemoveAbsent(s, "{");
    }
    assert Remove(s, "}") == s by {
      RemoveAbsent(s, "}");
    }
    TidyPlain(s);
  }

  /** Text with no brace, backslash or whitespace is its own name text. */
  lemma NameTextPlain(s: string)
    requires '{' !in s && '}' !in s && '\\' !in s
    requires forall i :: 0 <= i < |s| ==> !IsSpace(s[i])
    ensures NameText(s) == s
  {
    assert Strip(s) == s by {
      StripKeepsTrimmed(s);
    }
    CleanPlain(s);
  }

  /** The characters of a simple name. */
  lemma SimpleNameChars(s: string)
    requires IsSimpleName(s)
    ensures '{' !in s && '}' !in s && '\\' !in s && '/' !in s && '(' !in s && ')' !in s
    ensures forall i :: 0 <= i < |s| ==> !IsSpace(s[i])
  {
    forall i | 0 <= i < |s| ensures IsAsciiAlnum(s[i]) || s[i] == '_' {
    }
  }

  /** A simple name is a name of itself. */
  lemma SimpleNameIsName(s: string)
    requires IsSimpleName(s)
    ensures LatexName(s) == Some(s)
  {
    SimpleNameChars(s);
    NameTextPlain(s);
  }

  /** The brace removals turn `a_{b}` and `a_{b` into `a_b`. */
  lemma BracesRemoved(a: string, b: string, close: string)
    requires '{' !in a && '}' !in a && '{' !in b && '}' !in b
    requires close == "}" || close == ""
    ensures Remove(Remove(a + "_{" + b + close, "{"), "}") == a + "_" + b
  {
    var n := a + "_" + b;
    var x1, x2 := a + "_", "{" + (b + close);
    assert a + "_{" + b + close == x1 + x2;
    assert Remove(x1 + x2, "{") == Remove(x1, "{") + Remove(x2, "{") by {
      RemoveCharConcat(x1, x2, '{');
    }
    assert Remove(x1, "{") == x1 by {
      RemoveAbsent(x1, "{");
    }
    assert Remove(x2, "{") == b + close by {
      assert x2[1..] == b + close;
      RemoveAbsent(b + close, "{");
    }
    assert x1 + (b + close) == n + close;
    assert Remove(n + close, "}") == n by {
      RemoveCharConcat(n, close, '}');
      RemoveAbsent(n, "}");
    }
  }

  /** Text that starts with a letter and has no whitespace is cleaned as it is. */
  lemma NameTextLetterFirst(s: string)
    requires |s| > 0 && IsAsciiLetter(s[0])
    requires forall i :: 0 <= i < |s| ==> !IsSpace(s[i])
    ensures NameText(s) == Clean(s)
  {
    assert Strip(s) == s by {
      StripKeepsTrimmed(s);
    }
  }

  /** A name with a subscript, `a_{b}`, is the name `a_b`; so is `a_{b` with the
      closing brace missing. */
  lemma SubscriptName(a: string, b: string, close: string)
    requires IsSimpleName(a) && IsSimpleName("x" + b)
    requires close == "}" || close == ""
    ensures LatexName(a + "_{" + b + close) == Some(a + "_" + b)
  {
    SubscriptNameOf(a, b, close, a + "_{" + b + close, a + "_" + b);
  }

  /** `SubscriptName`, on the texts named as wholes. */
  lemma SubscriptNameOf(a: string, b: string, close: string, s: string, n: string)
    requires IsSimpleName(a) && IsSimpleName("x" + b)
    requires close == "}" || close == ""
    requires s == a + "_{" + b + close && n == a + "_" + b
    ensures LatexName(s) == Some(n)
  {
    assert IsSimpleName(n) by {
      SubscriptSimple(a, b, n);
    }
    assert NameText(s) == Clean(s) by {
      SubscriptNoSpace(a, b, close, s);
      NameTextLetterFirst(s);
    }
    assert Clean(s) == n by {
      SimpleNameChars(a);
      SubscriptChars(b);
      BracesRemoved(a, b, close);
      SimpleNameChars(n);
      TidyPlain(n);
    }
  }

  /** A subscript's name joined to a name by `_` is a name. */
  lemma SubscriptSimple(a: string, b: string, n: string)
    requires IsSimpleName(a) && IsSimpleName("x" + b)
    requires n == a + "_" + b
    ensures IsSimpleName(n)
  {
    forall i | 1 <= i < |n| ensures IsAsciiAlnum(n[i]) || n[i] == '_' {
      if |a| < i {
        assert n[i] == ("x" + b)[i - |a|];
      }
    }
  }

  /** No character of a subscripted name is whitespace. */
  lemma SubscriptNoSpace(a: string, b: string, close: string, s: string)
    requires IsSimpleName(a) && IsSimpleName("x" + b)
    requires close == "}" || close == ""
    requires s == a + "_{" + b + close
    ensures forall i :: 0 <= i < |s| ==> !IsSpace(s[i])
  {
    SimpleNameChars(a);
    SimpleNameChars("x" + b);
    forall i | 0 <= i < |s| ensures !IsSpace(s[i]) {
      if |a| + 2 <= i < |a| + 2 + |b| {
        assert s[i] == ("x" + b)[i - |a| - 1];
      }
    }
  }

  /** A subscript that would be a name after a letter has no brace. */
  lemma SubscriptChars(b: string)
    requires IsSimpleName("x" + b)
    ensures '{' !in b && '}' !in b
  {
    SimpleNameChars("x" + b);
    assert ("x" + b)[1..] == b;
  }

  /** `\epsilon`: a backslash followed by letters names the letters. */
  lemma GreekName(a: string)
    requires IsAlpha(a)
    ensures LatexName("\\" + a) == Some(a)
  {
    var s := "\\" + a;
    assert IsSimpleName(a);
    assert NameText(s) == Clean(a) by {
      assert Strip(s) == s by {
        assert !IsSpace(s[0]) && s[|s| - 1] == a[|a| - 1];
        StripKeepsTrimmed(s);
      }
      assert s[1..] == a;
    }
    assert Clean(a) == a by {
      SimpleNameChars(a);
      CleanPlain(a);
    }
  }

  /** The names listed as admitted by `_latex_name_to_symbol`. */
  lemma AdmittedWdot()
    ensures LatexName("Wdot") == Some("Wdot")
  {
    SimpleNameIsName("Wdot");
  }

  lemma AdmittedPt()
    ensures LatexName("p_{t}") == Some("p_t")
  {
    AdmittedSubscript("p", "t", "p_{t}", "p_t");
  }

  lemma AdmittedPcns()
    ensures LatexName("p_{cns}") == Some("p_cns")
  {
    AdmittedSubscript("p", "cns", "p_{cns}", "p_cns");
  }

  lemma AdmittedVx()
    ensures LatexName("v_{x}") == Some("v_x")
  {
    AdmittedSubscript("v", "x", "v_{x}", "v_x");
  }

  lemma AdmittedEpsilon()
    ensures LatexName("\\epsilon") == Some("epsilon")
  {
    GreekName("epsilon");
  }

  lemma AdmittedSubscript(a: string, b: string, s: string, n: string)
    requires IsSimpleName(a) && IsSimpleName("x" + b)
    requires s == a + "_{" + b + "}" && n == a + "_" + b
    ensures LatexName(s) == Some(n)
  {
    SubscriptName(a, b, "}");
  }

  // ---------------------------------------------------------------------------
  // Characters that survive the cleaning
  // ---------------------------------------------------------------------------

  lemma {:induction false} RemoveKeeps(s: string, pat: string, c: char)
    requires |pat| > 0 && c in s && c !in pat
    ensures c in Remove(s, pat)
    decreases |s|
  {
    if pat <= s {
      var i :| 0 <= i < |s| && s[i] == c;
      assert forall j :: 0 <= j < |pat| ==> s[j] == pat[j] && pat[j] in pat;
      assert i >= |pat|;
      assert s[|pat|..][i - |pat|] == c;
      RemoveKeeps(s[|pat|..], pat, c);
    } else if s[0] != c {
      var i :| 0 <= i < |s| && s[i] == c;
      assert s[1..][i - 1] == c;
      RemoveKeeps(s[1..], pat, c);
    }
  }

  lemma {:induction false} DropSpacesKeeps(s: string, c: char)
    requires c in s && !IsSpace(c)
    ensures c in DropSpaces(s)
    decreases |s|
  {
    if s[0] != c {
      var i :| 0 <= i < |s| && s[i] == c;
      assert s[1..][i - 1] == c;
      DropSpacesKeeps(s[1..], c);
    }
  }

  /** A visible character that is no part of a brace, `\mathrm` or `\text` survives. */
  lemma CleanKeeps(u: string, c: char)
    requires c in u && !IsSpace(c)
    requires c !in "{}" && c !in "\\mathrm" && c !in "\\text"
    ensures c in Clean(u)
  {
    RemoveKeeps(u, "{", c);
    RemoveKeeps(Remove(u, "{"), "}", c);
    var v := Remove(Remove(u, "{"), "}");
    RemoveKeeps(v, "\\mathrm", c);
    RemoveKeeps(Remove(v, "\\mathrm"), "\\text", c);
    DropSpacesKeeps(Remove(Remove(v, "\\mathrm"), "\\text"), c);
  }

  /** The characters that rule a name out are none of those that cleaning removes. */
  lemma PunctuationKept(c: char)
    requires c in "()/+"
    ensures !IsSpace(c)
    ensures c !in "{}" && c !in "\\mathrm" && c !in "\\text"
  {
    assert c == '(' || c == ')' || c == '/' || c == '+';
  }

  /** Trimmed text that does not start with a backslash and holds a character no
      simple name has is not a name. */
  lemma NotNameBy(t: string, c: char)
    requires |t| > 0 && !IsSpace(t[0]) && !IsSpace(t[|t| - 1]) && t[0] != '\\'
    requires c in t && c in "()/+"
    ensures LatexName(t) == None
  {
    assert Strip(t) == t by {
      StripKeepsTrimmed(t);
    }
    assert DropEscape(t) == t;
    var n := NameText(t);
    assert c in n by {
      PunctuationKept(c);
      CleanKeeps(t, c);
    }
    if IsSimpleName(n) {
      SimpleNameChars(n);
    }
  }

  /** `pat` (of two or more characters) cannot start at `x[k]`, whatever follows `x`. */
  predicate CannotStart(x: string, k: nat, pat: string)
    requires k < |x| && |pat| > 1
  {
    x[k] != pat[0] || (k + 1 < |x| && x[k + 1] != pat[1])
  }

  /** Removing a pattern that cannot start inside `x` leaves `x` in front. */
  lemma {:induction false} RemoveFrontKept(x: string, y: string, pat: string)
    requires |pat| > 1
    requires forall k :: 0 <= k < |x| ==> CannotStart(x, k, pat)
    ensures Remove(x + y, pat) == x + Remove(y, pat)
    decreases |x|
  {
    if x != [] {
      assert CannotStart(x, 0, pat);
      assert !(pat <= x + y) by {
        assert (x + y)[0] == x[0];
        if x[0] == pat[0] {
          assert (x + y)[1] == x[1];
        }
      }
      assert (x + y)[1..] == x[1..] + y;
      forall k | 0 <= k < |x| - 1 ensures CannotStart(x[1..], k, pat) {
        assert CannotStart(x, k + 1, pat);
      }
      RemoveFrontKept(x[1..], y, pat);
      assert [x[0]] + x[1..] == x;
    } else {
      assert x + y == y;
    }
  }

  lemma {:induction false} DropSpacesConcat(x: string, y: string)
    ensures DropSpaces(x + y) == DropSpaces(x) + DropSpaces(y)
    decreases |x|
  {
    if x != [] {
      assert (x + y)[1..] == x[1..] + y;
      DropSpacesConcat(x[1..], y);
    } else {
      assert x + y == y;
    }
  }

  const FracHead := "\\frac"

  /** The cleaning leaves the `\frac` of a fraction in front. */
  lemma FracHeadKept(y: string)
    ensures Clean(FracHead + y) == FracHead + Clean(y)
  {
    var p := FracHead;
    var y2 := Remove(Remove(y, "{"), "}");
    assert Remove(Remove(p + y, "{"), "}") == p + y2 by {
      BracesFront(p, y);
    }
    assert Tidy(p + y2) == p + Tidy(y2) by {
      assert forall k :: 0 <= k < |p| ==> !IsSpace(p[k]);
      assert forall k :: 0 <= k < |p| ==> CannotStart(p, k, "\\mathrm") && CannotStart(p, k, "\\text");
      TidyFront(p, y2);
    }
  }

  /** The last removals leave a front alone in which neither command can start. */
  lemma TidyFront(p: string, z: string)
    requires forall k :: 0 <= k < |p| ==> !IsSpace(p[k])
    requires forall k :: 0 <= k < |p| ==> CannotStart(p, k, "\\mathrm") && CannotStart(p, k, "\\text")
    ensures Tidy(p + z) == p + Tidy(z)
  {
    var z3 := Remove(z, "\\mathrm");
    RemoveFrontKept(p, z, "\\mathrm");
    RemoveFrontKept(p, z3, "\\text");
    var z4 := Remove(z3, "\\text");
    DropSpacesConcat(p, z4);
    DropSpacesIdle(p);
  }

  /** The brace removals leave a brace-free front alone. */
  lemma BracesFront(p: string, y: string)
    requires '{' !in p && '}' !in p
    ensures Remove(Remove(p + y, "{"), "}") == p + Remove(Remove(y, "{"), "}")
  {
    RemoveCharConcat(p, y, '{');
    RemoveAbsent(p, "{");
    RemoveCharConcat(p, Remove(y, "{"), '}');
    RemoveAbsent(p, "}");
  }

  /** A fraction is not a name: its cleaned text starts with a backslash. */
  lemma FracNotName(y: string)
    requires |y| > 0 && !IsAsciiLetter(y[0]) && !IsSpace(y[|y| - 1])
    ensures LatexName(FracHead + y) == None
  {
    var t := FracHead + y;
    assert NameText(t) == FracHead + Clean(y) by {
      assert Strip(t) == t by {
        StripKeepsTrimmed(t);
      }
      assert !IsAlpha(t[1..]) by {
        assert t[1..][4] == y[0];
      }
      assert DropEscape(t) == t;
      FracHeadKept(y);
    }
    EscapedNotName(t);
  }

  /** Text that is still escaped once cleaned is not a name. */
  lemma EscapedNotName(s: string)
    requires |NameText(s)| > 0 && NameText(s)[0] == '\\'
    ensures LatexName(s) == None
  {
  }

  // ---------------------------------------------------------------------------
  // The other recognisers of `_fast_path_expr`
  // ---------------------------------------------------------------------------

  const FracOpen := "\\frac{"

  /** `re.match(r'^\\frac\{([^{}]+)\}\{([^{}]+)\}$', t)` on stripped `t` (so `$` is the
      end of the text): its two groups. */
  function FracParts(t: string): (r: Option<(string, string)>)
    ensures r.Some? ==> t == FracOpen + r.value.0 + "}{" + r.value.1 + "}"
    ensures r.Some? ==> r.value.0 != [] && r.value.1 != []
    ensures r.Some? ==> forall i :: 0 <= i < |r.value.0| ==> NotBrace(r.value.0[i])
    ensures r.Some? ==> forall i :: 0 <= i < |r.value.1| ==> NotBrace(r.value.1[i])
  {
    if !(FracOpen <= t) then None
    else
      var u := t[6..];
      var n := Span(u, NotBrace);
      if n == 0 || n + 2 > |u| || u[n] != '}' || u[n + 1] != '{' then None
      else
        var v := u[n + 2..];
        var k := Span(v, NotBrace);
        if k == 0 || k + 1 != |v| || v[k] != '}' then None
        else
          FracPieces(t, u, n, v, k);
          Some((u[..n], v[..k]))
  }

  /** How a text that `FracParts` accepts is laid out around its two groups. */
  lemma FracPieces(t: string, u: string, n: nat, v: string, k: nat)
    requires FracOpen <= t && u == t[6..]
    requires n + 2 <= |u| && u[n] == '}' && u[n + 1] == '{' && v == u[n + 2..]
    requires k + 1 == |v| && v[k] == '}'
    ensures t == FracOpen + u[..n] + "}{" + v[..k] + "}"
  {
    var a := u[..n];
    var b := v[..k];
    assert t == FracOpen + u by {
      HeadRest(t, FracOpen);
    }
    assert u == a + "}{" + v by {
      assert u[n..n + 2] == "}{";
      assert u == a + u[n..n + 2] + v;
    }
    assert v == b + "}" by {
      assert v[k..] == "}";
      assert v == b + v[k..];
    }
    assert t == FracOpen + (a + "}{" + (b + "}"));
    Regroup(FracOpen, a, "}{", b, "}");
  }

  /** Five texts joined, however the joins are grouped. */
  lemma Regroup(h: string, a: string, m: string, b: string, e: string)
    ensures h + (a + m + (b + e)) == h + a + m + b + e
  {
  }

  /** A text with prefix `h` is `h` followed by the rest. */
  lemma HeadRest(t: string, h: string)
    requires h <= t
    ensures t == h + t[|h|..]
  {
    assert t[..|h|] == h;
  }

  /** Every fraction of brace-free, non-empty parts is recognised, with those parts. */
  lemma FracPartsOf(a: string, b: string)
    requires a != [] && b != []
    requires forall i :: 0 <= i < |a| ==> NotBrace(a[i])
    requires forall i :: 0 <= i < |b| ==> NotBrace(b[i])
    ensures FracParts(FracOpen + a + "}{" + b + "}") == Some((a, b))
  {
    var t := FracOpen + a + "}{" + b + "}";
    var u := t[6..];
    assert u == a + ("}{" + b + "}");
    assert Span(u, NotBrace) == |a| by {
      SpanStops(a, "}{" + b + "}", NotBrace);
    }
    var v := u[|a| + 2..];
    assert v == b + "}";
    assert Span(v, NotBrace) == |b| by {
      SpanStops(b, "}", NotBrace);
    }
  }

  /** `[^\(\)]` */
  predicate NotParen(c: char) { c != '(' && c != ')' }

  /** `re.match(r'^\(\s*([^\(\)]+)\s*\)$', t)` on stripped `t`: the group. Between the
      parentheses nothing may be a parenthesis; the group is what follows the leading
      whitespace, or the last character when all of it is whitespace (the group needs
      one character and `\s*` gives one back). */
  function ParenGroup(t: string): (r: Option<string>)
    ensures r.Some? <==> 2 < |t| && t[0] == '(' && t[|t| - 1] == ')'
                         && forall i :: 1 <= i < |t| - 1 ==> NotParen(t[i])
    ensures r.Some? ==> var g := r.value; var m := t[1..|t| - 1];
      0 < |g| <= |m| && g == m[|m| - |g|..]
      && (forall i :: 0 <= i < |m| - |g| ==> IsSpace(m[i]))
      && (|g| == 1 || !IsSpace(g[0]))
  {
    if |t| < 2 || t[0] != '(' || t[|t| - 1] != ')' then None
    else
      var m := t[1..|t| - 1];
      assert forall i :: 1 <= i < |t| - 1 ==> t[i] == m[i - 1];
      if m == [] || Span(m, NotParen) < |m| then None
      else
        var k := Span(m, IsSpace);
        Some(if k < |m| then m[k..] else m[|m| - 1..])
  }

  /** A parenthesised text with no parenthesis inside that does not start with
      whitespace is recognised, with that text as the group. */
  lemma ParenGroupOf(x: string)
    requires x != [] && !IsSpace(x[0])
    requires forall i :: 0 <= i < |x| ==> NotParen(x[i])
    ensures ParenGroup("(" + x + ")") == Some(x)
  {
    var t := "(" + x + ")";
    assert t[1..|t| - 1] == x;
    assert forall i :: 1 <= i < |t| - 1 ==> t[i] == x[i - 1];
  }

  // ---------------------------------------------------------------------------
  // `_fast_path_expr`
  // ---------------------------------------------------------------------------

  /** The only results of the fast path: a symbol with a simple name, or the quotient
      of two such symbols. */
  predicate IsTiny(e: Expr) {
    match e
    case Symbol(n) => IsSimpleName(n)
    case Quotient(Symbol(a), Symbol(b)) => IsSimpleName(a) && IsSimpleName(b)
    case _ => false
  }

  /** `a / b` of the symbols named by two texts, when both are names. */
  function NameQuotient(num: string, den: string): (r: Option<Expr>)
    ensures r.Some? <==> LatexName(num).Some? && LatexName(den).Some?
    ensures r.Some? ==> r.value == Quotient(Symbol(LatexName(num).value), Symbol(LatexName(den).value))
  {
    match (LatexName(num), LatexName(den))
    case (Some(a), Some(b)) => Some(Quotient(Symbol(a), Symbol(b)))
    case _ => None
  }

  /** `_fast_path_expr`: the rules in order — a name, a `\frac` of two names, one pair of
      parentheses (whose content decides), a split at the first `/` into two names. */
  function FastPathExpr(s: string): (r: Option<Expr>)
    ensures r.Some? ==> IsTiny(r.value)
    decreases |s|
  {
    var t := Strip(s);
    match LatexName(t)
    case Some(n) => Some(Symbol(n))
    case None =>
      var frac := match FracParts(t)
        case Some(parts) => NameQuotient(parts.0, parts.1)
        case None => None;
      if frac.Some? then frac
      else
        match ParenGroup(t)
        case Some(g) => FastPathExpr(g)
        case None =>
          if '/' in t then
            var (num, den) := SplitAtFirst(t, '/');
            NameQuotient(num, den)
          else None
  }

  /** The fast path depends on the stripped text only. */
  lemma FastPathStrips(s: string)
    ensures FastPathExpr(Strip(s)) == FastPathExpr(s)
  {
    StripTwice(s);
  }

  /** The name rule comes first: whatever names a symbol is that symbol. */
  lemma FastPathNameFirst(s: string)
    requires LatexName(s).Some?
    ensures FastPathExpr(s) == Some(Symbol(LatexName(s).value))
  {
    StripTwice(s);
    assert NameText(Strip(s)) == NameText(s);
  }

  /** `a/b` of two simple names is their quotient. */
  lemma FastPathRatio(a: string, b: string)
    requires IsSimpleName(a) && IsSimpleName(b)
    ensures FastPathExpr(a + "/" + b) == Some(Quotient(Symbol(a), Symbol(b)))
  {
    var t := a + "/" + b;
    SimpleNameChars(a);
    SimpleNameChars(b);
    assert t[0] == a[0] && t[|t| - 1] == b[|b| - 1] && t[|a|] == '/';
    assert Strip(t) == t by {
      StripKeepsTrimmed(t);
    }
    assert LatexName(t) == None by {
      NotNameBy(t, '/');
    }
    assert FracParts(t) == None;
    assert ParenGroup(t) == None;
    assert SplitAtFirst(t, '/') == (a, b) by {
      SplitAtFirstUnique(t, '/', a, b);
    }
    SimpleNameIsName(a);
    SimpleNameIsName(b);
  }

  /** `\frac{a}{b}` of two simple names is their quotient. */
  lemma FastPathFrac(a: string, b: string)
    requires IsSimpleName(a) && IsSimpleName(b)
    ensures FastPathExpr(FracOpen + a + "}{" + b + "}") == Some(Quotient(Symbol(a), Symbol(b)))
  {
    FastPathFracOf(FracOpen + a + "}{" + b + "}", a, b);
  }

  /** `FastPathFrac`, on the text named as a whole. */
  lemma FastPathFracOf(t: string, a: string, b: string)
    requires IsSimpleName(a) && IsSimpleName(b)
    requires t == FracOpen + a + "}{" + b + "}"
    ensures FastPathExpr(t) == Some(Quotient(Symbol(a), Symbol(b)))
  {
    var y := "{" + a + "}{" + b + "}";
    assert t == FracHead + y;
    assert Strip(t) == t by {
      StripKeepsTrimmed(t);
    }
    assert LatexName(t) == None by {
      FracNotName(y);
    }
    assert FracParts(t) == Some((a, b)) by {
      SimpleNameChars(a);
      SimpleNameChars(b);
      FracPartsOf(a, b);
    }
    FracStep(t, a, b);
  }

  /** The parenthesis rule, once the rules before it have failed on trimmed text. */
  lemma ParenStep(t: string, g: string)
    requires Strip(t) == t && LatexName(t) == None && FracParts(t) == None
    requires ParenGroup(t) == Some(g)
    ensures FastPathExpr(t) == FastPathExpr(g)
  {
  }

  /** The `\frac` rule, once the name rule has failed on trimmed text. */
  lemma FracStep(t: string, a: string, b: string)
    requires Strip(t) == t && LatexName(t) == None && FracParts(t) == Some((a, b))
    requires IsSimpleName(a) && IsSimpleName(b)
    ensures FastPathExpr(t) == Some(Quotient(Symbol(a), Symbol(b)))
  {
    SimpleNameIsName(a);
    SimpleNameIsName(b);
  }

  /** One pair of parentheses around text with no parenthesis in it changes nothing. */
  lemma FastPathParen(x: string)
    requires x != [] && forall i :: 0 <= i < |x| ==> NotParen(x[i])
    ensures FastPathExpr("(" + x + ")") == FastPathExpr(x)
  {
    var g := ParenOuter(x);
    ParenStep("(" + x + ")", g);
    FastPathStrips(g);
    FastPathStrips(x);
  }

  /** The rules before the parenthesis rule fail on `(x)`, and its group strips to
      what `x` strips to. */
  lemma ParenOuter(x: string) returns (g: string)
    requires x != [] && forall i :: 0 <= i < |x| ==> NotParen(x[i])
    ensures var t := "(" + x + ")";
      Strip(t) == t && LatexName(t) == None && FracParts(t) == None && ParenGroup(t) == Some(g)
    ensures Strip(g) == Strip(x)
  {
    var t := "(" + x + ")";
    ParenRejected(x, t);
    g := ParenInner(x, t);
  }

  /** `(x)` is trimmed, and neither a name nor a `\frac`. */
  lemma ParenRejected(x: string, t: string)
    requires x != [] && t == "(" + x + ")"
    ensures Strip(t) == t
    ensures LatexName(t) == None
    ensures FracParts(t) == None
  {
    ParenTrimmed(t);
    ParenNotName(t);
    assert !(FracOpen <= t) by {
      assert t[0] != FracOpen[0];
    }
  }

  /** Text between parentheses is trimmed. */
  lemma ParenTrimmed(t: string)
    requires |t| > 1 && t[0] == '(' && t[|t| - 1] == ')'
    ensures Strip(t) == t
  {
    StripKeepsTrimmed(t);
  }

  /** Text between parentheses is not a name. */
  lemma ParenNotName(t: string)
    requires |t| > 1 && t[0] == '(' && t[|t| - 1] == ')'
    ensures LatexName(t) == None
  {
    assert '(' in t;
    NotNameBy(t, '(');
  }

  /** The group inside `(x)` is `x` with its leading whitespace dropped. */
  lemma ParenInner(x: string, t: string) returns (g: string)
    requires x != [] && forall i :: 0 <= i < |x| ==> NotParen(x[i])
    requires t == "(" + x + ")"
    ensures ParenGroup(t) == Some(g)
    ensures Strip(g) == Strip(x)
  {
    assert t[1..|t| - 1] == x;
    assert ParenGroup(t).Some? by {
      assert forall i :: 1 <= i < |t| - 1 ==> t[i] == x[i - 1];
    }
    g := ParenGroup(t).value;
    assert Strip(g) == Strip(x) by {
      StripSkipsSpace(x, |x| - |g|);
    }
  }

  /** Only one pair of parentheses is looked through: `((a))` is not recognised. */
  lemma FastPathOneLevel(n: string)
    requires IsSimpleName(n)
    ensures FastPathExpr("((" + n + "))") == None
  {
    var t := "((" + n + "))";
    SimpleNameChars(n);
    assert t[1] == '(';
    assert Strip(t) == t by {
      StripKeepsTrimmed(t);
    }
    assert LatexName(t) == None by {
      NotNameBy(t, '(');
    }
    assert FracParts(t) == None;
    assert ParenGroup(t) == None;
    assert '/' !in t by {
      assert forall i :: 2 <= i < 2 + |n| ==> t[i] == n[i - 2];
    }
  }

  /** Trimmed text that starts with a letter, holds a `(`, `)` or `+` and no `/` is
      taken by no rule. */
  lemma FastPathMisses(t: string, c: char)
    requires Strip(t) == t && |t| > 0 && IsAsciiLetter(t[0])
    requires c in t && c in "()+" && '/' !in t
    ensures FastPathExpr(t) == None
  {
    assert LatexName(t) == None by {
      NotNameBy(t, c);
    }
    assert FracParts(t) == None;
    assert ParenGroup(t) == None;
  }
}
