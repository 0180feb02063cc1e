/** `_parse_latex_expr`: normalise the text, try the fast path, check the braces, then
    call the primary LaTeX parser and, when it fails, the secondary one. */
module ParseChain {
  import opened Results
  import opened Text
  import opened Algebra
  import opened Normalize
  import opened FastPath
  import opened Balance

  /** The two errors `_parse_latex_expr` raises, with the normalised text: the
      `ValueError` for unbalanced braces, and the `RuntimeError` that carries both
      parsers' messages. */
  datatype ParseError =
    | Unbalanced(text: string)
    | BothFailed(text: string, primary: string, secondary: string)

  /** `_parse_latex_expr(raw)` with the parsers of `backend`. */
  function ParseLatexExpr(raw: string, backend: Backend): Result<Expr, ParseError> {
    ParseNormalized(NormalizeForParsers(raw), backend)
  }

  /** What `_parse_latex_expr` does with the normalised text `s`: the fast path, the
      brace check, the primary parser, the secondary parser, in that order. */
  function ParseNormalized(s: string, backend: Backend): (r: Result<Expr, ParseError>)
    ensures r.Err? <==> FastPathExpr(s).None?
                        && (!IsBalanced(s) || (backend.primary(s).Err? && backend.secondary(s).Err?))
    ensures r.Err? ==> r.error.text == s && (r.error.Unbalanced? <==> !IsBalanced(s))
    ensures r.Ok? ==> FastPathExpr(s) == Some(r.value) || backend.primary(s) == Ok(r.value)
                      || backend.secondary(s) == Ok(r.value)
  {
    match FastPathExpr(s)
    case Some(e) => Ok(e)
    case None =>
      if !IsBalanced(s) then Err(Unbalanced(s))
      else
        match backend.primary(s)
        case Ok(e) => Ok(e)
        case Err(m1) =>
          match backend.secondary(s)
          case Ok(e) => Ok(e)
          case Err(m2) => Err(BothFailed(s, m1, m2))
  }

  /** A fast-path hit is the result whatever the parsers do: neither is called. */
  lemma FastPathDecides(s: string, b1: Backend, b2: Backend)
    requires FastPathExpr(s).Some?
    ensures ParseNormalized(s, b1) == ParseNormalized(s, b2) == Ok(FastPathExpr(s).value)
  {
  }

  /** Unbalanced braces are reported before either parser is called. */
  lemma BalanceBeforeParsers(s: string, b1: Backend, b2: Backend)
    requires FastPathExpr(s).None? && !IsBalanced(s)
    ensures ParseNormalized(s, b1) == ParseNormalized(s, b2) == Err(Unbalanced(s))
  {
  }

  /** The secondary parser is only consulted when the primary one fails. */
  lemma PrimaryFirst(s: string, backend: Backend, other: string -> Result<Expr, string>)
    requires backend.primary(s).Ok?
    ensures ParseNormalized(s, backend) == ParseNormalized(s, backend.(secondary := other))
    ensures FastPathExpr(s).None? && IsBalanced(s) ==> ParseNormalized(s, backend) == Ok(backend.primary(s).value)
  {
  }

  /** When both parsers fail, the error carries both of their messages. */
  lemma BothParsersFail(s: string, backend: Backend)
    requires FastPathExpr(s).None? && IsBalanced(s)
    requires backend.primary(s).Err? && backend.secondary(s).Err?
    ensures ParseNormalized(s, backend) == Err(BothFailed(s, backend.primary(s).error, backend.secondary(s).error))
  {
  }

  /** Text the normaliser leaves alone goes to the chain as it is. */
  lemma ParseKept(s: string, backend: Backend)
    requires NormalizeForParsers(s) == s
    ensures ParseLatexExpr(s, backend) == ParseNormalized(s, backend)
  {
  }

  /** ASCII letters and digits only. */
  predicate IsAlnumText(a: string) {
    forall i :: 0 <= i < |a| ==> IsAsciiAlnum(a[i])
  }

  /** Text with one more `{` than `}` is not balanced. */
  lemma OneOpenUnbalanced(s: string)
    requires multiset(s)['{'] == 1 && multiset(s)['}'] == 0
    ensures !IsBalanced(s)
  {
    DepthCounts(s);
  }

  /** `a + "_{" + b` over letters and digits is left alone by the normaliser. */
  lemma UnclosedKept(a: string, b: string)
    requires IsAlnumText(a) && IsAlnumText(b)
    ensures NormalizeForParsers(a + "_{" + b) == a + "_{" + b
  {
    var s := a + "_{" + b;
    assert forall i :: 0 <= i < |s| ==> IsAsciiAlnum(s[i]) || s[i] in "_{" by {
      forall i | 0 <= i < |s| ensures IsAsciiAlnum(s[i]) || s[i] in "_{" {
        if i >= |a| + 2 {
          assert s[i] == b[i - |a| - 2];
        }
      }
    }
    forall k | 0 <= k < |s| ensures OpensBrace(s, k) {
      if s[k] == '_' {
        assert k == |a|;
      }
    }
    NormalizeKeeps(s);
  }

  /** One `{` between letters and digits is never closed. */
  lemma OpenBetween(a: string, x: char, b: string)
    requires IsAlnumText(a) && IsAlnumText(b) && (x == '_' || x == '+')
    ensures !IsBalanced(a + [x, '{'] + b)
  {
    var s := a + [x, '{'] + b;
    assert '{' !in a && '}' !in a && '{' !in b && '}' !in b;
    assert multiset(s) == multiset(a) + multiset([x, '{']) + multiset(b);
    OneOpenUnbalanced(s);
  }

  /** An unclosed subscript such as `p_{t` still names a symbol (`p_t`): the fast path
      runs before the brace check, and the name rule drops braces. */
  lemma UnclosedSubscriptParses(a: string, b: string, backend: Backend)
    requires |a| > 0 && IsAsciiLetter(a[0]) && IsAlnumText(a) && IsAlnumText(b)
    ensures ParseLatexExpr(a + "_{" + b, backend) == Ok(Symbol(a + "_" + b))
    ensures !IsBalanced(a + "_{" + b)
  {
    var s := a + "_{" + b;
    assert FastPathExpr(s) == Some(Symbol(a + "_" + b)) by {
      assert IsSimpleName("x" + b) by {
        assert forall i :: 1 <= i < |b| + 1 ==> ("x" + b)[i] == b[i - 1];
      }
      assert LatexName(s) == Some(a + "_" + b) by {
        assert s == a + "_{" + b + "";
        SubscriptName(a, b, "");
      }
      FastPathNameFirst(s);
    }
    assert ParseLatexExpr(s, backend) == ParseNormalized(s, backend) by {
      UnclosedKept(a, b);
      ParseKept(s, backend);
    }
    assert !IsBalanced(s) by {
      assert s == a + ['_', '{'] + b;
      OpenBetween(a, '_', b);
    }
  }

  /** The characters of `a+{b`. */
  lemma PlusBraceChars(a: string, b: string)
    requires IsAlnumText(a) && IsAlnumText(b)
    ensures var s := a + "+{" + b;
      forall i :: 0 <= i < |s| ==> IsAsciiAlnum(s[i]) || s[i] in "+{"
  {
    var s := a + "+{" + b;
    forall i | 0 <= i < |s| ensures IsAsciiAlnum(s[i]) || s[i] in "+{" {
      if i >= |a| + 2 {
        assert s[i] == b[i - |a| - 2];
      }
    }
  }

  /** `a+{b` over letters and digits is left alone by the normaliser. */
  lemma PlusBraceKept(a: string, b: string)
    requires IsAlnumText(a) && IsAlnumText(b)
    ensures NormalizeForParsers(a + "+{" + b) == a + "+{" + b
  {
    var s := a + "+{" + b;
    PlusBraceChars(a, b);
    forall k | 0 <= k < |s| ensures OpensBrace(s, k) {
    }
    NormalizeKeeps(s);
  }

  /** `a+{b` is stripped, starts with a letter, holds a `+` and no `/`. */
  lemma PlusBraceShape(a: string, b: string)
    requires |a| > 0 && IsAsciiLetter(a[0]) && IsAlnumText(a) && IsAlnumText(b)
    ensures var s := a + "+{" + b;
      Strip(s) == s && |s| > 0 && IsAsciiLetter(s[0]) && '+' in s && '/' !in s
  {
    var s := a + "+{" + b;
    PlusBraceChars(a, b);
    assert s[|a|] == '+' && s[0] == a[0];
    assert !IsSpace(s[|s| - 1]) by {
      assert IsAsciiAlnum(s[|s| - 1]) || s[|s| - 1] in "+{";
    }
    StripKeepsTrimmed(s);
    assert forall i :: 0 <= i < |s| ==> s[i] != '/';
  }

  /** No fast-path rule takes `a+{b`. */
  lemma PlusBraceNotFast(a: string, b: string)
    requires |a| > 0 && IsAsciiLetter(a[0]) && IsAlnumText(a) && IsAlnumText(b)
    ensures FastPathExpr(a + "+{" + b) == None
  {
    PlusBraceShape(a, b);
    FastPathMisses(a + "+{" + b, '+');
  }

  /** `a+{b`, an unclosed group with no name in it, is reported as unbalanced whatever
      the parsers would do. */
  lemma UnclosedGroupRejected(a: string, b: string, backend: Backend)
    requires |a| > 0 && IsAsciiLetter(a[0]) && IsAlnumText(a) && IsAlnumText(b)
    ensures ParseLatexExpr(a + "+{" + b, backend) == Err(Unbalanced(a + "+{" + b))
  {
    var s := a + "+{" + b;
    assert FastPathExpr(s) == None by {
      PlusBraceNotFast(a, b);
    }
    assert !IsBalanced(s) by {
      assert s == a + ['+', '{'] + b;
      OpenBetween(a, '+', b);
    }
    assert ParseLatexExpr(s, backend) == ParseNormalized(s, backend) by {
      PlusBraceKept(a, b);
      ParseKept(s, backend);
    }
  }
}
