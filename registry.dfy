/** The `CoreEqs` container: each tagged equation block of a LaTeX source becomes, under
    its stripped tag, the list of its parsed lines, their residuals and the sorted free
    symbols of each residual; `tags`, `substitute` and `solve_for` read it. */
module Registry {
  import opened Results
  import opened Text
  import opened Order
  import opened Algebra
  import opened Normalize
  import opened ParseChain
  import opened Blocks

  // ---------------------------------------------------------------------------
  // One line
  // ---------------------------------------------------------------------------

  /** `CoreEqs._to_expr_or_eq`: the normalised line split at its first `=` into two sides
      parsed on their own (the left first), or parsed whole when it has no `=`. */
  function ToExprOrEq(line: string, backend: Backend): (r: Result<ExprOrEq, ParseError>)
    ensures var cleaned := NormalizeForParsers(line);
      r.Ok? ==> (r.value.Equation? <==> '=' in cleaned)
    ensures var cleaned := NormalizeForParsers(line);
      '=' !in cleaned ==> r == (match ParseLatexExpr(cleaned, backend)
                                case Ok(e) => Ok(Bare(e))
                                case Err(err) => Err(err))
  {
    var cleaned := NormalizeForParsers(line);
    if '=' in cleaned then
      var (lhs, rhs) := SplitAtFirst(cleaned, '=');
      match ParseLatexExpr(lhs, backend)
      case Err(err) => Err(err)
      case Ok(a) =>
        match ParseLatexExpr(rhs, backend)
        case Err(err) => Err(err)
        case Ok(b) => Ok(Equation(a, b))
    else
      match ParseLatexExpr(cleaned, backend)
      case Ok(e) => Ok(Bare(e))
      case Err(err) => Err(err)
  }

  /** A line whose normal form is `lhs=rhs` with no `=` in `lhs`: the equation of the two
      parsed sides when both parse, else the left side's error, else the right side's. */
  lemma EquationLine(line: string, lhs: string, rhs: string, backend: Backend)
    requires NormalizeForParsers(line) == lhs + "=" + rhs && '=' !in lhs
    ensures var l, r := ParseLatexExpr(lhs, backend), ParseLatexExpr(rhs, backend);
      ToExprOrEq(line, backend)
        == if l.Err? then Err(l.error)
           else if r.Err? then Err(r.error)
           else Ok(Equation(l.value, r.value))
  {
    SplitAtFirstUnique(lhs + "=" + rhs, '=', lhs, rhs);
  }

  // ---------------------------------------------------------------------------
  // The lines of one block
  // ---------------------------------------------------------------------------

  /** How one line is read: `_to_expr_or_eq` with the backend fixed. */
  type LineParser = string -> Result<ExprOrEq, ParseError>

  function LineReader(backend: Backend): LineParser {
    line => ToExprOrEq(line, backend)
  }

  /** The objects of the lines that parse, in order; a line that raises is skipped. */
  function ParseLines(lines: seq<string>, parse: LineParser): (objs: seq<ExprOrEq>)
    ensures |objs| <= |lines|
    decreases |lines|
  {
    if lines == [] then []
    else
      ParseLines(lines[..|lines| - 1], parse)
      + match parse(lines[|lines| - 1])
        case Ok(obj) => [obj]
        case Err(_) => []
  }

  /** Parsing the lines of two runs is parsing each run. */
  lemma {:induction false} ParseLinesConcat(a: seq<string>, b: seq<string>, parse: LineParser)
    ensures ParseLines(a + b, parse) == ParseLines(a, parse) + ParseLines(b, parse)
    decreases |b|
  {
    if b == [] {
      assert a + b == a;
    } else {
      var b' := b[..|b| - 1];
      assert (a + b)[..|a + b| - 1] == a + b';
      assert (a + b)[|a + b| - 1] == b[|b| - 1];
      ParseLinesConcat(a, b', parse);
    }
  }

  /** When every line parses, the objects are the lines' objects, one each, in order. */
  lemma {:induction false} ParseLinesAllOk(lines: seq<string>, parse: LineParser)
    requires forall i :: 0 <= i < |lines| ==> parse(lines[i]).Ok?
    ensures |ParseLines(lines, parse)| == |lines|
    ensures forall i :: 0 <= i < |lines| ==> ParseLines(lines, parse)[i] == parse(lines[i]).value
    decreases |lines|
  {
    if lines != [] {
      ParseLinesAllOk(lines[..|lines| - 1], parse);
    }
  }

  /** When no line parses, nothing is kept. */
  lemma {:induction false} ParseLinesAllFail(lines: seq<string>, parse: LineParser)
    requires forall i :: 0 <= i < |lines| ==> parse(lines[i]).Err?
    ensures ParseLines(lines, parse) == []
    decreases |lines|
  {
    if lines != [] {
      ParseLinesAllFail(lines[..|lines| - 1], parse);
    }
  }

  /** Every object kept is the object of some line. */
  lemma {:induction false} ParseLinesFrom(lines: seq<string>, parse: LineParser)
    ensures forall obj :: obj in ParseLines(lines, parse) ==> exists i :: 0 <= i < |lines| && parse(lines[i]) == Ok(obj)
    decreases |lines|
  {
    if lines != [] {
      var init := lines[..|lines| - 1];
      ParseLinesFrom(init, parse);
      forall obj | obj in ParseLines(lines, parse)
        ensures exists i :: 0 <= i < |lines| && parse(lines[i]) == Ok(obj)
      {
        if obj in ParseLines(init, parse) {
          var i :| 0 <= i < |init| && parse(init[i]) == Ok(obj);
          assert lines[i] == init[i];
        } else {
          assert parse(lines[|lines| - 1]) == Ok(obj);
        }
      }
    }
  }

  /** `_residual_of` of each object. */
  function Residuals(objs: seq<ExprOrEq>): (rs: seq<Expr>)
    ensures |rs| == |objs|
  {
    seq(|objs|, i requires 0 <= i < |objs| => ResidualOf(objs[i]))
  }

  /** `_symbols_of`: the names of the free symbols of `r`, sorted. */
  function SymbolsOf(r: Expr, backend: Backend): (names: seq<string>)
    ensures StrictlySorted(names)
    ensures forall x :: x in names <==> x in backend.freeSymbols(r)
  {
    SortedSet(backend.freeSymbols(r))
  }

  /** `_symbols_of` of each residual. */
  function SymbolLists(rs: seq<Expr>, backend: Backend): (ss: seq<seq<string>>)
    ensures |ss| == |rs|
  {
    seq(|rs|, i requires 0 <= i < |rs| => SymbolsOf(rs[i], backend))
  }

  // ---------------------------------------------------------------------------
  // The whole source
  // ---------------------------------------------------------------------------

  /** What one block files: its stripped tag, and the objects of its lines. */
  type Entry = (string, seq<ExprOrEq>)

  /** What block `b` files: its tag, stripped, and the objects of its lines. */
  function EntryOf(src: string, b: Block, parse: LineParser): Entry
    requires IsBlockOf(src, b)
  {
    (Strip(Tag(src, b)), ParseLines(LinesFromBlock(Body(src, b)), parse))
  }

  /** The entries of the blocks of `src`, in source order. */
  function Entries(src: string, parse: LineParser): (es: seq<Entry>)
    ensures var bs := EquationBlocks(src);
      |es| == |bs|
      && forall j :: 0 <= j < |bs| ==> IsBlockOf(src, bs[j]) && es[j] == EntryOf(src, bs[j], parse)
  {
    var bs := EquationBlocks(src);
    BlocksFromAreBlocks(src, 0);
    seq(|bs|, j requires 0 <= j < |bs| => EntryOf(src, bs[j], parse))
  }

  /** A dictionary filled entry by entry, a later entry replacing an earlier one with the
      same key. */
  function Filed(es: seq<Entry>): map<string, seq<ExprOrEq>>
    decreases |es|
  {
    if es == [] then map[]
    else Filed(es[..|es| - 1])[es[|es| - 1].0 := es[|es| - 1].1]
  }

  /** Filing one more entry. */
  lemma FiledStep(es: seq<Entry>, j: nat)
    requires j < |es|
    ensures Filed(es[..j + 1]) == Filed(es[..j])[es[j].0 := es[j].1]
  {
    assert es[..j + 1][..j] == es[..j];
  }

  /** The keys filed are exactly the keys of the entries. */
  lemma {:induction false} FiledKeys(es: seq<Entry>)
    ensures forall t :: t in Filed(es) <==> exists j :: 0 <= j < |es| && es[j].0 == t
    decreases |es|
  {
    if es != [] {
      var init := es[..|es| - 1];
      FiledKeys(init);
      forall t ensures t in Filed(es) <==> exists j :: 0 <= j < |es| && es[j].0 == t {
        if t in Filed(init) {
          var j :| 0 <= j < |init| && init[j].0 == t;
          assert es[j].0 == t;
        }
        if exists j :: 0 <= j < |es| && es[j].0 == t {
          var j :| 0 <= j < |es| && es[j].0 == t;
          if j < |init| {
            assert init[j].0 == t;
          }
        }
      }
    }
  }

  /** Under a key is the value of the last entry with that key. */
  lemma {:induction false} LastEntryWins(es: seq<Entry>, j: nat)
    requires j < |es|
    requires forall k :: j < k < |es| ==> es[k].0 != es[j].0
    ensures es[j].0 in Filed(es) && Filed(es)[es[j].0] == es[j].1
    decreases |es|
  {
    if j < |es| - 1 {
      var init := es[..|es| - 1];
      assert init[j] == es[j];
      LastEntryWins(init, j);
    }
  }

  /** `from_tex`'s `eqs` for the text of a source. */
  function SourceEqs(src: string, backend: Backend): map<string, seq<ExprOrEq>> {
    Filed(Entries(src, LineReader(backend)))
  }

  /** A tag is filed exactly when some block carries it, stripped. */
  lemma SourceTags(src: string, backend: Backend, t: string)
    ensures var bs := EquationBlocks(src);
      (t in SourceEqs(src, backend))
        <==> exists j :: 0 <= j < |bs| && IsBlockOf(src, bs[j]) && Strip(Tag(src, bs[j])) == t
  {
    var es := Entries(src, LineReader(backend));
    FiledKeys(es);
  }

  /** `LastBlockFiled` for any way of reading a line. */
  lemma LastBlockFiledWith(src: string, parse: LineParser, j: nat)
    requires j < |EquationBlocks(src)|
    requires var bs := EquationBlocks(src);
      IsBlockOf(src, bs[j])
      && forall k :: j < k < |bs| ==> IsBlockOf(src, bs[k]) && Strip(Tag(src, bs[k])) != Strip(Tag(src, bs[j]))
    ensures var bs := EquationBlocks(src);
      var t := Strip(Tag(src, bs[j]));
      t in Filed(Entries(src, parse))
      && Filed(Entries(src, parse))[t] == ParseLines(LinesFromBlock(Body(src, bs[j])), parse)
  {
    LastEntryWins(Entries(src, parse), j);
  }

  /** Under a tag is what the last block with that tag holds; when none of that block's
      lines parses, the tag is still there, with no objects. */
  lemma LastBlockFiled(src: string, backend: Backend, j: nat)
    requires j < |EquationBlocks(src)|
    requires var bs := EquationBlocks(src);
      IsBlockOf(src, bs[j])
      && forall k :: j < k < |bs| ==> IsBlockOf(src, bs[k]) && Strip(Tag(src, bs[k])) != Strip(Tag(src, bs[j]))
    ensures var bs := EquationBlocks(src);
      var lines := LinesFromBlock(Body(src, bs[j]));
      var t := Strip(Tag(src, bs[j]));
      t in SourceEqs(src, backend)
      && SourceEqs(src, backend)[t] == ParseLines(lines, LineReader(backend))
      && ((forall i :: 0 <= i < |lines| ==> ToExprOrEq(lines[i], backend).Err?) ==> SourceEqs(src, backend)[t] == [])
  {
    var parse := LineReader(backend);
    LastBlockFiledWith(src, parse, j);
    var lines := LinesFromBlock(Body(src, EquationBlocks(src)[j]));
    if forall i :: 0 <= i < |lines| ==> ToExprOrEq(lines[i], backend).Err? {
      ParseLinesAllFail(lines, parse);
    }
  }

  /** A single line is kept when it parses. */
  lemma ParseOne(line: string, parse: LineParser)
    ensures ParseLines([line], parse) == match parse(line) case Ok(obj) => [obj] case Err(_) => []
  {
    assert [line][..0] == [];
  }

  /** One entry filed. */
  lemma FiledOne(es: seq<Entry>)
    requires |es| == 1
    ensures Filed(es) == map[es[0].0 := es[0].1]
  {
    assert es[..0] == [];
  }

  /** The entries of a source with one block. */
  lemma OneEntryFiled(src: string, parse: LineParser)
    requires |EquationBlocks(src)| == 1
    ensures var b := EquationBlocks(src)[0];
      IsBlockOf(src, b)
      && Filed(Entries(src, parse)) == map[Strip(Tag(src, b)) := ParseLines(LinesFromBlock(Body(src, b)), parse)]
  {
    var es := Entries(src, parse);
    FiledOne(es);
  }

  /** A source holding one block whose body has no `\tag{`, no aligned environment and
      no line break, and whose tail has no `\end{equation}`: its tag, stripped, holds the
      object of the stripped body when that parses, and nothing otherwise. */
  lemma OneBlockSource(body: string, tag: string, tail: string, backend: Backend)
    requires Free(body, TagOpen) && Free(body, AlignedBegin) && Free(body, LineBreak)
    requires Free(tail, EqEnd) && |tag| > 0 && '}' !in tag
    ensures SourceEqs(Written(body, tag, tail), backend)
      == map[Strip(tag) := if Strip(body) == [] then []
                           else match ToExprOrEq(Strip(body), backend)
                                case Ok(obj) => [obj]
                                case Err(_) => []]
  {
    var parse := LineReader(backend);
    SingleBlock(body, tag, tail);
    OneEntryFiled(Written(body, tag, tail), parse);
    LinesPlain(body);
    if Strip(body) != [] {
      ParseOne(Strip(body), parse);
    }
  }

  // ---------------------------------------------------------------------------
  // The container
  // ---------------------------------------------------------------------------

  /** The `KeyError` of `substitute` and `solve_for`: the tag asked for and the tags
      there are. */
  datatype LookupError = UnknownTag(tag: string, available: seq<string>)

  /** `var` of `solve_for`: a name, turned into `sp.Symbol(name)`, or an expression. */
  datatype Unknown = Name(name: string) | Given(expr: Expr)

  /** The call `solve_for` makes: `sp.solve(sp.Eq(eq, 0), var, dict=True)` for a single
      residual, `sp.solve([sp.Eq(e, 0) for e in eqs], [var], dict=True)` otherwise. */
  datatype SolveCall =
    | SolveSingle(eq: Expr, unknown: Expr)
    | SolveSystem(eqs: seq<Expr>, unknowns: seq<Expr>)

  predicate AlignedMaps(eqs: map<string, seq<ExprOrEq>>, residuals: map<string, seq<Expr>>,
                        symbols: map<string, seq<seq<string>>>, backend: Backend)
  {
    eqs.Keys == residuals.Keys == symbols.Keys
    && (forall t :: t in eqs ==> residuals[t] == Residuals(eqs[t]))
    && (forall t :: t in residuals ==> symbols[t] == SymbolLists(residuals[t], backend))
  }

  /** Filing objects under a tag together with their residuals and symbol lists keeps the
      three maps aligned. */
  lemma AlignedFiled(eqs: map<string, seq<ExprOrEq>>, residuals: map<string, seq<Expr>>,
                     symbols: map<string, seq<seq<string>>>, tag: string, exprs: seq<ExprOrEq>,
                     backend: Backend)
    requires AlignedMaps(eqs, residuals, symbols, backend)
    ensures var rs := Residuals(exprs);
      AlignedMaps(eqs[tag := exprs], residuals[tag := rs], symbols[tag := SymbolLists(rs, backend)], backend)
  {
  }

  class CoreEqs {
    var eqs: map<string, seq<ExprOrEq>>
    var residuals: map<string, seq<Expr>>
    var symbols: map<string, seq<seq<string>>>

    /** The three maps share their keys, and under each tag the residuals are those of the
        objects and the symbol lists those of the residuals. */
    predicate Aligned(backend: Backend)
      reads this
    {
      AlignedMaps(eqs, residuals, symbols, backend)
    }

    constructor ()
      ensures eqs == map[] && residuals == map[] && symbols == map[]
    {
      eqs, residuals, symbols := map[], map[], map[];
    }

    /** The objects of one block's lines, with their residuals and symbol lists. */
    static method ParseBlock(lines: seq<string>, parse: LineParser, backend: Backend)
      returns (exprs: seq<ExprOrEq>, rs: seq<Expr>, symLists: seq<seq<string>>)
      ensures exprs == ParseLines(lines, parse)
      ensures rs == Residuals(exprs) && symLists == SymbolLists(rs, backend)
    {
      exprs, rs, symLists := [], [], [];
      var i := 0;
      while i < |lines|
        invariant 0 <= i <= |lines|
        invariant exprs == ParseLines(lines[..i], parse)
        invariant rs == Residuals(exprs) && symLists == SymbolLists(rs, backend)
      {
        assert lines[..i + 1][..i] == lines[..i];
        assert lines[..i + 1][i] == lines[i];
        match parse(lines[i]) {
          case Err(_) =>
          case Ok(obj) =>
            var r := ResidualOf(obj);
            exprs := exprs + [obj];
            rs := rs + [r];
            symLists := symLists + [SymbolsOf(r, backend)];
        }
        i := i + 1;
      }
      assert lines[..|lines|] == lines;
    }

    /** The body of `from_tex`'s loop for block `j` of `src`: its objects, residuals and
        symbol lists filed under its tag, replacing what an earlier block left there. */
    method FileBlock(src: string, bs: seq<Block>, j: nat, parse: LineParser, backend: Backend)
      requires bs == EquationBlocks(src) && j < |bs|
      requires eqs == Filed(Entries(src, parse)[..j])
      requires Aligned(backend)
      modifies this
      ensures eqs == Filed(Entries(src, parse)[..j + 1])
      ensures Aligned(backend)
    {
      var b := bs[j];
      ghost var es := Entries(src, parse);
      assert IsBlockOf(src, b) && es[j] == EntryOf(src, b, parse);
      var tag := Strip(Tag(src, b));
      var exprs, rs, symLists := ParseBlock(LinesFromBlock(Body(src, b)), parse, backend);
      AlignedFiled(eqs, residuals, symbols, tag, exprs, backend);
      FiledStep(es, j);
      eqs := eqs[tag := exprs];
      residuals := residuals[tag := rs];
      symbols := symbols[tag := symLists];
    }

    /** `CoreEqs.from_tex` on the text `src` of the file. */
    static method FromTex(src: string, backend: Backend) returns (out: CoreEqs)
      ensures fresh(out)
      ensures out.eqs == SourceEqs(src, backend)
      ensures out.Aligned(backend)
    {
      out := new CoreEqs();
      out.FileBlocks(src, LineReader(backend), backend);
    }

    /** `from_tex`'s loop over the blocks of `src`, each line read with `parse`. */
    method FileBlocks(src: string, parse: LineParser, backend: Backend)
      requires eqs == map[] && residuals == map[] && symbols == map[]
      modifies this
      ensures eqs == Filed(Entries(src, parse))
      ensures Aligned(backend)
    {
      var bs := EquationBlocks(src);
      ghost var es := Entries(src, parse);
      var j := 0;
      while j < |bs|
        invariant 0 <= j <= |bs|
        invariant eqs == Filed(es[..j])
        invariant Aligned(backend)
      {
        FileBlock(src, bs, j, parse, backend);
        j := j + 1;
      }
      assert es[..|bs|] == es;
    }

    /** `tags()`: the tags, sorted, each once. */
    function Tags(): (ts: seq<string>)
      reads this
      ensures StrictlySorted(ts)
      ensures forall t :: t in ts <==> t in eqs
    {
      SortedSet(eqs.Keys)
    }

    /** `substitute(tag, subs)`: every residual under `tag` with `subs` applied, in order;
        a `KeyError` naming the tags there are when `tag` has no residuals. */
    function Substitute(tag: string, subs: Bindings): (r: Result<seq<Expr>, LookupError>)
      reads this
      ensures r.Err? <==> tag !in residuals
      ensures r.Err? ==> r.error == UnknownTag(tag, Tags())
      ensures r.Ok? ==> |r.value| == |residuals[tag]|
                        && forall i :: 0 <= i < |r.value| ==> r.value[i] == Substituted(residuals[tag][i], subs)
    {
      if tag !in residuals then Err(UnknownTag(tag, Tags()))
      else
        var rs := residuals[tag];
        Ok(seq(|rs|, i requires 0 <= i < |rs| => Substituted(rs[i], subs)))
    }

    /** `solve_for(tag, var, params)`: the residuals under `tag`, with `params` applied when
        given and not empty, handed to `sp.solve` as a single equation when there is one
        and as a system otherwise. */
    function SolveFor(tag: string, unknown: Unknown, params: Option<Bindings>): (r: Result<SolveCall, LookupError>)
      reads this
      ensures r.Err? <==> tag !in residuals
      ensures r.Err? ==> r.error == UnknownTag(tag, Tags())
      ensures r.Ok? ==> (r.value.SolveSingle? <==> |residuals[tag]| == 1)
    {
      if tag !in residuals then Err(UnknownTag(tag, Tags()))
      else
        var sym := match unknown case Name(n) => Symbol(n) case Given(e) => e;
        var es := if params.Some? && params.value != [] then Substitute(tag, params.value).value
                  else residuals[tag];
        if |es| == 1 then Ok(SolveSingle(es[0], sym))
        else Ok(SolveSystem(es, [sym]))
    }

    /** With parameters, `solve_for` solves what `substitute` returns for them; without,
        the residuals themselves; for the symbol named, or the expression given. */
    lemma SolveForSubstitutes(tag: string, unknown: Unknown, params: Option<Bindings>)
      requires tag in residuals
      ensures var es := if params.Some? && params.value != [] then Substitute(tag, params.value).value
                        else residuals[tag];
        var sym := if unknown.Name? then Symbol(unknown.name) else unknown.expr;
        SolveFor(tag, unknown, params)
          == Ok(if |es| == 1 then SolveSingle(es[0], sym) else SolveSystem(es, [sym]))
    {
    }
  }
}
