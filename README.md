# core_eqs: tagged LaTeX equations to SymPy residuals

`core_eqs.py` reads a LaTeX source and collects every
`\begin{equation} … \tag{…} … \end{equation}` block. A block may hold an
`aligned` environment. The block's lines are split at `\\`, and each line is
normalised and parsed into a SymPy expression or equation. Each object is turned
into a residual (`lhs - rhs`). The residual's free symbols are listed in
sorted order. Everything is filed under the block's stripped tag. A small API
lists the tags, substitutes values into a tag's residuals and hands them to
`sp.solve`.

This project models that pipeline in Dafny, one module per component:

- `Results`: `Option` and `Result`, standing for Python's `None` returns and raised exceptions.
- `Text`: character classes and the string operations the code uses:
  - `isspace`;
  - `strip`;
  - `replace(pat, '')`;
  - `split(c, 1)`;
  - `re.split` on a literal separator.
- `Order`: Python's ordering of strings, and `sorted` of a set of names.
- `Rewrite`: `re.sub` as a left-to-right scanner over a matcher. It proves three generic facts:
  - what characters a rewrite can introduce;
  - when a rewrite removes a character;
  - when a rewrite leaves no forbidden neighbour pair.
- `Normalize`: each regular expression of the normaliser as a matcher, the four
  normalisation functions, and the `while True` loop of `_normalize_text_subscripts`
  as a method.
- `Balance`: the stack-based `_balanced` as a method, proved against a brace-depth predicate.
- `FastPath`: `_latex_name_to_symbol` and `_fast_path_expr`.
- `Algebra`: the SymPy objects the code builds (symbols, quotients, differences,
  equations, substitutions) as terms. It also holds the two LaTeX parsers and
  `free_symbols` as a `Backend` value.
- `ParseChain`: `_parse_latex_expr`.
- `Blocks`: the two patterns:
  - `finditer` of the lazy block pattern;
  - `search` of the aligned pattern.
  It also models `_lines_from_block`.
- `Registry`: `_to_expr_or_eq`, `_residual_of` and `_symbols_of`, plus the
  `CoreEqs` class. The class has three dictionaries as `map` fields, `from_tex`
  as methods that fill them block by block, and `tags`, `substitute` and `solve_for`.

Behaviour of the code a reader might not expect:

- The normaliser is not idempotent. `_BRACK_GROUP` rewrites only innermost
  brackets, so `[[a]]` needs two passes (`Normalize.NotIdempotent`).
- `_to_expr_or_eq` splits a line at its first `=` whatever the braces around it.
  The split is not brace-aware.
- The fast path runs before the brace check. So an unclosed subscript such as
  `p_{t` is accepted as the symbol `p_t`, while `a+{b` is rejected as unbalanced
  (`ParseChain.UnclosedSubscriptParses`, `ParseChain.UnclosedGroupRejected`).
- The product rule announced in the docstring of `_fast_path_expr` does not exist.
  The code only splits at the first `/` (`FastPath.FastPathRatio`).

## Model

| member | source | states |
|---|---|---|
| Text.Strip | core_eqs.py:82 | `strip()` gives the slice between the leading and trailing whitespace runs; the result neither starts nor ends with whitespace |
| Text.StripTwice | core_eqs.py:228 | stripping is idempotent |
| Text.Remove | core_eqs.py:112-116 | `replace(pat, '')` only shortens, introduces no character, and leaves no occurrence of a one-character pattern |
| Text.RemoveAbsent | core_eqs.py:112-116 | removing a pattern whose first character is absent changes nothing |
| Text.SplitAtFirst | core_eqs.py:157 | `split(c, 1)` gives the text before the first `c` and the text after it; they rebuild the input around that `c` |
| Text.SplitAtFirstUnique | core_eqs.py:234 | that split is the only split around a `c` with no `c` before it |
| Text.SplitOn | core_eqs.py:227 | `re.split` on `\\` gives at least one piece, and no piece holds the separator |
| Text.SplitJoin | core_eqs.py:227 | joining the pieces with the separator gives the text back |
| Text.JoinSplit | core_eqs.py:227 | splitting a join of pieces in which the separator's first character never occurs gives the pieces back |
| Text.FindFrom | core_eqs.py:224 | the first occurrence of a pattern at or after a position, or none at all |
| Order.LessTransitive | core_eqs.py:244 | Python's string order is transitive |
| Order.LessTotal | core_eqs.py:283 | Python's string order is total |
| Order.LeastExists | core_eqs.py:244 | a non-empty set of names has a least element |
| Order.SortedSet | core_eqs.py:283 | `sorted` of a set holds its members, each once, strictly increasing |
| Rewrite.ReSubUnmatched | core_eqs.py:67-82 | `re.sub` of a pattern that matches nowhere leaves the text unchanged |
| Rewrite.ReSubDrawsFrom | core_eqs.py:67-82 | when every replacement is drawn from the matched text and some literals, the result holds nothing else |
| Rewrite.ReSubCount | core_eqs.py:52-55 | when every match removes one `x`, one pass changes the text exactly when it matches somewhere, and then removes an `x` |
| Rewrite.ReSubNoPair | core_eqs.py:77-82 | a rewrite that clears a forbidden neighbour pair leaves none in its result |
| Rewrite.ReSubIdle | core_eqs.py:67-82 | a pattern that needs a character leaves text without that character unchanged |
| Normalize.SpacingMatch | core_eqs.py:18 | a match of a spacing command consumes part of the text and is replaced by nothing |
| Normalize.AmpGone | core_eqs.py:72 | `replace('&', '')` leaves no `&` and adds nothing |
| Normalize.ParenBase | core_eqs.py:38 | the parenthesised base group ends inside the text, at a `)` |
| Normalize.OptBracedShape | core_eqs.py:38 | the optional group `(?:_\{[^}]+\})?` takes only a braced subscript `_{…}` with a non-empty run free of `}` |
| Normalize.OptBracedOver | core_eqs.py:38 | the optional group takes a braced subscript wherever one stands, and nothing in front of the end or of a character other than `_` |
| Normalize.ParenBaseOf | core_eqs.py:38 | `(`, whitespace, a run of letters and backslashes with an optional braced subscript, whitespace and `)` is the base the pattern finds, at exactly those positions |
| Normalize.ParenBaseAt | core_eqs.py:38 | `( w1 base sub w2 )` is found whatever follows it; group 1 is `base sub`, without the whitespace |
| Normalize.UnwrapAt | core_eqs.py:47-49 | an opening, a non-empty run free of `}` and the closing braces are matched whole, whatever follows, and replaced by the run in `_{…}` |
| Normalize.UnwrapShape | core_eqs.py:47-49 | conversely, every match is such an opening, a non-empty run free of `}` and the closing braces, and its replacement is that run in `_{…}` |
| Normalize.ParenUnwrapAt | core_eqs.py:37-45 | `( w1 base sub w2 )` followed by a subscript the rule takes is matched whole and becomes `base sub _{c}` |
| Normalize.ParenTextSubMatch | core_eqs.py:37-40 | a match is rewritten to `BASE_{…}` using only characters of the text and `_{}` |
| Normalize.ParenTextSubRewrites | core_eqs.py:37-40 | `(BASE)_{\text{c}}` becomes `BASE_{c}` whatever follows, with the whitespace inside the parentheses dropped |
| Normalize.ParenSubMatch | core_eqs.py:42-45 | a match of `(BASE)_{…}` is rewritten using only characters of the text and `_{}` |
| Normalize.ParenSubRewrites | core_eqs.py:42-45 | `(BASE)_{c}` becomes `BASE_{c}` whatever follows, with the whitespace inside the parentheses dropped |
| Normalize.TextSubMatch | core_eqs.py:47 | `_{\text{…}}` becomes `_{…}` using only characters of the text and `_{}` |
| Normalize.TextSubRewrites | core_eqs.py:47 | `_{\text{c}}` becomes `_{c}` whatever follows, for any non-empty `c` free of `}` |
| Normalize.MathrmSubMatch | core_eqs.py:49 | `_{\mathrm{…}}` becomes `_{…}` using only characters of the text and `_{}` |
| Normalize.MathrmSubRewrites | core_eqs.py:49 | `_{\mathrm{c}}` becomes `_{c}` whatever follows, for any non-empty `c` free of `}` |
| Normalize.CommaAtOrBelow | core_eqs.py:52 | the greedy group backtracks to the last comma that leaves both groups non-empty |
| Normalize.CommaSite | core_eqs.py:52 | where the comma rule lands, it finds a brace-free subscript with a comma inside |
| Normalize.CommaRep | core_eqs.py:52 | the replacement `_{\1_\2}` has exactly one comma fewer than the text it replaces, and adds only `_{}` |
| Normalize.CommaSubMatchIff | core_eqs.py:52 | the comma rule matches exactly where a brace-free `_{…,…}` subscript starts |
| Normalize.CommaRemovesOne | core_eqs.py:52 | every match of the comma rule removes exactly one comma |
| Normalize.CommaPassCount | core_eqs.py:51-55 | one pass never adds a comma; it changes the text exactly when it matches, and then removes a comma |
| Normalize.CollapseCommas | core_eqs.py:51-55 | the fixed point of the comma rule terminates (commas bound the passes), matches nowhere and adds only `_{}` |
| Normalize.TextSubscripts | core_eqs.py:35-56 | `_normalize_text_subscripts` adds no character other than `_{}` |
| Normalize.NormalizeTextSubscripts | core_eqs.py:35-56 | the loop stops at a text the comma rule no longer matches, and computes `TextSubscripts` |
| Normalize.NoCommaSubscriptLeft | core_eqs.py:50-56 | after `_normalize_text_subscripts` no brace-free `_{…,…}` subscript is left anywhere |
| Normalize.DotMatch | core_eqs.py:58-63 | `\dot{X}` becomes `Xdot`, drawing only on the text and `dot` |
| Normalize.DotSuffixShape | core_eqs.py:61 | the optional suffix taken is `_` with letters or digits, a braced subscript, or nothing |
| Normalize.DotSuffixOver | core_eqs.py:61 | a suffix of that form in front of the closing `}` is the one taken |
| Normalize.DotOf | core_eqs.py:58-63 | `\dot{`, a letter, a suffix of that form and `}` are matched whole and become the letter and suffix followed by `dot` |
| Normalize.DotRewrites | core_eqs.py:58-63 | `\dot{x v}` becomes `x v dot` whatever follows, for a letter `x` and a suffix `v` of that form |
| Normalize.DotShape | core_eqs.py:58-63 | conversely, every match is `\dot{` with a letter, a suffix of that form and `}`, and the replacement is the letter and suffix followed by `dot` |
| Normalize.DotsExamples | core_eqs.py:59 | `\dot{W}` gives `Wdot` and `\dot{p_c}` gives `p_cdot` |
| Normalize.DotsIdle | core_eqs.py:58-63 | text without `\dot{` is unchanged |
| Normalize.BareMatch | core_eqs.py:20-21 | a marker before a letter or digit is braced, and nothing else matches |
| Normalize.BrackMatch | core_eqs.py:22 | an innermost bracket group becomes the same content in parentheses |
| Normalize.SpaceRunMatch | core_eqs.py:82 | a whitespace run is replaced whole by one space |
| Normalize.SubBareClears | core_eqs.py:77 | `_SUB_BARE` leaves no `_` before a letter or digit |
| Normalize.ExpBareClears | core_eqs.py:78 | `_EXP_BARE` leaves no `^` before a letter or digit |
| Normalize.SpaceRunClears | core_eqs.py:82 | after collapsing, no two whitespace characters are adjacent |
| Normalize.StripMarkup | core_eqs.py:67-72 | after the first four substitutions no `&` is left |
| Normalize.NormalizedForm | core_eqs.py:65-83 | the normaliser's output has no `&`, no whitespace at either end, no two adjacent whitespace characters, and no `_` or `^` before a letter or digit |
| Normalize.NormalizeKeeps | core_eqs.py:65-83 | text no rule applies to is returned unchanged |
| Normalize.PlainText | core_eqs.py:65-83 | on text without `\`, `&`, `_` or `^`, only the bracket rule, the whitespace rule and `strip` act |
| Normalize.NotIdempotent | core_eqs.py:80 | `[[a]]` normalises to `[(a)]`, which normalises again to `((a))` |
| Balance.DepthCounts | core_eqs.py:24-33 | the depth at the end is the count of `{` minus the count of `}` |
| Balance.Balanced | core_eqs.py:24-33 | the stack method answers true exactly when the depth never goes negative and ends at zero |
| Balance.OtherCharIgnored | core_eqs.py:26-32 | inserting a non-brace character anywhere does not change the answer |
| FastPath.DropSpaces | core_eqs.py:119 | the result holds no whitespace and no new character |
| FastPath.LatexName | core_eqs.py:94-123 | a name, when found, matches `_SIMPLE_NAME_RE` |
| FastPath.SimpleNameIsName | core_eqs.py:92-123 | a simple name is the name of itself |
| FastPath.SubscriptName | core_eqs.py:111-116 | `a_{b}`, and `a_{b` without the closing brace, both name `a_b` |
| FastPath.GreekName | core_eqs.py:107-109 | a backslash followed by letters names the letters |
| FastPath.AdmittedWdot | core_eqs.py:100 | `Wdot` names `Wdot` |
| FastPath.AdmittedPt | core_eqs.py:101 | `p_{t}` names `p_t` |
| FastPath.AdmittedPcns | core_eqs.py:102 | `p_{cns}` names `p_cns` |
| FastPath.AdmittedEpsilon | core_eqs.py:103 | `\epsilon` names `epsilon` |
| FastPath.AdmittedVx | core_eqs.py:104 | `v_{x}` names `v_x` |
| FastPath.NotNameBy | core_eqs.py:106-123 | trimmed text not starting with `\` that holds one of `()/+` is not a name |
| FastPath.FracNotName | core_eqs.py:112-123 | `\frac` followed by a character other than a letter (and not ending in whitespace) is never a name, since its cleaned text starts with a backslash; `\fracab` is the name `fracab` |
| FastPath.FracParts | core_eqs.py:142 | the two groups are non-empty and brace-free, and rebuild the text as `\frac{a}{b}` |
| FastPath.FracPartsOf | core_eqs.py:142 | every such fraction is recognised, with its own two parts |
| FastPath.ParenGroup | core_eqs.py:150 | the pattern matches exactly parenthesised text with no parenthesis inside; the group is the content after its leading whitespace (keeping one character) |
| FastPath.ParenGroupOf | core_eqs.py:150 | parenthesised text that does not start with whitespace is recognised, with itself as the group |
| FastPath.NameQuotient | core_eqs.py:144-147 | a quotient exists exactly when both texts are names, and it is the quotient of their symbols |
| FastPath.FastPathExpr | core_eqs.py:125-163 | every fast-path result is a symbol with a simple name, or a quotient of two such symbols |
| FastPath.FastPathStrips | core_eqs.py:134 | the fast path depends on the stripped text only |
| FastPath.FastPathNameFirst | core_eqs.py:136-139 | whatever names a symbol is taken as that symbol, before any other rule |
| FastPath.FastPathFrac | core_eqs.py:141-147 | `\frac{a}{b}` of two simple names is `a/b` |
| FastPath.FastPathParen | core_eqs.py:149-152 | one pair of parentheses around parenthesis-free text changes nothing |
| FastPath.FastPathOneLevel | core_eqs.py:149-152 | `((a))` is not recognised: only one level is looked through |
| FastPath.FastPathRatio | core_eqs.py:154-161 | `a/b` of two simple names is their quotient |
| FastPath.FastPathMisses | core_eqs.py:125-163 | trimmed text starting with a letter that holds `(`, `)` or `+` and no `/` is taken by no rule |
| ParseChain.ParseNormalized | core_eqs.py:170-194 | the chain fails exactly when the fast path misses and either the braces are unbalanced or both parsers fail; the error names which, and carries the normalised text; any success comes from the fast path or a parser |
| ParseChain.FastPathDecides | core_eqs.py:172-175 | a fast-path hit is the result whatever the parsers are |
| ParseChain.BalanceBeforeParsers | core_eqs.py:177-178 | unbalanced braces are reported before any parser is called |
| ParseChain.PrimaryFirst | core_eqs.py:181-187 | the secondary parser matters only when the primary one fails |
| ParseChain.BothParsersFail | core_eqs.py:188-194 | when both parsers fail, the error carries both messages |
| ParseChain.UnclosedSubscriptParses | core_eqs.py:170-178 | `a_{b` is unbalanced and still parses to the symbol `a_b` |
| ParseChain.UnclosedGroupRejected | core_eqs.py:170-178 | `a+{b` is reported as unbalanced whatever the parsers would do |
| Blocks.ClosedRun | core_eqs.py:201 | `[^\}]+\}` ends at the first `}`, after a non-empty run |
| Blocks.ClosedRunMisses | core_eqs.py:201 | the run fails exactly when it is empty or no `}` closes it |
| Blocks.Tag | core_eqs.py:201 | the tag group is non-empty and holds no `}` |
| Blocks.BlockFrom | core_eqs.py:201 | a lazy match found from a position starts where `\begin{equation}` matched, has its `\tag{` at or after that position, and ends inside the source |
| Blocks.BlockFromTag | core_eqs.py:201 | the match stops at a `\tag{` whose tag is closed, and takes that tag and the first `\end{equation}` after it |
| Blocks.BlockFromFirst | core_eqs.py:201 | the lazy body skips no `\tag{` at which a match is possible, and there is no match only when no such `\tag{` exists |
| Blocks.BlockFromFirstHit | core_eqs.py:201 | conversely, the first `\tag{` at which a match is possible is where the match stops, with that tag and end |
| Blocks.BlockFromIsBlock | core_eqs.py:201 | what the lazy match finds is a block of the source |
| Blocks.BlockText | core_eqs.py:201 | a block covers exactly its pieces laid side by side |
| Blocks.BlocksFrom | core_eqs.py:200-203 | `finditer` yields matches inside the source, left to right, without overlap |
| Blocks.BlocksFromAreBlocks | core_eqs.py:253 | every match `finditer` yields is a block |
| Blocks.BlocksFromMatched | core_eqs.py:253 | every match `finditer` yields is the match of the pattern at its own start |
| Blocks.BlocksFromComplete | core_eqs.py:253 | `finditer` skips no match: none starts before the first match it yields, between two of them, or after the last |
| Blocks.BlockFound | core_eqs.py:201 | with no `\tag{` in the body before the tag and no `\end{equation}` in the tail, the lazy match stops at that `\tag{` and that `\end{equation}` |
| Blocks.SingleBlock | core_eqs.py:200-203 | a block written out with no `\tag{` in its body, no `\end{equation}` in its tail and a non-empty tag free of `}` is found with its body and tag, and it is the only block |
| Blocks.AlignedFrom | core_eqs.py:205-208 | the content group lies between a `\begin{aligned}` and the first `\end{aligned}` after it |
| Blocks.AlignedFromFirst | core_eqs.py:224 | the search succeeds exactly when an `\end{aligned}` follows the first `\begin{aligned}`, and the content then runs from that begin to the first end after it |
| Blocks.AlignedFromNone | core_eqs.py:224 | with no `\end{aligned}` after a point, no `\begin{aligned}` from there on gives a match |
| Blocks.AlignedFound | core_eqs.py:224-225 | when no `\begin{aligned}` comes before it and no `\end{aligned}` is inside its content, the aligned environment written out is the one found, with its content |
| Blocks.TagMatch | core_eqs.py:226 | `\tag{…}` is matched exactly where `\tag{` begins a closed non-empty run, and is deleted |
| Blocks.KeepStripped | core_eqs.py:228 | no more lines are kept than there are pieces |
| Blocks.KeepStrippedConcat | core_eqs.py:228 | keeping stripped lines preserves order: it distributes over concatenation |
| Blocks.KeepStrippedAll | core_eqs.py:228 | when no piece is blank, each piece gives its stripped self |
| Blocks.KeepStrippedFrom | core_eqs.py:228 | every kept line is a non-blank stripped piece |
| Blocks.LinesFromBlock | core_eqs.py:222-228 | every line is stripped, non-blank and free of `\\` |
| Blocks.PayloadPlain | core_eqs.py:224-226 | a body with no `\begin{aligned}` and no `\tag{` is its own payload |
| Blocks.PayloadAligned | core_eqs.py:224-226 | when no `\begin{aligned}` comes before it and its content holds no `\end{aligned}` and no `\tag{`, the payload is the aligned content |
| Blocks.LinesPlain | core_eqs.py:222-228 | a body with no `\begin{aligned}`, no `\tag{` and no `\\` gives its stripped self, or nothing when that is blank |
| Blocks.LinesAligned | core_eqs.py:222-228 | lines with no `\\` in them, none but the last ending in a backslash, joined by `\\` inside the first `aligned` environment (with no `\end{aligned}` or `\tag{` in the content), come back as the stripped non-blank lines, in order |
| Blocks.JoinSplitLines | core_eqs.py:227 | lines with no `\\` in them, none but the last ending in a backslash, joined by `\\` and split again, are given back |
| Algebra.ResidualVanishes | core_eqs.py:238-240 | the residual evaluates to zero exactly where the object holds |
| Registry.ToExprOrEq | core_eqs.py:230-236 | a line gives an equation exactly when its normal form holds `=`; without `=` it is the parse of the whole normal form |
| Registry.EquationLine | core_eqs.py:233-235 | with `=`, the sides before and after the first `=` are parsed, left first; the first error is reported |
| Registry.ParseLines | core_eqs.py:262-269 | a line that raises is skipped, so no more objects than lines are kept |
| Registry.ParseLinesConcat | core_eqs.py:262-269 | parsing preserves line order: it distributes over concatenation |
| Registry.ParseLinesAllOk | core_eqs.py:262-269 | when every line parses, each line gives its object, in order |
| Registry.ParseLinesAllFail | core_eqs.py:262-268 | when no line parses, nothing is kept |
| Registry.ParseLinesFrom | core_eqs.py:262-269 | every object kept is the object of some line |
| Registry.Residuals | core_eqs.py:270-271 | one residual per object |
| Registry.SymbolsOf | core_eqs.py:242-244 | the names of the free symbols, each once, strictly sorted |
| Registry.SymbolLists | core_eqs.py:272 | one symbol list per residual |
| Registry.Entries | core_eqs.py:253-256 | one entry per block, in source order, each with the block's stripped tag and its objects |
| Registry.FiledKeys | core_eqs.py:274 | the keys filed are exactly the entries' tags |
| Registry.LastEntryWins | core_eqs.py:274-276 | under a key is the value of the last entry with that key |
| Registry.SourceTags | core_eqs.py:253-276 | a tag is filed exactly when some block carries it, after stripping |
| Registry.LastBlockFiled | core_eqs.py:253-276 | under a tag are the objects of the last block with that tag; the tag stays, with no objects, when none of its lines parses |
| Registry.OneBlockSource | core_eqs.py:246-278 | a source with one block whose body has no `\tag{`, no `\begin{aligned}` and no `\\`, and whose tail has no `\end{equation}`, files its stripped tag with the object of its stripped body, or with nothing |
| Registry.AlignedFiled | core_eqs.py:274-276 | filing objects with their residuals and symbol lists keeps the three dictionaries aligned |
| Registry.CoreEqs.constructor | core_eqs.py:216-220 | the three dictionaries start empty |
| Registry.CoreEqs.ParseBlock | core_eqs.py:258-272 | the inner loop gives the parsed objects, their residuals and their symbol lists |
| Registry.CoreEqs.FileBlock | core_eqs.py:253-276 | after block `j`, the dictionary is the first `j + 1` entries filed, and the three dictionaries stay aligned |
| Registry.CoreEqs.FileBlocks | core_eqs.py:253-276 | the loop files every entry, keeping the dictionaries aligned |
| Registry.CoreEqs.FromTex | core_eqs.py:246-278 | `from_tex` gives a new container whose `eqs` is the source's entries filed in order, with aligned residuals and symbols |
| Registry.CoreEqs.Tags | core_eqs.py:282-283 | the tags are each key once, strictly sorted |
| Registry.CoreEqs.Substitute | core_eqs.py:285-288 | an unknown tag is a `KeyError` naming the sorted tags; otherwise each residual has `subs` applied, in order |
| Registry.CoreEqs.SolveFor | core_eqs.py:290-299 | an unknown tag is a `KeyError`; otherwise a single residual is solved as one equation and several as a system |

## Left out

- File reading (`open`, `read`) is left out: `from_tex` takes the text of the file.
  The command-line entry point (lines 305-337) and every `print` to standard error are left out too.
- SymPy is left out:
  - `latex2sympy` and `parse_latex` are the `primary` and `secondary` functions of a `Backend`;
  - `free_symbols` is a function of the `Backend`;
  - `sp.solve` is returned as the call it would make (`SolveSingle` or `SolveSystem`), not as its solutions;
  - `subs` is the term `Substituted`;
  - no simplification is modelled, and `sympify` of a bare expression is the identity.
- The lazy import of `latex2sympy2` is left out: its failure is one more error of the primary parser.
- Exception messages are reduced to the data they carry: the normalised text and both parsers' messages.
- `str.isalpha` and `\s` follow Python on ASCII. Non-ASCII letters are treated as non-letters; `_SIMPLE_NAME_RE` rejects them either way.
- The `re.M` flag has no effect, since neither pattern uses `^` or `$`, so it is left out.
- Registry.SymbolsOf: sorts symbol names and keeps each once. Two distinct SymPy symbols with the same name (different assumptions) are not modelled.
- Blocks.ClosedRun: its `None` case is stated by the separate lemma `Blocks.ClosedRunMisses`.
- Registry.ToExprOrEq: the `=` case is stated by `Registry.EquationLine` rather than in its own contract.
