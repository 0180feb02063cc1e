/** Finding the tagged equation blocks of a LaTeX source (`_EQN_BLOCK_RE`) and the
    lines of a block (`_ALIGNED_RE`, `CoreEqs._lines_from_block`). Both patterns are
    compiled with `re.S`, so `.` matches any character, newlines included. */
module Blocks {
  import opened Results
  import opened Text
  import opened Rewrite

  const EqBegin := "\\begin{equation}"
  const EqEnd := "\\end{equation}"
  const TagOpen := "\\tag{"
  const AlignedBegin := "\\begin{aligned}"
  const AlignedEnd := "\\end{aligned}"
  /** The LaTeX line break `\\`. */
  const LineBreak := "\\\\"

  // ---------------------------------------------------------------------------
  // `_EQN_BLOCK_RE`
  // ---------------------------------------------------------------------------

  /** One match of `\\begin\{equation\}(?P<body>.*?)\\tag\{(?P<tag>[^\}]+)\}.*?\\end\{equation\}`,
      by position in the source: where the match starts, where `\tag{` starts, where the
      `}` closing the tag is, and where `\end{equation}` starts. */
  datatype Block = Block(start: nat, tagOpen: nat, tagClose: nat, endOpen: nat)

  /** Where the match ends. */
  function End(b: Block): nat {
    b.endOpen + |EqEnd|
  }

  /** `[^\}]+\}` at `src[i..]`: where the `}` closing the run is, when the run is not
      empty and a `}` closes it. */
  function ClosedRun(src: string, i: nat): (r: Option<nat>)
    requires i <= |src|
    ensures r.Some? ==> i < r.value < |src| && src[r.value] == '}'
    ensures r.Some? ==> NoneOf(src, '}', i, r.value)
  {
    var e := RunEnd(src, i, NotCloseBrace);
    RunEndStops(src, i, NotCloseBrace);
    if i < e < |src| then Some(e) else None
  }

  /** The match is a block of `src`: `\begin{equation}` at `b.start`, then the body, then
      `\tag{`, the tag (a non-empty run without `}`), `}`, the tail and `\end{equation}`. */
  predicate IsBlockOf(src: string, b: Block) {
    b.start + |EqBegin| <= b.tagOpen && b.tagOpen + |TagOpen| < b.tagClose < b.endOpen
    && End(b) <= |src|
    && At(src, EqBegin, b.start) && At(src, TagOpen, b.tagOpen) && src[b.tagClose] == '}'
    && NoneOf(src, '}', b.tagOpen + |TagOpen|, b.tagClose) && At(src, EqEnd, b.endOpen)
  }

  /** The `body` group. */
  function Body(src: string, b: Block): string
    requires IsBlockOf(src, b)
  {
    src[b.start + |EqBegin|..b.tagOpen]
  }

  /** The `tag` group: not empty, and without `}`. */
  function Tag(src: string, b: Block): (t: string)
    requires IsBlockOf(src, b)
    ensures |t| > 0 && '}' !in t
  {
    NoneOfSlice(src, '}', b.tagOpen + |TagOpen|, b.tagClose);
    src[b.tagOpen + |TagOpen|..b.tagClose]
  }

  /** What the second `.*?` takes. */
  function Tail(src: string, b: Block): string
    requires IsBlockOf(src, b)
  {
    src[b.tagClose + 1..b.endOpen]
  }

  /** With `\tag{` at `q`: where `[^\}]+\}` closes the tag and where the first
      `\end{equation}` after it starts, when both exist. */
  function TagAt(src: string, q: nat): (r: Option<(nat, nat)>)
    requires q + |TagOpen| <= |src|
    ensures r.Some? ==> q + |TagOpen| < r.value.0 < r.value.1 && r.value.1 + |EqEnd| <= |src|
  {
    var i := q + |TagOpen|;
    match ClosedRun(src, i)
    case None => None
    case Some(c) =>
      match FindFrom(src, EqEnd, c + 1)
      case None => None
      case Some(e) => Some((c, e))
  }

  /** What `TagAt` finds: a closing `}` after a run without one, and `\end{equation}`. */
  lemma TagAtFinds(src: string, q: nat)
    requires q + |TagOpen| <= |src| && TagAt(src, q).Some?
    ensures var (c, e) := TagAt(src, q).value;
      src[c] == '}' && At(src, EqEnd, e) && NoneOf(src, '}', q + |TagOpen|, c)
  {
  }

  /** A `\tag{` starts at `k` whose tag is closed and followed by an `\end{equation}`:
      where the lazy body of a block can stop. */
  predicate TagHit(src: string, k: nat) {
    k + |TagOpen| <= |src| && At(src, TagOpen, k) && TagAt(src, k).Some?
  }

  /** The rest of the match once `\begin{equation}` has matched at `start`: the lazy body
      tries each `\tag{` at or after `q` in turn and stops at the first whose tag is closed
      and followed by an `\end{equation}`; the lazy tail stops at the first
      `\end{equation}` after the tag. */
  function BlockFrom(src: string, start: nat, q: nat): (r: Option<Block>)
    requires start + |EqBegin| <= q <= |src| && At(src, EqBegin, start)
    ensures r.Some? ==> r.value.start == start && q <= r.value.tagOpen < End(r.value) <= |src|
    decreases |src| - q
  {
    if q + |TagOpen| > |src| then None
    else if !TagHit(src, q) then BlockFrom(src, start, q + 1)
    else
      var ce := TagAt(src, q).value;
      Some(Block(start, q, ce.0, ce.1))
  }

  /** No `\tag{` that closes starts in `[a, b)`. */
  predicate NoHit(src: string, a: nat, b: nat) {
    forall k :: a <= k < b ==> !TagHit(src, k)
  }

  /** Where the search for a closing `\tag{` stopped: at the one it found, or past the end. */
  function StopAt(src: string, r: Option<Block>): nat {
    if r.Some? then r.value.tagOpen else |src| + 1
  }

  /** The lazy body stops at the first place it can: `BlockFrom` skips no `\tag{` that
      closes, and finds nothing only when there is none. */
  lemma BlockFromFirst(src: string, start: nat, q: nat)
    requires start + |EqBegin| <= q <= |src| && At(src, EqBegin, start)
    ensures NoHit(src, q, StopAt(src, BlockFrom(src, start, q)))
  {
    forall j | q <= j < StopAt(src, BlockFrom(src, start, q)) ensures !TagHit(src, j) {
      if TagHit(src, j) {
        BlockFromHit(src, start, j);
        BlockFromReaches(src, start, q, j);
        assert false;
      }
    }
  }

  /** A search that would stop at `j` stops there or before when it starts earlier. */
  lemma {:induction false} BlockFromReaches(src: string, start: nat, q: nat, j: nat)
    requires start + |EqBegin| <= q <= j && j + |TagOpen| <= |src| && At(src, EqBegin, start)
    requires BlockFrom(src, start, j).Some? && BlockFrom(src, start, j).value.tagOpen == j
    ensures BlockFrom(src, start, q).Some? && BlockFrom(src, start, q).value.tagOpen <= j
    decreases j - q
  {
    if q < j {
      BlockFromMoves(src, start, q);
      if BlockFrom(src, start, q) == BlockFrom(src, start, q + 1) {
        BlockFromReaches(src, start, q + 1, j);
      }
    }
  }

  /** One step of the search from `q`: it stops at `q` or moves on. */
  lemma BlockFromMoves(src: string, start: nat, q: nat)
    requires start + |EqBegin| <= q && q + |TagOpen| <= |src| && At(src, EqBegin, start)
    ensures || (BlockFrom(src, start, q).Some? && BlockFrom(src, start, q).value.tagOpen == q)
            || BlockFrom(src, start, q) == BlockFrom(src, start, q + 1)
  {
  }

  /** Where a `\tag{` closes, the search stops. */
  lemma BlockFromHit(src: string, start: nat, q: nat)
    requires start + |EqBegin| <= q && q + |TagOpen| <= |src| && At(src, EqBegin, start)
    requires TagHit(src, q)
    ensures BlockFrom(src, start, q).Some? && BlockFrom(src, start, q).value.tagOpen == q
  {
  }

  /** Where no `\tag{` closes, the search moves on. */
  lemma BlockFromSkip(src: string, start: nat, q: nat)
    requires start + |EqBegin| <= q && q + |TagOpen| <= |src| && At(src, EqBegin, start)
    requires !TagHit(src, q)
    ensures BlockFrom(src, start, q) == BlockFrom(src, start, q + 1)
  {
  }

  /** The search stops at a `\tag{` that closes, and the match takes that tag and the
      `\end{equation}` after it. */
  lemma {:induction false} BlockFromTag(src: string, start: nat, q: nat)
    requires start + |EqBegin| <= q <= |src| && At(src, EqBegin, start)
    ensures var r := BlockFrom(src, start, q);
      r.Some? ==>
        TagHit(src, r.value.tagOpen) && TagAt(src, r.value.tagOpen) == Some((r.value.tagClose, r.value.endOpen))
    decreases |src| - q
  {
    if q + |TagOpen| <= |src| && !TagHit(src, q) {
      BlockFromSkip(src, start, q);
      BlockFromTag(src, start, q + 1);
    }
  }

  /** What `BlockFrom` finds is a block match of `src`. */
  lemma {:induction false} BlockFromIsBlock(src: string, start: nat, q: nat)
    requires start + |EqBegin| <= q <= |src| && At(src, EqBegin, start)
    ensures BlockFrom(src, start, q).Some? ==> IsBlockOf(src, BlockFrom(src, start, q).value)
    decreases |src| - q
  {
    if q + |TagOpen| <= |src| {
      if !At(src, TagOpen, q) || TagAt(src, q).None? {
        BlockFromIsBlock(src, start, q + 1);
      } else {
        TagAtFinds(src, q);
      }
    }
  }

  /** A block match covers exactly the text of its pieces laid side by side. */
  lemma BlockText(src: string, b: Block)
    requires IsBlockOf(src, b)
    ensures src[b.start..End(b)] == EqBegin + Body(src, b) + TagOpen + Tag(src, b) + "}" + Tail(src, b) + EqEnd
  {
    var s0 := b.start;
    var s1 := s0 + |EqBegin|;
    var q := b.tagOpen;
    var i := q + |TagOpen|;
    var c := b.tagClose;
    var c1 := c + 1;
    var e := b.endOpen;
    var fin := End(b);
    AtSlice(src, EqBegin, s0, s1);
    AtSlice(src, TagOpen, q, i);
    assert src[c..c1] == "}";
    AtSlice(src, EqEnd, e, fin);
    JoinSeven(src, s0, s1, q, i, c, c1, e, fin,
              EqBegin, Body(src, b), TagOpen, Tag(src, b), "}", Tail(src, b), EqEnd);
  }

  /** Seven adjacent slices laid side by side make the slice they cover. */
  lemma JoinSeven(s: string, a0: nat, a1: nat, a2: nat, a3: nat, a4: nat, a5: nat, a6: nat, a7: nat,
                  p1: string, p2: string, p3: string, p4: string, p5: string, p6: string, p7: string)
    requires a0 <= a1 <= a2 <= a3 <= a4 <= a5 <= a6 <= a7 <= |s|
    requires s[a0..a1] == p1 && s[a1..a2] == p2 && s[a2..a3] == p3 && s[a3..a4] == p4
    requires s[a4..a5] == p5 && s[a5..a6] == p6 && s[a6..a7] == p7
    ensures s[a0..a7] == p1 + p2 + p3 + p4 + p5 + p6 + p7
  {
    assert s[a0..a2] == p1 + p2 by { SliceJoin(s, a0, a1, a2); }
    assert s[a0..a3] == p1 + p2 + p3 by { SliceJoin(s, a0, a2, a3); }
    assert s[a0..a4] == p1 + p2 + p3 + p4 by { SliceJoin(s, a0, a3, a4); }
    assert s[a0..a5] == p1 + p2 + p3 + p4 + p5 by { SliceJoin(s, a0, a4, a5); }
    assert s[a0..a6] == p1 + p2 + p3 + p4 + p5 + p6 by { SliceJoin(s, a0, a5, a6); }
    SliceJoin(s, a0, a6, a7);
  }

  lemma SliceJoin(s: string, a: nat, m: nat, b: nat)
    requires a <= m <= b <= |s|
    ensures s[a..b] == s[a..m] + s[m..b]
  {
  }

  /** `_EQN_BLOCK_RE.finditer(src)` from position `from`: the matches, left to right, each
      search trying every start in turn and resuming where the previous match ended. */
  function BlocksFrom(src: string, from: nat): (bs: seq<Block>)
    requires from <= |src|
    ensures forall j :: 0 <= j < |bs| ==> from <= bs[j].start < End(bs[j]) <= |src|
    ensures forall j :: 0 < j < |bs| ==> End(bs[j - 1]) <= bs[j].start
    decreases |src| - from
  {
    if from + |EqBegin| > |src| then []
    else if !At(src, EqBegin, from) then BlocksFrom(src, from + 1)
    else
      match BlockFrom(src, from, from + |EqBegin|)
      case None => BlocksFrom(src, from + 1)
      case Some(blk) => [blk] + BlocksFrom(src, End(blk))
  }

  /** Every match `finditer` yields is a block match of `src`. */
  lemma {:induction false} BlocksFromAreBlocks(src: string, from: nat)
    requires from <= |src|
    ensures forall j :: 0 <= j < |BlocksFrom(src, from)| ==> IsBlockOf(src, BlocksFrom(src, from)[j])
    decreases |src| - from
  {
    if from + |EqBegin| <= |src| {
      if !At(src, EqBegin, from) {
        BlocksFromAreBlocks(src, from + 1);
      } else {
        BlockFromIsBlock(src, from, from + |EqBegin|);
        match BlockFrom(src, from, from + |EqBegin|)
        case None => BlocksFromAreBlocks(src, from + 1);
        case Some(blk) => BlocksFromAreBlocks(src, End(blk));
      }
    }
  }

  /** The pattern matches at `p`. */
  predicate MatchAt(src: string, p: nat) {
    p + |EqBegin| <= |src| && At(src, EqBegin, p) && BlockFrom(src, p, p + |EqBegin|).Some?
  }

  /** `b` is the match at its own start. */
  predicate MatchedAt(src: string, b: Block) {
    b.start + |EqBegin| <= |src| && At(src, EqBegin, b.start)
    && BlockFrom(src, b.start, b.start + |EqBegin|) == Some(b)
  }

  /** The pattern matches nowhere in `[a, b)`. */
  predicate NoMatchIn(src: string, a: nat, b: nat) {
    forall p :: a <= p < b ==> !MatchAt(src, p)
  }

  /** Where `finditer` resumed before yielding `bs[j]`, or after the last one. */
  function Resume(bs: seq<Block>, from: nat, j: nat): nat
    requires j <= |bs|
  {
    if j == 0 then from else End(bs[j - 1])
  }

  /** Where the search resumed at `Resume(bs, from, j)` succeeded, or past the end. */
  function Next(src: string, bs: seq<Block>, j: nat): nat
    requires j <= |bs|
  {
    if j == |bs| then |src| + 1 else bs[j].start
  }

  /** Every match `finditer` yields is the match at its own start. */
  lemma {:induction false} BlocksFromMatched(src: string, from: nat)
    requires from <= |src|
    ensures var bs := BlocksFrom(src, from);
      forall j :: 0 <= j < |bs| ==> MatchedAt(src, bs[j])
    decreases |src| - from
  {
    if from + |EqBegin| <= |src| {
      if !MatchAt(src, from) {
        BlocksFromSkip(src, from);
        BlocksFromMatched(src, from + 1);
      } else {
        var blk := BlocksFromTake(src, from);
        BlocksFromMatched(src, End(blk));
        var bs := BlocksFrom(src, from);
        forall j | 0 <= j < |bs| ensures MatchedAt(src, bs[j]) {
          if j > 0 {
            assert bs[j] == BlocksFrom(src, End(blk))[j - 1];
          }
        }
      }
    }
  }

  /** `finditer` skips no match: none starts before the first match it yields, between
      two of them or after the last. */
  lemma {:induction false} BlocksFromComplete(src: string, from: nat)
    requires from <= |src|
    ensures var bs := BlocksFrom(src, from);
      forall j :: 0 <= j <= |bs| ==> NoMatchIn(src, Resume(bs, from, j), Next(src, bs, j))
    decreases |src| - from
  {
    var bs := BlocksFrom(src, from);
    if from + |EqBegin| > |src| {
      assert bs == [];
      assert NoMatchIn(src, from, |src| + 1);
    } else if !MatchAt(src, from) {
      BlocksFromComplete(src, from + 1);
      BlocksFromSkip(src, from);
      forall j | 0 <= j <= |bs| ensures NoMatchIn(src, Resume(bs, from, j), Next(src, bs, j)) {
        if j == 0 {
          NoMatchExtend(src, from, Next(src, bs, 0));
        } else {
          assert Resume(bs, from, j) == Resume(bs, from + 1, j);
        }
      }
    } else {
      var blk := BlocksFromTake(src, from);
      var tail := BlocksFrom(src, End(blk));
      BlocksFromComplete(src, End(blk));
      forall j | 0 <= j <= |bs| ensures NoMatchIn(src, Resume(bs, from, j), Next(src, bs, j)) {
        if j > 0 {
          assert Resume(bs, from, j) == Resume(tail, End(blk), j - 1);
          assert Next(src, bs, j) == Next(src, tail, j - 1);
        }
      }
    }
  }

  /** Where the pattern matches, `finditer` yields that match and resumes at its end. */
  lemma BlocksFromTake(src: string, from: nat) returns (blk: Block)
    requires from <= |src| && MatchAt(src, from)
    ensures MatchedAt(src, blk) && blk.start == from
    ensures BlocksFrom(src, from) == [blk] + BlocksFrom(src, End(blk))
  {
    blk := BlockFrom(src, from, from + |EqBegin|).value;
  }

  /** Where the pattern does not match, `finditer` moves on by one. */
  lemma BlocksFromSkip(src: string, from: nat)
    requires from + |EqBegin| <= |src| && !MatchAt(src, from)
    ensures BlocksFrom(src, from) == BlocksFrom(src, from + 1)
  {
  }

  /** A place where the pattern does not match extends a stretch without matches by one. */
  lemma NoMatchExtend(src: string, p: nat, b: nat)
    requires !MatchAt(src, p) && NoMatchIn(src, p + 1, b)
    ensures NoMatchIn(src, p, b)
  {
    forall k | p <= k < b ensures !MatchAt(src, k) {
      if k > p {
        assert p + 1 <= k < b;
      }
    }
  }

  /** The blocks of a whole source. */
  function EquationBlocks(src: string): seq<Block> {
    BlocksFrom(src, 0)
  }

  /** A text cannot hold `pat` where its first character is missing. */
  lemma NotAtFirst(s: string, pat: string, k: nat)
    requires |pat| > 0 && k < |s| && s[k] != pat[0]
    ensures !At(s, pat, k)
  {
  }

  /** The lazy body stops at the first `\tag{` where it can: the match found from `q` is
      the one of the first such `\tag{` at or after `q`. */
  lemma BlockFromFirstHit(src: string, start: nat, q: nat, k: nat, c: nat, e: nat)
    requires start + |EqBegin| <= q <= k && k + |TagOpen| <= |src| && At(src, EqBegin, start)
    requires At(src, TagOpen, k) && TagAt(src, k) == Some((c, e))
    requires forall j :: q <= j < k ==> !TagHit(src, j)
    ensures BlockFrom(src, start, q) == Some(Block(start, k, c, e))
  {
    var r := BlockFrom(src, start, q);
    BlockFromFirst(src, start, q);
    BlockFromTag(src, start, q);
    assert TagHit(src, k);
    assert r.Some?;
    var b := r.value;
    assert b.tagOpen == k && b.start == start;
    assert (b.tagClose, b.endOpen) == (c, e);
  }

  /** `ClosedRun` finds nothing exactly when the run is empty or no `}` closes it. */
  lemma ClosedRunMisses(src: string, i: nat)
    requires i <= |src|
    ensures ClosedRun(src, i).None? <==> i == |src| || src[i] == '}' || NoneOf(src, '}', i, |src|)
  {
    RunEndStops(src, i, NotCloseBrace);
  }

  /** A run without `}` closed by a `}` is the run `ClosedRun` measures. */
  lemma ClosedRunFound(src: string, i: nat, c: nat)
    requires i < c < |src| && NoneOf(src, '}', i, c) && src[c] == '}'
    ensures ClosedRun(src, i) == Some(c)
  {
    RunEndOver(src, i, c, NotCloseBrace);
  }

  /** `TagAt` from what it searches for. */
  lemma TagAtOf(src: string, q: nat, c: nat, e: nat)
    requires q + |TagOpen| <= |src| && ClosedRun(src, q + |TagOpen|) == Some(c)
    requires c + 1 <= |src| && FindFrom(src, EqEnd, c + 1) == Some(e)
    ensures TagAt(src, q) == Some((c, e))
  {
  }

  /** The text of one block written out. */
  function Written(body: string, tag: string, tail: string): string {
    EqBegin + body + TagOpen + tag + "}" + tail + EqEnd
  }

  /** Where the pieces of a block written out lie in its text. */
  lemma WrittenSlices(body: string, tag: string, tail: string)
    ensures var src := Written(body, tag, tail);
      var s1 := |EqBegin|;
      var q := s1 + |body|;
      var c := q + |TagOpen| + |tag|;
      var e := c + 1 + |tail|;
      e + |EqEnd| == |src| && At(src, EqBegin, 0) && src[s1..q] == body
      && At(src, TagOpen, q) && src[q + |TagOpen|..c] == tag && src[c] == '}'
      && src[c + 1..e] == tail && At(src, EqEnd, e)
  {
    var src := Written(body, tag, tail);
    var s1 := |EqBegin|;
    var q := s1 + |body|;
    var i := q + |TagOpen|;
    var c := i + |tag|;
    var e := c + 1 + |tail|;
    var w1 := EqBegin + body;
    var w2 := w1 + TagOpen;
    var w3 := w2 + tag;
    var w4 := w3 + "}";
    var w5 := w4 + tail;
    assert src == w5 + EqEnd;
    assert src[..e] == w5 && src[e..] == EqEnd;
    assert w5[..c + 1] == w4 && w5[c + 1..] == tail;
    assert w4[..c] == w3 && w4[c] == '}';
    assert w3[..i] == w2 && w3[i..] == tag;
    assert w2[..q] == w1 && w2[q..] == TagOpen;
    assert w1[..s1] == EqBegin && w1[s1..] == body;
    assert src[s1..q] == w1[s1..];
    assert src[q..][..|TagOpen|] == w2[q..];
    assert src[i..c] == w3[i..];
    assert src[c + 1..e] == w5[c + 1..];
  }

  /** The match of a block written out, by position. */
  function WrittenBlock(body: string, tag: string, tail: string): Block {
    var q := |EqBegin| + |body|;
    var c := q + |TagOpen| + |tag|;
    Block(0, q, c, c + 1 + |tail|)
  }

  /** A `\begin{equation}` at `start` followed by a body without `\tag{`, a closed tag and,
      with no `\end{equation}` before it, an `\end{equation}`: the lazy match is that
      block. */
  lemma BlockFound(src: string, start: nat, q: nat, c: nat, e: nat)
    requires start + |EqBegin| <= q && q + |TagOpen| < c < e && e + |EqEnd| <= |src|
    requires At(src, EqBegin, start) && Free(src[start + |EqBegin|..q], TagOpen)
    requires At(src, TagOpen, q) && NoneOf(src, '}', q + |TagOpen|, c) && src[c] == '}'
    requires Free(src[c + 1..e], EqEnd) && At(src, EqEnd, e)
    ensures BlockFrom(src, start, start + |EqBegin|) == Some(Block(start, q, c, e))
  {
    assert TagAt(src, q) == Some((c, e)) by {
      Markers();
      FirstAfter(src, EqEnd, c + 1, e);
      ClosedRunFound(src, q + |TagOpen|, c);
      TagAtOf(src, q, c, e);
    }
    NoHitBefore(src, start + |EqBegin|, q);
    BlockFromFirstHit(src, start, start + |EqBegin|, q, c, e);
  }

  /** Before the first `\tag{` after `a` there is no place where the lazy body can stop. */
  lemma NoHitBefore(src: string, a: nat, q: nat)
    requires a <= q && q + |TagOpen| <= |src| && At(src, TagOpen, q)
    requires Free(src[a..q], TagOpen)
    ensures forall j :: a <= j < q ==> !TagHit(src, j)
  {
    Markers();
    FirstAfter(src, TagOpen, a, q);
  }

  /** The lazy body of a block written out with no `\tag{` in its body and no
      `\end{equation}` in its tail stops at its own `\tag{`. */
  lemma WrittenBlockFound(body: string, tag: string, tail: string)
    requires Free(body, TagOpen) && Free(tail, EqEnd)
    requires |tag| > 0 && '}' !in tag
    ensures var src := Written(body, tag, tail);
      At(src, EqBegin, 0) && |EqBegin| <= |src|
      && BlockFrom(src, 0, |EqBegin|) == Some(WrittenBlock(body, tag, tail))
  {
    var src := Written(body, tag, tail);
    var s1 := |EqBegin|;
    var q := s1 + |body|;
    var c := q + |TagOpen| + |tag|;
    var e := c + 1 + |tail|;
    WrittenRuns(body, tag, tail, src, q, c, e);
    var b := WrittenBlock(body, tag, tail);
    assert b == Block(0, q, c, e);
    var r := BlockFrom(src, 0, s1);
    assert r == Some(Block(0, q, c, e)) by {
      BlockFound(src, 0, q, c, e);
    }
  }

  /** The runs of a block written out that the lazy match scans hold no marker it looks
      for and, in the tag, no `}`; the markers around them are where they are written. */
  lemma WrittenRuns(body: string, tag: string, tail: string, src: string, q: nat, c: nat, e: nat)
    requires Free(body, TagOpen) && Free(tail, EqEnd) && '}' !in tag
    requires src == Written(body, tag, tail)
    requires q == |EqBegin| + |body| && c == q + |TagOpen| + |tag| && e == c + 1 + |tail|
    ensures e + |EqEnd| <= |src|
    ensures At(src, EqBegin, 0)
    ensures At(src, TagOpen, q)
    ensures src[c] == '}'
    ensures At(src, EqEnd, e)
    ensures Free(src[|EqBegin|..q], TagOpen)
    ensures NoneOf(src, '}', q + |TagOpen|, c)
    ensures Free(src[c + 1..e], EqEnd)
  {
    WrittenSlices(body, tag, tail);
    assert NoneOf(src, '}', q + |TagOpen|, c) by {
      NoneOfSlice(src, '}', q + |TagOpen|, c);
    }
  }

  /** A block written out with no `\tag{` in its body and no `\end{equation}` after its
      tag is found, with its body and tag, and is the only block. */
  lemma SingleBlock(body: string, tag: string, tail: string)
    requires Free(body, TagOpen) && Free(tail, EqEnd)
    requires |tag| > 0 && '}' !in tag
    ensures var src := Written(body, tag, tail);
      var b := WrittenBlock(body, tag, tail);
      EquationBlocks(src) == [b] && IsBlockOf(src, b)
      && Body(src, b) == body && Tag(src, b) == tag
  {
    var src := Written(body, tag, tail);
    var b := WrittenBlock(body, tag, tail);
    WrittenBlockFound(body, tag, tail);
    BlockFromIsBlock(src, 0, |EqBegin|);
    WrittenSlices(body, tag, tail);
    assert End(b) == |src|;
    assert BlocksFrom(src, |src|) == [];
  }

  // ---------------------------------------------------------------------------
  // `_lines_from_block`
  // ---------------------------------------------------------------------------

  /** `_ALIGNED_RE.search(body)` from position `from`: the bounds of the `content` group
      of the first `\begin{aligned}` that an `\end{aligned}` follows; the content runs up
      to the first such end. */
  function AlignedFrom(body: string, from: nat): (r: Option<(nat, nat)>)
    requires from <= |body|
    ensures r.Some? ==> var (c, e) := r.value;
      from + |AlignedBegin| <= c <= e && e + |AlignedEnd| <= |body|
      && At(body, AlignedBegin, c - |AlignedBegin|) && At(body, AlignedEnd, e)
    ensures r.Some? ==> var (c, e) := r.value;
      forall k :: c <= k < e ==> !At(body, AlignedEnd, k)
    decreases |body| - from
  {
    match FindFrom(body, AlignedBegin, from)
    case None => None
    case Some(p) =>
      var c := p + |AlignedBegin|;
      match FindFrom(body, AlignedEnd, c)
      case None => AlignedFrom(body, p + 1)
      case Some(e) => Some((c, e))
  }

  /** A `\begin{aligned}` with no `\end{aligned}` anywhere after it: the search finds
      nothing from here on. */
  lemma {:induction false} AlignedFromNone(body: string, from: nat, c0: nat)
    requires from <= |body| && c0 <= from + |AlignedBegin|
    requires forall k :: c0 <= k <= |body| ==> !At(body, AlignedEnd, k)
    ensures AlignedFrom(body, from).None?
    decreases |body| - from
  {
    match FindFrom(body, AlignedBegin, from)
    case None =>
    case Some(p) =>
      assert FindFrom(body, AlignedEnd, p + |AlignedBegin|).None?;
      AlignedFromNone(body, p + 1, c0);
  }

  /** The search retries later `\begin{aligned}`s in vain: it succeeds exactly when an
      `\end{aligned}` follows the first `\begin{aligned}`, and then the content runs from
      that begin to the first end after it. */
  lemma AlignedFromFirst(body: string, from: nat)
    requires from <= |body|
    ensures var b := FindFrom(body, AlignedBegin, from);
      AlignedFrom(body, from).Some?
      <==> b.Some? && FindFrom(body, AlignedEnd, b.value + |AlignedBegin|).Some?
    ensures var b := FindFrom(body, AlignedBegin, from);
      AlignedFrom(body, from).Some? ==>
        var c := b.value + |AlignedBegin|;
        AlignedFrom(body, from).value == (c, FindFrom(body, AlignedEnd, c).value)
  {
    match FindFrom(body, AlignedBegin, from)
    case None =>
    case Some(p) =>
      var c := p + |AlignedBegin|;
      if FindFrom(body, AlignedEnd, c).None? {
        AlignedFromNone(body, p + 1, c);
      }
  }

  /** `\\tag\{[^\}]+\}` replaced by nothing. */
  function TagMatch(t: string): (r: Match)
    ensures r.Match? ==> 0 < r.len <= |t| && r.repl == []
    ensures r.Match? <==> TagOpen <= t && ClosedRun(t, |TagOpen|).Some?
  {
    if TagOpen <= t then
      match ClosedRun(t, |TagOpen|)
      case Some(c) => Match(c + 1, "")
      case None => NoMatch
    else NoMatch
  }

  /** The text split into lines: the aligned content when there is one, else the body,
      with every `\tag{…}` removed. */
  function Payload(body: string): string {
    var p := match AlignedFrom(body, 0) case Some((c, e)) => body[c..e] case None => body;
    ReSub(p, TagMatch)
  }

  /** `[ln.strip() for ln in lines if ln.strip()]` */
  function KeepStripped(pieces: seq<string>): (lines: seq<string>)
    ensures |lines| <= |pieces|
    decreases |pieces|
  {
    if pieces == [] then []
    else
      var ln := Strip(pieces[0]);
      (if ln == [] then [] else [ln]) + KeepStripped(pieces[1..])
  }

  /** Keeping the stripped pieces keeps their order: it distributes over concatenation. */
  lemma {:induction false} KeepStrippedConcat(a: seq<string>, b: seq<string>)
    ensures KeepStripped(a + b) == KeepStripped(a) + KeepStripped(b)
    decreases |a|
  {
    if a == [] {
      assert a + b == b;
    } else {
      var x, rest := a[0], a[1..];
      calc {
        KeepStripped(a + b);
        { assert a + b == [x] + (rest + b); }
        KeepStripped([x] + (rest + b));
        { KeepStrippedCons(x, rest + b); }
        KeepStripped([x]) + KeepStripped(rest + b);
        { KeepStrippedConcat(rest, b); }
        KeepStripped([x]) + (KeepStripped(rest) + KeepStripped(b));
        (KeepStripped([x]) + KeepStripped(rest)) + KeepStripped(b);
        { KeepStrippedCons(x, rest); assert a == [x] + rest; }
        KeepStripped(a) + KeepStripped(b);
      }
    }
  }

  /** One piece in front of others. */
  lemma KeepStrippedCons(x: string, rest: seq<string>)
    ensures KeepStripped([x] + rest) == KeepStripped([x]) + KeepStripped(rest)
  {
    assert ([x] + rest)[1..] == rest;
    assert [x][1..] == [];
  }

  /** When no piece is blank, every piece gives a line: the stripped piece. */
  lemma {:induction false} KeepStrippedAll(pieces: seq<string>)
    requires forall i :: 0 <= i < |pieces| ==> Strip(pieces[i]) != []
    ensures |KeepStripped(pieces)| == |pieces|
    ensures forall i :: 0 <= i < |pieces| ==> KeepStripped(pieces)[i] == Strip(pieces[i])
    decreases |pieces|
  {
    if pieces != [] {
      var rest := pieces[1..];
      forall i | 0 <= i < |rest| ensures Strip(rest[i]) != [] {
        assert rest[i] == pieces[i + 1];
      }
      KeepStrippedAll(rest);
      var lines := KeepStripped(pieces);
      assert Strip(pieces[0]) != [];
      assert lines == [Strip(pieces[0])] + KeepStripped(rest);
      forall i | 0 <= i < |pieces| ensures lines[i] == Strip(pieces[i]) {
        if i > 0 {
          assert lines[i] == KeepStripped(rest)[i - 1];
          assert pieces[i] == rest[i - 1];
        }
      }
    }
  }

  /** Every line kept is a piece, stripped, and not blank. */
  lemma {:induction false} KeepStrippedFrom(pieces: seq<string>)
    ensures forall ln :: ln in KeepStripped(pieces) ==> ln != [] && exists p :: p in pieces && ln == Strip(p)
    decreases |pieces|
  {
    if pieces != [] {
      var rest := pieces[1..];
      KeepStrippedFrom(rest);
      var ln := Strip(pieces[0]);
      var head := if ln == [] then [] else [ln];
      assert KeepStripped(pieces) == head + KeepStripped(rest);
      forall x | x in KeepStripped(pieces) ensures x != [] && exists p :: p in pieces && x == Strip(p) {
        if x in head {
          assert pieces[0] in pieces;
        } else {
          assert x in KeepStripped(rest);
          var p :| p in rest && x == Strip(p);
          assert p in pieces;
        }
      }
    }
  }

  /** A stripped piece has no line break when the piece has none. */
  lemma StripFree(p: string)
    requires Free(p, LineBreak)
    ensures Free(Strip(p), LineBreak)
  {
    var a := Span(p, IsSpace);
    FreeSlice(p, LineBreak, a, a + |Strip(p)|);
  }

  /** Lines kept from pieces without a line break are stripped, not blank, and have no
      line break either. */
  lemma KeepStrippedClean(pieces: seq<string>)
    requires forall i :: 0 <= i < |pieces| ==> Free(pieces[i], LineBreak)
    ensures forall i :: 0 <= i < |KeepStripped(pieces)| ==>
      KeepStripped(pieces)[i] != [] && Strip(KeepStripped(pieces)[i]) == KeepStripped(pieces)[i]
    ensures forall i :: 0 <= i < |KeepStripped(pieces)| ==> Free(KeepStripped(pieces)[i], LineBreak)
  {
    var lines := KeepStripped(pieces);
    KeepStrippedFrom(pieces);
    forall i | 0 <= i < |lines| ensures lines[i] != [] && Strip(lines[i]) == lines[i] && Free(lines[i], LineBreak) {
      assert lines[i] in lines;
      var p :| p in pieces && lines[i] == Strip(p);
      StripTwice(p);
      StripFree(p);
    }
  }

  /** `CoreEqs._lines_from_block`: the payload split at every `\\`, each piece stripped
      and the blank ones dropped. */
  function LinesFromBlock(body: string): (lines: seq<string>)
    ensures forall i :: 0 <= i < |lines| ==> lines[i] != [] && Strip(lines[i]) == lines[i]
    ensures forall i :: 0 <= i < |lines| ==> Free(lines[i], LineBreak)
  {
    var pieces := SplitOn(Payload(body), LineBreak);
    KeepStrippedClean(pieces);
    KeepStripped(pieces)
  }

  /** `\tag{…}` can only be removed where there is a backslash. */
  lemma TagMatchNeeds()
    ensures NeedsChar(TagMatch, '\\')
  {
    forall t | TagMatch(t).Match? ensures '\\' in t {
      assert t[0] == TagOpen[0];
    }
  }

  /** A body without `\begin{aligned}` and without `\tag{` is its own payload. */
  lemma PayloadPlain(body: string)
    requires Free(body, AlignedBegin) && Free(body, TagOpen)
    ensures Payload(body) == body
  {
    assert FindFrom(body, AlignedBegin, 0).None?;
    TagsAbsent(body);
  }

  /** A LaTeX marker: its only backslash is its first character. */
  predicate Marker(pat: string) {
    |pat| > 0 && pat[0] == '\\' && forall i :: 1 <= i < |pat| ==> pat[i] != '\\'
  }

  /** The markers the patterns search for. */
  lemma Markers()
    ensures Marker(TagOpen) && Marker(EqEnd) && Marker(AlignedBegin) && Marker(AlignedEnd)
  {
  }

  /** Two occurrences of a pattern whose only backslash is its first character cannot
      overlap. */
  lemma NoOverlap(s: string, pat: string, k: nat, j: nat)
    requires k < j < k + |pat| && j + |pat| <= |s| && k + |pat| <= |s|
    requires pat[0] == '\\' && forall i :: 1 <= i < |pat| ==> pat[i] != '\\'
    ensures !(At(s, pat, k) && At(s, pat, j))
  {
    if At(s, pat, k) {
      assert s[j] == s[k..][j - k];
      NotAtFirst(s, pat, j);
    }
  }

  /** A marker whose only backslash is its first character is first found from `a` at
      `e` when `s[a..e]` holds none: none can start before `e` and run into it. */
  lemma FirstAfter(s: string, pat: string, a: nat, e: nat)
    requires Marker(pat)
    requires a <= e && e + |pat| <= |s| && At(s, pat, e) && Free(s[a..e], pat)
    ensures FindFrom(s, pat, a) == Some(e)
  {
    forall k | a <= k < e ensures !At(s, pat, k) {
      if k + |pat| <= e {
        NotInsideFree(s, pat, a, e, k);
      } else {
        NoOverlap(s, pat, k, e);
      }
    }
  }

  /** A pattern absent from `s[a..b]` does not occur in `s` at a place inside it. */
  lemma NotInsideFree(s: string, pat: string, a: nat, b: nat, k: nat)
    requires a <= k && k + |pat| <= b <= |s| && Free(s[a..b], pat)
    ensures !At(s, pat, k)
  {
    assert !At(s[a..b], pat, k - a);
    assert s[a..b][k - a..][..|pat|] == s[k..][..|pat|];
  }

  /** The aligned environment after a text without `\begin{aligned}`, holding no
      `\end{aligned}`, is the one `_ALIGNED_RE` finds. */
  lemma AlignedFound(x: string, content: string, y: string, body: string, c0: nat, e: nat)
    requires body == x + AlignedBegin + content + AlignedEnd + y
    requires c0 == |x| + |AlignedBegin| && e == c0 + |content|
    requires Free(x, AlignedBegin) && Free(content, AlignedEnd)
    ensures e <= |body| && body[c0..e] == content
    ensures AlignedFrom(body, 0) == Some((c0, e))
  {
    AlignedPieces(x, content, y, body, c0, e);
    var first := FindFrom(body, AlignedBegin, 0);
    assert first == Some(|x|) by {
      AlignedBeginFirst(x, body);
    }
    var last := FindFrom(body, AlignedEnd, c0);
    assert last == Some(e) by {
      Markers();
      FirstAfter(body, AlignedEnd, c0, e);
    }
    var r := AlignedFrom(body, 0);
    assert r == Some((c0, e)) by {
      AlignedFromHit(body, |x|, c0, e);
    }
  }

  /** Where the pieces of an aligned environment written out lie in its text. */
  lemma AlignedPieces(x: string, content: string, y: string, body: string, c0: nat, e: nat)
    requires body == x + AlignedBegin + content + AlignedEnd + y
    requires c0 == |x| + |AlignedBegin| && e == c0 + |content|
    ensures e + |AlignedEnd| <= |body|
    ensures body[..|x|] == x
    ensures At(body, AlignedBegin, |x|)
    ensures body[c0..e] == content
    ensures At(body, AlignedEnd, e)
  {
    assert body[|x|..][..|AlignedBegin|] == AlignedBegin;
    assert body[e..][..|AlignedEnd|] == AlignedEnd;
  }

  /** The first `\begin{aligned}` of a text starting with an `x` that holds none,
      followed by one, is right after `x`. */
  lemma AlignedBeginFirst(x: string, body: string)
    requires Free(x, AlignedBegin) && |x| + |AlignedBegin| <= |body|
    requires body[..|x|] == x && At(body, AlignedBegin, |x|)
    ensures FindFrom(body, AlignedBegin, 0) == Some(|x|)
  {
    assert body[0..|x|] == x;
    Markers();
    FirstAfter(body, AlignedBegin, 0, |x|);
  }

  /** `_ALIGNED_RE` on a body whose first `\begin{aligned}` is at `p` and whose first
      `\end{aligned}` after it is at `e`. */
  lemma AlignedFromHit(body: string, p: nat, c: nat, e: nat)
    requires FindFrom(body, AlignedBegin, 0) == Some(p)
    requires c == p + |AlignedBegin| && c <= |body| && FindFrom(body, AlignedEnd, c) == Some(e)
    ensures AlignedFrom(body, 0) == Some((c, e))
  {
  }

  /** A text holding no `\tag{` keeps all of it when the tags are removed. */
  lemma TagsAbsent(t: string)
    requires Free(t, TagOpen)
    ensures ReSub(t, TagMatch) == t
  {
    forall k | 0 <= k < |t| ensures TagMatch(t[k..]).NoMatch? {
      assert !At(t, TagOpen, k);
    }
    ReSubUnmatched(t, TagMatch);
  }

  /** The payload of a body whose aligned content `_ALIGNED_RE` finds at `c..e`, when
      that holds no `\tag{`. */
  lemma PayloadOf(body: string, c: nat, e: nat, content: string)
    requires AlignedFrom(body, 0) == Some((c, e))
    requires c <= e <= |body| && body[c..e] == content && Free(content, TagOpen)
    ensures Payload(body) == content
  {
    TagsAbsent(content);
  }

  /** The content of the first aligned environment, after a text without
      `\begin{aligned}`, is the payload when it holds no `\end{aligned}` and no `\tag{`. */
  lemma PayloadAligned(x: string, content: string, y: string)
    requires Free(x, AlignedBegin) && Free(content, AlignedEnd) && Free(content, TagOpen)
    ensures Payload(x + AlignedBegin + content + AlignedEnd + y) == content
  {
    var body := x + AlignedBegin + content + AlignedEnd + y;
    var c0 := |x| + |AlignedBegin|;
    var e := c0 + |content|;
    AlignedFound(x, content, y, body, c0, e);
    PayloadOf(body, c0, e, content);
  }

  /** A body without `\begin{aligned}`, `\tag{` or `\\` gives one line, its stripped
      text, unless that is blank. */
  lemma LinesPlain(body: string)
    requires Free(body, AlignedBegin) && Free(body, TagOpen) && Free(body, LineBreak)
    ensures LinesFromBlock(body) == if Strip(body) == [] then [] else [Strip(body)]
  {
    PayloadPlain(body);
    assert FindFrom(body, LineBreak, 0).None?;
  }

  /** Lines without `\\`, none but the last ending in a backslash, joined by `\\` inside
      the first aligned environment come back as the stripped non-blank lines, in order. */
  lemma LinesAligned(x: string, lines: seq<string>, y: string)
    requires Free(x, AlignedBegin) && |lines| > 0
    requires forall i :: 0 <= i < |lines| ==> Free(lines[i], LineBreak)
    requires forall i :: 0 <= i < |lines| - 1 ==> !EndsInBackslash(lines[i])
    requires Free(Join(lines, LineBreak), AlignedEnd) && Free(Join(lines, LineBreak), TagOpen)
    ensures LinesFromBlock(x + AlignedBegin + Join(lines, LineBreak) + AlignedEnd + y)
      == KeepStripped(lines)
  {
    PayloadAligned(x, Join(lines, LineBreak), y);
    JoinSplitLines(lines);
  }

  /** The last character is a backslash. */
  predicate EndsInBackslash(s: string) {
    |s| > 0 && s[|s| - 1] == '\\'
  }

  /** Lines without `\\`, none but the last ending in a backslash, joined by `\\` and
      split again give the lines back: no `\\` can start inside a line and run into the
      separator. */
  lemma {:induction false} JoinSplitLines(lines: seq<string>)
    requires |lines| > 0
    requires forall i :: 0 <= i < |lines| ==> Free(lines[i], LineBreak)
    requires forall i :: 0 <= i < |lines| - 1 ==> !EndsInBackslash(lines[i])
    ensures SplitOn(Join(lines, LineBreak), LineBreak) == lines
    decreases |lines|
  {
    var p0 := lines[0];
    if |lines| == 1 {
      assert FindFrom(p0, LineBreak, 0).None?;
    } else {
      var rest := Join(lines[1..], LineBreak);
      var s := p0 + LineBreak + rest;
      assert s == Join(lines, LineBreak);
      assert s[..|p0|] == p0 && s[|p0| + |LineBreak|..] == rest;
      assert At(s, LineBreak, |p0|) by { assert s[|p0|..] == LineBreak + rest; }
      forall k | 0 <= k < |p0| ensures !At(s, LineBreak, k) {
        if k + 2 <= |p0| {
          assert s[k..][..2] == p0[k..][..2];
          assert !At(p0, LineBreak, k);
        } else {
          assert s[k] == p0[|p0| - 1];
        }
      }
      assert FindFrom(s, LineBreak, 0) == Some(|p0|);
      JoinSplitLines(lines[1..]);
    }
  }
}
