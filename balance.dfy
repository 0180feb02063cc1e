/** `_balanced`: the brace check run before the LaTeX parsers are called. */
module Balance {

  /** How a character moves the brace depth. */
  function Step(c: char): int {
    if c == '{' then 1 else if c == '}' then -1 else 0
  }

  /** Open braces minus close braces in `s`, counted from the left. */
  function Depth(s: string): int
    decreases |s|
  {
    if s == [] then 0 else Depth(s[..|s| - 1]) + Step(s[|s| - 1])
  }

  /** The depth is the difference of the two brace counts. */
  lemma {:induction false} DepthCounts(s: string)
    ensures Depth(s) == multiset(s)['{'] as int - multiset(s)['}'] as int
    decreases |s|
  {
    if s != [] {
      var init := s[..|s| - 1];
      DepthCounts(init);
      assert s == init + [s[|s| - 1]];
    }
  }

  /** The depth never drops below zero on the way through `s` and is zero at its end. */
  predicate IsBalanced(s: string) {
    (forall i :: 0 <= i <= |s| ==> Depth(s[..i]) >= 0) && Depth(s) == 0
  }

  /** `_balanced`: a `{` is pushed, a `}` pops one and fails when there is none to pop,
      and the stack must be empty at the end. */
  method Balanced(s: string) returns (ok: bool)
    ensures ok == IsBalanced(s)
  {
    var stack: seq<char> := [];
    var i := 0;
    while i < |s|
      invariant 0 <= i <= |s|
      invariant |stack| == Depth(s[..i])
      invariant forall k :: 0 <= k < |stack| ==> stack[k] == '{'
      invariant forall j :: 0 <= j <= i ==> Depth(s[..j]) >= 0
    {
      assert s[..i + 1][..i] == s[..i];
      if s[i] == '{' {
        stack := stack + [s[i]];
      } else if s[i] == '}' {
        if stack == [] {
          assert Depth(s[..i + 1]) < 0;
          return false;
        }
        stack := stack[..|stack| - 1];
      }
      i := i + 1;
    }
    assert s[..|s|] == s;
    ok := stack == [];
  }

  /** Prefixes of `a + [c] + b` and of `a + b`, for a character `c` that is not a brace,
      have the same depths. */
  lemma {:induction false} DepthSkips(a: string, c: char, b: string)
    requires Step(c) == 0
    ensures Depth(a + [c] + b) == Depth(a + b)
    decreases |b|
  {
    if b == [] {
      assert a + [c] + b == a + [c];
      assert (a + [c])[..|a|] == a;
      assert a + b == a;
    } else {
      var b' := b[..|b| - 1];
      DepthSkips(a, c, b');
      assert (a + [c] + b)[..|a + [c] + b| - 1] == a + [c] + b';
      assert (a + b)[..|a + b| - 1] == a + b';
    }
  }

  /** The prefix of `a + [c] + b` of length `i` has the depth of the prefix of `a + b`
      that leaves `c` out. */
  lemma PrefixSkips(a: string, c: char, b: string, i: nat)
    requires Step(c) == 0 && i <= |a| + 1 + |b|
    ensures Depth((a + [c] + b)[..i]) == Depth((a + b)[..if i <= |a| then i else i - 1])
  {
    var s, t := a + [c] + b, a + b;
    if i <= |a| {
      assert s[..i] == t[..i];
    } else {
      DepthSkips(a, c, b[..i - |a| - 1]);
      assert s[..i] == a + [c] + b[..i - |a| - 1];
      assert t[..i - 1] == a + b[..i - |a| - 1];
    }
  }

  /** Characters other than braces are ignored: inserting one anywhere does not change
      whether a text is balanced. */
  lemma OtherCharIgnored(a: string, c: char, b: string)
    requires c != '{' && c != '}'
    ensures IsBalanced(a + [c] + b) == IsBalanced(a + b)
  {
    var s, t := a + [c] + b, a + b;
    DepthSkips(a, c, b);
    if IsBalanced(t) {
      forall i | 0 <= i <= |s| ensures Depth(s[..i]) >= 0 {
        PrefixSkips(a, c, b, i);
      }
    }
    if IsBalanced(s) {
      forall j | 0 <= j <= |t| ensures Depth(t[..j]) >= 0 {
        PrefixSkips(a, c, b, if j <= |a| then j else j + 1);
      }
    }
  }
}
