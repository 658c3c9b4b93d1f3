/** Bracket depth over source text: the counting rule the tree builder's
    lookahead uses to pair an opening bracket with its closing one. */
module Brackets {

  /** What one character does to the nesting depth. */
  function Delta(c: char): int {
    if c == '[' then 1 else if c == ']' then -1 else 0
  }

  /** Opening minus closing brackets in `t`. */
  function Depth(t: string): int {
    if t == [] then 0 else Delta(t[0]) + Depth(t[1..])
  }

  /** No prefix of `t` closes more brackets than it opens. */
  predicate NeverNegative(t: string) {
    forall k :: 0 <= k <= |t| ==> Depth(t[..k]) >= 0
  }

  /** Properly nested: the depth never drops below zero and ends at zero. */
  predicate Balanced(t: string) {
    Depth(t) == 0 && NeverNegative(t)
  }

  /** Number of newline characters in `t`. */
  function Newlines(t: string): nat {
    if t == [] then 0 else (if t[0] == '\n' then 1 else 0) + Newlines(t[1..])
  }

  lemma {:induction false} DepthAppend(a: string, b: string)
    ensures Depth(a + b) == Depth(a) + Depth(b)
  {
    if a == [] {
      assert a + b == b;
    } else {
      assert (a + b)[1..] == a[1..] + b;
      DepthAppend(a[1..], b);
    }
  }

  lemma {:induction false} NewlinesAppend(a: string, b: string)
    ensures Newlines(a + b) == Newlines(a) + Newlines(b)
  {
    if a == [] {
      assert a + b == b;
    } else {
      assert (a + b)[1..] == a[1..] + b;
      NewlinesAppend(a[1..], b);
    }
  }

  /** Extending a window of `s` by one character adds that character's delta. */
  lemma DepthStep(s: string, lo: nat, hi: nat)
    requires lo <= hi < |s|
    ensures Depth(s[lo..hi + 1]) == Depth(s[lo..hi]) + Delta(s[hi])
  {
    assert s[lo..hi + 1] == s[lo..hi] + [s[hi]];
    DepthAppend(s[lo..hi], [s[hi]]);
  }

  lemma NeverNegativeStep(s: string, lo: nat, hi: nat)
    requires lo <= hi < |s|
    requires NeverNegative(s[lo..hi]) && Depth(s[lo..hi + 1]) >= 0
    ensures NeverNegative(s[lo..hi + 1])
  {
    var t, u := s[lo..hi + 1], s[lo..hi];
    forall k | 0 <= k <= |t|
      ensures Depth(t[..k]) >= 0
    {
      if k <= |u| {
        assert t[..k] == u[..k];
      } else {
        assert t[..k] == t;
      }
    }
  }

  /** A balanced text cannot start with a closing bracket. */
  lemma BalancedNoLeadingClose(u: string)
    requires Balanced(u) && u != []
    ensures u[0] != ']'
  {
    assert Depth(u[..1]) >= 0;
    assert u[..1] == [u[0]];
  }

  /** Cutting a balanced text after a prefix of depth zero leaves a balanced text. */
  lemma BalancedDrop(u: string, m: nat)
    requires Balanced(u) && m <= |u| && Depth(u[..m]) == 0
    ensures Balanced(u[m..])
  {
    assert u == u[..m] + u[m..];
    DepthAppend(u[..m], u[m..]);
    forall k | 0 <= k <= |u[m..]|
      ensures Depth(u[m..][..k]) >= 0
    {
      assert u[..m + k] == u[..m] + u[m..][..k];
      DepthAppend(u[..m], u[m..][..k]);
      assert Depth(u[..m + k]) >= 0;
    }
  }
}
