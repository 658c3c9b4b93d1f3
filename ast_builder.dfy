/** The tree builder (ast_builder.cpp): one recursive scan of the source that
    turns every symbol into a node, pairs each `[` with its `]` by depth
    counting, and records a line and a column for every node.

    The recursive functions below (`Match`, `Skip`, `Level`) say what the
    scan computes; the methods (`LoopLookahead`, `Visit`, `VisitMulti`) are
    the scan itself, loop for loop, and are proved to compute exactly that. */
module AstBuilder {
  import opened Util
  import opened Ast
  import opened Brackets

  /** A line/column pair while scanning. */
  datatype Cursor = Cursor(line: nat, col: nat)

  // ---------------------------------------------------------------------
  // Bracket matching (`loop_lookahead`)
  // ---------------------------------------------------------------------

  /** `e` closes the bracket opened at `start`: a `]` after it with a
      properly nested text in between. */
  ghost predicate IsMatch(s: string, start: nat, e: nat) {
    start < e < |s| && s[e] == ']' && Balanced(s[start + 1..e])
  }

  /** What the lookahead loop returns when it resumes at `i` with `cnt`
      brackets still open: the first `]` met at depth zero, or 0. */
  function MatchFrom(s: string, i: nat, cnt: nat): (r: nat)
    decreases |s| - i
    ensures r == 0 || (i <= r < |s| && s[r] == ']')
  {
    if i >= |s| then 0
    else if s[i] == '[' then MatchFrom(s, i + 1, cnt + 1)
    else if s[i] == ']' then (if cnt > 0 then MatchFrom(s, i + 1, cnt - 1) else i)
    else MatchFrom(s, i + 1, cnt)
  }

  /** The index of the bracket closing the one at `start`, or 0 when there is none. */
  function Match(s: string, start: nat): nat {
    MatchFrom(s, start + 1, 0)
  }

  lemma {:induction false} MatchFromFinds(s: string, start: nat, i: nat, cnt: nat)
    requires start < i <= |s|
    requires cnt == Depth(s[start + 1..i])
    requires NeverNegative(s[start + 1..i])
    ensures MatchFrom(s, i, cnt) != 0 ==> IsMatch(s, start, MatchFrom(s, i, cnt))
    ensures MatchFrom(s, i, cnt) == 0 ==> forall e :: !IsMatch(s, start, e)
    decreases |s| - i
  {
    if i == |s| {
      forall e | start < e < |s| && s[e] == ']'
        ensures !IsMatch(s, start, e)
      {
        DepthStep(s, start + 1, e);
        assert s[start + 1..i][..e + 1 - (start + 1)] == s[start + 1..e + 1];
      }
    } else {
      DepthStep(s, start + 1, i);
      if !(s[i] == ']' && cnt == 0) {
        NeverNegativeStep(s, start + 1, i);
        MatchFromFinds(s, start, i + 1, if s[i] == '[' then cnt + 1 else if s[i] == ']' then cnt - 1 else cnt);
      }
    }
  }

  /** A match, when there is one, is unique. */
  lemma MatchUnique(s: string, start: nat, e1: nat, e2: nat)
    requires IsMatch(s, start, e1) && IsMatch(s, start, e2)
    ensures e1 == e2
  {
    if e1 < e2 {
      assert s[start + 1..e2][..e1 + 1 - (start + 1)] == s[start + 1..e1 + 1];
      DepthStep(s, start + 1, e1);
    } else if e2 < e1 {
      assert s[start + 1..e1][..e2 + 1 - (start + 1)] == s[start + 1..e2 + 1];
      DepthStep(s, start + 1, e2);
    }
  }

  /** `Match` returns the closing bracket exactly when there is one, and 0
      otherwise; 0 is never a match, so the two outcomes cannot be confused. */
  lemma MatchCharacterized(s: string, start: nat)
    requires start < |s|
    ensures forall e :: IsMatch(s, start, e) <==> (e != 0 && e == Match(s, start))
    ensures Match(s, start) != 0 ==> start < Match(s, start) < |s|
  {
    MatchFromFinds(s, start, start + 1, 0);
    var r := Match(s, start);
    forall e | IsMatch(s, start, e)
      ensures e == r
    {
      MatchUnique(s, start, e, r);
    }
  }

  /** The lookahead from an opening bracket can come back empty only if the
      text after it never closes more brackets than it opens. */
  lemma {:induction false} MatchFromMisses(s: string, i: nat, cnt: nat)
    requires i <= |s|
    requires MatchFrom(s, i, cnt) == 0
    requires i > 0
    ensures cnt + Depth(s[i..]) >= 0
    decreases |s| - i
  {
    if i < |s| {
      assert s[i..][1..] == s[i + 1..];
      if s[i] == '[' {
        MatchFromMisses(s, i + 1, cnt + 1);
      } else if s[i] == ']' {
        MatchFromMisses(s, i + 1, cnt - 1);
      } else {
        MatchFromMisses(s, i + 1, cnt);
      }
    }
  }

  /** An opening bracket followed by more closing than opening brackets is matched. */
  lemma OpenIsMatched(s: string, k: nat)
    requires k < |s| && s[k] == '['
    requires Depth(s[k + 1..]) < 0
    ensures Match(s, k) != 0
  {
    if Match(s, k) == 0 {
      MatchFromMisses(s, k + 1, 0);
    }
  }

  /** In a properly nested text every opening bracket is matched. */
  lemma BalancedOpensMatched(u: string)
    requires Balanced(u)
    ensures forall k :: 0 <= k < |u| ==> OpenMatched(u, k)
  {
    forall k | 0 <= k < |u| && u[k] == '['
      ensures Match(u, k) != 0
    {
      assert u == u[..k + 1] + u[k + 1..];
      DepthAppend(u[..k + 1], u[k + 1..]);
      DepthStep(u, 0, k);
      assert u[0..k + 1] == u[..k + 1] && u[0..k] == u[..k];
      OpenIsMatched(u, k);
    }
  }

  /** `loop_lookahead`: scan forward from the opening bracket at `start`,
      counting nested brackets, until a `]` is met with no nested bracket open. */
  method LoopLookahead(prog: string, start: nat) returns (end: nat)
    requires start < |prog| && prog[start] == '['
    ensures end == Match(prog, start)
    ensures end != 0 ==> start < end < |prog| && prog[end] == ']'
  {
    var cnt: nat := 0;
    end := 0;
    var i := start + 1;
    while i < |prog| && end == 0
      invariant start + 1 <= i <= |prog|
      invariant end == 0 ==> MatchFrom(prog, i, cnt) == Match(prog, start)
      invariant end != 0 ==> end == Match(prog, start)
    {
      if prog[i] == '[' {
        cnt := cnt + 1;
      } else if prog[i] == ']' {
        if cnt > 0 { cnt := cnt - 1; } else { end := i; }
      }
      i := i + 1;
    }
  }

  // ---------------------------------------------------------------------
  // The scan (`visit`, `visit_multi`, `visit_single`)
  // ---------------------------------------------------------------------

  /** The token `visit` gives the first symbol of its text (its switch). */
  function Classify(c: char): Token {
    match c
    case '+' => Plus
    case '-' => Minus
    case '.' => Period
    case ',' => Comma
    case '<' => LArrow
    case '>' => RArrow
    case '[' => Loop
    case _ => Nil
  }

  /** Where `visit`'s skipping loop stops when it resumes at `it`: at the
      first symbol, or at the last character if none comes before it. */
  function FirstSymbolFrom(p: string, it: nat): (k: nat)
    requires it < |p|
    decreases |p| - it
    ensures it <= k < |p|
    ensures forall j :: it <= j < k ==> !ValidToken(p[j])
    ensures k < |p| - 1 ==> ValidToken(p[k])
  {
    if it < |p| - 1 && !ValidToken(p[it]) then FirstSymbolFrom(p, it + 1) else it
  }

  function FirstSymbol(p: string): nat
    requires |p| > 0
  {
    FirstSymbolFrom(p, 0)
  }

  /** The text between the outer brackets of a loop's span (`substr(1, length - 2)`;
      a lone `[` has an empty inside). */
  function Interior(p: string): string {
    if |p| >= 2 then p[1..|p| - 1] else []
  }

  /** The inside of the loop opened at `i` whose lookahead returned `e`. */
  function Body(t: string, i: nat, e: nat): string
    requires i < |t|
  {
    if i < e < |t| then t[i + 1..e] else []
  }

  /** One step of the inner loop of `visit_multi` over a loop's span: a
      newline there sets the column to 1 before the column is stepped. */
  function SpanStep(c: Cursor, ch: char): Cursor {
    if ch == '\n' then Cursor(c.line + 1, 1 + 1) else Cursor(c.line, c.col + 1)
  }

  /** The cursor after that inner loop has walked the positions `lo .. hi - 1`. */
  function Skip(t: string, lo: nat, hi: nat, line: nat, col: nat): Cursor
    requires lo <= hi <= |t|
    decreases hi - lo
  {
    if hi == lo then Cursor(line, col) else SpanStep(Skip(t, lo, hi - 1, line, col), t[hi - 1])
  }

  /** `Level` at a character that is not a symbol: the scan moves on, to
      the next line after a newline. */
  lemma LevelAtGap(t: string, i: nat, line: nat, col: nat)
    requires i < |t| && !ValidToken(t[i])
    ensures t[i] == '\n' ==> Level(t, i, line, col) == Level(t, i + 1, line + 1, 1)
    ensures t[i] != '\n' ==> Level(t, i, line, col) == Level(t, i + 1, line, col + 1)
  {
  }

  /** `Level` at a symbol other than an opening bracket: the leaf `visit`
      makes of that one character, then the rest of the level. */
  lemma LevelAtSymbol(t: string, i: nat, line: nat, col: nat, child: Node)
    requires i < |t| && ValidToken(t[i]) && t[i] != '['
    requires child == Dispatch([t[i]], line, col)
    ensures Level(t, i, line, col) == [child] + Level(t, i + 1, line, col + 1)
  {
    assert FirstSymbol([t[i]]) == 0;
  }

  /** The children `visit_multi` appends while scanning `t` from index `i`
      with the cursor at (`line`, `col`). A newline outside any loop sets the
      column to 0 before the column is stepped. A `]` that no `[` at this
      level opened becomes a `Nil` child. An opening bracket with no match
      becomes an empty loop and the scan resumes just after it. */
  function Level(t: string, i: nat, line: nat, col: nat): seq<Node>
    requires i <= |t|
    decreases |t|, |t| - i, 2
  {
    if i == |t| then [] else LevelAt(t, i, line, col)
  }

  function LevelAt(t: string, i: nat, line: nat, col: nat): seq<Node>
    requires i < |t|
    decreases |t|, |t| - i, 1
  {
    if t[i] == '\n' then Level(t, i + 1, line + 1, 0 + 1)
    else if !ValidToken(t[i]) then Level(t, i + 1, line, col + 1)
    else if t[i] != '[' then [Node(Classify(t[i]), [], line, col)] + Level(t, i + 1, line, col + 1)
    else LevelAtLoop(t, i, line, col)
  }

  /** `Level` at an opening bracket: the loop over the inside of its span,
      then the rest of the level from just past the span. */
  function LevelAtLoop(t: string, i: nat, line: nat, col: nat): seq<Node>
    requires i < |t| && t[i] == '['
    decreases |t|, |t| - i, 0
  {
    var e := Match(t, i);
    var stop := if i < e then e else i;
    var after := Skip(t, i, stop, line, col);
    [Node(Loop, Level(Body(t, i, e), 0, line, col), line, col)]
      + Level(t, stop + 1, after.line, after.col + 1)
  }

  /** The tree built for a whole program: a root at (1, 1) over the children of the whole text. */
  function Build(s: string): Node {
    Node(Root, Level(s, 0, 1, 1), 1, 1)
  }

  /** What `visit` makes of the text of one non-root child: a loop over
      the inside of a bracketed span, or a leaf. */
  function Dispatch(p: string, line: nat, col: nat): Node
    requires |p| > 0
  {
    var tok := Classify(p[FirstSymbol(p)]);
    Node(tok, if tok == Loop then Level(Interior(p), 0, line, col) else [], line, col)
  }

  /** The condition under which the scan stays within its text: every `[`
      after the first character has a match (an unmatched one further on
      makes `visit_multi`'s `size_t` arithmetic wrap around). */
  predicate Scannable(s: string) {
    forall k :: 0 < k < |s| ==> OpenMatched(s, k)
  }

  /** The character at `k` is not an opening bracket left without a match. */
  predicate OpenMatched(s: string, k: nat)
    requires k < |s|
  {
    s[k] == '[' ==> Match(s, k) != 0
  }

  /** The span `visit_multi` hands to `visit` for the opening bracket at
      `i` whose lookahead returned `e`, and what `visit` makes of it. */
  lemma SpanOfOpen(t: string, i: nat, e: nat, line: nat, col: nat)
    requires Scannable(t) && i < |t| && t[i] == '['
    requires e == Match(t, i)
    ensures e == 0 ==> i == 0
    ensures i <= e < |t|
    ensures FirstSymbol(t[i..e + 1]) == 0
    ensures Scannable(Interior(t[i..e + 1]))
    ensures Interior(t[i..e + 1]) == Body(t, i, e)
  {
    if 0 < i {
      assert OpenMatched(t, i);
    }
    MatchCharacterized(t, i);
    var span := t[i..e + 1];
    assert span[0] == '[';
    if i < e {
      assert IsMatch(t, i, e);
      BalancedOpensMatched(t[i + 1..e]);
      assert |span| == e + 1 - i;
      var inside, body := span[1..e - i], t[i + 1..e];
      forall k | 0 <= k < |body|
        ensures inside[k] == body[k]
      {
        assert inside[k] == span[k + 1] == t[i + 1 + k];
      }
      assert span[1..e - i] == t[i + 1..e];
    }
    assert Interior(span) == Body(t, i, e);
  }

  /** How a level continues past an opening bracket at `i` that is matched
      at `e`, or, when `i` is 0, not matched at all: the child `visit` makes
      of the span, then the rest of the level from the cursor the inner loop
      leaves behind. */
  lemma LevelAtOpen(t: string, i: nat, e: nat, line: nat, col: nat, child: Node, after: Cursor)
    requires Scannable(t) && i < |t| && t[i] == '['
    requires e == Match(t, i)
    requires i <= e < |t|
    requires child == Dispatch(t[i..e + 1], line, col)
    requires after == Skip(t, i, e, line, col)
    ensures Level(t, i, line, col) == [child] + Level(t, e + 1, after.line, after.col + 1)
  {
    SpanOfOpen(t, i, e, line, col);
    assert Level(t, i, line, col) == LevelAtLoop(t, i, line, col);
  }

  /** The inner loop of `visit_multi` over the span of a loop: it walks the
      positions `lo .. hi - 1`, stepping the column and restarting it at 1
      after a newline. */
  method WalkSpan(prog: string, lo: nat, hi: nat, line: nat, col: nat) returns (linePos: nat, charPos: nat)
    requires lo <= hi <= |prog|
    ensures Cursor(linePos, charPos) == Skip(prog, lo, hi, line, col)
  {
    linePos, charPos := line, col;
    var j := 0;
    while j < hi - lo
      invariant 0 <= j <= hi - lo
      invariant Cursor(linePos, charPos) == Skip(prog, lo, lo + j, line, col)
    {
      if prog[lo + j] == '\n' {
        linePos, charPos := linePos + 1, 1;
      }
      j, charPos := j + 1, charPos + 1;
    }
  }

  /** `visit`: the root goes straight to `visit_multi`; any other node skips
      to its first symbol and becomes a loop over the span's inside or a leaf. */
  method Visit(prog: string, isRoot: bool, line: nat, col: nat) returns (t: Node)
    requires isRoot ==> Scannable(prog)
    requires !isRoot ==> |prog| > 0 && (prog[FirstSymbol(prog)] == '[' ==> Scannable(Interior(prog)))
    ensures isRoot ==> t == Build(prog)
    ensures !isRoot ==> t == Dispatch(prog, line, col)
    decreases |prog|, if isRoot then 2 else 0
  {
    if isRoot {
      t := VisitMulti(prog, Root, line, col);
      return;
    }
    var it := 0;
    while it < |prog| - 1 && !ValidToken(prog[it])
      invariant 0 <= it < |prog|
      invariant FirstSymbolFrom(prog, it) == FirstSymbol(prog)
    {
      it := it + 1;
    }
    var c := prog[it];
    if c == '[' {
      t := VisitMulti(Interior(prog), Loop, line, col);
    } else {
      t := VisitSingle(Classify(c), line, col);
    }
  }

  /** `visit_single`: a leaf node carrying only its token. */
  method VisitSingle(tok: Token, line: nat, col: nat) returns (t: Node)
    ensures t.tok == tok && t.children == [] && t.line == line && t.col == col
  {
    t := Node(tok, [], line, col);
  }

  /** The scan's invariant across a symbol other than `[`: the children so
      far, then the leaf for that symbol, then the rest of the level. */
  lemma SymbolStep(t: string, i: nat, line: nat, col: nat, child: Node, done: seq<Node>, whole: seq<Node>)
    requires i < |t| && ValidToken(t[i]) && t[i] != '['
    requires child == Dispatch([t[i]], line, col)
    requires done + Level(t, i, line, col) == whole
    ensures (done + [child]) + Level(t, i + 1, line, col + 1) == whole
  {
    LevelAtSymbol(t, i, line, col, child);
    assert (done + [child]) + Level(t, i + 1, line, col + 1) == done + ([child] + Level(t, i + 1, line, col + 1));
  }

  /** The scan's invariant across the span of a loop opened at `i`. */
  lemma OpenStep(t: string, i: nat, e: nat, line: nat, col: nat, child: Node, after: Cursor,
                 done: seq<Node>, whole: seq<Node>)
    requires Scannable(t) && i < |t| && t[i] == '['
    requires e == Match(t, i)
    requires i <= e < |t|
    requires child == Dispatch(t[i..e + 1], line, col)
    requires after == Skip(t, i, e, line, col)
    requires done + Level(t, i, line, col) == whole
    ensures (done + [child]) + Level(t, e + 1, after.line, after.col + 1) == whole
  {
    LevelAtOpen(t, i, e, line, col, child, after);
    assert (done + [child]) + Level(t, e + 1, after.line, after.col + 1)
        == done + ([child] + Level(t, e + 1, after.line, after.col + 1));
  }

  /** `visit_multi`: scan `prog` one character at a time, appending a child
      for every symbol; for a `[` the child is built from its bracketed span
      and the scan jumps past it. */
  method VisitMulti(prog: string, tok: Token, line: nat, col: nat) returns (t: Node)
    requires Scannable(prog)
    ensures tok == Root ==> t == Build(prog)
    ensures tok != Root ==> t == Node(tok, Level(prog, 0, line, col), line, col)
    decreases |prog|, 1
  {
    var lineNum: nat, charNum: nat := line, col;
    if tok == Root {
      lineNum, charNum := 1, 1;
    }
    var children: seq<Node> := [];
    var linePos: nat, charPos: nat := lineNum, charNum;
    var i := 0;
    ghost var whole := Level(prog, 0, lineNum, charNum);
    while i < |prog|
      invariant 0 <= i <= |prog|
      invariant children + Level(prog, i, linePos, charPos) == whole
      decreases |prog| - i
    {
      ghost var lp0: nat, cp0: nat, prev, i0 := linePos, charPos, children, i;
      if prog[i] == '\n' {
        linePos, charPos := linePos + 1, 0;
      }
      if ValidToken(prog[i]) {
        if prog[i] != '[' {
          var child := Visit([prog[i]], false, linePos, charPos);
          children := children + [child];
          SymbolStep(prog, i, lp0, cp0, child, prev, whole);
        } else {
          var e := LoopLookahead(prog, i);
          SpanOfOpen(prog, i, e, linePos, charPos);
          var child := Visit(prog[i..e + 1], false, linePos, charPos);
          children := children + [child];
          linePos, charPos := WalkSpan(prog, i, e, linePos, charPos);
          OpenStep(prog, i, e, lp0, cp0, child, Cursor(linePos, charPos), prev, whole);
          i := i + (e - i);
          assert i == e;
        }
      } else {
        LevelAtGap(prog, i, lp0, cp0);
      }
      i, charPos := i + 1, charPos + 1;
    }
    t := Node(tok, children, lineNum, charNum);
  }
}
