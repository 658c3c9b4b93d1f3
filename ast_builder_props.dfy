/** What the tree built by `visit` for a whole program says about that
    program: its shape, the symbols it holds, the lines and columns it
    records, and how it treats brackets that do not pair up. Every lemma is
    about `Build(s)`, the tree `Visit(s, true, ...)` returns. */
module AstBuilderProps {
  import opened Util
  import opened Ast
  import opened Brackets
  import opened AstBuilder

  // ---------------------------------------------------------------------
  // The source side
  // ---------------------------------------------------------------------

  /** The source with everything but the eight symbols dropped. */
  function SymbolsOf(s: string): (r: string)
    ensures |r| <= |s|
    ensures forall k :: 0 <= k < |r| ==> ValidToken(r[k])
  {
    if s == [] then []
    else (if ValidToken(s[0]) then [s[0]] else []) + SymbolsOf(s[1..])
  }

  /** Every opening bracket of `s` has a closing one. */
  predicate AllOpensMatched(s: string) {
    forall k :: 0 <= k < |s| ==> OpenMatched(s, k)
  }

  /** The token and line of every symbol that starts a node (every symbol
      but `]`), in source order, when the text starts on line `line`. */
  function SourceMarks(u: string, line: nat): seq<(Token, nat)> {
    if u == [] then []
    else
      (if ValidToken(u[0]) && u[0] != ']' then [(Classify(u[0]), line)] else [])
        + SourceMarks(u[1..], if u[0] == '\n' then line + 1 else line)
  }

  /** The column of every symbol that starts a node, in source order, on a
      single line starting at column `c`: each character moves the column
      on by one, less one for every bracket it leaves open (the inside of a
      loop starts in the column of its `[`). */
  function SourceColumns(u: string, c: int): seq<int> {
    if u == [] then []
    else
      (if ValidToken(u[0]) && u[0] != ']' then [c] else [])
        + SourceColumns(u[1..], c + 1 - Delta(u[0]))
  }

  lemma {:induction false} SymbolsAppend(a: string, b: string)
    ensures SymbolsOf(a + b) == SymbolsOf(a) + SymbolsOf(b)
  {
    if a == [] {
      assert a + b == b;
    } else {
      assert (a + b)[1..] == a[1..] + b;
      SymbolsAppend(a[1..], b);
    }
  }

  lemma {:induction false} SourceMarksAppend(a: string, b: string, line: nat)
    ensures SourceMarks(a + b, line) == SourceMarks(a, line) + SourceMarks(b, line + Newlines(a))
  {
    if a == [] {
      assert a + b == b;
    } else {
      assert (a + b)[1..] == a[1..] + b;
      SourceMarksAppend(a[1..], b, if a[0] == '\n' then line + 1 else line);
    }
  }

  lemma {:induction false} SourceColumnsAppend(a: string, b: string, c: int)
    ensures SourceColumns(a + b, c) == SourceColumns(a, c) + SourceColumns(b, c + |a| - Depth(a))
  {
    if a == [] {
      assert a + b == b;
    } else {
      assert (a + b)[1..] == a[1..] + b;
      SourceColumnsAppend(a[1..], b, c + 1 - Delta(a[0]));
    }
  }

  // ---------------------------------------------------------------------
  // The cursor over a skipped span
  // ---------------------------------------------------------------------

  /** After walking a span the line has moved on by the newlines in it; on
      a single line the column has moved on by the span's length. */
  lemma {:induction false} SkipClosedForm(t: string, lo: nat, hi: nat, line: nat, col: nat)
    requires lo <= hi <= |t|
    ensures Skip(t, lo, hi, line, col).line == line + Newlines(t[lo..hi])
    ensures Newlines(t[lo..hi]) == 0 ==> Skip(t, lo, hi, line, col).col == col + (hi - lo)
    decreases hi - lo
  {
    if hi > lo {
      SkipClosedForm(t, lo, hi - 1, line, col);
      assert t[lo..hi] == t[lo..hi - 1] + [t[hi - 1]];
      NewlinesAppend(t[lo..hi - 1], [t[hi - 1]]);
    }
  }

  // ---------------------------------------------------------------------
  // Unfolding a level one node at a time
  // ---------------------------------------------------------------------

  /** A balanced level that starts with `[` is a loop over a balanced
      inside, closed at `e`, followed by a balanced rest. */
  lemma BalancedOpen(t: string, i: nat) returns (e: nat)
    requires i < |t| && t[i] == '[' && Balanced(t[i..])
    ensures e == Match(t, i) && i < e < |t| && t[e] == ']'
    ensures Balanced(t[i + 1..e]) && Balanced(t[e + 1..])
    ensures t[i..] == [t[i]] + t[i + 1..e] + [t[e]] + t[e + 1..]
  {
    assert t[i..] == [t[i]] + t[i + 1..];
    DepthAppend([t[i]], t[i + 1..]);
    OpenIsMatched(t, i);
    MatchCharacterized(t, i);
    e := Match(t, i);
    assert IsMatch(t, i, e);
    var u := t[i..];
    assert u[..e + 1 - i] == [t[i]] + t[i + 1..e] + [t[e]];
    DepthAppend([t[i]] + t[i + 1..e], [t[e]]);
    DepthAppend([t[i]], t[i + 1..e]);
    BalancedDrop(u, e + 1 - i);
    assert u[e + 1 - i..] == t[e + 1..];
  }

  /** A balanced level does not start with `]`, and after any other
      character what follows is still balanced. */
  lemma BalancedPastOne(t: string, i: nat)
    requires i < |t| && t[i] != '[' && Balanced(t[i..])
    ensures t[i] != ']' && Balanced(t[i + 1..])
  {
    BalancedNoLeadingClose(t[i..]);
    assert t[i..][..1] == [t[i]];
    BalancedDrop(t[i..], 1);
    assert t[i..][1..] == t[i + 1..];
  }

  /** `Level` at a symbol other than `[`: its leaf, then the rest. */
  lemma LevelAtLeaf(t: string, i: nat, line: nat, col: nat)
    requires i < |t| && ValidToken(t[i]) && t[i] != '['
    ensures Level(t, i, line, col) == [Node(Classify(t[i]), [], line, col)] + Level(t, i + 1, line, col + 1)
  {
  }

  /** `Level` at a `[` closed at `e`: the loop over the inside, then the
      rest of the level from the cursor left after the span. */
  lemma LevelAtMatchedOpen(t: string, i: nat, e: nat, line: nat, col: nat)
    requires i < e < |t| && t[i] == '[' && e == Match(t, i)
    ensures Level(t, i, line, col)
      == [Node(Loop, Level(t[i + 1..e], 0, line, col), line, col)]
         + Level(t, e + 1, Skip(t, i, e, line, col).line, Skip(t, i, e, line, col).col + 1)
  {
    assert Body(t, i, e) == t[i + 1..e];
    assert Level(t, i, line, col) == LevelAtLoop(t, i, line, col);
  }

  /** An opening bracket with a match: where it closes, and the source
      around it cut into the bracket, the inside, the `]` and the rest. */
  lemma MatchedOpen(t: string, i: nat) returns (e: nat)
    requires i < |t| && t[i] == '[' && OpenMatched(t, i)
    ensures e == Match(t, i) && i < e < |t| && t[e] == ']'
    ensures Balanced(t[i + 1..e])
    ensures t[i..] == [t[i]] + (t[i + 1..e] + ([t[e]] + t[e + 1..]))
  {
    MatchCharacterized(t, i);
    e := Match(t, i);
    assert IsMatch(t, i, e);
    assert t[i..] == [t[i]] + (t[i + 1..e] + ([t[e]] + t[e + 1..]));
  }

  /** The node seen first heads the pre-order walks and the flattening. */
  lemma HeadNode(n: Node, rest: seq<Node>)
    ensures Marks([n] + rest) == [(n.tok, n.line)] + Marks(n.children) + Marks(rest)
    ensures Columns([n] + rest) == [n.col] + Columns(n.children) + Columns(rest)
    ensures FlattenAll([n] + rest) == Flatten(n) + FlattenAll(rest)
    ensures WellShaped([n] + rest)
        <==> n.tok != Root && (n.tok != Loop ==> n.children == []) && WellShaped(n.children) && WellShaped(rest)
    ensures NilFree([n] + rest) <==> n.tok != Nil && NilFree(n.children) && NilFree(rest)
  {
    assert ([n] + rest)[0] == n && ([n] + rest)[1..] == rest;
  }

  // ---------------------------------------------------------------------
  // Shape
  // ---------------------------------------------------------------------

  lemma {:induction false} LevelWellShaped(t: string, i: nat, line: nat, col: nat)
    requires i <= |t|
    ensures WellShaped(Level(t, i, line, col))
    decreases |t|, |t| - i
  {
    if i == |t| {
    } else if t[i] == '\n' {
      LevelWellShaped(t, i + 1, line + 1, 1);
    } else if !ValidToken(t[i]) {
      LevelWellShaped(t, i + 1, line, col + 1);
    } else if t[i] != '[' {
      LevelWellShaped(t, i + 1, line, col + 1);
      HeadNode(Node(Classify(t[i]), [], line, col), Level(t, i + 1, line, col + 1));
    } else {
      assert Level(t, i, line, col) == LevelAtLoop(t, i, line, col);
      var e := Match(t, i);
      var stop := if i < e then e else i;
      var after := Skip(t, i, stop, line, col);
      LevelWellShaped(Body(t, i, e), 0, line, col);
      LevelWellShaped(t, stop + 1, after.line, after.col + 1);
      HeadNode(Node(Loop, Level(Body(t, i, e), 0, line, col), line, col),
               Level(t, stop + 1, after.line, after.col + 1));
    }
  }

  /** Only the root and loops have children; every symbol other than a
      bracket is a leaf, and the root occurs only at the top. */
  lemma BuildWellShaped(s: string)
    ensures Build(s).tok == Root && Build(s).line == 1 && Build(s).col == 1
    ensures WellShaped(Build(s).children)
  {
    LevelWellShaped(s, 0, 1, 1);
  }

  // ---------------------------------------------------------------------
  // Symbols
  // ---------------------------------------------------------------------

  lemma {:induction false} FlattenLevel(t: string, i: nat, line: nat, col: nat)
    requires i <= |t|
    requires forall k :: i <= k < |t| ==> OpenMatched(t, k)
    ensures FlattenAll(Level(t, i, line, col)) == SymbolsOf(t[i..])
    decreases |t|, |t| - i
  {
    if i == |t| {
      assert t[i..] == [];
    } else if t[i] != '[' {
      assert SymbolsOf(t[i..]) == (if ValidToken(t[i]) then [t[i]] else []) + SymbolsOf(t[i + 1..]) by {
        assert t[i..][0] == t[i] && t[i..][1..] == t[i + 1..];
      }
      if t[i] == '\n' || !ValidToken(t[i]) {
        LevelAtGap(t, i, line, col);
        FlattenLevel(t, i + 1, if t[i] == '\n' then line + 1 else line, if t[i] == '\n' then 1 else col + 1);
      } else {
        LevelAtLeaf(t, i, line, col);
        FlattenLevel(t, i + 1, line, col + 1);
        HeadNode(Node(Classify(t[i]), [], line, col), Level(t, i + 1, line, col + 1));
      }
    } else {
      FlattenOpen(t, i, line, col);
    }
  }

  /** `FlattenLevel` at an opening bracket. */
  lemma {:induction false} FlattenOpen(t: string, i: nat, line: nat, col: nat)
    requires i < |t| && t[i] == '['
    requires forall k :: i <= k < |t| ==> OpenMatched(t, k)
    ensures FlattenAll(Level(t, i, line, col)) == SymbolsOf(t[i..])
    decreases |t|, |t| - i, 0
  {
    var e := MatchedOpen(t, i);
    var body := t[i + 1..e];
    var after := Skip(t, i, e, line, col);
    FlattenAtOpen(t, i, e, line, col);
    SymbolsAroundLoop(t, i, e);
    assert forall k :: 0 <= k < |body| ==> OpenMatched(body, k) by {
      BalancedOpensMatched(body);
    }
    FlattenLevel(body, 0, line, col);
    FlattenLevel(t, e + 1, after.line, after.col + 1);
    assert body[0..] == body;
  }

  /** `FlattenAll` of a level at a `[` closed at `e`. */
  lemma FlattenAtOpen(t: string, i: nat, e: nat, line: nat, col: nat)
    requires i < e < |t| && t[i] == '[' && e == Match(t, i)
    ensures FlattenAll(Level(t, i, line, col))
      == "[" + FlattenAll(Level(t[i + 1..e], 0, line, col)) + "]"
         + FlattenAll(Level(t, e + 1, Skip(t, i, e, line, col).line, Skip(t, i, e, line, col).col + 1))
  {
    var after := Skip(t, i, e, line, col);
    LevelAtMatchedOpen(t, i, e, line, col);
    HeadNode(Node(Loop, Level(t[i + 1..e], 0, line, col), line, col), Level(t, e + 1, after.line, after.col + 1));
  }

  lemma SymbolsAroundLoop(t: string, i: nat, e: nat)
    requires i < e < |t| && t[i] == '[' && t[e] == ']'
    ensures SymbolsOf(t[i..]) == "[" + SymbolsOf(t[i + 1..e]) + "]" + SymbolsOf(t[e + 1..])
  {
    var body := t[i + 1..e];
    assert t[i..] == [t[i]] + (body + ([t[e]] + t[e + 1..]));
    SymbolsAppend([t[i]], body + ([t[e]] + t[e + 1..]));
    SymbolsAppend(body, [t[e]] + t[e + 1..]);
    SymbolsAppend([t[e]], t[e + 1..]);
    assert SymbolsOf([t[e]]) == "]" && SymbolsOf([t[i]]) == "[";
  }

  /** When every `[` has its `]`, writing the tree back out (a loop as its
      children between brackets) gives the source with everything but the
      eight symbols dropped: no symbol is lost, added or reordered. */
  lemma FlattenRoundTrip(s: string)
    requires AllOpensMatched(s)
    ensures Flatten(Build(s)) == SymbolsOf(s)
  {
    FlattenLevel(s, 0, 1, 1);
    assert s[0..] == s;
  }

  // ---------------------------------------------------------------------
  // Lines
  // ---------------------------------------------------------------------

  lemma {:induction false} MarksLevel(t: string, i: nat, line: nat, col: nat)
    requires i <= |t| && Balanced(t[i..])
    ensures Marks(Level(t, i, line, col)) == SourceMarks(t[i..], line)
    decreases |t|, |t| - i
  {
    if i == |t| {
      assert t[i..] == [];
    } else if t[i] != '[' {
      BalancedPastOne(t, i);
      assert SourceMarks(t[i..], line)
          == (if ValidToken(t[i]) then [(Classify(t[i]), line)] else [])
             + SourceMarks(t[i + 1..], if t[i] == '\n' then line + 1 else line) by {
        assert t[i..][0] == t[i] && t[i..][1..] == t[i + 1..];
      }
      if t[i] == '\n' || !ValidToken(t[i]) {
        LevelAtGap(t, i, line, col);
        MarksLevel(t, i + 1, if t[i] == '\n' then line + 1 else line, if t[i] == '\n' then 1 else col + 1);
      } else {
        LevelAtLeaf(t, i, line, col);
        MarksLevel(t, i + 1, line, col + 1);
        HeadNode(Node(Classify(t[i]), [], line, col), Level(t, i + 1, line, col + 1));
      }
    } else {
      MarksOpen(t, i, line, col);
    }
  }

  /** `MarksLevel` at an opening bracket. */
  lemma {:induction false} MarksOpen(t: string, i: nat, line: nat, col: nat)
    requires i < |t| && t[i] == '[' && Balanced(t[i..])
    ensures Marks(Level(t, i, line, col)) == SourceMarks(t[i..], line)
    decreases |t|, |t| - i, 0
  {
    var e := BalancedOpen(t, i);
    var body := t[i + 1..e];
    var after := Skip(t, i, e, line, col);
    MarksAtOpen(t, i, e, line, col);
    SkipOverLoop(t, i, e, line, col);
    SourceMarksAroundLoop(t, i, e, line);
    assert Balanced(body[0..]) by {
      assert body[0..] == body;
    }
    MarksLevel(body, 0, line, col);
    MarksLevel(t, e + 1, after.line, after.col + 1);
    assert body[0..] == body;
  }

  /** `Marks` of a level at a `[` closed at `e`. */
  lemma MarksAtOpen(t: string, i: nat, e: nat, line: nat, col: nat)
    requires i < e < |t| && t[i] == '[' && e == Match(t, i)
    ensures Marks(Level(t, i, line, col))
      == [(Loop, line)] + Marks(Level(t[i + 1..e], 0, line, col))
         + Marks(Level(t, e + 1, Skip(t, i, e, line, col).line, Skip(t, i, e, line, col).col + 1))
  {
    var after := Skip(t, i, e, line, col);
    LevelAtMatchedOpen(t, i, e, line, col);
    HeadNode(Node(Loop, Level(t[i + 1..e], 0, line, col), line, col), Level(t, e + 1, after.line, after.col + 1));
  }

  /** The cursor after the span of a loop: on by the newlines inside it, and
      on a single line on by the span's length. */
  lemma SkipOverLoop(t: string, i: nat, e: nat, line: nat, col: nat)
    requires i < e < |t| && t[i] == '['
    ensures Skip(t, i, e, line, col).line == line + Newlines(t[i + 1..e])
    ensures Newlines(t[i + 1..e]) == 0 ==> Skip(t, i, e, line, col).col == col + (e - i)
  {
    SkipClosedForm(t, i, e, line, col);
    assert t[i..e] == [t[i]] + t[i + 1..e];
    NewlinesAppend([t[i]], t[i + 1..e]);
  }

  /** A single-line level stays single-line inside and after a loop. */
  lemma NewlinesAroundLoop(t: string, i: nat, e: nat)
    requires i < e < |t| && t[i] == '[' && t[e] == ']' && Newlines(t[i..]) == 0
    ensures Newlines(t[i + 1..e]) == 0 && Newlines(t[e + 1..]) == 0
  {
    var body := t[i + 1..e];
    assert t[i..] == [t[i]] + (body + ([t[e]] + t[e + 1..]));
    NewlinesAppend([t[i]], body + ([t[e]] + t[e + 1..]));
    NewlinesAppend(body, [t[e]] + t[e + 1..]);
    NewlinesAppend([t[e]], t[e + 1..]);
  }

  lemma SourceMarksAroundLoop(t: string, i: nat, e: nat, line: nat)
    requires i < e < |t| && t[i] == '[' && t[e] == ']'
    ensures SourceMarks(t[i..], line)
      == [(Loop, line)] + SourceMarks(t[i + 1..e], line) + SourceMarks(t[e + 1..], line + Newlines(t[i + 1..e]))
  {
    var body := t[i + 1..e];
    assert t[i..] == [t[i]] + (body + ([t[e]] + t[e + 1..]));
    SourceMarksAppend([t[i]], body + ([t[e]] + t[e + 1..]), line);
    SourceMarksAppend(body, [t[e]] + t[e + 1..], line);
    SourceMarksAppend([t[e]], t[e + 1..], line + Newlines(body));
    assert SourceMarks([t[i]], line) == [(Loop, line)];
  }

  /** The root is at line 1, and in a properly nested program every node
      is on line 1 plus the number of newlines before its symbol, whether
      those newlines lie at its own level or inside loops skipped over. */
  lemma LinesFollowSource(s: string)
    requires Balanced(s)
    ensures Build(s).line == 1
    ensures Marks(Build(s).children) == SourceMarks(s, 1)
  {
    assert s[0..] == s;
    MarksLevel(s, 0, 1, 1);
  }

  // ---------------------------------------------------------------------
  // Columns
  // ---------------------------------------------------------------------

  lemma {:induction false} ColumnsLevel(t: string, i: nat, line: nat, col: nat)
    requires i <= |t| && Balanced(t[i..]) && Newlines(t[i..]) == 0
    ensures Columns(Level(t, i, line, col)) == SourceColumns(t[i..], col)
    decreases |t|, |t| - i
  {
    if i == |t| {
      assert t[i..] == [];
    } else if t[i] != '[' {
      BalancedPastOne(t, i);
      assert t[i] != '\n' && Newlines(t[i + 1..]) == 0
          && SourceColumns(t[i..], col) == (if ValidToken(t[i]) then [col] else []) + SourceColumns(t[i + 1..], col + 1) by {
        assert t[i..][0] == t[i] && t[i..][1..] == t[i + 1..];
      }
      if !ValidToken(t[i]) {
        LevelAtGap(t, i, line, col);
        ColumnsLevel(t, i + 1, line, col + 1);
      } else {
        LevelAtLeaf(t, i, line, col);
        ColumnsLevel(t, i + 1, line, col + 1);
        HeadNode(Node(Classify(t[i]), [], line, col), Level(t, i + 1, line, col + 1));
      }
    } else {
      ColumnsOpen(t, i, line, col);
    }
  }

  /** `ColumnsLevel` at an opening bracket. */
  lemma {:induction false} ColumnsOpen(t: string, i: nat, line: nat, col: nat)
    requires i < |t| && t[i] == '[' && Balanced(t[i..]) && Newlines(t[i..]) == 0
    ensures Columns(Level(t, i, line, col)) == SourceColumns(t[i..], col)
    decreases |t|, |t| - i, 0
  {
    var e := BalancedOpen(t, i);
    var body := t[i + 1..e];
    var after := Skip(t, i, e, line, col);
    ColumnsAtOpen(t, i, e, line, col);
    NewlinesAroundLoop(t, i, e);
    SkipOverLoop(t, i, e, line, col);
    SourceColumnsAroundLoop(t, i, e, col);
    assert Balanced(body[0..]) && Newlines(body[0..]) == 0 by {
      assert body[0..] == body;
    }
    ColumnsLevel(body, 0, line, col);
    ColumnsLevel(t, e + 1, after.line, after.col + 1);
    assert body[0..] == body;
  }

  /** `Columns` of a level at a `[` closed at `e`. */
  lemma ColumnsAtOpen(t: string, i: nat, e: nat, line: nat, col: nat)
    requires i < e < |t| && t[i] == '[' && e == Match(t, i)
    ensures Columns(Level(t, i, line, col))
      == [col] + Columns(Level(t[i + 1..e], 0, line, col))
         + Columns(Level(t, e + 1, Skip(t, i, e, line, col).line, Skip(t, i, e, line, col).col + 1))
  {
    var after := Skip(t, i, e, line, col);
    LevelAtMatchedOpen(t, i, e, line, col);
    HeadNode(Node(Loop, Level(t[i + 1..e], 0, line, col), line, col), Level(t, e + 1, after.line, after.col + 1));
  }

  lemma SourceColumnsAroundLoop(t: string, i: nat, e: nat, c: int)
    requires i < e < |t| && t[i] == '[' && t[e] == ']' && Depth(t[i + 1..e]) == 0
    ensures SourceColumns(t[i..], c)
      == [c] + SourceColumns(t[i + 1..e], c) + SourceColumns(t[e + 1..], c + (e - i) + 1)
  {
    var body := t[i + 1..e];
    assert t[i..] == [t[i]] + (body + ([t[e]] + t[e + 1..]));
    SourceColumnsAppend([t[i]], body + ([t[e]] + t[e + 1..]), c);
    SourceColumnsAppend(body, [t[e]] + t[e + 1..], c);
    SourceColumnsAppend([t[e]], t[e + 1..], c + |body|);
    assert SourceColumns([t[i]], c) == [c];
  }

  /** The root is at column 1, and on a single line every node is at the
      column of its symbol's offset plus one, less the number of loops
      around it: a root-level symbol at offset `k` is at column `k + 1`, and
      the first symbol inside a loop shares the column of its `[`. */
  lemma ColumnsOnOneLine(s: string)
    requires Balanced(s) && Newlines(s) == 0
    ensures Build(s).col == 1
    ensures Columns(Build(s).children) == SourceColumns(s, 1)
  {
    assert s[0..] == s;
    ColumnsLevel(s, 0, 1, 1);
  }

  // ---------------------------------------------------------------------
  // Brackets that do not pair up
  // ---------------------------------------------------------------------

  lemma {:induction false} NilFreeLevel(t: string, i: nat, line: nat, col: nat)
    requires i <= |t| && Balanced(t[i..])
    ensures NilFree(Level(t, i, line, col))
    decreases |t|, |t| - i
  {
    if i == |t| {
    } else if t[i] != '[' {
      BalancedPastOne(t, i);
      if t[i] == '\n' || !ValidToken(t[i]) {
        LevelAtGap(t, i, line, col);
        NilFreeLevel(t, i + 1, if t[i] == '\n' then line + 1 else line, if t[i] == '\n' then 1 else col + 1);
      } else {
        LevelAtLeaf(t, i, line, col);
        NilFreeLevel(t, i + 1, line, col + 1);
        HeadNode(Node(Classify(t[i]), [], line, col), Level(t, i + 1, line, col + 1));
      }
    } else {
      var e := BalancedOpen(t, i);
      var body := t[i + 1..e];
      var after := Skip(t, i, e, line, col);
      LevelAtMatchedOpen(t, i, e, line, col);
      assert body[0..] == body;
      NilFreeLevel(body, 0, line, col);
      NilFreeLevel(t, e + 1, after.line, after.col + 1);
      HeadNode(Node(Loop, Level(body, 0, line, col), line, col), Level(t, e + 1, after.line, after.col + 1));
    }
  }

  /** A properly nested program gives a tree without any `Nil` node. */
  lemma BalancedNilFree(s: string)
    requires Balanced(s)
    ensures NilFree(Build(s).children)
  {
    assert s[0..] == s;
    NilFreeLevel(s, 0, 1, 1);
  }

  /** A `]` that no `[` at its level opened becomes a `Nil` leaf, and the
      scan goes on with the next character. */
  lemma StrayCloseIsNil(t: string, i: nat, line: nat, col: nat)
    requires i < |t| && t[i] == ']'
    ensures Level(t, i, line, col) == [Node(Nil, [], line, col)] + Level(t, i + 1, line, col + 1)
  {
    LevelAtLeaf(t, i, line, col);
  }

  /** A `[` at offset 0 without a match becomes an empty loop, and the
      characters after it become its siblings, the next one at column 2. */
  lemma UnmatchedFirstOpen(s: string)
    requires |s| > 0 && s[0] == '[' && Match(s, 0) == 0
    ensures Build(s).children == [Node(Loop, [], 1, 1)] + Level(s, 1, 1, 2)
  {
    assert Level(s, 0, 1, 1) == LevelAtLoop(s, 0, 1, 1);
    assert Body(s, 0, 0) == [];
  }

  /** Each of the six single-character symbols becomes a token whose name
      is that character again; the two brackets do not. */
  lemma ClassifyNameRoundTrip(c: char)
    requires ValidToken(c)
    ensures c in AtomicSymbols <==> IsAtomic(Classify(c))
    ensures c in AtomicSymbols ==> TokenName(Classify(c)) == [c]
    ensures c == '[' ==> Classify(c) == Loop
    ensures c == ']' ==> Classify(c) == Nil
  {
    ValidTokenIsSymbol(c);
  }

  // ---------------------------------------------------------------------
  // Small programs
  // ---------------------------------------------------------------------

  lemma UnmatchedOpenExample()
    ensures Build("[+") == Node(Root, [Node(Loop, [], 1, 1), Node(Plus, [], 1, 2)], 1, 1)
  {
    assert Match("[+", 0) == 0;
    UnmatchedFirstOpen("[+");
  }

  lemma StrayCloseExample()
    ensures Build("]+") == Node(Root, [Node(Nil, [], 1, 1), Node(Plus, [], 1, 2)], 1, 1)
  {
    StrayCloseIsNil("]+", 0, 1, 1);
  }

  lemma TopNewlineExample()
    ensures Build("\n+") == Node(Root, [Node(Plus, [], 2, 1)], 1, 1)
  {
    LevelAtGap("\n+", 0, 1, 1);
  }

  lemma SpanNewlineExample()
    ensures Build("[\n]+") == Node(Root, [Node(Loop, [], 1, 1), Node(Plus, [], 2, 3)], 1, 1)
  {
    var s := "[\n]+";
    assert Match(s, 0) == 2;
    LevelAtMatchedOpen(s, 0, 2, 1, 1);
    assert s[1..2] == "\n";
    assert Skip(s, 0, 2, 1, 1) == Cursor(2, 2);
  }

  lemma LoopInteriorExample()
    ensures Build("[+]") == Node(Root, [Node(Loop, [Node(Plus, [], 1, 1)], 1, 1)], 1, 1)
  {
    var s := "[+]";
    assert Match(s, 0) == 2;
    LevelAtMatchedOpen(s, 0, 2, 1, 1);
    assert s[1..2] == "+";
    LevelAtLeaf("+", 0, 1, 1);
    assert Level("+", 1, 1, 2) == [];
    assert Level("+", 0, 1, 1) == [Node(Plus, [], 1, 1)];
    assert Skip(s, 0, 2, 1, 1) == Cursor(1, 3);
    assert Level(s, 3, 1, 4) == [];
  }
}
