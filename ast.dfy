/** The syntax tree node (ast.h). The `parent` field of ast.h is
    not represented: a node is a value and owns its children. */
module Ast {
  import opened Util

  /** A node: its token, its children in program order, and the line and
      column recorded for it while scanning. */
  datatype Node = Node(tok: Token, children: seq<Node>, line: nat, col: nat)

  /** The instructions a node stands for, in program order, written back as
      symbols: a loop as its children between brackets, the root as its
      children, a leaf as its own symbol. A `Nil` node comes only from a
      closing bracket and is written back as one. */
  function Flatten(n: Node): string
    decreases n, 1
  {
    match n.tok
    case Root => FlattenAll(n.children)
    case Loop => "[" + FlattenAll(n.children) + "]"
    case Nil => "]"
    case _ => TokenName(n.tok)
  }

  function FlattenAll(ns: seq<Node>): string
    decreases ns, 0
  {
    if ns == [] then [] else Flatten(ns[0]) + FlattenAll(ns[1..])
  }

  /** Pre-order list of the tokens and lines of every node below the given ones. */
  function Marks(ns: seq<Node>): seq<(Token, nat)>
    decreases ns
  {
    if ns == [] then []
    else [(ns[0].tok, ns[0].line)] + Marks(ns[0].children) + Marks(ns[1..])
  }

  /** Pre-order list of the columns of every node below the given ones. */
  function Columns(ns: seq<Node>): seq<int>
    decreases ns
  {
    if ns == [] then []
    else [ns[0].col] + Columns(ns[0].children) + Columns(ns[1..])
  }

  /** Only `Root` and `Loop` nodes have children, and no node below the top is a `Root`. */
  predicate WellShaped(ns: seq<Node>)
    decreases ns
  {
    ns == [] ||
    (ns[0].tok != Root
     && (ns[0].tok != Loop ==> ns[0].children == [])
     && WellShaped(ns[0].children)
     && WellShaped(ns[1..]))
  }

  /** No node below the given ones carries the `Nil` sentinel. */
  predicate NilFree(ns: seq<Node>)
    decreases ns
  {
    ns == [] || (ns[0].tok != Nil && NilFree(ns[0].children) && NilFree(ns[1..]))
  }
}
