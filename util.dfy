/** Tokens of the eight-symbol tape language and the two small classifiers
    over them: which characters are symbols, and the printable name of a token. */
module Util {

  /** The token kinds, in declaration order; `Nil` is the sentinel for a
      character that is not an instruction (util.h). */
  datatype Token = Root | Plus | Minus | Loop | Period | Comma | LArrow | RArrow | Nil

  /** The eight characters of the language. */
  const Symbols: string := "+-[].,<>"

  /** The six symbols that become leaf instructions. */
  const AtomicSymbols: string := "+-.,<>"

  predicate IsAtomic(tok: Token) {
    tok in {Plus, Minus, Period, Comma, LArrow, RArrow}
  }

  /** `valid_token`: a switch that accepts exactly the eight symbols. */
  predicate ValidToken(c: char) {
    match c
    case '+' => true
    case '-' => true
    case '[' => true
    case ']' => true
    case '.' => true
    case ',' => true
    case '<' => true
    case '>' => true
    case _ => false
  }

  /** `token_name`: the six instructions print as their own symbol, the two
      structural kinds by a word, and everything else as "nil". */
  function TokenName(tok: Token): string {
    match tok
    case Plus => "+"
    case Minus => "-"
    case Period => "."
    case Comma => ","
    case LArrow => "<"
    case RArrow => ">"
    case Loop => "loop"
    case Root => "root"
    case _ => "nil"
  }

  lemma ValidTokenIsSymbol(c: char)
    ensures ValidToken(c) <==> c in Symbols
  {
  }

  lemma ValidTokenRejectsControl()
    ensures !ValidToken('\n') && !ValidToken('\0') && !ValidToken(' ')
  {
  }

  /** Only the six instructions have a one-character name, and that name is
      one of the atomic symbols; every other token has a longer name. */
  lemma TokenNameLength(tok: Token)
    ensures |TokenName(tok)| == 1 <==> IsAtomic(tok)
    ensures IsAtomic(tok) ==> TokenName(tok)[0] in AtomicSymbols
    ensures !IsAtomic(tok) ==> |TokenName(tok)| >= 3
  {
  }

  /** Distinct tokens print differently, except that `Nil` has no name of its own. */
  lemma TokenNameInjective(a: Token, b: Token)
    requires a != Nil && b != Nil
    requires TokenName(a) == TokenName(b)
    ensures a == b
  {
  }
}
