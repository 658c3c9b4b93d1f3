/** The compiler's own error codes (bf_error.h): the enumeration, the
    integer each code carries, and the message its category gives for an
    integer. */
module BfError {

  /** The error codes, in declaration order. */
  datatype BrainErrc =
    | NoErr
    | CmdMissingInput
    | CmdInvalidInput
    | AstLbracket
    | AstRbracket
    | GenBadInit
    | LowerOutput
    | LowerObject
    | LowerClang
    | LowerLinking
    | Unknown

  /** The codes in declaration order. */
  const Declared: seq<BrainErrc> :=
    [NoErr, CmdMissingInput, CmdInvalidInput, AstLbracket, AstRbracket, GenBadInit,
     LowerOutput, LowerObject, LowerClang, LowerLinking, Unknown]

  /** The integer value of a code: the first is 0 and each later one is one more. */
  function Ordinal(e: BrainErrc): (n: nat)
    ensures n <= 10
  {
    match e
    case NoErr => 0
    case CmdMissingInput => 1
    case CmdInvalidInput => 2
    case AstLbracket => 3
    case AstRbracket => 4
    case GenBadInit => 5
    case LowerOutput => 6
    case LowerObject => 7
    case LowerClang => 8
    case LowerLinking => 9
    case Unknown => 10
  }

  /** The category's name. */
  function Name(): string {
    "brainf"
  }

  /** The category's message for an integer value; an integer that names no
      code other than `Unknown` gets the fallback message. */
  function Message(ev: int): string {
    if ev == 0 then "no error"
    else if ev == 1 then "missing input file"
    else if ev == 2 then "invalid input file"
    else if ev == 3 then "'[' is missing it's closing ']'"
    else if ev == 4 then "']' is missing it's opening '['"
    else if ev == 5 then "unable to initialize LLVM module"
    else if ev == 6 then "could not open output file"
    else if ev == 7 then "could not compile LLVM IR"
    else if ev == 8 then "could not find clang for linking"
    else if ev == 9 then "unable to link the object file with clang"
    else "unknown error"
  }

  /** A `std::error_code`: an integer value and the name of its category. */
  datatype ErrorCode = ErrorCode(value: int, category: string)

  /** The error code for an enumerator: its ordinal in this category. */
  function MakeErrorCode(e: BrainErrc): (c: ErrorCode)
    ensures c.category == "brainf"
    ensures 0 <= c.value <= 10
    ensures e == Declared[c.value]
  {
    ErrorCode(Ordinal(e), Name())
  }

  /** The enumerators are numbered 0 to 10 in declaration order. */
  lemma {:induction false} OrdinalsFollowDeclaration()
    ensures |Declared| == 11
    ensures forall k :: 0 <= k < |Declared| ==> Ordinal(Declared[k]) == k
    ensures forall e :: Declared[Ordinal(e)] == e
  {
    forall e
      ensures Declared[Ordinal(e)] == e
    {
      match e
      case NoErr =>
      case CmdMissingInput =>
      case CmdInvalidInput =>
      case AstLbracket =>
      case AstRbracket =>
      case GenBadInit =>
      case LowerOutput =>
      case LowerObject =>
      case LowerClang =>
      case LowerLinking =>
      case Unknown =>
    }
  }

  /** Different codes carry different integers. */
  lemma OrdinalInjective(a: BrainErrc, b: BrainErrc)
    requires Ordinal(a) == Ordinal(b)
    ensures a == b
  {
  }

  /** The two bracket codes and their messages. */
  lemma BracketMessages()
    ensures Ordinal(AstLbracket) == 3 && Ordinal(AstRbracket) == 4
    ensures Message(Ordinal(AstLbracket)) == "'[' is missing it's closing ']'"
    ensures Message(Ordinal(AstRbracket)) == "']' is missing it's opening '['"
    ensures Message(0) == "no error"
  {
  }

  /** The fallback message is given exactly for the integers outside 0..9,
      `Unknown`'s own value 10 among them. */
  lemma UnknownMessage(ev: int)
    ensures Message(ev) == "unknown error" <==> ev < 0 || 9 < ev
  {
  }

  /** The ten named codes have ten different messages. */
  lemma MessagesDistinct(a: int, b: int)
    requires 0 <= a <= 9 && 0 <= b <= 9 && a != b
    ensures Message(a) != Message(b)
  {
  }

  /** The message of the error code made from an enumerator is the fallback
      exactly for `Unknown`. */
  lemma MadeCodeMessage(e: BrainErrc)
    ensures MakeErrorCode(e).category == Name()
    ensures Message(MakeErrorCode(e).value) == "unknown error" <==> e == Unknown
  {
    UnknownMessage(Ordinal(e));
  }
}
