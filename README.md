# big-brain-compiler front end in Dafny

This project models the front end of the big-brain bf compiler. That front end is four parts:

- **Token helpers** (`util.cpp`). Which characters are instructions, and the printable name of each token kind.
- **Tree builder** (`ast_builder.cpp`). One recursive scan of the source text builds the program's tree.
  - Each of the six atomic symbols `+ - < > . ,` becomes a leaf.
  - Each `[` becomes a loop node. Its closing `]` is found by depth counting (`loop_lookahead`), and the text between the brackets is scanned recursively.
  - A `]` that does not close anything becomes a `nil` leaf.
  - Every other character is skipped.
  - Every node records the line and column where the scan saw it.
- **Error codes** (`bf_error.h`). The compiler's error enumeration, the integer each code carries, the category name `brainf`, and the message for each integer.
- **Command-line parser** (`cmd_parser.h`, `cmd_parser.cpp`). Copies the argument vector. Answers whether an option is present and what its value is. Finds the first `.bf` input file that is not an option's value. Picks the optimisation level.

Files:

- `util.dfy` (module `Util`): the token kinds, `ValidToken`, `TokenName`.
- `ast.dfy` (module `Ast`): the tree node and its views.
  - `Flatten` turns a tree back into symbols.
  - `Marks` lists each node's token and line in preorder; `Columns` lists each node's column in preorder.
  - `WellShaped` says only the root and loops have children, and `NilFree` says no `nil` leaf appears.
- `brackets.dfy` (module `Brackets`): bracket depth, properly nested text and newline counts.
- `ast_builder.dfy` (module `AstBuilder`):
  - The recursive specification functions. `Match` says what the lookahead returns, `Skip` says where the cursor lands after a loop's span, and `Level` and `Build` say which children the scan produces.
  - The scan itself as methods (`LoopLookahead`, `Visit`, `VisitMulti`, `VisitSingle`, `WalkSpan`), loop for loop, each proved to compute its specification function.
- `ast_builder_props.dfy` (module `AstBuilderProps`): what the tree means.
  - Round trip: flattening the tree gives back the source's symbols.
  - Lines and columns follow the source text.
  - Shape: only the root and loops have children.
  - A properly nested program yields no `nil` leaf.
  - Stray and unmatched brackets behave as stated below.
  - Small worked examples.
- `bf_error.dfy` (module `BfError`): the error enumeration, `make_error_code` and the category's messages.
- `cmd_parser.dfy` (module `CmdParser`): the parser as a class whose `args` field the constructor fills one argument at a time.

### Unbalanced brackets

The code has no bracket-validation pass:

- `visit_multi` scans without checking.
- A stray `]` becomes a `nil` leaf (`StrayCloseIsNil`).
- An unmatched `[` at offset 0 becomes an empty loop, and the scan resumes right after it (`UnmatchedFirstOpen`).

The scan is defined on every `Scannable` input: every `[` after the first character has its `]`. Stray `]` and an unmatched `[` at offset 0 are allowed there. The round trip (`FlattenRoundTrip`) is proved for every input whose `[` all have a match (`AllOpensMatched`). Lines (`LinesFollowSource`) are proved only for properly nested input (`Balanced`). Columns (`ColumnsOnOneLine`) are proved only for properly nested input without newlines. The error codes `ast_lbracket` and `ast_rbracket` exist with their messages, but nothing in the modelled core raises them.

### Characters

A Dafny `string` element stands for one byte (one `char`) of the C++ `std::string`. The input is not decoded text: a column counts bytes, so a multi-byte UTF-8 character moves the columns after it by its byte length.

## Model

| member | source | states |
|---|---|---|
| Util.ValidTokenIsSymbol | src/util.cpp:23-40 | a character is a valid token exactly when it is one of the eight bf symbols |
| Util.ValidTokenRejectsControl | src/util.cpp:37-38 | newline, NUL and space are not tokens (the switch's default) |
| Util.TokenNameLength | src/util.cpp:66-90 | a name is one character exactly for the six atomic tokens, and that character is an atomic symbol; loop, root and nil get names of three or more characters |
| Util.TokenNameInjective | src/util.cpp:66-90 | apart from nil, which takes the default name, different token kinds have different names |
| AstBuilder.MatchCharacterized | src/ast_builder.cpp:116-131 | the lookahead returns the index of the `]` closing the `[` at `start` exactly when one exists (a `]` with properly nested text in between), and 0 otherwise; the closing bracket is unique |
| AstBuilder.LoopLookahead | src/ast_builder.cpp:116-131 | the depth-counting loop returns `Match(prog, start)`; when nonzero, that index lies after `start` and holds `]` |
| AstBuilder.BalancedOpensMatched | src/ast_builder.cpp:122-128 | in properly nested text every `[` has a match, so the lookahead never returns 0 there |
| AstBuilder.WalkSpan | src/ast_builder.cpp:88-91 | walking a loop's span moves the cursor to `Skip`: the column grows by one per character and restarts at 1 after each newline |
| AstBuilder.Visit | src/ast_builder.cpp:22-55 | the root is built by `Build`; any other text skips to its first symbol and becomes the loop over its inside (a `[`) or the leaf for that symbol (`nil` for `]`) |
| AstBuilder.VisitSingle | src/ast_builder.cpp:105-107 | a leaf carries the given token, no children and the cursor position |
| AstBuilder.VisitMulti | src/ast_builder.cpp:64-96 | the scan's children are exactly `Level(prog, 0, ...)`; the root sits at line 1, column 1 |
| AstBuilderProps.FlattenRoundTrip | src/ast_builder.cpp:74-94 | when every `[` is matched, flattening the built tree gives back the source's symbols in order, with all other characters dropped |
| AstBuilderProps.LinesFollowSource | src/ast_builder.cpp:73-90 | for properly nested source, the nodes in preorder carry the token of each symbol (other than a closing `]`) and the line it stands on (1 plus the newlines before it) |
| AstBuilderProps.ColumnsOnOneLine | src/ast_builder.cpp:73-93 | for properly nested source on one line, each node's column is 1 plus its offset minus the bracket depth before it, because a loop's children count from the `[` column |
| AstBuilderProps.BuildWellShaped | src/ast_builder.cpp:37-54 | the root sits at line 1, column 1, and only the root and loop nodes have children |
| AstBuilderProps.BalancedNilFree | src/ast_builder.cpp:52-53 | properly nested source yields no `nil` leaf |
| AstBuilderProps.StrayCloseIsNil | src/ast_builder.cpp:52-53 | a `]` at the scan position becomes a `nil` leaf at the cursor, and the scan goes on one column later |
| AstBuilderProps.UnmatchedFirstOpen | src/ast_builder.cpp:84-93 | an unmatched `[` at offset 0 becomes an empty loop at (1, 1), and the scan resumes at offset 1, column 2 |
| AstBuilderProps.ClassifyNameRoundTrip | src/ast_builder.cpp:37-53 | a character is an atomic symbol exactly when `visit` classifies it as an atomic token, and that token's name is the character; `[` gives loop and `]` gives nil |
| AstBuilderProps.UnmatchedOpenExample | src/ast_builder.cpp:84-93 | `[+` gives an empty loop at (1,1) and a plus at (1,2) |
| AstBuilderProps.StrayCloseExample | src/ast_builder.cpp:52-53 | `]+` gives nil at (1,1) and plus at (1,2) |
| AstBuilderProps.TopNewlineExample | src/ast_builder.cpp:74-75 | after a newline at the top level, the next symbol is at column 1 of line 2 |
| AstBuilderProps.SpanNewlineExample | src/ast_builder.cpp:89-90 | after a newline inside a loop's span, the column restarts at 1 and the jump adds one more, so `[\n]+` puts plus at (2,3) |
| AstBuilderProps.LoopInteriorExample | src/ast_builder.cpp:81-84 | a loop's children count from the `[` column, so `[+]` puts plus at (1,1) inside the loop at (1,1) |
| BfError.OrdinalsFollowDeclaration | include/bf_error.h:18-30 | the codes are numbered 0 to 10 in declaration order, and the number names the code back |
| BfError.OrdinalInjective | include/bf_error.h:18-30 | different codes carry different integers |
| BfError.MakeErrorCode | include/bf_error.h:85-87 | the error code of an enumerator is in category `brainf`, and its value is the enumerator's position (0 to 10) |
| BfError.BracketMessages | include/bf_error.h:58-61 | the bracket codes are 3 and 4 and carry their messages about a missing `]` and a missing `[` |
| BfError.UnknownMessage | include/bf_error.h:49-74 | the fallback message is given exactly for integers outside 0..9 |
| BfError.MessagesDistinct | include/bf_error.h:51-71 | the ten named codes have ten different messages |
| BfError.MadeCodeMessage | include/bf_error.h:44-46 | a code made from an enumerator belongs to the `brainf` category, and its message is the fallback exactly for `unknown` |
| CmdParser.OptName | include/cmd_parser.h:54 | the optimisation option for level n is one of the four options, and its digit is n |
| CmdParser.OptionsNameLevels | src/cmd_parser.cpp:114-115 | each optimisation option names a level 0 to 3 by its third character |
| CmdParser.BfExtension | src/cmd_parser.cpp:63-64 | a path has extension `.bf` exactly when it ends in `.bf` and that dot does not start the file name |
| CmdParser.Parser.constructor | include/cmd_parser.h:26-30 | the arguments are the first `argc` entries of `argv`, in order |
| CmdParser.Parser.Find | src/cmd_parser.cpp:29 | like `std::find`: the first index holding the option, or the length when there is none |
| CmdParser.Parser.OptionExists | src/cmd_parser.cpp:26-32 | true exactly when the option is among the arguments |
| CmdParser.Parser.GetOption | src/cmd_parser.cpp:41-50 | an absent option has the empty value; a present flag or optimisation option is its own value |
| CmdParser.Parser.GetOptionValue | src/cmd_parser.cpp:44-49 | any other option's value is the argument after its first occurrence, or empty when that occurrence is last |
| CmdParser.Parser.GetInputFile | src/cmd_parser.cpp:58-69 | the result is empty exactly when no argument is a `.bf` path that follows something other than `-o`; otherwise it is the first such argument |
| CmdParser.Parser.InputFileExample | src/cmd_parser.cpp:62-64 | in `x -o out.bf in.bf` the output path is passed over and `in.bf` is the input |
| CmdParser.Parser.GetOptLevel | src/cmd_parser.cpp:110-131 | the level is in 0..3; it is 2 when no optimisation option is given, and otherwise the level of one that is given |
| CmdParser.Parser.OneOptionChosen | src/cmd_parser.cpp:113-116 | when exactly one optimisation option is given, its level is the one chosen |

## Left out

- `print_ast`, `check_input_file`, lowering, code generation and `main` are not part of this model. They are output, filesystem queries and the LLVM backend.
- The LLVM `OptimizationLevel` type: a level is modelled as a number from 0 to 3.
- The `std::error_category` machinery (`is_error_code_enum`, the `bf_category()` singleton): an error code is modelled as a value and a category name.
- `option_argument` is declared in `cmd_parser.h` but never defined, so there is nothing to model.
- Tree nodes are values. The `shared_ptr` ownership, the `parent` back-link and the in-place filling of a node passed by reference are modelled as a returned node.
- The default constructor of `cmd_parser` (an empty argument list) is not modelled separately. It is the constructor with `argc` 0.
- AstBuilder.VisitMulti: it requires every `[` after offset 0 to be matched (`Scannable`). For an unmatched `[` past offset 0 the C++ takes a substring with a wrapped-around length and the behaviour is undefined. An unmatched `[` at offset 0 is modelled (`UnmatchedFirstOpen`).
- AstBuilder.VisitMulti: `loop_lookahead` is called three times per loop in the C++ and once here. It is a pure function of the text, so the results agree.
- AstBuilder.LoopLookahead: its postcondition states only `Match` and bounds. The full meaning of `Match` is `MatchCharacterized`, kept apart so the scan's proof stays small.
- AstBuilderProps.LinesFollowSource: stated for properly nested source only; with stray brackets the lines are given by `Level` and `StrayCloseIsNil`.
- AstBuilderProps.ColumnsOnOneLine: stated for properly nested source with no newline. Across lines the columns are exactly those of `Level`, but no closed form is given.
- CmdParser.Parser.GetOptLevel: the set of optimisation options is an `unordered_set`, whose iteration order is unspecified. When several levels are given, the model states only that the result is one of them. The switch's `default` branch is unreachable and is not modelled.
- CmdParser.Extension: follows `std::filesystem::path::extension` for names made of `/`-separated parts. Root names and other platform path forms are not modelled.
- Nothing in the modelled code raises `ast_lbracket` or `ast_rbracket`.
