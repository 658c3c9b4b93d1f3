/** The command-line parser (cmd_parser.h, cmd_parser.cpp): the argument
    list and the queries the driver makes of it. */
module CmdParser {

  /** Options that take the next argument as their value. */
  const ArgParameters: set<string> := {"-o"}
  /** Options that stand alone. */
  const ArgFlags: set<string> := {"-h"}
  /** The optimisation options. */
  const ArgOptimization: set<string> := {"-O0", "-O1", "-O2", "-O3"}

  /** The optimisation option for level `n`. */
  function OptName(n: nat): (o: string)
    requires n <= 3
    ensures o in ArgOptimization
    ensures |o| == 3 && (o[2] as int) - ('0' as int) == n
  {
    if n == 0 then "-O0" else if n == 1 then "-O1" else if n == 2 then "-O2" else "-O3"
  }

  /** The level an optimisation option names (`stoi(o.substr(2, 1))`). */
  function OptDigit(o: string): int
    requires |o| >= 3
  {
    (o[2] as int) - ('0' as int)
  }

  /** Each optimisation option names one of the levels 0 to 3, and `OptName` names it back. */
  lemma OptionsNameLevels(o: string)
    requires o in ArgOptimization
    ensures |o| >= 3 && 0 <= OptDigit(o) <= 3 && OptName(OptDigit(o)) == o
  {
  }

  /** The index of the last `c` among the first `n` characters of `s`, or
      -1 when there is none. */
  function LastIndex(s: string, c: char, n: nat): (k: int)
    requires n <= |s|
    ensures -1 <= k < n
    ensures k >= 0 ==> s[k] == c
    ensures forall j :: k < j < n ==> s[j] != c
  {
    if n == 0 then -1
    else if s[n - 1] == c then n - 1
    else LastIndex(s, c, n - 1)
  }

  /** The name after the last `/` of a path. */
  function FileName(p: string): string {
    p[LastIndex(p, '/', |p|) + 1..]
  }

  /** `std::filesystem::path::extension`: the file name from its last `.`
      on, or nothing when the name has no `.`, starts with its only `.`, or
      is `.` or `..`. */
  function Extension(p: string): string {
    var f := FileName(p);
    var k := LastIndex(f, '.', |f|);
    if f == ".." || k <= 0 then [] else f[k..]
  }

  /** The file name is the part of the path after its last `/`. */
  lemma FileNameSuffix(p: string)
    ensures var slash := LastIndex(p, '/', |p|);
            FileName(p) == p[slash + 1..] && |FileName(p)| == |p| - slash - 1
  {
  }

  lemma BfExtensionOnlyIf(p: string)
    requires Extension(p) == ".bf"
    ensures |p| >= 4 && p[|p| - 3..] == ".bf" && p[|p| - 4] != '/'
  {
    var slash := LastIndex(p, '/', |p|);
    var f := FileName(p);
    var k := LastIndex(f, '.', |f|);
    FileNameSuffix(p);
    assert f[k..] == ".bf" && k > 0;
    assert |f| == k + 3;
    assert p[|p| - 3..] == f[k..];
    assert p[|p| - 4] == f[k - 1];
  }

  lemma BfExtensionIf(p: string)
    requires |p| >= 4 && p[|p| - 3..] == ".bf" && p[|p| - 4] != '/'
    ensures Extension(p) == ".bf"
  {
    var slash := LastIndex(p, '/', |p|);
    var f := FileName(p);
    FileNameSuffix(p);
    assert p[|p| - 1] == 'f' && p[|p| - 2] == 'b' && p[|p| - 3] == '.';
    assert slash < |p| - 4;
    assert f[|f| - 3..] == p[|p| - 3..];
    var k := LastIndex(f, '.', |f|);
    assert k == |f| - 3;
  }

  /** A path has the extension `.bf` exactly when it ends in `.bf` and that
      `.` does not begin its file name. */
  lemma BfExtension(p: string)
    ensures Extension(p) == ".bf" <==> |p| >= 4 && p[|p| - 3..] == ".bf" && p[|p| - 4] != '/'
  {
    if Extension(p) == ".bf" {
      BfExtensionOnlyIf(p);
    }
    if |p| >= 4 && p[|p| - 3..] == ".bf" && p[|p| - 4] != '/' {
      BfExtensionIf(p);
    }
  }

  /** A path shorter than `x.bf` never has the extension `.bf`. */
  lemma ShortNotBf(p: string)
    requires |p| < 4
    ensures Extension(p) != ".bf"
  {
    BfExtension(p);
  }

  /** A `.bf` name without a directory has that extension. */
  lemma PlainBfExtension()
    ensures Extension("in.bf") == ".bf"
  {
    var p := "in.bf";
    assert LastIndex(p, '/', 5) == -1;
    assert FileName(p) == p;
    assert LastIndex(p, '.', 5) == 2;
    assert p[2..] == ".bf";
  }

  class Parser {
    /** The command-line arguments, in order. */
    var args: seq<string>

    /** Copy the first `argc` entries of `argv`, one at a time. */
    constructor(argc: nat, argv: seq<string>)
      requires argc <= |argv|
      ensures args == argv[..argc]
    {
      args := [];
      new;
      var i := 0;
      while i < argc
        invariant 0 <= i <= argc
        invariant args == argv[..i]
      {
        args := args + [argv[i]];
        i := i + 1;
      }
    }

    /** `std::find` over the arguments: the first index holding `opt`, or
        the length when there is none. */
    function Find(opt: string): (k: nat)
      reads this
      ensures k <= |args|
      ensures k < |args| ==> args[k] == opt
      ensures forall j :: 0 <= j < k ==> args[j] != opt
    {
      FindFrom(opt, 0)
    }

    function FindFrom(opt: string, i: nat): (k: nat)
      reads this
      requires i <= |args|
      ensures i <= k <= |args|
      ensures k < |args| ==> args[k] == opt
      ensures forall j :: i <= j < k ==> args[j] != opt
      decreases |args| - i
    {
      if i == |args| then i
      else if args[i] == opt then i
      else FindFrom(opt, i + 1)
    }

    /** Whether `opt` is one of the arguments. */
    function OptionExists(opt: string): (b: bool)
      reads this
      ensures b <==> opt in args
    {
      Find(opt) != |args|
    }

    /** The value of `opt`: nothing when it is absent; the option itself for
        a flag or an optimisation option; otherwise the argument after its
        first occurrence, or nothing when that occurrence is the last one. */
    function GetOption(opt: string): (r: string)
      reads this
      ensures opt !in args ==> r == ""
      ensures opt in args && (opt in ArgFlags || opt in ArgOptimization) ==> r == opt
    {
      var k := Find(opt);
      if k == |args| then ""
      else if args[k] in ArgFlags || args[k] in ArgOptimization then args[k]
      else if k + 1 != |args| then args[k + 1]
      else ""
    }

    /** For any other option, the value is what follows its first occurrence. */
    lemma GetOptionValue(opt: string, k: nat)
      requires k < |args| && args[k] == opt && opt !in args[..k]
      requires opt !in ArgFlags && opt !in ArgOptimization
      ensures GetOption(opt) == if k + 1 < |args| then args[k + 1] else ""
    {
      assert forall j :: 0 <= j < k ==> args[j] == args[..k][j];
    }

    /** The argument at `i` may be the input file: it has the `.bf`
        extension and is not the value of an option such as `-o`. */
    predicate InputCandidate(i: nat)
      reads this
      requires i < |args|
    {
      Extension(args[i]) == ".bf" && (i == 0 || args[i - 1] !in ArgParameters)
    }

    /** `get_input_file`: the first candidate argument, or the empty path. */
    method GetInputFile() returns (file: string)
      ensures file == "" <==> forall i :: 0 <= i < |args| ==> !InputCandidate(i)
      ensures file != "" ==> exists i :: 0 <= i < |args| && InputCandidate(i) && file == args[i]
                                      && forall j :: 0 <= j < i ==> !InputCandidate(j)
    {
      var i := 0;
      while i < |args|
        invariant 0 <= i <= |args|
        invariant forall j :: 0 <= j < i ==> !InputCandidate(j)
      {
        if InputCandidate(i) {
          BfExtension(args[i]);
          return args[i];
        }
        i := i + 1;
      }
      return "";
    }

    /** An output path after `-o` is passed over for a later `.bf` argument. */
    lemma InputFileExample()
      requires |args| == 4 && args[0] == "x" && args[1] == "-o" && args[2] == "out.bf" && args[3] == "in.bf"
      ensures !InputCandidate(0) && !InputCandidate(1) && !InputCandidate(2) && InputCandidate(3)
    {
      ShortNotBf(args[0]);
      ShortNotBf(args[1]);
      PlainBfExtension();
      assert Extension(args[3]) == ".bf";
      assert |args[2]| == 6;
      assert args[2] !in ArgParameters;
    }

    /** `get_opt_level`: 2 unless an optimisation option is given. The
        options are visited in an unspecified order, and each one present
        overwrites the level, so when several are given the result is the
        level of one of them. */
    method GetOptLevel() returns (level: nat)
      ensures level <= 3
      ensures (forall n :: 0 <= n <= 3 ==> OptName(n) !in args) ==> level == 2
      ensures (exists n :: 0 <= n <= 3 && OptName(n) in args) ==> OptName(level) in args
    {
      var opt: nat := 2;
      var remaining := ArgOptimization;
      while remaining != {}
        invariant remaining <= ArgOptimization
        invariant 0 <= opt <= 3
        invariant (forall o :: o in ArgOptimization - remaining ==> o !in args) ==> opt == 2
        invariant (exists o :: o in ArgOptimization - remaining && o in args) ==> OptName(opt) in args
        decreases |remaining|
      {
        var o :| o in remaining;
        OptionsNameLevels(o);
        if OptionExists(o) {
          opt := OptDigit(o);
        }
        remaining := remaining - {o};
      }
      // The switch over the level maps 0 to 3 to themselves; its default
      // (level 2) is unreachable, as every option names a level in 0 to 3.
      level := opt;
    }

    /** When exactly one optimisation option is given, its level is chosen. */
    lemma OneOptionChosen(n: nat, level: nat)
      requires n <= 3 && OptName(n) in args
      requires forall m :: 0 <= m <= 3 && m != n ==> OptName(m) !in args
      requires level <= 3 && OptName(level) in args
      ensures level == n
    {
    }
  }
}
