/**
 * The parts of the program's entry point that decide something: how a
 * `-D NAME=VALUE` argument is split into a macro name and definition, and
 * which exit code the run ends with.
 */
module CommandLine {
  import opened Wrappers
  import opened StdString
  import opened Entities
  import opened NamingRule
  import opened Checker

  /**
   * A macro argument split at its first `=`: the name before it and the
   * definition after it, or the whole argument and an empty definition when
   * there is no `=`.
   */
  function SplitMacro(macro: string): (string, string) {
    if macro == [] then ([], [])
    else if macro[0] == '=' then ([], macro[1..])
    else
      var (name, definition) := SplitMacro(macro[1..]);
      ([macro[0]] + name, definition)
  }

  /** With a `=` at index `i` and none before it, the split takes everything before `i` and everything after it. */
  lemma {:induction false} SplitMacroAtFirstEquals(macro: string, i: nat)
    requires i < |macro| && macro[i] == '=' && '=' !in macro[..i]
    ensures SplitMacro(macro) == (macro[..i], macro[i + 1..])
    decreases i
  {
    if i > 0 {
      assert macro[0] in macro[..i];
      assert macro[1..][..i - 1] == macro[..i][1..];
      SplitMacroAtFirstEquals(macro[1..], i - 1);
      assert [macro[0]] + macro[1..][..i - 1] == macro[..i];
    }
  }

  /** Without any `=`, the whole argument is the name and the definition is empty. */
  lemma {:induction false} SplitMacroWithoutEquals(macro: string)
    requires '=' !in macro
    ensures SplitMacro(macro) == (macro, "")
  {
    if macro != [] {
      assert macro[0] in macro;
      assert forall c :: c in macro[1..] ==> c in macro;
      SplitMacroWithoutEquals(macro[1..]);
      assert [macro[0]] + macro[1..] == macro;
    }
  }

  /** The split undoes `name + "=" + definition` for a name without `=`. */
  lemma SplitMacroRoundTrip(name: string, definition: string)
    requires '=' !in name
    ensures SplitMacro(name + "=" + definition) == (name, definition)
  {
    var macro := name + "=" + definition;
    assert macro[..|name|] == name;
    assert macro[|name| + 1..] == definition;
    SplitMacroAtFirstEquals(macro, |name|);
  }

  /**
   * The loop over the `-D` arguments: each is split at its first `=` with
   * `find` and `substr`, and the (name, definition) pair is passed on to the
   * compile configuration, here collected in order.
   */
  method DefineMacros(arguments: seq<CppString>) returns (macros: seq<(string, string)>)
    ensures |macros| == |arguments|
    ensures forall i :: 0 <= i < |arguments| ==> macros[i] == SplitMacro(arguments[i])
  {
    macros := [];
    for k := 0 to |arguments|
      invariant |macros| == k
      invariant forall i :: 0 <= i < k ==> macros[i] == SplitMacro(arguments[i])
    {
      var macro := arguments[k];
      var equal := Find(macro, '=');
      var name := Substr(macro, 0, equal);
      if equal == NPOS {
        SplitMacroWithoutEquals(macro);
        assert name == macro[..|macro|] == macro;
        macros := macros + [(name, "")];
      } else {
        var definition := Substr(macro, equal + 1, NPOS);
        SplitMacroAtFirstEquals(macro, equal);
        assert name == macro[..equal];
        assert definition == macro[equal + 1..];
        macros := macros + [(name, definition)];
      }
    }
  }

  /** What came of parsing the file: its tree, or a failure (a null result or a fatal parsing error). */
  datatype ParseOutcome = Parsed(file: Entity) | ParseFailed

  /** The `file` argument is present and not empty. */
  predicate HasFileArgument(fileArgument: Option<string>) {
    fileArgument.Some? && fileArgument.value != ""
  }

  /** The exit code of a run: 1 without a file, 2 when parsing fails, otherwise 0 for a compliant file and 1 for the rest. */
  function ExitCode(fileArgument: Option<string>, parse: ParseOutcome): int {
    if !HasFileArgument(fileArgument) then 1
    else if parse.ParseFailed? then 2
    else if FileCompliant(parse.file) then 0
    else 1
  }

  /**
   * A run exits with 0 exactly when a file was given, parsed, and every
   * function and member function checked in it has a compliant name; with 2
   * exactly when a file was given and could not be parsed; with 1 otherwise.
   */
  lemma ExitCodeMeaning(fileArgument: Option<string>, parse: ParseOutcome)
    ensures ExitCode(fileArgument, parse) in {0, 1, 2}
    ensures ExitCode(fileArgument, parse) == 0 <==>
              (HasFileArgument(fileArgument) && parse.Parsed?
               && forall x :: x in PreOrder(parse.file) && Eligible(x) ==> IsCompliant(x.name))
    ensures ExitCode(fileArgument, parse) == 2 <==> HasFileArgument(fileArgument) && parse.ParseFailed?
    ensures !HasFileArgument(fileArgument) ==> ExitCode(fileArgument, parse) == 1
  {
    if parse.Parsed? {
      FileCompliantIff(parse.file);
    }
  }

  /**
   * A run of the program on the parsed arguments: with a file, the macros are
   * defined, the parse outcome is examined and the file is checked; the
   * verdicts are those the check prints.
   */
  method Run(fileArgument: Option<string>, macroArguments: seq<CppString>, parse: ParseOutcome)
    returns (code: int, macros: seq<(string, string)>, verdicts: seq<Verdict>)
    ensures code == ExitCode(fileArgument, parse)
    ensures !HasFileArgument(fileArgument) ==> macros == []
    ensures HasFileArgument(fileArgument) ==>
              |macros| == |macroArguments|
              && forall i :: 0 <= i < |macros| ==> macros[i] == SplitMacro(macroArguments[i])
    ensures verdicts == if HasFileArgument(fileArgument) && parse.Parsed? then Trace(parse.file) else []
  {
    macros, verdicts := [], [];
    if fileArgument.None? || fileArgument.value == "" {
      return 1, macros, verdicts;
    }
    macros := DefineMacros(macroArguments);
    if parse.ParseFailed? {
      return 2, macros, verdicts;
    }
    var compliant;
    compliant, verdicts := Check(parse.file);
    code := if compliant then 0 else 1;
  }
}
