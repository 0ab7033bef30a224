# functionnames: naming-convention check for C++ functions, in Dafny

The program takes one C++ source file, parses it into a tree of entities, and
checks that the name of every function and member function it examines starts
with a character that is not a lower-case ASCII letter. The four iterator
names `begin`, `end`, `cbegin`, `cend` and every name that starts with
`operator` are exempt, and templated, friended and unnamed entities are passed
over. It prints `[OK]` or `[ERR]` with the name of each one it checks, and exits with 0
when every checked name complies.

This project models the checker (`check`) and the two decisions in the entry
point (`main`) that are more than plumbing:

- **Entities** (`entities.dfy`): the parsed file is a tree of `Entity` values.
  Each has a kind (`File`, `Namespace`, `Function`, `MemberFunction`, or
  `Other`), a name, a `templated` flag, a `friended` flag and its children in
  declaration order. The walk of `cppast::visit` is the pre-order `PreOrder`.
- **Naming rule** (`naming_rule.dfy`): a non-empty name is compliant if it
  meets any of these rules:
  - it is `begin`, `end`, `cbegin` or `cend`;
  - `substr(0, 8)` of it is `operator`;
  - its first character is unchanged by `toupper`. The model uses ASCII, so
    this means the first character is not `a`..`z`.
- **Check** (`checker.dfy`):
  - The walk skips the file entity and every templated or friended entity but
    still visits their children, because the callback always returns `true`.
  - It evaluates the rule on each function and member function with a
    non-empty name.
  - It records one `Verdict(name, compliant)` per evaluated entity, in walk
    order. These are the `[OK]`/`[ERR]` lines.
  - It folds the verdicts into `fileCompliant`, which starts `true` and is
    `&=`-ed with each verdict.
  - `Check` does this imperatively: a loop over a stack of entities still to
    visit. It is proved against the functions `Trace` and `FileCompliant`.
- **Command line** (`command_line.dfy`):
  - A `-D NAME=VALUE` argument is split at its first `=` with `find` and
    `substr`. Without a `=`, it becomes `(NAME, "")`.
  - The exit code is 1 without a file argument, 2 when parsing fails, 0 for a
    compliant file and 1 otherwise.
- `std_string.dfy` holds the parts of `std::string` used: `npos` (64-bit),
  `substr` and `find`.

The tree is made of immutable values. So the check cannot change it, and two
checks of the same tree give the same verdicts; no separate lemma is needed
for either. A function that is declared and later defined is two entities and
gets two verdicts, because the definition status is never consulted. A name
that starts with a character that is not a letter, such as `_foo`, is
compliant, as in the code.

## Model

| member | source | states |
|---|---|---|
| `Entities.PreOrder` | main.cpp:31 | the walk visits an entity before anything in its subtree |
| `Entities.PreOrderForestStep` | main.cpp:31-34 | visiting the first pending entity leaves its children, then its later siblings, to be visited next (pre-order, declaration order) |
| `Entities.SubtreeVisited` | main.cpp:31-34 | every entity in the subtree of any child is visited, whatever its parent is |
| `StdString.Find` | main.cpp:145 | `find('=')` gives the index of the first `=`, or `npos` exactly when there is none |
| `NamingRule.ToUpperFixedIff` | main.cpp:46 | ASCII `toupper` leaves a character unchanged exactly when it is not `a`..`z`; lower-case letters become `A`..`Z` |
| `NamingRule.OperatorPrefixIff` | main.cpp:42 | `substr(0, 8) == "operator"` holds exactly when the first 8 characters are `operator`; a name shorter than 8 never matches |
| `NamingRule.CompliantIff` | main.cpp:40-48 | a name is compliant exactly when it is exempt, starts with `operator`, or does not start with `a`..`z` |
| `NamingRule.ExemptNamesCompliant` | main.cpp:42-43 | `begin`, `end`, `cbegin`, `cend` start lower-case and are compliant |
| `NamingRule.LowerCaseNotCompliant` | main.cpp:40-48 | a name starting with `a`..`z` that is neither exempt nor an operator is not compliant |
| `NamingRule.NamingExamples` | main.cpp:40-48 | `Foo`, `begin`, `cend`, `operator==` and `_foo` comply; `foo` and `operato` do not |
| `Checker.EligibleIn` | main.cpp:32-37 | every entity the filter keeps is checked: not the file, not templated or friended, a function or member function, with a non-empty name |
| `Checker.EligibleInCounts` | main.cpp:32-37 | the filter keeps each occurrence of an eligible entity exactly once and drops every other entity |
| `Checker.VerdictsOfEligible` | main.cpp:51-57 | there is one verdict per eligible entity, in the same order, carrying its name and the rule's result |
| `Checker.AllCompliant` | main.cpp:59 | the `&=` fold from `true` is true exactly when every verdict is compliant |
| `Checker.CheckEntity` | main.cpp:32-62 | the callback gives a verdict exactly for eligible entities, and the verdict is the entity's name with the naming rule's result |
| `Checker.Check` | main.cpp:27-68 | the loop reports exactly the verdicts of the pre-order walk, and the file verdict is true exactly when all of them are compliant |
| `Checker.WalkStep` | main.cpp:31-63 | one step of the walk reports the first pending entity's own verdict and makes the rest of the walk strictly shorter |
| `Checker.VerdictsAppend` | main.cpp:31 | verdicts on consecutive parts of the walk come out in that order |
| `Checker.TraceUnfold` | main.cpp:31-63 | an entity's own verdict comes before those of its subtree |
| `Checker.SkippedEntityChildrenChecked` | main.cpp:32-34 | a file, templated or friended entity gets no verdict, and its children are still checked |
| `Checker.SiblingsInOrder` | main.cpp:31 | siblings are reported in declaration order, each with its whole subtree |
| `Checker.VerdictsFromEligibleEntities` | main.cpp:36-57 | every verdict is the verdict on an eligible entity that the walk visits |
| `Checker.OneVerdictPerEligibleEntity` | main.cpp:36-57 | the number of verdicts is the number of visits to eligible entities; each eligible entity is counted as often as it is visited, and every other entity is not counted |
| `Checker.FileCompliantIff` | main.cpp:30-66 | the file verdict is true exactly when every eligible entity the walk visits has a compliant name |
| `Checker.NothingEligibleIsCompliant` | main.cpp:30-66 | with no eligible entity there are no verdicts and the file is compliant |
| `Checker.TemplatedFunctionExample` | main.cpp:32-34 | a templated `foo` gets no verdict, not even an `[ERR]` |
| `Checker.TwoFunctionsExample` | main.cpp:27-68 | a file with `Bar` then `baz` reports `[OK] Bar`, then `[ERR] baz`, and is not compliant |
| `StdString.Substr` | main.cpp:146 | `s.substr(pos, count)`: the at most `count` characters of `s` from `pos` on (also used at lines 42 and 150) |
| `NamingRule.ToUpper` | main.cpp:46 | ASCII `toupper`: `a`..`z` become `A`..`Z`, every other character is returned unchanged |
| `NamingRule.HasOperatorPrefix` | main.cpp:42 | the test `name.substr(0, 8) == "operator"` |
| `NamingRule.IsCompliant` | main.cpp:40-48 | the naming rule: the name is one of the four exempt names, or passes the `operator` test, or its first character equals its upper-cased self |
| `Checker.Skipped` | main.cpp:32-34 | the entities the callback returns from at once: the file, templated and friended entities |
| `Checker.Eligible` | main.cpp:32-37 | the entities the rule is evaluated on: not skipped, a function or member function, with a non-empty name |
| `Checker.Verdicts` | main.cpp:51-57 | the `[OK]`/`[ERR]` lines for a sequence of visited entities: one verdict (name, rule result) per eligible entity, in order |
| `Checker.Trace` | main.cpp:31-57 | the `[OK]`/`[ERR]` lines of a whole check: the verdicts of the pre-order walk of the file |
| `Checker.FileCompliant` | main.cpp:66 | the value `check` returns: the `&=` fold from `true` over the check's verdicts |
| `CommandLine.SplitMacro` | main.cpp:144-152 | the reference split of a `-D` argument: the characters before its first `=` and those after it, or the whole argument and `""` |
| `CommandLine.HasFileArgument` | main.cpp:116 | the `file` option is given and not empty |
| `CommandLine.ExitCode` | main.cpp:116-176 | 1 without a file argument, 2 for a failed parse, then 0 for a compliant file and 1 for the rest |
| `CommandLine.SplitMacroAtFirstEquals` | main.cpp:145-152 | with the first `=` at index i, the name is everything before i and the definition everything after it |
| `CommandLine.SplitMacroWithoutEquals` | main.cpp:145-148 | without `=`, the name is the whole argument and the definition is empty |
| `CommandLine.SplitMacroRoundTrip` | main.cpp:144-152 | splitting `name=definition`, for a name without `=`, gives back that name and the definition |
| `CommandLine.DefineMacros` | main.cpp:143-153 | the loop over `-D` arguments defines, in order, each argument split at its first `=` |
| `CommandLine.ExitCodeMeaning` | main.cpp:116-176 | the exit code is 0 exactly when a file was given, parsed, and every checked name complies; 2 exactly when a given file fails to parse; 1 otherwise |
| `CommandLine.Run` | main.cpp:116-176 | a run returns that exit code, defines macros only when a file is given, and prints the check's verdicts only when the file parsed |

## Left out

- Parsing with cppast and libclang: the parser, the entity index, `parse_file`, and the compile configuration are left out. So are the compilation database, include directories, `-U` undefinitions, the language standard and the preprocessing flags. The outcome of parsing is a parameter, `ParseOutcome`. It does not depend on the configuration, which the model does not build.
- The `libclang_error` handler (exit 2) is merged with the null parse result into `ParseFailed`. `parse_file`'s own `return nullptr` (main.cpp:82-83) is never taken, because `fatal_error` is always false (see below). Whether `parser.parse` can return null is up to the library, so `ParseFailed` covers both cases. The model does not say where inside the library such an error could be thrown.
- `cppast::visit`'s separate enter and exit events for container entities are left out, as is how `is_templated` and `is_friended` are computed. The walk is a plain pre-order over the children, and the two properties are flags on each entity. The callback ignores the event (main.cpp:31), so the program runs it twice on every container entity. That never adds a verdict, because functions and member functions are leaves, so visiting each entity once gives the same verdicts.
- Command-line parsing with cxxopts becomes inputs: the `file` argument is an `Option<string>`, and the `-D` arguments are a sequence of strings. The logger is not modelled. The `verbose` and `fatal_errors` options are queried (main.cpp:162, 166) but never declared (main.cpp:91-110), so they are never counted: the logger is never verbose and `parse_file` always gets `fatal_error` false.
- Output is left out: the header line, terminal colour codes, `setw` padding, and the closing "compliant"/"NOT compliant" messages. The `[OK]`/`[ERR]` lines become the sequence of verdicts.
- `config.define_macro` becomes the returned sequence of (name, definition) pairs; the compiler flags it produces are not modelled.
- `toupper` is modelled for ASCII only: `a`..`z` are upper-cased and every other character is unchanged. Locale-dependent behaviour, and the undefined behaviour of negative `char` values, are not modelled.
- `substr` throws when its position is past the end of the string. No call here reaches that case, so the model requires the position to be in range.
