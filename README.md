# Interface compliance engine — a verified model

This project models the compliance engine of `interface_compliance_check.py`. The engine checks the interfaces of a network switch against declarative interface templates. It has five parts:

- **Template classification** (`templates.dfy`, module `Templates`). Every line of a template file is stripped.
  - `#` lines are comments.
  - `+` lines name an additionally allowed command, with the marker and the whitespace around it removed.
  - Empty lines are dropped.
  - Every other line is a required command, in file order.
- **Running-configuration parser** (`running_config.dfy`, module `RunningConfig`). A line-by-line pass with a cursor on the open interface builds a dictionary from interface name to `{config, description}`.
  - An `interface` line, in any case, opens a fresh entry named by its second word. An earlier entry of that name is overwritten in place.
  - A `description` line sets the description.
  - A `!` line closes the block.
  - Every other non-empty line inside a block is appended to the entry's configuration.
  - An `interface` line without a name makes the parser fail, where the source's `split()[1]` raises.
- **Template matcher** (`matcher.dfy`, module `Matcher`).
  - A missing or empty description selects nothing.
  - Otherwise the template stored under `description + ".txt"` wins.
  - Failing that, the first template, in loading order, whose file name without its last extension occurs in the description.
- **Compliance evaluator** (`evaluator.dfy`, module `Evaluator`). The configuration text is split at `\n` and stripped; empty lines and lines starting with `interface` are ignored.
  - A required command is found only by an equal line.
  - A line is unexpected unless it is required or starts with a required or additionally allowed command.
  - The missing commands form a set.
  - The verdict is compliant exactly when nothing is missing and nothing is unexpected.
- **Per-device assembly** (`host.dfy`, module `Host`).
  - Only interfaces whose name starts with `GigabitEthernet`, in any case, are checked.
  - Each is either skipped, because no template matches, or checked against the template's commands, using its configuration lines joined with newlines.
  - The device is all compliant exactly when no interface is non-compliant and none is skipped.

The Python string operations the engine relies on are in `text.dfy` (module `Text`): `strip`, `split()`, `splitlines`, `split('\n')`, `'\n'.join`, `startswith`, `lower` on ASCII letters, substring `in`, and `rsplit('.', 1)[0]`. `wrappers.dfy` holds `Option` and `Result`.

Each loop of the core, except the first-match search (lines 27-30, the recursive `Matcher.FirstPartialMatch`) and the `any(...)` at line 205 (`Evaluator.HasAllowedPrefix`), is a Dafny method proved equal to a reference definition given without the loop:
- `ParseTemplateLines` matches `RequiredOf`/`AllowedOf`.
- `ParseInterfaces` matches `ParseOutcome`, where each entry is read off the block after the LAST declaration of its name.
- `CheckInterfaceCompliance` matches `VerdictFor`.
- `CheckSwitchCompliance` matches `HostOutcome`.

The lemmas state what those reference definitions mean.

Notable behaviours of the code (lines of `interface_compliance_check.py`), each kept by the model:
- There is no removal rule kind (lines 143-149). A template line starting with `-` is a required command, taken verbatim with its dash (`Templates.RequiredShape`).
- Matching is not one configurable mode (lines 203-205). A command is *found* only on exact equality, while a line is *allowed* when it merely starts with a required or allowed command (`Evaluator.ExtendedCommand`).
- Unexpected lines alone make an interface non-compliant (line 210, `Evaluator.CompliantIff`).
- "Skipped" is not a verdict status (lines 248-249). Skipped interfaces are collected per device (`Host.SkippedMember`).
- A `+` line with nothing after the marker (line 147) yields the empty allowed command (`Templates.BareAllowedMarker`), and the empty allowed command allows every line (`Evaluator.EmptyAllowedAllowsAll`).
- The parser's `interface` test ignores case (line 172), while the evaluator's is case-sensitive (line 200). The evaluator never sees such a line from the parser (`Host.ConsideredOfJoin`).

## Model

| member | source | states |
|---|---|---|
| Text.Strip | interface_compliance_check.py:143 | definition of `str.strip()`: the text between the leading and the trailing whitespace (its properties are in `Text.StripFacts`) |
| Text.Lower | interface_compliance_check.py:172 | definition of `str.lower()` on ASCII letters: `A`-`Z` become `a`-`z`, every other character is kept |
| Text.Words | interface_compliance_check.py:173 | definition of `str.split()` without arguments: the maximal runs of non-whitespace characters, in order |
| Text.SplitLines | interface_compliance_check.py:170 | definition of `str.splitlines()`: lines cut at `\n`, `\r` or `\r\n` (and the other Unicode line boundaries), without a trailing empty line |
| Text.SplitOn | interface_compliance_check.py:194 | `str.split('\n')`: the pieces between separators, always at least one |
| Text.JoinWith | interface_compliance_check.py:241 | definition of `'\n'.join`: the pieces with one separator between neighbours |
| Text.IsSubstring | interface_compliance_check.py:29 | definition of `in` on strings: the text occurs contiguously in the other |
| Text.StripFacts | interface_compliance_check.py:143 | the stripped text has no whitespace at either end, holds only characters of the input, and is empty exactly when the input is all whitespace |
| Text.StripIdempotent | interface_compliance_check.py:171 | stripping twice is stripping once |
| Text.StartsWith | interface_compliance_check.py:144 | definition of `str.startswith`: the prefix is no longer than the text and equals its first characters; it is every prefix test of the core (lines 144, 146, 172, 179, 183, 200, 205) |
| Text.StartsWithLower | interface_compliance_check.py:172 | a line starting with a lower-case keyword still starts with it after lowering |
| Text.WordsNonEmpty | interface_compliance_check.py:173 | no word of `split()` is empty, so a cursor set to an interface name is always truthy |
| Text.SplitLinesNoBreaks | interface_compliance_check.py:170 | no line from `splitlines` contains a line boundary |
| Text.SplitJoin | interface_compliance_check.py:194 | joining pieces without the separator and splitting at it gives the pieces back; the empty list comes back as one empty piece |
| Text.BaseName | interface_compliance_check.py:28 | the base name is a prefix of the file name; it is the whole name exactly when there is no dot, and otherwise stops at the last dot: no dot follows it |
| Text.BaseNameOfTxt | interface_compliance_check.py:23-28 | the base name of `d + ".txt"` is `d`, whatever dots `d` contains |
| Templates.Classify | interface_compliance_check.py:143-149 | definition of one template line's reading: stripped, a `#` line is a comment, a `+` line the stripped rest as an allowed command, any other non-empty line a required command, an empty one nothing |
| Templates.ParseTemplateLines | interface_compliance_check.py:142-154 | the loop yields exactly the required and the allowed lists of the reference classification, in file order |
| Templates.RequiredConcat | interface_compliance_check.py:142-149 | classification is line by line: the required list of a concatenation is the concatenation of the lists |
| Templates.AllowedConcat | interface_compliance_check.py:142-147 | the same for the allowed list |
| Templates.RequiredFromLine | interface_compliance_check.py:143-149 | a command is required exactly when some line classifies as that required command |
| Templates.AllowedFromLine | interface_compliance_check.py:143-147 | a command is allowed exactly when some line classifies as that allowed command |
| Templates.RequiredShape | interface_compliance_check.py:143-149 | required commands are non-empty, stripped, and start with neither `#` nor `+`; every stripped line starting with `-` is a required command |
| Templates.AllowedShape | interface_compliance_check.py:146-147 | every allowed command is stripped |
| Templates.BareAllowedMarker | interface_compliance_check.py:146-147 | a line that strips to `+` yields the empty allowed command |
| RunningConfig.Classify | interface_compliance_check.py:172-183 | definition of one stripped configuration line's reading, tested in the parser's order: `interface` in any case (named by its second word, or unnamed), `!`, empty, `description` in any case (text after the first 11 characters, stripped), anything else a command |
| RunningConfig.Step | interface_compliance_check.py:172-184 | definition of one iteration on names, entries and cursor: a named `interface` line resets that name's entry and opens it, `!` closes the block, and inside an open block a description replaces the description and a command is appended |
| RunningConfig.TokenAt | interface_compliance_check.py:170-171 | the token of line `i` is that line stripped and classified |
| RunningConfig.TokenCases | interface_compliance_check.py:172-184 | the classification of a line follows the parser's order of tests: `interface`, then `!`, then empty, then `description`, then any other line |
| RunningConfig.ParseLine | interface_compliance_check.py:171-184 | one iteration fails exactly on an unnamed `interface` line and otherwise performs the reference step on names, entries and cursor |
| RunningConfig.ParseInterfaces | interface_compliance_check.py:166-186 | the parser's result is the reference outcome: failure at the first unnamed `interface` line, otherwise the table whose entries are read off the block after each name's last declaration |
| RunningConfig.StepDeclares | interface_compliance_check.py:172-177 | an `interface` line makes the entry of its name fresh and empty and puts the cursor on it |
| RunningConfig.StepLeaves | interface_compliance_check.py:172-184 | a token that neither declares a name nor feeds that name's open block leaves its entry unchanged |
| RunningConfig.StepAbsorbs | interface_compliance_check.py:178-182 | a line inside an open block extends that block's entry: a description replaces the description, any other line is appended |
| RunningConfig.RunName | interface_compliance_check.py:170-184 | after any number of lines the parser's state records every name as the reference does, cursor included |
| RunningConfig.RunNames | interface_compliance_check.py:173-177 | the table lists names in order of first declaration; re-declaring a name keeps its position |
| RunningConfig.RunTable | interface_compliance_check.py:170-186 | a pass without unnamed `interface` lines ends with the reference table |
| RunningConfig.ParsedTableShape | interface_compliance_check.py:174-177 | the table maps exactly the names it lists, each listed once |
| RunningConfig.ParsedOutcomeShape | interface_compliance_check.py:174-177 | the same for the outcome of a successful parse |
| RunningConfig.DistinctDeclarations | interface_compliance_check.py:173-177 | when no name is declared twice, the table lists one interface per `interface` line, in order |
| RunningConfig.LastDeclarationIsLast | interface_compliance_check.py:173-177 | an entry comes from the last declaration of its name; no later `interface` line declares it again |
| RunningConfig.LastDeclarationFound | interface_compliance_check.py:173-174 | a name has an entry exactly when some `interface` line declares it |
| RunningConfig.BlockEndIsFirst | interface_compliance_check.py:172-184 | no line inside a block is an `interface` or `!` line |
| RunningConfig.OrphanLine | interface_compliance_check.py:178-184 | a line after `!` and before the next `interface` line lies in no interface's block |
| RunningConfig.ConfigLinesMembers | interface_compliance_check.py:181-182 | a block's configuration lines are exactly its command lines |
| RunningConfig.FirstUnnamedIsFirst | interface_compliance_check.py:173 | the failure is reported at the first unnamed `interface` line |
| RunningConfig.ParsedConfigLines | interface_compliance_check.py:171-182 | every stored configuration line is non-empty, stripped, free of line boundaries, and not an `interface`, `!` or `description` line |
| Matcher.FindMatchingTemplate | interface_compliance_check.py:18-32 | a selected template is always one of the loaded templates |
| Matcher.PartialMatch | interface_compliance_check.py:28-29 | definition of the partial-match test: the file name without its last extension occurs in the description |
| Matcher.FirstPartialMatch | interface_compliance_check.py:27-30 | the first-match loop: the index it returns is within the list, and an index inside the list names a file that matches (first, and missing only when none matches, by the two lemmas below) |
| Matcher.FirstPartialMatchIsFirst | interface_compliance_check.py:27-30 | no file before the partial match found matches |
| Matcher.FirstPartialMatchMisses | interface_compliance_check.py:27-32 | the partial search misses exactly when no file name's base occurs in the description |
| Matcher.ExactMatchWins | interface_compliance_check.py:23-24 | the template stored under the description plus `.txt` wins over every partial match |
| Matcher.PartialMatchIsFirst | interface_compliance_check.py:27-30 | without an exact match, the result is the template of the first file, in loading order, whose base name occurs in the description |
| Matcher.NoMatchIff | interface_compliance_check.py:19-32 | nothing is selected exactly when the description is missing or empty or no file's base name occurs in it |
| Evaluator.Considered | interface_compliance_check.py:200-201 | definition of the skip test: a stripped line is looked at unless it is empty or starts with `interface` (case-sensitive) |
| Evaluator.HasAllowedPrefix | interface_compliance_check.py:205 | true exactly when some allowed command is a prefix of the line |
| Evaluator.CheckInterfaceCompliance | interface_compliance_check.py:188-211 | the loop computes the reference verdict: the missing set, the unexpected list and the status |
| Evaluator.IsUnexpected | interface_compliance_check.py:203-205 | definition of one considered line's reading: unexpected when it equals no required command and starts with no allowed command |
| Evaluator.MissingOf | interface_compliance_check.py:208 | definition of `set(required_commands) - found_commands`: the required commands that no considered line equals |
| Evaluator.UnexpectedMember | interface_compliance_check.py:198-206 | a line is reported unexpected exactly when it is considered, not required, and starts with no allowed command |
| Evaluator.NothingMissingIff | interface_compliance_check.py:203-208 | nothing is missing exactly when every required command appears as a line |
| Evaluator.NothingUnexpectedIff | interface_compliance_check.py:203-206 | nothing is unexpected exactly when every line is required or starts with an allowed command |
| Evaluator.CompliantIff | interface_compliance_check.py:208-211 | compliant exactly when every required command appears as a line and every line is required or starts with an allowed command |
| Evaluator.ExtendedCommand | interface_compliance_check.py:203-208 | a line that extends a required command is never unexpected, yet does not satisfy the command, which stays missing |
| Evaluator.EmptyAllowedAllowsAll | interface_compliance_check.py:192-206 | with the empty allowed command no line is unexpected |
| Host.IsGigabitEthernet | interface_compliance_check.py:233 | definition of the name test: the name starts with `GigabitEthernet` in any ASCII case |
| Host.OutcomeOf | interface_compliance_check.py:232-242 | definition of one interface's outcome: not checked unless GigabitEthernet, skipped without a matching template, otherwise the verdict on its configuration lines joined with newlines |
| Host.Fails | interface_compliance_check.py:243 | definition of `compliance_result != "Compliant"`: a checked interface whose verdict is non-compliant |
| Host.CheckSwitchCompliance | interface_compliance_check.py:227-252 | the device result is the reference outcome: the parse failure, or the report over the parsed interfaces in table order |
| Host.NonCompliantMember | interface_compliance_check.py:232-247 | an interface is listed non-compliant, with its verdict and description, exactly when it is a GigabitEthernet interface with a template whose verdict is non-compliant |
| Host.SkippedMember | interface_compliance_check.py:232-249 | an interface is skipped exactly when it is a GigabitEthernet interface without a matching template |
| Host.AllCompliantIff | interface_compliance_check.py:251-252 | the device is all compliant exactly when no interface is skipped and none fails its check |
| Host.StoredLinesConsidered | interface_compliance_check.py:198-201 | the evaluator considers every stored configuration line, in order |
| Host.ConsideredOfJoin | interface_compliance_check.py:241 | joining stored lines with newlines and splitting again gives back exactly those lines |
| Host.CheckedVerdict | interface_compliance_check.py:241-242 | the verdict on a parsed interface judges exactly that interface's configuration lines |

## Left out

- Device access: `task.run(netmiko_send_command, …)` and the progress `print` (interface_compliance_check.py:221-225). The running configuration is a parameter of `Host.CheckSwitchCompliance`.
- Filesystem template loading: `os.listdir`, the `.txt` filter, `open`, and the IOError/FileNotFoundError/PermissionError handling (interface_compliance_check.py:130-139, 151-163). The loaded templates are a parameter: file names in loading order, and a map to the per-file result of `Templates.ParseTemplateLines`. Directory enumeration order is the order of that list.
- `generate_missing_config_files` and `generate_report` (interface_compliance_check.py:34-127). They write files, read the clock, and re-parse rendered report text.
- The `__main__` block with argparse, Nornir inventory and printing (interface_compliance_check.py:271-328), and all of apply_missing_configs.py (device configuration push, logging, SOCKS patching, CLI).
- The text rendering of verdicts and device reports (interface_compliance_check.py:212-218, 253-268). Verdicts and reports are modelled as data, and the missing commands as a set, since the source joins a set in unspecified order.
- Evaluator.CheckInterfaceCompliance: the `None` default of the additional allowed commands (interface_compliance_check.py:189-190) is not modelled, because every caller passes a list.
- Host.IsGigabitEthernet: under `re.IGNORECASE` Python's regex also lets the dotless `ı` (U+0131) and the dotted `İ` (U+0130) match the `i` of `GigabitEthernet` (line 233). The model compares ASCII letters only, so it rejects such names.
- Text.Lower: Python's `str.lower` also lowers non-ASCII letters; the model lowers only `A`–`Z`. It is used only for the `interface` and `description` tests (lines 172 and 179). Only `İ` (U+0130, giving `i` plus U+0307) and the Kelvin sign (U+212A, giving `k`) lower to text holding an ASCII letter, and neither can complete those keywords, so the tests decide the same.
- Exceptions other than the missing interface name are not modelled. In the source these come from the device session or from Nornir.
