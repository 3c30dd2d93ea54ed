# argparse_subargs: a verified model of `SubargParser`

`argparse_subargs` lets one `argparse` option take a structured list of
sub-arguments. Given `--translate a.txt b.txt lterm=\n`, the option's
`SubargParser` builds a namespace. It declares positional fields
(`PSubarg`: a name and a help text) and keyword fields (`KWSubarg`: a
name, a mandatory flag and a help text), plus a count of mandatory
positional fields, an "allow excess" switch and the owning option's
name. This project models that class in Dafny:

- the record comparison `_compare_args`, which is what `name in kw_args` runs on;
- the constructor, which copies and normalises the entry lists and rejects a mandatory count larger than the positional list;
- `parse_subargs`, a single pass over the tokens that binds positional and keyword tokens, collects the excess ones, stores the excess lists and reports "too many" errors;
- `_check_mandatory_args`, which finds the first missing required field and builds its message, both as written (line 315 names the wrong field and can raise IndexError) and corrected;
- `_arg_message`, the `[name] ` prefix;
- `get_metavar_str`, the usage string.

Files and what each holds:

- `wrappers.dfy`: `Option` and `Result`.
- `records.dfy` (`SubargRecords`): the records, `CompareArgs`, the keyword-declaration test `Declared`, and the constructor's normalisation of bare names into records.
- `tokens.dfy` (`SubargTokens`):
  - token classification by the first `=` (`Find`, `IsKeywordToken`, `SplitAtFirstEq`);
  - the namespace (`map<string, Attr>`) and the loop of `parse_subargs` as a step function `Step`, folded over the tokens by `Scan`;
  - definitions that describe the scan's result without the loop counter (`Positionals`, `UndeclaredNames`, `Target`), and the lemmas that connect the two.
- `mandatory.dfy` (`SubargMandatory`): `_check_mandatory_args` as `FirstMissing` with `MandatoryCheck`, `_arg_message` as `ArgMessage`, and the error messages.
- `metavar.dfy` (`SubargMetavar`): `get_metavar_str`, as written and corrected.
- `parser.dfy` (`SubargParsing`):
  - the `SubargParser` class;
  - its imperative constructor and its methods `GetMetavarStr`, `CheckMandatoryArgs` and `ParseSubargs`, whose loops are proved against the functions above;
  - the whole-parse function `ParseSpec` (with the message of line 315 corrected), the as-written `ParseSpecAsWritten`, and lemmas about their outcomes.
- `scenarios.dfy` (`SubargScenarios`): concrete parses taken from `tests/t_init.py`, and the inputs behind the findings.

A parse ends in one of three outcomes:

- `Parsed(ns, reported)`: the namespace, plus the "too many" errors reported through `_error` on the way.
- `Rejected(missing, reported)`: `ArgumentError` was raised for the first missing required field. `missing` holds that field and the error message.
- `Raised(error, reported)`: a Python error was raised while building the message for a missing field. Only the as-written parse `ParseSpecAsWritten` yields it: the IndexError of line 315.

The reports are what the parse passes to `_error`, in order. What `_error` then does depends on the owning parser (lines 470-487):
- with no parser (the constructor's default, line 123), it prints the message and exits with status 2;
- with a parser whose `exit_on_error` is set, it calls `parser.error`, which also exits;
- only with `exit_on_error=False` does it print and let the parse go on, to a second report and to the mandatory check.

The model's outcome is the one the parse reaches in that last case. In the other two cases the parse ends at the first report.

Where the module's docstrings and the code disagree, the model follows the code:

- A token is a keyword token when its FIRST `=` is at an index above 0. So `=a=b` is positional, and `a=b=c` binds `a` to `b=c`.
- Nothing but the bound fields and the two excess lists is attached to the namespace.
- The two excess lists are stored whether or not excess sub-arguments are allowed. When they are not allowed, each non-empty list is also reported.
- `_error` passes its message on without the `_arg_message` prefix (line 240), although its docstring (line 235) says it applies `_arg_message`. So reports carry no option name, while the message of a missing field does.
- Presence is checked with `hasattr` on the one shared namespace. So a keyword token `in_file=x` satisfies a mandatory positional field `in_file`, whether or not `in_file` is declared as a keyword.

## Model

| member | source | states |
|---|---|---|
| SubargRecords.CompareArgs | src/argparse_subargs/__init__.py:76-98 | against a record: true exactly when kind and all fields are equal; against a string: true exactly when the name equals it; against anything else: false |
| SubargRecords.Declared | src/argparse_subargs/__init__.py:268 | `name in self._kw_args` holds exactly when some declared keyword record has that name |
| SubargRecords.NormalizePos | src/argparse_subargs/__init__.py:142-151 | the positional list keeps length and order; a record is kept as is; a bare name becomes a record without help |
| SubargRecords.NormalizeKw | src/argparse_subargs/__init__.py:158-167 | the keyword list keeps length and order; a bare name becomes a mandatory record without help |
| SubargTokens.Find | src/argparse_subargs/__init__.py:264 | `str.find`: -1 exactly when the character is absent; otherwise the index of its first occurrence |
| SubargTokens.IsKeywordToken | src/argparse_subargs/__init__.py:264 | a token is a keyword token exactly when it contains `=` and does not start with `=` |
| SubargTokens.SplitAtFirstEq | src/argparse_subargs/__init__.py:265-267 | `split("=", 1)`: name, `=` and value rebuild the token, and the name holds no `=` |
| SubargTokens.KeyOf | src/argparse_subargs/__init__.py:265-266 | the name of a keyword token is non-empty and holds no `=` |
| SubargTokens.KeywordTokenRoundTrip | src/argparse_subargs/__init__.py:264-267 | `name=value`, with a non-empty name without `=`, is a keyword token whose name and value come back unchanged |
| SubargTokens.Step | src/argparse_subargs/__init__.py:264-278 | (definition) one loop iteration: a keyword token binds its name to its value and lists an undeclared name as excess; any other token binds the next positional field and advances the counter, or is excess when none is left |
| SubargTokens.Scan | src/argparse_subargs/__init__.py:259-278 | the loop from an empty namespace, counter 0 and empty excess lists, one `Step` per token in order; the counter never passes the number of positional fields |
| SubargTokens.ScanSnoc | src/argparse_subargs/__init__.py:263-278 | one more token advances the loop by exactly one step on the state reached so far |
| SubargTokens.ScanPositionalToken | src/argparse_subargs/__init__.py:271-278 | any token that is not a keyword token (no `=`, or `=` as its first character) binds the next positional field and advances the counter, or is appended to the excess positionals when every field is taken |
| SubargTokens.ScanKeywordToken | src/argparse_subargs/__init__.py:264-270 | a `name=value` token binds `name` to `value`, counter unchanged, and lists `name` as excess exactly when it is not declared |
| SubargTokens.TokensPartition | src/argparse_subargs/__init__.py:263-278 | every token is either handled as positional or as keyword |
| SubargTokens.ScanExcess | src/argparse_subargs/__init__.py:263-278 | after the loop: the counter is the number of positional fields bound; the excess positionals are the positional tokens after the first `len(pos_args)`, in input order; the excess keyword names are the undeclared keyword names, in input order |
| SubargTokens.ScanAssignsText | src/argparse_subargs/__init__.py:263-278 | every attribute the loop assigns is a string |
| SubargTokens.ScanBindings | src/argparse_subargs/__init__.py:263-278 | an attribute is present after the loop exactly when some token assigns it, and it holds the value of the last token that assigns it |
| SubargTokens.ScanBindsKey | src/argparse_subargs/__init__.py:263-278 | the presence half of `ScanBindings`, for one attribute name |
| SubargTokens.ScanBindsLastValue | src/argparse_subargs/__init__.py:263-278 | the value half of `ScanBindings`, for one token |
| SubargTokens.KeywordTokensAlwaysBound | src/argparse_subargs/__init__.py:268-270 | every keyword token is bound, declared or not |
| SubargTokens.ScanBindsPositionalsInOrder | src/argparse_subargs/__init__.py:271-276 | with distinct positional names and no keyword token shadowing field k: field k holds the k-th positional token, or is absent when fewer were given |
| SubargTokens.NoDeclarationsAllExcess | src/argparse_subargs/__init__.py:263-278 | with nothing declared, the excess lists are all positional tokens and all keyword names |
| SubargMandatory.PosRequired | src/argparse_subargs/__init__.py:305 | (definition) positional `i` is required when the count is negative or above `i` |
| SubargMandatory.FirstMissingPos | src/argparse_subargs/__init__.py:304-309 | the first required positional index, from a start, whose name is absent; none exactly when all of them are present |
| SubargMandatory.FirstMissingKw | src/argparse_subargs/__init__.py:310-312 | the first mandatory keyword index, from a start, whose name is absent; none exactly when all of them are present |
| SubargMandatory.FirstMissing | src/argparse_subargs/__init__.py:304-316 | none exactly when every required field is present; otherwise the first positional required by the count (all of them when it is negative) that is absent, and a missing keyword only when no required positional is missing, with every earlier field present |
| SubargMandatory.ArgMessage | src/argparse_subargs/__init__.py:219-232 | the message is always a suffix; it gains the prefix `[` + name + `] ` exactly when the name is present and non-empty |
| SubargMandatory.MissingMessage | src/argparse_subargs/__init__.py:307-315 | the error text is `ArgMessage` of the kind text, followed by the name of the missing field itself |
| SubargMandatory.MissingMessageAsWritten | src/argparse_subargs/__init__.py:313-315 | as written: a missing keyword j takes the name of positional field j, and raises IndexError when there is none |
| SubargMandatory.MandatoryCheck | src/argparse_subargs/__init__.py:291-316 | with the message of line 315 corrected: no error exactly when every required field is present; otherwise the first missing field and a message naming that field |
| SubargMandatory.MandatoryCheckAsWritten | src/argparse_subargs/__init__.py:291-316 | as written: no error exactly when every required field is present; IndexError exactly when the first missing field is a keyword field without a positional field at its index; otherwise the `FirstMissing` field with the as-written message, the same result as `MandatoryCheck` whenever no keyword field is the first missing |
| SubargMandatory.MissingKeywordMessageAsWritten | src/argparse_subargs/__init__.py:313-315 | for a missing keyword j with a positional field j: the message as written ends with the positional's name, and differs from the corrected one whenever the two names differ |
| SubargMetavar.Upper | src/argparse_subargs/__init__.py:208 | `str.upper` on ASCII text, character by character, keeping the length |
| SubargMetavar.UpperCase | src/argparse_subargs/__init__.py:208 | after `Upper` no lower-case ASCII letter is left, and every other character is unchanged |
| SubargMetavar.Metavar | src/argparse_subargs/__init__.py:175-217 | `...` when nothing is declared; otherwise the items joined by spaces, ending in ` [...]` when excess is allowed |
| SubargMetavar.MetavarAsWritten | src/argparse_subargs/__init__.py:189-196 | as written: under a negative count every positional is bracketed, the same string as with count 0 |
| SubargMetavar.MetavarCorrected | src/argparse_subargs/__init__.py:189-196 | as intended: under a negative count every positional is bare; for a count of 0 or more it coincides with the as-written string |
| SubargMetavar.PosItems | src/argparse_subargs/__init__.py:188-198 | one usage item per positional field in order; bare for the shown-mandatory ones, bracketed after them |
| SubargMetavar.KwItems | src/argparse_subargs/__init__.py:203-213 | one `name=NAME` item per keyword field in order, bracketed when not mandatory |
| SubargMetavar.JoinConcat | src/argparse_subargs/__init__.py:197-201 | joining two non-empty groups equals joining each and separating them by one space, which is how the positional and keyword parts meet |
| SubargMetavar.CorrectedMarksRequired | src/argparse_subargs/__init__.py:189-196 | in the corrected usage, field i is shown bare exactly when the mandatory check requires it |
| SubargMetavar.AsWrittenBracketsRequired | src/argparse_subargs/__init__.py:189-196 | with the default count -1, the usage as written brackets a field that the mandatory check requires |
| SubargParsing.FinalNamespace | src/argparse_subargs/__init__.py:279-285 | the namespace after the loop gains exactly the excess fields of the non-empty lists, each holding its list; every other attribute keeps its bound value |
| SubargParsing.Reports | src/argparse_subargs/__init__.py:279-286 | no report when excess is allowed; otherwise a report for each non-empty excess list, the positional one first, and at most two |
| SubargParsing.ParseSpec | src/argparse_subargs/__init__.py:242-289 | with the message of line 315 corrected: never raises; no reports when excess is allowed; a successful parse keeps every attribute the loop bound |
| SubargParsing.ParseSpecAsWritten | src/argparse_subargs/__init__.py:242-289 | as written: the same reports and the same accept/reject decision as `ParseSpec`; IndexError exactly when the first missing field is a keyword without a positional field at its index; otherwise equal to `ParseSpec` unless a keyword field is missing |
| SubargParsing.NewSubargParser | src/argparse_subargs/__init__.py:121-173 | with the source's defaults (no fields, count -1, excess allowed, no name): construction fails exactly when the mandatory count exceeds the positional list; otherwise the parser holds the normalised lists and the given settings |
| SubargParsing.SubargParser.constructor | src/argparse_subargs/__init__.py:121-173 | with the source's defaults: the entry lists copied and normalised in order, the settings stored, and the count within the positional list |
| SubargParsing.SubargParser.AssignArgName | src/argparse_subargs/__init__.py:364 | `SubargAction` setting `_arg_name` to its option's destination |
| SubargParsing.SubargParser.GetMetavarStr | src/argparse_subargs/__init__.py:175-217 | the loops build the corrected usage string: `...` when nothing is declared, otherwise the joined items with ` [...]` when excess is allowed |
| SubargParsing.SubargParser.AppendPositionalItems | src/argparse_subargs/__init__.py:188-198 | the loop appends the positional items, separated by single spaces |
| SubargParsing.SubargParser.AppendKeywordItems | src/argparse_subargs/__init__.py:203-213 | the loop appends the keyword items, separated by single spaces |
| SubargParsing.SubargParser.CheckMandatoryArgs | src/argparse_subargs/__init__.py:291-316 | with the message of line 315 corrected: the two loops find the same error as `MandatoryCheck`, none when every required field is present |
| SubargParsing.SubargParser.ParseSubargs | src/argparse_subargs/__init__.py:242-289 | with the message of line 315 corrected: the loop's state is the scan of the tokens seen so far; the outcome is `ParseSpec`: the namespace with the stored excess lists and the reports, rejected by the mandatory check |
| SubargParsing.ExcessFieldsStored | src/argparse_subargs/__init__.py:279-286 | each excess list is stored exactly when it is non-empty, whether or not excess is allowed, and holds the excess entries in input order |
| SubargParsing.ExcessReported | src/argparse_subargs/__init__.py:279-286 | a "too many" report for each non-empty excess list, positional first, exactly when excess is not allowed |
| SubargParsing.RejectedIffMissing | src/argparse_subargs/__init__.py:288-289 | a parse is rejected exactly when a required field is absent from the final namespace, and then for the first such field; otherwise it returns that namespace |
| SubargParsing.NoDeclarationsAcceptEverything | src/argparse_subargs/__init__.py:259-289 | with nothing declared and excess allowed, every parse succeeds without reports, and every token lands in an excess list |
| SubargScenarios.FirstEqualsSplits | src/argparse_subargs/__init__.py:264-267 | `a=b=c` binds `a` to `b=c`; `=a=b` and `a.txt` are positional |
| SubargScenarios.OneOfTwoMandatoryBound | src/argparse_subargs/__init__.py:271-276 | with one of two positionals mandatory, one token binds the first field only, and the parse succeeds |
| SubargScenarios.OneOfTwoMandatoryMissing | src/argparse_subargs/__init__.py:304-309 | with one of two positionals mandatory and no tokens, the first field is missing |
| SubargScenarios.ThirdPositionalIsExcess | tests/t_init.py:83-88 | the `--translate` parser (positionals `in_file` and `out_file`, one of them mandatory, optional `lterm`, excess not allowed) given any three tokens without `=`: the parse succeeds, the third token is stored as excess and reported as too many |
| SubargScenarios.LTermOnlyScan | tests/t_init.py:73-76 | the `--translate` call with only an `lterm=` token, whatever its value: only `lterm` is bound and nothing is excess |
| SubargScenarios.TranslateMissingInFile | src/argparse_subargs/__init__.py:304-309 | with only `lterm` bound, the check reports `in_file` missing, with the message prefixed by the owning option's name |
| SubargScenarios.MissingFieldTagged | tests/t_init.py:73-76 | the `--translate` call with only `lterm=`, for any value and any non-empty option name (`translate` in the test): rejected for `in_file`, and the message carries the `[` + name + `] ` prefix |
| SubargScenarios.XlatePositionalScan | tests/t_init.py:96-97 | the three positional tokens of the `--xlate` call fill both fields and leave the third as excess |
| SubargScenarios.XlateScan | tests/t_init.py:96-97 | the whole scan of the `--xlate` call, token by token |
| SubargScenarios.XlateWithExtras | tests/t_init.py:96-114 | the `--xlate` call: both fields, `lterm`, the undeclared keyword and both excess lists are bound, with no reports |
| SubargScenarios.UndeclaredKeywordKept | src/argparse_subargs/__init__.py:268-270 | an undeclared keyword token is bound and also listed by name as excess |
| SubargScenarios.KeywordTokenSatisfiesPositional | src/argparse_subargs/__init__.py:306 | a keyword token named like a mandatory positional field satisfies it |
| SubargScenarios.MissingKeywordWithoutPositionals | src/argparse_subargs/__init__.py:315 | a mandatory keyword missing, with no positional fields: as written this raises IndexError; corrected, the message names the keyword |
| SubargScenarios.MissingKeywordParseRaises | src/argparse_subargs/__init__.py:313-315 | the whole parse with a missing mandatory keyword and no positional field: as written it raises IndexError with no reports; corrected it is rejected with a message naming the keyword |
| SubargScenarios.MissingKeywordNamesPositional | src/argparse_subargs/__init__.py:315 | a mandatory keyword missing beside one positional field: the message as written names the positional field |

## Left out

- `SubargAction` and `SubargHelpFormatter` are not part of this model. They are the `argparse` glue that calls the parser and formats help.
- The `parser` constructor argument and the module-level `_error` are not modelled. `_error` prints, and it exits unless the parser was built with `exit_on_error=False` (lines 470-487), so printing and exiting are I/O left out of the model. The model records the reports in order and continues, as the source does with `exit_on_error=False`. When `_error` exits, the parse stops at the first report.
- The text of the "too many" reports is not modelled. It embeds Python's list repr, so `Report` carries the lists themselves.
- The `TypeError` for list entries that are neither strings nor records is not modelled. The entry datatypes `PosEntry` and `KwEntry` make such entries unrepresentable.
- The `TypeError` for a mandatory count above the positional list is modelled by `NewSubargParser` returning `Failure`. The constructor itself requires the check passed.
- Python identity (`arg1 is arg2`) is not modelled separately. For these records equal values give the same result.
- SubargMandatory.MandatoryCheck: builds the corrected message of line 315, naming the missing keyword field. The as-written check, with its IndexError, is `SubargMandatory.MandatoryCheckAsWritten`.
- SubargParsing.SubargParser.CheckMandatoryArgs: the loops build the corrected message of line 315, so this method never raises IndexError. The as-written behaviour is `SubargMandatory.MandatoryCheckAsWritten`.
- SubargParsing.ParseSpec: builds the corrected message of line 315, so it never yields `Raised`. The as-written parse is `SubargParsing.ParseSpecAsWritten`.
- SubargParsing.SubargParser.GetMetavarStr: returns the corrected usage string, where a positional is bare exactly when it is required. With the default count -1, line 191 brackets every positional instead: one positional `in_file` with excess allowed gives "[in_file] [...]", not "in_file [...]". The as-written string is `SubargMetavar.MetavarAsWritten`.
- SubargParsing.SubargParser.ParseSubargs: proved equal to the corrected `ParseSpec`, so it never yields `Raised`. The as-written parse, which raises IndexError for a missing keyword without a positional field at its index, is `SubargParsing.ParseSpecAsWritten`.
- `SubargMetavar.Upper`: only ASCII letters are upper-cased, because `str.upper` on other Unicode letters is not modelled.
- The namespace starts empty. Attributes that every Python object has (such as `__class__` or `__dict__`) are not modelled: `hasattr` would find them, and `setattr` at lines 270 and 275 raises TypeError when a token names one of them, whereas `Step` simply binds every name.
- `tests/t_init.py` line 33 passes `metavar=` to `KWSubarg`, whose dataclass (lines 59-74 of `src/argparse_subargs/__init__.py`) has no such field. That call raises TypeError, so the script never reaches its parses at lines 64-114. The scenario lemmas state what those parses would produce with the configurations the script declares, leaving out the unsupported `metavar=`.
- Help texts are stored but not modelled further, because only the help formatter reads them.

## Findings

| source | as written | input that shows it | evidently intended | confidence | as-written member | corrected member |
|---|---|---|---|---|---|---|
| src/argparse_subargs/__init__.py:315 | the message for a missing mandatory keyword field `i` uses `self._pos_args[i].name` | a mandatory keyword `mode`, missing, with no positional fields: IndexError; with one positional `in_file` that is bound (when it is unbound, the positional check fires first): "Missing mandatory keyword subarg in_file" | the message names `self._kw_args[i].name` | high, not executed | SubargMandatory.MissingMessageAsWritten, used by SubargMandatory.MandatoryCheckAsWritten and SubargParsing.ParseSpecAsWritten (shown by SubargScenarios.MissingKeywordWithoutPositionals, SubargScenarios.MissingKeywordParseRaises, SubargScenarios.MissingKeywordNamesPositional and SubargMandatory.MissingKeywordMessageAsWritten) | SubargMandatory.MissingMessage (used by SubargMandatory.MandatoryCheck and SubargParsing.SubargParser.CheckMandatoryArgs) |
| src/argparse_subargs/__init__.py:191 | a positional field is shown bare only when `i < num_mandatory_pos_args`, so under the default -1 ("all mandatory") every field is bracketed as optional | one positional `in_file`, default count -1, excess allowed: usage "[in_file] [...]", yet a parse without tokens is rejected for `in_file` | bare exactly for the fields `_check_mandatory_args` requires (all of them when the count is negative) | high, not executed | SubargMetavar.MetavarAsWritten (shown by SubargMetavar.AsWrittenBracketsRequired) | SubargMetavar.MetavarCorrected (proved by SubargMetavar.CorrectedMarksRequired, used by SubargParsing.SubargParser.GetMetavarStr) |
