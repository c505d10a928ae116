# gradepy, modelled in Dafny

gradepy grades Python 2 student submissions against a master solution.

- A test method is a generator. It runs once against the master module and once against the student module.
- The two runs yield `Check` objects (an evaluated expression and its value, or the exception it raised) or `(value, name)` tuples.
- `TestBase._compare` walks the two runs in step and reports every wrong student value.
- `TestBase.run_test` and `_handle_ecf` implement Error Carried Forward (ECF). A test method decorated with `ECF(tests=..., depends=...)` that finds a mistake marks the functions it tests as wrong. It also patches the master's versions into a hybrid module (`ecf_mod`). A later method that depends on a function marked wrong is rerun once against that hybrid.
- `makecsv.parse_feedback` reads a finished feedback report back and returns the netid, the module name and the points earned. It finds the report's bar and header with regular expressions and subtracts every `(( -N ))` deduction written into the report by hand.
- `utils.wrap_script_with_main` rewrites a student script as the body of a `main()` function.

The modules follow the program:

| module | models |
|---|---|
| `Basics` | `Option`/`Result`, Python's `str.split`, `join`, `rstrip`, `int()` on digits, and greedy character runs for the regex matchers |
| `Values` | Python values, `==` across `bool`/`int`/`float`, and the comparison `_check_new` and `_check_simple` use |
| `Traceback` | `str.split(sep, maxsplit)` and the traceback slice a `StudentException` shows |
| `LiteralFormat` | `literal_format`: `format_field` and the `'string-escape'` codec |
| `Reconcile` | `_compare`, `_check_new` and `_check_simple` over two pre-evaluated runs |
| `TestBase` | `run_test`, `_handle_ecf`, `run`, the `ECF` decorator and the lines `TestBase` logs |
| `Patterns` | the five regular expressions of `makecsv.py`, as matchers that backtrack the way Python's `re` does |
| `Feedback` | `parse_feedback`, `_scan`, `_take_until`, `_lost_points`, `_parse_test_func` |
| `WrapScript` | the text transformation of `wrap_script_with_main` |

A test method's run is a value. It holds the items the generator yields and, optionally, the traceback of the exception it raised after them.

Logged messages are structured entries, not formatted text. Exceptions that escape are the error cases of a `Result`-like datatype: `TestError`, `AssertionError`, `AttributeError` (a master Check paired with a non-Check, `.groups()` on a failed header match, a tested name missing from the master module), `TypeError` (unpacking an item that is not a `(value, name)` tuple), `StopIteration` (`next(lines)` past the last report line), `UnicodeEncodeError` (a tuple report whose differing value is a non-ASCII `unicode`), `ParseError`, `ValueError`, `KeyError` and `IndexError`. An exception the master or student generator raises itself is carried along as its traceback text.

The model follows the code, except in three places where it also carries a corrected version (see "## Findings"):

- `_compare` (gradepy/grade.py:131-162) takes one item from the master run and one from the student run in turn, so a student fault is seen at the position where it happens. `Reconcile.CompareAsWritten` is the loop as written. `Reconcile.Compare` is the loop corrected so that a student fault ends the test after the "Cannot finish test" message. `TestBase.RunTest`, `TestBase.HandleEcf` and `TestBase.RunAll` take the loop as a parameter (`Reconcile.Loop`), and their lemmas hold for both loops unless they name one.
- `Feedback.ParseFeedback` reads the header with the dot of `HEADER_RE` escaped: the corrected pattern of the second finding below. The pattern as written is modelled too: `Feedback.ParseFeedbackWith` takes a `literalDot` flag, and with it false reads the header with `Patterns.MatchHeader` as written. The `ParseFeedback` lemmas below are about the escaped reading.
- `WrapScript.Wrap` is the code as written; `WrapScript.WrapFixed` puts the trailer on lines of its own.

The sample report at the end of gradepy/tests/example/grade_foo/tests.py shows per-test headers such as `-----------------( test_add_one )-----------------` followed by the docstring. The code at gradepy/grade.py:105-106 (`'\n{:-^30}'.format(' ' + name + ' ')`) writes only the name, centred in dashes, with no parentheses and no docstring. The model follows the code, so `TEST_FUNC_RE` never matches the header `run_test` writes (`Feedback.GradeHeaderIsNoTestFunc`).

## Model

| member | source | states |
|---|---|---|
| Basics.SplitThenJoin | gradepy/makecsv.py:31 | joining the pieces of `s.split(sep)` with `sep` gives `s` back |
| Basics.JoinThenSplit | gradepy/makecsv.py:31 | splitting a join of separator-free lines gives exactly those lines back |
| Basics.RStrip | gradepy/grade.py:225 | `rstrip()` keeps a prefix that is empty or ends in a non-blank, and removes only whitespace |
| Basics.DigitsRoundTrip | gradepy/makecsv.py:37 | `int()` of the decimal text of `n` is `n` |
| Values.PyEqReflexive | gradepy/grade.py:169 | a value is `==` to itself exactly when no NaN occurs in it, so a student value identical to the master's is flagged exactly when it holds NaN (for the value types modelled; see "Values" under Left out) |
| Values.PyEqSymmetric | gradepy/grade.py:181 | `==` and the mistake test `a != b or type(a) != type(b)` are symmetric |
| Values.ScalarDiffersIff | gradepy/grade.py:169 | for values that are not lists, the comparison accepts exactly the identical value that is not NaN, so `int` against `long` and `str` against `unicode` are flagged |
| Values.CrossTypeEqualButFlagged | gradepy/grade.py:169 | `2 == 2L` and `'a' == u'a'` hold, yet both pairs are flagged by the type test; a non-ASCII `str` is not `==` to the `unicode` with the same code points |
| Values.ShallowTypeCheck | gradepy/grade.py:169 | the type test is shallow: `[2]` against `[2.0]` passes, `2` against `2.0` is flagged |
| Traceback.SplitMaxIsJoinedSplit | gradepy/grade.py:225 | `s.split(sep, maxsplit)` is the full split with every piece from index `maxsplit` on joined back with `sep` |
| Traceback.SliceDropsLeadingLines | gradepy/grade.py:221-228 | a `StudentException` shows the traceback without its first `skip` lines (at most all but the last line), with trailing whitespace stripped |
| Traceback.SliceSingleLine | gradepy/grade.py:225 | a traceback without a newline is shown whole, less trailing whitespace |
| LiteralFormat.FormatField | gradepy/grade.py:246-252 | a spec ending in `q` gets that `q` replaced by `s` and the value passes untouched; any other spec is kept, and only a `str` value is replaced |
| LiteralFormat.EscapeRoundTrip | gradepy/grade.py:249-250 | `encode('string-escape')` loses nothing: the escaped text decodes back to the original byte string |
| LiteralFormat.EscapeIsPrintable | gradepy/grade.py:249-250 | escaped text is printable ASCII only, so a quoted value never breaks a log line |
| LiteralFormat.QuotedFieldRoundTrip | gradepy/grade.py:249-251 | without `q`, a string reaches the formatter in single quotes, and the text between them decodes to the original string |
| LiteralFormat.Format | gradepy/grade.py:234-256 | formatting succeeds exactly when every field names a key present in the keyword arguments and the standard formatter accepts that value under the spec `format_field` hands it; otherwise it fails (`KeyError` or `ValueError`) |
| LiteralFormat.EscapePlain | gradepy/grade.py:249-250 | printable ASCII text with no backslash and no quote is left unchanged by `'string-escape'` |
| LiteralFormat.FormatQuotesString | gradepy/grade.py:237-239 | `literal_format('string: {foo}', foo='bar')` gives `string: 'bar'` |
| LiteralFormat.FormatQSpecPlain | gradepy/grade.py:241-243 | `literal_format('string: {foo:q}', foo='bar')` gives `string: bar` |
| LiteralFormat.FormatQSpecOnIntFails | gradepy/grade.py:247-252 | `{n:q}` with an `int` fails: the spec becomes `s`, which `LiteralFormat.ExampleRender`, like Python's formatter, rejects for an `int` |
| Reconcile.CheckNew | gradepy/grade.py:164-174 | the flag is `'exception'` exactly when the student raised, `'incorrect'` exactly when the student's value is rejected, and `None` exactly when nothing is logged |
| Reconcile.CheckSimple | gradepy/grade.py:176-183 | the assertion fails exactly when the names differ; otherwise the flag is always `None`, a message is logged exactly when the values differ, and formatting that message raises `UnicodeEncodeError` exactly when one of the differing values is a non-ASCII `unicode` |
| Reconcile.CheckSimpleNonAsciiRaises | gradepy/grade.py:181-183 | `u'caf\xe9'` against `u'cafe'` raises while formatting the report; ASCII-only `unicode` values, and a list holding a non-ASCII `unicode`, are reported |
| Reconcile.NaNCheckAgainstItself | gradepy/grade.py:164-174 | a Check whose value holds NaN is flagged `'incorrect'` even against an identical student Check |
| Reconcile.CompareFrom | gradepy/grade.py:131-162 | a normal return gives one flag per paired position, and each is the flag of that position's pair; only reports and the fatal-exception message are logged |
| Reconcile.CompareWith | gradepy/grade.py:131-162 | whichever loop is used, only reports of wrong student results and the fatal-exception message are logged |
| Reconcile.CompareFromDoneIff | gradepy/grade.py:135-162 | from any position on: `_compare` returns exactly when every remaining pair gives a flag and the end of the runs is accepted |
| Reconcile.CompareDoneIff | gradepy/grade.py:131-162 | `_compare` returns a mistakes list exactly when every paired position gives a flag and the end of the runs is accepted |
| Reconcile.CompareFromStopsAtFirstBadPair | gradepy/grade.py:153-161 | from any position on: the first pair that cannot be compared decides the exception |
| Reconcile.CompareStopsAtFirstBadPair | gradepy/grade.py:153-161 | the exception `_compare` raises is the one of the first pair that cannot be compared |
| Reconcile.MasterFaultIsTestError | gradepy/grade.py:153-158 | a master Check that recorded an exception raises `TestError`, carrying the master's traceback slice |
| Reconcile.MasterFaultNeverFlagged | gradepy/grade.py:153-159 | when `_compare` returns, every paired master Check returned a value |
| Reconcile.CompareFromTooFewIff | gradepy/grade.py:144-147 | from any position on: "too few elements" is raised exactly when the student run ends cleanly before the master's |
| Reconcile.CompareTooFewIff | gradepy/grade.py:144-147 | "too few elements" is raised exactly when all pairs compare and the student run ends cleanly before the master's |
| Reconcile.CompareFromTooManyIff | gradepy/grade.py:137-142 | from any position on: "too many elements" is raised exactly when the master run ends cleanly and the student's next item is not `None` |
| Reconcile.CompareTooManyIff | gradepy/grade.py:137-142 | "too many elements" is raised exactly when all pairs compare, the master run ends cleanly, and the student's next item is not `None` |
| Reconcile.CompareFromFatalIff | gradepy/grade.py:148-151 | from any position on: the fatal-exception message is logged exactly when the student run stopped short, as the last message, with the student's traceback slice |
| Reconcile.CompareFatalIff | gradepy/grade.py:148-151 | on a normal return, "Fatal exception in student code" is logged exactly when the student run raised before the master's ended; it is the last message and carries the traceback slice |
| Reconcile.CompareFromSelf | gradepy/grade.py:131-183 | from any position on, a well-formed run (clean end, no NaN) compared with itself logs nothing and gives only `None` flags |
| Reconcile.CompareSelf | gradepy/grade.py:131-183 | a student run identical to a well-formed master run (clean end, no NaN) logs nothing and gives only `None` flags |
| Reconcile.AsWrittenAgreesWithoutFaultFrom | gradepy/grade.py:131-162 | from any position on, the loop as written and the corrected loop agree when the student never raises |
| Reconcile.AgreeStep | gradepy/grade.py:151-161 | one paired step, taken by both loops in front of results that agree, keeps them in agreement when the student never raises |
| Reconcile.AgreeAtEnd | gradepy/grade.py:135-146 | once either run has no paired item left and the student never raised, the loop as written and the corrected loop end the same way |
| Reconcile.AsWrittenAgreesWithoutFault | gradepy/grade.py:131-162 | the loop as written and the corrected loop agree when the student never raises |
| Reconcile.AsWrittenFaultBecomesTooFewFrom | gradepy/grade.py:144-151 | from any position on: after a student fault with two or more master items left, the loop as written raises "too few"; the corrected loop returns |
| Reconcile.AsWrittenFaultBecomesTooFew | gradepy/grade.py:144-151 | as written, a student fault with two or more master items left ends in `TestError` "too few", which blames the test script; the corrected loop returns |
| Reconcile.AsWrittenFaultExample | gradepy/grade.py:144-151 | a master yielding two Checks against a student that raises at once: "too few" as written, a logged fatal message when corrected |
| TestBase.Decorate | gradepy/grade.py:204-213 | `ECF` records `tests` and `depends` as sets holding exactly the listed names, and leaves the method's name and behaviour unchanged |
| TestBase.Patch | gradepy/grade.py:195-201 | `_bad_funcs` grows by exactly the tested names, each rebound in `ecf_mod` to the master's function; all other bindings are kept |
| TestBase.PatchIdempotent | gradepy/grade.py:196-201 | patching the same names twice changes nothing more |
| TestBase.Center | gradepy/grade.py:106 | `'{:-^30}'` pads to at least 30 characters with `s` placed at `(width - len(s)) / 2`, the odd extra dash going right, and dashes everywhere else |
| TestBase.HeaderOnlyOnFirstTry | gradepy/grade.py:105-106 | the header is logged only on the first try, as the first entry |
| TestBase.RetryLogIsCompareLog | gradepy/grade.py:105-114 | a retry logs only comparison messages: no header, no nested retry |
| TestBase.EcfLogHasNoHeader | gradepy/grade.py:185-201 | `_handle_ecf` logs no header of its own |
| TestBase.RetryIff | gradepy/grade.py:187-191 | "Trying again with helper functions corrected." is logged exactly when a mistake was found, the method declares `depends`, and one of them is already marked wrong |
| TestBase.SolvedIff | gradepy/grade.py:187-193 | "Problem solved!" is logged exactly when the retry ran and found no mistake |
| TestBase.SolvedInEcfIff | gradepy/grade.py:186-192 | on the first try, `_handle_ecf` logs "Problem solved!" exactly when a helper it depends on is bad, the retry ran to the end and it found no mistake |
| TestBase.RunTestUpdate | gradepy/grade.py:99-116 | after `run_test`, the state is patched with the method's `tests` exactly when a mistake was found and the method is decorated |
| TestBase.RunTestKeepsConsistent | gradepy/grade.py:195-201 | `_bad_funcs` never shrinks, and every name in it stays bound to the master's function in `ecf_mod` |
| TestBase.RunAllKeepsConsistent | gradepy/grade.py:118-126 | across all test methods, `_bad_funcs` only grows and stays consistent with `ecf_mod` |
| TestBase.RunFromStartNeverReverts | gradepy/grade.py:78-126 | starting from an empty `_bad_funcs`, every name marked wrong is bound to the master's function at the end of `run()` |
| TestBase.EquivalentStudentIsClean | gradepy/grade.py:99-116 | with either loop, a submission identical to the master, whose run ends cleanly and holds no NaN (and only the value types modelled), logs only the header, flags nothing and leaves the state unchanged |
| TestBase.RunTestStudentFault | gradepy/grade.py:99-126 | for an undecorated method whose student run raises with two or more master items left, as written `TestError` "too few" escapes `run_test` and ends `run()`; corrected, the method ends normally and the state is unchanged |
| Patterns.IsBarIff | gradepy/makecsv.py:6 | `BAR_RE` matches exactly the lines whose first 50 characters are `=` |
| Patterns.BannerIsBar | gradepy/grade.py:95-97 | the 70-character bar `TestBase.__init__` writes matches `BAR_RE` |
| Patterns.MaxPointsRoundTrip | gradepy/makecsv.py:8 | `Maximum points: N` followed by a non-digit reads back as `N` |
| Patterns.MatchTestFuncIff | gradepy/makecsv.py:9 | `TEST_FUNC_RE` matches exactly the lines that start with three or more dashes, `( name )` and three or more dashes; its group is the name |
| Patterns.NetidIsLongest | gradepy/makecsv.py:7 | when `(\w+)/` backtracks, only the longest word run can be followed by `/` |
| Patterns.HeaderEscapedReadsLastTwo | gradepy/makecsv.py:7 | with the dot escaped, the header pattern reads the last directory as the netid and the file name as the module, whatever the leading directories |
| Patterns.HeaderAsWrittenSingleDir | gradepy/makecsv.py:7 | as written, the pattern reads a one-directory path correctly |
| Patterns.HeaderAsWrittenMisreads | gradepy/makecsv.py:7 | as written, `hw/jd42/pyramid.py` reads as netid `hw` and module `jd42` |
| Patterns.HeaderEscapedOnMisreadLine | gradepy/makecsv.py:7 | escaped, the same line reads as netid `jd42` and module `pyramid` |
| Patterns.NoOpenNoTokens | gradepy/makecsv.py:10 | text without `((` holds no `POINT_RE` match |
| Patterns.WrittenDeductionFound | gradepy/makecsv.py:10 | `((`, blanks, `-N`, blanks, `))` is matched whole, and its group is `N` |
| Patterns.NoOpenPrefixSkipped | gradepy/makecsv.py:10 | text in front that cannot start a `((` is passed over: the matches are those of the rest |
| Patterns.FindTokensAroundDeduction | gradepy/makecsv.py:10 | a written deduction after text with no `((` is the first match, and the matches after it are exactly those of the text that follows |
| Feedback.Scan | gradepy/makecsv.py:45-50 | the result is the first matching line; when none matches, `ParseError` names the pattern |
| Feedback.TakeUntil | gradepy/makecsv.py:70-77 | the taken lines are exactly those before the first match (all remaining lines when none matches) |
| Feedback.TakeUntilAgreesWithScan | gradepy/makecsv.py:45-77 | `_take_until` stops exactly where `_scan` would have found its match |
| Feedback.ScanFinds | gradepy/makecsv.py:45-50 | a matching line with no match before it is what `_scan` returns |
| Feedback.DecimalValue | gradepy/makecsv.py:39 | `float()` of a digits-and-dots token succeeds exactly when it has a digit and at most one dot; the value is never negative |
| Feedback.DecimalOfDigits | gradepy/makecsv.py:39 | a whole number without a dot reads as itself |
| Feedback.DecimalOfFraction | gradepy/makecsv.py:39 | `2.5` reads as two and a half |
| Feedback.DecimalOfDecimalFraction | gradepy/makecsv.py:39 | for every whole number `a` and digit string `d`, `a.d` reads as `a` plus `d` over ten to the length of `d` |
| Feedback.SumAmounts | gradepy/makecsv.py:39 | the total is never negative, and the only failure is a `ValueError` |
| Feedback.SumAmountsOkIff | gradepy/makecsv.py:39 | the sum succeeds exactly when every token is a number |
| Feedback.SumAmountsFirstBad | gradepy/makecsv.py:39 | the `ValueError` names the first token that is not a number |
| Feedback.LostOf | gradepy/makecsv.py:38-39 | the deducted points are never negative, and the only error is a `ValueError` |
| Feedback.LostOfNothing | gradepy/makecsv.py:38-39 | text without `((` deducts nothing |
| Feedback.LostOfOneDeduction | gradepy/makecsv.py:38-39 | a text that is one written deduction of `n` points deducts `n` |
| Feedback.LostOfDeductionThen | gradepy/makecsv.py:38-39 | a deduction after text with no `((` adds its amount to what the following text deducts; an amount that is not a number is the `ValueError`, and otherwise the following text's error is |
| Feedback.ParseFeedbackNoBarIff | gradepy/makecsv.py:31-33 | the parse fails with "regex not found" for `BAR_RE` exactly when no line is a bar |
| Feedback.ParseFeedbackWith | gradepy/makecsv.py:29-42 | `parse_feedback` with the header pattern as written or with its dot escaped; the netid and module it reports are word runs |
| Feedback.ParseFeedbackOnMisreadLine | gradepy/makecsv.py:7 | on a report whose header line is `Automated testing for hw/jd42/pyramid.py`, the parse as written grades netid `hw` and module `jd42`, and the escaped parse grades `jd42` and `pyramid`, with the same maximum and deductions |
| Feedback.ParseFeedbackSteps | gradepy/makecsv.py:29-42 | (header read with `\.py`) when line `b` is the first bar, line `b+1` is a header for `netid` and `modName`, and line `m` is the first `Maximum points: k` line from `b+3` on, the parse gives `k` less every deduction in the text, or the `ValueError` of a deduction |
| Feedback.ParseFeedbackIsGraded | gradepy/makecsv.py:29-42 | (header read with `\.py`) under the same layout, the netid, module and maximum are those lines' and the deduction is the whole text's |
| Feedback.ParseFeedbackNoMaxPoints | gradepy/makecsv.py:33-50 | with a bar and a header but no `Maximum points:` line after them, the parse fails with "regex not found" for `MAX_POINTS_RE` |
| Feedback.ParseFeedbackEarnedAtMostMax | gradepy/makecsv.py:37-40 | a successful parse earns some `Maximum points:` line's value minus a non-negative deduction |
| Feedback.ReportLinesAreLines | gradepy/makecsv.py:31 | splitting a report at newlines gives back the lines `TestBase` wrote |
| Feedback.ParseFeedbackReadsReport | gradepy/makecsv.py:29-42 | (header read with `\.py`) a report opened the way `TestBase.__init__` opens it, with a maximum written after it, parses to its netid, its module and the maximum minus the deductions |
| Feedback.ParseTestFunc | gradepy/makecsv.py:62-67 | the section runs to the next test-function line; that line's name is returned; no line in the section names a test function; the loss is never negative |
| Feedback.TakeUntilStopsAtNext | gradepy/makecsv.py:70-77 | `_take_until` with `TEST_FUNC_RE` takes exactly the lines before the next test-function line, and reports that line when there is one |
| Feedback.ParseTestFuncSection | gradepy/makecsv.py:62-67 | a section's loss is what its text deducts (its error that text's error), and it resumes just past the next test-function line |
| Feedback.Sections | gradepy/makecsv.py:55-60 | once a name is read, the names yielded are it followed by every later test-function line's name, in order |
| Feedback.LostPoints | gradepy/makecsv.py:55-60 | the names yielded are exactly the test-function lines' names, in order, each with a non-negative loss; "regex not found" exactly when there is none |
| Feedback.SectionsLost | gradepy/makecsv.py:55-67 | once a name is read, entry by entry the losses are what each section's text deducts, and the first section with a bad number stops it with that error |
| Feedback.LostPointsLost | gradepy/makecsv.py:55-67 | each yielded loss is what its section's text deducts, the first bad number is the error, and "regex not found" means there is no section |
| Feedback.GradeHeaderIsNoTestFunc | gradepy/grade.py:105-106 | no line of the header `run_test` writes matches `TEST_FUNC_RE` |
| WrapScript.FileLines | gradepy/utils.py:8 | iterating a file gives nonempty lines, each but the last ending in a newline, that concatenate to the file |
| WrapScript.FileLinesOfConcat | gradepy/utils.py:8 | reading back lines written one after another gives the same lines |
| WrapScript.CommentLineIff | gradepy/utils.py:10 | an indented line starts with `    #` exactly when the original line starts with `#` |
| WrapScript.Wrap | gradepy/utils.py:5-18 | fails with `IndexError` exactly on an empty file; the warning is printed exactly when the script does not start with `#` |
| WrapScript.WrapFrame | gradepy/utils.py:16-18 | the output starts with `def main():` and ends with the `__main__` trailer |
| WrapScript.WrapIndentsEveryLine | gradepy/utils.py:8-17 | between header and trailer are the script's lines, each indented by four spaces, less a leading comment line |
| WrapScript.WrapOutputLines | gradepy/utils.py:5-18 | for a script ending in a newline, the output's lines are the header, the indented lines kept, and the trailer's two lines |
| WrapScript.WrapKeepsLineNumbers | gradepy/utils.py:10-11 | for a script starting with a comment and ending in a newline, every line after the comment keeps its line number |
| WrapScript.WrapMergesUnterminatedLine | gradepy/utils.py:17-18 | as written, a last line without a newline runs straight into the trailer |
| WrapScript.MergedOutputLines | gradepy/utils.py:17-18 | read back, that output has the script's last line and `if __name__ == '__main__':` on one line |
| WrapScript.WrapFixedKeepsLineNumbers | gradepy/utils.py:10-18 | corrected: the trailer is on two lines of its own for every script, and a script starting with a comment keeps its line numbers |
| WrapScript.WrapFixed | gradepy/utils.py:5-18 | corrected: like the code, it fails exactly on an empty file |

## Left out

- Reading and writing files: `wrap_script_with_main` works on the file's contents as a string, and `makecsv.main` works on each file's text. Writing the CSV and the "could not parse" message in `main` are not modelled.
- Printing: `TestBase.log` prints, and the model records structured log entries. The warning `wrap_script_with_main` prints is a boolean.
- Building a `Check`: `inspect.stack` and `eval` of the expression in the caller's namespace. A Check is given as its expression, its outcome and its note.
- Loading modules: `imp.find_module`, `sys.path` and the `IOError`s of `TestBase.__init__`. A module is a map from names to function identities, and a test method's run against a module is a function parameter.
- `command_line_tool` and `capture_stdout`: argument parsing and stream redirection, outside the grading logic.
- `traceback.format_exc`: the traceback text is a parameter of the run or Check that raised.
- `string.Formatter`: the standard rendering of a value under a spec is the `render` parameter of `LiteralFormat.Format`, returning `None` where Python raises `ValueError` (an unknown format code for the value's type). Only what `format_field` does before handing over is modelled; parsing the format string into literal text and fields is not, and a template is given already split.
- Floating point: `float()` and `sum` are exact reals. There is no IEEE rounding, so a sum of many deductions can differ in the last digit from Python's.
- Generators: a run is the sequence of items it would yield, plus the exception that ends it. Side effects shared between the interleaved master and student runs are outside the model.
- Exceptions that `except Exception` does not catch: a student's `sys.exit()` (`SystemExit`) or a `KeyboardInterrupt` while a Check is evaluated (gradepy/grade.py:65) or while the student generator runs (gradepy/grade.py:148) escapes `_compare` and ends `run()`. A student fault in the model (`Reconcile.Stream`'s `fault`, a Check's `Raised` outcome) is always one that `except Exception` catches.
- Values: only `None`, `bool`, `int`, `long`, `float`, `str`, `unicode` and lists are modelled. Tuples, dicts, sets and class instances are not, nor user-defined `__eq__`. For an instance of a class the graded module defines, the identical-submission lemmas (`Values.PyEqReflexive`, `Reconcile.CompareSelf`, `TestBase.EquivalentStudentIsClean`) do not carry over. The student module is loaded as a module of its own (gradepy/grade.py:91), so its class is a different type object from the master's, and `type(master.val) != type(student.val)` at gradepy/grade.py:169 flags every such Check. Without `__eq__`, the instances also compare by identity. Those lemmas hold for the modelled values only. A `float` is a finite real or NaN. Infinities are not modelled. The identity shortcut CPython's list comparison takes (`x is y` before `x == y`) is left out, because master and student values are always separately computed objects.
- Reconcile.CheckNew: the message is built by `literal_format`, whose `string.Formatter` joins the formatted pieces. When a Check's value is a non-ASCII `unicode` and its expression or note holds a non-ASCII byte, that join raises `UnicodeDecodeError`. The model always logs the report. Whether printing a non-ASCII `unicode` message succeeds depends on the output stream's encoding, which is part of the printing left out above.
- Parse failures before the bar and header: `HEADER_RE.match` returning `None` (an `AttributeError` in Python) and running out of lines (`StopIteration`) are the `HeaderMismatch` and `EndOfLines` errors. The line after the header is skipped unchecked, as in the code.
- Feedback.ParseFeedback: its own contract, like that of `Feedback.ParseFeedbackWith`, states only that the groups are words. Its behaviour is stated by `Feedback.ParseFeedbackSteps`, `Feedback.ParseFeedbackIsGraded`, `Feedback.ParseFeedbackNoBarIff`, `Feedback.ParseFeedbackNoMaxPoints` and `Feedback.ParseFeedbackReadsReport`.
- WrapScript.Wrap: on an empty file the source has already truncated the file (opened with `'w+'`) when `IndexError` is raised. Since the file was empty, the model only reports the error.

## Findings

| source | as written | input that shows it | evidently intended | confidence | as-written member | corrected member |
|---|---|---|---|---|---|---|
| gradepy/grade.py:148-151 | after logging "Fatal exception in student code. Cannot finish test.", the loop continues; the finished student generator then stops, and `TestError` "too few elements" blames the test script | master yields two Checks, student raises before its first yield | the test stops after the fatal message and returns the mistakes found so far | not executed | Reconcile.AsWrittenFaultBecomesTooFew | Reconcile.CompareFatalIff |
| gradepy/makecsv.py:7 | the `.` before `py` is unescaped, so any character plays the dot, and the lazy prefix lets the match end early | `Automated testing for hw/jd42/pyramid.py` reads as netid `hw`, module `jd42` | `\.py`, which reads netid `jd42` and module `pyramid` | not executed | Patterns.HeaderAsWrittenMisreads, Feedback.ParseFeedbackOnMisreadLine | Patterns.HeaderEscapedReadsLastTwo, Feedback.ParseFeedback |
| gradepy/utils.py:17-18 | the trailer is written right after the last kept line, with no newline in between | the script `# hw\nx = 1` becomes `x = 1if __name__ == '__main__':` on one line | a newline before the trailer when the script's last line lacks one | not executed | WrapScript.WrapMergesUnterminatedLine | WrapScript.WrapFixedKeepsLineNumbers |
