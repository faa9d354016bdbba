# Hummingbot watchdogs: a verified model

Two cron-driven watchdogs guard a Hummingbot market maker trading on Bitfinex.

- The **log watchdog** (`Main.py`):
  - reads the trigger tokens from its setting;
  - resumes the bot's log just past the line the previous run recorded (`determine_start_offset_by_last_line`);
  - scans every new line for a token once the line is upper-cased (`scan_new_lines`);
  - records the last line read.
- The **spread watchdog** (`spread.py`):
  - lists the open orders;
  - parses the listing row by row (`parse_orders_from_text`);
  - keeps the orders large enough and sorts the bid and ask prices (`split_filter_sort_orders`);
  - takes the spread between the best bid and the best ask relative to their midpoint (`compute_spread_percent_mid`);
  - records a note about the book.

When a watchdog triggers, both run the same remediation ladder. First they kill the bot's `screen` session. They run the cancel-all command only if the kill succeeded. The run ends with 0 when nothing was needed or both steps succeeded, 2 when a step failed, and 1 when the run could not read its input.

The sign rule of order submission (`calculate_bfx_amount`) is modelled too. A buy is sent as a positive amount and a sell as a negative one.

## How the model is built

Effects are abstract inputs. The model never runs a subprocess and never touches a file:

- a command's result is an `Outcome`: exited with a code and output, timed out, binary missing, or raised;
- the log file is `Missing`, `Unreadable` or `Present(text)`;
- the loaded state is nothing, a non-object, or a JSON object;
- a state write either succeeds or fails.

Each controller is a method. It returns its exit status, the ordered list of its outward effects (state write, kill, cancel) and the events it logs. Ordering rules are predicates over that list.

Three further modelling choices:

- A file's text is a string. It is cut into lines that keep their `'\n'`, and an offset is the length of a prefix of the text.
- Prices and amounts are exact reals.
- Sorting is a function that returns a sorted permutation. Every sorted permutation is the same sequence (`OrderBook.SortedPermutationUnique`), so it agrees with `list.sort`.

Modules, one per file:

| module | what it holds |
|---|---|
| `Wrappers` | `Option` and `Result` |
| `PyText` | Python's `str.isspace`, `strip`, `upper`, `lower` and `split` |
| `LogLines` | a text as lines that keep their terminator |
| `Commands` | the outcome → (rc, stdout, stderr) convention of the subprocess wrappers |
| `StateStore` | the loaded state, the records written and the marker |
| `Remediation` | effects, events and the shared kill → cancel ladder |
| `LogTail` | locate and scan (`helper_function.py`) |
| `LogMonitor` | the log watchdog (`Main.py`) |
| `OrderBook` | the order-book helpers (`helper_functions_spread.py`) |
| `SpreadMonitor` | the spread watchdog (`spread.py`) |
| `PutOrder` | `calculate_bfx_amount` |

## Model

| member | source | states |
|---|---|---|
| Commands.ReturnCode | helper_function.py:70-105 | The reported rc is 0 exactly when the process ran and exited with 0. |
| Commands.Run | helper_function.py:70-86 | A timeout gives (124, "", message), a missing binary gives (127, "", message), and any other exception gives (1, "", str(e)). Otherwise the process's own rc is returned. Output is empty unless the process exited. |
| Commands.RunStripsOutput | helper_function.py:80 | When the process exited, the returned stdout and stderr are the stripped streams: no whitespace at either end. |
| Commands.SentinelCodesAmbiguous | helper_function.py:80-84 | A process that itself exits with 124 or 127 is indistinguishable by rc from a timeout or a missing binary. |
| StateStore.MarkerOf | Main.py:54-55 | Definition: its contract restates the `state.get("last_line")` lookup (the marker is the string under "last_line" of an object, else none). The property proved through it is in `StateStore.AfterLastLineWrite`. |
| StateStore.AfterLastLineWrite | Main.py:63-68 | A successful write makes the written line the next run's marker. A failed write leaves the previous state unchanged. The cross-run lemmas of `LogMonitor` pass the next marker through it. |
| PyText.Strip | Main.py:24 | The stripped text is no longer than the input and has no whitespace at either end. It is empty exactly when the input is all whitespace. |
| PyText.StripPadded | put_order.py:73 | Stripping whitespace padding around text that is already trimmed gives that text back. |
| PyText.StripParts | put_order.py:73 | Every text is its strip with whitespace on each side. |
| PyText.Upper | helper_function.py:61 | Definition: its contract restates its body (each character mapped in place, length kept). The property proved about it is `PyText.UpperHasNoLowerCase`. |
| PyText.UpperHasNoLowerCase | helper_function.py:61 | An upper-cased line has no lower-case letter. |
| PyText.Lower | put_order.py:73 | Definition: its contract restates its body (each character mapped in place, length kept). The property proved through it is `PutOrder.NormalisedSideSpells`. |
| PyText.Split | Main.py:24 | `split(",")` yields at least one piece, and no piece holds the separator. |
| PyText.JoinSplit | Main.py:24 | Joining the pieces of a split with the separator gives the text back. |
| PyText.SplitJoin | Main.py:24 | Splitting the join of separator-free pieces gives the pieces back. |
| LogLines.FirstLineLength | helper_function.py:39 | A non-empty text's first line is non-empty and holds no '\n' before its end. It ends in '\n' unless it is the rest of the text. |
| LogLines.ConcatLines | helper_function.py:39 | The lines of a text, concatenated, are the text. |
| LogLines.LinesWellFormed | helper_function.py:39 | Every line is non-empty and only the last may lack its '\n'. |
| LogLines.LinesConcat | helper_function.py:39 | Cutting the concatenation of well-formed lines into lines gives the lines back. |
| LogLines.ConcatAppend | helper_function.py:39 | Concatenation distributes over appending line lists. |
| LogLines.FirstLineOfConcat | helper_function.py:39 | The first line of a concatenation of well-formed lines is the first of those lines. |
| LogLines.LinesAfterPrefix | helper_function.py:57-58 | Seeking to the end of the first k lines and reading on yields exactly the remaining lines. |
| LogLines.LinesAppend | helper_function.py:58 | Appending to a text that ends in '\n' appends the new text's lines. |
| LogLines.WellFormedAppend | helper_function.py:58 | Well-formed line lists stay well formed when appended after a terminated last line. |
| LogLines.LastLineOfText | helper_function.py:59 | The last line of a non-empty text is non-empty and ends with the text's last character. |
| LogTail.DetermineStartOffset | helper_function.py:28-47 | The loop's result is `ResumeOffset`. That is 0 with no marker, an empty marker, a missing or unreadable file, or no equal line. Otherwise it is the offset just past the first line equal to the marker, as the docstring describes. |
| LogTail.FindMarkerAsWritten | helper_function.py:36-41 | As the code runs: the `tell()` inside the line loop fails exactly when some line equals the marker. When nothing matches, the loop succeeds with 0. |
| LogTail.DetermineStartOffsetAsWritten | helper_function.py:28-47 | As the code runs, locate always returns 0, because the failing `tell()` is caught. |
| LogTail.OffsetAfterFirstAt | helper_function.py:39-41 | When line i is the first one equal to the marker, the resume offset is the length of lines 0..i. |
| LogTail.FirstMatch | helper_function.py:39-41 | A found offset comes from a line equal to the marker with no earlier equal line. |
| LogTail.OffsetAfterFirstMissing | helper_function.py:42-43 | No offset is found exactly when no line equals the marker. |
| LogTail.ResumeAfterFirstMatch | helper_function.py:30-32 | Resuming after the first equal line i lands within the text, and reading from there yields exactly the lines after i. |
| LogTail.ResumeFromStartIffMissing | helper_function.py:31-32 | With a non-empty marker, locate returns 0 exactly when no line equals it. |
| LogTail.ResumeAtLineBoundary | helper_function.py:30-32 | The resume offset is always within the text and on a line boundary. |
| LogTail.ResumeReadsOnlyAppended | helper_function.py:30-32 | Assume the text ends in '\n', the marker is its last line, and that line occurs nowhere earlier. Then after more text is appended, the next run reads exactly the appended lines. Without the first assumption see `LogTail.PartialLastLineRescans`; without the second, `LogTail.RepeatedMarkerRereads`. |
| LogTail.RepeatedMarkerRereads | helper_function.py:39-41 | If the marker line occurs twice, locate stops at the first copy, and the second copy is read again. |
| LogTail.ResumeAfterAppend | helper_function.py:30-32 | Assume the text ends in '\n' and the marker is found in it. Appending text does not move the resume point: the next run reads what a run before the append would have read, then the appended lines. |
| LogTail.PartialLastLineRescans | helper_function.py:36-44 | When the log ends mid-line, the recorded partial line "b" of "a\nb" no longer equals any line once the writer finishes it as "bc\n". The next run then resumes from 0 and reads the whole log again. |
| LogTail.OffsetAfterFirstPositive | helper_function.py:39-41 | A non-empty marker, when found, gives an offset past the start. |
| LogTail.StaleAlertWitness | helper_function.py:39-47 | For the log "ERROR a\n" with that line as marker, the intended resume offset reads nothing. The as-written offset 0 reads the line again, and that line matches "ERROR". |
| LogTail.AnyLineMatchesAppend | helper_function.py:58-65 | Some line of `ls + [line]` matches exactly when some line of `ls` does or `line` does. |
| LogTail.AnyLevelIn | helper_function.py:62-65 | The inner loop finds a level exactly when some level occurs as a substring of the upper-cased line. |
| LogTail.ScanNewLines | helper_function.py:50-67 | The scan fails exactly when the file cannot be opened. `matched` holds exactly when some line read from the start offset contains a level once upper-cased. `last_line_read` is the final line read, or "" when none is read. The new offset is the end of the text, or the start offset when that lies past the end. |
| LogMonitor.DefaultLevelsAreTokens | Main.py:25-26 | The default levels "ERROR" and "WARNING" are usable tokens: non-empty and upper-case. |
| LogMonitor.TokenOfIsToken | Main.py:24 | A piece that is not all whitespace becomes a usable token. |
| LogMonitor.CleanPieces | Main.py:24 | Cleaning never yields more levels than pieces. Order and repeats are stated by `LogMonitor.CleanOnePiece` and `LogMonitor.CleanPiecesAppend`. |
| LogMonitor.CleanOnePiece | Main.py:24 | One entry gives its stripped, upper-cased token when it is not blank, and nothing when it is. |
| LogMonitor.CleanPiecesAppend | Main.py:24 | Cleaning distributes over appending entries, so the tokens keep the entries' order and repeats: one token per non-blank entry, in place. |
| LogMonitor.CleanLevels | Main.py:24-26 | The cleaned levels are never empty. |
| LogMonitor.CleanPiecesAreTokens | Main.py:24 | Every cleaned level is a usable token. |
| LogMonitor.CleanLevelsAreTokens | Main.py:24-26 | Every level the watchdog scans for, the defaults included, is a usable token. |
| LogMonitor.CleanPiecesSound | Main.py:24 | Every cleaned level is the stripped, upper-cased form of a non-blank piece. |
| LogMonitor.CleanPiecesComplete | Main.py:24 | Every non-blank piece's stripped, upper-cased form is among the cleaned levels. |
| LogMonitor.CleanPiecesEmpty | Main.py:24-25 | Cleaning leaves nothing exactly when every piece is whitespace. |
| LogMonitor.CleanLevelsDefault | Main.py:24-26 | An all-blank setting gives ["ERROR", "WARNING"]. Otherwise the result is the cleaned pieces. |
| LogMonitor.PersistedLine | Main.py:63-65 | The recorded marker is the last line read. When no line was read, it is the previous marker (corrected rule, see Findings). |
| LogMonitor.QuietRunForgetsPosition | Main.py:65 | As written, under the documented locate. Assume the log ends in '\n', its last line occurs nowhere earlier, and the loaded marker is that last line. Then the run reads nothing, and the record of Main.py:65 stores "" through the state store. The run after it then reads the whole log again, old lines included. |
| LogMonitor.QuietRunKeepsPosition | Main.py:63-65 | Under the same assumptions as QuietRunForgetsPosition, the corrected record keeps the marker through the state store. The run after the quiet run then reads exactly the appended lines. |
| LogMonitor.QuietRun | helper_function.py:55-67 | Assume the log ends in '\n' and its last line occurs nowhere earlier. Then resuming after that last line reads nothing. |
| LogMonitor.RunsReadEachLineOnce | Main.py:54-65 | Assume the log ends in '\n' and its last line occurs nowhere earlier. The run then records that last line (`LogMonitor.RecordIsLastLine`). If the write succeeds, the next run loads what it wrote and, after text is appended, reads exactly the appended lines. So no line is scanned twice. |
| LogMonitor.RecordIsLastLine | Main.py:63-65 | With the corrected record, a run over a log ending in '\n' records the log's last line, whatever marker it resumed from. |
| LogMonitor.FailedWriteRereads | Main.py:63-68 | A failed state write keeps the old document. Assume the log ends in '\n' and the marker is found in it. Then the next run reads again every line this run read, followed by the appended lines. |
| LogMonitor.RunLogMonitor | Main.py:51-144 | Exit codes: 1 when the logger cannot be set up or the log cannot be read, with no effects. 0 when no new line holds a token, or when the kill and the cancel both succeeded. 2 otherwise. The marker record is written first and a failed write does not change the flow. Kill and cancel run exactly when a new line holds a token, and cancel only after a successful kill. The logged events are given exactly. |
| Remediation.LadderEffects | Main.py:88-131 | The ladder starts with the kill, consists of remediation steps only, and cancels only after a successful kill. |
| Remediation.WriteThenLadder | Main.py:63-131 | Writing the state before the ladder keeps both ordering rules: persist before remediation, and cancel only after a successful kill. |
| Remediation.Remediate | Main.py:88-141 | Status 0 exactly when the kill and the cancel both succeeded, otherwise 2. A skipped cancel gives 2. The last event is `run_end` carrying the status. |
| Remediation.PersistAndRespond | spread.py:90-176 | Both controllers share this step: write the record, then answer quietly with status 0 or run the ladder. Status 0 means no trigger or both steps succeeded. The write comes first and its failure is only logged. |
| OrderBook.RunLength | helper_functions_spread.py:27 | The length of the longest prefix whose characters all satisfy a class. |
| OrderBook.RunOfConcat | helper_functions_spread.py:27 | A class run over `a + b` stops exactly at the end of `a` when `b` starts outside the class. |
| OrderBook.BackRunOfConcat | helper_functions_spread.py:27 | The same from the end: a backward run over `a + b` covers exactly `b`. |
| OrderBook.SplitLinesHaveNoBreaks | helper_functions_spread.py:34 | No line produced by `splitlines()` holds a line boundary character. |
| OrderBook.SplitLinesTerminated | helper_functions_spread.py:34 | Boundary-free lines, each ended by the same ending ("\n", "\r", "\r\n" or any single boundary character), are split back into exactly those lines. |
| OrderBook.SplitHead | helper_functions_spread.py:27 | A found cut of `\s+([A-Z ]+?)\s+` is gap, type words, gap, and it concatenates back to the input. |
| OrderBook.SplitHeadComplete | helper_functions_spread.py:27 | Every text of the shape gap, type words, gap is cut. |
| OrderBook.SplitTrailingGapComplete | helper_functions_spread.py:27 | The trailing `\s+` is cut exactly where the non-space text ends. |
| OrderBook.SplitSideComplete | helper_functions_spread.py:27-28 | A text ending in BUY or SELL, in any case, is cut right before that word. |
| OrderBook.SplitWords | helper_functions_spread.py:27 | A found cut of the words between id and amount has their shape and concatenates back. |
| OrderBook.SplitWordsComplete | helper_functions_spread.py:27-28 | Every text of the words' shape is cut, and always with the same side. |
| OrderBook.SplitTail | helper_functions_spread.py:27 | A found cut of amount, price, date and the following whitespace has their shape and concatenates back. |
| OrderBook.SplitTailComplete | helper_functions_spread.py:27 | Every text of the tail's shape is cut into exactly those parts. |
| OrderBook.SplitRow | helper_functions_spread.py:26-29 | A found row cut has the row pattern's shape and concatenates back to the line. |
| OrderBook.SplitRowComplete | helper_functions_spread.py:26-29 | Every line of the row pattern's shape is cut, with the same side, amount and price as any matching cut. |
| OrderBook.DecimalValue | helper_functions_spread.py:41-42 | The exact value of an unsigned decimal lies between its integer part and the next integer. |
| OrderBook.FractionValue | helper_functions_spread.py:41-42 | Digits after the point contribute a value in [0, 1). |
| OrderBook.MatchRow | helper_functions_spread.py:35-43 | A matched row's order has side "BUY" or "SELL" and a non-negative amount and price. |
| OrderBook.MatchRowIffRowMatches | helper_functions_spread.py:35-37 | A line yields an order exactly when it matches the row pattern, and every way of matching it gives that same order. |
| OrderBook.Collect | helper_functions_spread.py:36-43 | Skipping unmatched lines keeps at most one order per line. |
| OrderBook.CollectAppend | helper_functions_spread.py:34-43 | Collecting distributes over appending results, so orders keep line order. |
| OrderBook.CollectFrom | helper_functions_spread.py:36-43 | Every collected order is one of the per-line results. |
| OrderBook.CollectedBookOrders | helper_functions_spread.py:40-43 | When every per-line result is a valid order, every collected order is one too. |
| OrderBook.MapLines | helper_functions_spread.py:34-35 | Definition: its contract restates its body (line i's result is the match of line i). The property proved about it is `OrderBook.ParseLinesAppend`. |
| OrderBook.ParsedOrdersAreBookOrders | helper_functions_spread.py:33-44 | Parsing yields at most one order per line, each with side BUY or SELL and unsigned amount and price. |
| OrderBook.ParseLinesAppend | helper_functions_spread.py:34-43 | Parsing distributes over appending lines, so orders come in line order. |
| OrderBook.ParseOneLine | helper_functions_spread.py:35-43 | One line gives its order if it matches, and nothing if not. |
| OrderBook.ParseOrdersFromText | helper_functions_spread.py:32-44 | The loop over `splitlines()` returns the parse of the text's lines, and every order it returns is a valid order. |
| OrderBook.KeptPrices | helper_functions_spread.py:50-56 | A side's kept prices are no more than the orders. |
| OrderBook.KeptPricesSound | helper_functions_spread.py:50-56 | Every kept price belongs to an order of that side whose amount is not below the minimum. |
| OrderBook.KeptPricesComplete | helper_functions_spread.py:50-56 | Every such order's price is kept. |
| OrderBook.KeptPricesBothSides | helper_functions_spread.py:48-59 | Kept buys and kept sells together are no more than the orders. |
| OrderBook.Insert | helper_functions_spread.py:57-58 | Insertion adds one element, and the new head is the inserted element or the old head. |
| OrderBook.InsertSorted | helper_functions_spread.py:57-58 | Inserting into a sorted list keeps it sorted. |
| OrderBook.InsertPermutes | helper_functions_spread.py:57-58 | Inserting adds exactly that element to the multiset. |
| OrderBook.Sort | helper_functions_spread.py:57-58 | The sort returns a sorted permutation of its input. |
| OrderBook.SortedPermutationUnique | helper_functions_spread.py:57-58 | Two sorted permutations of the same list are equal, so any correct sort gives the same result. |
| OrderBook.SortedHeadsAgree | helper_functions_spread.py:57-58 | Two sorted permutations of the same list share their head. |
| OrderBook.TailsArePermutations | helper_functions_spread.py:57-58 | Permutations with equal heads have permuted tails. |
| OrderBook.SplitFilterSortOrders | helper_functions_spread.py:47-59 | `buys` is non-increasing and, as a multiset, the prices of the kept BUY orders. `sells` is non-decreasing and, as a multiset, the prices of the kept SELL orders. Together they are no more than the orders. |
| OrderBook.BestPriceIsExtreme | spread.py:77-78 | A side has no best price exactly when none of its orders is kept. Otherwise the best price is a kept order's price: the highest bid or the lowest ask. |
| OrderBook.SpreadPercentMid | helper_functions_spread.py:62-70 | A spread exists exactly when both prices exist and are positive, so the `mid <= 0` guard never fires. The spread is negative exactly when ask < bid, zero exactly when they are equal, and always strictly between -200 and 200. |
| OrderBook.RatioBounds | helper_functions_spread.py:70 | Dividing by a positive mid keeps the sign and zero, and scales the bounds. |
| SpreadMonitor.Note | spread.py:84-89 | The note is "insufficient_book_depth" exactly when there is no spread. |
| SpreadMonitor.OneSidedBookNeverTriggers | spread.py:77-83 | A book with no kept bid or no kept ask has no spread and never triggers. |
| SpreadMonitor.CrossedBookTriggers | spread.py:80-83 | Suppose every kept ask is priced above zero, and some kept ask is below some kept bid. Then the run triggers, whatever the threshold. |
| SpreadMonitor.AssessBook | spread.py:75-89 | Parsing, filtering and sorting give the spread between the best kept bid and ask, the trigger, and the note. |
| SpreadMonitor.RunSpreadMonitor | spread.py:50-179 | Exit codes: 1 when the logger cannot be set up or the list command fails, with no effects. 0 when the spread is fine, or when the kill and the cancel both succeeded. 2 otherwise. The note is written first and a failed write does not change the flow. The ladder runs exactly when the trigger holds, and cancel only after a successful kill. The logged events are given exactly. |
| PutOrder.Abs | put_order.py:75 | The magnitude is non-negative and equals the amount or its negation. |
| PutOrder.CalculateBfxAmount | put_order.py:66-79 | The result is valid exactly when the stripped, lower-cased side is "buy" or "sell". Any other side is refused, naming the normalised side. A buy is non-negative, a sell non-positive, and both have the amount's magnitude. |
| PutOrder.SignOfInputIgnored | put_order.py:74-77 | The result does not depend on the sign of the amount. |
| PutOrder.BuyAndSellAreOpposite | put_order.py:74-77 | A buy and a sell of the same amount are each other's negation. |
| PutOrder.NormalisedSideSpells | put_order.py:73 | A side normalises to "buy" or "sell" exactly when it is that word, in any case, padded with whitespace. |
| PutOrder.PaddedUpperCaseBuy | put_order.py:73-75 | " BUY\n" with amount -3.5 is a buy of 3.5. |
| PutOrder.UnknownSideRefused | put_order.py:78-79 | " Hold " is refused as the invalid side "hold". |

## Left out

- Subprocesses, files and the event logger are abstract inputs: `subprocess.run`, `shlex.split`, `load_state`, `atomic_write_state`, `setup_logger` and `log_event`. Their messages and field values are not modelled, only which event is logged.
- Environment-variable reads and the `int()`/`float()` parsing in both `get_env_config` functions are not modelled. The levels setting is a parameter; the minimum amount and the threshold are reals.
- `print(cfg)`, `KeyboardInterrupt` → 130, and the outer `except Exception: return 1` are not modelled. That handler is modelled only for a logger that cannot be set up; the other calls it guards are modelled as not raising.
- Floating point: amounts, prices and the spread are exact reals. `float()` rounding and the `:.6f` formatting of the spread note are not modelled; the note keeps the values themselves.
- Text: case mapping is ASCII only, and `\d` and `[0-9]` are ASCII digits. Python's Unicode case mapping and Unicode digits are left out. For the "buy"/"sell" comparison this changes nothing, since those words are ASCII.
- File reading: `errors="replace"` decoding and universal-newline translation are not modelled. Offsets count characters of the text as read rather than bytes.
- `monitor.py`, the `hleper_functions/` copies, `format_bitfinex_price`, `_execute_put_order` and the Bitfinex client are not part of this model. They are network code, printing and floating-point formatting.
- OrderBook.SplitFilterSortOrders: returns new sorted sequences rather than sorting two lists in place. Its result equals `list.sort`'s by `OrderBook.SortedPermutationUnique`.
- OrderBook.SplitRow: the regular expression is a deterministic recogniser. `OrderBook.MatchRowIffRowMatches` proves it accepts exactly the lines of the pattern's shape and agrees with every match on side, amount and price. Backtracking itself is not modelled.
- LogMonitor.RunLogMonitor: records the corrected marker (`LogMonitor.PersistedLine`) and resumes with the documented locate (`LogTail.DetermineStartOffset`). The code as written is modelled only in parts: its locate (`LogTail.DetermineStartOffsetAsWritten`) and its record rule (`LogMonitor.QuietRunForgetsPosition`, stated under the documented locate). No controller member combines the two; see Findings.
- LogMonitor.RunsReadEachLineOnce: a run never re-reads a line only when the log ends in '\n' and its last line occurs nowhere earlier. A log that ends mid-line is read again from the top (`LogTail.PartialLastLineRescans`), and a repeated last line sends the next run back to its first copy (`LogTail.RepeatedMarkerRereads`). Both come from comparing whole lines with the marker (helper_function.py:39-40), and the model keeps that behaviour.

## Findings

| source | as written | input that shows it | evidently intended | confidence | as-written member | corrected member |
|---|---|---|---|---|---|---|
| helper_function.py:39-47 | Under CPython, `f.tell()` inside `for line in f` on a text file raises `OSError`. The handler at line 46 turns that into 0, so a found marker always resumes from the start. | A log holding "ERROR a\n" whose marker is "ERROR a\n". Locate returns 0, the scan reads "ERROR a\n" again, and the ladder runs again on an alert that was already handled. | Resume just past the first line equal to the marker (docstring, lines 30-32). | not executed | LogTail.DetermineStartOffsetAsWritten, LogTail.StaleAlertWitness | LogTail.DetermineStartOffset, LogTail.ResumeReadsOnlyAppended |
| Main.py:63-65 | Latent: reachable only once locate follows its docstring, since as written it returns 0 anyway (first row). The record written is `last_line_read`, which is "" when the run read no new line. The next run then has an empty marker and rescans the whole log. | Under the documented locate: a log "x\n" whose loaded marker is "x\n". The run resumes after that line, reads nothing and records "". After "y\n" is appended, the next run reads "x\n" and "y\n" instead of only "y\n". | Keep the previous marker when no line was read. | not executed | LogMonitor.QuietRunForgetsPosition | LogMonitor.PersistedLine, LogMonitor.QuietRunKeepsPosition |
