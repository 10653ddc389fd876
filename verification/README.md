# Render statistics aggregator — a Dafny model

This project models the render-statistics aggregator of the Composable
Architecture fork (`RenderedStatistics.swift`). The aggregator has three parts:

- **Counter store.** `add` counts one rendered diff under its call-site key.
  `resetCounters` clears the store.
- **Report formatter.** `printCounts` turns the store into log lines.
- **Runner.** `PrinterRunner` keeps exactly one reporting loop alive while at
  least one `watchAndPrintCounts` call is registered.

Files and modules:

- `ordered_map.dfy` (`OrderedMap`): an insertion-ordered dictionary, modelled
  as a sequence of key/value pairs with distinct keys. Writing an existing key
  replaces its pair in place. Writing a new key appends it at the end.
- `counter_store.dfy` (`CounterStore`): the data model.
  - `Key` is prefix, file, line, state type and action type.
  - `Diff` is the initial-state flag and the diff text.
  - `Value` is a diff histogram plus the hide flag.
  - `Add` and `ResetCounters` are pure functions, one per critical section.
  - Lemmas about sequences of `add` calls after a reset.
- `text.dfy` (`Text`): the re-indentation of diff text. It models Swift's
  `split(separator: "\n")`, which omits empty pieces, and `joined(separator:)`,
  plus the decimal text of a count.
  - A string is the sequence of its Unicode scalars. Swift splits by
    `Character`, and a carriage return followed by a line feed is the single
    Character `"\r\n"`, which is not a separator. So a line break
    (`IsBreak`) is a line feed not preceded by a carriage return.
  - By the grapheme cluster rules of Unicode Standard Annex #29, a line feed
    is always a Character boundary except right after a carriage return. So
    no other Character holds a line feed.
- `report.dfy` (`Report`): the report as a datatype of lines:
  `Header(total, key)`, `DiffLine(count, text)` and `HiddenSummary(count)`.
  - `ReportLines` is a reference definition built from filters and sums.
  - `PrintCounts`, `PrintKey`, `OverallCount` and `PrintDifferences` are methods with the loops of
    `printCounts`, proved equal to `ReportLines`.
  - `RenderLine` gives the text each line is logged as.
- `printer_runner.dfy` (`PrinterRunner`): the counters `watcherCount` and
  `runningCounter` with one atomic transition per `lock.withLock` body. A
  `System` state machine adds the live loops, the store and the log. Each loop
  iteration is three steps:
  - `printCounts`;
  - `resetCounters`, which is a separate critical section;
  - the stop check.

The flush is two critical sections, one after the other, at lines 199–200:
`printCounts`, then `resetCounters`. An `add` that lands between them is
cleared without being reported;
`PrinterRunner.AddBetweenPrintAndResetIsDropped` shows this. So the model
proves no "nothing is lost across a flush" property.

The guard at line 187 keeps `runningCounter` at 0 or 1. So the
`runningCounter > 1` half of the stop condition at line 205 never decides
anything (`PrinterRunner.StopOnlyWithoutWatchers`).

## Model

| member | source | states |
|---|---|---|
| OrderedMap.Get | Sources/ComposableArchitecture/SwiftUI/RenderedStatistics.swift:140-141 | a lookup finds a value exactly when the key is stored; in a map with distinct keys it is the value stored with that key |
| OrderedMap.Put | Sources/ComposableArchitecture/SwiftUI/RenderedStatistics.swift:148-151 | writing a stored key keeps the key order and every other pair's position; writing a new key appends it; afterwards the key reads back the written value, every other key reads as before, and keys stay distinct |
| CounterStore.ResetCounters | Sources/ComposableArchitecture/SwiftUI/RenderedStatistics.swift:50-54 | after a reset no key is stored |
| CounterStore.Increment | Sources/ComposableArchitecture/SwiftUI/RenderedStatistics.swift:141-146 | a stored diff's count goes up by one in place; a new diff is appended with count 1; other diffs are untouched; a histogram with distinct diffs, at least one diff and no zero count keeps those properties |
| CounterStore.Add | Sources/ComposableArchitecture/SwiftUI/RenderedStatistics.swift:119-158 | a new key is appended with a histogram of exactly this diff at count 1 and the caller's hide flag; for a stored key the key order and the stored hide flag stay the same, and its histogram is the old one with this diff counted in place, or appended at the end when it is new; this (key, diff) count rises by one, the key's other diff counts and every other key's entry and position are unchanged; the store invariant is kept |
| CounterStore.AddAll | Sources/ComposableArchitecture/SwiftUI/RenderedStatistics.swift:129-158 | any sequence of adds keeps a well-formed store well formed (a reset store is one): keys stay distinct and every key has at least one diff, all with count at least 1 |
| CounterStore.CountIsOccurrences | Sources/ComposableArchitecture/SwiftUI/RenderedStatistics.swift:140-155 | after a reset, each (key, diff) count equals the number of adds made with exactly that pair |
| CounterStore.KeysInFirstSeenOrder | Sources/ComposableArchitecture/SwiftUI/RenderedStatistics.swift:148-155 | after a reset, keys are stored once each, in the order of their first add |
| CounterStore.HideFlagOfFirstEvent | Sources/ComposableArchitecture/SwiftUI/RenderedStatistics.swift:69-73 | first writer wins: the stored hide flag of a key is the one passed by the first add for that key |
| CounterStore.DiffsInFirstSeenOrder | Sources/ComposableArchitecture/SwiftUI/RenderedStatistics.swift:141-146 | after a reset a key is stored exactly when some add used it, and its histogram lists the distinct diffs of those adds once each, in the order of their first add |
| CounterStore.OrderExample | Sources/ComposableArchitecture/SwiftUI/RenderedStatistics.swift:150-154 | adding with keys A, B, A, C after a reset stores the keys A, B, C |
| Text.Split | Sources/ComposableArchitecture/SwiftUI/RenderedStatistics.swift:102 | splitting on "\n" yields pieces that are never empty, hold no line break, and, except for the last, do not end in a carriage return |
| Text.Join | Sources/ComposableArchitecture/SwiftUI/RenderedStatistics.swift:103 | the joined text is as long as all pieces together plus one separator between each pair of neighbouring pieces |
| Text.IndentDifference | Sources/ComposableArchitecture/SwiftUI/RenderedStatistics.swift:102-103 | the printed diff text is the diff with its empty lines dropped and the four-space indent after every remaining line break; a CR LF is not a break; text without empty lines only gains the indent |
| Text.JoinLines | Sources/ComposableArchitecture/SwiftUI/RenderedStatistics.swift:102 | joining the lines of any text, empty lines included, with a line feed gives the text back |
| Text.LinesJoin | Sources/ComposableArchitecture/SwiftUI/RenderedStatistics.swift:102 | splitting into lines, empty lines kept, recovers any pieces joined with a line feed, as long as no piece holds a line break and none but the last ends in a carriage return |
| Text.SplitDropsEmptyLines | Sources/ComposableArchitecture/SwiftUI/RenderedStatistics.swift:102 | the default split is the full split with the empty lines removed |
| Text.SplitJoin | Sources/ComposableArchitecture/SwiftUI/RenderedStatistics.swift:102 | splitting on "\n" recovers non-empty pieces joined with a line feed, as long as no piece holds a line break and none but the last ends in a carriage return |
| Text.JoinSplit | Sources/ComposableArchitecture/SwiftUI/RenderedStatistics.swift:102-103 | joining the split pieces with a line feed gives back exactly the text that has no empty line |
| Text.JoinIndented | Sources/ComposableArchitecture/SwiftUI/RenderedStatistics.swift:103 | joining such pieces with a line feed and the indent equals joining them with a line feed and then putting the four-space indent after every line break |
| Text.CrLfStaysWhole | Sources/ComposableArchitecture/SwiftUI/RenderedStatistics.swift:102-103 | a diff "a\r\nb" is one piece and is printed unchanged |
| Text.EmptyLineDropped | Sources/ComposableArchitecture/SwiftUI/RenderedStatistics.swift:102-103 | a diff "a\n\nb" splits into "a" and "b" and is printed as "a", a line feed, the indent and "b" |
| Text.DecimalRoundTrip | Sources/ComposableArchitecture/SwiftUI/RenderedStatistics.swift:88 | the decimal text printed for a count reads back as that count |
| Report.OverallCount | Sources/ComposableArchitecture/SwiftUI/RenderedStatistics.swift:81-84 | the loop over a histogram computes the sum of its counts |
| Report.PrintDifferences | Sources/ComposableArchitecture/SwiftUI/RenderedStatistics.swift:92-106 | the loop over a histogram prints one line per diff that is not hidden, in histogram order and with its text re-indented, and adds up the counts of exactly the hidden diffs |
| Report.PrintKey | Sources/ComposableArchitecture/SwiftUI/RenderedStatistics.swift:80-113 | one key's block is the header with the summed count, the printed diff lines, and the summary line exactly when the hidden count is non-zero, as the reference report defines them |
| Report.PrintCounts | Sources/ComposableArchitecture/SwiftUI/RenderedStatistics.swift:77-117 | the nested loops of printCounts give exactly the reference report of the whole store, key blocks in insertion order |
| Report.OneHeaderPerKey | Sources/ComposableArchitecture/SwiftUI/RenderedStatistics.swift:80-90 | the report holds exactly one header per stored key, in insertion order, and each header's total is the sum of that key's diff counts |
| Report.TotalSplits | Sources/ComposableArchitecture/SwiftUI/RenderedStatistics.swift:95-100 | the counts of the printed diffs and of the hidden diffs add up to the key's total |
| Report.KeyReportBalances | Sources/ComposableArchitecture/SwiftUI/RenderedStatistics.swift:81-113 | a key's block starts with its header, and the counts on the lines below the header add up to the header's total, so every count is reported once |
| Report.HiddenPartition | Sources/ComposableArchitecture/SwiftUI/RenderedStatistics.swift:95-100 | the diffs printed on their own lines are exactly those that are not hidden initial-state diffs, and the summarised diffs are exactly the hidden ones; with the flag off every diff is printed and none is summarised |
| Report.SummaryIffHiddenDiff | Sources/ComposableArchitecture/SwiftUI/RenderedStatistics.swift:108-113 | in a well-formed histogram, the hidden summary line appears exactly when the key has a hidden initial-state diff |
| Report.SuppressionExample | Sources/ComposableArchitecture/SwiftUI/RenderedStatistics.swift:92-113 | with the flag set, an initial diff counted 3 times and another diff counted twice are reported as a header with total 5, one line with count 2, and one summary line with count 3 |
| Report.RenderLine | Sources/ComposableArchitecture/SwiftUI/RenderedStatistics.swift:86-112 | every logged line starts with the line-feed-and-`## ` marker; every line under a header has the four-space indent after it; a text reads as a header exactly when a digit follows the marker; the digits where the count starts read back as the line's count |
| Report.LogLines | Sources/ComposableArchitecture/SwiftUI/RenderedStatistics.swift:77-117 | one printCounts call logs one text per report line, in report order; a text reads as a header exactly where the report has a header, and each text reads back as its line's count |
| Report.LoggedHeaderCounts | Sources/ComposableArchitecture/SwiftUI/RenderedStatistics.swift:80-90 | a reader of one printCounts log finds exactly one header per stored key, in insertion order, and reads from each the sum of that key's diff counts |
| PrinterRunner.WatchStart | Sources/ComposableArchitecture/SwiftUI/RenderedStatistics.swift:178-191 | entering watchAndPrintCounts raises watcherCount by exactly one on both paths; it starts a loop, counting it in runningCounter, exactly when runningCounter < 1 |
| PrinterRunner.TickDecision | Sources/ComposableArchitecture/SwiftUI/RenderedStatistics.swift:204-214 | a loop stops and counts itself out exactly when watcherCount == 0 or runningCounter > 1; otherwise the counters are unchanged |
| PrinterRunner.WatchCancel | Sources/ComposableArchitecture/SwiftUI/RenderedStatistics.swift:229-233 | a cancelled watcher lowers watcherCount by exactly one and leaves runningCounter alone |
| PrinterRunner.Next | Sources/ComposableArchitecture/SwiftUI/RenderedStatistics.swift:178-233 | one atomic step: only add and reset change the store; only the print step extends the log, by the report of the store at that moment, and no step shrinks it; only entering, cancelling and the stop check touch the counters; a watch call adds one pending watcher, a cancel removes one |
| PrinterRunner.NextKeepsInv | Sources/ComposableArchitecture/SwiftUI/RenderedStatistics.swift:178-233 | each atomic step keeps the invariant: watcherCount counts the pending watchers, runningCounter counts the live loops, at most one loop lives, a loop lives while a watcher is pending, and the store is well formed |
| PrinterRunner.RunKeepsInv | Sources/ComposableArchitecture/SwiftUI/RenderedStatistics.swift:165-234 | every state reachable from the start, under any interleaving of the steps, satisfies that invariant |
| PrinterRunner.AtMostOneLoop | Sources/ComposableArchitecture/SwiftUI/RenderedStatistics.swift:186-191 | under any interleaving, at most one reporting loop is alive, and runningCounter stays in 0..1 and equals the number of live loops |
| PrinterRunner.WatcherIsRunningIffPending | Sources/ComposableArchitecture/SwiftUI/RenderedStatistics.swift:171-175 | watcherIsRunning holds exactly while some watchAndPrintCounts call is registered and not cancelled, and then a loop is alive |
| PrinterRunner.StopOnlyWithoutWatchers | Sources/ComposableArchitecture/SwiftUI/RenderedStatistics.swift:205 | in a reachable state the stop check fires exactly when no watcher is left, so the runningCounter > 1 branch never decides |
| PrinterRunner.WatchStartsLoopIffNone | Sources/ComposableArchitecture/SwiftUI/RenderedStatistics.swift:186-194 | in a reachable state a watch call starts a new loop exactly when none is alive, and afterwards exactly one loop is alive |
| PrinterRunner.StopWithinOneIteration | Sources/ComposableArchitecture/SwiftUI/RenderedStatistics.swift:196-218 | in a reachable state with no watcher left, a sleeping loop stops after one more print, reset and check, and the counters return to zero |
| PrinterRunner.AddBetweenPrintAndResetIsDropped | Sources/ComposableArchitecture/SwiftUI/RenderedStatistics.swift:199-200 | in a reachable state, an add between a loop's printCounts and its resetCounters is counted, then cleared, and never reaches the log |

## Left out

- Logging through `os.Logger`, the privacy annotations and the bundle identifier are I/O. The log is the returned sequence of `Line`s, and `RenderLine` gives each line's text.
- `Task`, `Task.sleep`, the one-second interval, the very long sleep of a watcher at line 227, and real thread interleaving are concurrency and timing. Each `withLock` body is one atomic step, and any interleaving of steps is allowed.
- The `catch` at line 221 is left out. It is the path where a loop's task is cancelled during its sleep and exits without lowering `runningCounter`. Task cancellation is runtime behaviour; if that exit happened, `runningCounter` would stay at 1 with no loop alive.
- The static singleton `cache` is plumbing, so the store is passed explicitly. `String(describing: StaticString)` is also plumbing, so the file is a plain string.
- The `.statistics` gate of the `tcaSettings` modifier and the per-call hide flag come from the settings. They are inputs (`Event.hideInitialStateDiffs`), and the settings builder is not part of this model.
- The type-erased equality wrapper and the example view are not part of this model. Keys use structural equality.
- `OrderedDictionary` is modelled by its observable behaviour: lookup, in-place update, append of new keys. Its hashing is not modelled.
- CounterStore.Add: counts are unbounded naturals. Swift's `counter + 1` would trap on `Int` overflow, and the model does not reproduce that trap.
- Report.OverallCount: the sum is unbounded. Swift's `overallCount += count` would trap on `Int` overflow.
- PrinterRunner.WatchStart: `watcherCount` and `runningCounter` are unbounded integers, so 64-bit overflow is not modelled.
- CounterStore.Add: keys and diffs are compared as sequences of Unicode scalars. Swift's `String` equality and hashing use canonical equivalence, so two texts that differ only in normalisation (NFC against NFD) share one entry in Swift but get two here.
- Text.DecimalRoundTrip: covers only the decimal text of non-negative counts. Every count in the model is a natural number, and the source line is a `UInt`.
