# Timewarrior extensions: `current.py` and `timew2ctt.py`

A Dafny model of two Timewarrior extension scripts from the taskwarrior-tools
repository.

- `current.py` prints the interval that is being tracked right now, as one line
  `<description> [<minutes>:<seconds>]`. When nothing is open it prints nothing.
- `timew2ctt.py` exports the closed intervals of one configured project to the ctt
  time tracker. It runs `ctt track --start S --end E PROJECT` once per interval and
  passes the interval's description on the command's standard input.

Both scripts read the same protocol on standard input. It holds configuration lines
`key: value`, then an empty line, then a JSON array of time entries. Both parse it
with the same `parse_input` function, so the model has it once.

Files and modules:

| file | module | what it holds |
|---|---|---|
| `wrappers.dfy` | `Wrappers` | `Option` and `Result` |
| `seqs.dfy` | `Seqs` | `Filter`, the list comprehension with a condition, and its laws |
| `text.dfy` | `Text` | the Python `str` operations the scripts use: `find`, `split(sep)`, `split(':', 1)`, `join`, `strip()`, `startswith`, `'{}'` and `'{:02}'` formatting |
| `timew.dfy` | `Timew` | timestamps, entries, and `parse_input` as a method with the function that specifies it |
| `current.dfy` | `Current` | `current.py`: `description`, `format_timedelta`, the choice of the current entry, and `main` |
| `ctt_export.dfy` | `CttExport` | `timew2ctt.py`: `has_project`, the timestamp reformatting, the export loop as a method, and `main` |

How the model is shaped:

- `parse_input` is written as imperative Dafny (`Timew.ParseInput` and
  `Timew.ReadHeader`). Each method is proved equal to a specification function:
  `Timew.ParseInputSpec` and `Timew.HeaderConfig`.
- The export loop of `timew2ctt.py` is the method `CttExport.TrackEach`. It is proved
  equal to the function `CttExport.TrackAll`. `main` is the method `CttExport.Export`,
  proved equal to `CttExport.ExportSpec`.
- The functions that only compute (`description`, `format_timedelta`,
  `has_project`) are Dafny functions with lemmas about them.
- Three collaborators are passed in as parameters.
  - `decode: string -> Option<seq<Entry>>` stands for `json.loads`.
  - `status: (nat, Invocation) -> int` gives the exit status of the external command
    `ctt`. Its arguments are the command and how many commands were started before it.
  - `secondsSince: Timestamp -> int` gives the whole seconds from a start time to
    `datetime.now()`.
- A run of the exporter is a `CttExport.Run`. It records how the run ended, the
  commands started in order, and the lines printed to standard output. The ways it
  can end are `Completed`, `InputFailed`, `KeyMissing`, `UsageError` (from `exit(1, ...)`)
  and `CommandFailed` (the `CalledProcessError` that `check=True` raises).

`reports.ctt.ctt_project` reads like an optional setting, since an empty value falls
back to the project. But the code reads it with `config["reports.ctt.ctt_project"]`,
which raises `KeyError` when the key is absent. The model follows the code. It
reports that case as `KeyMissing`, after the first line has been printed.

## Model

| member | source | states |
|---|---|---|
| `Seqs.Filter` | current.py:26 | the comprehension keeps exactly the elements of the input that satisfy the condition, and is no longer than the input |
| `Seqs.FilterAppend` | timew2ctt.py:46 | filtering a concatenation is the concatenation of the filtered parts, so survivors keep their input order |
| `Seqs.FilterHead` | current.py:38 | the first survivor is the first input element that satisfies the condition |
| `Seqs.FilterEmpty` | current.py:38-40 | the filter is empty exactly when no element satisfies the condition, which is when `[0]` raises `IndexError` |
| `Text.ContainsChar` | timew2ctt.py:54 | `c in s` for a one-character string is membership of that character |
| `Text.IndexOf` | timew2ctt.py:26 | finds the first occurrence of the separator, with no earlier one; None exactly when the separator does not occur |
| `Text.Split` | timew2ctt.py:23 | `str.split(sep)` always returns at least one part |
| `Text.SplitPartsLackSeparator` | timew2ctt.py:25 | no part returned by `split(sep)` contains `sep` |
| `Text.SplitThenJoin` | timew2ctt.py:23 | joining the parts of `split(sep)` with `sep` gives the input back |
| `Text.JoinThenSplit` | current.py:28 | for a separator with no border, `split` undoes `join` on parts that do not contain the separator |
| `Text.SplitInTwo` | timew2ctt.py:23 | `split('\n\n')` has exactly two parts iff the separator occurs and does not occur again after its first occurrence |
| `Text.SplitSingle` | timew2ctt.py:23 | `split(sep)` has one part exactly when `sep` does not occur |
| `Text.SeparatorAfterPart` | current.py:28 | after a part that lacks a border-free separator, the first occurrence is the separator written after that part |
| `Text.LeadingSpaces` | timew2ctt.py:27 | counts the whitespace characters at the start: all of them are whitespace and the next one is not |
| `Text.TrailingSpaces` | timew2ctt.py:27 | counts the whitespace characters at the end, with the same guarantees |
| `Text.Strip` | timew2ctt.py:27 | `strip()` leaves no whitespace at either end and introduces no characters |
| `Text.StripPadded` | timew2ctt.py:27 | `strip()` removes exactly the surrounding whitespace from a text that has none at its own ends |
| `Text.StripIdempotent` | timew2ctt.py:27 | stripping twice is stripping once |
| `Text.Decimal` | current.py:32 | `'{}'.format(m)` gives at least one digit, only digits, and a leading zero only for 0 |
| `Text.DecimalRoundTrip` | current.py:32 | the printed digits read back to the number |
| `Text.TwoDigits` | current.py:32 | `'{:02}'.format(s)` for `s < 100` gives two digits that read back to `s` |
| `Timew.KeyValue` | timew2ctt.py:26-27 | a header line gives a pair exactly when it has a colon, and the key has no colon |
| `Timew.KeyValueOfPair` | timew2ctt.py:26-27 | a line is cut at its first colon only: the stripped key, and the stripped rest, colons included |
| `Timew.FillAccepts` | timew2ctt.py:25-27 | the header loop succeeds exactly when every line is read |
| `Timew.FillRejectsFirst` | timew2ctt.py:25-27 | the loop fails on the first line that is rejected, whatever follows |
| `Timew.FillKeys` | timew2ctt.py:25-27 | the configuration's keys are exactly the keys of the lines |
| `Timew.FillLastWins` | timew2ctt.py:25-27 | a key keeps the value of its last line |
| `Timew.HeaderConfigAccepts` | timew2ctt.py:25-26 | the header is accepted exactly when every line has a colon |
| `Timew.HeaderConfigRejectsFirst` | timew2ctt.py:26 | a header is rejected with the first line that has no colon |
| `Timew.HeaderConfigKeys` | timew2ctt.py:27 | every configuration key is the stripped key of some header line, and every header line's key is in the configuration |
| `Timew.HeaderConfigLastWins` | timew2ctt.py:27 | a later line with the same key overwrites an earlier one |
| `Timew.ReadHeader` | timew2ctt.py:24-27 | the `for` loop over the header lines builds exactly the configuration of `HeaderConfig`, or fails as it does |
| `Timew.ParseInput` | timew2ctt.py:22-27 | `parse_input` returns the configuration and body text of `ParseInputSpec`, or raises as it does |
| `Timew.ParseInputAccepts` | timew2ctt.py:23-26 | input is accepted exactly when it holds one empty-line separator and every header line has a colon; the body is the text after the separator |
| `Timew.JoinedLinesHaveNoBlankLine` | timew2ctt.py:25 | header lines without newlines, joined with newlines, hold no blank line and do not end in a newline |
| `Timew.FrameRoundTrip` | timew2ctt.py:23 | such a header, the separator and a body without blank lines split back into the header and the body |
| `Timew.ParseRoundTrip` | timew2ctt.py:22-27 | writing header lines and a body in the protocol and parsing the result gives back the body and the configuration of those lines |
| `Current.DescriptionReadsBack` | current.py:24-28 | the description splits back into the space-containing tags when there is one, and otherwise into all the tags |
| `Current.DescriptionExamples` | current.py:24-28 | `["work", "client a meeting"]` gives `client a meeting`; `["work", "urgent"]` gives `work; urgent`; no tags give the empty text |
| `Current.DaySeconds` | current.py:31 | `d.seconds` is below one day and differs from the elapsed seconds by whole days |
| `Current.FormatTimedeltaReadsBack` | current.py:30-32 | the printed `m:ss` reads back to minutes and seconds whose total is `d.seconds`, with `m < 1440` and `ss < 60` |
| `Current.FormatTimedeltaInjective` | current.py:30-32 | two durations print alike exactly when their `d.seconds` agree |
| `Current.FormatTimedeltaExamples` | current.py:30-32 | 125 s print as `2:05`, 59 s as `0:59` and 60 s as `1:00`; 3661 s as `61:01`, since hours are not split off; one day and 61 s as `1:01`, since whole days are dropped |
| `Current.CurrentEntryIsFirstOpen` | current.py:37-40 | the current entry is the first entry without an end |
| `Current.CurrentEntryNone` | current.py:37-43 | there is no current entry exactly when every entry is closed |
| `Current.StatusLineOfFirstOpen` | current.py:45-47 | with an open entry, the line is its description then its running time in brackets, with nothing after; the time reads back to `d.seconds` |
| `Current.StatusLineNothingOpen` | current.py:42-43 | with every entry closed nothing is printed |
| `Current.MainOnProtocolInput` | current.py:34-47 | on input written in the protocol, `main` prints the status line of the decoded entries, or fails when the body does not decode |
| `CttExport.HasProjectOneTag` | timew2ctt.py:30-31 | one tag matches exactly when it is the project, or the project followed by a dot and more |
| `CttExport.SubProjectHasParent` | timew2ctt.py:30-31 | intervals of a sub-project also match the parent project |
| `CttExport.HasProjectExamples` | timew2ctt.py:30-31 | project `acme` matches tags `acme` and `acme.phase1` but not `acmecorp` |
| `CttExport.ToCtt` | timew2ctt.py:52-53 | the converted timestamp is `YYYY-MM-DD-HHMM`: 15 characters, dashes at 4, 7 and 10, digits elsewhere |
| `CttExport.ToCttLosesOnlySeconds` | timew2ctt.py:14-15 | putting the seconds back into the converted timestamp gives the original |
| `CttExport.ToCttSameMinute` | timew2ctt.py:52-53 | two timestamps convert alike exactly when they fall in the same minute |
| `CttExport.ToCttExamples` | timew2ctt.py:52-53 | the seconds are dropped, not rounded |
| `CttExport.ExportDescriptionReadsBack` | timew2ctt.py:54-55 | the exported description splits back into the space-containing tags and equals the `current.py` description; with none it is empty |
| `CttExport.ExportedIsFilterMap` | timew2ctt.py:50-59 | the loop plans one command per closed entry, in order |
| `CttExport.Progress` | timew2ctt.py:60 | one line ` - <description>` per successful command, in order |
| `CttExport.FirstFailure` | timew2ctt.py:59 | the index of the first command with a nonzero exit status: all before it succeeded |
| `CttExport.TrackEach` | timew2ctt.py:50-63 | the export loop produces exactly the run of `TrackAll` |
| `CttExport.TrackAllStops` | timew2ctt.py:59 | a failure after a run of successes ends the loop with that command and its status |
| `CttExport.TrackAllCompletes` | timew2ctt.py:59-63 | when every command succeeds the loop runs to the end and prints the closing lines |
| `CttExport.TrackAllIssuesPrefix` | timew2ctt.py:50-59 | the loop starts a prefix of the planned commands: all of them when every one succeeds, otherwise up to the first that fails |
| `CttExport.TrackAllPrints` | timew2ctt.py:60-63 | the loop prints one line per successful command, and the closing lines only when all succeeded |
| `CttExport.TrackAllIssuesClosed` | timew2ctt.py:50-59 | the commands started are those of the closed entries, in order, up to the first failure |
| `CttExport.Exportable` | timew2ctt.py:46-51 | the entries exported for a project are exactly the closed entries tagged with the project or a sub-project |
| `CttExport.ExportConfigured` | timew2ctt.py:36-63 | `main` after parsing produces exactly the run of `ExportFrom` |
| `CttExport.ExportAfterParse` | timew2ctt.py:34-36 | `main` after `parse_input` produces exactly the run of `ExportParsed` |
| `CttExport.Export` | timew2ctt.py:33-63 | `main` produces exactly the run of `ExportSpec` |
| `CttExport.ExportIssuesExportable` | timew2ctt.py:40-63 | with a project and a destination key, the commands started are those of the exportable entries, in order, each with converted times, the destination and the description; the run completes exactly when all were started and all succeeded, and otherwise ends on a failed command |
| `CttExport.ExportPrintsBanner` | timew2ctt.py:40-48 | before the loop `main` prints the project, the destination, the hint and an empty line |
| `CttExport.ExportOnProtocolInput` | timew2ctt.py:22-28 | on input written in the protocol the export runs on the header's configuration and the decoded body |
| `CttExport.ExportRejectsUnparsable` | timew2ctt.py:23-26 | input that `parse_input` rejects ends the run before any output or command |
| `CttExport.ExportConfigErrors` | timew2ctt.py:36-42 | a missing `reports.ctt.project` or `reports.ctt.ctt_project` key is a failed lookup; an empty project exits with status 1 and the two usage lines; no command is started in any of these cases |
| `CttExport.ExportDestination` | timew2ctt.py:42-57 | every issued command has seven arguments and its last one is the configured ctt project when that is non-empty, otherwise the exported project, and never empty |
| `CttExport.ExampleCommand` | timew2ctt.py:52-57 | the command for an interval tagged `proj` and `proj.sub build feature` |
| `CttExport.ExportExample` | timew2ctt.py:46-59 | with project `proj` and no separate destination, that interval is exported by exactly that one command and the export completes |

## Left out

- Reading standard input and writing standard output and standard error are not
  modelled. Printed lines are a `seq<string>`, and `current.py`'s single line
  printed without a newline is an `Option<string>`.
- `json.loads` and the shape of the decoded JSON are a parameter `decode`. An entry
  always has a `start` and `tags`. The `KeyError` for a missing `tags` key is not
  modelled. Neither is the `TypeError` for a body that is not a list of objects:
  `decode` returns None for it.
- Timestamps are a fixed-width `YYYYMMDDTHHMMSSZ` type on the entries, so the check
  happens where the body is decoded. `strptime`'s calendar checks (month 13, 30
  February) and its lenient parsing of shorter fields are not modelled. In the
  scripts, only the timestamps that are actually converted are parsed.
- `datetime.now()` and the subtraction of two `datetime`s are a parameter
  `secondsSince`, which gives whole seconds. Microseconds do not show in `m:ss` and
  are left out. `current.py` reads the `Z` timestamp without its zone and subtracts
  it from the local time; outside UTC the elapsed time is off by the UTC offset.
  The model does not capture this, since `secondsSince` hides the clock.
- `subprocess.run` is a parameter `status`, which gives the exit status of `ctt`.
  The following are not modelled: the `FileNotFoundError` when `ctt` is not
  installed, the child's own output, and the UTF-8 encoding of its input (the input
  is kept as text).
- The exit status of an uncaught exception is not modelled. A raised error is an
  outcome: `InputFailed`, `KeyMissing` or `CommandFailed`.
- The unused imports (`pprint`, and `subprocess` in `current.py`) and the
  `if __name__ == '__main__'` guards are not modelled.
