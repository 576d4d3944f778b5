# Protocol maker: selection store and report compiler

This project models the core of the protocol maker web app (`src/App.tsx`).
The app lets a user pick repositories and commits and compiles the selected
commits into a document payload. It has three parts:

- **Selection store** (`store.dfy`, module `SelectionStore`). It holds the
  repository entries (`RepoState`) and the commit groups (`CommitsState`), each
  entry carrying a `selected` flag. It models `handleReposUpdated`,
  `selectRepo`, `unselectRepo`, `selectCommit`, `unselectCommit` and the
  `selectedReposFullName` view. The source builds a new array with `map` or
  `filter` for each of these, so each one is a function from `seq` to `seq`.
- **Commit-message parser** (`message_parser.dfy`, module `MessageParser`). It
  models the call `message.match(/(?<title>.+) (\(#(?<num>\d+)\))/)` and how
  `compileData` turns its groups into `title` and `prNum`. The matcher is
  written out step by step:
  - `Search` tries the start positions from left to right.
  - `TryAt` lets greedy `.+` run to the end of the line (`LineEnd`).
  - `Backtrack` gives characters back until a marker ` (#digits)` follows.

  The lemmas tie this to a declarative reading of the pattern (`MatchesAt`):
  the match with the leftmost start, and at that start the longest title.
- **Report compiler** (`report.dfy`, module `ReportCompiler`). It models
  `compileData`:
  - the `flatMap` over the groups (`FlatMapGroups`);
  - the inner `map`, which yields `null` for an unselected commit (`CompileEntry`);
  - the `filter` that drops the `null`s (`DropNulls`);
  - the seven-character sha (`ShortSha`).

  The lemmas show that the report has one row per selected commit. Each
  selected commit sits at its rank: the number of selected commits before it,
  counted group by group. Every row comes from such a commit, and the ranks
  follow the order of the groups and then of the commits within a group.

Wrapper module `Wrappers` (`wrappers.dfy`) holds the `Option` type used for
`null` and for "no match".

The marker is meant for squash-merge messages of the form `title (#123)`. Read
that way, one would expect the marker to be anchored at the end of the message
and the title to be trimmed. The code does neither, and this model follows the
code:
- The pattern has no `$`, so a marker in mid-message is taken
  (`ParseExampleMidMessage`).
- `.+` is greedy, so the last marker on the matching line wins.
- A marker at the very start of a line is not a match, because `.+` needs one
  character.
- Only the one space that the pattern consumes is removed from the title.
- On a message of several lines, the title comes from the first line that holds
  a marker after its first character.

A compile with no date chosen is not handled by the code: it writes
`data.date!`, which makes a present date the caller's obligation, so
`CompileData` requires it.

## Model

| member | source | states |
|---|---|---|
| SelectionStore.ReposUpdated | src/App.tsx:44-46 | the wrapped list has the same repositories in the same order, and none is selected |
| SelectionStore.MarkRepo | src/App.tsx:48-60 | entries with another id are returned unchanged; entries with the id get the new flag; the repositories and their order are kept |
| SelectionStore.SelectRepo | src/App.tsx:48-53 | afterwards an entry is selected iff it was selected or it has the id; the repositories and their order are kept |
| SelectionStore.UnselectRepo | src/App.tsx:55-60 | afterwards an entry is selected iff it was selected and has another id; the repositories and their order are kept |
| SelectionStore.SelectedReposFullName | src/App.tsx:40 | one name per selected entry, and every name in the view belongs to a selected entry |
| SelectionStore.SelectedReposFullNameAppend | src/App.tsx:40 | the view of a concatenation is the concatenation of the views, so the order is kept |
| SelectionStore.SelectedReposFullNameComplete | src/App.tsx:40 | the full name of every selected entry is in the view |
| SelectionStore.NoSelectionEmptyView | src/App.tsx:40 | with nothing selected the view is empty |
| SelectionStore.NothingSelectedAfterUpdate | src/App.tsx:40-46 | right after new repositories arrive the view is empty |
| SelectionStore.UnknownRepoIsNoOp | src/App.tsx:48-60 | selecting or unselecting an id that no entry has returns the input unchanged |
| SelectionStore.RepoTogglesIdempotent | src/App.tsx:48-60 | selecting twice is the same as selecting once, and likewise for unselecting |
| SelectionStore.SelectThenUnselectRepo | src/App.tsx:48-60 | select then unselect is the same as unselect alone; entries with another id are untouched |
| SelectionStore.SelectUnselectRepoRoundTrip | src/App.tsx:48-60 | if the matching entries start unselected, select then unselect gives back the input |
| SelectionStore.MarkEntries | src/App.tsx:65-72 | the inner `map` of both `selectCommit` (line 65) and `unselectCommit` (line 72): commit entries with another sha are unchanged; entries with the sha get the new flag; the commits and their order are kept |
| SelectionStore.MarkCommit | src/App.tsx:62-74 | groups with another name are unchanged; in groups with the name, only entries with the sha change, and only their flag; the number of groups, each group's name and commit count, and all order are kept |
| SelectionStore.SelectCommit | src/App.tsx:62-67 | a commit is selected afterwards iff it was selected or it is the (repo, sha) target; the group names, the commits and their order are kept |
| SelectionStore.UnselectCommit | src/App.tsx:69-74 | a commit is selected afterwards iff it was selected and it is not the target; the group names, the commits and their order are kept |
| SelectionStore.UnknownCommitIsNoOp | src/App.tsx:62-74 | toggling a (repo, sha) pair that no group holds returns the input unchanged |
| SelectionStore.CommitTogglesIdempotent | src/App.tsx:62-74 | selecting a commit twice is the same as selecting it once, and likewise for unselecting |
| SelectionStore.SelectThenUnselectCommit | src/App.tsx:62-74 | select then unselect of a commit is the same as unselect alone |
| SelectionStore.SelectUnselectCommitRoundTrip | src/App.tsx:62-74 | if the target entries start unselected, select then unselect gives back the input |
| MessageParser.IsMarkerAt | src/App.tsx:125 | the reference definition of the marker part of the pattern: ` (#`, the maximal run of digits (at least one), then `)`; its contract adds only that such a marker lies inside the text |
| MessageParser.MatchesAt | src/App.tsx:125 | the reference definition of a match, against which the matcher is proved: the title group is `m[s..p]`, non-empty, inside the text, without line terminators, and followed by a marker |
| MessageParser.DigitRun | src/App.tsx:125 | the length of the longest run of digits from a position, which greedy `\d+` tries first |
| MessageParser.MarkerAtIffPattern | src/App.tsx:125 | the marker test agrees with the pattern's ` (#\d+\)`: some non-empty run of digits closed by `)` |
| MessageParser.MarkerDigits | src/App.tsx:125 | the `num` group is a non-empty string of ASCII digits |
| MessageParser.DigitsValue | src/App.tsx:130 | unary `+` on a digit string is a natural number whose decimal numeral is the string itself, when the string has no leading zero |
| MessageParser.DigitsValueLeadingZero | src/App.tsx:130 | unary `+` ignores a leading zero, so `007` has the value of `7` |
| MessageParser.DigitsValueDecimal | src/App.tsx:130 | unary `+` on the decimal numeral of n gives n back |
| MessageParser.LineEnd | src/App.tsx:125 | greedy `.` stops at the first line terminator or at the end of the text |
| MessageParser.Backtrack | src/App.tsx:125 | giving back characters of `.+` finds the largest title end followed by a marker, or reports that there is none |
| MessageParser.TryAt | src/App.tsx:125 | at one start, finds the longest title that matches, or none if no match starts there |
| MessageParser.Search | src/App.tsx:125 | finds the match with the leftmost start and, at that start, the longest title; if it finds nothing, no match exists |
| MessageParser.Parse | src/App.tsx:125-130 | prNum is -1 or a number; with -1 the title is the whole message; with a number the title is non-empty, single-line, strictly shorter than the message, and occurs in the message at some position |
| MessageParser.ParseLeftmostLongest | src/App.tsx:125-130 | if a match starts at s with its title ending at p, none starts earlier and none at s is longer, then the title is `m[s..p]` and prNum is the value of the marker's digits |
| MessageParser.ParseNoMatch | src/App.tsx:129-130 | when the pattern matches nowhere, the title is the whole message and prNum is -1 |
| MessageParser.ParseFindsNumberIffMatch | src/App.tsx:125-130 | prNum is non-negative exactly when the pattern matches somewhere |
| MessageParser.ParseSingleLine | src/App.tsx:125-130 | on one line, with the last marker at index i >= 1, the title is the text before i and prNum is that marker's number |
| MessageParser.ParseNoMarker | src/App.tsx:129-130 | with no marker after the first character, the title is the whole message and prNum is -1 |
| MessageParser.NoHashNoMarker | src/App.tsx:129-130 | a message without `#` keeps its text and gets -1 |
| MessageParser.ParseSquashTitle | src/App.tsx:125-130 | `title (#n)` on one line, with a non-empty title, parses back to the title and n, even when the title holds a marker itself |
| MessageParser.ParseSquashThenText | src/App.tsx:125-130 | the pattern is not anchored: text after the marker on the same line, if it has no `#`, is ignored |
| MessageParser.ParseExampleSquash | src/App.tsx:125-130 | `Fix bug (#42)` gives `Fix bug` and 42 |
| MessageParser.ParseExampleNoMarker | src/App.tsx:129-130 | `Refactor module` gives `Refactor module` and -1 |
| MessageParser.ParseExampleMidMessage | src/App.tsx:125-130 | `Merge (#1) into main` gives `Merge` and 1 |
| ReportCompiler.ShortSha | src/App.tsx:128 | the result is a prefix of the sha, of length 7, or the whole sha when it is shorter |
| ReportCompiler.CompileCommit | src/App.tsx:125-131 | the row carries the group's name, the prefix of the sha of length 7 (or the whole sha when it is shorter), and the title and number that `Parse` gives for the message; with prNum -1 the message is the raw message |
| ReportCompiler.CompileEntry | src/App.tsx:124 | an entry yields a row exactly when it is selected, and `null` otherwise |
| ReportCompiler.CompileGroup | src/App.tsx:123-133 | one entry per commit of the group, in order; an entry is `null` exactly when its commit is unselected |
| ReportCompiler.FlatMapGroups | src/App.tsx:122-133 | the flattened entries of all groups hold exactly one non-null entry per selected commit |
| ReportCompiler.DropNulls | src/App.tsx:134 | the filter keeps at most as many elements as it is given |
| ReportCompiler.DropNullsAppend | src/App.tsx:134 | filtering a concatenation is concatenating the filtered parts, so order is kept |
| ReportCompiler.DropNullsSingle | src/App.tsx:134 | a present value is kept and a `null` is dropped |
| ReportCompiler.FlatMapGroupsAppend | src/App.tsx:122 | the flattened entries of concatenated groups are the concatenation of their flattened entries |
| ReportCompiler.CompileCommits | src/App.tsx:122-134 | the report has exactly as many rows as there are selected commits across all groups |
| ReportCompiler.CompileData | src/App.tsx:119-136 | the user data is copied with the date formatted; the rows are the compiled commits: one per selected entry, empty exactly when nothing is selected, every selected commit at its rank as its own group's record, and every row the record of the selected commit of its rank |
| ReportCompiler.GroupRowsCons | src/App.tsx:122-134 | a group's rows are its first commit's row, if selected, followed by the rows of the rest |
| ReportCompiler.GroupRowsLength | src/App.tsx:122-134 | a group yields one row per selected commit |
| ReportCompiler.GroupRowsAt | src/App.tsx:122-134 | a selected commit of a group is the group's row numbered by the selected commits before it |
| ReportCompiler.GroupRowsOrigin | src/App.tsx:122-134 | every row of a group comes from a selected commit of that group, at that commit's rank |
| ReportCompiler.CompileCommitsAppend | src/App.tsx:122-134 | the report on concatenated groups is the concatenation of their reports |
| ReportCompiler.CompileCommitsAt | src/App.tsx:122-134 | each selected commit appears at its rank, with its own group's name as `repo` |
| ReportCompiler.GroupRowSource | src/App.tsx:122-134 | row k of a group is the record of its selected commit with k selected commits before it |
| ReportCompiler.CompileRowSource | src/App.tsx:122-134 | row k of the report is the record of the selected commit of rank k, from its own group |
| ReportCompiler.CompileCommitsOrigin | src/App.tsx:122-134 | every row comes from a selected commit, at that commit's rank, so unselected commits never appear |
| ReportCompiler.RankIncreases | src/App.tsx:122-134 | ranks grow with the group index and then with the position in the group, so the report is ordered by group, then by commit |
| ReportCompiler.ShortShaExample | src/App.tsx:128 | `abcdef1234567890` becomes `abcdef1`, and a three-character sha passes through whole |
| ReportCompiler.CompileCommitsRanks | src/App.tsx:122-134 | for all selected commits and all rows at once: each selected commit is the row at its rank, and each row comes from the selected commit of its rank |
| ReportCompiler.CompileOneCommit | src/App.tsx:122-134 | one group holding one selected commit yields exactly that commit's row |
| ReportCompiler.CompileCommitExample | src/App.tsx:125-131 | the commit `Fix bug (#42)` with sha `1111111aaaa` in `org/a` compiles to (`org/a`, `1111111`, `Fix bug`, 42) |
| ReportCompiler.CompileExample | src/App.tsx:119-136 | one selected commit `Fix bug (#42)` with sha `1111111aaaa` in `org/a` gives the row (`org/a`, `1111111`, `Fix bug`, 42) |

## Left out

- Document generation is not modelled (src/App.tsx:92-117). This covers the Docxtemplater and PizZip rendering, the `prs` field mapping with its constant `hour: 5`, and `saveAs`. These are calls into foreign libraries and file output.
- `handleUploadDocument` and `FileReader` (src/App.tsx:138-151) are browser I/O.
- The date-fns calls `format` and `lastDayOfMonth` (src/App.tsx:41-42, 121) are library date formatting.
  - `CompileData` takes the month formatting as a parameter, `formatMonth`.
  - The first-day and last-day values that feed the commit fetch are not modelled.
  - A date is an integer time value.
- CompileData: it requires a present date. Formatting a `null` date is not modelled, because `data.date!` makes a present date the caller's obligation.
- `setHours` and its `+hours` string-to-number coercion are not modelled, because the coercion is floating-point parsing. `hours` is a `real` that is passed through unchanged.
- `setName`, `setDate` and `setPosition` are not modelled; they are trivial record updates.
- Replacing the commit groups wholesale (`setCommits`) is not modelled; it is plain assignment.
- React hooks (`useState`, `useMemo`, `useCallback`), `console.log`, styled-components and the JSX layout are left out.
- src/Commits/Commits.tsx is not part of this model.
  - Its fetch effect, with the `valid` staleness flag, is asynchronous plumbing around the commit provider.
  - `handleClickCommit` is a two-way dispatch to `selectCommit` and `unselectCommit`.
  - The rest of the file is accordion UI.
- Reference identity is not modelled. Every toggle builds a new array with `map`, even for an unknown id, while the entries it does not change are kept by reference. So each repository toggle yields a new `repos` state, and with it a new `selectedReposFullName` array (src/App.tsx:40), which the commit fetch compares by reference. The model has values only, so "unchanged" here means equal.
- Provider records are reduced to the fields the core reads: `id`, `full_name`, `sha` and `commit.message`.
  - `id` is a string, as the signature of `selectRepo` declares.
  - The model does not capture that a numeric id at run time never passes the strict `===` test against a string.
- Strings are sequences of Unicode scalar values, not UTF-16 code units. `substring(0, 7)` and a regex without the `u` flag count code units, so the two differ only on characters outside the Basic Multilingual Plane.
- Parse: prNum is the exact value of the digit string. JavaScript's unary `+` yields a double, which loses precision above 2^53.
