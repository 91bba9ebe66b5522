# git_tool: a Dafny model of the commit store and its queries

`git_tool.py` builds a list of `Commit` records for a git repository and answers
questions about them. It lists the ids of the non-merge commits, then runs one `git` command
per commit and field (files, author, date, message), then filters, groups and counts the
records.

This project models the part of it that decides what the records contain and what the
queries return:

- `maybe.dfy`: `Option` and `Result`.
- `text.dfy`: the Python string operations the tool relies on, written out:
  - `str.strip()` and `str.strip('"')`, the latter being `chomp_quotes`;
  - `str.split("\n")` and `"\n".join`;
  - `str.lower()` and the substring test.
- `commits.dfy`: the `Commit` record and the one-field assignments the ingestion makes.
- `runner.dfy`: what `run_cmd` does with a process's output:
  - trim it and split it into lines;
  - apply `preprocess_line`, which is one callable or a list of callables;
  - apply `preprocess_whole`;
  - the hooks `chomp_quotes` and `first`.
- `query.dfy`:
  - `iterate_over`, `has_message`, `get_authors`;
  - the predicate builders `whole_year` and `only_authors`;
  - `group_by` and `do_count`, over insertion-ordered dictionaries;
  - the weekly counting in `get_average_count_by_author_in_year`.
- `ingest.dfy`: the uncached branch of `get_or_create_commits`:
  - enumerate the commits;
  - four passes, each an ordered `pool.map` followed by a `zip` that writes result *i* onto commit *i*.

Processes are modelled as parameters. Running a command and decoding its output is a
function `exec` (or `shell`) from the command line to its standard output. The date parser
is a function `parse` from text to a timestamp. The calendar (`toordinal`, `isocalendar`) is
a `Calendar` value.

## Model

| member | source | states |
|---|---|---|
| Commits.WithFiles | git_tool.py:176 | assigning `files` changes that field only, to the given list |
| Commits.WithAuthor | git_tool.py:184 | assigning `author` changes that field only, to the given text |
| Commits.WithCreated | git_tool.py:192 | assigning `created` changes that field only, to the given time |
| Commits.WithMessage | git_tool.py:198 | storing the message changes that field only, to the trimmed newline-join of the lines; the stored text neither starts nor ends with whitespace, and trimming it again changes nothing |
| Text.Strip | git_tool.py:37 | the result is the slice left after removing every leading and trailing character of the stripped class; everything removed is in the class; the result does not start or end with it |
| Text.StripKeeps | git_tool.py:37 | a string that neither starts nor ends with a stripped character is unchanged |
| Text.StripIdempotent | git_tool.py:198 | stripping twice is stripping once |
| Text.ChompQuotesSpec | git_tool.py:37 | `chomp_quotes` leaves no `"` at either end, and is idempotent |
| Text.SplitLines | git_tool.py:124 | `split("\n")` never gives an empty list; no piece holds a newline; joining the pieces with newlines gives the input back |
| Text.SplitLinesPrefix | git_tool.py:124 | a newline-free prefix is glued onto the first piece of the split |
| Text.SplitJoin | git_tool.py:124 | splitting the newline-join of newline-free pieces gives the pieces back |
| Text.Lower | git_tool.py:59 | lowercasing keeps the length |
| Text.LowerIdempotent | git_tool.py:59 | lowercasing twice is lowercasing once |
| Text.ContainsEmpty | git_tool.py:59 | the empty text occurs in every string |
| Query.SelectAll | git_tool.py:51-55 | reference selection in input order, never longer than the input |
| Query.SelectAllMembers | git_tool.py:51-55 | a commit is selected iff it is in the input and passes every callable argument |
| Query.SelectAllSnoc | git_tool.py:51-55 | selecting from `s + [x]` appends `x` exactly when it passes |
| Query.SatisfiesCons | git_tool.py:52 | passing all the arguments is passing the first (when callable) and the rest |
| Query.SelectThenAll | git_tool.py:52-53 | filtering by the first callable and then by the rest is filtering by all of them, order kept |
| Query.SelectAllNoCallable | git_tool.py:52 | non-callable arguments are ignored: with none callable every commit passes, in order |
| Query.IterateOver | git_tool.py:51-55 | `iterate_over` yields exactly the commits that pass every callable argument, in their original order |
| Query.IterateOverNoPredicates | git_tool.py:51-55 | with no callable argument every commit is yielded |
| Query.SelectMentionsCount | git_tool.py:59-60 | the length of the `in_message` selection is the number of commits whose message mentions the search |
| Query.HasMessage | git_tool.py:58-60 | `has_message` counts the commits whose lowercased message contains the lowercased search, and never exceeds the number of commits |
| Query.HasMessageEmptySearch | git_tool.py:58-60 | the empty search counts every commit that has a message |
| Query.HasMessageIgnoresCase | git_tool.py:59 | lowercasing the search first does not change the count |
| Query.GetAuthors | git_tool.py:63-65 | an author is returned iff some commit has that author and it contains the substring; each appears once, being a set element |
| Query.AuthorsBound | git_tool.py:64 | there are never more distinct authors than commits |
| Query.GetAuthorsBound | git_tool.py:63-65 | there are never more matching authors than commits |
| Query.OnlyMatchingAuthors | git_tool.py:42 | a commit passes `only_authors(get_authors(commits, s))` iff its author contains `s` |
| Query.YearLength | git_tool.py:41 | in the proleptic Gregorian ordinal, a year is 366 days for a leap year and 365 otherwise |
| Query.NewYearIncreasing | git_tool.py:41 | later years start on later days |
| Query.YearsDisjoint | git_tool.py:41 | no commit is in the `whole_year` window of two different years |
| Query.Image | git_tool.py:75 | the keys of the elements, one per element, in order |
| Query.ImageSnoc | git_tool.py:75 | the keys of `xs + [x]` are the keys of `xs` followed by `key(x)` |
| Query.FirstSeen | git_tool.py:73-77 | distinct values, exactly those that occur |
| Query.FirstSeenSnoc | git_tool.py:76 | a new key goes to the end and a known one changes nothing |
| Query.FirstIndex | git_tool.py:76 | the position of the first occurrence |
| Query.FirstIndexSnoc | git_tool.py:76 | appending does not move an existing first occurrence |
| Query.FirstSeenOrder | git_tool.py:73-77 | the distinct keys come in the order of their first occurrence |
| Query.GroupOf | git_tool.py:76 | the group of a key holds exactly the elements with that key |
| Query.GroupOfSnoc | git_tool.py:76 | appending an element extends only its own key's group |
| Query.GroupOfAbsent | git_tool.py:76 | a key that no element has has an empty group |
| Query.GroupingSpec | git_tool.py:68-77 | the dictionary's keys are the distinct keys in first-seen order; a key is present iff some element has it; its list is that key's elements, in input order |
| Query.GroupingPlacement | git_tool.py:74-76 | the dictionary is well formed; every element lies in its own key's group; a group holds only elements with its key |
| Query.GroupSizeIsWeight | git_tool.py:76 | the size of a group is the number of elements with that key |
| Query.GroupSizesSum | git_tool.py:73-77 | the group sizes add up to the number of elements |
| Query.TotalSnoc | git_tool.py:83 | a sum over `xs + [x]` adds the weight of `x` |
| Query.WeightSnoc | git_tool.py:83 | a key's weight over `xs + [x]` grows by the weight of `x` when `x` has that key |
| Query.TotalExt | git_tool.py:83 | sums of pointwise-equal weights are equal |
| Query.TotalUnit | git_tool.py:76 | summing one per element counts the elements |
| Query.WeightAbsent | git_tool.py:83 | a key that no element has has weight zero |
| Query.TotalOfWeightsSnoc | git_tool.py:83 | summing the per-key weights over `xs + [x]` adds `w(x)` when `key(x)` is among the keys summed |
| Query.PartitionTotal | git_tool.py:80-84 | summing each distinct key's weight gives the total weight |
| Query.PartitionStep | git_tool.py:80-84 | the partition sum carries over from `xs` to `xs + [x]` |
| Query.NewKeyTotal | git_tool.py:83 | a key that first appears with `x` contributes exactly `w(x)` |
| Query.GroupBy | git_tool.py:68-77 | `prop` takes precedence over `fn`; either one gives that key's grouping; with neither, an empty input gives an empty dictionary and any other fails |
| Query.TallySpec | git_tool.py:81-83 | the counter's keys are the transformed keys in first-seen order; each holds the sum of the sizes of the groups mapped to it, so colliding keys add up |
| Query.TallyStep | git_tool.py:83 | one `counter.update` keeps that description true |
| Query.TallyKeysStep | git_tool.py:83 | after one `counter.update` the keys are still in first-seen order and present exactly when seen |
| Query.TallyValuesStep | git_tool.py:83 | after one `counter.update` every count is still the summed weight of its key |
| Query.DoCount | git_tool.py:80-84 | `do_count` returns the counter defined by that tally over the dictionary's keys in order |
| Query.CountingTotal | git_tool.py:80-84 | the counts add up to the total size of the groups, whatever `fn` does |
| Query.WeightSingle | git_tool.py:83 | a key that shares its image with no other key has only its own weight |
| Query.CountingInjective | git_tool.py:83 | when `fn` is one-to-one on the keys, each key's count is its group's length |
| Query.CountingIdentity | git_tool.py:80 | with the default `fn`, each key counts its group's length |
| Query.ImageId | git_tool.py:80 | the identity leaves the keys as they are |
| Query.CountGrouping | git_tool.py:105-110 | counting a grouping: the counts add up to the number of elements; there is a count iff there is an element; the keys present are the elements' keys; each count is the number of elements with that key |
| Query.WeeklyCounts | git_tool.py:94-110 | the weekly counts of the year's matching commits add up to the number of those commits; some week is present iff some commit matches; the weeks are those of the matching commits; each week counts its own commits |
| Runner.Lines | git_tool.py:124 | the output lines are never an empty list; no line holds a newline; the lines joined give back the trimmed output |
| Runner.BlankOutputOneLine | git_tool.py:124 | blank output yields the single empty line |
| Runner.LinesOfJoin | git_tool.py:124 | trimmed newline-joined lines are found again |
| Runner.Texts | git_tool.py:124 | one string value per line, in order |
| Runner.MapAll | git_tool.py:126 | `list(map(f, out))`, and the ordered `pool.map`: one result per element, element *i* being `f(out[i])` |
| Runner.Callables | git_tool.py:127 | a list that holds only callables, element for element |
| Runner.ApplyAllSnoc | git_tool.py:128-129 | one more transform in the list is applied last |
| Runner.ApplyAllConcat | git_tool.py:128-129 | applying a concatenated list is applying the second list to the first's result |
| Runner.RunCmd | git_tool.py:116-132 | mapping each transform of the list in turn equals mapping the composition of the list once; `preprocess_whole` is applied last and only when given |
| Runner.OutputShape | git_tool.py:130-132 | the processed list has one element per line; without `preprocess_whole` it is returned as is, with it the list is what it receives |
| Runner.ChainOfOne | git_tool.py:125-129 | a list with one callable acts as that callable alone |
| Runner.ChainOfTwo | git_tool.py:188 | a list of two callables sends each line through the first and then the second |
| Runner.ChainNotCallable | git_tool.py:127 | one non-callable element disables the whole list |
| Runner.ChainSplit | git_tool.py:128-129 | splitting a transform list into two consecutive lists gives the same lines |
| Runner.ChompLine | git_tool.py:37 | on a string, the line hook is `chomp_quotes` |
| Runner.First | git_tool.py:38 | `first` gives element 0 of a non-empty list, and any other argument unchanged |
| Runner.FirstOfOutput | git_tool.py:181 | since the split output is never empty, `first` always picks the first processed line |
| Ingest.ChompEach | git_tool.py:163 | one chomped line per line, in order |
| Ingest.ChompedLines | git_tool.py:163 | one chomped line per output line |
| Ingest.ChompedLinesRunCmd | git_tool.py:161-164 | `run_cmd` with `chomp_quotes` returns the chomped lines |
| Ingest.FetchFilesRunCmd | git_tool.py:171-174 | the files pass receives the `git diff-tree` lines unprocessed, never fewer than one |
| Ingest.FetchAuthorRunCmd | git_tool.py:179-182 | the author pass receives the first chomped line of `git show --format="%ae"` |
| Ingest.FetchCreatedRunCmd | git_tool.py:187-190 | the date pass receives that first line, chomped and then parsed |
| Ingest.FetchMessageLinesRunCmd | git_tool.py:195-196 | the message pass receives the chomped lines of `git show --format="%B"` |
| Ingest.ChompedBlank | git_tool.py:124 | blank output gives the one empty chomped line |
| Ingest.EnumeratedIds | git_tool.py:161-164 | the enumeration as written: never an empty list of ids |
| Ingest.EmptyHistoryPhantomCommit | git_tool.py:161-166 | as written, blank `git log` output (no output at all included) yields the id list `[""]` and a commit with an empty id |
| Ingest.NonEmpty | git_tool.py:165 | never longer than the input, and no retained id is empty |
| Ingest.NonEmptyMembers | git_tool.py:165 | an id is retained iff it occurs and is not empty |
| Ingest.NonEmptyKeeps | git_tool.py:165 | ids that are all non-empty are retained unchanged |
| Ingest.NonEmptyOfEmptyId | git_tool.py:165 | the single empty id is dropped |
| Ingest.EmptyHistoryNoCommit | git_tool.py:161-166 | corrected: blank `git log` output yields no commit |
| Ingest.CommitIdsAsWritten | git_tool.py:161-166 | when `git log` lists no empty id, the correction changes nothing |
| Ingest.QuoteChomp | git_tool.py:24 | `chomp_quotes` recovers an id from its quoted `%h` form |
| Ingest.Quoted | git_tool.py:24 | each id in quotes, in order |
| Ingest.ListingLines | git_tool.py:124 | the lines of a non-empty `git log` listing are the quoted ids |
| Ingest.JoinEnds | git_tool.py:124 | a join of quoted lines starts and ends with a quote, so trimming whitespace leaves it unchanged |
| Ingest.ChompQuoted | git_tool.py:163 | chomping the quoted ids gives the ids back |
| Ingest.EnumeratedListing | git_tool.py:161-164 | enumerating a non-empty listing finds exactly its ids, in order |
| Ingest.CommitIdsRoundTrip | git_tool.py:161-166 | for any list of usable ids, including the empty list, enumerating its `git log` listing finds exactly those ids in order |
| Ingest.Merge | git_tool.py:175-176 | the `zip` loop gives commit *i* result *i* where there is one, leaves the rest unchanged, and keeps the number and order of commits |
| Ingest.IngestedFields | git_tool.py:170-198 | an ingested commit keeps its id, holds each command's output for that id, stores the trimmed join of the chomped message lines, and has every optional field set |
| Ingest.CreateCommits | git_tool.py:165-166 | the loop as written: one fresh `Commit(cid=...)` per listed line, the empty one included, in order |
| Ingest.EnumerateCommits | git_tool.py:161-166 | the enumeration as written: one fresh commit per enumerated id, in `git log` order |
| Ingest.SkipEmptyIds | git_tool.py:165-166 | corrected: of the fresh commits, exactly those whose id is not empty, in order |
| Ingest.EnumerateNonEmpty | git_tool.py:161-166 | corrected enumeration: one fresh commit per non-empty id `git log` lists, in order |
| Ingest.AssignFiles | git_tool.py:170-176 | each commit gets the files listed for its own id, and nothing else changes |
| Ingest.AssignAuthors | git_tool.py:178-184 | each commit gets the author for its own id, and nothing else changes |
| Ingest.AssignCreated | git_tool.py:186-192 | each commit gets the parsed date for its own id, and nothing else changes |
| Ingest.AssignMessages | git_tool.py:194-198 | each commit gets the trimmed newline-join of its own message lines, and nothing else changes |
| Ingest.PassesCompose | git_tool.py:170-198 | four successive commits, each differing from the one before only in the field its pass assigns, equal the fresh commit with the four assignments applied in order |
| Ingest.RunPasses | git_tool.py:170-198 | after the four passes over fresh commits, each commit equals the reference ingested commit for its own id, with every optional field set |
| Ingest.BuildCommitsAsWritten | git_tool.py:152-203 | as written: one commit per enumerated id, the empty one included, in `git log` order, each equal to the reference ingested commit for its id |
| Ingest.BuildCommits | git_tool.py:152-203 | corrected: one commit per non-empty listed id, in `git log` order, each equal to the reference ingested commit for its id, with its id and every optional field set |

## Left out

- Running processes: `Popen`, `communicate` and `decode` are the parameter `exec`/`shell`. `cmd.split()` into an argument vector is not modelled; the command line is passed whole and the commands are built as strings.
- Exit status: `run_cmd` never looks at the exit status or at standard error, and neither does the model. A failing command simply yields whatever it printed.
- Worker pool: `ProcessingPool` with `CPU_COUNT` nodes is modelled by its result, an ordered map over the commits (`Runner.MapAll`). Concurrency is not modelled.
- Cache: `pickle`, `dill`, `os.remove`, `os.path.isfile`, the `force` flag, the cached branch of `get_or_create_commits`, and the `inside_custom_directory` change of working directory are I/O. They are not modelled.
- `dateutil.parser.parse` is the parameter `parse`, a total function. Its parse errors are not modelled, including the one `parse("")` raises for the empty id of an empty history (see Findings).
- Calendar: `datetime`, `date.toordinal` and `isocalendar()` are the abstract `Calendar` value. Only the proleptic Gregorian new-year ordinal is written out (`Query.NewYearOrdinal`).
- Output of `get_average_count_by_author_in_year`: `mean`, its `int` truncation and the printing are left out. `Query.WeeklyCounts` stops at the counts that are averaged.
- `main`, `display` and `show_top_n_commits` are reporting code; they are not modelled.
- Text.LowerChar: `str.lower()` is modelled on ASCII letters only; Unicode case mapping is not modelled.
- Runner.ChompLine: on a value that is not a string, the source raises. The model returns the value unchanged, and that branch is never reached by the ingestion.
- Runner.ParseLine: as for `ChompLine`, a value that is not a string is returned unchanged where the source raises.
- Query.Mentions: a commit whose message is unset makes the source raise. The model's predicate is false for it.
- Query.InYear: the same holds for a commit whose creation time is unset. `date(year, 1, 1)` raises `ValueError` for a year outside 1..9999, and `date(year + 1, 1, 1)` for 9999; the model accepts every integer year.
- Query.OnlyAuthors: agrees with the source for a commit whose author is unset: `author == None` is false for every listed author, so the commit does not pass.
- Query.GetAuthors: returns a set. The source returns a list in set-iteration order, which Python does not specify, so the model does not state an order. A commit whose author is unset puts `None` into the source's set, and `substring in None` then raises `TypeError`; the model skips such a commit instead.
- Query.GroupBy: `prop` is modelled by the accessor function that `getattr(c, prop)` stands for. A missing attribute, which would raise, is not modelled.
- Query.WeekKey: the key of a commit without a creation time is 0 where the source raises; `WeeklyCounts` only groups commits that passed `whole_year`, which requires the time.
- Commit objects are values. Python aliasing is not modelled, but nothing in the source holds a second reference to a commit while it is updated.
- Exceptions raised by user-supplied callables (`iterate_over` arguments, `group_by`'s `fn`, the `run_cmd` hooks) are not modelled; the callables are total functions.
- Empty diffs: a commit whose `git diff-tree` prints nothing gets `files == [""]`, since the split never gives an empty list. `Ingest.FetchFilesRunCmd` states this; `main` filters the empty name out later.
- Ingest.BuildCommits: drops the empty id that the source keeps, as the correction in Findings; the code as written is `Ingest.BuildCommitsAsWritten`.
- Ingest.MessageCommand: the message text is whatever `git show` prints. How git formats the body is not modelled.

## Findings

| source | as written | input that shows it | evidently intended | confidence | as-written member | corrected member |
|---|---|---|---|---|---|---|
| git_tool.py:161-166 | the output of `git log` is trimmed and split on newlines. Blank output splits to `[""]`, so the loop creates one `Commit` with an empty `cid`. The files and author passes then run `git` for that empty id; the date pass hands the empty line to `dateutil.parser.parse`, which raises, so the run ends there, before the message pass and before the cache is written. The model's `parse` is total, so it shows the phantom commit but not that exception | a repository with no non-merge commits, where `git log --pretty=format:"%h" --no-merges` prints nothing | an empty history gives an empty list of commits | not executed | Ingest.EmptyHistoryPhantomCommit | Ingest.EmptyHistoryNoCommit |

The code as written is `Ingest.CreateCommits`, `Ingest.EnumerateCommits` and
`Ingest.BuildCommitsAsWritten`, over `Ingest.EnumeratedIds`. The corrected enumeration
(`Ingest.CommitIds`, built by `Ingest.SkipEmptyIds` and `Ingest.EnumerateNonEmpty` on top of
the as-written one) skips the empty id. `Ingest.CommitIdsAsWritten` shows that it agrees with
the code as written whenever `git log` lists no empty id, and `Ingest.CommitIdsRoundTrip`
shows that it recovers every listed history. `Ingest.BuildCommits` uses it.
