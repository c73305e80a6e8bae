# commitment-recovery, modelled in Dafny

`commitment-recovery.py` copies the shape of a repository's history into a new
repository. It reads every commit reachable from the source repository's
current branch (newest first, as GitPython's `iter_commits` yields them), keeps
the commits whose author e-mail is in a filter list, and replays them oldest
first in a freshly created target repository. Each replayed commit appends its
message and a blank line to `README.md`, stages the working tree and commits
with the source commit's authored date. The message is either the formatted
date alone (`--hide_message`) or the formatted date, the original message,
and a `source: <hash>` line.

The model has five modules:

- `Wrappers` (`wrappers.dfy`): `Option`.
- `Strftime` (`strftime.dfy`): a validated `DateTime`, including its UTC
  offset. Also `Format`, which is `datetime.strftime` for patterns built from
  the six directives the tool uses, and `Scan`, which reads a formatted string
  back. `ScanFormat` shows that `Scan` undoes `Format`.
- `PyStr` (`pystr.dfy`): Python's `str.strip()` over Python's whitespace set,
  and `str.split(sep)` together with its inverse `Join`.
- `CommitmentRecovery` (`recovery.dfy`): the tool itself. It defines the
  commit records and the filter list, the target name, the messages and the
  `--date` argument. The target repository is a `Repository` object whose
  `README.md` content and commit log are updated by `GitCommit`. The read loop
  is `ReadHistory`, the replay loop is `ReplayHistory`, and `main` is
  `Recover`. Each loop is proved against a pure specification (`Records`,
  `Replay`, `Recovery`).
- `RecoveryProperties` (`properties.dfy`): what a run produces. The commits
  kept by the filter (`Kept`) are stated independently. The lemmas prove that
  the replay writes exactly those commits, in reverse read order, with their
  dates, and builds `README.md` from their messages. Parsers show that a full
  message and a `--date` argument can be read back. Hidden-message runs depend
  on the dates alone.

The outside world is the `Environment` value. It holds:

- what opening the source path gives (no such path, not a repository, or the
  commit history);
- the output of `git config user.email`, or nothing when that command fails;
- the current time;
- the set of paths that already exist.

`Recover` returns an `Outcome`. `SourceMissing` and `ConfigUnavailable` are the
two cases the program reports and returns from. `InvalidRepository`,
`UnbornHead` and `TargetExists` are exceptions the program does not catch.
`Recovered` is the finished run.

Four behaviours of the program the model keeps:

- Only a non-existent source path is reported and returned from. A path that
  exists but is not a repository raises from `git.Repo` uncaught
  (`InvalidRepository`).
- A repository without commits has an unborn `HEAD`. `iter_commits` raises
  `ValueError` for it, uncaught, before the filter list is resolved and
  before the target is created (`UnbornHead`). The model represents such a
  repository by an empty history.
- `README.md` receives the message and an empty line per commit. A full
  message itself spans several lines.
- The `--date` value is formatted without the UTC offset, and it includes the
  literal double quotes of the pattern. `DateArgumentIgnoresOffset` shows that
  two source dates that differ only in their offset give the same argument.

## Model

| member | source | states |
|---|---|---|
| `CommitmentRecovery.ReadHistory` | commitment-recovery.py:26-33 | One record per commit, in traversal order. Each record has the commit's authored date, its stripped message, its author e-mail and its hexsha. |
| `PyStr.Strip` | commitment-recovery.py:30 | The result is a contiguous middle part of the input. Everything cut off on either side is whitespace. The result is empty or neither starts nor ends with whitespace. |
| `PyStr.Split` | commitment-recovery.py:38 | `s.split(sep)` yields one more piece than `s` has separators, and no piece contains the separator. |
| `PyStr.JoinSplit` | commitment-recovery.py:38 | Joining the pieces of a split with the separator gives back the original string, so nothing is trimmed or dropped. |
| `PyStr.SplitJoin` | commitment-recovery.py:38 | Splitting a join of separator-free pieces gives back exactly those pieces. |
| `CommitmentRecovery.EmailFilters` | commitment-recovery.py:36-46 | There is no filter list exactly when no explicit list was given and `git config` failed. An explicit list is split on ',', and its pieces join back to the argument. Otherwise the list is the single stripped configured address. |
| `CommitmentRecovery.TargetDirectory` | commitment-recovery.py:50-54 | An explicit target is used verbatim. Otherwise the name is the source path, then `-commitment-recovery-`, then a 19-character stamp that reads back to the current year, month, day, hour, minute and second. |
| `Strftime.ScanFormat` | commitment-recovery.py:54 | Reading a date formatted with any of the tool's patterns gives back the values of the fields the pattern shows. |
| `Strftime.FormatLength` | commitment-recovery.py:65 | `Format`, the model of `strftime`: a formatted date has the pattern's fixed width, whatever the date. |
| `Strftime.FormatAppend` | commitment-recovery.py:78 | `Format` of a pattern made of two parts is the two parts formatted in turn, so literal text at either end of a pattern appears verbatim at that end of the output. |
| `Strftime.FormatAlphabet` | commitment-recovery.py:65 | Every character of a formatted date is a digit or a literal character of the pattern. |
| `Strftime.FormatDeterminesFields` | commitment-recovery.py:78 | Two dates that format alike agree on every field the pattern shows. |
| `Strftime.FormatIgnoresOtherFields` | commitment-recovery.py:78 | Fields the pattern does not show, the UTC offset included, do not change the output. |
| `Strftime.DecimalRoundTrip` | commitment-recovery.py:54 | A zero-padded decimal field reads back to its value. |
| `CommitmentRecovery.Repository.constructor` | commitment-recovery.py:56-59 | The freshly initialised target has an empty `README.md` and no commits. |
| `CommitmentRecovery.Repository.GitCommit` | commitment-recovery.py:74-78 | `README.md` becomes its old content plus the message and `"\n\n"`, so the old content stays a prefix. Exactly one commit is appended. It carries the message, the `--date` string of the given date, and the new `README.md` as its tree. |
| `RecoveryProperties.AfterCommitKeepsHistory` | commitment-recovery.py:74-78 | `AfterCommit`, the effect of `git_commit`, only adds. The old `README.md` stays a prefix and grows by exactly the message and a blank line. The old commits stay, and one commit is added with the message, the `--date` of the given date and the new `README.md`. |
| `CommitmentRecovery.Reversed` | commitment-recovery.py:63 | `reversed(s)` has the same length as `s`, and its k-th element is `s`'s k-th from the end. |
| `CommitmentRecovery.ReplayHistory` | commitment-recovery.py:63-71 | After the loop, the repository is in the state `Replay` gives. `Replay` visits `reversed(commits_list)`, computes each message and commits only records whose e-mail is in the filter list. |
| `CommitmentRecovery.Recover` | commitment-recovery.py:11-71 | `main` ends with the outcome `Recovery` specifies, in the source's order of checks. It returns early for a missing path or a failing `git config`. It stops uncaught for an invalid repository, a repository without commits, or an existing target. Otherwise it gives the target and filter list with the replayed repository. |
| `RecoveryProperties.KeptReversed` | commitment-recovery.py:63 | Filtering commutes with reversal: the records the replay commits, in replay order, are the reverse of the matching records in read order. |
| `RecoveryProperties.KeptMultiset` | commitment-recovery.py:70-71 | A record is committed as often as it occurs if its e-mail is an exact member of the filter list, and never otherwise. |
| `RecoveryProperties.KeptAt` | commitment-recovery.py:70-71 | Every committed record is one of the input records, and its e-mail is in the filter list. |
| `RecoveryProperties.KeptCount` | commitment-recovery.py:63-71 | The number of committed records equals the number of positions in the history whose e-mail is in the filter list. |
| `RecoveryProperties.ReadmeOfAppend` | commitment-recovery.py:75-76 | Appending the messages of two runs one after the other writes the concatenation of their `README.md` contents. |
| `RecoveryProperties.EmittedAt` | commitment-recovery.py:71-78 | The k-th commit made for a list of records carries that record's message and `--date`. Its tree's `README.md` holds the first k+1 messages. |
| `RecoveryProperties.EmittedChain` | commitment-recovery.py:75-76 | Each commit's `README.md` is the previous commit's plus its own message and a blank line. It is a prefix of the final `README.md`. |
| `RecoveryProperties.ReplayClosedForm` | commitment-recovery.py:63-78 | Replaying any list onto any state appends the messages of exactly the kept records to `README.md`, in order, and appends their commits to the log. Earlier content and commits are untouched. Records that do not match change nothing. |
| `RecoveryProperties.RecoveredRun` | commitment-recovery.py:26-71 | A completed run's log is the commits of the matching records in reverse read order (oldest first). Its `README.md` is their messages in that order. Its commit count is the number of matching records. |
| `RecoveryProperties.RecoveredCommit` | commitment-recovery.py:63-78 | The k-th commit of a run replays a record whose e-mail matches. It carries that record's message and a `--date` made from that record's date, and it extends the previous commit's `README.md` by its message. |
| `RecoveryProperties.DateArgumentDeterminesDate` | commitment-recovery.py:78 | Equal `--date` arguments come from source dates with equal year, month, day, hour, minute and second, so a commit's date is its record's date to the second. |
| `RecoveryProperties.DateArgumentQuoted` | commitment-recovery.py:78 | `DateArgument`, the value passed to `--date`: 21 characters, the first and last being literal double quotes. |
| `RecoveryProperties.DateArgumentIgnoresOffset` | commitment-recovery.py:78 | The source date's UTC offset does not reach `git commit --date`. |
| `RecoveryProperties.MessageLayout` | commitment-recovery.py:64-68 | `Message`, the message builder: every message starts with the commit's authored date in the mode's pattern, and a full message ends with `"\nsource: "` and the commit's hash. |
| `RecoveryProperties.MessageRoundTrip` | commitment-recovery.py:66-68 | A full message is the date prefix, then the stripped original message, then `"\nsource: "` and the hash. All three can be read back from it. |
| `RecoveryProperties.HiddenMessageShape` | commitment-recovery.py:64-65 | A hidden message is the formatted date alone. It contains only digits, '/', ' ' and ':', so never a line break. |
| `RecoveryProperties.HiddenMessageWidth` | commitment-recovery.py:65 | Every hidden message has the same length, 19 characters. |
| `RecoveryProperties.HiddenRecoveryDependsOnlyOnDates` | commitment-recovery.py:63-71 | With `--hide_message`, two histories whose matching commits have the same dates produce the same run, provided both have commits or neither does. No source message or hash can reach the target. |
| `RecoveryProperties.HiddenReadme` | commitment-recovery.py:64-76 | With `--hide_message`, `README.md` holds only digits, '/', ' ', ':' and line breaks. |

## Left out

- Argument parsing with argparse (commitment-recovery.py:80-99) is not modelled. `Args` is the parsed result.
- `to_wsl` and `run` come from `utils`, and `utils` is not part of this model. `Args.source` is the path after conversion.
- GitPython is not modelled. Opening the repository and `iter_commits` are the `SourceRepo` input. Its traversal order is taken as given, and every exception of `git.Repo` other than `NoSuchPathError` becomes `InvalidRepository`.
- Decoding commit messages or the `git config` output (bytes to text) is not modelled; both arrive as text.
- `print` calls (commitment-recovery.py:23, 43, 45) are left out; they only report.
- `os.mkdir` failures other than an existing path are not modelled, for example a missing parent or a permission error. The `git init` branch name is not recorded.
- Failures of `git add` or `git commit` part-way through a run are not modelled. The source would stop with the commits made so far.
- Git's own clean-up of commit messages is not modelled. The log records each message exactly as passed to `git commit -m`.
- `README.md` is opened in append mode and is created on first write. The model starts from empty content and does not tell an absent file from an empty one.
- `strftime` covers only `%Y %m %d %H %M %S` and literal text. Years are zero-padded to four digits as Python documents; some C libraries do not pad years below 1000.
- `DateTime` does not model microseconds, which none of the tool's patterns show.
- `MessageRoundTrip` requires a hash with no line break. GitPython's hexsha is hexadecimal and always meets this.
