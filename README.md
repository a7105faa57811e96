# command saver, modelled in Dafny

`cs` is a command-line tool that bookmarks shell commands. It finds the most
recent real command in the user's bash or zsh history, or takes one given with
`-y`. It stores the command with a description and a timestamp in the SQLite
table `command_history`. It can list the table, list the last seven days
grouped by day, delete a record by id, and export or import the table as JSON.

This project models the two parts of `main.go` that carry real logic and
proves properties about them:

- **Last-command capture** (`History`, in `history.dfy`). The history flavour
  is chosen from `$SHELL`. The history file's lines are scanned newest first.
  Blank lines are skipped, zsh metadata is stripped and the tool's own
  invocations are dropped. The first word of a surviving line must exist on
  disk or be found by `which`. A line that fails does not stop the scan. The
  scan is a spec function `LastValid`. The backward loop (`ScanLines`, whose
  body is `CheckLine`) is proved equal to it. Everything the program asks the operating system is a
  field of `Env`: the platform, `$SHELL`, the home and working directories,
  file contents, `os.Stat` and `which`.
- **Command store** (`Store`, in `store.dfy`). The table is a sequence of
  records in rowid order plus the AUTOINCREMENT counter. The class
  `CommandStore` holds both and updates them in place through `SaveCommand`,
  `DeleteCommand` and `ImportFromJson`. Each method is tied to a pure function
  on the `Table` value (`Insert`, `Delete`, `ImportAll`), and the lemmas are
  about those functions. `List` orders records newest first. `ListCommandsByDay`
  builds the fixed seven-day window, and the function `ByDay` specifies it.
- **Argument handling** (`Cli`, in `cli.dfy`). `ParseArgs` models main's
  dispatch over the arguments after the program name. It covers the `-rm` id
  check (a model of `fmt.Sscanf("%d")` into a 64-bit int) and the `-y`
  trimming. `SaveLastCommand` models the default verb: capture, then save.
- `Text` (`text.dfy`) holds the Go `strings` operations the code uses. Strings
  are sequences of runes, and white space is Go's `unicode.IsSpace` set.
  `Wrappers` holds `Option`.

Behaviour of the code worth knowing:

- Only the default verb refuses an empty capture (`SaveLastCommand`). `-y`
  stores whatever remains after trimming, so `cs -y '""'` stores an empty
  command.
- A description becomes `"default"` only when no description arguments are
  given at all. `cs ""` passes one empty argument, so it stores an empty
  description.
- Import inserts only `command`, `description` and `created_at`. Every
  imported record gets a fresh id; the id in the file is not reused.
- History is read from the history file itself; the shell's own history
  command is never called. Only the three prefixes `./cs`, `cs ` and
  `go run main.go` count as self-invocations. `./cs` also matches commands
  such as `./csv_tool`, and a bare `cs` line (the tool run without arguments)
  is not filtered.

Also modelled:

- Insert fails in two cases. One is an engine error, which is a `fault`
  parameter. The other is a table that has already handed out the largest
  rowid, 2^63-1: under AUTOINCREMENT, SQLite then refuses new rows. A failed
  insert changes nothing.
- `fmt.Sscanf("%d")` stops at the first rune after the digits and ignores the
  rest, so `cs -rm 7abc` deletes record 7. A leading `+` is accepted; `-rm 0`,
  a negative id and an id past 2^63-1 are refused.
- Timestamps are whole seconds of local time. `date(created_at)` is
  `createdAt / 86400`, and the time of day is `createdAt % 86400`.

## Model

| member | source | states |
|---|---|---|
| Text.TrimBy | main.go:139 | the result is the slice of the input left after dropping the runes the predicate matches from both ends; it is empty exactly when every rune matches, and otherwise neither end rune matches |
| Text.TrimByIdempotent | main.go:61-64 | trimming twice with the same predicate gives what trimming once gives |
| Text.TrimSpace | main.go:139 | the trimmed string has no white space at either end |
| Text.TrimSpaceOfTrimmed | main.go:63-64 | strings.TrimSpace returns a string that has no white space at either end unchanged |
| Text.TrimQuotes | main.go:569-570 | after strings.Trim with the quote set, neither end rune is a `"` or a `'` |
| Text.IndexOf | main.go:147-148 | the result is the first position where the pattern occurs; None means it occurs nowhere |
| Text.IndexOfFirst | main.go:147-148 | the position strings.Index returns is the first occurrence, and it returns nothing exactly when the pattern occurs nowhere |
| Text.NoEarlierOccurrence | main.go:147-148 | a pattern whose last rune does not occur in a prefix cannot start early enough to end within that prefix |
| Text.Contains | main.go:104-108 | strings.Contains: the pattern occurs somewhere, that is IndexOf finds it |
| Text.ContainsRune | main.go:147-152 | containing a one-rune pattern is the same as holding that rune |
| Text.HasPrefix | main.go:161-164 | strings.HasPrefix: the string starts with the prefix |
| Text.FirstField | main.go:169-175 | the first field has no white space, comes right after the leading white space, is followed by white space or the end, and is empty exactly when the line is all white space |
| Text.Split | main.go:131 | strings.Split always yields at least one line, and no line holds the separator |
| Text.Join | main.go:565 | strings.Join of the arguments: the parts with the separator between each neighbouring pair; JoinSplit and SplitJoin prove it inverse to Split |
| Text.JoinSplit | main.go:131 | joining the lines of a split with "\n" gives back the file contents |
| Text.SplitJoin | main.go:131 | splitting a join of newline-free lines gives back the lines |
| History.ChooseShell | main.go:88-115 | windows yields no capture; an empty $SHELL yields NoShell; a shell naming zsh selects zsh (zsh wins over bash); otherwise one naming bash selects bash; anything else is UnsupportedShell |
| History.HistoryPath | main.go:104-111 | the history file is `.zsh_history` or `.bash_history` inside the home directory: the path starts with the home directory, ends with that file name, and is home + "/" + name when the home is known |
| History.StripZshMeta | main.go:145-158 | the zsh clean-up of a line without white space at its ends leaves none at the ends of its result |
| History.StripAfterMarker | main.go:146-150 | a line holding ":0;" becomes the trimmed text after its first ":0;" |
| History.StripAfterSemicolon | main.go:151-156 | a line without ":0;" but holding ";" becomes the trimmed text after its first ";" |
| History.StripLeavesPlain | main.go:145-158 | a line holding neither ":0;" nor ";" is left unchanged |
| History.IsSelfInvocation | main.go:161-164 | the self filter: a line is the tool's own invocation when it starts with `./cs`, `cs ` or `go run main.go` |
| History.SelfInvocationForms | main.go:161-164 | every line starting with one of the three prefixes is filtered, whatever follows; a bare `cs` is not |
| History.ZshExtendedLine | main.go:146-150 | an extended-history line ": START:0;COMMAND", with no ";" in START, becomes COMMAND trimmed; so ": 1700000000:0;ls -la" becomes "ls -la" |
| History.ZshExtendedLineCaptured | main.go:145-202 | when the newest zsh line is an extended-history entry whose command is trimmed, no self-invocation and passes its existence check, that command is what the scan returns |
| History.Candidate | main.go:139-166 | a surviving line is non-empty, has no white space at either end and is no self-invocation; a blank line never survives; a bash line survives exactly when its trim is non-empty and no self-invocation, and then as that trim (it is never split); a zsh line survives exactly when its stripped trim is non-empty and no self-invocation, and then as that stripped trim |
| History.ProbeFor | main.go:175-199 | a word without "/" goes to `which`; a word holding "/" goes to os.Stat unchanged, except that a leading "./" resolves to the working directory joined with the word minus its first two runes, and skips the line when the working directory is unknown |
| History.Passes | main.go:189-198 | a line survives the existence check when os.Stat of its path succeeds or `which` of its name succeeds; without a working directory it does not |
| History.CommandExists | main.go:175-199 | the existence check that the loop runs on a command word gives exactly the verdict of the probe ProbeFor chooses |
| History.CheckLine | main.go:139-202 | one pass of the loop body returns exactly the line Pick selects, or nothing |
| History.Pick | main.go:139-199 | a line is picked exactly when it is a candidate whose first word passes its existence check |
| History.Newest | main.go:138-206 | the backward scan with a pluggable test: the result of the newest line the test accepts, "" when it accepts none; NewestIsNewest and NewestEmpty state this |
| History.NewestIsNewest | main.go:138-203 | a non-empty scan result is the pick of some line, and no newer line has a pick |
| History.NewestEmpty | main.go:138-206 | the scan returns "" exactly when no line has a pick |
| History.NewestSkipsFailure | main.go:190-198 | a newer line that fails its check does not change what the older lines yield |
| History.LastValid | main.go:138-206 | the scan of getLastCommand: Newest with Pick as the test |
| History.LastValidIsClean | main.go:160-202 | a non-empty result has no white space at either end, is no self-invocation, and its first word passed its existence check |
| History.LastValidIsNewest | main.go:138-203 | the result is the normalised form of the highest-index line that survives every test |
| History.LastValidEmpty | main.go:204-206 | "" is returned exactly when no line survives |
| History.ScanLines | main.go:138-206 | the backward loop over the lines, newest first, stopping at the first line that passes, returns exactly the scan of the lines |
| History.ScanHistory | main.go:138-206 | the scan of the history lines returns exactly LastValid of the lines |
| History.LastCommand | main.go:86-207 | getLastCommand as a function of the environment; whatever non-empty command it returns is trimmed, no self-invocation, and its first word passed its existence check |
| History.GetLastCommand | main.go:86-207 | returns LastCommand: the scan of the chosen shell's history file, or "" when capture is impossible or the file is missing or unreadable |
| History.LastCommandNeedsHistory | main.go:88-128 | a command is found only on a platform other than windows, with a shell naming zsh or bash, through a readable history file |
| History.LastValidOfTwo | main.go:138-206 | a two-line history yields the newer line when it passes, otherwise the older line when it passes, otherwise "" |
| History.SelfInvocationFallsBack | main.go:161-166 | a bash history whose newest line is one of the tool's own invocations yields what the line before it yields |
| Store.Insert | main.go:66-77 | a successful insert appends exactly one record with the given fields and an id one past the counter, distinct from every existing id, and keeps the table valid (ids positive, increasing, at most the counter); it fails exactly on an engine error or an exhausted counter, and then changes nothing |
| Store.InsertedIsListed | main.go:209-214 | a saved record appears in the listing with its fields and a fresh id |
| Store.HasId | main.go:363 | the existence check is true exactly when some row has the id |
| Store.Without | main.go:375 | the DELETE keeps the rows whose id differs, so it never lengthens the table; WithoutUnique and WithoutAbsent say exactly which rows remain |
| Store.Delete | main.go:360-384 | deleteCommand deletes exactly when some row has the id; when none has, the table is unchanged; the counter is kept and no row is added |
| Store.DeleteExact | main.go:360-384 | deleting an absent id leaves the table unchanged; deleting a present id removes exactly that record and keeps the other records in order; the counter is never lowered and the table stays valid |
| Store.ImportAll | main.go:488-497 | the success count is at most the number of records and equals the number of rows appended; existing rows are unchanged and the table stays valid |
| Store.ImportAllAppendsKept | main.go:479-497 | while ids remain, import appends exactly the records whose insert did not fail, in file order, each with its own command, description and created_at and a fresh consecutive id, and counts exactly those |
| Store.KeptAll | main.go:490-497 | when no insert fails, every record is imported |
| Store.InsertByTimeOrdered | main.go:213 | inserting a record into a newest-first list keeps it newest first |
| Store.NewestFirst | main.go:210-214 | the listing is ordered by created_at, newest first, and is a permutation of the table's rows |
| Store.Display | main.go:305-307 | an empty description is shown as "-", and any other is shown unchanged |
| Store.DayOf | main.go:259 | date(created_at) is the day whose 86400 seconds contain the timestamp |
| Store.ClockOf | main.go:309-314 | the time of day is in [0, 86400), and the day and the time of day together give back the timestamp |
| Store.LineOf | main.go:300-312 | a printed row carries the record's id, its time of day, its command and its displayed description |
| Store.ByDay | main.go:245-261 | the by-day report has exactly 7 buckets, for today, today-1, ..., today-6, in that order |
| Store.OnDayMembers | main.go:259 | a day's lines are exactly the lines of the records created that day |
| Store.OnDay | main.go:259 | the lines of the rows whose date(created_at) is the day, in table order; OnDayMembers and OnDayEmpty state what they are |
| Store.OnDayEmpty | main.go:259-291 | a day has no lines exactly when no record was created on it |
| Store.Bucket | main.go:259-291 | a day's report carries that day, holds that day's lines, and is "(no records)" exactly when no record was created that day |
| Store.RecordLandsInItsDay | main.go:259-261 | a record created within the window appears in the bucket of its own created_at date |
| Store.BucketHoldsItsDay | main.go:259-261 | every line in a bucket comes from a record created on that bucket's day |
| Store.EmptyDayIsMarked | main.go:288-291 | a bucket is reported as "no records" exactly when no record was created that day; it is never omitted |
| Store.CommandStore.constructor | main.go:43-52 | a freshly created table is empty with the counter at 0 |
| Store.CommandStore.InsertRow | main.go:73-77 | the prepared INSERT changes the store exactly as Insert says |
| Store.CommandStore.SaveCommand | main.go:61-77 | saving trims both fields and then inserts with created_at = now |
| Store.CommandStore.DeleteCommand | main.go:360-385 | the store changes exactly as Delete says; at most one row is affected, and exactly one when the id was found |
| Store.CommandStore.ImportFromJson | main.go:452-500 | with no file name, or a file that cannot be read or decoded, or an empty record list, nothing changes; otherwise the store and the reported success/total are those of ImportAll over every record |
| Store.CommandStore.List | main.go:209-214 | lists the rows newest first, as a permutation of the table |
| Store.CommandStore.ListCommandsByDay | main.go:242-321 | the nested day and row loops produce exactly ByDay of the rows |
| Cli.ScanInt | main.go:544 | a scanned id lies in the signed 64-bit range; ScanNumeral and ScanIntForm state, in both directions, which texts scan and to which value |
| Cli.ScanDecimal | main.go:544 | every decimal numeral of an int64 scans back to its value |
| Cli.ScanRejectsNoDigit | main.go:544-545 | a text without a decimal digit is rejected by the scan |
| Cli.ScanNumeral | main.go:544-545 | leading blanks, an optional `+` or `-`, a run of digits and text that does not start with a digit scan as the signed value of the digits when it fits in an int64, and are rejected otherwise |
| Cli.ScanIntForm | main.go:544-545 | any text that scans is blanks, at most one sign, at least one digit and then the end or a non-digit, and its value is that numeral's; so `x7`, a leading newline, `++7` and `- 7` are rejected |
| Cli.RemoveArgs | main.go:538-548 | `-rm` yields a removal exactly when it has one argument that scans as an id greater than 0, and then the id is the scanned value; a missing or extra argument is a usage error |
| Cli.RemoveRoute | main.go:538-551 | `-rm` with one argument removes the scanned id when the scan succeeds with a positive value, and is a bad-id error otherwise |
| Cli.RemoveRejectsNonNumeral | main.go:544-548 | `-rm` followed by text without a digit, such as `-rm abc`, is a bad-id error |
| Cli.RemoveNumeral | main.go:538-551 | `-rm` followed by a signed numeral and any non-digit text removes that id exactly when it is unsigned or `+`, positive and at most 2^63-1; so `-rm 7abc` removes 7, while `-rm 0`, `-rm -7` and an id past 2^63-1 are bad-id errors |
| Cli.SaveArgs | main.go:553-570 | `-y` needs a command; the command is the next argument trimmed of white space and then of quotes; the description is "default" when nothing follows, otherwise the space-joined rest trimmed the same way; neither ends in a quote |
| Cli.FileArg | main.go:579-591 | without a further argument the file name is empty; otherwise it is that argument trimmed of quotes, and neither end rune is a quote |
| Cli.DefaultDescription | main.go:608-614 | the default verb's description is "default" with no arguments, otherwise all arguments joined by spaces and trimmed; either way it has no white space at its ends |
| Cli.DescriptionStoredAsIs | main.go:608-617 | saveCommand's second trim leaves the default verb's description as main built it |
| Cli.BlankArgumentGivesEmptyDescription | main.go:608-614 | one all-blank argument, as in `cs ""`, saves the last command with an empty description, not "default" |
| Cli.ParseArgs | main.go:515-595 | main's dispatch on the first argument; PlainVerbs, FileVerbs, RemoveVerb, SaveVerb and DefaultVerb state what each verb leads to |
| Cli.PlainVerbs | main.go:517-537 | help, list, by-day list and clean come exactly from `--help` or `-h`, `-l`, `-d` and `-c` |
| Cli.FileVerbs | main.go:576-593 | export and import come exactly from `-o` and `-i`, with FileArg as the file name |
| Cli.RemoveVerb | main.go:538-552 | `-rm` always ends in a removal or an id usage error, and no other first argument leads to either |
| Cli.SaveVerb | main.go:553-575 | `-y` always ends in a save of the given command or a missing-command usage error, and no other first argument leads to either |
| Cli.DefaultVerb | main.go:597-617 | the last command is saved exactly when the first argument is none of the verbs or there is none, and then with DefaultDescription |
| Cli.RemoveOnlyPositive | main.go:538-551 | a removal only comes from `-rm` with exactly one argument that scans as a positive id |
| Cli.RemoveAcceptsNumeral | main.go:544-551 | every positive int64 written in decimal after `-rm` reaches deleteCommand unchanged |
| Cli.SaveOnlyFromSaveVerbs | main.go:515-595 | an explicit save only comes from `-y` with a command; the default save only runs when the first argument is none of the verbs |
| Cli.SaveLastCommand | main.go:597-617 | when no command is captured nothing is saved; otherwise exactly the captured command is inserted with the trimmed description |
| Cli.CapturedIsTrimmed | main.go:601-617 | a captured command is already trimmed, so saving stores it unchanged |

## Left out

- The SQLite engine: `sql.Open`, `Prepare`, `Exec` and row scanning are
  replaced by the `Table` value. An engine error appears only as the `fault`
  flag of an insert, or as `faults` (the positions of failing records) in an
  import. The error paths of the queries and of `deleteCommand`'s existence
  check are not modelled.
- `COLLATE NOCASE` on `command` and `description`: no modelled operation
  compares or sorts text.
- The order of rows with equal `created_at` in `ORDER BY created_at DESC`, and
  the order of rows inside one day's `GROUP_CONCAT`. SQLite leaves both
  unspecified. `NewestFirst` and `OnDay` pick one order; their contracts only
  promise newest-first order and a permutation, and table order within a day.
- The by-day query's `GROUP_CONCAT` joins each day's fields with commas and
  splits them again (main.go:294-304). That misaligns fields that contain a
  comma or are NULL. The model groups whole records instead.
- Time: `datetime('now','localtime')` is the `now` parameter. Timestamps are
  integers. Formatting (`15:04:05`) and the `time.Parse` step that skips a
  malformed time (main.go:309-314) are not modelled. An imported timestamp is
  assumed to be already in local time; SQLite's `date()` would convert one
  that carries a time-zone offset.
- JSON: `json.Marshal` and `json.Unmarshal` are not modelled. `ImportFromJson`
  receives the decoded records, or None when reading or decoding failed.
  `exportToJSON` (main.go:395-450) is represented only by its record list,
  which is `CommandStore.List`. Writing the file and the default file name
  (main.go:397-399) are left out.
- `cleanDatabase` (main.go:323-358): it deletes the database file after a y/N
  prompt.
- `showHelp` and all console output.
- OS access is replaced by `Env` fields: the file system, `which`, `os.Getwd`,
  `os.UserHomeDir` and `runtime.GOOS`. An unresolved home directory is `""`,
  as the source ignores that error. The working directory is read once, not
  once per line. `initDB`'s directory creation and its panics are not
  modelled.
- History.JoinPath: models `filepath.Join` without the lexical clean-up that
  `filepath.Clean` applies afterwards.
- Text.FirstField: only the first element of `strings.Fields` is modelled,
  because the code uses nothing else.
- Strings are rune sequences. Invalid UTF-8 in the history file and byte-level
  effects are not modelled.
- Cli.ScanInt: follows `fmt`'s scanner for one `%d` verb into a 64-bit `int`.
  The model assumes a 64-bit platform.
