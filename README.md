# Archive-backed shell session, modelled in Dafny

This project models the core of a small shell emulator (`src/shell.py`).
The emulator's whole filesystem is one ZIP archive. A session keeps three
pieces of state:

- a current position inside the archive (`pwd`);
- an ownership overlay, a map from entry name to a (user, group) record that the archive format itself cannot store;
- an audit journal with one row per command line.

A startup script drives the session. Each non-blank line is split into a
command and its arguments, journaled, and then run: `ls [-l]`, `cd <path>`,
`chown <user>:<group> <path>`, `cal [year]` or `exit`. Any other command is
journaled and reported as unknown.

The model has these parts:

- **Archive namespace** (`ZipTree`, `PosixPaths`). The archive is the set of its entry names. A position is the `at` string of a `zipfile.Path`: `""` is the root, and a name ending in `/` is a directory. The names that exist are the entries plus every proper `/`-terminated prefix of an entry (the implied directories). Name handling follows `posixpath.join`, `posixpath.dirname`, `str.rstrip` and `pathlib`'s parsing of `parts` and `name`.
- **Path resolution** (`Navigation`). `Resolve` is a fold over the path's parts. `/` resets the cursor to the root. `..` moves to the parent, and stays put at the root. `.` is skipped. Any other part is appended, turned into a directory name when only that form exists, and must then exist; otherwise resolution stops with `NotFound(part)`. `ShellEmulator.ResolvePath` is the source's loop, proved equal to `Resolve`.
- **`cd`** (`Navigation.CdTarget`, `ShellEmulator.Cd`). The position moves only to an existing directory.
- **Ownership overlay** (`Ownership`, `Listing`). The overlay is seeded with one default record per archive filename. `chown` overwrites the record keyed by the resolved position's terminal name. `ls -l` reads the record by name, with the default as fallback.
- **Command loop** (`Session` as functions, `Shell.RunScript` as the imperative loop proved against them). The loop consumes the script lines in order and skips blank lines. It journals `(user, command, " ".join(args))` before it dispatches. It stops on `exit`, or when a `ValueError` escapes from `chown`'s `user:group` split or from `cal`'s `int(year)`.

Some behaviours come from the code rather than from the intended design, and the model keeps them as written:

- **Overlay keys.** The overlay is keyed by terminal name, so same-named entries in different directories share one record (`Scenarios.SameNameSharesOwner`). The seed uses full filenames (a directory marker keeps its `/`), but lookups and writes use bare names.
- **The root never "exists".** `zipfile.Path.exists()` is false for the root (`""` is not an archive name). So `cd` can never move back to the root: `cd /` is refused, and so is `cd ..` from a top-level directory (`Navigation.CdNeverReachesRoot`, `Session.CdUpFromTopLevelStays`).
- **Malformed `chown` and `cal` crash the loop.** A malformed `user:group` or a `cal` year that `int` refuses (not an integer, or more than 4300 digits) raises a `ValueError` that nothing catches. The loop ends with outcome `Crashed` after the line has been journaled.
- **Empty and `.` segments.** `pathlib` drops empty segments and `.` before resolution sees the path. The resolver still models its own `.` branch.
- **Root comparison.** The check "cursor is the root" (`temp != zipfile.Path(...)`) compares positions. That is the behaviour of Python versions whose `zipfile.Path` defines equality.

## Model

| member | source | states |
|---|---|---|
| `Text.Words` | src/shell.py:99-104 | `command.split()`: no words exactly when the line is blank (`not command.strip()`); every word is non-empty and holds no whitespace; a line starting with a non-space character has a first word starting with it |
| `Text.WordsOfSpacedWord` | src/shell.py:102-104 | whatever whitespace precedes a word and whichever whitespace follows it, `split()` yields that word whole and then the words of the rest, so `"  ls   -l"` splits into `ls` and `-l` |
| `Text.WordsKeepEveryCharacter` | src/shell.py:102 | the words, concatenated, are exactly the line's non-whitespace characters in order |
| `Text.SplitJoinedWords` | src/shell.py:102-106 | the journaled argument string `" ".join(args)` splits back into exactly `args` |
| `Text.Split` | src/shell.py:122 | `str.split(":")` yields at least one piece and no piece contains the separator |
| `Text.SplitThenJoin` | src/shell.py:122 | joining the pieces with the separator rebuilds the string |
| `Text.JoinThenSplit` | src/shell.py:36 | splitting pieces joined by a separator none of them holds gives back exactly those pieces |
| `Text.SplitCount` | src/shell.py:122 | there is one more piece than separators, so `user, group = ...` succeeds exactly when there is one colon |
| `Text.ParseInt` | src/shell.py:72 | `int(year)`: accepted exactly when the argument is a digit run (single underscores allowed between digits) of at most 4300 digits, optionally after one `+` or `-`; a `-` gives a value at most zero, otherwise the value is at least zero |
| `Text.LongNumeralRefused` | src/shell.py:72 | any argument with more than 4300 digits, signed or not, is refused by `int` |
| `Text.ParseShowNat` | src/shell.py:72 | every decimal year of at most 4300 digits, and its negation, parse back to that number |
| `PosixPaths.ParsePath` | src/shell.py:36 | `Path(arg).parts`: no part is empty or `.`; an argument starting with `/` yields a first part made of slashes (the anchor), and no other part contains `/` |
| `PosixPaths.ParsePathOfJoined` | src/shell.py:36 | `Path("a/b/c").parts`: any non-empty list of parts (non-empty, not `.`, no `/`) joined by single slashes parses back into exactly that list |
| `PosixPaths.AbsolutePathOfJoined` | src/shell.py:36 | `Path("/a/b").parts`: the same joined parts behind one leading slash parse into the anchor `/` followed by exactly those parts |
| `PosixPaths.Join` | src/shell.py:44 | `temp / part` ends with the part; an absolute part replaces the cursor, any other part extends it |
| `PosixPaths.Name` | src/shell.py:69 | the terminal name is empty or a slash-free name other than `.`, and empty exactly when the path has no named parts |
| `PosixPaths.NameBelow` | src/shell.py:55 | below a directory, the file `d + x` and the directory `d + x/` are both named `x` |
| `ZipTree.NameSet` | src/shell.py:29 | the names that exist include every entry, and every other existing name is a directory ending in `/` |
| `ZipTree.RootNeverExists` | src/shell.py:60 | for an archive of relative names, the root is not an existing name |
| `ZipTree.ResolveDir` | src/shell.py:44 | an existing name is kept; a missing name whose directory form exists becomes that form; otherwise the name is kept |
| `ZipTree.Parent` | src/shell.py:40 | the parent is the root or a directory name |
| `ZipTree.ParentIsPrefix` | src/shell.py:40 | the parent of a relative position is the root or a proper prefix of it |
| `ZipTree.ParentInNameSet` | src/shell.py:39-40 | the parent of an existing position is the root or an existing name |
| `ZipTree.Children` | src/shell.py:51 | `iterdir` yields only existing names |
| `ZipTree.ChildIffParent` | src/shell.py:51 | `iterdir` of a directory yields a name exactly when that name's parent (`..`) is the directory: direct children only, not the subtree |
| `Navigation.Advance` | src/shell.py:36-47 | one loop turn fails exactly on an ordinary part whose joined name does not exist, naming that part; an ordinary part that succeeds lands on an existing name |
| `Navigation.Resolve` | src/shell.py:34-48 | a failure names a part of the path that is ordinary (not `/`, `..`, `.`); a path ending in an ordinary part resolves only to an existing name |
| `Navigation.ResolveConcat` | src/shell.py:35-48 | resolving `a + b` is resolving `a` and then `b` from where `a` ended; a failure in `a` is the result |
| `Navigation.DotsStay` | src/shell.py:41-42 | a path of `.` parts resolves to the starting position |
| `Navigation.UpFromRootStays` | src/shell.py:39-40 | any number of `..` from the root resolves to the root and never fails |
| `Navigation.SlashResets` | src/shell.py:37-38 | after a `/` part, the result is that of resolving the rest from the root, whatever came before |
| `Navigation.NotFoundIsFirstMissingPart` | src/shell.py:43-47 | a failure reports the first part that does not exist, and every part before it resolved |
| `Navigation.ResolveStaysInTree` | src/shell.py:34-48 | from the root or an existing name, resolution ends at the root or an existing name |
| `Navigation.ParentOfChild` | src/shell.py:40 | the parent of a child file or directory of `d` is `d` |
| `Navigation.ChildThenParent` | src/shell.py:39-45 | resolving `x` then `..` from a directory returns to that directory |
| `Navigation.ResolveOneChild` | src/shell.py:43-47 | one child name resolves to the file, else the directory, else it is reported missing |
| `Navigation.ListedChildResolves` | src/shell.py:51-55 | each child file or directory of `d` is listed, its `ItemName` is `x`, and resolving `x` from `d` reaches it (the file when both forms exist) |
| `Navigation.CdTarget` | src/shell.py:59-64 | the position changes only to the target, and only when the target exists and is a directory; it then does change; the position stays the root or an existing directory |
| `Navigation.CdNeverReachesRoot` | src/shell.py:60 | `cd` to the root leaves the position unchanged |
| `Ownership.SeededOwnersAreDefault` | src/shell.py:32 | the seed has a record for exactly the archive filenames, and right after seeding every name reads (`OwnerOf`) as (user, user + `_group`) |
| `Ownership.ReadAfterChown` | src/shell.py:55-69 | after `chown`, a lookup of the changed name reads (user, group), every other name reads as before, and an unresolvable path changes no reading |
| `Ownership.ChownOwners` | src/shell.py:66-69 | an unresolvable path leaves the overlay unchanged; otherwise the terminal name's record becomes exactly (user, group), it is the only key added, and every other record is unchanged |
| `Listing.LsLines` | src/shell.py:50-57 | every child has its line (`LineOf`); every line names a child; lines are long exactly with `-l`, and then show the overlay record for their name |
| `Listing.UnrecordedNamesShowDefault` | src/shell.py:55 | `ls -l` shows a name without a record with the default owner |
| `Listing.ChownThenList` | src/shell.py:55-69 | after `chown` of a child of the current position, `ls -l` shows that name with the new owner and with no other |
| `Session.RecordOf` | src/shell.py:106 | a journal row carries the user and the command word |
| `Session.RecordArgsSplitBack` | src/shell.py:102-106 | the row's argument column `" ".join(args)` splits back into exactly the line's arguments |
| `Session.Dispatch` | src/shell.py:108-129 | dispatch never journals; `cd` without an argument stays, `cd p` moves to `CdTarget` of `p` resolved from the position when it resolves and stays otherwise; a `chown u:g p` with two arguments and one colon sets the overlay to `ChownOwners` of `p` with (u, g); only `cd` moves and only `chown` changes owners; `exit` is the only command that exits; a fault happens exactly for a malformed `chown` spec or a `cal` year `int` refuses; exit and fault change nothing; `chown` with other than two arguments changes nothing; the position stays a directory |
| `Session.ExecLine` | src/shell.py:99-106 | a blank line does nothing; any other line appends exactly its own row before running; only an `exit` line exits |
| `Session.ExecLineStops` | src/shell.py:108-125 | a line ends the loop exactly when it is `exit` or a command that raises |
| `Session.RunJournals` | src/shell.py:93-110 | the loop appends exactly `Journal(lines)` to the log: one row per non-blank line, in order, through the line that stops it |
| `Session.RunOutcome` | src/shell.py:93-110 | the loop waits for input exactly when no script line stops it; if it exited, some line was `exit` |
| `Session.NonBlank` | src/shell.py:99-100 | the kept lines are all non-blank |
| `Session.RecordsOf` | src/shell.py:106 | one row per line |
| `Session.JournalOfUnstoppedScript` | src/shell.py:99-106 | without a stopping line, the journal is one row per non-blank line in script order, including unknown and failing commands |
| `Session.ExitIgnoresTheRest` | src/shell.py:108-110 | `exit` is journaled, changes nothing else, and the lines after it are never read |
| `Session.RunKeepsCwd` | src/shell.py:113-119 | through any script the position stays the root or an existing directory |
| `Session.RunWithoutCdOrChown` | src/shell.py:111-129 | a script without `cd` or `chown` leaves the position and the overlay unchanged |
| `Session.CalWithLongYearCrashes` | src/shell.py:126-127 | `cal` with a year of more than 4300 digits is journaled and then stops the loop with a fault, changing nothing else |
| `Session.CdUpFromTopLevelStays` | src/shell.py:113-117 | `cd ..` from a top-level directory is refused and the position stays |
| `Shell.ShellEmulator.constructor` | src/shell.py:29-32 | a new session stands at the root, owners seeded, empty journal |
| `Shell.ShellEmulator.ResolvePath` | src/shell.py:34-48 | the loop over the parts returns `Resolve` from the current position and changes nothing |
| `Shell.ShellEmulator.Ls` | src/shell.py:50-57 | the loop over the archive's names returns `LsLines` for the current position |
| `Shell.ShellEmulator.Cd` | src/shell.py:59-64 | the new position is `CdTarget`; the result is the new position when the target is an existing directory, else `None` |
| `Shell.ShellEmulator.Chown` | src/shell.py:66-69 | the overlay becomes `ChownOwners` of the old overlay |
| `Shell.ShellEmulator.LogAction` | src/shell.py:75-78 | exactly one row is appended to the journal |
| `Shell.DispatchCommand` | src/shell.py:108-129 | the session's state and control after one command are those of `Dispatch` |
| `Shell.ExecuteLine` | src/shell.py:99-106 | the state and control after one line are those of `ExecLine` |
| `Shell.RunScript` | src/shell.py:86-129 | the session's final state and outcome are those of `Run` over the script, and the position stays a directory |
| `Scenarios.CdIntoFileFails` | src/tests.py:82-86 | `cd` to a file at the root resolves but is refused, so the position stays at the root |
| `Scenarios.CdIntoMissingFails` | src/tests.py:88-93 | a missing name does not resolve and is the name reported |
| `Scenarios.FreshListingShowsDefault` | src/tests.py:95-104 | in a fresh session `ls -l` lists each root file as `user:user_group` |
| `Scenarios.ChownRootFile` | src/tests.py:106-113 | `chown` of a root file records the new owner under its name and leaves other names at the default |
| `Scenarios.ChownMissingFile` | src/tests.py:115-120 | `chown` of a missing name leaves the overlay unchanged and adds no record for it |
| `Scenarios.ChownWithoutColonRaises` | src/tests.py:139-146 | a `user:group` argument without a colon raises |
| `Scenarios.SameNameSharesOwner` | src/shell.py:55-69 | `chown` of `x` in one directory changes what `ls -l` shows for `x` in another |

## Left out

- Configuration loading and startup checks (src/shell.py:14-26): these are file I/O. The session is built from a given user name, archive file name and entry set.
- The ZIP container and `zipfile` internals (src/shell.py:28, 80-81): only the entry-name set is modelled. `close` is not modelled.
- Implied directories use the proper-prefix rule. For names with empty segments (`a//b`) or a leading `/`, this differs from how `zipfile` derives parents; well-formed archive names behave the same under both.
- The journal's CSV format and `datetime.now()` timestamps (src/shell.py:75-78): a row is (user, command, arguments).
- `cal`'s calendar output and `date.today()` (src/shell.py:71-73): only the `ValueError` that `int` raises for the year is modelled.
- Interactive `input()` and the prompt (src/shell.py:97): the end of the script is the outcome `AwaitingInput`.
- Printed messages (`No such file or directory`, `cd: missing argument`, `Unknown command`, ...): they change no state.
- `Listing.LsLines`: returns the listing as a set of lines, so the `namelist` order and repeated names in an archive are not modelled.
- `Text.ParseInt`: does not accept non-ASCII Unicode digits or surrounding whitespace, which Python's `int` does. Arguments produced by `split()` never carry whitespace.
- `Text.ParseInt`: fixes the digit limit at 4300, the default of `sys.get_int_max_str_digits()` since Python 3.11. A limit changed with `sys.set_int_max_str_digits` or `PYTHONINTMAXSTRDIGITS` is not modelled.
- `Shell.ShellEmulator.Ls`: requires the current position to be a directory. The source's position always is one, and `iterdir` would raise otherwise.
