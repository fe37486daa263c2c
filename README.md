# iTerm2 pane client, modelled in Dafny

This project models the command-line iTerm2 client, `python/iterm2_client.py`. An
assistant process uses it to list the windows, tabs and panes (sessions) of
iTerm2. It can also read a pane's visible screen and report the pane it runs in.
The live iTerm2 application is replaced by an immutable snapshot value:

- `Hierarchy.App` is a sequence of `Window`s.
- Each window holds a sequence of `Tab`s.
- Each tab holds a sequence of `Session`s.
- A session has a long-form id, its `name`/`tty`/`path`/`jobName` variables
  (`None` when unset) and its screen lines (`None` when the host fails to return them).

A failed connection is `Connection.Refused`. The ambient `ITERM_SESSION_ID` is passed
in as a `currentId` string, and an unset variable is the empty string.

Modules:

- `Text` (text.dfy): Python's `isspace`, `rstrip`, `strip`, `"\n".join` and `split("\n")`,
  with their characterisations and the join/split round trips.
- `Hierarchy` (hierarchy.dfy): the snapshot data and 0-based `Location`s.
- `Screen` (screen.dfy): the normalisation `read_pane` applies to a screen. Every line is
  right-stripped, the trailing run of empty lines is popped, and the rest is joined with newlines.
- `Locate` (locate.dfy): the two session searches.
  - `read_pane`'s `break` leaves only the pane loop. A later tab that holds the id
    therefore overwrites an earlier hit: the last such tab wins, and the first pane in it.
  - `get_current_pane` returns the first hit overall.
  - The two agree whenever session ids are unique, as iTerm2's are.
- `Client` (client.dfy): the `list`, `read`, `current` and `status` commands, and the
  `check_api_enabled` test. Errors are result variants, not process exits.

Three behaviours of the code that are easy to misread:

- Screen lines are only `rstrip()`ed. NUL padding that the host leaves in a line is kept, because NUL is not whitespace.
- Every reported coordinate is 0-based.
- `read_pane`'s search is not a first-match search: see `Locate` above.

## Model

| member | source | states |
|---|---|---|
| `Text.SpaceExamples` | python/iterm2_client.py:171 | `Text.IsSpace` is Python's `isspace`: blank, tab, newline and carriage return are whitespace; NUL and `1` are not, so `rstrip()` keeps NUL padding |
| `Text.RStrip` | python/iterm2_client.py:171 | `line.rstrip()`: result is a prefix of the line; it is empty or ends in a non-whitespace character; everything removed is whitespace |
| `Text.RStripUnique` | python/iterm2_client.py:171 | those three facts determine the stripped line uniquely |
| `Text.RStripIdempotent` | python/iterm2_client.py:171 | stripping a stripped line changes nothing |
| `Text.RStripEmptyIff` | python/iterm2_client.py:171 | a line strips to "" exactly when it is all whitespace |
| `Text.Strip` | python/iterm2_client.py:35 | `strip()` result neither starts nor ends with whitespace |
| `Text.StripIsSlice` | python/iterm2_client.py:35 | `strip()` keeps a slice of the string, and only whitespace lies before and after that slice |
| `Text.StripUnique` | python/iterm2_client.py:35 | the ends facts of `Text.Strip` and a whitespace-padded slice determine `strip()`: any such slice is the stripped string |
| `Text.StripIsOneIff` | python/iterm2_client.py:35 | `stdout.strip() == "1"` holds exactly when stdout is one `1` with only whitespace around it |
| `Text.StripOneIsPadded` | python/iterm2_client.py:35 | the direction of `Text.StripIsOneIff` from `strip() == "1"` to a lone padded `1` |
| `Text.PaddedStripsToOne` | python/iterm2_client.py:35 | the direction of `Text.StripIsOneIff` from a lone padded `1` to `strip() == "1"` |
| `Text.LStrip` | python/iterm2_client.py:35 | the left half of `strip()`: a suffix, empty or starting with non-whitespace, with only whitespace removed |
| `Text.LStripSkipsSpace` | python/iterm2_client.py:35 | left-stripping a whitespace run followed by a non-whitespace start leaves exactly the rest |
| `Text.IndexOf` | python/iterm2_client.py:185 | first occurrence of a character, or -1 when absent (used by the inverse of the newline join) |
| `Text.Split` | python/iterm2_client.py:185 | `split("\n")`, the inverse of the `"\n".join`, gives at least one piece |
| `Text.SplitJoin` | python/iterm2_client.py:185 | splitting the joined lines gives the lines back when no line holds a newline |
| `Text.JoinSplit` | python/iterm2_client.py:185 | joining the pieces of a split gives the string back |
| `Text.Join` | python/iterm2_client.py:185 | `"\n".join`: "" exactly for no lines or one empty line; its inverse is `Text.Split` (`Text.SplitJoin`, `Text.JoinSplit`) |
| `Text.JoinCons` | python/iterm2_client.py:185 | joining a line in front of one or more lines puts exactly one newline between the line and the join of the rest |
| `Screen.TrimTrailingEmpty` | python/iterm2_client.py:174-175 | the trimmed list is a prefix of the input; it is empty or its last line is non-empty; every removed line is empty |
| `Screen.TrimUnique` | python/iterm2_client.py:174-175 | only a contiguous trailing run of empty lines goes: those facts determine the trim |
| `Screen.StripLines` | python/iterm2_client.py:169-171 | one line per screen line; each is a prefix of its screen line, does not end in whitespace, and only whitespace was cut |
| `Screen.Normalize` | python/iterm2_client.py:167-175 | the kept lines are a prefix of the stripped lines, no more than the screen has, and the last kept line is non-empty |
| `Screen.Contents` | python/iterm2_client.py:167-185 | `contents` is "" exactly when no line is kept |
| `Screen.NormalizeScreen` | python/iterm2_client.py:167-175 | the append loop and the pop loop compute `Normalize(screen)` |
| `Screen.NormalizeCharacterised` | python/iterm2_client.py:167-175 | kept lines are the first screen lines right-stripped, in order (interior blanks kept), none ends in whitespace; dropped lines are all-whitespace; the last kept line is non-empty |
| `Screen.NormalizeIdempotent` | python/iterm2_client.py:167-175 | strip-and-trim applied twice equals applied once |
| `Screen.BlankIffEmptyContents` | python/iterm2_client.py:167-185 | `contents` is "" exactly when every screen line is blank |
| `Screen.ContentsRoundTrip` | python/iterm2_client.py:167-185 | `contents` determines the kept lines: "" means none, otherwise splitting on newlines gives them back |
| `Screen.TrimExample` | python/iterm2_client.py:174-175 | `["a","","b","","",""]` trims to `["a","","b"]` |
| `Screen.StripLinesExample` | python/iterm2_client.py:169-171 | `["hello","world  ","","\t",""]` strips to `["hello","world","","",""]` |
| `Screen.NormalizeExample` | python/iterm2_client.py:167-175 | the same screen keeps `["hello","world"]` |
| `Screen.ContentsExample` | python/iterm2_client.py:167-185 | `["hello","world  ","","\t",""]` reads as `"hello\nworld"` |
| `Hierarchy.OrEmpty` | python/iterm2_client.py:107-110 | `value or ""`: "" exactly for an unset or empty variable; any other value is kept |
| `Locate.FindForRead` | python/iterm2_client.py:146-159 | no hit exactly when no session has the id; a hit is the first matching pane of the last tab (window/tab order) holding the id |
| `Locate.FindFirst` | python/iterm2_client.py:211-232 | no hit exactly when no session has the id; a hit has the id and no earlier pane in window/tab/pane order does |
| `Locate.FirstHitUnique` | python/iterm2_client.py:211-232 | the first-hit description admits one location only |
| `Locate.ReadHitUnique` | python/iterm2_client.py:149-159 | the `read_pane` hit description admits one location only |
| `Locate.LookupsAgreeOnUniqueIds` | python/iterm2_client.py:149-159 | with unique session ids both searches report the same location |
| `Locate.LookupsDifferOnDuplicateIds` | python/iterm2_client.py:150-159 | with an id in two tabs, `read_pane` reports the later tab and `get_current_pane` the earlier |
| `Client.ListPanes` | python/iterm2_client.py:84-126 | refused connection gives CONNECTION_FAILED; otherwise the listing has the snapshot's shape, each `index` its 0-based position, ids and `or ""` attributes copied, `is_current` iff the id equals the current id |
| `Client.ListingAt` | python/iterm2_client.py:89-126 | at any one location: a record exists iff the snapshot has a session there, and it is flagged current iff that session has the current id |
| `Client.ListingFlagsCurrent` | python/iterm2_client.py:119 | the all-locations form of `Client.ListingAt`: listing positions are the snapshot's; a record is flagged current iff the snapshot holds the current id there |
| `Client.SomeFlaggedIffOccurs` | python/iterm2_client.py:119 | some record is flagged current iff the current id occurs in the snapshot |
| `Client.ReadPane` | python/iterm2_client.py:131-189 | CONNECTION_FAILED on refusal; SESSION_NOT_FOUND iff the id occurs nowhere; otherwise at the `read_pane` hit: READ_FAILED if the screen cannot be read, else the id, name, cwd, location and normalised, newline-joined contents |
| `Client.CurrentPane` | python/iterm2_client.py:192-234 | NOT_IN_ITERM exactly when the current id is empty, whatever the connection; then CONNECTION_FAILED; SESSION_NOT_FOUND iff the id occurs nowhere; else the first hit with its attributes |
| `Client.Status` | python/iterm2_client.py:259-270 | `ready` iff the module is installed and the `defaults read` reply exited 0 with a lone `1` amid whitespace; `api_enabled` iff that reply test holds; `in_iterm_session` iff the current id is non-empty; module flag and id copied |
| `Client.ApiEnabled` | python/iterm2_client.py:28-37 | enabled iff `defaults read` ran, exited 0 and printed a lone `1` amid whitespace; an exception gives false |

## Left out

- Host I/O: connecting, fetching the app, variable and screen requests. Their results are input values (`Connection`, `Session` fields).
- `asyncio`: the suspend points do not change the order of steps.
- JSON printing, `sys.exit` and error message texts: errors are `Client.Error` variants, one per modelled error code (`ConnectionFailed` is CONNECTION_FAILED, and so on). MODULE_NOT_INSTALLED and ENABLE_FAILED have no variant (see the next lines).
- `argparse` dispatch in `main`: argument handling only.
- The `MODULE_NOT_INSTALLED` guard that `main` runs before list, read and current. It is an import probe with its own error code, and it fires before any connection is tried. `Client.ListPanes`, `Client.ReadPane` and `Client.CurrentPane` assume the module imports, so a missing module, which the source reports as MODULE_NOT_INSTALLED, is not modelled.
- The `ITERM_SESSION_ID` read: it becomes the `currentId` parameter.
- `check_iterm2_module` (an import probe): its answer is the `hasModule` parameter of `Client.Status`.
- The `enable` command. It first runs `check_api_enabled` (modelled as `Client.ApiEnabled`); when that holds, it reports the API as already enabled and writes nothing. Otherwise `enable_api` writes the preference via `subprocess`, and ENABLE_FAILED is reported when the write fails.
- `Client.ReadPane`: a failure of the `name`/`path` variable reads inside the same `try` also gives READ_FAILED in the source. The model treats variable reads as always answering, so only a failed screen read gives READ_FAILED.
- Shorthand `w<N>t<M>p<P>` addresses, neighbour-pane selection, send-text, send-control and split: the client has none of them.
- test/test_iterm2.py is not part of this model: it drives a live iTerm2 through subprocesses and exercises commands this client does not have.
