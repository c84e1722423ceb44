# TikTok bulk uploader, modelled in Dafny

`tiktok_bulk_uploader.py` is a desktop tool. It keeps a list of TikTok
accounts, each a Chrome profile directory with a display name and a caption
template, in `accounts.csv`. It pairs the accounts with the `.mp4` files of a
folder, one video per account. A pool of worker threads then uploads each
video through its own browser session, and the run ends with a
`succeeded/total` summary line.

This project models the logic behind the buttons:

- building and validating the upload tasks, and the caption each one gets;
- the worker drain loop and the summary;
- adding, deleting, loading and saving accounts;
- the login flow that registers a new account after up to `max_retries`
  browser attempts (one, as the button calls it).

The modules follow the program:

- `Text` holds the Python string and path operations the code relies on:
  `str.strip`, `str.split(c)[-1]`, `str.replace`, `PurePath.stem` and `str(int)`.
- `Accounts` covers the account record, its CSV row form, and the
  filter-by-profile that deletion applies.
- `Queues` models `queue.Queue` as a class.
- `Upload` covers tasks, `worker_upload`, pairing and the summary.
- `Registration` covers the pure decisions of `login_account`: paths, the
  first attempt that logs in, the display name, and which directories a run
  of failed attempts leaves behind.
- `FileSystem` is a `Disk` class holding the directories that exist and the
  rows of `accounts.csv`. Removing a directory removes its whole tree, as
  `shutil.rmtree` does.
- `App` is the `AppGUI` class with its `accounts`, `videos` and
  `max_workers` fields and one method per operation.

The browser session is a function parameter from an `UploadRequest` (profile,
video, caption) to a `SessionOutcome`: `Returned(flag)` or `Raised`. The login
browser attempts come in as a sequence of `Attempt`s. Form fields, the
selection, the worker-count field (already passed through `int()`) and the
timestamp are parameters too.

Profile directories need not be unique: `add_account` and `login_account`
append without checking, and deletion removes every record with the selected
directory.

`login_account` takes `max_retries=1` by default
(tiktok_bulk_uploader.py:222), and the login button calls it without an
argument (tiktok_bulk_uploader.py:202). The shipped program therefore makes
exactly one attempt. The model keeps `max_retries` as a parameter.

## Model

| member | source | states |
|---|---|---|
| Text.TrimLeftShape | tiktok_bulk_uploader.py:300 | `lstrip` keeps a suffix; everything it drops is droppable; what it keeps does not start with a droppable character |
| Text.TrimRightShape | tiktok_bulk_uploader.py:300 | `rstrip` keeps a prefix; everything it drops is droppable; what it keeps does not end with a droppable character |
| Text.StripCharsShape | tiktok_bulk_uploader.py:251 | `strip(chars)` is a slice of the input framed by dropped characters, and it neither starts nor ends with one |
| Text.StripCharsWithin | tiktok_bulk_uploader.py:251 | stripping introduces no character the input lacks |
| Text.StripCharsTrailing | tiktok_bulk_uploader.py:251 | `m + "/"`, with `m` not starting or ending in '/', strips to `m` |
| Text.StripCharsUnchanged | tiktok_bulk_uploader.py:302 | a string that neither starts nor ends with a dropped character is its own strip |
| Text.StripCharsIdempotent | tiktok_bulk_uploader.py:328-330 | stripping twice equals stripping once |
| Text.StripStripped | tiktok_bulk_uploader.py:328-330 | a whitespace-stripped field is left alone by a second `strip()` |
| Text.RFind | tiktok_bulk_uploader.py:251 | the index found is -1 or holds the separator |
| Text.RFindIsLast | tiktok_bulk_uploader.py:251 | no separator comes after the index found |
| Text.RFindUnique | tiktok_bulk_uploader.py:251 | a separator with none after it is the one found |
| Text.RFindAfter | tiktok_bulk_uploader.py:251 | in `a + c + b`, with no `c` in `b`, the `c` found is the one between them |
| Text.RFindAbsent | tiktok_bulk_uploader.py:251 | without any separator, none is found |
| Text.NoneAfter | tiktok_bulk_uploader.py:251 | in `a + c + b`, with no `c` in `b`, nothing after the middle `c` is a `c` |
| Text.AfterLast | tiktok_bulk_uploader.py:251 | `split(c)[-1]` is a suffix of the input that is either all of it or preceded by `c` |
| Text.AfterLastFree | tiktok_bulk_uploader.py:251 | `split(c)[-1]` holds no `c` |
| Text.AfterLastConcat | tiktok_bulk_uploader.py:251 | `(a + c + b).split(c)[-1] == b` when `b` has no `c` |
| Text.TokenFreeTail | tiktok_bulk_uploader.py:111 | dropping a first character keeps a string free of the token |
| Text.ReplaceTokenFree | tiktok_bulk_uploader.py:111 | `replace` leaves a string without the token unchanged |
| Text.NoTokenAtStart | tiktok_bulk_uploader.py:111 | a non-empty token-free prefix before a border-free token does not begin with the token |
| Text.ReplaceAfterTokenFree | tiktok_bulk_uploader.py:111 | `replace` matches the token at its first occurrence after a token-free prefix |
| Text.ReplaceJoin | tiktok_bulk_uploader.py:111 | `sep.join(parts).replace(sep, rep) == rep.join(parts)` for token-free parts and a border-free separator |
| Text.StemPrefix | tiktok_bulk_uploader.py:111 | the stem is a prefix of the name; when shorter, it stops at the name's last '.', which is neither the first nor the last character |
| Text.StemAtLastDot | tiktok_bulk_uploader.py:111 | a last '.' that neither starts nor ends the name is where the stem stops |
| Text.StemOfName | tiktok_bulk_uploader.py:111 | bundles `Text.StemPrefix` and `Text.StemAtLastDot`: `Path.stem` is a prefix of the file name without '/', non-empty for a non-empty name; it is shorter than the name exactly when the name's last '.' is neither its first nor its last character, and then it stops right before that '.' |
| Text.StemTrailingDot | tiktok_bulk_uploader.py:111 | a name ending in '.' is its own stem (`clip.` stays `clip.`) |
| Text.StemOfBareFile | tiktok_bulk_uploader.py:111 | the stem of a bare `base.ext` is `base` |
| Text.StemOfFile | tiktok_bulk_uploader.py:111 | the stem of `dir/base.ext` is `base` |
| Text.IsWhitespace | tiktok_bulk_uploader.py:300-302 | exactly the characters Python's `str.isspace()` accepts, which `strip()` removes |
| Text.TrimLeft | tiktok_bulk_uploader.py:300 | `str.lstrip(chars)`; characterised by `Text.TrimLeftShape` |
| Text.TrimRight | tiktok_bulk_uploader.py:300 | `str.rstrip(chars)`; characterised by `Text.TrimRightShape` |
| Text.StripChars | tiktok_bulk_uploader.py:251 | `str.strip(chars)`; characterised by `Text.StripCharsShape` |
| Text.Strip | tiktok_bulk_uploader.py:300-302 | `str.strip()` over Python's whitespace; idempotent by `Text.StripStripped` |
| Text.Replace | tiktok_bulk_uploader.py:111 | `str.replace(tok, rep)`, left to right without overlaps; characterised by `Text.ReplaceTokenFree`, `Text.ReplaceAfterTokenFree` and `Text.ReplaceJoin` |
| Text.Name | tiktok_bulk_uploader.py:111 | `PurePath(path).name`, the part after the last '/'; holds no '/' by `Text.AfterLastFree` |
| Text.Stem | tiktok_bulk_uploader.py:111 | `PurePath(path).stem`; characterised by `Text.StemOfName` |
| Text.NatToString | tiktok_bulk_uploader.py:235 | the decimal rendering is non-empty and all digits, with at least two digits from 10 on |
| Text.NatToStringInjective | tiktok_bulk_uploader.py:235 | different attempt numbers render differently |
| Accounts.TokensStripped | tiktok_bulk_uploader.py:302 | the default templates `{filename}` and `{username}` are their own strip |
| Accounts.ParseRow | tiktok_bulk_uploader.py:325-331 | an empty row is skipped, and only that; a one-field row has display name = profile; a row of fewer than three fields has template `{filename}` |
| Accounts.ParseRowStripped | tiktok_bulk_uploader.py:328-330 | every field of a loaded record is whitespace-stripped |
| Accounts.ParseRowIgnoresExtraFields | tiktok_bulk_uploader.py:328-331 | fields after the third do not affect the record |
| Accounts.ParseRows | tiktok_bulk_uploader.py:320-331 | loading never yields more records than rows |
| Accounts.ParseRowsSnoc | tiktok_bulk_uploader.py:325-331 | a further non-empty row appends exactly its record |
| Accounts.ParseRowsStripped | tiktok_bulk_uploader.py:325-331 | every loaded record is whitespace-stripped |
| Accounts.ParseFormatRow | tiktok_bulk_uploader.py:328-339 | a saved stripped record loads back as itself |
| Accounts.LoadedAccounts | tiktok_bulk_uploader.py:321-331 | no records without a file, otherwise `Accounts.ParseRows` of its rows |
| Accounts.FormatRow | tiktok_bulk_uploader.py:339 | the row profile, display name, caption template; loads back by `Accounts.ParseFormatRow` |
| Accounts.FormatRows | tiktok_bulk_uploader.py:338-339 | one row per record in list order; inverted by `Accounts.LoadSaveRoundTrip` |
| Accounts.LoadSaveRoundTrip | tiktok_bulk_uploader.py:320-339 | loading what saving wrote gives the same records in the same order, for stripped records |
| Accounts.LoadSaveLoad | tiktok_bulk_uploader.py:320-339 | load, save, load gives what the first load gave |
| Accounts.Without | tiktok_bulk_uploader.py:316 | a record is kept if and only if its profile differs from the deleted one, and nothing is added |
| Accounts.WithoutConcat | tiktok_bulk_uploader.py:316 | the filter distributes over concatenation, so the kept records keep their order |
| Accounts.WithoutAbsent | tiktok_bulk_uploader.py:316 | deleting a profile not in the list leaves the list exactly as it was |
| Accounts.WithoutIdempotent | tiktok_bulk_uploader.py:316 | deleting a profile twice is deleting it once |
| Accounts.WithoutCommutes | tiktok_bulk_uploader.py:314-316 | the order in which two selected profiles are deleted does not matter |
| Accounts.WithoutAll | tiktok_bulk_uploader.py:314-316 | the list after each selected profile is filtered out in turn; characterised by `Accounts.WithoutAllMembers` |
| Accounts.WithoutAllMembers | tiktok_bulk_uploader.py:314-316 | after deleting a selection, a record remains if and only if it was there and its profile was not selected |
| Accounts.FormAccount | tiktok_bulk_uploader.py:300-305 | no record if and only if the stripped profile is blank; otherwise all three fields are non-empty, a blank display falls back to the profile and a blank caption to `{username}` |
| Accounts.FormAccountStripped | tiktok_bulk_uploader.py:300-302 | a record from the form has every field whitespace-stripped |
| Queues.Queue.constructor | tiktok_bulk_uploader.py:389-390 | a new queue is empty and has no unfinished tasks |
| Queues.Queue.IsEmpty | tiktok_bulk_uploader.py:402 | `empty()`: no item is waiting |
| Queues.Queue.Put | tiktok_bulk_uploader.py:392 | `put` appends the item and counts one more unfinished task |
| Queues.Queue.GetNowait | tiktok_bulk_uploader.py:107-109 | `get_nowait` takes the oldest item, or reports an empty queue and changes nothing |
| Queues.Queue.Get | tiktok_bulk_uploader.py:403 | `get` takes the oldest item |
| Queues.Queue.TaskDone | tiktok_bulk_uploader.py:126 | `task_done` lowers the unfinished count by one and leaves the items alone |
| Upload.FilenameTokenBorderFree | tiktok_bulk_uploader.py:111 | two occurrences of `{filename}` never overlap |
| Upload.CaptionVerbatim | tiktok_bulk_uploader.py:111 | a template without `{filename}` is the caption verbatim |
| Upload.CaptionFillsEveryToken | tiktok_bulk_uploader.py:111 | every `{filename}` becomes the video's stem and the text between them is kept |
| Upload.UsernameTemplateVerbatim | tiktok_bulk_uploader.py:111 | the default template `{username}` reaches the session unchanged |
| Upload.CaptionLeadingToken | tiktok_bulk_uploader.py:111 | `{filename}` followed by token-free text, for `dir/base.ext`, gives `base` followed by that text |
| Upload.CaptionExample | tiktok_bulk_uploader.py:111 | `{filename} daily` with `videos/clip_07.mp4` gives `clip_07 daily` |
| Upload.Caption | tiktok_bulk_uploader.py:111 | the template with every `{filename}` replaced by the video's stem; characterised by `Upload.CaptionVerbatim` and `Upload.CaptionFillsEveryToken` |
| Upload.MakeTask | tiktok_bulk_uploader.py:381 | the task tuple for an account and its video |
| Upload.Pairing | tiktok_bulk_uploader.py:376-382 | there are min(accounts, videos) tasks, and task i joins account i with video i |
| Upload.BuildTasks | tiktok_bulk_uploader.py:376-382 | the task loop with its video index builds exactly the pairing |
| Upload.PairingNonEmpty | tiktok_bulk_uploader.py:384-386 | with accounts and videos there is at least one task, so the "not enough videos" error cannot occur |
| Upload.RequestFor | tiktok_bulk_uploader.py:110-115 | what the session is given: the task's profile, its video and the filled-in caption |
| Upload.ResultFor | tiktok_bulk_uploader.py:115-124 | the result tuple: the task's display name and video, true only when the session returned true |
| Upload.ResultsFor | tiktok_bulk_uploader.py:104-126 | one result per claimed task |
| Upload.ResultsForAt | tiktok_bulk_uploader.py:104-126 | the result at one given position is the result for the task at that position |
| Upload.ResultsForIndex | tiktok_bulk_uploader.py:104-126 | the i-th result is the result for the i-th claimed task |
| Upload.ResultsForEach | tiktok_bulk_uploader.py:110-124 | each result carries its task's display name and video, and is true if and only if the session returned true; false or a raise gives false |
| Upload.WorkerUpload | tiktok_bulk_uploader.py:104-126 | drains the task queue: each claim puts exactly one result, in claim order, and calls `task_done` exactly once |
| Upload.ClaimOne | tiktok_bulk_uploader.py:107-126 | one claim moves the first pending task's result onto the result queue |
| Upload.SuccessCount | tiktok_bulk_uploader.py:405 | successes never exceed the number of results |
| Upload.Summarize | tiktok_bulk_uploader.py:405-406 | the `success/total` pair, with success never above total and total the number of results |
| Upload.SuccessCountConcat | tiktok_bulk_uploader.py:405 | successes add up over concatenation |
| Upload.SuccessCountRemove | tiktok_bulk_uploader.py:405 | taking one result out of a run lowers the success count by exactly that result's success flag |
| Upload.MultisetRemove | tiktok_bulk_uploader.py:401-405 | removing the first result of one run and a matching result of a reordering of it leaves two runs that are still reorderings of each other |
| Upload.SuccessCountPermutation | tiktok_bulk_uploader.py:401-405 | the success count does not depend on the order of the results |
| Upload.SummaryIgnoresCompletionOrder | tiktok_bulk_uploader.py:396-406 | any completion order gives the same summary, whose total is the number of tasks |
| Upload.AllSucceeded | tiktok_bulk_uploader.py:405-406 | succeeded = total if and only if every result is a success |
| Upload.NoneSucceeded | tiktok_bulk_uploader.py:405-406 | succeeded = 0 if and only if no result is a success |
| Upload.SummaryAllAccepted | tiktok_bulk_uploader.py:396-406 | a session that accepts every upload gives total/total |
| Upload.SummaryNoneAccepted | tiktok_bulk_uploader.py:396-406 | a session that accepts none gives 0/total |
| Upload.RunPool | tiktok_bulk_uploader.py:397-400 | after `join` the task queue is empty with no unfinished tasks, and the result queue holds one result per task |
| Upload.DrainResults | tiktok_bulk_uploader.py:401-403 | the drained list is the queue's contents, oldest first, and the queue is left empty |
| Upload.RunWorkers | tiktok_bulk_uploader.py:396-406 | the summary's total equals the number of tasks, and it counts the uploads the session accepted |
| Upload.RunUpload | tiktok_bulk_uploader.py:388-406 | the tasks queued in order and run: the summary counts one result per task, with succeeded ≤ total = number of tasks |
| FileSystem.Disk.constructor | tiktok_bulk_uploader.py:322 | the disk starts with the given directories and accounts file |
| FileSystem.Disk.Exists | tiktok_bulk_uploader.py:236 | `Path.exists()`: the directory is among those that exist |
| FileSystem.Disk.MakeDir | tiktok_bulk_uploader.py:224 | `mkdir(exist_ok=True)` adds the directory and leaves the file alone |
| FileSystem.Within | tiktok_bulk_uploader.py:237 | a directory is within a tree when it is the tree's root or lies below it |
| FileSystem.Pruned | tiktok_bulk_uploader.py:237 | what is left after removing a tree: a subset of what was there, without the tree's root |
| FileSystem.PrunedMembers | tiktok_bulk_uploader.py:237 | a directory survives the removal of a tree if and only if it existed and is not within that tree |
| FileSystem.Disk.RemoveTree | tiktok_bulk_uploader.py:236-237 | `rmtree` removes the directory and every directory below it, and leaves all else alone |
| FileSystem.Disk.WriteAccounts | tiktok_bulk_uploader.py:336-339 | writing the CSV replaces its rows and touches no directory |
| Registration.ProfilesRoot | tiktok_bulk_uploader.py:223 | `tiktok_profiles` under the temporary directory |
| Registration.ProfilePath | tiktok_bulk_uploader.py:235 | `profile_<timestamp>_<attempt>` under the root; distinct per attempt by `Registration.ProfilePathsDistinct` |
| Registration.AttemptPaths | tiktok_bulk_uploader.py:232-235 | the profile paths of the first n attempts; characterised by `Registration.AttemptPathsMembers` |
| Registration.ProfilePathBelowRoot | tiktok_bulk_uploader.py:235 | every attempt path lies strictly below `tiktok_profiles` |
| Registration.ProfilePathsDistinct | tiktok_bulk_uploader.py:235 | two attempts of one login never share a profile directory |
| Registration.AttemptPathsMembers | tiktok_bulk_uploader.py:232-235 | a path is among the first n attempt paths if and only if it belongs to one of those attempts |
| Registration.RootNotAttemptPath | tiktok_bulk_uploader.py:223-235 | the root is never an attempt path, so cleanup never removes it |
| Registration.LaterPathFresh | tiktok_bulk_uploader.py:235 | a later attempt's path is not among the earlier ones |
| Registration.ProfilePathNotWithin | tiktok_bulk_uploader.py:235 | no attempt's directory is another attempt's directory or lies below it, so one attempt's cleanup never touches another's directory |
| Registration.RootNotWithin | tiktok_bulk_uploader.py:223-235 | the root is not within any attempt's tree, so cleanup never removes it |
| Registration.ClearIfExists | tiktok_bulk_uploader.py:236-237 | `if exists(): rmtree()`: the path is gone afterwards and nothing is added |
| Registration.AfterFailures | tiktok_bulk_uploader.py:232-270 | the directories left by a run of failed attempts: per attempt, a stale directory cleared, Chrome possibly creating it, the cleanup removing its tree; characterised by `Registration.AfterFailuresMembers` |
| Registration.AfterFailuresMembers | tiktok_bulk_uploader.py:232-270 | a directory survives n failed attempts if and only if it existed and every attempt whose tree holds it neither found its directory already there nor had Chrome create it |
| Registration.AfterFailuresClean | tiktok_bulk_uploader.py:232-270 | after failed attempts nothing new exists, no attempt's directory is left, and the root stays |
| Registration.StaleProfileRemoved | tiktok_bulk_uploader.py:236-237 | a stale profile directory from the same second, with a directory inside it, is removed whole, leaving only the root |
| Registration.IsSlash | tiktok_bulk_uploader.py:251 | the one character `strip("/")` removes |
| Registration.Username | tiktok_bulk_uploader.py:251 | `profile_url.split("@")[-1].strip("/")`; shaped by `Registration.UsernameShape` |
| Registration.DisplayName | tiktok_bulk_uploader.py:252 | the username, or `Account_<timestamp>` when it is empty; shaped by `Registration.DisplayNameShape` |
| Registration.UsernameShape | tiktok_bulk_uploader.py:251 | the username holds no '@' and neither starts nor ends with '/' |
| Registration.DisplayNameShape | tiktok_bulk_uploader.py:251-252 | the display name is `Account_<timestamp>` when the username is empty; otherwise it is the username, which is non-empty, has no '@' and no leading or trailing '/' |
| Registration.DisplayNameOfProfileUrl | tiktok_bulk_uploader.py:249-252 | the profile page `…/@name/` gives the display name `name` |
| Registration.DisplayNameFallback | tiktok_bulk_uploader.py:251-252 | a page ending in `@` or `@/` gives `Account_<timestamp>` |
| Registration.UsernameWithoutAt | tiktok_bulk_uploader.py:251 | a URL without '@' is taken whole, less its slashes |
| Registration.FirstLogin | tiktok_bulk_uploader.py:232-253 | the attempt that logs in is the first LoggedIn among the first `max_retries`, all before it failed; there is none if and only if every attempt failed |
| Registration.FirstLoginStable | tiktok_bulk_uploader.py:253 | once an attempt has logged in, later attempts do not change which one did |
| App.AppGUI.constructor | tiktok_bulk_uploader.py:143-145 | no accounts, no videos, five workers |
| App.AppGUI.LoadAccounts | tiktok_bulk_uploader.py:320-331 | the list becomes the records parsed from the file, in file order, or empty without a file |
| App.AppGUI.Save | tiktok_bulk_uploader.py:335-339 | the file holds one row per record, in list order |
| App.AppGUI.AddAccount | tiktok_bulk_uploader.py:299-307 | adds if and only if the stripped profile is non-empty; it then appends exactly the formed record and saves; otherwise list and file are unchanged |
| App.AppGUI.DeleteAccounts | tiktok_bulk_uploader.py:310-317 | removes exactly the records whose profile is selected, keeping the rest in order; an empty selection does not touch the file |
| App.AppGUI.RunAttempts | tiktok_bulk_uploader.py:231-270 | the retry loop: with no login among the first `max_retries` attempts it returns nothing and leaves `AfterFailures` of the directories; when attempt k is the first to log in it returns k's directory and display name, the failed attempts' trees and a stale tree at k's path are gone, and k's directory exists; the file is untouched |
| App.AppGUI.Login | tiktok_bulk_uploader.py:222-295 | when every attempt fails, the list and the file are unchanged and the directories are `AfterFailures` of the old ones plus the root (no attempt's directory is left, nor anything below one that existed or that Chrome created); when attempt k logs in, exactly one record (its path, its display name, `{username}`) is appended and saved, the failed attempts' trees and a stale tree at its own path are gone, and its directory exists |
| App.AppGUI.StartUpload | tiktok_bulk_uploader.py:361-406 | refuses, in source order, without accounts, without videos, or with a worker count below one (keeping a parsed count); otherwise returns the summary of the paired tasks, with 1 ≤ total = min(accounts, videos) and succeeded ≤ total |

## Left out

- The Tk window is not modelled: widgets, `refresh_account_list`, the form variables that `login_account` fills, message boxes and log lines. Dialogs that report an error are modelled as the error path only.
- `load_videos_folder` is not modelled; `videos` is a field the caller sets. The sorted recursive glob needs the file system and is outside this model.
- `create_chrome_driver`, `safe_find_input_file` and `upload_video_with_driver` are not modelled. Selenium is a foreign call, so the whole browser session is one abstract function. It is deterministic per request, so two identical tasks get the same outcome.
- `Upload.RunPool`: the thread pool is modelled as its workers running one after another. Real interleaving is concurrency and is not modelled. Any completion order is covered by `Upload.SummaryIgnoresCompletionOrder`.
- `App.AppGUI.StartUpload`: the background thread that runs `run_workers` is not modelled. The summary is returned rather than logged.
- `stop_upload`, `on_close` and the stop event are not modelled. No worker ever reads the event.
- `App.AppGUI.StartUpload`: `int()` parsing of the worker field is not modelled; a field that does not parse arrives as `None`.
- CSV quoting and encoding are not modelled; a file is a sequence of rows of fields.
- `Text.Stem`: `PurePath` normalisation is not modelled. Trailing slashes, `\` separators and Windows drive letters are outside the model, and paths are POSIX strings.
- `App.AppGUI.Login`: `rmtree(ignore_errors=True)` is modelled as always removing the whole tree. The disk holds only the directories the program names, plus whatever a caller puts there; the files Chrome writes into a profile are not represented. A failed attempt says whether Chrome had created the profile directory, and a successful one always has.
- `App.AppGUI.Login`: `time.sleep`, `driver.quit`, the temp directory and the timestamp are not modelled as behaviour; the last two are parameters.
- `DEFAULT_MAX_WORKERS` (10) is never read by the code, so the model uses the constructor's 5.
- `Upload.WorkerUpload`: the log function is assumed never to raise (tiktok_bulk_uploader.py:113, 118, 120, 123). The model therefore does not capture these outcomes:
  - A raise at line 118, after the `put` at line 117, puts a second result for the same task.
  - A raise at line 113 puts `False` without any session call.
  - A raise at line 113 and another at line 120 or 123 escapes the worker after `task_done`. No result is put for that task, so the total falls below the number of tasks. If this kills every worker while tasks remain, `task_q.join()` at line 400 waits forever.
