# A verified model of the `File` handle (stojanov/file)

The repository wraps Node's `fs` module in a `File` object. You construct a
handle from a directory path and a file name. It derives the full path, the
extension and the name without the extension. It keeps an `exists` flag, and
it offers `statsSync`, `getStats`, `rename`, `delete`, `read`, `readSync`,
`write`, `append` and `duplicate`. Each of these checks some guards and then
delegates to one `fs` call.

This model keeps all of the handle's own logic and abstracts the file system
away:

- `js_values.dfy` (module `JsValues`) covers the JavaScript semantics that the
  handle relies on. It has the argument values a caller can pass, truthiness
  (`if (!x)`), the `typeof` tests, and conversion to string (`"…" + x`). A call
  either returns a value or throws (`Completion`).
- `file_ex.dfy` (module `FileEx`) covers `getFileEx`. It gives a reference
  definition of what `\.[0-9a-z]+$` with the `i` flag matches (`MatchesAt`,
  over the character class `AllAlnum`), a function that finds that match
  (`MatchStart`), and models of
  `String.prototype.indexOf`, including its clamping of a start position
  past the end, and `replace` (`IndexOf`, `Replace`). It also has
  lemmas about the `{ name, ex }` pair that results.
- `file_handle.dfy` (module `FileHandle`) covers the `File` class.
  - The identity fields are `const`, because only the constructor assigns
    them.
  - The `exists` flag is the one mutable field, called `fileExists` here
    because `exists` is a Dafny keyword.
  - Each operation is a method. It returns either the exception it throws or
    the `fs` call it would issue (`FsCall`), with that call's paths and
    arguments.

Behaviour of the code that the model keeps as it is:

- A name without an alphanumeric extension throws. This covers `README`,
  `a.` and `a.tar-gz`.
- The full path is the naive `path + '/' + filename`, not a platform path join.
- `name` is the file name with the FIRST occurrence of `"." + ex` removed.
  For `x.js.bak.js` that gives `x.bak.js` (lemma
  `RepeatedExtensionIsCutAtFirstOccurrence`).
- `rename` does not refresh the handle's fields.
- `duplicate` copies to its argument as given, not to a path in the
  handle's directory.
- Operations consult the cached flag and do not probe the file system again.
- A truthy `stats` argument always makes the constructor throw "File doesn't
  exist. ". This happens because `statsSync` runs before the existence
  probe's callback can have set the flag (`File.Create`).
- `read` rejects a non-function callback with the message of `getStats`.
- `append`'s message is spelled "appned". Both messages are kept verbatim.

## Model

| member | source | states |
|---|---|---|
| `JsValues.ToString` | file.js:27 | string conversion used by every `"…" + x`: a string converts to itself; a safe integer to `-` exactly when it is negative, followed by decimal digits without leading zeros (zero is the single digit `0`) whose value is the number's magnitude |
| `JsValues.DecimalRoundTrip` | file.js:27 | reading back the decimal digits printed for a natural number gives that number |
| `FileEx.AllAlnumMeansEveryChar` | file.js:5 | the class `[0-9a-z]` with the `i` flag accepts a run of characters exactly when every one of them is an ASCII letter or digit |
| `FileEx.AlnumSuffixLength` | file.js:5 | the length of the run of `[0-9A-Za-z]` characters that ends the name: all of them are alphanumeric and the character before them (if any) is not |
| `FileEx.MatchFollowsAlnumRun` | file.js:5 | wherever `\.[0-9a-z]+$` matches, it starts just before the alphanumeric run that ends the name, and that run is neither empty nor the whole name |
| `FileEx.MatchStart` | file.js:5-8 | the match of `\.[0-9a-z]+$` (flag `i`) is found exactly when one exists, at the only index where the regular expression matches |
| `FileEx.IndexOf` | file.js:13-14 | `indexOf` returns the first index at or after `from` (a `from` past the end counting as the end) where the pattern occurs, and none when it occurs nowhere there |
| `FileEx.ReplaceCutsFirstOccurrence` | file.js:13 | `replace(pat, '')` cuts out the first occurrence of `pat`, which lies at or before any known occurrence |
| `FileEx.LeadingDotReplaced` | file.js:14 | `replace('.', '')` on text that starts with a dot drops exactly that dot |
| `FileEx.GetFileEx` | file.js:4-17 | throws `Error("Error... :'(")` exactly when the name does not end in `.` followed by one or more ASCII letters or digits |
| `FileEx.DotParts` | file.js:11-14 | splitting at a dot: `ex` is the text after the dot, the matched text is `"." + ex`, which occurs there, and `name` is the file name with `"." + ex` replaced by nothing |
| `FileEx.CutsFirstDottedOccurrence` | file.js:13 | the name is the file name with the FIRST occurrence of `"." + ex` cut out, an occurrence at or before the trailing one |
| `FileEx.ExtensionFollowsMatchedDot` | file.js:11-14 | on success, `ex` is the text after the dot where the match starts |
| `FileEx.ExtensionIsTrailingAlnumRun` | file.js:5-14 | on success, `ex` is non-empty, alphanumeric, contains no `.`, and `"." + ex` ends the name: `ex` is the text after the name's last `.` |
| `FileEx.NameIsReplaceOfExtension` | file.js:11-14 | on success, `"." + ex` occurs at the end of the name, and `name` is the file name with `"." + ex` replaced by nothing |
| `FileEx.NameIsStem` | file.js:13 | when the trailing `"." + ex` is its first occurrence, `name` is the text before the last `.` and `name + "." + ex` is the file name |
| `FileEx.RepeatedExtensionIsCutAtFirstOccurrence` | file.js:11-14 | for `x.js.bak.js` the result is name `x.bak.js`, ex `js` |
| `FileEx.PlainNameSplits` | file.js:4-17 | for `a.txt` the result is name `a`, ex `txt` |
| `FileEx.NamesWithoutExtensionThrow` | file.js:5-8 | `README`, `a.` and `a.tar-gz` throw |
| `FileHandle.DefaultEncoding` | file.js:128 | the default `encoding = 'utf8'` applies when the argument is left out and every other argument passes through |
| `FileHandle.File.Init` | file.js:35-39 | the handle stores the path, the file name, `path + '/' + filename`, and `getFileEx`'s `ex` and `name`; the flag starts unset, no write is pending and the existence probe has yet to answer |
| `FileHandle.File.Create` | file.js:20-43 | checks run in order: an empty or falsy path throws "A file path is required.", then a falsy file name throws "A file name is required.", a non-string name throws a TypeError, a name without extension throws `getFileEx`'s error, and a truthy `stats` throws "File doesn't exist. "; otherwise a fresh valid handle with exactly those field values, the flag unset and no write pending |
| `FileHandle.File.ExistsProbed` | file.js:29-31 | the probe's callback runs only while the probe is unanswered, stores its answer in the flag and leaves the probe answered, so it runs at most once |
| `FileHandle.File.StatsSync` | file.js:49-54 | throws "File doesn't exist. " exactly when the flag is falsy, otherwise issues `statSync(fullPath)` |
| `FileHandle.File.GetStats` | file.js:56-74 | the flag is checked first, then that the callback is a function (message names the value); on success issues `stat(fullPath)` |
| `FileHandle.File.Rename` | file.js:80-98 | the flag is checked first, then that `newName` is a string; on success issues `rename(fullPath, filePath + '/' + newName)`, the old and new path share the directory prefix and are equal exactly when `newName` is the current file name |
| `FileHandle.File.Delete` | file.js:105-122 | throws exactly when the flag is falsy, otherwise issues `unlink(fullPath)` |
| `FileHandle.File.Read` | file.js:128-142 | the flag is checked first, then that the callback is a function (with `getStats`'s message); on success issues `readFile(fullPath, encoding or 'utf8')` |
| `FileHandle.File.ReadSync` | file.js:144-149 | throws exactly when the flag is falsy, otherwise issues `readFileSync(fullPath, encoding or 'utf8')` |
| `FileHandle.File.Write` | file.js:155-160 | never consults or changes the flag; throws exactly when data is not a string, leaving no write pending; otherwise issues `writeFile(fullPath, data)`, which becomes pending together with whether the callback is a function |
| `FileHandle.File.WriteCompleted` | file.js:160-167 | only a pending write can complete, and it is then no longer pending; the flag becomes true exactly when that write succeeded and its `write` was given a callback function, and is otherwise unchanged |
| `FileHandle.File.Append` | file.js:175-188 | never consults the flag; throws exactly when data is not a string; issues `appendFile(fullPath, data)` |
| `FileHandle.File.Duplicate` | file.js:194-206 | never consults the flag; throws exactly when the destination is not a string; issues `copyFile(fullPath, name)` with the name as given |
| `FileHandle.WriteEnablesDelete` | file.js:155-169 | on a fresh handle `delete` throws "File doesn't exist. ", and still throws right after `write` returns; once that write has completed successfully with a callback, `delete` unlinks `path + '/' + filename` |

## Left out

- The `fs` calls themselves (`exists`, `stat`, `statSync`, `rename`,
  `unlink`, `readFile`, `readFileSync`, `writeFile`, `appendFile`,
  `copyFile`). They are foreign I/O. Each operation returns the call it
  would issue instead, so `fs.Stats` objects, file contents and encodings
  do not appear.
- Timing of the existence probe. Its callback is the separate method
  `File.ExistsProbed`, and the flag is a plain field. The only timing fact
  used is that, before the constructor finishes, the callback can at most
  have stored `false`, so the flag is unset inside the constructor. The
  ghost field `probePending` lets the callback answer exactly once. Which
  of `File.ExistsProbed` and `File.WriteCompleted` runs last is up to the
  event loop; a caller interleaves them explicitly.
- Completion callbacks. The completion of `write`'s `writeFile` is the
  separate method `File.WriteCompleted`, which takes the outcome as its
  parameter `succeeded`. It can only complete a write that `write` issued
  and left pending (the ghost field `pendingWrites`), with the callback
  fact that `write` recorded. No other completion changes the handle.
  Callers' callbacks and their arguments are not modelled.
- Errors re-thrown inside completion callbacks. They surface in the event
  loop, not to the caller.
- The `stats` property that a truthy `stats` argument would set. It can
  never be assigned, because that path always throws.
- `JsValues.ToString`: numbers are only the safe integers, of magnitude at
  most 2^53 - 1 (`Number.MAX_SAFE_INTEGER`). Larger integers are not
  represented: JavaScript rounds them to the nearest double, prints the
  shortest digits that read back as that double padded with zeros
  (`2**60` prints as `1152921504606847000`), and from 10^21 on prints them
  in exponent form (`1e+21`). Strings are sequences of
  Unicode scalar values, not UTF-16 code units, so a path or name holding a
  lone surrogate cannot be expressed.
- JavaScript values beyond `Value`: non-integer numbers, `NaN`, symbols,
  BigInts, arrays, and objects with their own `toString` or `match`. The
  model converts a plain object to "[object Object]" and a function to its
  source text. It treats every truthy non-string file name as lacking
  `match`.
- `FileHandle.File.Create`: stated for the thrown exception only. The
  TypeError carries no message, because its text is engine-specific.
