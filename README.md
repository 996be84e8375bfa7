# A verified model of the `.env` writer and the admin integration page

This project models in Dafny two parts of the social-ai admin UI and proves properties about them.

The first is the `.env` writer, `src/lib/envFile.ts`. `updateEnvFile` does four things:
- It splits the existing file into lines on `\r?\n`.
- It rewrites every `KEY=...` line whose key it is given to `KEY=formatValue(value)`.
- It keeps every other line where it was: comments, blank lines, and keys it is not given.
- It appends, in entry order, the keys that no line mentioned, then joins the lines with `\n`.

`formatValue` leaves the value as it is in three cases: it is empty, it is already wrapped in matching quotes, or it holds no whitespace, `#` or quote. Any other value gets double quotes, with its own double quotes escaped.

The second is the pure part of the admin API page, `src/app/admin/api/page.tsx`:
- the tab chosen from the `tab` query parameter, both when the page opens and when the parameter changes later;
- the admin headers built from stored credentials;
- the `ensureAdmin` guard;
- `normalizeConnectedPages`, which turns the backend's loosely shaped rows into `ConnectedPage` records.

The Dafny modules are:
- `Wrappers` (`wrappers.dfy`): `Option` and `Result`.
- `JsText` (`js_text.dfy`): the JavaScript string semantics both files rely on. That covers `\s`, the line terminators, `trim`, and `toLowerCase` for the characters whose lower case is plain ASCII.
- `EnvFile` (`env_file.dfy`): `needsQuotes`, `formatValue`, and the line regular expression decided by a scan. It also holds the rewrite/append logic as specification functions, and `updateEnvFile` itself as methods with loops proved against those functions.
- `AdminApi` (`admin_api.dfy`): the tab parsing, `buildAdminHeaders`, `ensureAdmin` and `normalizeConnectedPages`.

Reading and writing the file, `localStorage`, `window` and the URL's query string are not modelled as effects. What they would yield is a parameter:
- the file content is an `Option<string>`, where `None` means it could not be read;
- each `getItem` result is an `Option<string>`;
- `typeof window !== "undefined"` is a `bool`.

The `pairs` record is a sequence of key/value entries in `Object.entries` order. The lemmas that speak about a record require its keys to be distinct, as an object's keys are. The methods do not require this.

The conversation engine behind `app/routes.ts` (`socialAiBot.controller`) is not modelled.

## Model

| member | source | states |
|---|---|---|
| EnvFile.NeedsQuotes | src/lib/envFile.ts:10 | The test holds exactly when some character of the value is whitespace, `#`, `"` or `'`. |
| EnvFile.FormatValue | src/lib/envFile.ts:10-21 | The empty value gives `""`. The result equals the value exactly when the value is empty, already quoted, or holds no special character. Otherwise the result is `"`, then the value with a backslash put before each of its `"`, then `"`; every `"` inside the quotes is preceded by a backslash, and the inside reads back as the value. A value with no line terminator gives a result with none. |
| EnvFile.EscapeQuotes | src/lib/envFile.ts:19 | The escaped text is empty only for the empty value. It does not start with `"`, and every `"` in it is preceded by a backslash. |
| EnvFile.UnescapeEscape | src/lib/envFile.ts:19-20 | Escaping with `\"` loses nothing: reading the escaped text gives the value back. |
| EnvFile.FormatValueIdempotent | src/lib/envFile.ts:16-20 | Formatting an already formatted value changes nothing. |
| EnvFile.TailMatchesSpec | src/lib/envFile.ts:37 | The scan used for `\s*(.*)\s*$` holds exactly when some split of the text after `=` is whitespace, then a run with no line terminator, then whitespace. |
| EnvFile.LineKey | src/lib/envFile.ts:37-41 | A captured key is a non-empty run of `[A-Za-z0-9_]`. |
| EnvFile.LineKeySpec | src/lib/envFile.ts:37-41 | A line yields a key exactly when the whole pattern `^\s*([A-Z0-9_]+)\s*=\s*(.*)\s*$` (case-insensitive) matches it. Every match captures that key. |
| EnvFile.MatchPositions | src/lib/envFile.ts:37 | Every way of matching the pattern cuts the line where the greedy scans stop, so the match is unique. |
| EnvFile.CommentLineHasNoKey | src/lib/envFile.ts:36-38 | A line whose first non-blank character is `#` matches no key, so it is kept. |
| EnvFile.BlankLineHasNoKey | src/lib/envFile.ts:36-38 | A blank or all-whitespace line matches no key, so it is kept. |
| EnvFile.Lookup | src/lib/envFile.ts:42-45 | `key in pairs` holds exactly when some entry has that key. The value found belongs to an entry with that key. |
| EnvFile.LookupEntry | src/lib/envFile.ts:42-45 | In a record, looking up an entry's key gives that entry's value. |
| EnvFile.RewriteLineSpec | src/lib/envFile.ts:36-47 | A line the pattern matches with key `k` becomes `k=formatValue(pairs[k])` when `k` is a key of `pairs`, and is kept otherwise. A line the pattern does not match is kept. |
| EnvFile.Rewritten | src/lib/envFile.ts:36-47 | `lines.map` gives exactly one line per line read. |
| EnvFile.RewrittenAt | src/lib/envFile.ts:36-47 | The `i`-th mapped line is the `i`-th line read, rewritten. |
| EnvFile.MatchedKeysSpec | src/lib/envFile.ts:34-44 | A key is in `seen` after the map exactly when it is a key of `pairs` and some line captured it. |
| EnvFile.AssignmentLines | src/lib/envFile.ts:49-52 | The loop pushes one line per appended entry. |
| EnvFile.AssignmentLinesAt | src/lib/envFile.ts:49-52 | The `j`-th pushed line is `key=formatValue(value)` of the `j`-th appended entry. |
| EnvFile.UnmatchedSpec | src/lib/envFile.ts:49-52 | The entries appended are exactly those whose key was not seen. Each appears once, in entry order, and there are no more of them than entries. |
| EnvFile.UnmatchedMembers | src/lib/envFile.ts:49-52 | An entry is appended exactly when its key was not seen. |
| EnvFile.UnmatchedOrder | src/lib/envFile.ts:49-52 | Appended entries keep the order `Object.entries` gives them. |
| EnvFile.UpdatedLinesShape | src/lib/envFile.ts:36-52 | The output has (old line count + appended count) lines. A line without a known key keeps its text and index. Every line capturing an entry's key, duplicates included, becomes `key=formatValue(value)`. The appended lines follow, one per unmatched entry. |
| EnvFile.AppendedOnce | src/lib/envFile.ts:44-52 | A key some line matched is never appended. A key no line matched is appended exactly once. |
| EnvFile.AssignmentKey | src/lib/envFile.ts:37-51 | A written `key=value` line, with key characters in `[A-Za-z0-9_]` and a value on one line, is matched again with the same key. |
| EnvFile.RewriteLineTwice | src/lib/envFile.ts:36-47 | With a safe record, rewriting a line a second time changes nothing and marks the same key. |
| EnvFile.UpdatedLinesIdempotent | src/lib/envFile.ts:36-52 | Running the update again on its output lines, with the same safe record, gives the same lines. |
| EnvFile.SplitLines | src/lib/envFile.ts:33 | `split(/\r?\n/)` always yields at least one line. |
| EnvFile.SplitLinesNoNewline | src/lib/envFile.ts:33 | No line of the split holds a `\n`. |
| EnvFile.SplitJoin | src/lib/envFile.ts:33-54 | Splitting joined lines gives them back, when no line holds `\n` and none but the last ends in `\r`. |
| EnvFile.JoinSplit | src/lib/envFile.ts:33-54 | Joining split text gives the text back, when it holds no `\r`. |
| EnvFile.JoinCons | src/lib/envFile.ts:54 | `join("\n")` puts one `\n` between the first line and the join of the rest. |
| EnvFile.SplitJoinCRLF | src/lib/envFile.ts:33 | `split(/\r?\n/)` reads `\r\n` as one line end: lines joined with `\r\n` split back into themselves, when no line holds `\n` and none but the last ends in `\r`. |
| EnvFile.UpdatedContentCRLF | src/lib/envFile.ts:33-54 | When no line holds `\n` and none but the last ends in `\r`, a file with `\r\n` line ends is written exactly as the same file with `\n` line ends would be, so its line ends come out as `\n`. |
| EnvFile.MultiLineValueNotIdempotent | src/lib/envFile.ts:16-54 | With the entry `K` = `a\nb`, a new file is written as `\nK="a\nb"`. Read back, that text splits into three lines, and a second run writes a different text. |
| EnvFile.UpdatedLinesSingle | src/lib/envFile.ts:36-52 | When no input line holds a `\n` or ends in `\r`, and the record is safe, no output line does either. |
| EnvFile.UpdatedContentLines | src/lib/envFile.ts:33-54 | Splitting the written text gives back exactly the updated lines, with a safe record and no stray `\r` in the text read. |
| EnvFile.UpdatedContentIdempotent | src/lib/envFile.ts:33-54 | Updating the written text again with the same safe record writes the same text. |
| EnvFile.EmptyFileStartsBlank | src/lib/envFile.ts:25-54 | A missing or empty file reads as one empty line, so with any entries the written text starts with `\n`. |
| EnvFile.UpdateEnvLines | src/lib/envFile.ts:33-52 | The map-then-append body computes exactly the specified output lines. |
| EnvFile.MapLines | src/lib/envFile.ts:34-47 | The `lines.map` loop yields the rewritten lines, and `seen` ends as the set of matched keys. |
| EnvFile.PushUnseen | src/lib/envFile.ts:49-52 | The `for ... of Object.entries` loop appends exactly the unmatched entries' lines, in entry order. |
| EnvFile.UpdateEnvFile | src/lib/envFile.ts:23-55 | The text written is the update of the text read, or of `""` when the read failed. |
| JsText.TrimStart | src/app/admin/api/page.tsx:60-61 | The result is a suffix of the input, what it drops is all `\s`, and it does not start with `\s`. |
| JsText.TrimEnd | src/app/admin/api/page.tsx:60-61 | The result is a prefix of the input, what it drops is all `\s`, and it does not end with `\s`. |
| JsText.Trim | src/app/admin/api/page.tsx:60-61 | `trim()` yields a trimmed string. It is empty exactly when the input is all `\s`, and it leaves a trimmed string unchanged. |
| JsText.TrimValue | src/app/admin/api/page.tsx:60-61 | The trimmed string is a slice of the input, and everything before and after that slice is `\s`. |
| JsText.TrimOfPadded | src/app/admin/api/page.tsx:60-61 | Padding a trimmed string with `\s` on either side and trimming gives that string back. |
| AdminApi.ParseTab | src/app/admin/api/page.tsx:88-89 | `String(param \|\| "").toLowerCase()` is computed; a tab is found exactly when that text is the tab's name, and none is found when it names no tab. |
| AdminApi.InitialTab | src/app/admin/api/page.tsx:87-91 | The page opens on the tab the lower-cased parameter names. Otherwise, including when the parameter is missing, it opens on Facebook. |
| AdminApi.InitialTabOfName | src/app/admin/api/page.tsx:87-91 | Each tab's own name selects it. |
| AdminApi.InitialTabIgnoresCase | src/app/admin/api/page.tsx:88 | An upper-case tab name selects the same tab. |
| AdminApi.InitialTabMissing | src/app/admin/api/page.tsx:88-90 | A missing parameter selects Facebook. |
| AdminApi.InitialTabDefault | src/app/admin/api/page.tsx:89-90 | A parameter naming no tab, in any case, selects Facebook. |
| AdminApi.SyncTab | src/app/admin/api/page.tsx:235-237 | When the parameter changes, a parameter naming a tab selects it. Anything else keeps the current tab. |
| AdminApi.SyncTabFromDefault | src/app/admin/api/page.tsx:87-93 | Syncing from the default tab agrees with the initial choice. |
| AdminApi.SyncTabIdempotent | src/app/admin/api/page.tsx:235-237 | Syncing twice with the same parameter is syncing once. |
| AdminApi.BuildAdminHeaders | src/app/admin/api/page.tsx:20-31 | Outside a browser the headers are empty. `Authorization: Bearer <token>` is present exactly when a token is stored, `x-admin-key` exactly when a key is stored, and no other header is sent. |
| AdminApi.AdminHeadersUnique | src/app/admin/api/page.tsx:20-31 | Those conditions fix the headers completely. |
| AdminApi.EnsureAdmin | src/app/admin/api/page.tsx:121-129 | The guard fails with its message exactly when neither header would be sent. Otherwise it returns the built headers, which are not empty. |
| AdminApi.FirstTruthy | src/app/admin/api/page.tsx:59-61 | `a \|\| b \|\| ... \|\| fallback` gives the first truthy property, or the fallback when none is truthy. |
| AdminApi.FirstNonNullish | src/app/admin/api/page.tsx:62 | `a ?? b ?? fallback` gives the first property that is neither `null` nor `undefined`, or the fallback. |
| AdminApi.FirstOfThree | src/app/admin/api/page.tsx:60-61 | With three candidate names, `a \|\| b \|\| c \|\| fallback` is the first truthy of the three properties, or the fallback. |
| AdminApi.TrimmedFirstOfThree | src/app/admin/api/page.tsx:60-61 | `String(a \|\| b \|\| c \|\| "").trim()` is the trimmed string of the first truthy candidate, and `""` when none is truthy. |
| AdminApi.NormalizedPageId | src/app/admin/api/page.tsx:60 | The page id is the trimmed string of the first truthy of `pageId`, `page_id`, `pageID`, and `""` when none is truthy. |
| AdminApi.NormalizedPageName | src/app/admin/api/page.tsx:61 | The page name is the trimmed string of the first truthy of `pageName`, `page_name`, `name`, and `""` when none is truthy. |
| AdminApi.NormalizeRow | src/app/admin/api/page.tsx:58-69 | The page id and page name come out trimmed. |
| AdminApi.NormalizeConnectedPages | src/app/admin/api/page.tsx:55-71 | A non-array gives `[]`. An array never gives more pages than rows, and every page id kept is non-empty and trimmed. |
| AdminApi.MapRows | src/app/admin/api/page.tsx:57-69 | `arr.map(...)` gives exactly one page per row. |
| AdminApi.MapRowsAt | src/app/admin/api/page.tsx:57-69 | The `i`-th mapped page is the normalised `i`-th row. |
| AdminApi.KeepPages | src/app/admin/api/page.tsx:70 | The filter keeps only pages with a page id, each one from its input. |
| AdminApi.KeepPagesKeepsOrder | src/app/admin/api/page.tsx:70 | The filter keeps exactly the pages with a non-empty page id, in their original order. |
| AdminApi.NormalizeKeepsOrder | src/app/admin/api/page.tsx:55-71 | The `j`-th page is the normalised `j`-th surviving row. Rows survive exactly when their trimmed page id is non-empty, and order is kept. |
| AdminApi.MapRowsTrimmed | src/app/admin/api/page.tsx:58-60 | Every mapped page has a trimmed page id. |
| AdminApi.DroppedRow | src/app/admin/api/page.tsx:60-70 | A row is dropped exactly when its chosen page id is empty or all whitespace. |
| AdminApi.BlankPageIdHidesFallback | src/app/admin/api/page.tsx:60-70 | Fallbacks are chosen before trimming: a whitespace `pageId` wins over `page_id`/`pageID`, and the row is then dropped. |
| AdminApi.EmptyUpdatedAtHidesFallback | src/app/admin/api/page.tsx:62-67 | `??` only skips nullish values: an empty `updatedAt` hides `updated_at` and yields `null`. |
| AdminApi.NormalizedId | src/app/admin/api/page.tsx:59-64 | The id is `Number(r.id \|\| 0)` when that is finite, and 0 otherwise, including for a falsy or non-finite `id`. |
| AdminApi.NormalizedUpdatedAt | src/app/admin/api/page.tsx:62-67 | `updatedAt` is `null` exactly when the first non-nullish candidate is falsy. Otherwise it is that value's string form. |

## Left out

- File I/O: `fs.readFileSync`/`fs.writeFileSync` and the default path `process.cwd()/.env`. The content read is a parameter, with `None` standing for the read error the source catches, and the text written is the result.
- `String(v ?? "")` for values that are not strings: the record's values are strings in the model.
- `key in pairs` also finds names on `Object.prototype` such as `constructor`. The model's lookup sees only the record's own entries.
- `Object.entries` order is an input: entries are given in enumeration order, whatever order the engine's rules for integer-like keys produce.
- Strings are sequences of Unicode scalar values rather than UTF-16 code units. Lone surrogates are not represented.
- `toLowerCase` is modelled only for ASCII letters and KELVIN SIGN. These are the only characters whose lower case is plain ASCII, which is what comparing against the tab names needs.
- `Number(...)` parsing and `String(...)` formatting of numbers and objects are not computed. A loose value carries both forms as data.
- Sparse-array holes, getters, and rows that throw on property access are not modelled. A row is the map of its readable properties.
- React state, `useMemo`, `fetch`, the OAuth redirect, `safeReadJsonMessage`, `persistAdminKey`, `loadConnectedPages` and the rest of the page's handlers are not modelled. They are effects, or calls to the backend.
- `src/lib/mysql.ts`, `app/app.ts`, `app/routes.ts` and `src/app/admin/layout.tsx` are not part of this model.
- EnvFile.UpdatedLinesIdempotent: requires keys made of `[A-Za-z0-9_]` and values without line terminators. `formatValue` does not escape newlines, so a multi-line value is not read back as one line; MultiLineValueNotIdempotent exhibits a record for which a second run changes the file.
- EnvFile.UpdatedContentIdempotent: additionally requires that no line of the text read ends in a stray `\r`. Such a line is written back followed by `\n`, and the next split reads that `\r\n` as a plain line end, which drops the `\r`.
- EnvFile.UpdateEnvLines: `lines.map` and the append loop are written as two methods, MapLines and PushUnseen, that it calls in sequence.
