# File-backed record store of node-js-postman-be

This project models, in Dafny, the only part of the `node-js-postman-be`
server with real logic: the store behind its three HTTP handlers. The
records are saved "API requests", each keyed by its `url`. They live as one
JSON array in `data.json`.

- `records.dfy`, module `Records`: a record (`url` plus pass-through fields)
  and the two pure computations the handlers run on the loaded array. These
  are the duplicate search `items.find(item => item.url === newItem.url)`
  (`Find`) and the removal `items.filter(item => item.url !== urlToDelete)`
  (`Without`). Their lemmas cover order preservation, the exact count
  removed and the uniqueness invariant.
- `store.dfy`, module `FileStore`: the file as mutable state. It is the field
  `file` of class `RecordStore`, either `Missing` or `OnDisk(contents)`.
  `EnsureExists`, `Save`, `Load` and `Delete` mirror `ensureDataFileExists`
  and the three handlers step by step. Each one states its whole new state
  and its `Outcome`: a status code, or `Crashed`.
- `scenarios.dfy`, module `Scenarios`: client request sequences on a fresh
  store. Their contracts follow from the handlers' contracts alone.

Modelling decisions:

- A `url` is `UrlField`: `Absent` (the property is `undefined`) or
  `Present(text)`. JavaScript's `===` is equality on these values.
  `undefined === undefined` holds, so a body without `url` clashes with a
  stored record without `url`. A `DELETE` without a `url` query removes
  every record that lacks one.
- File contents after decoding are `Empty` (zero-length text), `Items(records)`
  or `Unparsable`. JSON text is not modelled.
- The empty-file asymmetry follows the code. `/api/save` and `/api/load`
  guard with `if (data)` / `data ? … : []` (server.js:35-37, 67), so an empty
  file reads as `[]`. `/api/delete` calls `JSON.parse(data)` unguarded
  (server.js:84), so it fails on an empty file. See `LenientParse`,
  `StrictParse` and `FileStore.ParseAsymmetry`.
- A parse failure is thrown inside the `fs.readFile` callback. Express does
  not catch it there, so no status is sent. The model reports it as
  `Crashed`, not 500. The design text calls this case a server error; the
  model follows the code.
- `ensureDataFileExists` writes before the read happens. A request whose
  later read fails still leaves a previously missing file created as `[]`.
  So every rejection path leaves the file at `Initialised(old(file))`, the
  state after that first step, and not always at `old(file)`.
- A read or write error is a boolean parameter (`readFails`, `writeFails`).
  On a write failure the file keeps its prior contents, as the design
  assumes.
- On success, the design text says delete reports a removed count. The code
  only answers 200 with a message, and the model follows the code.
- Each handler runs as one atomic step.

## Model

| member | source | states |
|---|---|---|
| `Records.Find` | server.js:40-41 | the search finds a record exactly when some stored record has the new item's url; the record found has that url and is the first one with it |
| `Records.Without` | server.js:85 | the filtered array is no longer than the original, and no survivor has the deleted url; a record survives exactly when it was stored and its url differs |
| `Records.WithoutIsSubsequence` | server.js:85 | the survivors of the filter keep their relative order: the result is a subsequence of the stored array |
| `Records.WithoutCount` | server.js:85 | the filter removes exactly as many records as carry the url, so all matches go, not just the first |
| `Records.CountPositive` | server.js:85-87 | some record carries the url exactly when the number of records with it is positive |
| `Records.NothingRemovedIffAbsent` | server.js:85-89 | the length test `items.length === updatedItems.length` holds exactly when no record has the url, and then the filtered array equals the stored one |
| `Records.WithoutUnmatched` | server.js:85-88 | filtering out a url that no record has returns the array unchanged |
| `Records.UniqueCountAtMostOne` | server.js:40-46 | under the uniqueness invariant at most one record carries a url, and exactly one when it is present |
| `Records.UniqueDeleteRemovesOne` | server.js:85-91 | deleting a present url from an array with unique urls removes exactly one record |
| `Records.WithoutPreservesUnique` | server.js:85-91 | the filtered array keeps the uniqueness invariant |
| `Records.SubsequencePreservesUnique` | server.js:85 | any order-preserving selection from an array with unique urls has unique urls |
| `Records.SubsequenceMembers` | server.js:85 | every record of an order-preserving selection occurs in the original array |
| `Records.AppendPreservesUnique` | server.js:40-46 | appending a record whose url is new keeps urls pairwise distinct and keeps every earlier record at its index, with the new one last |
| `Records.CountAppend` | server.js:46 | appending a record adds one to the count of its url |
| `FileStore.ParseAsymmetry` | server.js:35-37 | the guarded parse of save and load and the unguarded parse of delete agree on every content except the empty file, which only the guarded one reads, as `[]` |
| `FileStore.RecordStore.EnsureExists` | server.js:16-20 | afterwards the file exists; an existing file is unchanged, and a missing one becomes the empty array |
| `FileStore.RecordStore.Save` | server.js:23-55 | read failure gives 500, unparsable contents crash, a duplicate url gives 400, write failure gives 500, each with the file unchanged; otherwise 200 and the file holds the old records followed by the new item; uniqueness of urls is preserved on every path |
| `FileStore.RecordStore.Load` | server.js:58-70 | the file is only ensured, never changed; read failure gives 500, unparsable contents crash, and otherwise 200 with exactly the stored records, the empty file and the fresh file giving `[]` |
| `FileStore.RecordStore.Delete` | server.js:73-99 | read failure gives 500; the empty or unparsable file crashes; no match gives 404; write failure gives 500, each with the file unchanged; otherwise 200, the file holds the filtered array, strictly shorter, without the url, and one record shorter when urls were unique; uniqueness is preserved |
| `Scenarios.EnsureTwice` | server.js:16-20 | calling `ensureDataFileExists` twice gives the same file as once, and an existing file is never modified |
| `Scenarios.FreshStoreLoadsEmpty` | server.js:58-70 | a store that was never written loads successfully as the empty array |
| `Scenarios.SaveThenLoad` | server.js:23-70 | saving a record with a new url, then loading, succeeds both times; the result is the old records followed by it, and it is the only record with its url |
| `Scenarios.DuplicateSaveRejected` | server.js:40-43 | a second save under an already saved url is answered 400, and a load afterwards shows only the first record |
| `Scenarios.DeleteTwice` | server.js:85-96 | deleting a stored url from a store with unique urls succeeds and removes exactly that one record; repeating it gives 404 |
| `Scenarios.Walkthrough` | server.js:23-99 | on a missing file: save 200, same save 400, load 200, delete 200, same delete 404, final load `[]` |

## Left out

- Express setup, CORS, body parsing, the port and `app.listen` (server.js:1-13, 101-104): framework wiring with no store logic.
- Response message strings and `console.error` logging: I/O only; the model keeps the status code.
- The real file-system calls (`existsSync`, `readFile`, `writeFile`) and why they fail: foreign calls, replaced by the file state and the `readFails` / `writeFails` flags.
- A failure of `fs.writeFileSync` inside `ensureDataFileExists` (server.js:18): that exception is thrown synchronously into the framework's error handler, which is not part of this model.
- JSON text, its parsing and the 2-space pretty-printing (server.js:47, 91): contents are decoded records, and serialisation is taken to round-trip them.
- Files holding valid JSON that is not an array of objects. One example is `{}`: load would return it with 200, while save and delete throw on it. The model has only `Unparsable` for such content, and its `Load` crashes there.
- `url` values that are not strings or missing, such as numbers or a repeated `url` query that parses to an array: `UrlField` holds only strings and absence.
- Concurrent requests and the read-modify-write race between them: each handler is one atomic sequential step.
- The extra fields of a record are `others`, carried unchanged; their JSON structure is not modelled.
