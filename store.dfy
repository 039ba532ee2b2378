/**
 The file-backed record store: the single `data.json` file as mutable state,
 and the three HTTP handlers `/api/save`, `/api/load` and `/api/delete` as
 methods that each read it, decide, and possibly overwrite it.

 The file system's failures are not predictable, so every handler takes them
 as flags: `readFails` for an error reported by `fs.readFile`, `writeFails`
 for one reported by `fs.writeFile`.
 */
module FileStore {
  import opened Records

  /** What `fs.readFile` hands the handler, after JSON decoding.
      `Empty` is the zero-length file; `Unparsable` is non-empty text that is
      not a JSON array of records. */
  datatype Contents = Empty | Items(records: seq<Record>) | Unparsable

  /** The backing file: absent, or present with some contents. */
  datatype FileState = Missing | OnDisk(contents: Contents)

  /** How a request ends. `Crashed` is an exception thrown inside the read
      callback (`JSON.parse` on bad text): it escapes the framework and no
      status is sent. */
  datatype Outcome = Replied(status: int) | Crashed

  const OK: int := 200
  const BAD_REQUEST: int := 400
  const NOT_FOUND: int := 404
  const SERVER_ERROR: int := 500

  /** The file after `ensureDataFileExists`: a missing file is created as `[]`. */
  function Initialised(f: FileState): FileState {
    if f.Missing? then OnDisk(Items([])) else f
  }

  /** `data ? JSON.parse(data) : []`, as in `/api/save` and `/api/load`:
      empty contents read as the empty array. */
  function LenientParse(c: Contents): Option<seq<Record>> {
    match c
    case Empty => Some([])
    case Items(s) => Some(s)
    case Unparsable => None
  }

  /** `JSON.parse(data)` with no guard, as in `/api/delete`: empty contents
      are a syntax error. */
  function StrictParse(c: Contents): Option<seq<Record>> {
    match c
    case Empty => None
    case Items(s) => Some(s)
    case Unparsable => None
  }

  /** The two parses agree everywhere except on the empty file, which only
      the guarded one accepts. */
  lemma ParseAsymmetry(c: Contents)
    ensures c != Empty ==> StrictParse(c) == LenientParse(c)
    ensures c == Empty ==> LenientParse(c) == Some([]) && StrictParse(c) == None
    ensures StrictParse(c).Some? ==> LenientParse(c) == StrictParse(c)
  {
  }

  /** The records the file holds have pairwise distinct urls, as far as they
      can be read at all. */
  predicate StoredUnique(f: FileState) {
    f.OnDisk? && f.contents.Items? ==> UniqueUrls(f.contents.records)
  }

  /** The records a successful load would return. */
  function Stored(f: FileState): seq<Record> {
    if f.OnDisk? && f.contents.Items? then f.contents.records else []
  }

  class RecordStore {
    /** The file at its fixed path. */
    var file: FileState

    constructor (initial: FileState)
      ensures file == initial
    {
      file := initial;
    }

    /** `ensureDataFileExists`: create the file as `[]` only when absent. */
    method EnsureExists()
      modifies this
      ensures file.OnDisk?
      ensures old(file).OnDisk? ==> file == old(file)
      ensures old(file).Missing? ==> file == OnDisk(Items([]))
    {
      if file.Missing? {
        file := OnDisk(Items([]));
      }
    }

    /** `POST /api/save`: reject a duplicate url with 400, otherwise append
        the item and overwrite the file. */
    method Save(newItem: Record, readFails: bool, writeFails: bool) returns (outcome: Outcome)
      modifies this
      // the whole new state, case by case
      ensures var before := Initialised(old(file));
              if readFails then outcome == Replied(SERVER_ERROR) && file == before
              else match LenientParse(before.contents)
                case None => outcome == Crashed && file == before
                case Some(items) =>
                  if HasUrl(items, newItem.url) then outcome == Replied(BAD_REQUEST) && file == before
                  else if writeFails then outcome == Replied(SERVER_ERROR) && file == before
                  else outcome == Replied(OK) && file == OnDisk(Items(items + [newItem]))
      // every path but success leaves the (ensured) file untouched
      ensures outcome != Replied(OK) ==> file == Initialised(old(file))
      // on success the earlier records keep their place and the item is last
      ensures outcome == Replied(OK) ==>
                file.OnDisk? && file.contents.Items? &&
                file.contents.records == Stored(Initialised(old(file))) + [newItem]
      // the uniqueness invariant is kept, whether the call succeeds or not
      ensures StoredUnique(old(file)) ==> StoredUnique(file)
    {
      EnsureExists();
      if readFails {
        return Replied(SERVER_ERROR);
      }
      var items: seq<Record> := [];
      if file.contents != Empty {
        if file.contents.Unparsable? {
          return Crashed;
        }
        items := file.contents.records;
      }
      var duplicate := Find(items, newItem.url);
      if duplicate.Some? {
        return Replied(BAD_REQUEST);
      }
      if StoredUnique(file) {
        AppendPreservesUnique(items, newItem);
      }
      items := items + [newItem];
      if writeFails {
        return Replied(SERVER_ERROR);
      }
      file := OnDisk(Items(items));
      outcome := Replied(OK);
    }

    /** `GET /api/load`: return the stored array; empty contents load as []. */
    method Load(readFails: bool) returns (outcome: Outcome, items: seq<Record>)
      modifies this
      ensures file == Initialised(old(file))
      ensures readFails ==> outcome == Replied(SERVER_ERROR) && items == []
      ensures !readFails ==>
                match LenientParse(file.contents)
                case None => outcome == Crashed && items == []
                case Some(s) => outcome == Replied(OK) && items == s
      ensures outcome == Replied(OK) ==> items == Stored(file)
      ensures !readFails && old(file).Missing? ==> outcome == Replied(OK) && items == []
    {
      EnsureExists();
      items := [];
      if readFails {
        return Replied(SERVER_ERROR), [];
      }
      if file.contents.Unparsable? {
        return Crashed, [];
      }
      if file.contents.Items? {
        items := file.contents.records;
      }
      outcome := Replied(OK);
    }

    /** `DELETE /api/delete?url=...`: remove every record with that url,
        404 when none matched. */
    method Delete(urlToDelete: UrlField, readFails: bool, writeFails: bool) returns (outcome: Outcome)
      modifies this
      // the whole new state, case by case
      ensures var before := Initialised(old(file));
              if readFails then outcome == Replied(SERVER_ERROR) && file == before
              else match StrictParse(before.contents)
                case None => outcome == Crashed && file == before
                case Some(items) =>
                  if !HasUrl(items, urlToDelete) then outcome == Replied(NOT_FOUND) && file == before
                  else if writeFails then outcome == Replied(SERVER_ERROR) && file == before
                  else outcome == Replied(OK) && file == OnDisk(Items(Without(items, urlToDelete)))
      // every path but success leaves the (ensured) file untouched
      ensures outcome != Replied(OK) ==> file == Initialised(old(file))
      // an empty file is not parsed by this handler
      ensures !readFails && Initialised(old(file)) == OnDisk(Empty) ==> outcome == Crashed
      // on success the store strictly shrinks and no longer holds the url
      ensures outcome == Replied(OK) ==>
                file.OnDisk? && file.contents.Items? &&
                !HasUrl(file.contents.records, urlToDelete) &&
                |file.contents.records| < |Stored(Initialised(old(file)))|
      // under the uniqueness invariant exactly one record goes
      ensures outcome == Replied(OK) && StoredUnique(old(file)) ==>
                |Stored(file)| == |Stored(Initialised(old(file)))| - 1
      // the uniqueness invariant is kept
      ensures StoredUnique(old(file)) ==> StoredUnique(file)
    {
      EnsureExists();
      if readFails {
        return Replied(SERVER_ERROR);
      }
      if !file.contents.Items? {
        return Crashed;
      }
      var items := file.contents.records;
      var updatedItems := Without(items, urlToDelete);
      NothingRemovedIffAbsent(items, urlToDelete);
      if |items| == |updatedItems| {
        return Replied(NOT_FOUND);
      }
      if StoredUnique(file) {
        UniqueDeleteRemovesOne(items, urlToDelete);
        WithoutPreservesUnique(items, urlToDelete);
      }
      if writeFails {
        return Replied(SERVER_ERROR);
      }
      file := OnDisk(Items(updatedItems));
      outcome := Replied(OK);
    }
  }
}
