/**
 Request sequences against a store, each on a fresh `RecordStore` over a given
 file, with no file-system failure. Their contracts are what a client of the
 three handlers can rely on, proved from the handlers' contracts alone.
 */
module Scenarios {
  import opened Records
  import opened FileStore

  /** `ensureDataFileExists` is idempotent: a second call changes nothing,
      and an existing file is never touched. */
  method EnsureTwice(initial: FileState) returns (once: FileState, twice: FileState)
    ensures once == twice
    ensures once.OnDisk?
    ensures initial.OnDisk? ==> once == initial
    ensures initial.Missing? ==> once == OnDisk(Items([]))
  {
    var store := new RecordStore(initial);
    store.EnsureExists();
    once := store.file;
    store.EnsureExists();
    twice := store.file;
  }

  /** A store that has never been written loads as the empty array. */
  method FreshStoreLoadsEmpty() returns (outcome: Outcome, items: seq<Record>)
    ensures outcome == Replied(OK) && items == []
  {
    var store := new RecordStore(Missing);
    outcome, items := store.Load(false);
  }

  /** Saving a record with a new url and loading afterwards gives the old
      records followed by that one, the only record with its url. */
  method SaveThenLoad(initial: FileState, r: Record)
    returns (saved: Outcome, loaded: Outcome, items: seq<Record>)
    requires initial.OnDisk? ==> initial.contents != Unparsable
    requires !HasUrl(Stored(initial), r.url)
    ensures saved == Replied(OK) && loaded == Replied(OK)
    ensures items == Stored(initial) + [r]
    ensures CountUrl(items, r.url) == 1
  {
    var store := new RecordStore(initial);
    saved := store.Save(r, false, false);
    loaded, items := store.Load(false);
    CountPositive(Stored(initial), r.url);
    CountAppend(Stored(initial), r);
  }

  /** A second save under the same url is refused, and only the first record
      is stored. */
  method DuplicateSaveRejected(initial: FileState, r1: Record, r2: Record)
    returns (first: Outcome, second: Outcome, items: seq<Record>)
    requires initial.OnDisk? ==> initial.contents != Unparsable
    requires !HasUrl(Stored(initial), r1.url)
    requires r2.url == r1.url
    ensures first == Replied(OK) && second == Replied(BAD_REQUEST)
    ensures items == Stored(initial) + [r1]
  {
    var store := new RecordStore(initial);
    first := store.Save(r1, false, false);
    assert (Stored(initial) + [r1])[|Stored(initial)|] == r1;
    second := store.Save(r2, false, false);
    var loaded;
    loaded, items := store.Load(false);
  }

  /** Deleting a stored url from a store with unique urls removes exactly one
      record; deleting it again finds nothing. */
  method DeleteTwice(initial: FileState, u: UrlField)
    returns (first: Outcome, second: Outcome, items: seq<Record>)
    requires initial.OnDisk? && initial.contents.Items?
    requires UniqueUrls(initial.contents.records)
    requires HasUrl(initial.contents.records, u)
    ensures first == Replied(OK) && second == Replied(NOT_FOUND)
    ensures |items| == |initial.contents.records| - 1
    ensures !HasUrl(items, u)
    ensures forall x :: x in items <==> x in initial.contents.records && x.url != u
  {
    var store := new RecordStore(initial);
    first := store.Delete(u, false, false);
    second := store.Delete(u, false, false);
    var loaded;
    loaded, items := store.Load(false);
  }

  /** The walk-through of the design: save, duplicate save, load, delete,
      repeated delete, load, on a store that does not exist yet. */
  method Walkthrough() returns (codes: seq<Outcome>, finalItems: seq<Record>)
    ensures codes == [Replied(OK), Replied(BAD_REQUEST), Replied(OK),
                      Replied(OK), Replied(NOT_FOUND), Replied(OK)]
    ensures finalItems == []
  {
    var a := Record(Present("http://a"), map[]);
    var store := new RecordStore(Missing);
    var c1 := store.Save(a, false, false);
    assert ([] + [a])[0] == a;
    var c2 := store.Save(a, false, false);
    var c3, loaded := store.Load(false);
    assert loaded == [a];
    var c4 := store.Delete(a.url, false, false);
    var c5 := store.Delete(a.url, false, false);
    var c6;
    c6, finalItems := store.Load(false);
    codes := [c1, c2, c3, c4, c5, c6];
  }
}
