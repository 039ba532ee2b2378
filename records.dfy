/**
 The records of the store and the two pure computations the handlers perform
 on the loaded array: the duplicate search of `/api/save` (`items.find`) and
 the removal of `/api/delete` (`items.filter`).
 */
module Records {

  datatype Option<+T> = None | Some(value: T)

  /** The value of a record's `url` property, compared with `===`.
      A body or query without `url` reads as `undefined`, and
      `undefined === undefined` holds, so a missing url is a key like any other. */
  datatype UrlField = Absent | Present(text: string)

  /** Every other JSON value, kept as its text: records pass through unchanged. */
  type JsonText = string

  /** One stored API request: its natural key and the rest of its fields. */
  datatype Record = Record(url: UrlField, others: map<string, JsonText>)

  /** Some record of `items` has url `u`. */
  predicate HasUrl(items: seq<Record>, u: UrlField) {
    exists i :: 0 <= i < |items| && items[i].url == u
  }

  /** The uniqueness invariant: no two records share a url. */
  predicate UniqueUrls(items: seq<Record>) {
    forall i, j :: 0 <= i < j < |items| ==> items[i].url != items[j].url
  }

  /** How many records of `items` have url `u`. */
  function CountUrl(items: seq<Record>, u: UrlField): nat {
    if items == [] then 0
    else (if items[0].url == u then 1 else 0) + CountUrl(items[1..], u)
  }

  /** `a` is `b` with some elements left out and the rest in their order. */
  predicate IsSubsequence(a: seq<Record>, b: seq<Record>)
    decreases |b|
  {
    if a == [] then true
    else if b == [] then false
    else if a[0] == b[0] then IsSubsequence(a[1..], b[1..])
    else IsSubsequence(a, b[1..])
  }

  /** `items.find(item => item.url === u)`: the first record with url `u`. */
  function Find(items: seq<Record>, u: UrlField): (r: Option<Record>)
    ensures r.Some? <==> HasUrl(items, u)
    ensures r.Some? ==> r.value.url == u
    ensures r.Some? ==> exists i :: 0 <= i < |items| && items[i] == r.value && !HasUrl(items[..i], u)
  {
    if items == [] then None
    else if items[0].url == u then
      assert items[..0] == [];
      Some(items[0])
    else
      var r := Find(items[1..], u);
      assert r.Some? ==> exists i :: 0 <= i < |items| && items[i] == r.value && !HasUrl(items[..i], u) by {
        if r.Some? {
          var i :| 0 <= i < |items[1..]| && items[1..][i] == r.value && !HasUrl(items[1..][..i], u);
          assert items[..i + 1] == [items[0]] + items[1..][..i];
          assert items[i + 1] == r.value;
        }
      }
      assert HasUrl(items, u) ==> HasUrl(items[1..], u) by {
        if HasUrl(items, u) {
          var k :| 0 <= k < |items| && items[k].url == u;
          assert items[1..][k - 1].url == u;
        }
      }
      r
  }

  /** `items.filter(item => item.url !== u)`: every record whose url is not `u`. */
  function Without(items: seq<Record>, u: UrlField): (r: seq<Record>)
    ensures |r| <= |items|
    ensures forall k :: 0 <= k < |r| ==> r[k].url != u
    ensures forall x :: x in r <==> x in items && x.url != u
  {
    if items == [] then []
    else if items[0].url == u then Without(items[1..], u)
    else [items[0]] + Without(items[1..], u)
  }

  /** The survivors of the filter keep their relative order. */
  lemma {:induction false} WithoutIsSubsequence(items: seq<Record>, u: UrlField)
    ensures IsSubsequence(Without(items, u), items)
  {
    if items != [] {
      WithoutIsSubsequence(items[1..], u);
      if items[0].url == u {
        SubsequenceOfTail(Without(items[1..], u), items);
      }
    }
  }

  /** A subsequence of the tail of `b` is a subsequence of `b`. */
  lemma {:induction false} SubsequenceOfTail(a: seq<Record>, b: seq<Record>)
    requires b != []
    requires IsSubsequence(a, b[1..])
    ensures IsSubsequence(a, b)
    decreases |b|, |a|
  {
    if a != [] && a[0] == b[0] {
      SubsequenceDropHead(a, b[1..]);
    }
  }

  /** A subsequence of `b` without its head is still a subsequence of `b`. */
  lemma {:induction false} SubsequenceDropHead(a: seq<Record>, b: seq<Record>)
    requires a != []
    requires IsSubsequence(a, b)
    ensures IsSubsequence(a[1..], b)
    decreases |b|, |a|
  {
    if a[0] == b[0] {
      SubsequenceOfTail(a[1..], b);
    } else {
      SubsequenceDropHead(a, b[1..]);
      SubsequenceOfTail(a[1..], b);
    }
  }

  /** Exactly the matching records are removed: as many as carry url `u`. */
  lemma {:induction false} WithoutCount(items: seq<Record>, u: UrlField)
    ensures |Without(items, u)| == |items| - CountUrl(items, u)
  {
    if items != [] {
      WithoutCount(items[1..], u);
    }
  }

  /** A record carries url `u` exactly when the count of such records is positive. */
  lemma {:induction false} CountPositive(items: seq<Record>, u: UrlField)
    ensures CountUrl(items, u) > 0 <==> HasUrl(items, u)
  {
    if items != [] {
      CountPositive(items[1..], u);
      if HasUrl(items, u) && items[0].url != u {
        var k :| 0 <= k < |items| && items[k].url == u;
        assert items[1..][k - 1].url == u;
      }
      if HasUrl(items[1..], u) {
        var k :| 0 <= k < |items[1..]| && items[1..][k].url == u;
        assert items[k + 1].url == u;
      }
    }
  }

  /** The delete handler's test `items.length === updatedItems.length` holds
      exactly when no record has the url; then the filter changes nothing. */
  lemma {:induction false} NothingRemovedIffAbsent(items: seq<Record>, u: UrlField)
    ensures |Without(items, u)| == |items| <==> !HasUrl(items, u)
    ensures !HasUrl(items, u) ==> Without(items, u) == items
  {
    WithoutCount(items, u);
    CountPositive(items, u);
    if !HasUrl(items, u) {
      WithoutUnmatched(items, u);
    }
  }

  lemma {:induction false} WithoutUnmatched(items: seq<Record>, u: UrlField)
    requires !HasUrl(items, u)
    ensures Without(items, u) == items
  {
    if items != [] {
      assert items[0].url != u;
      WithoutUnmatched(items[1..], u);
      assert items == [items[0]] + items[1..];
    }
  }

  /** Under the uniqueness invariant a url is carried by at most one record. */
  lemma {:induction false} UniqueCountAtMostOne(items: seq<Record>, u: UrlField)
    requires UniqueUrls(items)
    ensures CountUrl(items, u) <= 1
    ensures CountUrl(items, u) == 1 <==> HasUrl(items, u)
  {
    CountPositive(items, u);
    if items != [] {
      assert UniqueUrls(items[1..]) by {
        forall i, j | 0 <= i < j < |items[1..]| ensures items[1..][i].url != items[1..][j].url {
          assert items[1..][i] == items[i + 1] && items[1..][j] == items[j + 1];
        }
      }
      UniqueCountAtMostOne(items[1..], u);
      if items[0].url == u {
        CountPositive(items[1..], u);
      }
    }
  }

  /** Deleting a present url from a store with unique urls removes exactly one record. */
  lemma UniqueDeleteRemovesOne(items: seq<Record>, u: UrlField)
    requires UniqueUrls(items) && HasUrl(items, u)
    ensures |Without(items, u)| == |items| - 1
  {
    WithoutCount(items, u);
    UniqueCountAtMostOne(items, u);
  }

  /** The filter keeps the uniqueness invariant. */
  lemma {:induction false} WithoutPreservesUnique(items: seq<Record>, u: UrlField)
    requires UniqueUrls(items)
    ensures UniqueUrls(Without(items, u))
  {
    WithoutIsSubsequence(items, u);
    SubsequencePreservesUnique(Without(items, u), items);
  }

  lemma {:induction false} SubsequencePreservesUnique(a: seq<Record>, b: seq<Record>)
    requires IsSubsequence(a, b) && UniqueUrls(b)
    ensures UniqueUrls(a)
    decreases |b|
  {
    if a != [] {
      assert UniqueUrls(b[1..]) by {
        forall i, j | 0 <= i < j < |b[1..]| ensures b[1..][i].url != b[1..][j].url {
          assert b[1..][i] == b[i + 1] && b[1..][j] == b[j + 1];
        }
      }
      if a[0] == b[0] {
        SubsequencePreservesUnique(a[1..], b[1..]);
        SubsequenceMembers(a[1..], b[1..]);
        forall j | 0 < j < |a| ensures a[0].url != a[j].url {
          assert a[j] == a[1..][j - 1];
          assert a[j] in b[1..];
          var k :| 0 <= k < |b[1..]| && b[1..][k] == a[j];
          assert b[k + 1] == a[j];
        }
        forall i, j | 0 <= i < j < |a| ensures a[i].url != a[j].url {
          if i > 0 {
            assert a[i] == a[1..][i - 1] && a[j] == a[1..][j - 1];
          }
        }
      } else {
        SubsequencePreservesUnique(a, b[1..]);
      }
    }
  }

  /** Every element of a subsequence occurs in the sequence. */
  lemma {:induction false} SubsequenceMembers(a: seq<Record>, b: seq<Record>)
    requires IsSubsequence(a, b)
    ensures forall x :: x in a ==> x in b
    decreases |b|
  {
    if a != [] {
      if a[0] == b[0] {
        SubsequenceMembers(a[1..], b[1..]);
        assert a == [a[0]] + a[1..] && b == [b[0]] + b[1..];
      } else {
        SubsequenceMembers(a, b[1..]);
        assert b == [b[0]] + b[1..];
      }
    }
  }

  /** Appending a record whose url is new keeps the uniqueness invariant,
      and keeps every earlier record at its position. */
  lemma AppendPreservesUnique(items: seq<Record>, item: Record)
    requires UniqueUrls(items) && !HasUrl(items, item.url)
    ensures UniqueUrls(items + [item])
    ensures (items + [item])[..|items|] == items && (items + [item])[|items|] == item
  {
  }

  /** Appending a record adds one to the count of its url. */
  lemma {:induction false} CountAppend(items: seq<Record>, r: Record)
    ensures CountUrl(items + [r], r.url) == CountUrl(items, r.url) + 1
  {
    if items != [] {
      assert (items + [r])[1..] == items[1..] + [r];
      CountAppend(items[1..], r);
    }
  }
}
