/** Blog entries and the pure queries the microblog state runs over its list of
    entries: the next identifier, one page of entries, and the newest-first
    display order. */
module Entries {

  datatype Option<T> = None | Some(value: T)

  /** A UTC instant, supplied by the caller; the model never inspects it. */
  datatype Timestamp = Timestamp(utcNanos: int)

  /** One blog entry; the in-progress draft has the same shape with id 0. */
  datatype Entry = Entry(title: string, body: string, time: Timestamp, id: nat)

  /** A fresh, empty draft stamped with the given instant. */
  function NewEntry(now: Timestamp): (e: Entry)
    ensures IsEmptyDraft(e) && e.time == now
  {
    Entry("", "", now, 0)
  }

  /** What every freshly created draft looks like, whatever its time stamp. */
  predicate IsEmptyDraft(e: Entry) {
    e.title == "" && e.body == "" && e.id == 0
  }

  /** No two entries share an id. */
  predicate DistinctIds(entries: seq<Entry>) {
    forall i, j :: 0 <= i < j < |entries| ==> entries[i].id != entries[j].id
  }

  /** The largest id of a non-empty list of entries. */
  function MaxId(entries: seq<Entry>): (m: nat)
    requires entries != []
    ensures forall i :: 0 <= i < |entries| ==> entries[i].id <= m
    ensures exists i :: 0 <= i < |entries| && entries[i].id == m
  {
    var n := |entries|;
    if n == 1 then entries[0].id
    else
      var rest := MaxId(entries[..n - 1]);
      if entries[n - 1].id >= rest then entries[n - 1].id else rest
  }

  /** The id the next added entry receives: one more than the largest id in
      use, or 1 when there are no entries. */
  function NextId(entries: seq<Entry>): (r: nat)
    ensures r >= 1
    ensures forall i :: 0 <= i < |entries| ==> entries[i].id < r
    ensures entries == [] ==> r == 1
    ensures entries != [] ==> exists i :: 0 <= i < |entries| && entries[i].id + 1 == r
  {
    if entries == [] then 1 else MaxId(entries) + 1
  }

  /** Appending an entry that carries the next id keeps the ids distinct. */
  lemma AppendNextIdKeepsDistinct(entries: seq<Entry>, draft: Entry)
    requires DistinctIds(entries)
    ensures DistinctIds(entries + [draft.(id := NextId(entries))])
  {
  }

  /** Appending an entry with the next id raises the next id by exactly one. */
  lemma NextIdAfterAppend(entries: seq<Entry>, draft: Entry)
    ensures NextId(entries + [draft.(id := NextId(entries))]) == NextId(entries) + 1
  {
  }

  /** The ids a list gets when every entry was added from an empty list:
      1, 2, ..., in insertion order. */
  predicate SequentialIds(entries: seq<Entry>) {
    forall i :: 0 <= i < |entries| ==> entries[i].id == i + 1
  }

  /** Entries added one by one from an empty list get the ids 1, 2, 3, ...;
      the next id is then one more than their number. */
  lemma SequentialNextId(entries: seq<Entry>, draft: Entry)
    requires SequentialIds(entries)
    ensures NextId(entries) == |entries| + 1
    ensures SequentialIds(entries + [draft.(id := NextId(entries))])
  {
  }

  function Min(a: int, b: int): (m: int)
    ensures m <= a && m <= b && (m == a || m == b)
  {
    if a <= b then a else b
  }

  /** Page `page` of the entries, `pageSize` entries per page: the slice that
      starts at `page * pageSize`, or None when that start is past the end. */
  function GetPage(entries: seq<Entry>, pageSize: nat, page: nat): (r: Option<seq<Entry>>)
    ensures r.None? <==> page * pageSize >= |entries|
    ensures r.Some? ==> |r.value| == Min(pageSize, |entries| - page * pageSize)
    ensures r.Some? ==> forall k :: 0 <= k < |r.value| ==> r.value[k] == entries[page * pageSize + k]
  {
    var len := |entries|;
    var start := page * pageSize;
    var end := Min(start + pageSize, len);
    if start < len && end <= len then Some(entries[start..end]) else None
  }

  /** With a positive page size, entry `i` is element `i % pageSize` of page
      `i / pageSize`, and that page exists. */
  lemma PageCoversEntry(entries: seq<Entry>, pageSize: nat, i: nat)
    requires pageSize > 0 && i < |entries|
    ensures GetPage(entries, pageSize, i / pageSize).Some?
    ensures var p := GetPage(entries, pageSize, i / pageSize).value;
      i % pageSize < |p| && p[i % pageSize] == entries[i]
  {
    var q, k := i / pageSize, i % pageSize;
    assert q * pageSize + k == i;
    assert q * pageSize <= i;
  }

  /** A multiple of a positive `d` strictly between `-d` and `d` is zero. */
  lemma SmallMultipleIsZero(n: int, d: int)
    requires d > 0 && -d < n * d < d
    ensures n == 0
  {
  }

  /** Euclidean division of `q * d + k` by `d`, for `0 <= k < d`, gives back
      `q` and `k`. */
  lemma DivModOfMultiplePlus(q: int, d: int, k: int)
    requires d > 0 && 0 <= k < d
    ensures (q * d + k) / d == q && (q * d + k) % d == k
  {
    var i := q * d + k;
    var q', k' := i / d, i % d;
    assert (q - q') * d == k' - k by {
      assert (q - q') * d == q * d - q' * d;
    }
    SmallMultipleIsZero(q - q', d);
  }

  /** Conversely, no entry is on two pages: element `k` of page `q` is entry
      `q * pageSize + k`, and `q` and `k` are that index's own page and
      offset. */
  lemma PageOfEntryUnique(entries: seq<Entry>, pageSize: nat, q: nat, k: nat)
    requires pageSize > 0
    requires GetPage(entries, pageSize, q).Some?
    requires k < |GetPage(entries, pageSize, q).value|
    ensures var i := q * pageSize + k;
      i < |entries| && i / pageSize == q && i % pageSize == k
  {
    DivModOfMultiplePlus(q, pageSize, k);
  }

  /** The display order: newest (last added) entry first. */
  function NewestFirst(entries: seq<Entry>): (r: seq<Entry>)
    ensures |r| == |entries|
    ensures forall k :: 0 <= k < |r| ==> r[k] == entries[|entries| - 1 - k]
  {
    if entries == [] then []
    else
      var n := |entries|;
      [entries[n - 1]] + NewestFirst(entries[..n - 1])
  }

  /** Adding an entry puts it at the top of the display and shifts the rest
      down by one. */
  lemma NewestFirstAfterAppend(entries: seq<Entry>, e: Entry)
    ensures NewestFirst(entries + [e]) == [e] + NewestFirst(entries)
  {
  }
}
