/** The `Camera` class of import.rb: the kept photos in walk order (`flist`), the same photos
    newest first (`slist`), each tagged in place with its event id, and the event queries. */
module PhotoCamera {
  import opened Basics
  import opened PhotoFilter
  import opened EventSegments
  import opened EventExpression

  /** One record, the Ruby array `[fullpath, mtime]` to which time_sort pushes the event id.
      It is an object because `flist` and `slist` share it: the id pushed while walking
      `slist` is seen through `flist` as well. */
  class Photo {
    const path: string
    const mtime: int
    /** `file[2]`: nil until time_sort pushes the id. */
    var eventId: Option<int>

    constructor (path: string, mtime: int)
      ensures this.path == path && this.mtime == mtime && eventId == None
    {
      this.path := path;
      this.mtime := mtime;
      eventId := None;
    }
  }

  function Times(s: seq<Photo>): seq<int> {
    seq(|s|, k requires 0 <= k < |s| => s[k].mtime)
  }

  function Records(s: seq<Photo>): seq<Record> {
    seq(|s|, k requires 0 <= k < |s| => Record(s[k].path, s[k].mtime))
  }

  lemma RecordsAppend(s: seq<Photo>, p: Photo)
    ensures Records(s + [p]) == Records(s) + [Record(p.path, p.mtime)]
  {
  }

  /** No record appears twice. */
  ghost predicate Distinct(s: seq<Photo>) {
    forall i, j :: 0 <= i < j < |s| ==> s[i] != s[j]
  }

  lemma DistinctAppend(s: seq<Photo>, p: Photo)
    requires Distinct(s) && p !in s
    ensures Distinct(s + [p])
  {
  }

  lemma {:induction false} DistinctOnce(s: seq<Photo>, x: Photo)
    requires Distinct(s)
    ensures multiset(s)[x] <= 1
  {
    if s != [] {
      assert s == [s[0]] + s[1..];
      assert Distinct(s[1..]) by {
        forall i, j | 0 <= i < j < |s[1..]| ensures s[1..][i] != s[1..][j] {
          assert s[1..][i] == s[i + 1] && s[1..][j] == s[j + 1];
        }
      }
      DistinctOnce(s[1..], x);
      if s[0] == x {
        assert x !in s[1..] by {
          forall k | 0 <= k < |s[1..]| ensures s[1..][k] != x {
            assert s[1..][k] == s[k + 1];
          }
        }
      }
    }
  }

  /** A permutation of a list without repeats has none either. */
  lemma DistinctPermutation(a: seq<Photo>, b: seq<Photo>)
    requires Distinct(a) && multiset(a) == multiset(b)
    ensures Distinct(b)
  {
    forall i, j | 0 <= i < j < |b| ensures b[i] != b[j] {
      if b[i] == b[j] {
        assert b == b[..j] + b[j..];
        assert b[i] in multiset(b[..j]);
        assert b[j] in multiset(b[j..]);
        assert multiset(b)[b[i]] == multiset(b[..j])[b[i]] + multiset(b[j..])[b[i]];
        DistinctOnce(a, b[i]);
      }
    }
  }

  lemma PermutationMembers(a: seq<Photo>, b: seq<Photo>)
    requires multiset(a) == multiset(b)
    ensures forall k :: 0 <= k < |b| ==> b[k] in a
  {
    forall k | 0 <= k < |b| ensures b[k] in a {
      assert b[k] in multiset(b);
    }
  }

  predicate Ascending(s: seq<Photo>) {
    NonDecreasing(Times(s))
  }

  lemma AscendingMtimes(s: seq<Photo>)
    ensures Ascending(s) <==> forall i, j :: 0 <= i <= j < |s| ==> s[i].mtime <= s[j].mtime
  {
    assert forall k :: 0 <= k < |s| ==> Times(s)[k] == s[k].mtime;
  }

  /** Insertion of one record into a list sorted oldest first. */
  function Insert(p: Photo, s: seq<Photo>): (r: seq<Photo>)
    ensures multiset(r) == multiset(s) + multiset{p}
  {
    if s == [] then [p]
    else if p.mtime <= s[0].mtime then [p] + s
    else
      assert s == [s[0]] + s[1..];
      [s[0]] + Insert(p, s[1..])
  }

  /** `@flist.sort {|x,y| x[1] <=> y[1]}`: the library's sort by mtime, modelled as an
      insertion sort; only its permutation and ordering properties are used. */
  function SortByTime(s: seq<Photo>): (r: seq<Photo>)
    ensures multiset(r) == multiset(s)
  {
    if s == [] then []
    else
      assert s == [s[0]] + s[1..];
      Insert(s[0], SortByTime(s[1..]))
  }

  /** `Array#reverse`. */
  function Reversed<T>(s: seq<T>): (r: seq<T>)
    ensures |r| == |s| && forall k :: 0 <= k < |s| ==> r[k] == s[|s| - 1 - k]
    ensures multiset(r) == multiset(s)
  {
    if s == [] then []
    else
      assert s == [s[0]] + s[1..];
      Reversed(s[1..]) + [s[0]]
  }

  lemma {:induction false} InsertBounded(p: Photo, s: seq<Photo>, b: int)
    requires b <= p.mtime && forall k :: 0 <= k < |s| ==> b <= s[k].mtime
    ensures forall k :: 0 <= k < |Insert(p, s)| ==> b <= Insert(p, s)[k].mtime
  {
    if s != [] && p.mtime > s[0].mtime {
      InsertBounded(p, s[1..], b);
      assert Insert(p, s) == [s[0]] + Insert(p, s[1..]);
    }
  }

  lemma {:induction false} InsertAscending(p: Photo, s: seq<Photo>)
    requires Ascending(s)
    ensures Ascending(Insert(p, s))
  {
    AscendingMtimes(s);
    if s == [] {
      AscendingMtimes([p]);
    } else if p.mtime <= s[0].mtime {
      ConsAscending(p, s);
    } else {
      AscendingMtimes(s[1..]);
      InsertAscending(p, s[1..]);
      InsertBounded(p, s[1..], s[0].mtime);
      ConsAscending(s[0], Insert(p, s[1..]));
    }
  }

  lemma ConsAscending(x: Photo, r: seq<Photo>)
    requires Ascending(r) && forall k :: 0 <= k < |r| ==> x.mtime <= r[k].mtime
    ensures Ascending([x] + r)
  {
    AscendingMtimes(r);
    AscendingMtimes([x] + r);
    assert forall k :: 0 < k < |[x] + r| ==> ([x] + r)[k] == r[k - 1];
  }

  lemma {:induction false} SortByTimeAscending(s: seq<Photo>)
    ensures Ascending(SortByTime(s))
  {
    if s != [] {
      SortByTimeAscending(s[1..]);
      InsertAscending(s[0], SortByTime(s[1..]));
    }
  }

  /** `@flist.sort {...}.reverse`: a permutation of the records, of the same length, whose
      times never increase. Which of two records with the same time comes first is left
      open. */
  function NewestFirst(s: seq<Photo>): (r: seq<Photo>)
    ensures |r| == |s| && multiset(r) == multiset(s)
    ensures NonIncreasing(Times(r))
  {
    SortByTimeAscending(s);
    AscendingMtimes(SortByTime(s));
    assert |multiset(SortByTime(s))| == |SortByTime(s)|;
    Reversed(SortByTime(s))
  }

  lemma TimesConcat(a: seq<Photo>, b: seq<Photo>)
    ensures Times(a + b) == Times(a) + Times(b)
  {
  }

  /** Two lists holding the same records hold the same times. */
  lemma {:induction false} TimesMultiset(a: seq<Photo>, b: seq<Photo>)
    requires multiset(a) == multiset(b)
    ensures multiset(Times(a)) == multiset(Times(b))
    decreases |a|
  {
    if a == [] {
      assert |b| == |multiset(b)| == 0;
    } else {
      var p := a[0];
      assert p in multiset(b);
      var k :| 0 <= k < |b| && b[k] == p;
      var rest := b[..k] + b[k + 1..];
      assert b == b[..k] + [p] + b[k + 1..];
      assert a == [p] + a[1..];
      assert multiset(a) == multiset{p} + multiset(a[1..]);
      assert multiset(b) == multiset(b[..k]) + multiset{p} + multiset(b[k + 1..]);
      assert multiset(rest) == multiset(b[..k]) + multiset(b[k + 1..]);
      assert multiset(rest) == multiset(b) - multiset{p};
      assert multiset(a[1..]) == multiset(a) - multiset{p};
      TimesMultiset(a[1..], rest);
      TimesConcat([p], a[1..]);
      TimesConcat(b[..k], b[k + 1..]);
      TimesConcat(b[..k] + [p], b[k + 1..]);
      TimesConcat(b[..k], [p]);
    }
  }

  /** Ruby's sort may put records with equal times in either order, but every newest-first
      order of the same records has the same times along it, so the ids by position and the
      final `@count` are the same whatever the tie order. */
  lemma NewestFirstTimesUnique(a: seq<Photo>, b: seq<Photo>, s: seq<Photo>, hours: real)
    requires NewestFirstOf(a, s) && NewestFirstOf(b, s)
    ensures Times(a) == Times(b)
    ensures EventIds(Times(a), hours) == EventIds(Times(b), hours)
  {
    TimesMultiset(a, b);
    SortedUnique(Times(a), Times(b));
  }

  /** With a threshold of zero or more, the id each record gets does not depend on the tie
      order either: records with equal times share an event. */
  lemma TieOrderIrrelevant(a: seq<Photo>, b: seq<Photo>, s: seq<Photo>, hours: real, i: int, j: int)
    requires NewestFirstOf(a, s) && NewestFirstOf(b, s) && hours >= 0.0
    requires 0 <= i < |a| && 0 <= j < |b| && a[i] == b[j]
    ensures EventIds(Times(a), hours)[i] == EventIds(Times(b), hours)[j]
  {
    NewestFirstTimesUnique(a, b, s, hours);
    var t := Times(a);
    assert t[i] == t[j];
    if i <= j {
      EqualTimesSameId(t, hours, i, j);
    } else {
      EqualTimesSameId(t, hours, j, i);
    }
  }

  /** The tie order is visible, though: two records with equal times may come in either
      order, both are newest-first orders of the same list, and `slist` differs between them. */
  lemma TieOrderVisible(p: Photo, q: Photo)
    requires p != q && p.mtime == q.mtime
    ensures NewestFirstOf([p, q], [p, q]) && NewestFirstOf([q, p], [p, q]) && [p, q] != [q, p]
  {
    assert multiset([q, p]) == multiset([p, q]);
    assert [p, q][0] != [q, p][0];
  }

  /** Ruby's `==` between a record's id (an integer, or nil before time_sort) and an element
      of the event list (an integer from a range, or a piece kept as a string). */
  predicate Matches(id: Option<int>, key: EventKey)
    ensures Matches(id, key) ==> id.Some? && key.Num?
  {
    match key
    case Num(n) => id == Some(n)
    case Str(_) => false
  }

  /** `list` is `s` sorted newest first. */
  ghost predicate NewestFirstOf(list: seq<Photo>, s: seq<Photo>) {
    multiset(list) == multiset(s) && NonIncreasing(Times(list))
  }

  /** Every record of `list` carries the id EventIds gives its position. */
  ghost predicate Tagged(list: seq<Photo>, hours: real)
    reads list
  {
    forall k :: 0 <= k < |list| ==> list[k].eventId == Some(EventIds(Times(list), hours)[k])
  }

  /** `find_all {|file| file[2] == num}` over `s`. */
  function Select(s: seq<Photo>, key: EventKey): (r: seq<Photo>)
    reads s
    ensures forall k :: 0 <= k < |r| ==> r[k] in s && Matches(r[k].eventId, key)
    ensures forall k :: 0 <= k < |s| && Matches(s[k].eventId, key) ==> s[k] in r
    ensures key.Str? ==> r == []
  {
    if s == [] then []
    else (if Matches(s[0].eventId, key) then [s[0]] else []) + Select(s[1..], key)
  }

  lemma {:induction false} SelectIsFilter(s: seq<Photo>, ids: seq<int>, n: int)
    requires |s| == |ids|
    requires forall k :: 0 <= k < |s| ==> s[k].eventId == Some(ids[k])
    ensures Select(s, Num(n)) == Filter(s, ids, n)
  {
    if s != [] {
      assert forall k :: 0 <= k < |s[1..]| ==> s[1..][k] == s[k + 1] && ids[1..][k] == ids[k + 1];
      SelectIsFilter(s[1..], ids[1..], n);
    }
  }

  /** The loop at import.rb:63-71 over the sorted records: the comparison base starts at
      the first record's time and the counter at 1; each record gets the counter, raised by
      one first when its gap to the record before exceeds `hours`. Returns `@count`. */
  method Tag(list: seq<Photo>, hours: real) returns (count: int)
    requires |list| > 0 && Distinct(list)
    modifies list
    ensures count == EventIds(Times(list), hours)[|list| - 1]
    ensures Tagged(list, hours)
  {
    ghost var times := Times(list);
    ghost var ids := EventIds(times, hours);
    var t := list[0].mtime;
    count := 1;
    var i := 0;
    while i < |list|
      invariant 0 <= i <= |list|
      invariant ids[i..] == IdsFrom(t, count, times[i..], hours)
      invariant i > 0 ==> count == ids[i - 1]
      invariant forall k :: 0 <= k < i ==> list[k].eventId == Some(ids[k])
    {
      var p := list[i];
      assert p.mtime == times[i];
      assert forall k :: 0 <= k < i ==> list[k] != p;
      ghost var c := if Splits(t, p.mtime, hours) then count + 1 else count;
      IdsFromUnfold(t, count, times, hours, i);
      assert ids[i] == c && ids[i + 1..] == IdsFrom(p.mtime, c, times[i + 1..], hours) by {
        assert ids[i..][0] == ids[i] && ids[i..][1..] == ids[i + 1..];
      }
      if Splits(t, p.mtime, hours) {
        count := count + 1;
      }
      p.eventId := Some(count);
      t := p.mtime;
      i := i + 1;
    }
  }

  datatype CameraError = NoPhotos

  class Camera {
    /** `[fullpath, mtime]` of every kept file, in walk order. */
    var flist: seq<Photo>
    /** The same records newest first, tagged with their event id by time_sort. */
    var slist: seq<Photo>
    /** `@count`: the last id handed out (nil, here 0, before time_sort). */
    var count: int

    ghost predicate Valid()
      reads this
    {
      Distinct(flist)
    }

    /** The state once time_sort has run with threshold `hours`. */
    ghost predicate Segmented(hours: real)
      reads this, slist
    {
      && Valid()
      && |slist| > 0
      && NewestFirstOf(slist, flist)
      && count == EventIds(Times(slist), hours)[|slist| - 1]
      && Tagged(slist, hours)
    }

    /** The part of `initialize` that builds `flist` (lines 38-41); `Find.find(@dir)` is the
        sequence `walk`. */
    constructor (walk: seq<Entry>)
      ensures Valid() && slist == [] && count == 0
      ensures Records(flist) == Selected(walk)
      ensures forall k :: 0 <= k < |flist| ==> fresh(flist[k]) && flist[k].eventId == None
    {
      flist := [];
      slist := [];
      count := 0;
      new;
      MakeList(walk);
    }

    /** `make_list`: pushes a fresh `[f, mtime]` for every kept entry, in walk order. */
    method MakeList(walk: seq<Entry>)
      requires Valid()
      modifies this
      ensures Valid() && slist == old(slist) && count == old(count)
      ensures Records(flist) == Records(old(flist)) + Selected(walk)
      ensures |old(flist)| <= |flist| && flist[..|old(flist)|] == old(flist)
      ensures forall k :: |old(flist)| <= k < |flist| ==> fresh(flist[k]) && flist[k].eventId == None
    {
      var i := 0;
      while i < |walk|
        invariant 0 <= i <= |walk|
        invariant Valid() && slist == old(slist) && count == old(count)
        invariant Records(flist) == Records(old(flist)) + Selected(walk[..i])
        invariant |old(flist)| <= |flist| && flist[..|old(flist)|] == old(flist)
        invariant forall k :: |old(flist)| <= k < |flist| ==> fresh(flist[k]) && flist[k].eventId == None
      {
        var e := walk[i];
        if Keep(e) {
          var p := new Photo(e.path, e.mtime);
          assert p !in flist;
          DistinctAppend(flist, p);
          RecordsAppend(flist, p);
          flist := flist + [p];
        }
        SelectedPrefixStep(walk, i);
        i := i + 1;
      }
      assert walk[..|walk|] == walk;
    }

    /** `time_sort`: sorts newest first, then tags every record in place; a record's id is
        one more than the previous record's when the gap between them exceeds `hours`.
        On an empty `flist` the Ruby code fails at `@slist[0][1]`; here `ok` is false. */
    method TimeSort(hours: real) returns (ok: bool)
      requires Valid()
      modifies this, flist
      ensures Valid() && flist == old(flist)
      ensures ok <==> |flist| > 0
      ensures NewestFirstOf(slist, flist)
      ensures ok ==> Segmented(hours)
      ensures !ok ==> count == old(count)
    {
      slist := NewestFirst(flist);
      assert NewestFirstOf(slist, flist);
      if |slist| == 0 {
        return false;
      }
      TagSorted(hours);
      ok := true;
    }

    /** The loop of time_sort, once `slist` holds the records newest first. */
    method TagSorted(hours: real)
      requires Valid() && |slist| > 0 && NewestFirstOf(slist, flist)
      modifies this, flist
      ensures flist == old(flist) && slist == old(slist)
      ensures Segmented(hours)
    {
      DistinctPermutation(flist, slist);
      PermutationMembers(flist, slist);
      count := Tag(slist, hours);
    }

    /** `event(num)`: the records of `slist` whose id equals `num`, in slist order. */
    function Event(key: EventKey): (r: seq<Photo>)
      reads this, slist
      ensures forall k :: 0 <= k < |r| ==> r[k] in slist && Matches(r[k].eventId, key)
      ensures forall k :: 0 <= k < |slist| && Matches(slist[k].eventId, key) ==> slist[k] in r
      ensures key.Str? ==> r == []
    {
      Select(slist, key)
    }

    /** `latest`: the records whose id is 1. */
    function Latest(): (r: seq<Photo>)
      reads this, slist
      ensures forall k :: 0 <= k < |r| ==> r[k] in slist && r[k].eventId == Some(1)
      ensures forall k :: 0 <= k < |slist| && slist[k].eventId == Some(1) ==> slist[k] in r
    {
      Event(Num(1))
    }

    /** The events a, a + 1, ..., b one after the other. */
    function EventRange(a: int, b: int): seq<Photo>
      reads this, slist
      decreases b - a
    {
      if a > b then [] else Event(Num(a)) + EventRange(a + 1, b)
    }
  }

  /** `Camera.new`: builds `flist` from the walk and runs time_sort. An empty list of kept
      files is the failure at import.rb:62. */
  method OpenCamera(walk: seq<Entry>, hours: real) returns (r: Result<Camera, CameraError>)
    ensures r.Success? <==> Selected(walk) != []
    ensures r.Success? ==> fresh(r.value) && Records(r.value.flist) == Selected(walk) && r.value.Segmented(hours)
  {
    var c := new Camera(walk);
    var ok := c.TimeSort(hours);
    if ok {
      r := Success(c);
    } else {
      r := Failure(NoPhotos);
    }
  }

  lemma SliceNewestFirst(s: seq<Photo>, lo: int, hi: int)
    requires 0 <= lo <= hi <= |s| && NonIncreasing(Times(s))
    ensures NonIncreasing(Times(s[lo..hi]))
  {
    assert forall k :: 0 <= k < hi - lo ==> Times(s[lo..hi])[k] == Times(s)[lo + k];
  }

  /** An event of a segmented camera is the block of slist holding exactly the records with
      that id, newest first and oldest last. */
  lemma EventIsBlock(c: Camera, hours: real, n: int)
    requires c.Segmented(hours)
    ensures Below(EventIds(Times(c.slist), hours), n) <= Below(EventIds(Times(c.slist), hours), n + 1)
    ensures c.Event(Num(n))
         == c.slist[Below(EventIds(Times(c.slist), hours), n)..Below(EventIds(Times(c.slist), hours), n + 1)]
    ensures NonIncreasing(Times(c.Event(Num(n))))
  {
    var ids := EventIds(Times(c.slist), hours);
    SelectIsFilter(c.slist, ids, n);
    EventIdsMonotone(Times(c.slist), hours);
    FilterBlock(c.slist, ids, n);
    SliceNewestFirst(c.slist, Below(ids, n), Below(ids, n + 1));
  }

  lemma EventRangeIsGroups(c: Camera, hours: real, a: int, b: int)
    requires c.Segmented(hours)
    ensures c.EventRange(a, b) == Groups(c.slist, EventIds(Times(c.slist), hours), a, b)
    decreases b - a
  {
    if a <= b {
      SelectIsFilter(c.slist, EventIds(Times(c.slist), hours), a);
      EventRangeIsGroups(c, hours, a + 1, b);
    }
  }

  /** event(FirstId) .. event(@count) partition slist: concatenated in id order they give
      slist back, so every record is in exactly one of them. */
  lemma EventsPartition(c: Camera, hours: real)
    requires c.Segmented(hours)
    ensures c.EventRange(FirstId(hours), c.count) == c.slist
  {
    var ids := EventIds(Times(c.slist), hours);
    EventIdsFirst(Times(c.slist), hours);
    EventIdsMonotone(Times(c.slist), hours);
    EventRangeIsGroups(c, hours, FirstId(hours), c.count);
    GroupsPartition(c.slist, ids);
  }

  /** Every id from the first to `@count` names a non-empty event. */
  lemma EventInRange(c: Camera, hours: real, n: int)
    requires c.Segmented(hours) && FirstId(hours) <= n <= c.count
    ensures c.Event(Num(n)) != []
  {
    EventIdsDense(Times(c.slist), hours, n);
    var k :| 0 <= k < |c.slist| && EventIds(Times(c.slist), hours)[k] == n;
    assert c.slist[k] in c.Event(Num(n));
  }

  /** An id before the first or after `@count` selects nothing. */
  lemma EventOutOfRange(c: Camera, hours: real, n: int)
    requires c.Segmented(hours) && (n < FirstId(hours) || n > c.count)
    ensures c.Event(Num(n)) == []
  {
    var ids := EventIds(Times(c.slist), hours);
    EventIdsFirst(Times(c.slist), hours);
    EventIdsMonotone(Times(c.slist), hours);
    SelectIsFilter(c.slist, ids, n);
    assert forall k :: 0 <= k < |ids| ==> ids[0] <= ids[k] <= ids[|ids| - 1];
    FilterAbsent(c.slist, ids, n);
  }

  /** With a non-negative threshold, latest is the newest photo and every photo after it up
      to the first gap above the threshold. */
  lemma LatestIsNewest(c: Camera, hours: real)
    requires c.Segmented(hours) && hours >= 0.0
    ensures c.Latest() != [] && c.Latest()[0] == c.slist[0]
    ensures c.Latest() == c.slist[..Below(EventIds(Times(c.slist), hours), 2)]
  {
    var ids := EventIds(Times(c.slist), hours);
    EventIdsFirst(Times(c.slist), hours);
    EventIdsMonotone(Times(c.slist), hours);
    EventIsBlock(c, hours, 1);
    assert forall k :: 0 <= k < |ids| ==> ids[k] >= 1;
    BelowNone(ids, 1);
    EventInRange(c, hours, 1);
  }

  /** Through the shared records, every entry of flist also carries its id, one of
      FirstId .. `@count`. */
  lemma FlistTagged(c: Camera, hours: real, p: Photo)
    requires c.Segmented(hours) && p in c.flist
    ensures p in c.slist && p.eventId.Some?
    ensures FirstId(hours) <= p.eventId.value <= c.count
  {
    var ids := EventIds(Times(c.slist), hours);
    assert p in multiset(c.slist);
    var k :| 0 <= k < |c.slist| && c.slist[k] == p;
    EventIdsFirst(Times(c.slist), hours);
    EventIdsMonotone(Times(c.slist), hours);
    assert ids[0] <= ids[k] <= ids[|ids| - 1];
  }
}
