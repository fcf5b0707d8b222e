/** The reminder index of the calendar's storage provider: a map from a day key
    ("ddMMyyyy") to the reminders of that day, kept sorted by time of day. */
module Storage {
  import opened Text
  import opened Dates

  /** JavaScript's `undefined` or a value. */
  datatype Option<T> = None | Some(value: T)

  /** One reminder. `date` is the "yyyy-MM-dd" text of a date input; `fullDate`
      is the JavaScript Date the form carries, undefined after a form submit;
      `time` is the "HH:mm" text of a time input. */
  datatype Reminder = Reminder(
    city: string,
    date: string,
    fullDate: Option<Date>,
    title: string,
    id: string,
    time: string,
    color: string)

  /** The `IHash` state: day key to that day's reminders. */
  type Index = map<string, seq<Reminder>>

  // ---------------------------------------------------------------------
  // formatDate

  /** Element `i` of a destructured array, interpolated into a template
      literal: a missing element is `undefined` and prints as "undefined". */
  function Piece(parts: seq<string>, i: nat): string
  {
    if i < |parts| then parts[i] else "undefined"
  }

  /** `formatDate`: split "yyyy-MM-dd" on '-' and glue day, month and year.
      A key never holds a dash. */
  function FormatDate(date: string): (key: string)
    ensures '-' !in key
  {
    var parts := Split(date, '-');
    Piece(parts, 2) + Piece(parts, 1) + Piece(parts, 0)
  }

  /** A date without a dash is one piece: day and month are undefined. */
  lemma FormatDateWithoutDash(date: string)
    requires '-' !in date
    ensures FormatDate(date) == "undefinedundefined" + date
  {
    var parts := Split(date, '-');
    SplitWithoutSeparator(date, '-');
    assert Piece(parts, 2) == "undefined" && Piece(parts, 1) == "undefined" && Piece(parts, 0) == date;
  }

  /** A date with three dash-free parts turns into day ++ month ++ year. */
  lemma FormatDateOfParts(year: string, month: string, day: string)
    requires '-' !in year && '-' !in month && '-' !in day
    ensures FormatDate(year + "-" + month + "-" + day) == day + month + year
  {
    var parts := [year, month, day];
    assert Join(parts[2..], '-') == day;
    assert Join(parts[1..], '-') == month + "-" + day;
    assert Join(parts, '-') == year + "-" + month + "-" + day;
    SplitJoin(parts, '-');
  }

  /** An empty date field has one piece only: day and month are undefined. */
  lemma FormatDateOfEmpty()
    ensures FormatDate("") == "undefinedundefined"
  {
    assert Split("", '-') == [""];
  }

  /** The key of a "yyyy-MM-dd" date is the "ddMMyyyy" key of the same day. */
  lemma FormatIsoDate(d: Date)
    ensures FormatDate(IsoDate(d)) == KeyOf(d)
  {
  }

  /** The example of the storage tests: "2021-03-26" becomes "26032021". */
  lemma FormatDateExample()
    ensures FormatDate("2021-03-26") == "26032021"
  {
    var year, month, day := "2021", "03", "26";
    var date := year + "-" + month + "-" + day;
    FormatDateOfParts(year, month, day);
    assert date == "2021-03-26";
    assert day + month + year == "26032021";
  }

  // ---------------------------------------------------------------------
  // The sort comparator and a stable sort by time

  /** The comparator handed to `Array.prototype.sort`. */
  function CompareTime(d1: Reminder, d2: Reminder): (c: int)
    ensures c == -1 || c == 0 || c == 1
    ensures c == -1 <==> Less(d1.time, d2.time)
    ensures c == 1 <==> Less(d2.time, d1.time)
    ensures c == 0 <==> d1.time == d2.time
  {
    LessIrreflexive(d1.time);
    if Less(d1.time, d2.time) then
      LessAsymmetric(d1.time, d2.time);
      -1
    else if Less(d2.time, d1.time) then 1
    else
      (if d1.time != d2.time then LessTotal(d1.time, d2.time); 0 else 0)
  }

  /** Non-decreasing by time: no later entry compares below an earlier one. */
  predicate SortedByTime(s: seq<Reminder>)
  {
    forall i, j :: 0 <= i < j < |s| ==> !Less(s[j].time, s[i].time)
  }

  /** Sorted by time means the comparator never puts a later entry first. */
  lemma SortedByComparator(s: seq<Reminder>)
    ensures SortedByTime(s) <==> forall i, j :: 0 <= i < j < |s| ==> CompareTime(s[i], s[j]) != 1
  {
  }

  predicate DistinctIds(s: seq<Reminder>)
  {
    forall i, j :: 0 <= i < j < |s| ==> s[i].id != s[j].id
  }

  lemma ConsSorted(h: Reminder, rest: seq<Reminder>)
    requires SortedByTime(rest)
    requires forall y :: y in rest ==> !Less(y.time, h.time)
    ensures SortedByTime([h] + rest)
  {
    var s := [h] + rest;
    forall i, j | 0 <= i < j < |s| ensures !Less(s[j].time, s[i].time) {
      assert s[j] == rest[j - 1];
      if i > 0 {
        assert s[i] == rest[i - 1];
      }
    }
  }

  lemma ConsDistinct(h: Reminder, rest: seq<Reminder>)
    requires DistinctIds(rest)
    requires forall y :: y in rest ==> y.id != h.id
    ensures DistinctIds([h] + rest)
  {
    var s := [h] + rest;
    forall i, j | 0 <= i < j < |s| ensures s[i].id != s[j].id {
      assert s[j] == rest[j - 1];
      if i > 0 {
        assert s[i] == rest[i - 1];
      }
    }
  }

  lemma PrependSorted(x: Reminder, s: seq<Reminder>)
    requires SortedByTime(s) && s != [] && Less(x.time, s[0].time)
    ensures SortedByTime([x] + s)
  {
    forall y | y in s ensures !Less(y.time, x.time) {
      var j :| 0 <= j < |s| && s[j] == y;
      if Less(y.time, x.time) {
        LessTransitive(y.time, x.time, s[0].time);
        if j == 0 {
          LessIrreflexive(y.time);
        }
      }
    }
    ConsSorted(x, s);
  }

  /** Insert `x` into a sorted list after every entry whose time is not later. */
  function InsertByTime(x: Reminder, s: seq<Reminder>): (r: seq<Reminder>)
    requires SortedByTime(s)
    ensures SortedByTime(r)
    ensures multiset(r) == multiset(s) + multiset{x}
  {
    if s == [] then [x]
    else if Less(x.time, s[0].time) then
      PrependSorted(x, s);
      [x] + s
    else
      var rest := InsertByTime(x, s[1..]);
      KeepFirst(x, s, rest);
      [s[0]] + rest
  }

  lemma KeepFirst(x: Reminder, s: seq<Reminder>, rest: seq<Reminder>)
    requires SortedByTime(s) && s != [] && !Less(x.time, s[0].time)
    requires SortedByTime(rest) && multiset(rest) == multiset(s[1..]) + multiset{x}
    ensures SortedByTime([s[0]] + rest)
    ensures multiset([s[0]] + rest) == multiset(s) + multiset{x}
  {
    assert s == [s[0]] + s[1..];
    forall y | y in rest ensures !Less(y.time, s[0].time) {
      assert y in multiset(s[1..]) + multiset{x};
      if y != x {
        var j :| 0 <= j < |s[1..]| && s[1..][j] == y;
        assert s[j + 1] == y;
      }
    }
    ConsSorted(s[0], rest);
  }

  /** The order `sort` leaves with this comparator: an insertion sort, stable
      because each entry goes after every earlier entry of equal time. */
  function SortByTime(s: seq<Reminder>): (r: seq<Reminder>)
    ensures SortedByTime(r)
    ensures multiset(r) == multiset(s)
    ensures |r| == |s|
  {
    if s == [] then []
    else
      var last := |s| - 1;
      assert s == s[..last] + [s[last]];
      var r := InsertByTime(s[last], SortByTime(s[..last]));
      assert |r| == |multiset(r)|;
      r
  }

  /** The entries of one time of day, in list order. */
  function AtTime(s: seq<Reminder>, t: string): seq<Reminder>
  {
    if s == [] then []
    else AtTime(s[..|s| - 1], t) + (if s[|s| - 1].time == t then [s[|s| - 1]] else [])
  }

  lemma {:induction false} AtTimeConcat(a: seq<Reminder>, b: seq<Reminder>, t: string)
    ensures AtTime(a + b, t) == AtTime(a, t) + AtTime(b, t)
  {
    if b != [] {
      var n := |b| - 1;
      assert (a + b)[..|a + b| - 1] == a + b[..n];
      AtTimeConcat(a, b[..n], t);
    } else {
      assert a + b == a;
    }
  }

  lemma {:induction false} AtTimeNone(s: seq<Reminder>, t: string)
    requires forall i :: 0 <= i < |s| ==> s[i].time != t
    ensures AtTime(s, t) == []
  {
    if s != [] {
      AtTimeNone(s[..|s| - 1], t);
    }
  }

  lemma AtTimeSingle(x: Reminder, t: string)
    ensures AtTime([x], t) == if x.time == t then [x] else []
  {
    assert [x][..0] == [];
  }

  /** Nothing in a sorted list has a time earlier than its first entry's. */
  lemma NoneBeforeFirst(s: seq<Reminder>, t: string)
    requires SortedByTime(s) && s != [] && Less(t, s[0].time)
    ensures AtTime(s, t) == []
  {
    forall i | 0 <= i < |s| ensures s[i].time != t {
      if i == 0 {
        LessIrreflexive(t);
      }
    }
    AtTimeNone(s, t);
  }

  /** Putting `x` before a sorted list whose first time is later than its
      own puts it after every entry of its time. */
  lemma StableFront(x: Reminder, s: seq<Reminder>, t: string)
    requires SortedByTime(s) && s != [] && Less(x.time, s[0].time)
    ensures AtTime([x] + s, t) == AtTime(s, t) + AtTime([x], t)
  {
    AtTimeConcat([x], s, t);
    AtTimeSingle(x, t);
    if x.time == t {
      NoneBeforeFirst(s, t);
    }
  }

  lemma StableStep(h: Reminder, rest: seq<Reminder>, tail: seq<Reminder>, x: Reminder, t: string)
    requires AtTime(rest, t) == AtTime(tail, t) + AtTime([x], t)
    ensures AtTime([h] + rest, t) == AtTime([h] + tail, t) + AtTime([x], t)
  {
    AtTimeConcat([h], rest, t);
    AtTimeConcat([h], tail, t);
  }

  /** Inserting keeps the entries of each time in order, the new one last. */
  lemma {:induction false} InsertByTimeStable(x: Reminder, s: seq<Reminder>, t: string)
    requires SortedByTime(s)
    ensures AtTime(InsertByTime(x, s), t) == AtTime(s, t) + AtTime([x], t)
  {
    if s == [] {
      assert AtTime(s, t) == [];
    } else if Less(x.time, s[0].time) {
      StableFront(x, s, t);
    } else {
      var rest := InsertByTime(x, s[1..]);
      assert InsertByTime(x, s) == [s[0]] + rest;
      InsertByTimeStable(x, s[1..], t);
      StableStep(s[0], rest, s[1..], x, t);
      assert [s[0]] + s[1..] == s;
    }
  }

  lemma SortByTimeLast(s: seq<Reminder>)
    requires s != []
    ensures SortByTime(s) == InsertByTime(s[|s| - 1], SortByTime(s[..|s| - 1]))
  {
  }

  lemma AtTimeLast(s: seq<Reminder>, t: string)
    requires s != []
    ensures AtTime(s, t) == AtTime(s[..|s| - 1], t) + AtTime([s[|s| - 1]], t)
  {
    AtTimeSingle(s[|s| - 1], t);
  }

  /** The sort is stable: the entries of any one time keep their relative order. */
  lemma {:induction false} SortByTimeStable(s: seq<Reminder>, t: string)
    ensures AtTime(SortByTime(s), t) == AtTime(s, t)
  {
    if s != [] {
      var init, x := s[..|s| - 1], s[|s| - 1];
      var sorted := SortByTime(init);
      SortByTimeLast(s);
      SortByTimeStable(init, t);
      InsertByTimeStable(x, sorted, t);
      AtTimeLast(s, t);
    }
  }

  lemma {:induction false} InsertByTimeAtEnd(x: Reminder, s: seq<Reminder>)
    requires SortedByTime(s)
    requires forall i :: 0 <= i < |s| ==> !Less(x.time, s[i].time)
    ensures InsertByTime(x, s) == s + [x]
  {
    if s != [] {
      InsertByTimeAtEnd(x, s[1..]);
      assert [s[0]] + (s[1..] + [x]) == s + [x];
    }
  }

  /** Sorting a list that is already sorted changes nothing. */
  lemma {:induction false} SortByTimeOfSorted(s: seq<Reminder>)
    requires SortedByTime(s)
    ensures SortByTime(s) == s
  {
    if s != [] {
      var last := |s| - 1;
      SortByTimeOfSorted(s[..last]);
      InsertByTimeAtEnd(s[last], s[..last]);
      assert s[..last] + [s[last]] == s;
    }
  }

  lemma {:induction false} InsertByTimeDistinct(x: Reminder, s: seq<Reminder>)
    requires SortedByTime(s) && DistinctIds(s)
    requires forall y :: y in s ==> y.id != x.id
    ensures DistinctIds(InsertByTime(x, s))
  {
    if s == [] {
    } else if Less(x.time, s[0].time) {
      ConsDistinct(x, s);
    } else {
      assert s == [s[0]] + s[1..];
      InsertByTimeDistinct(x, s[1..]);
      var rest := InsertByTime(x, s[1..]);
      assert forall y :: y in rest ==> y in multiset(s[1..]) + multiset{x};
      forall y | y in rest ensures y.id != s[0].id {
        if y != x {
          assert y in s[1..];
        }
      }
      ConsDistinct(s[0], rest);
    }
  }

  /** Sorting keeps ids distinct. */
  lemma {:induction false} SortByTimeDistinct(s: seq<Reminder>)
    requires DistinctIds(s)
    ensures DistinctIds(SortByTime(s))
  {
    if s != [] {
      var last := |s| - 1;
      SortByTimeDistinct(s[..last]);
      var sorted := SortByTime(s[..last]);
      forall y | y in sorted ensures y.id != s[last].id {
        assert y in multiset(s[..last]);
        var i :| 0 <= i < last && s[..last][i] == y;
      }
      InsertByTimeDistinct(s[last], sorted);
    }
  }

  // ---------------------------------------------------------------------
  // Upsert by id and removal by id

  predicate HasId(s: seq<Reminder>, id: string)
  {
    exists i :: 0 <= i < |s| && s[i].id == id
  }

  /** `findIndex(f => f.id === id)`: the first index holding `id`, or -1. */
  function FindIndexById(s: seq<Reminder>, id: string): (i: int)
    ensures -1 <= i < |s|
    ensures i == -1 <==> !HasId(s, id)
    ensures i >= 0 ==> s[i].id == id && forall j :: 0 <= j < i ==> s[j].id != id
  {
    if s == [] then -1
    else if s[0].id == id then 0
    else
      var k := FindIndexById(s[1..], id);
      assert forall j :: 1 <= j < |s| ==> s[j] == s[1..][j - 1];
      if k == -1 then -1 else k + 1
  }

  /** The list `setItem` hands to `sort`: the entry with the same id replaced,
      or the reminder appended. */
  function Upsert(s: seq<Reminder>, r: Reminder): (u: seq<Reminder>)
    ensures HasId(s, r.id) ==> |u| == |s|
    ensures !HasId(s, r.id) ==> u == s + [r]
    ensures forall y :: y in u ==> y == r || y in s
    ensures r in u
  {
    var idx := FindIndexById(s, r.id);
    if idx != -1 then
      var u := s[idx := r];
      assert u[idx] == r;
      u
    else s + [r]
  }

  /** With distinct ids, the upsert replaces the one entry holding the id and
      leaves every other entry in place. */
  lemma UpsertReplaces(s: seq<Reminder>, r: Reminder)
    requires DistinctIds(s) && HasId(s, r.id)
    ensures DistinctIds(Upsert(s, r))
    ensures forall j :: 0 <= j < |s| && s[j].id != r.id ==> Upsert(s, r)[j] == s[j]
    ensures forall j :: 0 <= j < |s| && s[j].id == r.id ==> Upsert(s, r)[j] == r
  {
  }

  lemma UpsertAppends(s: seq<Reminder>, r: Reminder)
    requires DistinctIds(s) && !HasId(s, r.id)
    ensures DistinctIds(Upsert(s, r))
    ensures multiset(Upsert(s, r)) == multiset(s) + multiset{r}
  {
  }

  /** `filter(reminder => reminder.id !== id)`. */
  function RemoveById(s: seq<Reminder>, id: string): (r: seq<Reminder>)
    ensures forall y :: y in r <==> y in s && y.id != id
    ensures |r| <= |s|
    ensures SortedByTime(s) ==> SortedByTime(r)
    ensures DistinctIds(s) ==> DistinctIds(r)
  {
    if s == [] then []
    else
      var rest := RemoveById(s[1..], id);
      assert s == [s[0]] + s[1..];
      if s[0].id == id then rest
      else
        KeepHead(s, rest);
        [s[0]] + rest
  }

  lemma KeepHead(s: seq<Reminder>, rest: seq<Reminder>)
    requires s != []
    requires forall y :: y in rest ==> y in s[1..]
    requires SortedByTime(s[1..]) ==> SortedByTime(rest)
    requires DistinctIds(s[1..]) ==> DistinctIds(rest)
    ensures SortedByTime(s) ==> SortedByTime([s[0]] + rest)
    ensures DistinctIds(s) ==> DistinctIds([s[0]] + rest)
  {
    assert forall y :: y in s[1..] ==> exists j :: 1 <= j < |s| && s[j] == y;
    if SortedByTime(s) {
      assert SortedByTime(s[1..]);
      ConsSorted(s[0], rest);
    }
    if DistinctIds(s) {
      assert DistinctIds(s[1..]);
      ConsDistinct(s[0], rest);
    }
  }

  /** The filter keeps the original order: it distributes over concatenation. */
  lemma {:induction false} RemoveByIdConcat(a: seq<Reminder>, b: seq<Reminder>, id: string)
    ensures RemoveById(a + b, id) == RemoveById(a, id) + RemoveById(b, id)
  {
    if a == [] {
      assert a + b == b;
    } else {
      assert (a + b)[1..] == a[1..] + b;
      RemoveByIdConcat(a[1..], b, id);
    }
  }

  /** Removing an id the list does not hold changes nothing. */
  lemma {:induction false} RemoveByIdAbsent(s: seq<Reminder>, id: string)
    requires !HasId(s, id)
    ensures RemoveById(s, id) == s
  {
    if s != [] {
      assert !HasId(s[1..], id);
      RemoveByIdAbsent(s[1..], id);
      assert [s[0]] + s[1..] == s;
    }
  }

  // ---------------------------------------------------------------------
  // The index as a whole

  /** What every list of the index keeps: sorted by time, ids distinct. */
  predicate WellFormed(h: Index)
  {
    forall k :: k in h ==> SortedByTime(h[k]) && DistinctIds(h[k])
  }

  /** Every reminder is filed under the key of its own date. */
  predicate KeyedByDate(h: Index)
  {
    forall k, i :: k in h && 0 <= i < |h[k]| ==> FormatDate(h[k][i].date) == k
  }

  /** `getStorageByKey(key)` on a snapshot: undefined when the key is absent. */
  function StorageByKey(h: Index, key: string): (r: Option<seq<Reminder>>)
    ensures r.Some? <==> key in h
    ensures r.Some? ==> r.value == h[key]
  {
    if key in h then Some(h[key]) else None
  }

  /** The index `setItem(key, reminder)` leaves. */
  function AfterSetItem(h: Index, key: string, reminder: Reminder): (r: Index)
    ensures r.Keys == h.Keys + {key}
    ensures forall k :: k in h && k != key ==> r[k] == h[k]
    ensures SortedByTime(r[key]) && reminder in r[key]
  {
    var u := if key in h then Upsert(h[key], reminder) else [reminder];
    SortByTimeKeeps(u, reminder);
    h[key := SortByTime(u)]
  }

  lemma SortByTimeKeeps(s: seq<Reminder>, x: Reminder)
    requires x in s
    ensures x in SortByTime(s)
  {
    assert x in multiset(s);
  }

  /** On an absent key, `setItem` stores exactly the one reminder. */
  lemma SetItemOnAbsentKey(h: Index, key: string, reminder: Reminder)
    requires key !in h
    ensures AfterSetItem(h, key, reminder)[key] == [reminder]
  {
    assert SortByTime([reminder]) == InsertByTime(reminder, SortByTime([]));
  }

  /** On a present id, `setItem` replaces that entry: same length, the old
      entry out, the new one in, and no id twice. */
  lemma SetItemReplaces(h: Index, key: string, reminder: Reminder)
    requires key in h && DistinctIds(h[key]) && HasId(h[key], reminder.id)
    ensures var s, s' := h[key], AfterSetItem(h, key, reminder)[key];
      var i := FindIndexById(s, reminder.id);
      && |s'| == |s|
      && multiset(s') == multiset(s) - multiset{s[i]} + multiset{reminder}
      && DistinctIds(s')
  {
    var s := h[key];
    var i := FindIndexById(s, reminder.id);
    UpsertReplaces(s, reminder);
    assert Upsert(s, reminder) == s[i := reminder];
    SortByTimeDistinct(Upsert(s, reminder));
  }

  /** On a new id, `setItem` adds the reminder to what was there. */
  lemma SetItemAppends(h: Index, key: string, reminder: Reminder)
    requires key in h && DistinctIds(h[key]) && !HasId(h[key], reminder.id)
    ensures var s, s' := h[key], AfterSetItem(h, key, reminder)[key];
      && |s'| == |s| + 1
      && multiset(s') == multiset(s) + multiset{reminder}
      && DistinctIds(s')
  {
    UpsertAppends(h[key], reminder);
    SortByTimeDistinct(Upsert(h[key], reminder));
  }

  /** After `setItem` the list is sorted by time, and entries of equal time
      keep the order they had before the sort. */
  lemma SetItemOrder(h: Index, key: string, reminder: Reminder, t: string)
    ensures SortedByTime(AfterSetItem(h, key, reminder)[key])
    ensures var before := if key in h then Upsert(h[key], reminder) else [reminder];
      AtTime(AfterSetItem(h, key, reminder)[key], t) == AtTime(before, t)
  {
    SortByTimeStable(if key in h then Upsert(h[key], reminder) else [reminder], t);
  }

  /** The reminder is stored, and it is the only entry with its id. */
  lemma SetItemStoresOnce(h: Index, key: string, reminder: Reminder)
    requires WellFormed(h)
    ensures var s' := AfterSetItem(h, key, reminder)[key];
      && reminder in s'
      && DistinctIds(s')
      && forall j :: 0 <= j < |s'| && s'[j].id == reminder.id ==> s'[j] == reminder
  {
    var before := if key in h then Upsert(h[key], reminder) else [reminder];
    if key in h {
      if HasId(h[key], reminder.id) {
        UpsertReplaces(h[key], reminder);
      } else {
        UpsertAppends(h[key], reminder);
      }
    }
    SortByTimeDistinct(before);
    var s' := AfterSetItem(h, key, reminder)[key];
    assert reminder in multiset(s');
    var k :| 0 <= k < |s'| && s'[k] == reminder;
    assert forall j :: 0 <= j < |s'| && s'[j].id == reminder.id ==> j == k;
  }

  /** `setItem` keeps the index well formed. */
  lemma SetItemWellFormed(h: Index, key: string, reminder: Reminder)
    requires WellFormed(h)
    ensures WellFormed(AfterSetItem(h, key, reminder))
  {
    SetItemStoresOnce(h, key, reminder);
  }

  /** Calling `setItem` twice with the same reminder is the same as once. */
  lemma SetItemIdempotent(h: Index, key: string, reminder: Reminder)
    requires WellFormed(h)
    ensures AfterSetItem(AfterSetItem(h, key, reminder), key, reminder) == AfterSetItem(h, key, reminder)
  {
    var h1 := AfterSetItem(h, key, reminder);
    var s1 := h1[key];
    SetItemStoresOnce(h, key, reminder);
    assert HasId(s1, reminder.id) by {
      var k :| 0 <= k < |s1| && s1[k] == reminder;
    }
    var i := FindIndexById(s1, reminder.id);
    assert s1[i] == reminder;
    assert Upsert(s1, reminder) == s1;
    SortByTimeOfSorted(s1);
  }

  /** Filing a reminder under the key of its own date keeps every reminder
      under the key of its date. */
  lemma SetItemKeyedByDate(h: Index, reminder: Reminder)
    requires KeyedByDate(h)
    ensures KeyedByDate(AfterSetItem(h, FormatDate(reminder.date), reminder))
  {
    var key := FormatDate(reminder.date);
    var before := if key in h then Upsert(h[key], reminder) else [reminder];
    var s' := AfterSetItem(h, key, reminder)[key];
    forall i | 0 <= i < |s'| ensures FormatDate(s'[i].date) == key {
      assert s'[i] in multiset(before);
      if s'[i] != reminder {
        var j :| 0 <= j < |h[key]| && h[key][j] == s'[i];
      }
    }
  }

  /** The index `deleteReminderById(id, date)` leaves when the day's key exists. */
  function AfterDeleteById(h: Index, id: string, date: string): (r: Index)
    requires FormatDate(date) in h
    ensures r.Keys == h.Keys
    ensures forall k :: k in h && k != FormatDate(date) ==> r[k] == h[k]
    ensures forall y :: y in r[FormatDate(date)] <==> y in h[FormatDate(date)] && y.id != id
  {
    h[FormatDate(date) := RemoveById(h[FormatDate(date)], id)]
  }

  lemma DeleteByIdKeepsInvariants(h: Index, id: string, date: string)
    requires FormatDate(date) in h
    ensures WellFormed(h) ==> WellFormed(AfterDeleteById(h, id, date))
    ensures KeyedByDate(h) ==> KeyedByDate(AfterDeleteById(h, id, date))
    ensures !HasId(AfterDeleteById(h, id, date)[FormatDate(date)], id)
  {
    var key := FormatDate(date);
    var s' := RemoveById(h[key], id);
    if KeyedByDate(h) {
      forall i | 0 <= i < |s'| ensures FormatDate(s'[i].date) == key {
        assert s'[i] in h[key];
      }
    }
  }

  // ---------------------------------------------------------------------
  // The provider's state

  /** The storage provider: its `hash` state and the operations on it.
      `getStorage()` and the context's `storage` both return `hash` itself. */
  class ReminderStore {
    var hash: Index

    ghost predicate Valid()
      reads this
    {
      WellFormed(hash)
    }

    /** `useState<IHash>({})`. */
    constructor ()
      ensures Valid() && hash == map[]
    {
      hash := map[];
    }

    /** `getStorage()`: the whole index, every list sorted by time with
        distinct ids. */
    function GetStorage(): (r: Index)
      reads this
      requires Valid()
      ensures WellFormed(r)
      ensures r.Keys == hash.Keys
      ensures forall k :: StorageByKey(r, k) == GetStorageByKey(k)
    {
      hash
    }

    /** `getStorageByKey`: what a caller sees is sorted by time with distinct ids. */
    function GetStorageByKey(key: string): (r: Option<seq<Reminder>>)
      reads this
      requires Valid()
      ensures r == StorageByKey(hash, key)
      ensures r.Some? ==> SortedByTime(r.value) && DistinctIds(r.value)
    {
      StorageByKey(hash, key)
    }

    /** `setItem(key, reminder)`: upsert by id, re-sort by time, store under `key`. */
    method SetItem(key: string, reminder: Reminder)
      requires Valid()
      modifies this
      ensures Valid()
      ensures hash == AfterSetItem(old(hash), key, reminder)
      ensures key in hash && reminder in hash[key]
      ensures forall k :: k != key ==> (k in hash <==> k in old(hash))
      ensures forall k :: k != key && k in hash ==> hash[k] == old(hash)[k]
    {
      var dataCopy: seq<Reminder>;
      if key in hash {
        dataCopy := hash[key];
        var idx := FindIndexById(dataCopy, reminder.id);
        if idx != -1 {
          dataCopy := dataCopy[idx := reminder];
        } else {
          dataCopy := dataCopy + [reminder];
        }
      } else {
        dataCopy := [reminder];
      }
      assert dataCopy == if key in hash then Upsert(hash[key], reminder) else [reminder];
      dataCopy := SortByTime(dataCopy);
      assert hash[key := dataCopy] == AfterSetItem(hash, key, reminder);
      SetItemStoresOnce(hash, key, reminder);
      SetItemWellFormed(hash, key, reminder);
      hash := hash[key := dataCopy];
    }

    /** `deleteReminderById(id, date)`: filter the id out of the day's list.
        The key stays even when the list becomes empty. When the day has no
        entry, `.filter` is called on undefined and throws: `ok` is false
        and nothing changes. */
    method DeleteReminderById(id: string, date: string) returns (ok: bool)
      requires Valid()
      modifies this
      ensures Valid()
      ensures ok <==> FormatDate(date) in old(hash)
      ensures ok ==> hash == AfterDeleteById(old(hash), id, date)
      ensures !ok ==> hash == old(hash)
    {
      var formattedDate := FormatDate(date);
      if formattedDate !in hash {
        return false;
      }
      var reminders := RemoveById(hash[formattedDate], id);
      DeleteByIdKeepsInvariants(hash, id, date);
      hash := hash[formattedDate := reminders];
      ok := true;
    }

    /** `deleteRemindersByDate(date)`: drop the day's key; nothing else changes. */
    method DeleteRemindersByDate(date: string)
      requires Valid()
      modifies this
      ensures Valid()
      ensures hash == old(hash) - {FormatDate(date)}
      ensures FormatDate(date) !in hash
      ensures forall k :: k != FormatDate(date) ==> (k in hash <==> k in old(hash))
      ensures forall k :: k in hash ==> hash[k] == old(hash)[k]
      ensures FormatDate(date) !in old(hash) ==> hash == old(hash)
    {
      var formattedDate := FormatDate(date);
      hash := hash - {formattedDate};
    }
  }
}
