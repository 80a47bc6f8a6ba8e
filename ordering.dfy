/**
 * The event lists are shown sorted by date: oldest first on the attendance
 * screen (components/Attendance.tsx), newest first on the payroll screen
 * (components/Finance.tsx). Both sort a copy; the stored list keeps its order.
 */
module Ordering {
  import opened ClubTypes

  /** `a` may be listed before `b`: not later (ascending) or not earlier (descending). */
  predicate InOrder(a: JamEvent, b: JamEvent, ascending: bool)
  {
    if ascending then a.date <= b.date else a.date >= b.date
  }

  predicate SortedByDate(es: seq<JamEvent>, ascending: bool)
  {
    forall i, j :: 0 <= i < j < |es| ==> InOrder(es[i], es[j], ascending)
  }

  /** Places `e` in front of the first event it may precede. */
  function Insert(e: JamEvent, sorted: seq<JamEvent>, ascending: bool): (r: seq<JamEvent>)
    requires SortedByDate(sorted, ascending)
    ensures SortedByDate(r, ascending)
    ensures multiset(r) == multiset(sorted) + multiset{e}
  {
    if sorted == [] then [e]
    else if InOrder(e, sorted[0], ascending) then [e] + sorted
    else
      var rest := Insert(e, sorted[1..], ascending);
      InsertBehindHead(e, sorted, rest, ascending);
      [sorted[0]] + rest
  }

  /**
   * When `e` may not precede the head, the head stays in front of the rest
   * with `e` inserted.
   */
  lemma InsertBehindHead(e: JamEvent, sorted: seq<JamEvent>, rest: seq<JamEvent>, ascending: bool)
    requires sorted != [] && SortedByDate(sorted, ascending) && !InOrder(e, sorted[0], ascending)
    requires SortedByDate(rest, ascending) && multiset(rest) == multiset(sorted[1..]) + multiset{e}
    ensures SortedByDate([sorted[0]] + rest, ascending)
    ensures multiset([sorted[0]] + rest) == multiset(sorted) + multiset{e}
  {
    assert sorted == [sorted[0]] + sorted[1..];
    forall x | x in rest ensures InOrder(sorted[0], x, ascending) {
      assert x in multiset(rest);
      if x != e {
        assert x in multiset(sorted[1..]);
      }
    }
    var r := [sorted[0]] + rest;
    forall i, j | 0 <= i < j < |r| ensures InOrder(r[i], r[j], ascending) {
      if i == 0 {
        assert r[j] == rest[j - 1] && r[j] in rest;
      } else {
        assert r[i] == rest[i - 1] && r[j] == rest[j - 1];
      }
    }
  }

  /** `[...events].sort(...)` by date: the same events, in date order. */
  function SortByDate(es: seq<JamEvent>, ascending: bool): (r: seq<JamEvent>)
    ensures SortedByDate(r, ascending)
    ensures multiset(r) == multiset(es)
  {
    if es == [] then []
    else
      assert es == [es[0]] + es[1..];
      Insert(es[0], SortByDate(es[1..], ascending), ascending)
  }

  /** Sorting lists each event exactly as often as the stored list holds it. */
  lemma SortKeepsEvents(es: seq<JamEvent>, ascending: bool, e: JamEvent)
    ensures e in SortByDate(es, ascending) <==> e in es
    ensures |SortByDate(es, ascending)| == |es|
  {
    var r := SortByDate(es, ascending);
    assert |multiset(r)| == |multiset(es)|;
    assert e in r <==> e in multiset(r);
  }

  /** No two different events of `es` share a date. */
  predicate DatesDistinct(es: seq<JamEvent>)
  {
    forall a, b :: a in es && b in es && a != b ==> a.date != b.date
  }

  function Reverse(es: seq<JamEvent>): (r: seq<JamEvent>)
    ensures |r| == |es| && forall i :: 0 <= i < |es| ==> r[i] == es[|es| - 1 - i]
  {
    if es == [] then [] else Reverse(es[1..]) + [es[0]]
  }

  /** Reversing keeps every event, each as often. */
  lemma {:induction false} ReverseKeepsEvents(es: seq<JamEvent>)
    ensures multiset(Reverse(es)) == multiset(es)
  {
    if es != [] {
      ReverseKeepsEvents(es[1..]);
      assert es == [es[0]] + es[1..];
    }
  }

  /** The oldest-first list reversed is a newest-first list. */
  lemma ReversedAscendingIsDescending(es: seq<JamEvent>)
    requires SortedByDate(es, true)
    ensures SortedByDate(Reverse(es), false)
  {
    var r := Reverse(es);
    forall i, j | 0 <= i < j < |r| ensures InOrder(r[i], r[j], false) {
      assert r[i] == es[|es| - 1 - i] && r[j] == es[|es| - 1 - j];
    }
  }

  /** Two sorted lists holding the same events, no two sharing a date, start alike. */
  lemma SortedHeadsAgree(a: seq<JamEvent>, b: seq<JamEvent>, ascending: bool)
    requires a != [] && b != []
    requires SortedByDate(a, ascending) && SortedByDate(b, ascending)
    requires multiset(a) == multiset(b) && DatesDistinct(a)
    ensures a[0] == b[0]
  {
    assert a[0] in multiset(b) && b[0] in multiset(a);
    var k :| 0 <= k < |a| && a[k] == b[0];
    var m :| 0 <= m < |b| && b[m] == a[0];
    assert InOrder(a[0], a[k], ascending) || k == 0;
    assert InOrder(b[0], b[m], ascending) || m == 0;
    assert a[0].date == b[0].date;
  }

  /** Dropping the same head from two lists holding the same events. */
  lemma TailsKeepEvents(a: seq<JamEvent>, b: seq<JamEvent>)
    requires a != [] && b != [] && a[0] == b[0] && multiset(a) == multiset(b)
    ensures multiset(a[1..]) == multiset(b[1..])
  {
    assert a == [a[0]] + a[1..] && b == [b[0]] + b[1..];
    assert multiset(a) == multiset{a[0]} + multiset(a[1..]);
    assert multiset(b) == multiset{a[0]} + multiset(b[1..]);
    forall e ensures multiset(a[1..])[e] == multiset(b[1..])[e] {
      assert multiset(a)[e] == multiset(b)[e];
    }
  }

  /**
   * When no two events share a date there is only one date order: two sorted
   * lists holding the same events are the same list.
   */
  lemma {:induction false} SortedIsUnique(a: seq<JamEvent>, b: seq<JamEvent>, ascending: bool)
    requires SortedByDate(a, ascending) && SortedByDate(b, ascending)
    requires multiset(a) == multiset(b) && DatesDistinct(a)
    ensures a == b
  {
    assert |a| == |multiset(a)| == |multiset(b)| == |b|;
    if a != [] {
      SortedHeadsAgree(a, b, ascending);
      TailsKeepEvents(a, b);
      forall x, y | x in a[1..] && y in a[1..] && x != y ensures x.date != y.date {
        assert x in a && y in a;
      }
      SortedIsUnique(a[1..], b[1..], ascending);
      assert a == [a[0]] + a[1..] && b == [b[0]] + b[1..];
    }
  }

  /**
   * The payroll screen's newest-first list (components/Finance.tsx) is the
   * attendance screen's oldest-first list (components/Attendance.tsx) read
   * backwards, whenever no two events share a date.
   */
  lemma NewestFirstIsOldestFirstReversed(es: seq<JamEvent>)
    requires DatesDistinct(es)
    ensures SortByDate(es, false) == Reverse(SortByDate(es, true))
  {
    var up := SortByDate(es, true);
    ReversedAscendingIsDescending(up);
    ReverseKeepsEvents(up);
    var down := SortByDate(es, false);
    forall x, y | x in down && y in down && x != y ensures x.date != y.date {
      assert x in multiset(down) && y in multiset(down);
      assert x in multiset(es) && y in multiset(es);
    }
    SortedIsUnique(down, Reverse(up), false);
  }
}
