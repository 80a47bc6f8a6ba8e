/**
 * The event membership sets are arrays that the handlers pass through a
 * JavaScript `Set` and back: duplicates vanish, and the surviving ids keep the
 * order in which they were first inserted. This module gives that round trip
 * a definition and proves the facts the handlers rely on.
 */
module IdSets {

  predicate NoDup(s: seq<string>)
  {
    forall i, j :: 0 <= i < j < |s| ==> s[i] != s[j]
  }

  /** Number of occurrences of `x` in `s`. */
  function Occurrences(s: seq<string>, x: string): nat
  {
    if s == [] then 0
    else (if s[|s| - 1] == x then 1 else 0) + Occurrences(s[..|s| - 1], x)
  }

  lemma {:induction false} OccurrencesNoDup(s: seq<string>, x: string)
    requires NoDup(s)
    ensures Occurrences(s, x) == if x in s then 1 else 0
  {
    if s != [] {
      var init := s[..|s| - 1];
      assert NoDup(init);
      OccurrencesNoDup(init, x);
      if s[|s| - 1] == x {
        assert x !in init by {
          forall k | 0 <= k < |init| ensures init[k] != x {
            assert s[k] != s[|s| - 1];
          }
        }
      } else {
        assert x in s <==> x in init by {
          if x in s {
            var k :| 0 <= k < |s| && s[k] == x;
            assert k < |s| - 1 && init[k] == x;
          }
        }
      }
    }
  }

  /**
   * `Array.from(new Set(s))`: the elements of `s` in first-occurrence order,
   * each once.
   */
  function Dedup(s: seq<string>): (r: seq<string>)
    ensures NoDup(r)
    ensures forall x :: x in r <==> x in s
    ensures |r| <= |s|
  {
    if s == [] then []
    else
      var init := Dedup(s[..|s| - 1]);
      var last := s[|s| - 1];
      assert forall x :: x in s <==> x in s[..|s| - 1] || x == last by {
        assert s == s[..|s| - 1] + [last];
      }
      if last in s[..|s| - 1] then init else init + [last]
  }

  /** A sequence without repeats is its own deduplication. */
  lemma {:induction false} DedupOfNoDup(s: seq<string>)
    requires NoDup(s)
    ensures Dedup(s) == s
  {
    if s != [] {
      var init := s[..|s| - 1];
      assert NoDup(init);
      DedupOfNoDup(init);
      assert s[|s| - 1] !in init by {
        forall k | 0 <= k < |init| ensures init[k] != s[|s| - 1] {
          assert s[k] != s[|s| - 1];
        }
      }
      assert init + [s[|s| - 1]] == s;
    }
  }

  /** `s` with every occurrence of `x` removed, order otherwise kept. */
  function Without(s: seq<string>, x: string): (r: seq<string>)
    ensures forall y :: y in r <==> y in s && y != x
    ensures NoDup(s) ==> NoDup(r)
    ensures |r| <= |s|
  {
    if s == [] then []
    else
      var rest := Without(s[1..], x);
      assert NoDup(s) ==> NoDup(s[1..]) && s[0] !in s[1..] by {
        if NoDup(s) {
          forall k | 0 <= k < |s[1..]| ensures s[1..][k] != s[0] {
            assert s[k + 1] != s[0];
          }
        }
      }
      assert forall y :: y in s <==> y == s[0] || y in s[1..] by {
        assert s == [s[0]] + s[1..];
      }
      if s[0] == x then rest else [s[0]] + rest
  }

  /** Removing an element that is absent changes nothing. */
  lemma {:induction false} WithoutAbsent(s: seq<string>, x: string)
    requires x !in s
    ensures Without(s, x) == s
  {
    if s != [] {
      WithoutAbsent(s[1..], x);
      assert [s[0]] + s[1..] == s;
    }
  }

  /** Removing the last element of a sequence where it occurs only at the end. */
  lemma WithoutAppended(s: seq<string>, x: string)
    requires x !in s
    ensures Without(s + [x], x) == s
  {
    if s == [] {
      assert Without([x], x) == Without([x][1..], x);
    } else {
      assert (s + [x])[1..] == s[1..] + [x];
      WithoutAppended(s[1..], x);
      assert [s[0]] + s[1..] == s;
    }
  }

  /** `new Set(s).add(x)` read back as an array. */
  function SetAdd(s: seq<string>, x: string): (r: seq<string>)
    ensures NoDup(r)
    ensures forall y :: y in r <==> y in s || y == x
    ensures Occurrences(r, x) == 1
  {
    var r := Dedup(s + [x]);
    OccurrencesNoDup(r, x);
    r
  }

  /** `new Set(s)` with `x` deleted, read back as an array. */
  function SetDelete(s: seq<string>, x: string): (r: seq<string>)
    ensures NoDup(r)
    ensures forall y :: y in r <==> y in s && y != x
    ensures Occurrences(r, x) == 0
  {
    var r := Without(Dedup(s), x);
    OccurrencesNoDup(r, x);
    r
  }

  /** On a set without `x`, adding appends it at the end. */
  lemma SetAddFresh(s: seq<string>, x: string)
    requires NoDup(s) && x !in s
    ensures SetAdd(s, x) == s + [x]
  {
    assert (s + [x])[..|s + [x]| - 1] == s;
    DedupOfNoDup(s);
  }

  /** On a set already holding `x`, adding changes nothing. */
  lemma SetAddPresent(s: seq<string>, x: string)
    requires NoDup(s) && x in s
    ensures SetAdd(s, x) == s
  {
    assert (s + [x])[..|s + [x]| - 1] == s;
    DedupOfNoDup(s);
  }

  /**
   * Adding an absent id and then deleting it restores the original array
   * exactly, not only the same set.
   */
  lemma {:induction false} AddThenDelete(s: seq<string>, x: string)
    requires NoDup(s) && x !in s
    ensures SetDelete(SetAdd(s, x), x) == s
  {
    SetAddFresh(s, x);
    var added := s + [x];
    assert NoDup(added) by {
      forall i, j | 0 <= i < j < |added| ensures added[i] != added[j] {
        if j < |s| { assert added[i] == s[i] && added[j] == s[j]; }
      }
    }
    DedupOfNoDup(added);
    WithoutAppended(s, x);
  }

}
