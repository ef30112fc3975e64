/**
 * Line 183 of `main`: `completed_badges.sort(key=lambda b: b["fecha"],
 * reverse=True)`. Python's list sort is stable, and stays stable with
 * `reverse=True`: records with equal dates keep the order they had. The
 * specification builds the result by inserting each record from the right,
 * past the records strictly older than it; the array method is an insertion
 * sort that works in place and is proved to give that result.
 */
module Sorting {
  import opened Text
  import opened Badges
  import opened Seqs

  /** Puts `b` after `sorted`, then moves it left past records strictly older than it. */
  function InsertByDate(sorted: seq<Badge>, b: Badge): (r: seq<Badge>)
    ensures |r| == |sorted| + 1
    ensures multiset(r) == multiset(sorted) + multiset{b}
  {
    if sorted == [] || !StrLess(sorted[|sorted| - 1].fecha, b.fecha) then sorted + [b]
    else
      var init := sorted[..|sorted| - 1];
      assert sorted == init + [sorted[|sorted| - 1]];
      InsertByDate(init, b) + [sorted[|sorted| - 1]]
  }

  /** The list after the sort: newest first, ties in their original order. */
  function NewestFirst(s: seq<Badge>): (r: seq<Badge>)
    ensures multiset(r) == multiset(s)
  {
    if s == [] then []
    else
      assert s == s[..|s| - 1] + [s[|s| - 1]];
      InsertByDate(NewestFirst(s[..|s| - 1]), s[|s| - 1])
  }

  /** No record is dated (as a string) before one that follows it. */
  predicate NonIncreasing(s: seq<Badge>)
  {
    forall i, j :: 0 <= i < j < |s| ==> !StrLess(s[i].fecha, s[j].fecha)
  }

  /** The records of `s` dated `d`, in their order in `s`. */
  function WithDate(s: seq<Badge>, d: string): seq<Badge>
  {
    if s == [] then []
    else WithDate(s[..|s| - 1], d) + (if s[|s| - 1].fecha == d then [s[|s| - 1]] else [])
  }

  lemma WithDateLast(s: seq<Badge>, b: Badge, d: string)
    ensures WithDate(s + [b], d) == WithDate(s, d) + (if b.fecha == d then [b] else [])
  {
    assert (s + [b])[..|s|] == s;
  }

  /** Inserting into a list sorted newest first keeps it sorted. */
  lemma {:induction false} InsertKeepsOrder(sorted: seq<Badge>, b: Badge)
    requires NonIncreasing(sorted)
    ensures NonIncreasing(InsertByDate(sorted, b))
    decreases |sorted|
  {
    if sorted == [] {
    } else {
      var n := |sorted|;
      var last := sorted[n - 1];
      var init := sorted[..n - 1];
      if !StrLess(last.fecha, b.fecha) {
        forall i | 0 <= i < n
          ensures !StrLess(sorted[i].fecha, b.fecha)
        {
          if i < n - 1 {
            NotLessTransitive(sorted[i].fecha, last.fecha, b.fecha);
          }
        }
      } else {
        InsertKeepsOrder(init, b);
        var r := InsertByDate(init, b);
        forall x | x in r
          ensures !StrLess(x.fecha, last.fecha)
        {
          assert x in multiset(r);
          if x == b {
            StrLessAsymmetric(last.fecha, b.fecha);
          } else {
            assert x in multiset(init);
            var i :| 0 <= i < n - 1 && init[i] == x;
            assert sorted[i] == x;
          }
        }
        LastNotLater(r, last);
      }
    }
  }

  /** Appending a record no later than any before it keeps the order. */
  lemma LastNotLater(r: seq<Badge>, last: Badge)
    requires NonIncreasing(r)
    requires forall x :: x in r ==> !StrLess(x.fecha, last.fecha)
    ensures NonIncreasing(r + [last])
  {
    var t := r + [last];
    forall i, j | 0 <= i < j < |t|
      ensures !StrLess(t[i].fecha, t[j].fecha)
    {
      assert t[i] == r[i];
      if j < |r| {
        assert t[j] == r[j];
      } else {
        assert t[j] == last && r[i] in r;
      }
    }
  }

  /** The sort leaves the list newest first. */
  lemma {:induction false} NewestFirstOrdered(s: seq<Badge>)
    ensures NonIncreasing(NewestFirst(s))
  {
    if s != [] {
      NewestFirstOrdered(s[..|s| - 1]);
      InsertKeepsOrder(NewestFirst(s[..|s| - 1]), s[|s| - 1]);
    }
  }

  /** Insertion puts `b` after every record with its date. */
  lemma {:induction false} InsertStable(sorted: seq<Badge>, b: Badge, d: string)
    ensures WithDate(InsertByDate(sorted, b), d) == WithDate(sorted + [b], d)
    decreases |sorted|
  {
    if sorted != [] && StrLess(sorted[|sorted| - 1].fecha, b.fecha) {
      var last := sorted[|sorted| - 1];
      var init := sorted[..|sorted| - 1];
      assert InsertByDate(sorted, b) == InsertByDate(init, b) + [last];
      assert sorted == init + [last];
      InsertStable(init, b, d);
      StrLessIrreflexive(b.fecha);
      PassOne(InsertByDate(init, b), init, b, last, d);
    }
  }

  /** Moving `b` in front of a record of another date leaves each date's records as they were. */
  lemma PassOne(r: seq<Badge>, init: seq<Badge>, b: Badge, last: Badge, d: string)
    requires WithDate(r, d) == WithDate(init + [b], d) && b.fecha != last.fecha
    ensures WithDate(r + [last], d) == WithDate(init + [last] + [b], d)
  {
    WithDateLast(r, last, d);
    WithDateLast(init, b, d);
    WithDateLast(init, last, d);
    WithDateLast(init + [last], b, d);
    Commute(WithDate(init, d), b, last, d);
  }

  /** Two records of different dates: at most one of them is dated `d`. */
  lemma Commute(w: seq<Badge>, b: Badge, c: Badge, d: string)
    requires b.fecha != c.fecha
    ensures w + (if b.fecha == d then [b] else []) + (if c.fecha == d then [c] else [])
         == w + (if c.fecha == d then [c] else []) + (if b.fecha == d then [b] else [])
  {
  }

  /** The sort is stable: the records of each date keep their relative order. */
  lemma {:induction false} NewestFirstStable(s: seq<Badge>, d: string)
    ensures WithDate(NewestFirst(s), d) == WithDate(s, d)
  {
    if s != [] {
      var init := s[..|s| - 1];
      var last := s[|s| - 1];
      NewestFirstStable(init, d);
      InsertStable(NewestFirst(init), last, d);
      WithDateLast(NewestFirst(init), last, d);
      WithDateLast(init, last, d);
      assert s == init + [last];
    }
  }

  lemma {:induction false} WithDateConcat(s: seq<Badge>, t: seq<Badge>, d: string)
    ensures WithDate(s + t, d) == WithDate(s, d) + WithDate(t, d)
    decreases |t|
  {
    if t == [] {
      assert s + t == s;
    } else {
      var init := t[..|t| - 1];
      var last := t[|t| - 1];
      assert s + t == (s + init) + [last];
      assert t == init + [last];
      WithDateConcat(s, init, d);
      WithDateLast(s + init, last, d);
      WithDateLast(init, last, d);
    }
  }

  /** The records dated `d` in a list that starts with one dated `d`. */
  lemma WithDateFront(s: seq<Badge>, d: string)
    requires s != []
    ensures WithDate(s, d) == (if s[0].fecha == d then [s[0]] else []) + WithDate(s[1..], d)
  {
    assert s == [s[0]] + s[1..];
    WithDateConcat([s[0]], s[1..], d);
    assert WithDate([s[0]], d) == (if s[0].fecha == d then [s[0]] else []) by {
      WithDateLast([], s[0], d);
      assert [] + [s[0]] == [s[0]];
    }
  }

  lemma {:induction false} WithDateMembers(s: seq<Badge>, d: string, x: Badge)
    requires x in WithDate(s, d)
    ensures x in s && x.fecha == d
  {
    if s != [] {
      var init := s[..|s| - 1];
      assert s == init + [s[|s| - 1]];
      if x in WithDate(init, d) {
        WithDateMembers(init, d, x);
      }
    }
  }

  /**
   * Two lists sorted newest first that hold, for every date, the same records
   * in the same order are the same list.
   */
  lemma {:induction false} SortedUnique(r: seq<Badge>, t: seq<Badge>)
    requires NonIncreasing(r) && NonIncreasing(t)
    requires forall d :: WithDate(r, d) == WithDate(t, d)
    ensures r == t
    decreases |r|
  {
    if r == [] || t == [] {
      if r != [] {
        NoneDated(r, t);
        assert false;
      } else if t != [] {
        NoneDated(t, r);
        assert false;
      }
    } else {
      SameFirst(r, t);
      forall e
        ensures WithDate(r[1..], e) == WithDate(t[1..], e)
      {
        TailsAgree(r, t, e);
      }
      SortedUnique(r[1..], t[1..]);
      assert r == [r[0]] + r[1..] && t == [t[0]] + t[1..];
    }
  }

  /** A non-empty list has records of its first record's date; an empty one has none. */
  lemma NoneDated(r: seq<Badge>, t: seq<Badge>)
    requires r != [] && t == []
    ensures WithDate(r, r[0].fecha) != WithDate(t, r[0].fecha)
  {
    WithDateFront(r, r[0].fecha);
  }

  /** Two such lists start with the same record. */
  lemma SameFirst(r: seq<Badge>, t: seq<Badge>)
    requires r != [] && t != [] && NonIncreasing(r) && NonIncreasing(t)
    requires forall d :: WithDate(r, d) == WithDate(t, d)
    ensures r[0] == t[0]
  {
    FirstNotOlder(r, t);
    FirstNotOlder(t, r);
    StrLessTotal(r[0].fecha, t[0].fecha);
    var d := r[0].fecha;
    WithDateFront(r, d);
    WithDateFront(t, d);
    assert r[0] == WithDate(r, d)[0] == t[0];
  }

  /** Past a common first record, the records of each date still agree. */
  lemma TailsAgree(r: seq<Badge>, t: seq<Badge>, e: string)
    requires r != [] && t != [] && r[0] == t[0]
    requires WithDate(r, e) == WithDate(t, e)
    ensures WithDate(r[1..], e) == WithDate(t[1..], e)
  {
    WithDateFront(r, e);
    WithDateFront(t, e);
    var f := if r[0].fecha == e then [r[0]] else [];
    assert f + WithDate(r[1..], e) == f + WithDate(t[1..], e);
    assert WithDate(r[1..], e) == (f + WithDate(r[1..], e))[|f|..];
  }

  /** The newest record of `t` is not older than the first of `r`, when both hold its date's records. */
  lemma FirstNotOlder(r: seq<Badge>, t: seq<Badge>)
    requires r != [] && t != [] && NonIncreasing(t)
    requires WithDate(r, r[0].fecha) == WithDate(t, r[0].fecha)
    ensures !StrLess(t[0].fecha, r[0].fecha)
  {
    var d := r[0].fecha;
    WithDateFront(r, d);
    var y := WithDate(t, d)[0];
    assert y in WithDate(t, d);
    WithDateMembers(t, d, y);
    var k :| 0 <= k < |t| && t[k] == y;
    if k > 0 {
      assert !StrLess(t[0].fecha, t[k].fecha);
    } else {
      StrLessIrreflexive(d);
    }
  }

  /**
   * Any ordering of `s` that is newest first and keeps the records of each
   * date in their original order is the one the sort produces.
   */
  lemma StableSortIsNewestFirst(s: seq<Badge>, r: seq<Badge>)
    requires NonIncreasing(r)
    requires forall d :: WithDate(r, d) == WithDate(s, d)
    ensures r == NewestFirst(s)
  {
    NewestFirstOrdered(s);
    forall d
      ensures WithDate(r, d) == WithDate(NewestFirst(s), d)
    {
      NewestFirstStable(s, d);
    }
    SortedUnique(r, NewestFirst(s));
  }

  /** The next prefix of the specification inserts the next record. */
  lemma NewestFirstNext(s: seq<Badge>, i: int)
    requires 0 <= i < |s|
    ensures NewestFirst(s[..i + 1]) == InsertByDate(NewestFirst(s[..i]), s[i])
  {
    assert s[..i + 1][..i] == s[..i];
  }

  /**
   * One swap of the insertion pass: `x` trades places with the last record of
   * `left`, which is strictly older, so the specification moves it past too.
   */
  lemma SwapStep(left: seq<Badge>, x: Badge, right: seq<Badge>, rest: seq<Badge>)
    requires left != [] && StrLess(left[|left| - 1].fecha, x.fecha)
    ensures var n := |left| - 1;
      (left + [x] + right + rest)[n := x][n + 1 := left[n]] == left[..n] + [x] + ([left[n]] + right) + rest &&
      left[..n] + ([left[n]] + right) == left + right &&
      InsertByDate(left, x) + right == InsertByDate(left[..n], x) + ([left[n]] + right)
  {
    var n := |left| - 1;
    var t := left + [x] + right + rest;
    var u := left[..n] + [x] + ([left[n]] + right) + rest;
    assert |t| == |u|;
    forall k | 0 <= k < |u|
      ensures t[n := x][n + 1 := left[n]][k] == u[k]
    {
      if k < n {
        assert u[k] == left[k];
      } else if k > n + 1 {
        assert t[k] == u[k];
      }
    }
    assert left == left[..n] + [left[n]];
  }

  /** Sorts `a` in place, newest first, keeping records of equal date in order. */
  method SortNewestFirst(a: array<Badge>)
    modifies a
    ensures a[..] == NewestFirst(old(a[..]))
  {
    ghost var s := a[..];
    for i := 0 to a.Length
      invariant a[..] == NewestFirst(s[..i]) + s[i..]
    {
      PartsOf(NewestFirst(s[..i]), s[i..]);
      InsertAt(a, i);
      assert a[..] == InsertByDate(NewestFirst(s[..i]), s[i]) + s[i + 1..];
      NewestFirstNext(s, i);
    }
    assert s[..a.Length] == s;
  }

  /** One pass of the insertion sort: the record at `i` joins the sorted prefix before it. */
  method InsertAt(a: array<Badge>, i: int)
    requires 0 <= i < a.Length
    modifies a
    ensures a[..] == InsertByDate(old(a[..i]), old(a[i])) + old(a[i + 1..])
  {
    var x := a[i];
    ghost var sorted := a[..i];
    ghost var rest := a[i + 1..];
    ghost var left, right := sorted, [];
    assert a[..] == left + [x] + right + rest;
    var j := i;
    while j > 0 && StrLess(a[j - 1].fecha, x.fecha)
      invariant j == |left| && left + right == sorted
      invariant a[..] == left + [x] + right + rest
      invariant InsertByDate(sorted, x) == InsertByDate(left, x) + right
    {
      SwapStep(left, x, right, rest);
      a[j - 1], a[j] := x, a[j - 1];
      left, right := left[..j - 1], [left[j - 1]] + right;
      j := j - 1;
    }
  }
}
