/**
 * `find_new_badges`: the fetched records dated after the newest stored
 * record. The store is kept newest first, so its first record's date is the
 * threshold; dates are compared as strings, as Python compares `str`.
 */
module Novelty {
  import opened Wrappers
  import opened Text
  import opened Dates
  import opened Seqs
  import opened Badges

  /** The records of `fetched` whose date string is strictly greater than `latest`, in order. */
  function NewerThan(fetched: seq<Badge>, latest: string): (r: seq<Badge>)
    ensures SubsequenceOf(r, fetched)
    ensures forall b :: b in r ==> StrLess(latest, b.fecha)
  {
    if fetched == [] then []
    else
      var p := fetched[..|fetched| - 1];
      var b := fetched[|fetched| - 1];
      var kept := NewerThan(p, latest);
      SubsequenceStep(kept, p, b, StrLess(latest, b.fecha));
      assert p + [b] == fetched;
      if StrLess(latest, b.fecha) then kept + [b] else kept
  }

  /** `find_new_badges`: everything when the store is empty, else what is newer than its first record. */
  function FindNewBadges(fetched: seq<Badge>, existing: seq<Badge>): (r: seq<Badge>)
    ensures existing == [] ==> r == fetched
    ensures existing != [] ==> SubsequenceOf(r, fetched)
    ensures existing != [] ==> forall b :: b in r ==> StrLess(existing[0].fecha, b.fecha)
  {
    if existing == [] then fetched else NewerThan(fetched, existing[0].fecha)
  }

  /** Exactly the fetched records past the threshold are kept, each as often as it was fetched. */
  lemma {:induction false} NewerThanCounts(fetched: seq<Badge>, latest: string, b: Badge)
    ensures multiset(NewerThan(fetched, latest))[b] ==
      if StrLess(latest, b.fecha) then multiset(fetched)[b] else 0
  {
    if fetched != [] {
      var p := fetched[..|fetched| - 1];
      NewerThanCounts(p, latest, b);
      assert p + [fetched[|fetched| - 1]] == fetched;
    }
  }

  /** A fetched record is kept exactly when its date string is past the threshold. */
  lemma NewerThanKeeps(fetched: seq<Badge>, latest: string, b: Badge)
    ensures b in NewerThan(fetched, latest) <==> b in fetched && StrLess(latest, b.fecha)
  {
    NewerThanCounts(fetched, latest, b);
  }

  /** A record dated the same day as the newest stored record is never new. */
  lemma SameDayNotNew(fetched: seq<Badge>, existing: seq<Badge>, b: Badge)
    requires existing != [] && b.fecha == existing[0].fecha
    ensures b !in FindNewBadges(fetched, existing)
  {
    StrLessIrreflexive(b.fecha);
  }

  /**
   * For records whose dates are ISO dates, "newer" in the string order is
   * "later" on the calendar.
   */
  lemma NewIsLater(fetched: seq<Badge>, existing: seq<Badge>, b: Badge)
    requires existing != [] && IsoDecode(existing[0].fecha).Some?
    requires b in fetched && IsoDecode(b.fecha).Some?
    ensures b in FindNewBadges(fetched, existing)
      <==> Before(IsoDecode(existing[0].fecha).value, IsoDecode(b.fecha).value)
  {
    NewerThanKeeps(fetched, existing[0].fecha, b);
    IsoStringOrder(existing[0].fecha, b.fecha);
  }
}
