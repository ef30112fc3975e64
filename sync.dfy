/**
 * `main` (lines 152-199) with its I/O taken out: the records collected from
 * the profile cards are compared with the stored list, the new ones are
 * enriched, sorted newest first and put in front of the stored ones, and the
 * commit message is formed.
 */
module Sync {
  import opened Wrappers
  import opened Text
  import opened Seqs
  import opened Badges
  import opened Novelty
  import opened Enrichment
  import opened Sorting
  import opened Summary

  /**
   * How a run ends: nothing new (`sys.exit(0)` at line 163), an exception
   * while enriching, or the list to save with the number of records added and
   * the commit message.
   */
  datatype Outcome =
    | NothingNew
    | Aborted
    | Updated(badges: seq<Badge>, added: nat, commitMsg: string)

  /** What a run produces. */
  function Synced(cards: seq<Card>, existing: seq<Badge>, ask: (string, seq<Badge>) -> Option<string>,
                  decode: string -> Option<Reply>): Outcome
  {
    var news := FindNewBadges(Collected(cards), existing);
    if news == [] then NothingNew
    else
      match Enriched(news, existing, ask, decode)
      case None => Aborted
      case Some(done) =>
        var sorted := NewestFirst(done);
        Updated(sorted + existing, |sorted|, CommitMessage(Titles(sorted)))
  }

  /** The run itself, with the sort done in place on an array. */
  method Synchronise(cards: seq<Card>, existing: seq<Badge>, ask: (string, seq<Badge>) -> Option<string>,
                     decode: string -> Option<Reply>) returns (outcome: Outcome)
    ensures outcome == Synced(cards, existing, ask, decode)
  {
    var profile := CollectBadges(cards);
    var news := FindNewBadges(profile, existing);
    if news == [] {
      return NothingNew;
    }
    var completed := EnrichAll(news, existing, ask, decode);
    if completed.None? {
      return Aborted;
    }
    var done := completed.value;
    var a := new Badge[|done|](i requires 0 <= i < |done| => done[i]);
    assert a[..] == done;
    SortNewestFirst(a);
    var sorted := a[..];
    outcome := Updated(sorted + existing, a.Length, CommitMessage(Titles(sorted)));
  }

  /** A run stops with nothing to do exactly when no collected record is newer than the stored ones. */
  lemma SyncedNothingNew(cards: seq<Card>, existing: seq<Badge>, ask: (string, seq<Badge>) -> Option<string>,
                         decode: string -> Option<Reply>)
    ensures Synced(cards, existing, ask, decode).NothingNew? <==> FindNewBadges(Collected(cards), existing) == []
  {
  }

  /**
   * The saved list: the enriched new records, newest first with ties in
   * their order, followed by the stored records unchanged; the commit message
   * is formed from the new records' titles.
   */
  lemma SyncedMerge(cards: seq<Card>, existing: seq<Badge>, ask: (string, seq<Badge>) -> Option<string>,
                    decode: string -> Option<Reply>)
    requires Synced(cards, existing, ask, decode).Updated?
    ensures var o := Synced(cards, existing, ask, decode);
      var news := FindNewBadges(Collected(cards), existing);
      var done := Enriched(news, existing, ask, decode).value;
      var added := o.badges[..o.added];
      o.added == |news| >= 1 && |o.badges| == o.added + |existing| &&
      o.badges[o.added..] == existing &&
      multiset(added) == multiset(done) &&
      NonIncreasing(added) &&
      (forall d :: WithDate(added, d) == WithDate(done, d)) &&
      o.commitMsg == CommitMessage(Titles(added))
  {
    var news := FindNewBadges(Collected(cards), existing);
    var done := Enriched(news, existing, ask, decode).value;
    var sorted := NewestFirst(done);
    EnrichedFields(news, existing, ask, decode);
    NewestFirstOrdered(done);
    forall d
      ensures WithDate(sorted, d) == WithDate(done, d)
    {
      NewestFirstStable(done, d);
    }
    assert (sorted + existing)[..|sorted|] == sorted && (sorted + existing)[|sorted|..] == existing;
  }

  /**
   * The stored list stays sorted newest first from run to run: every new
   * record is later than the first stored one, which is the latest stored.
   * This is what makes comparing with `existing[0]` at line 97 enough.
   */
  lemma SyncedKeepsOrder(cards: seq<Card>, existing: seq<Badge>, ask: (string, seq<Badge>) -> Option<string>,
                         decode: string -> Option<Reply>)
    requires NonIncreasing(existing)
    requires Synced(cards, existing, ask, decode).Updated?
    ensures NonIncreasing(Synced(cards, existing, ask, decode).badges)
  {
    var news := FindNewBadges(Collected(cards), existing);
    var done := Enriched(news, existing, ask, decode).value;
    var sorted := NewestFirst(done);
    EnrichedFields(news, existing, ask, decode);
    NewestFirstOrdered(done);
    forall x | x in sorted
      ensures existing != [] ==> StrLess(existing[0].fecha, x.fecha)
    {
      assert x in multiset(sorted);
      NewRecordLater(news, done, x, existing);
    }
    PrependKeepsOrder(sorted, existing);
  }

  /** Later records put in front of a list sorted newest first keep it sorted. */
  lemma PrependKeepsOrder(sorted: seq<Badge>, existing: seq<Badge>)
    requires NonIncreasing(sorted) && NonIncreasing(existing)
    requires existing != [] ==> forall x :: x in sorted ==> StrLess(existing[0].fecha, x.fecha)
    ensures NonIncreasing(sorted + existing)
  {
    var u := sorted + existing;
    forall i, j | 0 <= i < j < |u|
      ensures !StrLess(u[i].fecha, u[j].fecha)
    {
      if j < |sorted| {
        assert u[i] == sorted[i] && u[j] == sorted[j];
      } else if i >= |sorted| {
        assert u[i] == existing[i - |sorted|] && u[j] == existing[j - |sorted|];
      } else {
        var x := sorted[i];
        var y := existing[j - |sorted|];
        assert u[i] == x && u[j] == y && x in sorted;
        StoredNotLater(existing, j - |sorted|);
        if StrLess(x.fecha, y.fecha) {
          StrLessTransitive(existing[0].fecha, x.fecha, y.fecha);
        }
      }
    }
  }

  /** A sorted new record carries the date of a new record, later than the first stored one. */
  lemma NewRecordLater(news: seq<Badge>, done: seq<Badge>, x: Badge, existing: seq<Badge>)
    requires existing != [] ==> forall b :: b in news ==> StrLess(existing[0].fecha, b.fecha)
    requires |done| == |news| && forall i :: 0 <= i < |news| ==> done[i].fecha == news[i].fecha
    requires x in multiset(NewestFirst(done))
    ensures existing != [] ==> StrLess(existing[0].fecha, x.fecha)
  {
    assert x in done;
    var k :| 0 <= k < |done| && done[k] == x;
    assert news[k] in news;
  }

  /** In a list sorted newest first, no record is later than the first. */
  lemma StoredNotLater(existing: seq<Badge>, j: int)
    requires NonIncreasing(existing) && 0 <= j < |existing|
    ensures !StrLess(existing[0].fecha, existing[j].fecha)
  {
    if j == 0 {
      StrLessIrreflexive(existing[0].fecha);
    }
  }
}
