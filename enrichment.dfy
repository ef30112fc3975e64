/**
 * The loop of `main` that completes each new record (lines 173-179) with what
 * `generate_desc_and_category` returns for it (lines 100-142): exemplars are
 * chosen from the stored records, the service is asked about the title, its
 * reply is cleaned of code fences and decoded, and `desc` and `categoria` are
 * copied from the decoded object into the record. Any exception on the way
 * ends the whole run, which the model writes as `None`.
 */
module Enrichment {
  import opened Wrappers
  import opened Badges
  import opened Exemplars
  import opened Fences

  /** The two fields `main` reads from the decoded reply. */
  datatype Reply = Reply(desc: string, categoria: string)

  /** Every stored record has a `categoria` key, so the exemplar loop does not raise. */
  predicate Labelled(existing: seq<Badge>)
  {
    forall k :: 0 <= k < |existing| ==> existing[k].categoria.Some?
  }

  /**
   * What `generate_desc_and_category(b, _, existing)` yields. `ask` is the
   * service: the reply text for a title and the exemplars shown with it
   * (`None` when the response carries no text). `decode` is `json.loads`
   * followed by the lookups of the two keys (`None` when any of them fails).
   */
  function Answer(b: Badge, existing: seq<Badge>, ask: (string, seq<Badge>) -> Option<string>,
                  decode: string -> Option<Reply>): Option<Reply>
  {
    if !Labelled(existing) then None
    else match ask(b.titulo, ExemplarsOf(existing))
      case None => None
      case Some(text) => decode(StripFences(text))
  }

  /** Lines 176-177: the reply's two fields are set and nothing else changes. */
  function Enrich(b: Badge, r: Reply): (e: Badge)
    ensures e.titulo == b.titulo && e.img == b.img && e.fecha == b.fecha && e.url == b.url
    ensures e.desc == Some(r.desc) && e.categoria == Some(r.categoria)
  {
    b.(desc := Some(r.desc), categoria := Some(r.categoria))
  }

  /**
   * `completed_badges` once the loop is over, given the answer for each new
   * record in turn, or `None` when one of them was an exception.
   */
  function Completed(news: seq<Badge>, answers: seq<Option<Reply>>): Option<seq<Badge>>
    requires |answers| == |news|
  {
    if news == [] then Some([])
    else
      var n := |news| - 1;
      match Completed(news[..n], answers[..n])
      case None => None
      case Some(done) =>
        match answers[n]
        case None => None
        case Some(r) => Some(done + [Enrich(news[n], r)])
  }

  /** The answers the service run gives, one per new record. */
  function Answers(news: seq<Badge>, existing: seq<Badge>, ask: (string, seq<Badge>) -> Option<string>,
                   decode: string -> Option<Reply>): (rs: seq<Option<Reply>>)
    ensures |rs| == |news|
  {
    seq(|news|, i requires 0 <= i < |news| => Answer(news[i], existing, ask, decode))
  }

  /** The outcome of the loop of lines 173-179. */
  function Enriched(news: seq<Badge>, existing: seq<Badge>, ask: (string, seq<Badge>) -> Option<string>,
                    decode: string -> Option<Reply>): Option<seq<Badge>>
  {
    Completed(news, Answers(news, existing, ask, decode))
  }

  /** The loop completes exactly when every record gets an answer. */
  lemma {:induction false} CompletedSucceeds(news: seq<Badge>, answers: seq<Option<Reply>>)
    requires |answers| == |news|
    ensures Completed(news, answers).Some? <==> forall i :: 0 <= i < |news| ==> answers[i].Some?
  {
    if news != [] {
      var n := |news| - 1;
      CompletedSucceeds(news[..n], answers[..n]);
      assert forall i :: 0 <= i < n ==> answers[..n][i] == answers[i];
    }
  }

  /** When the loop completes, the i-th completed record is the i-th new one with its answer filled in. */
  lemma {:induction false} CompletedValues(news: seq<Badge>, answers: seq<Option<Reply>>)
    requires |answers| == |news| && Completed(news, answers).Some?
    ensures var done := Completed(news, answers).value;
      |done| == |news| &&
      forall i :: 0 <= i < |news| ==> answers[i].Some? && done[i] == Enrich(news[i], answers[i].value)
  {
    if news != [] {
      var n := |news| - 1;
      CompletedValues(news[..n], answers[..n]);
      var prev := Completed(news[..n], answers[..n]).value;
      var done := Completed(news, answers).value;
      assert done == prev + [Enrich(news[n], answers[n].value)];
      forall i | 0 <= i < n
        ensures answers[i].Some? && done[i] == Enrich(news[i], answers[i].value)
      {
        assert news[..n][i] == news[i] && answers[..n][i] == answers[i] && done[i] == prev[i];
      }
    }
  }

  /** Once a prefix of the loop has raised, the whole loop has. */
  lemma {:induction false} CompletedStops(news: seq<Badge>, answers: seq<Option<Reply>>, k: nat)
    requires |answers| == |news| && k <= |news| && Completed(news[..k], answers[..k]).None?
    ensures Completed(news, answers).None?
    decreases |news|
  {
    if k < |news| {
      var n := |news| - 1;
      assert news[..n][..k] == news[..k] && answers[..n][..k] == answers[..k];
      CompletedStops(news[..n], answers[..n], k);
    } else {
      assert news[..k] == news && answers[..k] == answers;
    }
  }

  /**
   * The run of the loop completes exactly when every new record gets an
   * answer, and then its i-th record is the i-th new record with that answer
   * filled in.
   */
  lemma EnrichedSpec(news: seq<Badge>, existing: seq<Badge>,
                     ask: (string, seq<Badge>) -> Option<string>, decode: string -> Option<Reply>)
    ensures Enriched(news, existing, ask, decode).Some? <==>
            forall i :: 0 <= i < |news| ==> Answer(news[i], existing, ask, decode).Some?
    ensures Enriched(news, existing, ask, decode).Some? ==>
            var done := Enriched(news, existing, ask, decode).value;
            |done| == |news| &&
            forall i :: 0 <= i < |news| ==>
              done[i] == Enrich(news[i], Answer(news[i], existing, ask, decode).value)
  {
    var answers := Answers(news, existing, ask, decode);
    CompletedSucceeds(news, answers);
    if Completed(news, answers).Some? {
      CompletedValues(news, answers);
    }
  }

  /**
   * A stored record without a `categoria` key makes the exemplar loop raise
   * for the first new record, so no record is enriched at all.
   */
  lemma UnlabelledStoreStops(news: seq<Badge>, existing: seq<Badge>,
                             ask: (string, seq<Badge>) -> Option<string>, decode: string -> Option<Reply>)
    requires news != [] && exists k :: 0 <= k < |existing| && existing[k].categoria.None?
    ensures Enriched(news, existing, ask, decode).None?
  {
    var answers := Answers(news, existing, ask, decode);
    assert answers[0] == Answer(news[0], existing, ask, decode) == None;
    assert Completed(news[..1], answers[..1]).None? by {
      assert news[..1][..0] == [] && answers[..1][0] == answers[0];
    }
    CompletedStops(news, answers, 1);
  }

  /** Enrichment keeps title, image, date and URL, and fills in description and category. */
  lemma EnrichedFields(news: seq<Badge>, existing: seq<Badge>,
                       ask: (string, seq<Badge>) -> Option<string>, decode: string -> Option<Reply>)
    requires Enriched(news, existing, ask, decode).Some?
    ensures var done := Enriched(news, existing, ask, decode).value;
      |done| == |news| &&
      forall i :: 0 <= i < |news| ==>
        done[i].titulo == news[i].titulo && done[i].img == news[i].img &&
        done[i].fecha == news[i].fecha && done[i].url == news[i].url &&
        done[i].desc.Some? && done[i].categoria.Some?
  {
    CompletedValues(news, Answers(news, existing, ask, decode));
  }

  /** One more turn of the loop with an answer. */
  lemma CompletedNext(news: seq<Badge>, answers: seq<Option<Reply>>, i: nat, done: seq<Badge>)
    requires |answers| == |news| && i < |news|
    requires Completed(news[..i], answers[..i]) == Some(done) && answers[i].Some?
    ensures Completed(news[..i + 1], answers[..i + 1]) == Some(done + [Enrich(news[i], answers[i].value)])
  {
    assert news[..i + 1][..i] == news[..i] && answers[..i + 1][..i] == answers[..i];
  }

  /** One more turn of the loop with an exception ends the run. */
  lemma CompletedRaises(news: seq<Badge>, answers: seq<Option<Reply>>, i: nat)
    requires |answers| == |news| && i < |news|
    requires Completed(news[..i], answers[..i]).Some? && answers[i].None?
    ensures Completed(news, answers).None?
  {
    assert news[..i + 1][..i] == news[..i] && answers[..i + 1][..i] == answers[..i];
    CompletedStops(news, answers, i + 1);
  }

  /** Lines 173-179, with the call of `generate_desc_and_category` written out. */
  method EnrichAll(news: seq<Badge>, existing: seq<Badge>, ask: (string, seq<Badge>) -> Option<string>,
                   decode: string -> Option<Reply>) returns (completed: Option<seq<Badge>>)
    ensures completed == Enriched(news, existing, ask, decode)
  {
    ghost var answers := Answers(news, existing, ask, decode);
    var done: seq<Badge> := [];
    for i := 0 to |news|
      invariant Completed(news[..i], answers[..i]) == Some(done)
    {
      var badge := news[i];
      var answer := GenerateDescAndCategory(badge, existing, ask, decode);
      assert answer == answers[i];
      if answer.None? {
        CompletedRaises(news, answers, i);
        return None;
      }
      CompletedNext(news, answers, i, done);
      done := done + [Enrich(badge, answer.value)];
    }
    assert news[..|news|] == news && answers[..|news|] == answers;
    return Some(done);
  }

  /**
   * `generate_desc_and_category` (lines 100-142) for one record: the exemplar
   * loop, the service call, the fence clean-up and the decoding.
   */
  method GenerateDescAndCategory(badge: Badge, existing: seq<Badge>, ask: (string, seq<Badge>) -> Option<string>,
                                 decode: string -> Option<Reply>) returns (answer: Option<Reply>)
    ensures answer == Answer(badge, existing, ask, decode)
  {
    var examples := SelectExemplars(existing);
    if examples.None? {
      return None;
    }
    var text := ask(badge.titulo, examples.value);
    if text.None? {
      return None;
    }
    answer := decode(StripFences(text.value));
  }
}
