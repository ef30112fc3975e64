/**
 * The exemplar loop of `generate_desc_and_category`: walking the store in
 * order, it keeps a record when its category has not been seen yet and
 * fewer than six records have been kept. Every record's `categoria` key is
 * read, so a record without one raises `KeyError`, even after six are kept.
 */
module Exemplars {
  import opened Wrappers
  import opened Seqs
  import opened Badges

  /** How many exemplars the prompt shows at most. */
  const MaxExemplars := 6

  /** The categories the records carry. */
  function Categories(s: seq<Badge>): set<Option<string>>
  {
    set b | b in s :: b.categoria
  }

  lemma CategoriesAppend(s: seq<Badge>, b: Badge)
    ensures Categories(s + [b]) == Categories(s) + {b.categoria}
  {
    assert forall x :: x in s + [b] <==> x in s || x == b;
  }

  /** The loop's result after reading `s`, one record at a time. */
  function ExemplarsOf(s: seq<Badge>): (r: seq<Badge>)
    ensures |r| <= MaxExemplars
    ensures SubsequenceOf(r, s)
  {
    if s == [] then []
    else
      var p := s[..|s| - 1];
      var b := s[|s| - 1];
      var e := ExemplarsOf(p);
      var keep := b.categoria !in Categories(e) && |e| < MaxExemplars;
      SubsequenceStep(e, p, b, keep);
      assert p + [b] == s;
      if keep then e + [b] else e
  }

  /**
   * The reference the loop is measured against: the first record of each
   * category, in store order, with no cap.
   */
  function FirstOfEach(s: seq<Badge>): (r: seq<Badge>)
    ensures SubsequenceOf(r, s)
  {
    if s == [] then []
    else
      var p := s[..|s| - 1];
      var b := s[|s| - 1];
      var f := FirstOfEach(p);
      var keep := b.categoria !in Categories(p);
      SubsequenceStep(f, p, b, keep);
      assert p + [b] == s;
      if keep then f + [b] else f
  }

  /** Where the first record of category `c` sits. */
  function FirstWith(s: seq<Badge>, c: Option<string>): (k: nat)
    requires c in Categories(s)
    ensures k < |s| && s[k].categoria == c
    ensures forall j :: 0 <= j < k ==> s[j].categoria != c
  {
    var p := s[..|s| - 1];
    if c in Categories(p) then
      FirstWith(p, c)
    else
      assert forall j :: 0 <= j < |p| ==> s[j] == p[j] && p[j] in p;
      |s| - 1
  }

  /** The first records of each category cover every category. */
  lemma {:induction false} FirstOfEachCategories(s: seq<Badge>)
    ensures Categories(FirstOfEach(s)) == Categories(s)
  {
    if s != [] {
      var p := s[..|s| - 1];
      FirstOfEachCategories(p);
      assert s == p + [s[|s| - 1]];
      CategoriesAppend(p, s[|s| - 1]);
      CategoriesAppend(FirstOfEach(p), s[|s| - 1]);
    }
  }

  /** No two first records share a category. */
  lemma {:induction false} FirstOfEachDistinct(s: seq<Badge>)
    ensures var f := FirstOfEach(s);
      forall i, j :: 0 <= i < j < |f| ==> f[i].categoria != f[j].categoria
  {
    if s != [] {
      var p := s[..|s| - 1];
      FirstOfEachDistinct(p);
      FirstOfEachCategories(p);
      var f := FirstOfEach(p);
      assert forall i :: 0 <= i < |f| ==> f[i] in f;
    }
  }

  /** Each first record is the first record of its category in `s`. */
  lemma {:induction false} FirstOfEachFirst(s: seq<Badge>)
    ensures var f := FirstOfEach(s);
      forall i :: 0 <= i < |f| ==> f[i].categoria in Categories(s) && s[FirstWith(s, f[i].categoria)] == f[i]
  {
    if s != [] {
      var p := s[..|s| - 1];
      var b := s[|s| - 1];
      FirstOfEachFirst(p);
      FirstOfEachCategories(p);
      SplitLast(s);
      CategoriesAppend(p, b);
      var f := FirstOfEach(p);
      var g := FirstOfEach(s);
      forall i | 0 <= i < |g|
        ensures g[i].categoria in Categories(s) && s[FirstWith(s, g[i].categoria)] == g[i]
      {
        if i < |f| {
          FirstStaysFirst(s, f, g, i);
        } else {
          assert g[i] == b && b.categoria !in Categories(p);
        }
      }
    }
  }

  lemma FirstStaysFirst(s: seq<Badge>, f: seq<Badge>, g: seq<Badge>, i: int)
    requires s != [] && f == FirstOfEach(s[..|s| - 1]) && g == FirstOfEach(s)
    requires 0 <= i < |f|
    requires f[i].categoria in Categories(s[..|s| - 1]) && s[..|s| - 1][FirstWith(s[..|s| - 1], f[i].categoria)] == f[i]
    ensures i < |g| && g[i] == f[i] && s[FirstWith(s, g[i].categoria)] == g[i]
  {
    var p := s[..|s| - 1];
    var k := FirstWith(p, f[i].categoria);
    assert s[k] == p[k];
  }

  /** The first `MaxExemplars` elements of `x`, or all of them. */
  function Cap(x: seq<Badge>): seq<Badge>
  {
    if |x| <= MaxExemplars then x else x[..MaxExemplars]
  }

  /** The loop keeps the first record of each category, up to six of them. */
  lemma {:induction false} ExemplarsAreFirstOfEach(s: seq<Badge>)
    ensures ExemplarsOf(s) == Cap(FirstOfEach(s))
  {
    if s != [] {
      var p := s[..|s| - 1];
      var b := s[|s| - 1];
      ExemplarsAreFirstOfEach(p);
      var f := FirstOfEach(p);
      if |f| < MaxExemplars {
        FirstOfEachCategories(p);
      } else {
        var g := FirstOfEach(s);
        assert g == f || g == f + [b];
        assert g[..MaxExemplars] == f[..MaxExemplars];
      }
    }
  }

  /**
   * What the loop yields: at most six records with pairwise different
   * categories, in store order, each the first of its category, and every
   * category of the store when fewer than six were kept.
   */
  lemma ExemplarsProperties(s: seq<Badge>)
    ensures var e := ExemplarsOf(s);
      |e| <= MaxExemplars && SubsequenceOf(e, s)
      && (forall i, j :: 0 <= i < j < |e| ==> e[i].categoria != e[j].categoria)
      && (forall i :: 0 <= i < |e| ==> e[i].categoria in Categories(s) && s[FirstWith(s, e[i].categoria)] == e[i])
      && (|e| < MaxExemplars ==> Categories(e) == Categories(s))
  {
    ExemplarsAreFirstOfEach(s);
    FirstOfEachDistinct(s);
    FirstOfEachFirst(s);
    FirstOfEachCategories(s);
  }

  /**
   * The loop itself, with its seen-set. `None` stands for the `KeyError`
   * raised by a record without a `categoria` key.
   */
  method SelectExemplars(existing: seq<Badge>) returns (r: Option<seq<Badge>>)
    ensures r.None? <==> exists k :: 0 <= k < |existing| && existing[k].categoria.None?
    ensures r.Some? ==> r.value == ExemplarsOf(existing)
  {
    var seenCats: set<string> := {};
    var examples: seq<Badge> := [];
    for i := 0 to |existing|
      invariant examples == ExemplarsOf(existing[..i])
      invariant forall k :: 0 <= k < i ==> existing[k].categoria.Some?
      invariant forall c :: c in seenCats <==> Some(c) in Categories(examples)
      invariant None !in Categories(examples)
    {
      var b := existing[i];
      assert existing[..i + 1] == existing[..i] + [b];
      if b.categoria.None? {
        return None;
      }
      var cat := b.categoria.value;
      CategoriesAppend(examples, b);
      if cat !in seenCats && |examples| < MaxExemplars {
        seenCats := seenCats + {cat};
        examples := examples + [b];
      }
    }
    assert existing[..|existing|] == existing;
    return Some(examples);
  }
}
