/**
 * The badge record kept in `data/badges.json`, and the part of
 * `fetch_profile_badges` that turns the cards found on the profile page into
 * records: a card missing any of its four elements is skipped, and so is one
 * whose date line `parse_date` rejects.
 */
module Badges {
  import opened Wrappers
  import opened Text
  import opened Dates
  import opened DateParser
  import opened Seqs

  /**
   * One badge: title, image URL, ISO date, badge URL, and the description and
   * category the service adds (`None` while the key is absent).
   */
  datatype Badge = Badge(
    titulo: string,
    img: string,
    fecha: string,
    url: string,
    desc: Option<string>,
    categoria: Option<string>)

  /**
   * What the scraper reads from one `div.profile-badge`: the link's `href`,
   * the image's `src`, and the stripped texts of the title and date spans;
   * `None` where the element is not there.
   */
  datatype Card = Card(
    link: Option<string>,
    image: Option<string>,
    title: Option<string>,
    dateText: Option<string>)

  /** The record one card yields, if any. */
  function CardBadge(c: Card): (r: Option<Badge>)
    ensures r.Some? <==> c.link.Some? && c.image.Some? && c.title.Some? && c.dateText.Some?
                         && ParseDate(c.dateText.value).Some?
  {
    if c.link.None? || c.image.None? || c.title.None? || c.dateText.None? then None
    else
      match ParseDate(c.dateText.value)
      case None => None
      case Some(fecha) => Some(Badge(c.title.value, c.image.value, fecha, c.link.value, None, None))
  }

  /**
   * A card's record keeps the card's title, image and link, carries the date
   * line's ISO reading, and has no description or category yet.
   */
  lemma CardBadgeFields(c: Card)
    requires CardBadge(c).Some?
    ensures var b := CardBadge(c).value;
      b.titulo == c.title.value && b.img == c.image.value && b.url == c.link.value
      && Some(b.fecha) == ParseDate(c.dateText.value)
      && IsoShape(b.fecha) && FormatIso(IsoDecode(b.fecha).value) == b.fecha
      && b.desc.None? && b.categoria.None?
  {
    IsoDecodeInverse(CardBadge(c).value.fecha);
  }

  /** The records the page's cards yield, in page order. */
  function Collected(cards: seq<Card>): seq<Badge>
  {
    if cards == [] then []
    else
      var before := Collected(cards[..|cards| - 1]);
      match CardBadge(cards[|cards| - 1])
      case None => before
      case Some(b) => before + [b]
  }

  /** The loop over the page's cards (lines 34-57 of the scraper). */
  method CollectBadges(cards: seq<Card>) returns (badges: seq<Badge>)
    ensures badges == Collected(cards)
  {
    badges := [];
    for i := 0 to |cards|
      invariant badges == Collected(cards[..i])
    {
      assert cards[..i + 1][..i] == cards[..i];
      var c := cards[i];
      if c.link.None? || c.image.None? || c.title.None? || c.dateText.None? {
        continue;
      }
      var fecha := ParseDate(c.dateText.value);
      if fecha.None? {
        continue;
      }
      badges := badges + [Badge(c.title.value, c.image.value, fecha.value, c.link.value, None, None)];
    }
    assert cards[..|cards|] == cards;
  }

  /** Cards are handled one at a time: the records of two runs of cards are the records of each. */
  lemma {:induction false} CollectedConcat(a: seq<Card>, b: seq<Card>)
    ensures Collected(a + b) == Collected(a) + Collected(b)
    decreases |b|
  {
    if b == [] {
      assert a + b == a;
    } else {
      var b' := b[..|b| - 1];
      assert (a + b)[..|a + b| - 1] == a + b';
      assert (a + b)[|a + b| - 1] == b[|b| - 1];
      CollectedConcat(a, b');
    }
  }

  /** Every collected record is the record of one of the cards. */
  lemma {:induction false} CollectedFromCards(cards: seq<Card>)
    ensures |Collected(cards)| <= |cards|
    ensures forall b :: b in Collected(cards) ==> exists c :: c in cards && CardBadge(c) == Some(b)
  {
    if cards != [] {
      var p := cards[..|cards| - 1];
      CollectedFromCards(p);
      assert forall x :: x in p ==> x in cards;
    }
  }

  /** Every collected record has a real calendar date in ISO form and no description or category yet. */
  lemma CollectedWellFormed(cards: seq<Card>)
    ensures forall b :: b in Collected(cards) ==>
      IsoShape(b.fecha) && IsoDecode(b.fecha).Some? && FormatIso(IsoDecode(b.fecha).value) == b.fecha
      && b.desc.None? && b.categoria.None?
  {
    CollectedFromCards(cards);
    forall b | b in Collected(cards)
      ensures IsoShape(b.fecha) && IsoDecode(b.fecha).Some? && FormatIso(IsoDecode(b.fecha).value) == b.fecha
      ensures b.desc.None? && b.categoria.None?
    {
      var c :| c in cards && CardBadge(c) == Some(b);
      CardBadgeFields(c);
    }
  }

  lemma CollectedSingle(c: Card)
    ensures Collected([c]) == if CardBadge(c).Some? then [CardBadge(c).value] else []
  {
    assert [c][..0] == [];
  }

  /** A card with all four elements and a date line `parse_date` accepts always yields its record. */
  lemma CollectedKeeps(cards: seq<Card>, i: int)
    requires 0 <= i < |cards| && CardBadge(cards[i]).Some?
    ensures CardBadge(cards[i]).value in Collected(cards)
  {
    var c, before, after := cards[i], cards[..i], cards[i + 1..];
    var b := CardBadge(c).value;
    SplitAround(cards, i);
    CollectedConcat([c], after);
    CollectedConcat(before, [c] + after);
    CollectedSingle(c);
    var xs := Collected(before);
    assert Collected(cards) == xs + ([b] + Collected(after));
    assert Collected(cards)[|xs|] == b;
  }
}
