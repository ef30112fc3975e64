/**
 * The commit message `main` writes to the GitHub output file (lines 190-199):
 * the singular form names the one badge added, the plural form gives the
 * count and the titles joined by ", ".
 */
module Summary {
  import opened Text
  import opened Badges

  const Singular: string := "a\U{F1}adido nuevo badge "
  const PluralHead: string := "a\U{F1}adidos "
  const PluralMiddle: string := " nuevos badges: "

  /** The titles of the records, in their order (the generator at line 190). */
  function Titles(s: seq<Badge>): (t: seq<string>)
    ensures |t| == |s| && forall i :: 0 <= i < |s| ==> t[i] == s[i].titulo
  {
    if s == [] then [] else Titles(s[..|s| - 1]) + [s[|s| - 1].titulo]
  }

  /** The text after `commit_msg=`. */
  function CommitMessage(titles: seq<string>): string
  {
    if |titles| == 1 then Singular + titles[0]
    else PluralHead + NatToString(|titles|) + PluralMiddle + Join(", ", titles)
  }

  /** The message takes the singular form exactly when one badge was added. */
  lemma CommitMessageForm(titles: seq<string>)
    ensures var m := CommitMessage(titles);
      (|m| >= |Singular| && m[..|Singular|] == Singular) <==> |titles| == 1
    ensures |titles| == 1 ==> CommitMessage(titles) == Singular + titles[0]
  {
    var m := CommitMessage(titles);
    if |titles| != 1 {
      var tail := NatToString(|titles|) + PluralMiddle + Join(", ", titles);
      assert m == PluralHead + tail;
      assert m[7] == 's' && Singular[7] == ' ';
    }
  }

  /**
   * In the plural form the message holds the count in decimal, read back as
   * the number of titles, and then every title joined by ", ".
   */
  lemma CommitMessageCount(titles: seq<string>)
    requires |titles| != 1
    ensures exists digits :: AllDigits(digits) && DecimalValue(digits) == |titles| &&
              CommitMessage(titles) == PluralHead + digits + PluralMiddle + Join(", ", titles)
  {
    var digits := NatToString(|titles|);
    DecimalRoundTrip(|titles|);
    assert CommitMessage(titles) == PluralHead + digits + PluralMiddle + Join(", ", titles);
  }
}
