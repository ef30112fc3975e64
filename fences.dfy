/**
 * The clean-up of the service's reply in `generate_desc_and_category`:
 * `strip()`, then `re.sub(r"^```(?:json)?\s*", "", ...)`, then
 * `re.sub(r"\s*```$", "", ...)`, so that a reply wrapped in a Markdown code
 * fence is handed to the JSON decoder without it.
 */
module Fences {
  import opened Text

  const Fence: string := "```"

  predicate StartsWith(s: string, t: string)
  {
    |t| <= |s| && s[..|t|] == t
  }

  /**
   * `re.sub(r"^```(?:json)?\s*", "", s)`: `^` anchors the only possible
   * match at the start; the optional `json` is taken whenever it is there.
   */
  function DropLeadingFence(s: string): string
  {
    if !StartsWith(s, Fence) then s
    else
      var rest := s[3..];
      var afterTag := if StartsWith(rest, "json") then rest[4..] else rest;
      SkipSpace(afterTag)
  }

  /**
   * `re.sub(r"\s*```$", "", s)`: the fence must end where `$` matches (the
   * end, or before a final line feed, which stays); the leftmost match takes
   * the whole whitespace run before the fence. No second match fits after it.
   */
  function DropTrailingFence(s: string): string
  {
    var e := MatchEnd(s);
    if e >= 3 && s[e - 3..e] == Fence then TrimEnd(s[..e - 3]) + s[e..] else s
  }

  /**
   * The leading substitution only ever removes a prefix, and it changes the
   * text exactly when the text starts with a fence.
   */
  lemma DropLeadingFenceSpec(s: string)
    ensures var r := DropLeadingFence(s);
      |r| <= |s| && r == s[|s| - |r|..] && (r == s <==> !StartsWith(s, Fence))
  {
  }

  /**
   * The trailing substitution never lengthens the text, and it changes the
   * text exactly when a fence ends where `$` matches.
   */
  lemma DropTrailingFenceSpec(s: string)
    ensures var r := DropTrailingFence(s); var e := MatchEnd(s);
      |r| <= |s| && (r == s <==> !(e >= 3 && s[e - 3..e] == Fence))
  {
  }

  /** Lines 137-140: what reaches `json.loads`. */
  function StripFences(reply: string): string
  {
    DropTrailingFence(DropLeadingFence(Strip(reply)))
  }

  /** A reply without fences is only trimmed. */
  lemma StripFencesPlain(reply: string)
    requires !StartsWith(Strip(reply), Fence)
    requires var t := Strip(reply); !(|t| >= 3 && t[|t| - 3..] == Fence)
    ensures StripFences(reply) == Strip(reply)
  {
    var t := Strip(reply);
    assert t != [] ==> !IsSpace(t[|t| - 1]);
    assert IsSpace('\n');
  }

  /** A bare opening fence and the whitespace after it go. */
  lemma DropBareFence(w1: string, tail: string)
    requires AllSpace(w1) && tail != [] && !IsSpace(tail[0])
    requires w1 == [] ==> !StartsWith(tail, "json")
    ensures DropLeadingFence(Fence + (w1 + tail)) == tail
  {
    var rest := w1 + tail;
    var s := Fence + rest;
    ConcatParts(Fence, rest);
    assert StartsWith(s, Fence) && s[3..] == rest;
    assert !StartsWith(rest, "json") by {
      if w1 != [] {
        assert rest[0] == w1[0] && IsSpace(w1[0]);
        assert !IsSpace('j');
      } else {
        assert rest == tail;
      }
    }
    SkipSpaceOver(w1, tail);
    assert DropLeadingFence(s) == SkipSpace(rest);
  }

  /** An opening fence tagged `json` and the whitespace after it go. */
  lemma DropJsonFence(w1: string, tail: string)
    requires AllSpace(w1) && tail != [] && !IsSpace(tail[0])
    ensures DropLeadingFence(Fence + ("json" + (w1 + tail))) == tail
  {
    var rest := "json" + (w1 + tail);
    ConcatParts(Fence, rest);
    ConcatParts("json", w1 + tail);
    SkipSpaceOver(w1, tail);
  }

  /** The closing fence and the whitespace before it go. */
  lemma DropTrailingOver(body: string, w2: string)
    requires AllSpace(w2) && body != [] && !IsSpace(body[|body| - 1])
    ensures DropTrailingFence(body + (w2 + Fence)) == body
  {
    var s := body + (w2 + Fence);
    assert s == (body + w2) + Fence;
    ConcatParts(body + w2, Fence);
    assert s[|s| - 1] == '`';
    TrimEndOver(body, w2);
    assert s[|s|..] == [];
  }

  lemma CharAfter(a: string, b: string)
    ensures b != [] ==> (a + b)[|a|] == b[0]
  {
  }

  /** A closing part cannot supply the letters "json" that the body lacks. */
  lemma JsonFromBody(body: string, w2: string)
    requires AllSpace(w2)
    requires StartsWith(body + (w2 + Fence), "json")
    ensures StartsWith(body, "json")
  {
    var t := body + (w2 + Fence);
    if |body| < 4 {
      CharAfter(body, w2 + Fence);
      assert false;
    }
    assert body[..4] == t[..4];
  }

  /**
   * A reply made of whitespace, an opening fence (with or without the `json`
   * tag), whitespace, a body with visible ends, whitespace, a closing fence and
   * whitespace yields the body. Without whitespace after a bare fence, a body
   * beginning with "json" would lose those letters, so that case is excluded.
   */
  lemma FencedRoundTrip(w0: string, open: string, w1: string, body: string, w2: string, w3: string)
    requires open == Fence || open == Fence + "json"
    requires AllSpace(w0) && AllSpace(w1) && AllSpace(w2) && AllSpace(w3)
    requires body != [] && !IsSpace(body[0]) && !IsSpace(body[|body| - 1])
    requires open == Fence && w1 == [] ==> !StartsWith(body, "json")
    ensures StripFences(w0 + (open + (w1 + (body + (w2 + Fence)))) + w3) == body
  {
    var tail := body + (w2 + Fence);
    var inner := open + (w1 + tail);
    assert inner[0] == '`' && inner[|inner| - 1] == '`';
    StripUnique(w0, inner, w3);
    OpeningGoes(open, w1, body, w2);
    DropTrailingOver(body, w2);
  }

  /** The opening fence and the whitespace after it go, whichever its form. */
  lemma OpeningGoes(open: string, w1: string, body: string, w2: string)
    requires open == Fence || open == Fence + "json"
    requires AllSpace(w1) && AllSpace(w2)
    requires body != [] && !IsSpace(body[0])
    requires open == Fence && w1 == [] ==> !StartsWith(body, "json")
    ensures DropLeadingFence(open + (w1 + (body + (w2 + Fence)))) == body + (w2 + Fence)
  {
    var tail := body + (w2 + Fence);
    if open == Fence {
      if StartsWith(tail, "json") {
        JsonFromBody(body, w2);
      }
      DropBareFence(w1, tail);
    } else {
      assert open + (w1 + tail) == Fence + ("json" + (w1 + tail));
      DropJsonFence(w1, tail);
    }
  }
}
