/**
 * Order-preserving selection from a sequence, used to state what the
 * filters and the exemplar loop keep.
 */
module Seqs {
  /** `r` is `s` with some elements left out and the rest in their order. */
  predicate SubsequenceOf<T(==)>(r: seq<T>, s: seq<T>)
    decreases |s|
  {
    if r == [] then true
    else if s == [] then false
    else if r[|r| - 1] == s[|s| - 1] then SubsequenceOf(r[..|r| - 1], s[..|s| - 1])
    else SubsequenceOf(r, s[..|s| - 1])
  }

  lemma {:induction false} SubsequenceMembers<T>(r: seq<T>, s: seq<T>)
    requires SubsequenceOf(r, s)
    ensures |r| <= |s|
    ensures forall x :: x in r ==> x in s
    decreases |s|
  {
    if r != [] {
      if r[|r| - 1] == s[|s| - 1] {
        SubsequenceMembers(r[..|r| - 1], s[..|s| - 1]);
        assert r == r[..|r| - 1] + [r[|r| - 1]];
        assert s == s[..|s| - 1] + [s[|s| - 1]];
      } else {
        SubsequenceMembers(r, s[..|s| - 1]);
        assert s == s[..|s| - 1] + [s[|s| - 1]];
      }
    }
  }

  /** Appending an element to the larger sequence keeps a subsequence one. */
  lemma {:induction false} SubsequenceAppend<T>(r: seq<T>, s: seq<T>, x: T)
    requires SubsequenceOf(r, s)
    ensures SubsequenceOf(r, s + [x])
    decreases |s|, 1
  {
    var s' := s + [x];
    assert s'[..|s'| - 1] == s;
    if r != [] && r[|r| - 1] == x {
      SubsequenceWeaken(r, s);
    }
  }

  /** Leaving out the last element of a subsequence keeps it a subsequence. */
  lemma {:induction false} SubsequenceWeaken<T>(r: seq<T>, s: seq<T>)
    requires r != [] && SubsequenceOf(r, s)
    ensures SubsequenceOf(r[..|r| - 1], s)
    decreases |s|, 0
  {
    var p := r[..|r| - 1];
    var q := s[..|s| - 1];
    assert s == q + [s[|s| - 1]];
    if r[|r| - 1] == s[|s| - 1] {
      SubsequenceAppend(p, q, s[|s| - 1]);
    } else {
      SubsequenceWeaken(r, q);
      SubsequenceAppend(p, q, s[|s| - 1]);
    }
  }

  /** One step of a loop that keeps or skips each element of `s` in turn. */
  lemma SubsequenceStep<T>(r: seq<T>, s: seq<T>, x: T, keep: bool)
    requires SubsequenceOf(r, s)
    ensures SubsequenceOf(if keep then r + [x] else r, s + [x])
  {
    var s' := s + [x];
    assert s'[..|s'| - 1] == s;
    if keep {
      var r' := r + [x];
      assert r'[..|r'| - 1] == r;
    } else {
      SubsequenceAppend(r, s, x);
    }
  }

  /** A sequence is what comes before position `i`, the element there, and what follows. */
  lemma SplitAround<T>(s: seq<T>, i: int)
    requires 0 <= i < |s|
    ensures s == s[..i] + ([s[i]] + s[i + 1..])
  {
  }

  /** A non-empty sequence is its prefix followed by its last element. */
  lemma SplitLast<T>(s: seq<T>)
    requires s != []
    ensures s == s[..|s| - 1] + [s[|s| - 1]]
  {
  }

  /** The parts of a concatenation, read back by slicing at the seam. */
  lemma PartsOf<T>(p: seq<T>, q: seq<T>)
    requires q != []
    ensures (p + q)[..|p|] == p && (p + q)[|p|] == q[0] && (p + q)[|p| + 1..] == q[1..]
  {
  }
}
