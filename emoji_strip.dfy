/** Removing emoji from a basename. The emoji grammar itself (the
    `emoji-regex` package) is not part of this model: a `Matcher` stands
    for `s.matchAll(emojiRegex())`, the list of matches in the order the
    regular expression reports them, each with its start position and its
    matched text (`match.index` and `match[0]`). */
module EmojiStrip {
  import opened StringOps

  /** One match of the emoji expression: where it starts and what it matched. */
  datatype EmojiMatch = EmojiMatch(index: nat, text: string)

  /** The emoji matcher, applied to a basename. */
  type Matcher = string -> seq<EmojiMatch>

  /** What a global regular expression search reports: each match is an
      occurrence of its text in `s` at its index, the matches come in
      increasing position order, do not overlap, and start at or after
      `from`. */
  predicate MatchesIn(s: string, ms: seq<EmojiMatch>, from: nat)
    decreases |ms|
  {
    || ms == []
    || (&& from <= ms[0].index
        && OccursAt(s, ms[0].text, ms[0].index)
        && MatchesIn(s, ms[1..], ms[0].index + |ms[0].text|))
  }

  /** The total length of the matched texts. */
  function MatchedLength(ms: seq<EmojiMatch>): nat
    decreases |ms|
  {
    if ms == [] then 0 else |ms[0].text| + MatchedLength(ms[1..])
  }

  /** The stripping loop: starting from `s`, each match in turn removes the
      first occurrence of its text from the current string. The result is
      never longer than `s`. */
  function StripMatches(s: string, ms: seq<EmojiMatch>): (r: string)
    ensures |r| <= |s|
    decreases |ms|
  {
    if ms == [] then s else StripMatches(RemoveFirst(s, ms[0].text), ms[1..])
  }

  /** Stripping only deletes characters: the result is a subsequence of
      the original, so what remains keeps its relative order. */
  lemma {:induction false} StripIsSubsequence(s: string, ms: seq<EmojiMatch>)
    ensures IsSubsequence(StripMatches(s, ms), s)
    decreases |ms|
  {
    if ms == [] {
      SubsequenceReflexive(s);
    } else {
      var next := RemoveFirst(s, ms[0].text);
      StripIsSubsequence(next, ms[1..]);
      RemoveFirstIsSubsequence(s, ms[0].text);
      SubsequenceTransitive(StripMatches(next, ms[1..]), next, s);
    }
  }

  /** The same matches with every position moved `k` characters left. */
  function ShiftLeft(ms: seq<EmojiMatch>, k: nat): (r: seq<EmojiMatch>)
    ensures |r| == |ms|
    decreases |ms|
  {
    if ms == [] then []
    else [EmojiMatch(if ms[0].index >= k then ms[0].index - k else 0, ms[0].text)] + ShiftLeft(ms[1..], k)
  }

  /** Stripping reads only the matched texts, not their positions. */
  lemma {:induction false} StripIgnoresPositions(s: string, ms: seq<EmojiMatch>, k: nat)
    ensures StripMatches(s, ShiftLeft(ms, k)) == StripMatches(s, ms)
    ensures MatchedLength(ShiftLeft(ms, k)) == MatchedLength(ms)
    decreases |ms|
  {
    if ms != [] {
      StripIgnoresPositions(RemoveFirst(s, ms[0].text), ms[1..], k);
      assert ShiftLeft(ms, k)[1..] == ShiftLeft(ms[1..], k);
    }
  }

  /** Deleting a block that ends at or before `from` keeps the later
      matches in place, moved left by the block's length. */
  lemma {:induction false} DeleteBeforeMatches(s: string, ms: seq<EmojiMatch>, from: nat, q: nat, k: nat)
    requires MatchesIn(s, ms, from)
    requires q + k <= from && q + k <= |s|
    ensures MatchesIn(s[..q] + s[q + k..], ShiftLeft(ms, k), from - k)
    decreases |ms|
  {
    if ms != [] {
      var s' := s[..q] + s[q + k..];
      var p, t := ms[0].index, ms[0].text;
      forall j | p - k <= j < p - k + |t|
        ensures s'[j] == s[j + k]
      {
      }
      assert s'[p - k..p - k + |t|] == s[p..p + |t|];
      DeleteBeforeMatches(s, ms[1..], p + |t|, q, k);
      assert ShiftLeft(ms, k)[1..] == ShiftLeft(ms[1..], k);
    }
  }

  /** With well-formed matches every step of the loop deletes exactly one
      occurrence of its match: the result is shorter than the original by
      exactly the total matched length. */
  lemma {:induction false} StripLength(s: string, ms: seq<EmojiMatch>, from: nat)
    requires MatchesIn(s, ms, from)
    ensures |StripMatches(s, ms)| == |s| - MatchedLength(ms)
    decreases |ms|
  {
    if ms != [] {
      var p, t := ms[0].index, ms[0].text;
      var q := IndexOf(s, t).value;
      var next := RemoveFirst(s, t);
      assert next == s[..q] + s[q + |t|..];
      DeleteBeforeMatches(s, ms[1..], p + |t|, q, |t|);
      StripLength(next, ShiftLeft(ms[1..], |t|), p);
      StripIgnoresPositions(next, ms[1..], |t|);
    }
  }

  /** With well-formed matches, stripping leaves nothing exactly when the
      matches cover the whole string. */
  lemma StripEmptiesExactlyWhenCovered(s: string, ms: seq<EmojiMatch>)
    requires MatchesIn(s, ms, 0)
    ensures StripMatches(s, ms) == [] <==> MatchedLength(ms) == |s|
  {
    StripLength(s, ms, 0);
  }
}
