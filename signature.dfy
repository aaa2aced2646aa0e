/**
 * Pattern tokens and the match relation between a pattern and a memory image.
 *
 * A token is the widened integer the scanner compares against each byte: an
 * exact byte value 0..255, or the wildcard sentinel 256, which compares equal
 * to every byte. Tokens above 256 can be produced by the text parser (a long
 * hex run) and then match no byte at all.
 */
module Signature {
  import opened Wrappers

  /** The scanner's token type, a 16-bit unsigned integer. */
  type Token = t: int | 0 <= t < 0x1_0000

  /** The wildcard sentinel: one past the largest byte value. */
  const Wildcard: Token := 256

  /** The scanner's per-position test: the byte equals the token, or the token is the wildcard. */
  predicate TokenMatches(t: Token, b: bv8)
  {
    t == Wildcard || t == b as int
  }

  /** The pattern lies inside `mem` when started at `k`, and every token matches the byte under it. */
  predicate MatchesAt(mem: seq<bv8>, pattern: seq<Token>, k: nat)
  {
    k + |pattern| <= |mem| &&
    forall i :: 0 <= i < |pattern| ==> TokenMatches(pattern[i], mem[k + i])
  }

  /** The leftmost start position at or after `from` where the pattern matches, if any. */
  function FirstMatchFrom(mem: seq<bv8>, pattern: seq<Token>, from: nat): (r: Option<nat>)
    ensures r.Some? ==> from <= r.value && MatchesAt(mem, pattern, r.value)
    ensures r.Some? ==> r.value + |pattern| <= |mem|
    ensures r.Some? ==> forall j :: from <= j < r.value ==> !MatchesAt(mem, pattern, j)
    ensures r.None? ==> forall j :: from <= j ==> !MatchesAt(mem, pattern, j)
    decreases |mem| - from
  {
    if from + |pattern| > |mem| then None
    else if MatchesAt(mem, pattern, from) then Some(from)
    else FirstMatchFrom(mem, pattern, from + 1)
  }

  /** The leftmost start position in the whole image where the pattern matches, if any. */
  function FirstMatch(mem: seq<bv8>, pattern: seq<Token>): Option<nat>
  {
    FirstMatchFrom(mem, pattern, 0)
  }

  /** The result is determined by the match predicate alone: a match at `k` with none before it is the answer. */
  lemma FirstMatchIsLeftmost(mem: seq<bv8>, pattern: seq<Token>, k: nat)
    requires MatchesAt(mem, pattern, k)
    requires forall j :: 0 <= j < k ==> !MatchesAt(mem, pattern, j)
    ensures FirstMatch(mem, pattern) == Some(k)
  {
  }

  /** Not found exactly when no start position in `0..|mem| - |pattern|` matches. */
  lemma NotFoundIffNoMatch(mem: seq<bv8>, pattern: seq<Token>)
    ensures FirstMatch(mem, pattern).None? <==>
            forall k :: 0 <= k && k + |pattern| <= |mem| ==> !MatchesAt(mem, pattern, k)
  {
  }

  /** A pattern longer than the image is never found. */
  lemma TooLongNotFound(mem: seq<bv8>, pattern: seq<Token>)
    requires |pattern| > |mem|
    ensures FirstMatch(mem, pattern) == None
  {
  }

  /** The empty pattern is found at offset 0, even in an empty image. */
  lemma EmptyPatternAtZero(mem: seq<bv8>)
    ensures FirstMatch(mem, []) == Some(0)
  {
  }

  /**
   * A wildcard matches any byte: rewriting the byte that lies under a wildcard
   * token does not change whether the pattern matches at that start.
   */
  lemma WildcardIgnoresByte(mem: seq<bv8>, pattern: seq<Token>, k: nat, i: nat, b: bv8)
    requires i < |pattern| && k + i < |mem|
    requires pattern[i] == Wildcard
    ensures MatchesAt(mem[k + i := b], pattern, k) <==> MatchesAt(mem, pattern, k)
  {
  }

  /** `general` is `pattern` with some of its tokens replaced by the wildcard. */
  predicate Generalizes(general: seq<Token>, pattern: seq<Token>)
  {
    |general| == |pattern| &&
    forall i :: 0 <= i < |pattern| ==> general[i] == pattern[i] || general[i] == Wildcard
  }

  /** Wildcarding more positions can only move the first match to the left, never lose it. */
  lemma GeneralizedFoundNoLater(mem: seq<bv8>, pattern: seq<Token>, general: seq<Token>)
    requires Generalizes(general, pattern)
    requires FirstMatch(mem, pattern).Some?
    ensures FirstMatch(mem, general).Some?
    ensures FirstMatch(mem, general).value <= FirstMatch(mem, pattern).value
  {
    var k := FirstMatch(mem, pattern).value;
    assert MatchesAt(mem, pattern, k);
    assert MatchesAt(mem, general, k) by {
      forall i | 0 <= i < |general| ensures TokenMatches(general[i], mem[k + i]) {
        assert TokenMatches(pattern[i], mem[k + i]);
      }
    }
  }
}
