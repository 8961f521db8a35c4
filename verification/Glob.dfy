/** linux/glob.c on patterns without sets and escapes, where it decides the same language as the
    wildcard matcher. */
module Glob {
  import opened Wildcard

  /** No `[` and no backslash. */
  predicate Plain(p: Text) {
    forall i :: 0 <= i < |p| ==> p[i] != OPEN && p[i] != BACKSLASH
  }

  /** `glob_match` at a pair of pointers. */
  method GlobMatch(pattern: Text, text: Text, p0: nat, t0: nat) returns (r: bool)
    requires IsCString(pattern) && IsCString(text) && Plain(pattern) && p0 <= |pattern| && t0 <= |text|
    ensures r <==> Fits(pattern, text, p0, t0)
    decreases |pattern| - p0, 0
  {
    var p: nat, t: nat := p0, t0;
    while At(pattern, p) != 0
      invariant p0 <= p <= |pattern| && t <= |text|
      invariant Fits(pattern, text, p, t) <==> Fits(pattern, text, p0, t0)
      decreases |pattern| - p
    {
      FitsStep(pattern, text, p, t);
      var c := pattern[p];
      p := p + 1;
      if c == ANY {
        if At(text, t) == 0 {
          return false;
        }
        t := t + 1;
      } else if c == STAR {
        r := GlobMatchAfterStar(pattern, text, p, t);
        return;
      } else {
        if c != At(text, t) {
          return false;
        }
        t := t + 1;
      }
    }
    FitsEnd(pattern, text, t);
    return At(text, t) == 0;
  }

  /** `glob_match_after_star`: the rest of the pattern against any final segment of the text. */
  method GlobMatchAfterStar(pattern: Text, text: Text, p0: nat, t0: nat) returns (r: bool)
    requires IsCString(pattern) && IsCString(text) && Plain(pattern) && 0 < p0 <= |pattern| && t0 <= |text|
    ensures r <==> StarFits(pattern, text, p0, t0)
    decreases |pattern| - p0, 2
  {
    var p: nat, t: nat := p0, t0;
    while At(pattern, p) == ANY || At(pattern, p) == STAR
      invariant p0 <= p <= |pattern| && t <= |text|
      invariant StarFits(pattern, text, p, t) <==> StarFits(pattern, text, p0, t0)
      decreases |pattern| - p
    {
      StarFitsStep(pattern, text, p, t);
      if At(pattern, p) == ANY {
        if At(text, t) == 0 {
          return false;
        }
        t := t + 1;
      }
      p := p + 1;
    }
    FitsEnd(pattern, text, t);
    if At(pattern, p) == 0 {
      return true;
    }
    r := GlobSearch(pattern, text, p, t);
  }

  /** The final loop of `glob_match_after_star`. */
  method GlobSearch(pattern: Text, text: Text, p: nat, t0: nat) returns (r: bool)
    requires IsCString(pattern) && IsCString(text) && Plain(pattern) && 0 < p < |pattern| && t0 <= |text|
    requires pattern[p] != ANY && pattern[p] != STAR
    ensures r <==> StarFits(pattern, text, p, t0)
    decreases |pattern| - p, 1
  {
    StarFitsSome(pattern, text, p, t0);
    var t: nat := t0;
    while true
      invariant t0 <= t <= |text| && forall k :: t0 <= k < t ==> !Fits(pattern, text, p, k)
      decreases |text| - t
    {
      FitsStep(pattern, text, p, t);
      if At(text, t) == pattern[p] {
        var fits := GlobMatch(pattern, text, p, t);
        if fits {
          return true;
        }
      }
      if At(text, t) == 0 {
        return false;
      }
      t := t + 1;
    }
  }

  /** Both matchers on whole strings, for a plain pattern: they agree with each other and with the
      language. */
  method Agree(pattern: Text, text: Text) returns (byWildcard: bool, byGlob: bool)
    requires IsCString(pattern) && IsCString(text) && Plain(pattern)
    ensures byWildcard == byGlob && (byGlob <==> Matches(pattern, text))
  {
    byWildcard := MatchWildcard(pattern, text);
    byGlob := GlobMatch(pattern, text, 0, 0);
    assert pattern[0..] == pattern && text[0..] == text;
  }

  /** What the language of a plain pattern without stars is: texts of the same length that agree at
      every character that is not a question mark. */
  lemma {:induction false} StarFree(w: Text, t: Text)
    requires Plain(w) && STAR !in w
    ensures Matches(w, t) <==> |w| == |t| && forall i :: 0 <= i < |w| ==> w[i] == ANY || w[i] == t[i]
  {
    if w != [] && t != [] {
      StarFree(w[1..], t[1..]);
      assert forall i :: 0 < i < |w| && |w| == |t| ==> w[i] == w[1..][i - 1] && t[i] == t[1..][i - 1];
    }
  }
}
