/**
 * The two string operations the stores use: Java's `String.contains` (a literal,
 * case-sensitive substring test) and the one regular expression `#(\w+|\W+)` that
 * `addWeet` searches a message for, with `\w` the ASCII word class `[A-Za-z0-9_]`.
 */
module Text {
  import opened Wrappers

  predicate IsWordChar(c: char)
  {
    ('A' <= c <= 'Z') || ('a' <= c <= 'z') || ('0' <= c <= '9') || c == '_'
  }

  /** `q` is a prefix of `s`. */
  predicate StartsWith(s: string, q: string)
  {
    |q| <= |s| && s[..|q|] == q
  }

  /** `s.contains(q)`, as a scan over the start positions of `s`. */
  predicate Contains(s: string, q: string)
    decreases |s|
  {
    StartsWith(s, q) || (s != [] && Contains(s[1..], q))
  }

  /** `q` occurs in `s` starting at position `i`. */
  predicate OccursAt(s: string, q: string, i: int)
  {
    0 <= i <= |s| - |q| && s[i..i + |q|] == q
  }

  /** `Contains` holds exactly when `q` occurs in `s` at some position. */
  lemma {:induction false} ContainsOccurs(s: string, q: string)
    ensures Contains(s, q) <==> exists i :: OccursAt(s, q, i)
  {
    if s == [] {
      if Contains(s, q) {
        assert OccursAt(s, q, 0);
      }
    } else {
      ContainsOccurs(s[1..], q);
      if Contains(s, q) {
        if StartsWith(s, q) {
          assert OccursAt(s, q, 0);
        } else {
          var i :| OccursAt(s[1..], q, i);
          assert s[1..][i..i + |q|] == s[i + 1..i + 1 + |q|];
          assert OccursAt(s, q, i + 1);
        }
      }
      if exists i :: OccursAt(s, q, i) {
        var i :| OccursAt(s, q, i);
        if i > 0 {
          assert s[1..][i - 1..i - 1 + |q|] == s[i..i + |q|];
          assert OccursAt(s[1..], q, i - 1);
        } else {
          assert StartsWith(s, q);
        }
      }
    }
  }

  /** The end of the maximal run, from `start`, of characters that are word characters
      exactly when `word` is: the greedy `\w+` or `\W+` of the pattern. */
  function RunEnd(s: string, start: nat, word: bool): (e: nat)
    requires start <= |s|
    ensures start <= e <= |s|
    ensures forall k :: start <= k < e ==> IsWordChar(s[k]) == word
    ensures e < |s| ==> IsWordChar(s[e]) != word
    decreases |s| - start
  {
    if start < |s| && IsWordChar(s[start]) == word then RunEnd(s, start + 1, word) else start
  }

  /** The pattern matches at `i`: a `#` with at least one character after it (either
      alternative of `(\w+|\W+)` then takes at least that character). */
  predicate MatchesAt(s: string, i: int)
  {
    0 <= i && i + 1 < |s| && s[i] == '#'
  }

  /** The matched text at such a position: `#` and the run of characters of the same
      class as the one after it. */
  function TokenAt(s: string, i: int): (t: string)
    requires MatchesAt(s, i)
    ensures |t| >= 2 && t[0] == '#'
    ensures forall k :: 1 <= k < |t| ==> IsWordChar(t[k]) == IsWordChar(s[i + 1])
  {
    s[i..RunEnd(s, i + 1, IsWordChar(s[i + 1]))]
  }

  /** `matcher.find()` from position `from`: the token at the first matching position
      not before `from`, if any. */
  function FindFrom(s: string, from: nat): Option<string>
    requires from <= |s|
    decreases |s| - from
  {
    if from == |s| then None
    else if MatchesAt(s, from) then Some(TokenAt(s, from))
    else FindFrom(s, from + 1)
  }

  /** No match at or after `from` gives `None`; otherwise the result is the token at
      the first matching position from `from` on. */
  lemma {:induction false} FindFromSpec(s: string, from: nat)
    requires from <= |s|
    ensures FindFrom(s, from).None? <==> forall i :: from <= i < |s| ==> !MatchesAt(s, i)
    ensures FindFrom(s, from).Some? ==> exists i :: from <= i < |s| && MatchesAt(s, i) && FindFrom(s, from).value == TokenAt(s, i) &&
                                                   forall k :: from <= k < i ==> !MatchesAt(s, k)
    decreases |s| - from
  {
    if from < |s| {
      if MatchesAt(s, from) {
        assert FindFrom(s, from).value == TokenAt(s, from);
      } else {
        FindFromSpec(s, from + 1);
        var r := FindFrom(s, from + 1);
        assert FindFrom(s, from) == r;
        if r.Some? {
          var i :| from + 1 <= i < |s| && MatchesAt(s, i) && r.value == TokenAt(s, i) &&
                   forall k :: from + 1 <= k < i ==> !MatchesAt(s, k);
          assert forall k :: from <= k < i ==> !MatchesAt(s, k);
        }
      }
    }
  }

  /** `match.find()` then `match.group()` on a whole message. */
  function FirstHashtag(s: string): (r: Option<string>)
    ensures r.None? <==> forall i :: 0 <= i < |s| ==> !MatchesAt(s, i)
    ensures r.Some? ==> exists i :: MatchesAt(s, i) && r.value == TokenAt(s, i) &&
                                    forall k :: 0 <= k < i ==> !MatchesAt(s, k)
  {
    FindFromSpec(s, 0);
    FindFrom(s, 0)
  }
}
