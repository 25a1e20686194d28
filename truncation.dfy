/** Truncation at a word boundary with an ellipsis (`truncate` in src/formatter.rs). Lengths
    are counted in characters; the text is taken to be ASCII, where Rust's byte lengths and
    byte offsets agree with them. */
module Truncation {
  import opened Errors
  import opened Text

  /** `str::rfind(' ')`: the index of the last space, if any. */
  function LastSpace(s: string): (r: Option<nat>)
    ensures r.Some? ==> r.value < |s| && s[r.value] == ' '
    ensures r.Some? ==> forall k :: r.value < k < |s| ==> s[k] != ' '
    ensures r.None? ==> forall k :: 0 <= k < |s| ==> s[k] != ' '
    decreases |s|
  {
    if s == [] then None
    else if s[|s| - 1] == ' ' then Some(|s| - 1)
    else
      var r := LastSpace(s[..|s| - 1]);
      assert forall k :: 0 <= k < |s| - 1 ==> s[..|s| - 1][k] == s[k];
      r
  }

  /** The inputs on which `truncate` does not panic: the hard cut computes `max_length - 3`
      on an unsigned integer, so it needs `max_length >= 3`. */
  predicate TruncateDefined(s: string, max: nat)
    ensures |s| <= max ==> TruncateDefined(s, max)
    ensures max >= 3 ==> TruncateDefined(s, max)
  {
    |s| <= max || LastSpace(s[..max]).Some? || max >= 3
  }

  /** `truncate`: short text is kept; otherwise cut before the last space among the first
      `max` characters, or, without one, after `max - 3` characters, and append "...". */
  function Truncate(s: string, max: nat): (r: string)
    requires TruncateDefined(s, max)
    ensures |s| <= max ==> r == s
    ensures |s| > max ==> forall k :: 0 <= k < max && s[k] == ' ' && (forall j :: k < j < max ==> s[j] != ' ') ==>
              r == s[..k] + "..."
    ensures |s| > max && (forall j :: 0 <= j < max ==> s[j] != ' ') ==> r == s[..max - 3] + "..." && |r| == max
    ensures |r| <= max + 2
    ensures CharsFrom(r, s, {'.'})
    ensures r == [] <==> s == []
  {
    if |s| <= max then s
    else
      var head := s[..max];
      match LastSpace(head)
      case Some(k) =>
        assert forall j :: 0 <= j < max ==> head[j] == s[j];
        var r := s[..k] + "...";
        assert CharsFrom(r, s, {'.'}) by {
          forall p | 0 <= p < |r| ensures r[p] in s || r[p] in {'.'} {
            if p < k {
              assert r[p] == s[p];
            }
          }
        }
        r
      case None =>
        assert forall j :: 0 <= j < max ==> head[j] == s[j];
        var r := s[..max - 3] + "...";
        assert CharsFrom(r, s, {'.'}) by {
          forall p | 0 <= p < |r| ensures r[p] in s || r[p] in {'.'} {
            if p < max - 3 {
              assert r[p] == s[p];
            }
          }
        }
        r
  }

  /** The space cut does not stay within the limit: when the last space before the limit is its
      final position, the result is two characters longer than the limit. */
  lemma TruncateOvershoot(s: string, max: nat)
    requires |s| > max > 0 && s[max - 1] == ' '
    ensures |Truncate(s, max)| == max + 2
  {
    assert LastSpace(s[..max]) == Some(max - 1);
  }

  /** A cut text ends in "..." and what precedes it is a prefix of the original. */
  lemma TruncatePrefix(s: string, max: nat)
    requires TruncateDefined(s, max) && |s| > max
    ensures var r := Truncate(s, max); |r| >= 3 && r[|r| - 3..] == "..." && r[..|r| - 3] == s[..|r| - 3]
  {
    var r := Truncate(s, max);
    match LastSpace(s[..max])
    case Some(k) =>
      assert forall j :: 0 <= j < max ==> s[..max][j] == s[j];
      assert r == s[..k] + "...";
    case None =>
      assert r == s[..max - 3] + "...";
  }
}
