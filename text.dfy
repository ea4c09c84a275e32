/** Strings as the source uses them: lowercasing and `String.prototype.includes`. */
module Text {

  /** ASCII lowercasing of one character. */
  function LowerChar(c: char): (d: char)
    ensures !('A' <= d <= 'Z')
    ensures c == d || ('A' <= c <= 'Z' && d as int == c as int + 32)
  {
    if 'A' <= c <= 'Z' then (c as int + 32) as char else c
  }

  /** `s.toLowerCase()`, restricted to ASCII letters. */
  function Lower(s: string): (r: string)
    ensures |r| == |s|
    ensures forall i :: 0 <= i < |s| ==> r[i] == LowerChar(s[i])
  {
    seq(|s|, i requires 0 <= i < |s| => LowerChar(s[i]))
  }

  /** Lowercasing a slice is slicing the lowercased text. */
  lemma {:induction false} LowerSlice(s: string, i: int, j: int)
    requires 0 <= i <= j <= |s|
    ensures Lower(s)[i..j] == Lower(s[i..j])
  {
    forall k | 0 <= k < j - i
      ensures Lower(s)[i..j][k] == Lower(s[i..j])[k]
    {
      assert s[i..j][k] == s[i + k];
    }
  }

  /** Lowercasing twice is lowercasing once: a lowercased query stays as it is. */
  lemma {:induction false} LowerIdempotent(s: string)
    ensures Lower(Lower(s)) == Lower(s)
  {
  }

  /** `w` occurs in `s` starting at index `i`. */
  predicate OccursAt(s: string, w: string, i: int)
  {
    0 <= i && i + |w| <= |s| && s[i..i + |w|] == w
  }

  /** Some stretch of `s` starting at index `i` equals `w` up to the case of ASCII letters. */
  predicate OccursAtAnyCase(s: string, w: string, i: int)
  {
    0 <= i && i + |w| <= |s| && Lower(s[i..i + |w|]) == Lower(w)
  }

  /** `s.includes(w)`: plain substring containment, no word boundaries. */
  function Contains(s: string, w: string): bool
    decreases |s|
  {
    if |w| > |s| then false
    else s[..|w|] == w || (s != [] && Contains(s[1..], w))
  }

  /** Contains holds exactly when there is a position where `w` occurs. */
  lemma {:induction false} ContainsIff(s: string, w: string)
    ensures Contains(s, w) <==> exists i :: OccursAt(s, w, i)
    decreases |s|
  {
    if |w| > |s| {
    } else if s[..|w|] == w {
      assert OccursAt(s, w, 0);
    } else if s == [] {
    } else {
      ContainsIff(s[1..], w);
      forall i | OccursAt(s, w, i)
        ensures OccursAt(s[1..], w, i - 1)
      {
        assert i != 0;
        assert s[1..][i - 1..i - 1 + |w|] == s[i..i + |w|];
      }
      forall i | OccursAt(s[1..], w, i)
        ensures OccursAt(s, w, i + 1)
      {
        assert s[1..][i..i + |w|] == s[i + 1..i + 1 + |w|];
      }
    }
  }

  /** A witness position is enough to establish containment. */
  lemma {:induction false} ContainsAt(s: string, w: string, i: int)
    requires OccursAt(s, w, i)
    ensures Contains(s, w)
  {
    ContainsIff(s, w);
  }

  /** A text made only of spaces contains only words made only of spaces. */
  lemma {:induction false} ContainsInBlank(s: string, w: string)
    requires forall i :: 0 <= i < |s| ==> s[i] == ' '
    requires exists i :: 0 <= i < |w| && w[i] != ' '
    ensures !Contains(s, w)
  {
    ContainsIff(s, w);
    var i :| 0 <= i < |w| && w[i] != ' ';
    forall j | 0 <= j && j + |w| <= |s|
      ensures !OccursAt(s, w, j)
    {
      assert s[j..j + |w|][i] == ' ' != w[i];
    }
  }
}
