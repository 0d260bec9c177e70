/** The parts of Go's `strings` package the parser relies on, and the
    helpers that define them, over strings modelled as sequences of
    characters. */
module Strings {

  function Min(a: nat, b: nat): nat {
    if a <= b then a else b
  }

  /** `s` starts with `p` (a helper of this model: the parser itself only
      uses `strings.Contains`). */
  predicate HasPrefix(s: string, p: string) {
    |p| <= |s| && s[..|p|] == p
  }

  /** `strings.Contains`: `sub` starts at some position of `s`. */
  predicate Contains(s: string, sub: string)
    decreases |s|
  {
    HasPrefix(s, sub) || (|s| > 0 && Contains(s[1..], sub))
  }

  /** `sub` occupies positions `i` .. `i + |sub|` of `s`. */
  ghost predicate OccursAt(s: string, sub: string, i: nat) {
    i + |sub| <= |s| && s[i..i + |sub|] == sub
  }

  /** `Contains` holds exactly when `sub` occurs at some position. */
  lemma {:induction false} ContainsIff(s: string, sub: string)
    ensures Contains(s, sub) <==> exists i: nat :: OccursAt(s, sub, i)
    decreases |s|
  {
    if Contains(s, sub) {
      if HasPrefix(s, sub) {
        assert OccursAt(s, sub, 0);
      } else {
        ContainsIff(s[1..], sub);
        var i: nat :| OccursAt(s[1..], sub, i);
        assert s[1..][i..i + |sub|] == s[i + 1..i + 1 + |sub|];
        assert OccursAt(s, sub, i + 1);
      }
    }
    if exists i: nat :: OccursAt(s, sub, i) {
      var i: nat :| OccursAt(s, sub, i);
      if i == 0 {
        assert HasPrefix(s, sub);
      } else {
        assert s[1..][i - 1..i - 1 + |sub|] == s[i..i + |sub|];
        assert OccursAt(s[1..], sub, i - 1);
        ContainsIff(s[1..], sub);
      }
    }
  }

  /** A string that contains `sub` is at least as long as `sub`. */
  lemma {:induction false} ContainsIsLongEnough(s: string, sub: string)
    requires Contains(s, sub)
    ensures |sub| <= |s|
    decreases |s|
  {
    if !HasPrefix(s, sub) {
      ContainsIsLongEnough(s[1..], sub);
    }
  }

  /** Number of occurrences of the character `c` in `s`. */
  function Count(s: string, c: char): nat {
    if |s| == 0 then 0 else (if s[0] == c then 1 else 0) + Count(s[1..], c)
  }

  /** `s` with every `c` removed; all other characters keep their order. */
  function Strip(s: string, c: char): (r: string)
    ensures |r| == |s| - Count(s, c)
    ensures c !in r
  {
    if |s| == 0 then [] else (if s[0] == c then [] else [s[0]]) + Strip(s[1..], c)
  }

  lemma {:induction false} CountAppend(a: string, b: string, c: char)
    ensures Count(a + b, c) == Count(a, c) + Count(b, c)
  {
    if |a| == 0 {
      assert a + b == b;
    } else {
      assert (a + b)[1..] == a[1..] + b;
      CountAppend(a[1..], b, c);
    }
  }

  lemma {:induction false} StripAppend(a: string, b: string, c: char)
    ensures Strip(a + b, c) == Strip(a, c) + Strip(b, c)
  {
    if |a| == 0 {
      assert a + b == b;
    } else {
      assert (a + b)[1..] == a[1..] + b;
      StripAppend(a[1..], b, c);
    }
  }

  /** `strings.Replace(s, string(c), "", n)` for a non-negative `n`: the
      first `n` occurrences of `c` (all of them when there are fewer) are
      deleted, wherever they are. */
  function RemoveFirst(s: string, c: char, n: nat): (r: string)
    ensures Count(r, c) == Count(s, c) - Min(n, Count(s, c))
    ensures Strip(r, c) == Strip(s, c)
    ensures |r| == |s| - Min(n, Count(s, c))
  {
    if n == 0 || |s| == 0 then s
    else if s[0] == c then RemoveFirst(s[1..], c, n - 1)
    else [s[0]] + RemoveFirst(s[1..], c, n)
  }

  /** Where `RemoveFirst(s, c, n)` stops deleting: just past the last
      occurrence of `c` it removes. */
  function Cut(s: string, c: char, n: nat): (j: nat)
    ensures j <= |s|
  {
    if n == 0 || |s| == 0 then 0
    else 1 + Cut(s[1..], c, if s[0] == c then n - 1 else n)
  }

  /** `RemoveFirst` deletes exactly the occurrences of `c` in the prefix of
      `s` that holds its first `Min(n, Count(s, c))` of them, and leaves the
      rest of `s` untouched. */
  lemma {:induction false} RemoveFirstSplits(s: string, c: char, n: nat)
    ensures Count(s[..Cut(s, c, n)], c) == Min(n, Count(s, c))
    ensures RemoveFirst(s, c, n) == Strip(s[..Cut(s, c, n)], c) + s[Cut(s, c, n)..]
  {
    if n == 0 || |s| == 0 {
      assert s[..0] == [];
    } else {
      var m := if s[0] == c then n - 1 else n;
      RemoveFirstSplits(s[1..], c, m);
      ExtendCut(s, c, Cut(s[1..], c, m));
    }
  }

  /** Moving a cut of `s[1..]` one position right gives the cut of `s`. */
  lemma ExtendCut(s: string, c: char, j: nat)
    requires 0 < |s| && j <= |s| - 1
    ensures Count(s[..j + 1], c) == (if s[0] == c then 1 else 0) + Count(s[1..][..j], c)
    ensures Strip(s[..j + 1], c) == (if s[0] == c then [] else [s[0]]) + Strip(s[1..][..j], c)
    ensures s[j + 1..] == s[1..][j..]
  {
    var head := s[..j + 1];
    assert head[0] == s[0];
    assert head[1..] == s[1..][..j];
  }
}
