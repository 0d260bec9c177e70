// The regular expression `^http|https+://*$` that decides which fieldset
// lines of a notification page are forwarded. Its alternation binds
// loosest, so a text matches when it starts with "http", or when it ends
// with "http", one or more 's', ':' and one or more '/'.
module LinkPattern {
  import opened Strings

  /** `n` copies of `c`. */
  function Rep(c: char, n: nat): (r: string)
    ensures |r| == n
    ensures forall k :: 0 <= k < n ==> r[k] == c
  {
    if n == 0 then [] else [c] + Rep(c, n - 1)
  }

  // The words of the second alternative `https+://*` ("http", `n` times
  // 's', ':' and `m` times '/'), for `n` and `m` at least 1.
  function SecureRoot(n: nat, m: nat): string {
    "http" + Rep('s', n) + ":" + Rep('/', m)
  }

  /** `t` ends, from position `i` on, with a word of the second alternative. */
  ghost predicate SecureRootAt(t: string, i: nat, n: nat, m: nat) {
    1 <= n && 1 <= m && i <= |t| && t[i..] == SecureRoot(n, m)
  }

  /** The regular expression's meaning: the first alternative is anchored at
      the start only, the second at the end only. */
  ghost predicate PatternMatches(t: string) {
    HasPrefix(t, "http") || exists i: nat, n: nat, m: nat :: SecureRootAt(t, i, n, m)
  }

  /** The length of the longest run of `c` that ends just before position
      `e` of `t`. */
  function RunBefore(t: string, c: char, e: nat): (r: nat)
    requires e <= |t|
    ensures r <= e
    ensures forall k :: e - r <= k < e ==> t[k] == c
    ensures r < e ==> t[e - r - 1] != c
    decreases e
  {
    if e == 0 || t[e - 1] != c then 0 else 1 + RunBefore(t, c, e - 1)
  }

  /** The second alternative, decided from the end of `t`: a run of '/',
      then ':', then a run of 's', then "http". */
  predicate EndsWithSecureRoot(t: string) {
    var m := RunBefore(t, '/', |t|);
    && 1 <= m && m < |t| && t[|t| - m - 1] == ':'
    && var n := RunBefore(t, 's', |t| - m - 1);
       && 1 <= n && 4 <= |t| - m - 1 - n
       && t[|t| - m - 1 - n - 4..|t| - m - 1 - n] == "http"
  }

  /** `regexp.Match` for the pattern, as the parser uses it. */
  predicate Matches(t: string) {
    HasPrefix(t, "http") || EndsWithSecureRoot(t)
  }

  lemma SecureRootChars(n: nat, m: nat)
    ensures |SecureRoot(n, m)| == 5 + n + m
    ensures forall k :: 0 <= k < 4 ==> SecureRoot(n, m)[k] == "http"[k]
    ensures forall k :: 4 <= k < 4 + n ==> SecureRoot(n, m)[k] == 's'
    ensures SecureRoot(n, m)[4 + n] == ':'
    ensures forall k :: 5 + n <= k < 5 + n + m ==> SecureRoot(n, m)[k] == '/'
  {
  }

  /** A run of exactly `m` characters `c` ends before `e` when the character
      before it, if any, is not `c`. */
  lemma RunBeforeIs(t: string, c: char, e: nat, m: nat)
    requires m <= e <= |t|
    requires forall k :: e - m <= k < e ==> t[k] == c
    requires m < e ==> t[e - m - 1] != c
    ensures RunBefore(t, c, e) == m
  {
  }

  /** A text laid out as "http", `n` times 's', ':' and `m` times '/' from
      position `i` on is a word of the second alternative there. */
  lemma SecureRootLayout(t: string, i: nat, n: nat, m: nat)
    requires 1 <= n && 1 <= m && i + 5 + n + m == |t|
    requires t[i..i + 4] == "http"
    requires forall k :: i + 4 <= k < i + 4 + n ==> t[k] == 's'
    requires t[i + 4 + n] == ':'
    requires forall k :: i + 5 + n <= k < |t| ==> t[k] == '/'
    ensures SecureRootAt(t, i, n, m)
  {
  }

  /** Deciding the second alternative from the end agrees with its meaning. */
  lemma EndsWithSecureRootIff(t: string)
    ensures EndsWithSecureRoot(t) <==> exists i: nat, n: nat, m: nat :: SecureRootAt(t, i, n, m)
  {
    if EndsWithSecureRoot(t) {
      var m := RunBefore(t, '/', |t|);
      var n := RunBefore(t, 's', |t| - m - 1);
      SecureRootLayout(t, |t| - m - 1 - n - 4, n, m);
    }
    if exists i: nat, n: nat, m: nat :: SecureRootAt(t, i, n, m) {
      var i: nat, n: nat, m: nat :| SecureRootAt(t, i, n, m);
      SecureRootDecided(t, i, n, m);
    }
  }

  lemma SecureRootDecided(t: string, i: nat, n: nat, m: nat)
    requires SecureRootAt(t, i, n, m)
    ensures EndsWithSecureRoot(t)
  {
    var w := SecureRoot(n, m);
    SecureRootChars(n, m);
    assert forall k :: i <= k < |t| ==> t[k] == w[k - i];
    RunBeforeIs(t, '/', |t|, m);
    assert t[i + 3] == 'p';
    RunBeforeIs(t, 's', |t| - m - 1, n);
    assert t[i..i + 4] == "http";
  }

  /** The decision procedure is exactly the regular expression. */
  lemma MatchesIff(t: string)
    ensures Matches(t) <==> PatternMatches(t)
  {
    EndsWithSecureRootIff(t);
  }

  /** A sentence that only mentions a link is not forwarded: the pattern is
      anchored at the start, and the text does not end in "://". */
  lemma EmbeddedLinkIsNotMatched()
    ensures !Matches("Link: http://x")
  {
    var t := "Link: http://x";
    assert t[..4][0] == t[0] == 'L';
    assert "http"[0] == 'h';
    assert RunBefore(t, '/', |t|) == 0;
  }
}
